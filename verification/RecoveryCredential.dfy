/** The credential file of an offline administrator recovery: its text, the strict
    parser, and what its content says about the account. */
module RecoveryCredential {
  import opened Common
  import Decimal
  import opened Text

  const MAX_VERSION: nat := 0xffff_ffff_ffff_ffff
  const MAX_USERNAME_RUNES: nat := 255
  const MAX_USER_ID_BYTES: nat := 256
  const MIN_PASSWORD: nat := 8
  const MAX_PASSWORD: nat := 72

  const TITLE := "MnemoNAS Administrator Password Recovery"
  const MARKER_FIELD := "Recovery Marker"
  const MARKER := "mnemonas-admin-password-recovery"
  const SCHEMA_FIELD := "Recovery Schema"
  const SCHEMA := "1"
  const USERNAME_FIELD := "Username"
  const USER_ID_FIELD := "User ID"
  const VERSION_FIELD := "Previous Credential Version"
  const PASSWORD_FIELD := "Password"

  datatype Credential = Credential(username: string, userId: string, previousVersion: nat, password: string)

  predicate ValidUsername(s: string) {
    var trimmed := TrimSpace(s);
    && trimmed != "" && trimmed != "." && trimmed != ".."
    && |trimmed| <= MAX_USERNAME_RUNES
    && '/' !in trimmed && '\\' !in trimmed && !HasControl(trimmed)
  }

  predicate ValidUserId(s: string) {
    0 < |s| <= MAX_USER_ID_BYTES && !HasControl(s)
  }

  predicate ValidPassword(s: string) {
    TrimSpace(s) != "" && MIN_PASSWORD <= |s| <= MAX_PASSWORD
  }

  function Line(field: string, value: string): string {
    field + ": " + value
  }

  function LinesOf(c: Credential): (lines: seq<string>)
    ensures |lines| == 7
  {
    [TITLE, Line(MARKER_FIELD, MARKER), Line(SCHEMA_FIELD, SCHEMA), Line(USERNAME_FIELD, c.username),
     Line(USER_ID_FIELD, c.userId), Line(VERSION_FIELD, Decimal.Format(c.previousVersion)),
     Line(PASSWORD_FIELD, c.password)]
  }

  function Marshal(c: Credential): string {
    Join(LinesOf(c), '\n') + "\n"
  }

  function ParseLine(line: string, field: string): Option<string> {
    var prefix := field + ": ";
    if !HasPrefix(line, prefix) || |line| == |prefix| then None else Some(line[|prefix|..])
  }

  /** Unsigned decimal text of at most 64 bits; leading zeros are accepted here. */
  function ParseVersion(s: string): Option<nat> {
    if s == "" || !Decimal.AllDigits(s) || Decimal.ValueOf(s) > MAX_VERSION then None else Some(Decimal.ValueOf(s))
  }

  function TrimFinalNewline(s: string): string {
    if s != "" && s[|s| - 1] == '\n' then s[..|s| - 1] else s
  }

  function Parse(data: string): Option<Credential> {
    var lines := Split(TrimFinalNewline(data), '\n');
    if |lines| != 7 || lines[0] != TITLE then None
    else if ParseLine(lines[1], MARKER_FIELD) != Some(MARKER) then None
    else if ParseSchema(lines[2]) != Some(1) then None
    else
      var username := ParseLine(lines[3], USERNAME_FIELD);
      var userId := ParseLine(lines[4], USER_ID_FIELD);
      var version := ParseLine(lines[5], VERSION_FIELD);
      var password := ParseLine(lines[6], PASSWORD_FIELD);
      if username.None? || !ValidUsername(username.value) then None
      else if userId.None? || !ValidUserId(userId.value) then None
      else if version.None? || ParseVersion(version.value).None? || ParseVersion(version.value).value == 0 then None
      else if password.None? || !ValidPassword(password.value) then None
      else Some(Credential(username.value, userId.value, ParseVersion(version.value).value, password.value))
  }

  function ParseSchema(line: string): Option<nat> {
    var text := ParseLine(line, SCHEMA_FIELD);
    if text.None? then None
    else if HasPrefix(text.value, "+") then ParseVersion(text.value[1..])
    else ParseVersion(text.value)
  }

  /** What a generated credential is: every field passes its check and no field breaks the line. */
  predicate WellFormed(c: Credential) {
    && ValidUsername(c.username) && '\n' !in c.username
    && ValidUserId(c.userId)
    && 0 < c.previousVersion <= MAX_VERSION
    && ValidPassword(c.password) && '\n' !in c.password
  }

  lemma LineParses(field: string, value: string)
    ensures ParseLine(Line(field, value), field) == if value == "" then None else Some(value)
  {
    var prefix := field + ": ";
    assert Line(field, value) == prefix + value;
  }

  lemma NoControlNoNewline(s: string)
    requires !HasControl(s)
    ensures '\n' !in s
  {
    assert forall i :: 0 <= i < |s| ==> !IsControl(s[i]);
  }

  lemma {:induction false} DigitsHaveNoNewline(s: string)
    requires Decimal.AllDigits(s)
    ensures '\n' !in s
  {
  }

  lemma TextOfMarshal(c: Credential)
    ensures TrimFinalNewline(Marshal(c)) == Join(LinesOf(c), '\n')
  {
  }

  /** The file's lines come back from its text when no field holds a line break. */
  lemma LinesComeBack(c: Credential)
    requires '\n' !in c.username && '\n' !in c.userId && '\n' !in c.password
    ensures Split(TrimFinalNewline(Marshal(c)), '\n') == LinesOf(c)
  {
    hide Marshal, LinesOf, Split;
    TextOfMarshal(c);
    LinesHaveNoNewline(c);
    SplitOfJoin(LinesOf(c), '\n');
  }

  lemma LinesHaveNoNewline(c: Credential)
    requires '\n' !in c.username && '\n' !in c.userId && '\n' !in c.password
    ensures |LinesOf(c)| >= 1 && forall i :: 0 <= i < |LinesOf(c)| ==> '\n' !in LinesOf(c)[i]
  {
    hide Line, TITLE, MARKER, SCHEMA, MARKER_FIELD, SCHEMA_FIELD, USERNAME_FIELD, USER_ID_FIELD, VERSION_FIELD, PASSWORD_FIELD;
    ConstantsHaveNoNewline();
    FieldsHaveNoNewline();
    LineHasNoNewline(MARKER_FIELD, MARKER);
    LineHasNoNewline(SCHEMA_FIELD, SCHEMA);
    LineHasNoNewline(USERNAME_FIELD, c.username);
    LineHasNoNewline(USER_ID_FIELD, c.userId);
    DigitsHaveNoNewline(Decimal.Format(c.previousVersion));
    LineHasNoNewline(VERSION_FIELD, Decimal.Format(c.previousVersion));
    LineHasNoNewline(PASSWORD_FIELD, c.password);
  }

  lemma ConstantsHaveNoNewline()
    ensures '\n' !in TITLE && '\n' !in MARKER && '\n' !in SCHEMA
  {
  }

  lemma FieldsHaveNoNewline()
    ensures '\n' !in MARKER_FIELD && '\n' !in SCHEMA_FIELD && '\n' !in USERNAME_FIELD
    ensures '\n' !in USER_ID_FIELD && '\n' !in VERSION_FIELD && '\n' !in PASSWORD_FIELD
  {
  }

  lemma LineHasNoNewline(field: string, value: string)
    requires '\n' !in field && '\n' !in value
    ensures '\n' !in Line(field, value)
  {
  }

  lemma FieldsParse(c: Credential)
    ensures var lines := LinesOf(c);
            && lines[0] == TITLE
            && ParseLine(lines[1], MARKER_FIELD) == Some(MARKER)
            && ParseSchema(lines[2]) == Some(1)
            && ParseLine(lines[3], USERNAME_FIELD) == (if c.username == "" then None else Some(c.username))
            && ParseLine(lines[4], USER_ID_FIELD) == (if c.userId == "" then None else Some(c.userId))
            && ParseLine(lines[5], VERSION_FIELD) == Some(Decimal.Format(c.previousVersion))
            && ParseLine(lines[6], PASSWORD_FIELD) == (if c.password == "" then None else Some(c.password))
  {
    LineParses(MARKER_FIELD, MARKER);
    LineParses(SCHEMA_FIELD, SCHEMA);
    Decimal.FormatRoundTrips(1);
    assert Decimal.Format(1) == SCHEMA;
    LineParses(USERNAME_FIELD, c.username);
    LineParses(USER_ID_FIELD, c.userId);
    LineParses(VERSION_FIELD, Decimal.Format(c.previousVersion));
    LineParses(PASSWORD_FIELD, c.password);
  }

  lemma ParsedFieldsHaveNoNewline(data: string)
    requires Parse(data).Some?
    ensures WellFormed(Parse(data).value)
  {
    NoControlNoNewline(Parse(data).value.userId);
  }

  lemma WellFormedComesBack(c: Credential)
    requires WellFormed(c)
    ensures Parse(Marshal(c)) == Some(c)
  {
    hide LinesOf, Marshal, ParseLine, Line, Split, TrimFinalNewline, ValidUsername, ValidUserId, ValidPassword;
    WellFormedHasNoNewline(c);
    LinesComeBack(c);
    FieldsParse(c);
    Decimal.FormatRoundTrips(c.previousVersion);
  }

  lemma WellFormedHasNoNewline(c: Credential)
    requires WellFormed(c)
    ensures '\n' !in c.username && '\n' !in c.userId && '\n' !in c.password
    ensures c.username != "" && c.userId != "" && c.password != ""
  {
    NoControlNoNewline(c.userId);
  }

  /** The parser reads back a written credential exactly when the credential is well formed. */
  lemma MarshalRoundTrips(c: Credential)
    ensures Parse(Marshal(c)) == Some(c) <==> WellFormed(c)
  {
    if WellFormed(c) {
      WellFormedComesBack(c);
    } else if Parse(Marshal(c)).Some? {
      ParsedFieldsHaveNoNewline(Marshal(c));
    }
  }

  predicate ContainsText(s: string, part: string) {
    exists i :: 0 <= i <= |s| && HasPrefix(s[i..], part)
  }

  /** Text that claims to be a recovery credential, well formed or not. */
  predicate IsRecoveryData(data: string) {
    ContainsText(data, MARKER_FIELD + ":") || ContainsText(data, SCHEMA_FIELD + ":")
  }

  lemma MarshalIsRecoveryData(c: Credential)
    ensures IsRecoveryData(Marshal(c))
  {
    var data, part, start := Marshal(c), MARKER_FIELD + ":", |TITLE| + 1;
    var lines := LinesOf(c);
    assert Join(lines, '\n') == lines[0] + ['\n'] + Join(lines[1..], '\n');
    assert lines[1..][0] == part + " " + MARKER;
    assert HasPrefix(data[start..], part);
  }

  function FieldValues(lines: seq<string>, field: string): seq<string> {
    if lines == [] then []
    else
      (if HasPrefix(lines[0], field + ": ") then [lines[0][|field| + 2..]] else []) + FieldValues(lines[1..], field)
  }

  /** The first-start password file: exactly one user name and one password line. */
  function ParseBootstrap(data: string): Option<(string, string)> {
    var lines := Split(data, '\n');
    var usernames, passwords := FieldValues(lines, USERNAME_FIELD), FieldValues(lines, PASSWORD_FIELD);
    if |usernames| != 1 || |passwords| != 1 || !ValidUsername(usernames[0]) || !ValidPassword(passwords[0]) then None
    else Some((usernames[0], passwords[0]))
  }

  // ----- What the parsers accept -----

  lemma NameExactly(s: string)
    ensures ValidUsername(s) <==>
              var t := TrimSpace(s);
              && 0 < |t| <= 255 && t != "." && t != ".."
              && forall i :: 0 <= i < |t| ==> t[i] != '/' && t[i] != '\\' && !IsControl(t[i])
  {
    hide TrimSpace, IsControl;
    var t := TrimSpace(s);
    assert forall i :: 0 <= i < |t| ==> t[i] in t;
  }

  /** A text of exactly the field, a colon, a blank and a value that is not empty. */
  lemma LineExactly(line: string, field: string, value: string)
    ensures ParseLine(line, field) == Some(value) <==> line == field + ": " + value && value != ""
  {
    var prefix := field + ": ";
    if ParseLine(line, field) == Some(value) {
      assert line == prefix + line[|prefix|..];
    }
    LineParses(field, value);
  }

  /** A number of at most 64 bits, with leading zeros or not. */
  predicate Denotes(digits: string, n: nat) {
    digits != "" && Decimal.AllDigits(digits) && Decimal.ValueOf(digits) == n <= 0xffff_ffff_ffff_ffff
  }

  lemma NumberHasDigits(digits: string, n: nat)
    ensures ParseVersion(digits) == Some(n) <==> Denotes(digits, n)
    ensures Denotes(digits, n) ==> !HasPrefix(digits, "+")
  {
    assert digits != "" ==> (HasPrefix(digits, "+") <==> digits[0] == '+');
  }

  predicate SchemaIsOne(line: string, digits: string) {
    Denotes(digits, 1) && (line == SCHEMA_FIELD + ": " + digits || line == SCHEMA_FIELD + ": " + ("+" + digits))
  }

  lemma SchemaExactly(line: string)
    ensures ParseSchema(line) == Some(1) <==> exists digits: string :: SchemaIsOne(line, digits)
  {
    hide ParseVersion, ParseLine, SCHEMA_FIELD, Denotes;
    if ParseSchema(line) == Some(1) {
      var text := ParseLine(line, SCHEMA_FIELD).value;
      LineExactly(line, SCHEMA_FIELD, text);
      var digits := if HasPrefix(text, "+") then text[1..] else text;
      NumberHasDigits(digits, 1);
      assert HasPrefix(text, "+") ==> text == "+" + digits;
      assert SchemaIsOne(line, digits);
    } else if exists digits: string :: SchemaIsOne(line, digits) {
      var digits: string :| SchemaIsOne(line, digits);
      NumberHasDigits(digits, 1);
      DenotesIsNotEmpty(digits, 1);
      LineExactly(line, SCHEMA_FIELD, digits);
      LineExactly(line, SCHEMA_FIELD, "+" + digits);
      assert ("+" + digits)[1..] == digits;
    }
  }

  lemma DenotesIsNotEmpty(digits: string, n: nat)
    ensures Denotes(digits, n) ==> digits != ""
  {
  }

  predicate VersionIs(line: string, digits: string, version: nat) {
    Denotes(digits, version) && line == VERSION_FIELD + ": " + digits
  }

  lemma VersionExactly(line: string, version: nat)
    ensures (ParseLine(line, VERSION_FIELD).Some? && ParseVersion(ParseLine(line, VERSION_FIELD).value) == Some(version)) <==>
              exists digits: string :: VersionIs(line, digits, version)
  {
    hide ParseVersion, ParseLine, VERSION_FIELD, Denotes;
    if ParseLine(line, VERSION_FIELD).Some? {
      var text := ParseLine(line, VERSION_FIELD).value;
      LineExactly(line, VERSION_FIELD, text);
      NumberHasDigits(text, version);
      assert ParseVersion(text) == Some(version) ==> VersionIs(line, text, version);
    }
    if exists digits: string :: VersionIs(line, digits, version) {
      var digits: string :| VersionIs(line, digits, version);
      NumberHasDigits(digits, version);
      DenotesIsNotEmpty(digits, version);
      LineExactly(line, VERSION_FIELD, digits);
    }
  }

  /** The seven lines of a credential, in their order: the right title and marker, the schema number
      one, a version from 1 to 2^64-1, and fields that pass their checks. */
  ghost predicate SevenLines(lines: seq<string>, c: Credential) {
    && |lines| == 7 && lines[0] == TITLE && lines[1] == MARKER_FIELD + ": " + MARKER
    && (exists digits: string :: SchemaIsOne(lines[2], digits))
    && lines[3] == USERNAME_FIELD + ": " + c.username && ValidUsername(c.username)
    && lines[4] == USER_ID_FIELD + ": " + c.userId && 0 < |c.userId| <= 256 && !HasControl(c.userId)
    && c.previousVersion != 0 && (exists digits: string :: VersionIs(lines[5], digits, c.previousVersion))
    && lines[6] == PASSWORD_FIELD + ": " + c.password && 8 <= |c.password| <= 72 && TrimSpace(c.password) != ""
  }

  /** A file is a credential if and only if it has exactly these lines, with an optional line
      break at the end. */
  lemma ParsedExactlyWhen(data: string, c: Credential)
    ensures Parse(data) == Some(c) <==>
              SevenLines(Split(if data != "" && data[|data| - 1] == '\n' then data[..|data| - 1] else data, '\n'), c)
  {
    hide Split, ParseVersion, ParseLine, ParseSchema, ValidUsername, ValidUserId, ValidPassword, SevenLines,
         TITLE, MARKER, MARKER_FIELD, SCHEMA_FIELD, USERNAME_FIELD, USER_ID_FIELD, VERSION_FIELD, PASSWORD_FIELD;
    var lines := Split(TrimFinalNewline(data), '\n');
    if |lines| == 7 {
      LinesParseExactly(lines, c);
    }
    NotSeven(lines, c);
  }

  lemma NotSeven(lines: seq<string>, c: Credential)
    ensures SevenLines(lines, c) ==> |lines| == 7
  {
  }

  lemma LinesParseExactly(lines: seq<string>, c: Credential)
    requires |lines| == 7
    ensures SevenLines(lines, c) <==>
              && lines[0] == TITLE && ParseLine(lines[1], MARKER_FIELD) == Some(MARKER) && ParseSchema(lines[2]) == Some(1)
              && ParseLine(lines[3], USERNAME_FIELD) == Some(c.username) && ValidUsername(c.username)
              && ParseLine(lines[4], USER_ID_FIELD) == Some(c.userId) && ValidUserId(c.userId)
              && ParseLine(lines[5], VERSION_FIELD).Some?
              && ParseVersion(ParseLine(lines[5], VERSION_FIELD).value) == Some(c.previousVersion) && c.previousVersion != 0
              && ParseLine(lines[6], PASSWORD_FIELD) == Some(c.password) && ValidPassword(c.password)
  {
    hide ParseVersion, ParseLine, ParseSchema, ValidUsername, HasControl, TrimSpace, SchemaIsOne, VersionIs,
         TITLE, MARKER, MARKER_FIELD, SCHEMA_FIELD, USERNAME_FIELD, USER_ID_FIELD, VERSION_FIELD, PASSWORD_FIELD;
    MarkerIsNotEmpty();
    SchemaExactly(lines[2]);
    VersionExactly(lines[5], c.previousVersion);
    FieldExactly(lines[1], MARKER_FIELD, MARKER);
    FieldExactly(lines[3], USERNAME_FIELD, c.username);
    FieldExactly(lines[4], USER_ID_FIELD, c.userId);
    FieldExactly(lines[6], PASSWORD_FIELD, c.password);
    NamesAreNotEmpty(c.username);
  }

  lemma MarkerIsNotEmpty()
    ensures MARKER != ""
  {
  }

  lemma FieldExactly(line: string, field: string, value: string)
    ensures value != "" ==> (ParseLine(line, field) == Some(value) <==> line == field + ": " + value)
  {
    LineExactly(line, field, value);
  }

  lemma NamesAreNotEmpty(s: string)
    ensures ValidUsername(s) ==> s != ""
  {
  }

  /** The values of all lines of a field, in their order. */
  lemma {:induction false} FieldValuesExactly(lines: seq<string>, field: string, value: string)
    ensures value in FieldValues(lines, field) <==> (field + ": " + value) in lines
    ensures |FieldValues(lines, field)| <= |lines|
  {
    if lines != [] {
      FieldValuesExactly(lines[1..], field, value);
      var prefix := field + ": ";
      assert HasPrefix(lines[0], prefix) ==> lines[0] == prefix + lines[0][|prefix|..];
      assert (prefix + value)[|prefix|..] == value;
      assert forall line :: line in lines <==> line == lines[0] || line in lines[1..];
    }
  }

  /** A first-start file is read if and only if it has one user name line and one password line
      and both values pass their checks. */
  lemma BootstrapExactlyWhen(data: string, username: string, password: string)
    ensures ParseBootstrap(data) == Some((username, password)) <==>
              && FieldValues(Split(data, '\n'), "Username") == [username]
              && FieldValues(Split(data, '\n'), "Password") == [password]
              && ValidUsername(username) && 8 <= |password| <= 72 && TrimSpace(password) != ""
  {
    hide Split, FieldValues, ValidUsername, TrimSpace;
  }

  /** A text claims to be a recovery credential if one of the two first fields is anywhere in it. */
  lemma RecoveryDataExactly(data: string)
    ensures IsRecoveryData(data) <==>
              exists a: string, b: string :: data == a + "Recovery Marker:" + b || data == a + "Recovery Schema:" + b
  {
    hide ContainsText;
    var marker, schema := "Recovery Marker:", "Recovery Schema:";
    assert MARKER_FIELD + ":" == marker && SCHEMA_FIELD + ":" == schema;
    ContainsExactly(data, marker);
    ContainsExactly(data, schema);
  }

  lemma ContainsExactly(s: string, part: string)
    ensures ContainsText(s, part) <==> exists a: string, b: string :: s == a + part + b
  {
    if ContainsText(s, part) {
      var i :| 0 <= i <= |s| && HasPrefix(s[i..], part);
      assert s == s[..i] + part + s[i..][|part|..];
    }
    if exists a: string, b: string :: s == a + part + b {
      var a: string, b: string :| s == a + part + b;
      assert s[|a|..] == part + b;
      assert HasPrefix(s[|a|..], part);
    }
  }
}

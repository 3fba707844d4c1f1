/** Directory access rules: which rule applies to a path, the three places that decide access
    by them, and that they decide alike. */
module AccessRules {
  import opened Common
  import opened Paths
  import opened Text

  datatype Mode = Read | Write

  datatype Rule = Rule(path: string, readUsers: seq<string>, writeUsers: seq<string>, readRoles: seq<string>,
                       writeRoles: seq<string>, readGroups: seq<string>, writeGroups: seq<string>)

  const ADMIN := "admin"

  datatype User = User(username: string, role: string, groups: seq<string>, homeDir: string, disabled: bool)

  /** What the storage says about a path. */
  datatype Stat = IsDirectory | IsOther | Missing | Broken

  /** The server around a decision; `lower` folds case. */
  datatype Server = Server(authEnabled: bool, rules: seq<Rule>, hasStorage: bool, stat: string -> Stat,
                           lower: string -> string)

  datatype Verdict = Allowed | Denied | Failed

  // ----- Who a rule admits -----

  function Normalized(v: Server, s: string): string {
    v.lower(TrimSpace(s))
  }

  predicate Lists(v: Server, values: seq<string>, name: string) {
    name != "" && exists i :: 0 <= i < |values| && Normalized(v, values[i]) == name
  }

  predicate AllowsUser(v: Server, rule: Rule, user: User, mode: Mode) {
    var users := if mode.Write? then rule.writeUsers else rule.readUsers + rule.writeUsers;
    var roles := if mode.Write? then rule.writeRoles else rule.readRoles + rule.writeRoles;
    var groups := if mode.Write? then rule.writeGroups else rule.readGroups + rule.writeGroups;
    || Lists(v, users, Normalized(v, user.username))
    || Lists(v, roles, Normalized(v, user.role))
    || exists i :: 0 <= i < |user.groups| && Lists(v, groups, Normalized(v, user.groups[i]))
  }

  lemma ListsMore(v: Server, a: seq<string>, b: seq<string>, name: string)
    requires Lists(v, b, name)
    ensures Lists(v, a + b, name)
  {
    var i :| 0 <= i < |b| && Normalized(v, b[i]) == name;
    assert (a + b)[|a| + i] == b[i];
  }

  lemma WriteRuleAllowsRead(v: Server, rule: Rule, user: User)
    ensures AllowsUser(v, rule, user, Write) ==> AllowsUser(v, rule, user, Read)
  {
    if AllowsUser(v, rule, user, Write) {
      if Lists(v, rule.writeUsers, Normalized(v, user.username)) {
        ListsMore(v, rule.readUsers, rule.writeUsers, Normalized(v, user.username));
      } else if Lists(v, rule.writeRoles, Normalized(v, user.role)) {
        ListsMore(v, rule.readRoles, rule.writeRoles, Normalized(v, user.role));
      } else {
        var i :| 0 <= i < |user.groups| && Lists(v, rule.writeGroups, Normalized(v, user.groups[i]));
        ListsMore(v, rule.readGroups, rule.writeGroups, Normalized(v, user.groups[i]));
      }
    }
  }

  // ----- Which rule applies -----

  predicate CoversTarget(rule: Rule, target: string) {
    CleanRulePath(rule.path) != "" && PathWithinBase(CleanRulePath(rule.path), target)
  }

  function Cleaned(rule: Rule): Rule {
    rule.(path := CleanRulePath(rule.path))
  }

  /** The first of the covering rules with the longest path. */
  function LongestCovering(rules: seq<Rule>, target: string): Option<Rule> {
    if rules == [] then None
    else
      var before, last := LongestCovering(rules[..|rules| - 1], target), rules[|rules| - 1];
      if CoversTarget(last, target) && (before.None? || |CleanRulePath(last.path)| > |before.value.path|)
      then Some(Cleaned(last)) else before
  }

  function Match(rules: seq<Rule>, target: string): Option<Rule> {
    var cleaned := CleanRulePath(target);
    if cleaned == "" then None else LongestCovering(rules, cleaned)
  }

  method MatchDirectoryAccessRuleIn(rules: seq<Rule>, target: string) returns (rule: Option<Rule>)
    ensures rule == Match(rules, target)
  {
    hide CleanRulePath, PathWithinBase;
    if |rules| == 0 {
      return None;
    }
    var cleaned := CleanRulePath(target);
    if cleaned == "" {
      return None;
    }
    rule := None;
    for i := 0 to |rules|
      invariant rule == LongestCovering(rules[..i], cleaned)
    {
      assert rules[..i + 1][..i] == rules[..i];
      var path := CleanRulePath(rules[i].path);
      if path != "" && PathWithinBase(path, cleaned) && (rule.None? || |path| > |rule.value.path|) {
        rule := Some(Cleaned(rules[i]));
      }
    }
    assert rules[..|rules|] == rules;
  }

  lemma ShorterMeansPrefix(x: Names, y: Names)
    requires Good(x) && Good(y) && x < y
    ensures |Render(x)| < |Render(y)|
  {
    if x != [] {
      RenderedPrefix(x, y);
    } else {
      NamesOfRender(y);
      NamesOfRender([]);
      assert Join(y, '/') != "";
    }
  }

  /** Of two clean paths that cover the same target, the longer text is the deeper path. */
  lemma LongerIsDeeper(a: string, b: string, target: string)
    requires IsClean(a) && IsClean(b) && PathWithinBase(a, target) && PathWithinBase(b, target)
    ensures |a| <= |b| <==> NamesOf(a) <= NamesOf(b)
    ensures |a| == |b| ==> a == b
  {
    hide NamesOf, Render, PathWithinBase;
    var x, y, t := NamesOf(a), NamesOf(b), NamesOf(target);
    WithinMeansPrefix(a, target);
    WithinMeansPrefix(b, target);
    assert x == t[..|x|] && y == t[..|y|];
    assert x <= y || y < x;
    if x < y {
      ShorterMeansPrefix(x, y);
    } else if y < x {
      ShorterMeansPrefix(y, x);
    }
  }

  lemma {:induction false} LongestIsLongest(rules: seq<Rule>, target: string)
    ensures var r := LongestCovering(rules, target);
            && (r.None? <==> forall i :: 0 <= i < |rules| ==> !CoversTarget(rules[i], target))
            && (r.Some? ==> exists i :: 0 <= i < |rules| && CoversTarget(rules[i], target) && r.value == Cleaned(rules[i]))
            && (r.Some? ==> forall i :: 0 <= i < |rules| && CoversTarget(rules[i], target) ==>
                  |CleanRulePath(rules[i].path)| <= |r.value.path|)
  {
    hide CleanRulePath, PathWithinBase;
    if rules != [] {
      LongestIsLongest(rules[..|rules| - 1], target);
    }
  }

  /** The rule at `i` covers the target, and all covering rules before it have shorter paths. */
  predicate BeatsEarlier(rules: seq<Rule>, target: string, i: int) {
    && 0 <= i < |rules| && CoversTarget(rules[i], target)
    && forall j :: 0 <= j < i && CoversTarget(rules[j], target) ==>
         |CleanRulePath(rules[j].path)| < |CleanRulePath(rules[i].path)|
  }

  lemma StillBeatsEarlier(rules: seq<Rule>, target: string, i: int)
    requires rules != [] && BeatsEarlier(rules[..|rules| - 1], target, i)
    ensures BeatsEarlier(rules, target, i)
  {
    hide CleanRulePath, CoversTarget;
    assert forall j :: 0 <= j < |rules| - 1 ==> rules[..|rules| - 1][j] == rules[j];
  }

  /** Of several covering rules with the longest path, the one listed first is found. */
  lemma {:induction false} FirstOfLongestApplies(rules: seq<Rule>, target: string)
    ensures var r := LongestCovering(rules, target);
            r.Some? ==> exists i :: 0 <= i < |rules| && BeatsEarlier(rules, target, i) && r.value == Cleaned(rules[i])
  {
    hide CleanRulePath, PathWithinBase, CoversTarget, BeatsEarlier;
    if rules != [] {
      var n := |rules| - 1;
      FirstOfLongestApplies(rules[..n], target);
      var before, r := LongestCovering(rules[..n], target), LongestCovering(rules, target);
      if before.Some? && r == before {
        var i :| 0 <= i < n && BeatsEarlier(rules[..n], target, i) && before.value == Cleaned(rules[..n][i]);
        StillBeatsEarlier(rules, target, i);
        assert rules[..n][i] == rules[i];
      } else if r.Some? {
        LongestIsLongest(rules[..n], target);
        LastBeatsEarlier(rules, target);
      }
    }
  }

  lemma LastBeatsEarlier(rules: seq<Rule>, target: string)
    requires rules != [] && CoversTarget(rules[|rules| - 1], target)
    requires var before := LongestCovering(rules[..|rules| - 1], target);
             before.None? || |CleanRulePath(rules[|rules| - 1].path)| > |before.value.path|
    ensures BeatsEarlier(rules, target, |rules| - 1)
  {
    hide CleanRulePath, CoversTarget, LongestCovering;
    LongestIsLongest(rules[..|rules| - 1], target);
    assert forall j :: 0 <= j < |rules| - 1 ==> rules[..|rules| - 1][j] == rules[j];
  }

  /** The rule that applies covers the path, and every other covering rule lies at or above it. */
  ghost predicate MostSpecific(rules: seq<Rule>, target: string) {
    var r := Match(rules, target);
    && (r.None? <==> forall i :: 0 <= i < |rules| ==> !CoversTarget(rules[i], target))
    && (r.Some? ==> exists i :: 0 <= i < |rules| && CoversTarget(rules[i], target) && r.value == Cleaned(rules[i]))
    && (r.Some? ==> forall i :: 0 <= i < |rules| && CoversTarget(rules[i], target) ==>
          NamesOf(CleanRulePath(rules[i].path)) <= NamesOf(r.value.path))
  }

  lemma MostSpecificApplies(rules: seq<Rule>, target: string)
    requires Accepted(target) && target != ""
    ensures MostSpecific(rules, target)
  {
    hide CleanRulePath, PathWithinBase, NamesOf, LongestCovering;
    LongestIsLongest(rules, target);
    var r := Match(rules, target);
    if r.Some? {
      var best :| 0 <= best < |rules| && CoversTarget(rules[best], target) && r.value == Cleaned(rules[best]);
      forall i | 0 <= i < |rules| && CoversTarget(rules[i], target)
        ensures NamesOf(CleanRulePath(rules[i].path)) <= NamesOf(r.value.path)
      {
        CleanedIsClean(rules[i].path);
        CleanedIsClean(rules[best].path);
        LongerIsDeeper(CleanRulePath(rules[i].path), r.value.path, target);
      }
    }
  }

  function RuleFor(path: string): Rule {
    Rule(path, [], [], [], [], [], [])
  }

  /** A rule that covers the target but not what the cleaner makes of it is not found. */
  lemma MissedRule(path: string, target: string)
    requires CoversTarget(RuleFor(path), target)
    requires CleanRulePath(target) != "" ==> !CoversTarget(RuleFor(path), CleanRulePath(target))
    ensures !MostSpecific([RuleFor(path)], target)
  {
    hide CoversTarget, CleanRulePath;
    var rules := [RuleFor(path)];
    var cleaned := CleanRulePath(target);
    assert rules[..0] == [] && rules[|rules| - 1] == RuleFor(path);
    assert cleaned != "" ==> LongestCovering(rules, cleaned).None?;
    assert CoversTarget(rules[0], target);
  }

  lemma RootCovers(target: string)
    ensures CoversTarget(RuleFor("/"), target)
  {
    hide CleanRulePath, PathWithinBase;
    assert Accepted("/") by {
      NamesOfRender([]);
      AcceptedExactlyWhen("/");
    }
    NamesOfRender([]);
    WithinMeansPrefix("/", target);
  }

  lemma LongerDoesNotCover(path: string, target: string)
    requires IsClean(path) && IsClean(target) && |target| < |path|
    ensures !PathWithinBase(path, target) && PathWithinBase(path, path)
  {
    hide PathWithinBase, NamesOf;
    WithinMeansPrefix(path, target);
    WithinMeansPrefix(path, path);
    var x, y := NamesOf(path), NamesOf(target);
    assert x <= y ==> x == y || x < y;
    if x < y {
      ShorterMeansPrefix(x, y);
    }
  }

  /** What the cleaner makes of a clean path that it neither keeps nor refuses is shorter. */
  lemma TrimmedIsShorter(target: string)
    requires IsClean(target) && CleanRulePath(target) != "" && CleanRulePath(target) != target
    ensures |CleanRulePath(target)| < |target|
  {
    assert TrimLeft(target) == target;
    assert TrimSpace(target) <= target;
    CleanIsShorter(TrimSpace(target));
    assert TrimSpace(target) == target ==> CleanRulePath(target) == target;
    SameLengthPrefix(TrimSpace(target), target);
  }

  lemma SameLengthPrefix(a: string, b: string)
    ensures a <= b && |a| == |b| ==> a == b
  {
  }

  /** For the path of a request, the rule that applies is the most specific one whatever the
      rules are, if and only if the cleaner leaves the path alone. */
  lemma MostSpecificExactlyWhen(path: string, target: string)
    requires ValidatePath(path) == Some(target)
    ensures (forall rules: seq<Rule> :: MostSpecific(rules, target)) <==> Accepted(target)
  {
    hide CleanRulePath, MostSpecific, ValidatePath, NamesOf;
    ValidatedIsClean(path);
    ValidatedHasNoControl(path);
    if Accepted(target) {
      forall rules: seq<Rule>
        ensures MostSpecific(rules, target)
      {
        MostSpecificApplies(rules, target);
      }
    } else if CleanRulePath(target) == "" {
      RootCovers(target);
      MissedRule("/", target);
    } else {
      TrimmedIsMissed(target);
    }
  }

  lemma ForbiddenIsRefused(target: string)
    requires IsClean(target)
    ensures HasForbidden(target) ==> CleanRulePath(target) == ""
  {
    assert TrimLeft(target) == target;
    var trimmed := TrimSpace(target);
    if HasForbidden(target) {
      var i :| 0 <= i < |target| && target[i] in "\\?#";
      assert i < |trimmed| && trimmed[i] == target[i];
    }
  }

  lemma TrimmedIsMissed(target: string)
    requires IsClean(target) && !HasControl(target) && CleanRulePath(target) != "" && CleanRulePath(target) != target
    ensures !MostSpecific([RuleFor(target + "/")], target)
  {
    hide CleanRulePath, PathWithinBase, MostSpecific, IsClean;
    ForbiddenIsRefused(target);
    TrimmedIsShorter(target);
    KeptBehindSlash(target);
    CleanedIsClean(target);
    LongerDoesNotCover(target, CleanRulePath(target));
    MissedRule(target + "/", target);
  }

  /** The order of the rules does not matter, unless two of them are for the same path. */
  lemma OrderDoesNotMatter(rules: seq<Rule>, other: seq<Rule>, target: string)
    requires forall r :: r in rules <==> r in other
    requires forall a, b :: a in rules && b in rules && CleanRulePath(a.path) == CleanRulePath(b.path) != "" ==> a == b
    ensures Match(rules, target) == Match(other, target)
  {
    hide CleanRulePath, PathWithinBase, NamesOf;
    var cleaned := CleanRulePath(target);
    if cleaned != "" {
      LongestIsLongest(rules, cleaned);
      LongestIsLongest(other, cleaned);
      var x, y := LongestCovering(rules, cleaned), LongestCovering(other, cleaned);
      hide LongestCovering;
      if x.Some? && y.Some? {
        var i :| 0 <= i < |rules| && CoversTarget(rules[i], cleaned) && x.value == Cleaned(rules[i]);
        var j :| 0 <= j < |other| && CoversTarget(other[j], cleaned) && y.value == Cleaned(other[j]);
        assert rules[i] in other && other[j] in rules;
        CleanedIsClean(rules[i].path);
        CleanedIsClean(other[j].path);
        LongerIsDeeper(x.value.path, y.value.path, cleaned);
      } else {
        assert forall i :: 0 <= i < |rules| ==> rules[i] in other;
        assert forall j :: 0 <= j < |other| ==> other[j] in rules;
      }
    }
  }

  // ----- Reading through a deeper rule -----

  predicate IsReadableBelow(v: Server, rule: Rule, user: User, target: string) {
    var path := CleanRulePath(rule.path);
    path != "" && path != "/" && path != target && PathWithinBase(target, path) && AllowsUser(v, rule, user, Read)
  }

  function ReadableBelow(v: Server, rules: seq<Rule>, user: User, target: string): seq<Rule> {
    if rules == [] then []
    else
      var before, last := ReadableBelow(v, rules[..|rules| - 1], user, target), rules[|rules| - 1];
      if IsReadableBelow(v, last, user, target) then before + [Cleaned(last)] else before
  }

  /** Looks for the first readable rule below the path whose directory exists. */
  function FirstExisting(v: Server, rules: seq<Rule>): Verdict {
    if rules == [] then Denied
    else if v.stat(rules[0].path).Broken? then Failed
    else if v.stat(rules[0].path).IsDirectory? then Allowed
    else FirstExisting(v, rules[1..])
  }

  function ReadThroughDescendant(v: Server, user: User, target: string): Verdict {
    var cleaned := CleanRulePath(target);
    if !v.hasStorage || cleaned == "" || cleaned == "/" then Denied
    else FirstExisting(v, ReadableBelow(v, v.rules, user, cleaned))
  }

  method HasExistingReadableDescendantRule(v: Server, user: User, target: string) returns (r: Verdict)
    ensures r == ReadThroughDescendant(v, user, target)
  {
    hide CleanRulePath, PathWithinBase, AllowsUser;
    var cleaned := CleanRulePath(target);
    if !v.hasStorage || cleaned == "" || cleaned == "/" {
      return Denied;
    }
    var matched: seq<Rule> := [];
    for i := 0 to |v.rules|
      invariant matched == ReadableBelow(v, v.rules[..i], user, cleaned)
    {
      assert v.rules[..i + 1][..i] == v.rules[..i];
      if IsReadableBelow(v, v.rules[i], user, cleaned) {
        matched := matched + [Cleaned(v.rules[i])];
      }
    }
    assert v.rules[..|v.rules|] == v.rules;
    for i := 0 to |matched|
      invariant FirstExisting(v, matched[i..]) == FirstExisting(v, matched)
    {
      assert matched[i..][1..] == matched[i + 1..];
      match v.stat(matched[i].path)
      case Broken => return Failed;
      case IsDirectory => return Allowed;
      case _ =>
    }
    r := Denied;
  }

  // ----- The three deciders -----

  predicate IsAdmin(user: User) {
    user.role == ADMIN && !user.disabled
  }

  /** A blank or invalid home directory contains nothing. */
  predicate InHome(user: User, target: string) {
    TrimSpace(user.homeDir) != "" && ValidatePath(user.homeDir).Some?
    && PathWithinBase(ValidatePath(user.homeDir).value, target)
  }

  /** The decision for a request. */
  function Authorize(v: Server, user: Option<User>, path: string, mode: Mode, throughDescendant: bool): Verdict {
    if !v.authEnabled || (user.Some? && IsAdmin(user.value)) then Allowed
    else
      var target := ValidatePath(path);
      if target.None? || user.None? || user.value.disabled then Denied
      else
        var rule := Match(v.rules, target.value);
        if rule.Some? then (if AllowsUser(v, rule.value, user.value, mode) then Allowed else Denied)
        else
          var below := if throughDescendant && mode.Read? then ReadThroughDescendant(v, user.value, target.value) else Denied;
          if !below.Denied? then below
          else if InHome(user.value, target.value) then Allowed else Denied
  }

  /** The decision taken along while a tree is deleted. */
  function DeleteSnapshot(v: Server, user: Option<User>, path: string): Verdict {
    if !v.authEnabled || (user.Some? && IsAdmin(user.value)) then Allowed
    else if user.None? || user.value.disabled then Denied
    else
      var homeIsGood := TrimSpace(user.value.homeDir) != "" && ValidatePath(user.value.homeDir).Some?;
      var target := ValidatePath(path);
      if target.None? then Denied
      else
        var rule := Match(v.rules, target.value);
        if rule.Some? then (if AllowsUser(v, rule.value, user.value, Write) then Allowed else Denied)
        else if !homeIsGood then Denied
        else if PathWithinBase(ValidatePath(user.value.homeDir).value, target.value) then Allowed else Denied
  }

  /** The decision shown to an administrator who asks what a user may do. */
  function Evaluate(v: Server, user: Option<User>, path: string, mode: Mode): Verdict {
    var target := ValidatePath(path);
    if target.None? then Denied
    else if !v.authEnabled then Allowed
    else if user.None? || user.value.disabled then Denied
    else if user.value.role == ADMIN then Allowed
    else
      var rule := Match(v.rules, target.value);
      if rule.Some? then (if AllowsUser(v, rule.value, user.value, mode) then Allowed else Denied)
      else
        var below := if mode.Read? then ReadThroughDescendant(v, user.value, target.value) else Denied;
        if !below.Denied? then below
        else if InHome(user.value, target.value) then Allowed else Denied
  }

  /** The evaluator shows what the request authorizer does exactly on valid paths; on others
      it differs only for those whom the authorizer lets pass without looking. */
  lemma EvaluatorAgreesExactlyWhen(v: Server, user: Option<User>, path: string, mode: Mode)
    ensures Evaluate(v, user, path, mode) == Authorize(v, user, path, mode, true) <==>
            ValidatePath(path).Some? || (v.authEnabled && !(user.Some? && IsAdmin(user.value)))
  {
    hide ValidatePath, Match, AllowsUser, ReadThroughDescendant, InHome;
  }

  /** Deleting asks for nothing else than writing. */
  lemma SnapshotAgrees(v: Server, user: Option<User>, path: string)
    ensures DeleteSnapshot(v, user, path) == Authorize(v, user, path, Write, true)
  {
    hide ValidatePath, Match, AllowsUser, ReadThroughDescendant, TrimSpace, PathWithinBase;
  }

  /** Who may write may read, unless looking for a readable directory below the path fails. */
  lemma WriteImpliesRead(v: Server, user: Option<User>, path: string)
    requires Authorize(v, user, path, Write, true) == Allowed
    ensures Authorize(v, user, path, Read, false) == Allowed
    ensures Authorize(v, user, path, Read, true) == Allowed <==>
            !(v.authEnabled && user.Some? && !IsAdmin(user.value)
              && Match(v.rules, ValidatePath(path).value).None?
              && ReadThroughDescendant(v, user.value, ValidatePath(path).value).Failed?)
  {
    hide ValidatePath, Match, AllowsUser, ReadThroughDescendant, InHome;
    if v.authEnabled && user.Some? && ValidatePath(path).Some? {
      var rule := Match(v.rules, ValidatePath(path).value);
      if rule.Some? {
        WriteRuleAllowsRead(v, rule.value, user.value);
      }
    }
  }

  /** No rule applies to a path, whatever the rules are, if and only if the cleaner refuses it. */
  lemma RefusedTargetHasNoRule(target: string)
    ensures (forall rules: seq<Rule> :: Match(rules, target).None?) <==> CleanRulePath(target) == ""
  {
    hide CleanRulePath, CoversTarget;
    var cleaned := CleanRulePath(target);
    if cleaned != "" {
      RootCovers(cleaned);
      var rules := [RuleFor("/")];
      assert rules[..0] == [] && rules[|rules| - 1] == RuleFor("/");
      assert LongestCovering(rules, cleaned).Some?;
      assert Match(rules, target).Some?;
    }
  }

  /** Then only the home directory decides. */
  lemma RefusedTargetIsJudgedByHome(v: Server, user: User, path: string, mode: Mode)
    requires v.authEnabled && !IsAdmin(user) && ValidatePath(path).Some? && CleanRulePath(ValidatePath(path).value) == ""
    ensures Authorize(v, Some(user), path, mode, true) ==
            if !user.disabled && InHome(user, ValidatePath(path).value) then Allowed else Denied
  {
    hide ValidatePath, CleanRulePath, InHome;
  }

  // ----- Whom the decision admits -----

  /** The list has the name, both trimmed and folded; a blank name is in no list. */
  ghost predicate Has(v: Server, values: seq<string>, name: string) {
    v.lower(TrimSpace(name)) != "" && exists value :: value in values && v.lower(TrimSpace(value)) == v.lower(TrimSpace(name))
  }

  ghost predicate HasOneOf(v: Server, values: seq<string>, names: seq<string>) {
    exists name :: name in names && Has(v, values, name)
  }

  lemma ListsMeansHas(v: Server, values: seq<string>, name: string)
    ensures Lists(v, values, Normalized(v, name)) <==> Has(v, values, name)
  {
    hide TrimSpace;
    if Lists(v, values, Normalized(v, name)) {
      var i :| 0 <= i < |values| && Normalized(v, values[i]) == Normalized(v, name);
      assert values[i] in values;
    }
  }

  lemma AllowsMeansHas(v: Server, rule: Rule, user: User, mode: Mode)
    ensures AllowsUser(v, rule, user, Write) <==>
            || Has(v, rule.writeUsers, user.username) || Has(v, rule.writeRoles, user.role)
            || HasOneOf(v, rule.writeGroups, user.groups)
    ensures AllowsUser(v, rule, user, Read) <==>
            || Has(v, rule.readUsers + rule.writeUsers, user.username)
            || Has(v, rule.readRoles + rule.writeRoles, user.role)
            || HasOneOf(v, rule.readGroups + rule.writeGroups, user.groups)
  {
    hide Lists, Has, Normalized;
    forall values, name {
      ListsMeansHas(v, values, name);
    }
    forall values: seq<string>
      ensures (exists i :: 0 <= i < |user.groups| && Lists(v, values, Normalized(v, user.groups[i]))) <==>
              HasOneOf(v, values, user.groups)
    {
      if HasOneOf(v, values, user.groups) {
        var name :| name in user.groups && Has(v, values, name);
        var i :| 0 <= i < |user.groups| && user.groups[i] == name;
        assert Lists(v, values, Normalized(v, user.groups[i]));
      }
    }
  }

  /** An enabled user without the administrator's role, on a path that is valid. */
  predicate Ordinary(v: Server, user: User, path: string) {
    v.authEnabled && user.role != "admin" && !user.disabled && ValidatePath(path).Some?
  }

  /** Under a rule, an ordinary user may write exactly if the user name, the role or a group is
      on the rule's list for writing, and read exactly if one is on its lists for reading or
      for writing; the home directory plays no part. */
  lemma RuleAdmitsExactly(v: Server, user: User, path: string, rule: Rule, throughDescendant: bool)
    requires Ordinary(v, user, path) && Match(v.rules, ValidatePath(path).value) == Some(rule)
    ensures Authorize(v, Some(user), path, Write, throughDescendant) ==
            if Has(v, rule.writeUsers, user.username) || Has(v, rule.writeRoles, user.role)
               || HasOneOf(v, rule.writeGroups, user.groups) then Allowed else Denied
    ensures Authorize(v, Some(user), path, Read, throughDescendant) ==
            if Has(v, rule.readUsers + rule.writeUsers, user.username)
               || Has(v, rule.readRoles + rule.writeRoles, user.role)
               || HasOneOf(v, rule.readGroups + rule.writeGroups, user.groups) then Allowed else Denied
  {
    hide ValidatePath, Match, AllowsUser, ReadThroughDescendant, InHome, Has, HasOneOf;
    AllowsMeansHas(v, rule, user, Write);
  }

  /** Who is on the reading lists only reads and does not write. */
  lemma ReadersDoNotWrite(v: Server, user: User, path: string, rule: Rule)
    requires Ordinary(v, user, path) && Match(v.rules, ValidatePath(path).value) == Some(rule)
    requires Has(v, rule.readUsers, user.username) && !Has(v, rule.writeUsers, user.username)
    requires !Has(v, rule.writeRoles, user.role) && !HasOneOf(v, rule.writeGroups, user.groups)
    ensures Authorize(v, Some(user), path, Read, false) == Allowed && Authorize(v, Some(user), path, Write, false) == Denied
  {
    hide ValidatePath, Match, Authorize, HasOneOf;
    RuleAdmitsExactly(v, user, path, rule, false);
    assert forall value :: value in rule.readUsers ==> value in rule.readUsers + rule.writeUsers;
  }

  /** The home directory, by names: it is there, valid, and at or above the path. */
  predicate HomeCovers(user: User, target: string) {
    TrimSpace(user.homeDir) != "" && ValidatePath(user.homeDir).Some?
    && NamesOf(ValidatePath(user.homeDir).value) <= NamesOf(target)
  }

  /** Without a rule, an ordinary user may write exactly below the home directory; so it is with
      reading a concrete path. */
  lemma HomeAdmitsExactly(v: Server, user: User, path: string)
    requires Ordinary(v, user, path) && Match(v.rules, ValidatePath(path).value).None?
    ensures var verdict := if HomeCovers(user, ValidatePath(path).value) then Allowed else Denied;
            && Authorize(v, Some(user), path, Write, true) == verdict
            && Authorize(v, Some(user), path, Write, false) == verdict
            && Authorize(v, Some(user), path, Read, false) == verdict
  {
    hide ValidatePath, Match, ReadThroughDescendant, TrimSpace, PathWithinBase, NamesOf;
    if ValidatePath(user.homeDir).Some? {
      WithinMeansPrefix(ValidatePath(user.homeDir).value, ValidatePath(path).value);
    }
  }

  /** Everyone else is decided without rules: nobody is asked while authentication is off,
      an enabled administrator may do everything, and nobody without an account, no disabled
      account and no ordinary one on an invalid path may do anything. */
  lemma OthersAreDecidedAtOnce(v: Server, user: Option<User>, path: string, mode: Mode, throughDescendant: bool)
    ensures !v.authEnabled ==> Authorize(v, user, path, mode, throughDescendant) == Allowed
    ensures user.Some? && user.value.role == "admin" && !user.value.disabled ==>
      Authorize(v, user, path, mode, throughDescendant) == Allowed
    ensures v.authEnabled && (user.None? || user.value.disabled) ==>
      Authorize(v, user, path, mode, throughDescendant) == Denied
    ensures v.authEnabled && user.Some? && user.value.role != "admin" && ValidatePath(path).None? ==>
      Authorize(v, user, path, mode, throughDescendant) == Denied
  {
    hide ValidatePath, Match, AllowsUser, ReadThroughDescendant, InHome;
  }

  /** A rule for a directory strictly below the path whose lists let the user read. */
  ghost predicate OpensBelow(v: Server, rule: Rule, user: User, target: string) {
    var path := CleanRulePath(rule.path);
    && path != "" && NamesOf(target) < NamesOf(path)
    && (Has(v, rule.readUsers + rule.writeUsers, user.username)
        || Has(v, rule.readRoles + rule.writeRoles, user.role)
        || HasOneOf(v, rule.readGroups + rule.writeGroups, user.groups))
  }

  lemma ReadableMeansOpens(v: Server, rule: Rule, user: User, target: string)
    requires IsClean(target)
    ensures IsReadableBelow(v, rule, user, target) <==> OpensBelow(v, rule, user, target)
  {
    AllowsMeansHas(v, rule, user, Read);
    hide AllowsUser, Has, HasOneOf, NamesOf, CleanRulePath, PathWithinBase;
    var path := CleanRulePath(rule.path);
    if path != "" {
      CleanedIsClean(rule.path);
      WithinMeansPrefix(target, path);
      NamesOfRender([]);
      var x, y := NamesOf(target), NamesOf(path);
      assert Render(x) == target && Render(y) == path;
      assert x < y <==> x <= y && x != y;
    }
  }

  /** The storage has a directory where the rule points, or cannot say. */
  predicate Speaks(v: Server, rule: Rule) {
    v.stat(CleanRulePath(rule.path)).IsDirectory? || v.stat(CleanRulePath(rule.path)).Broken?
  }

  /** The first of the rules that opens something below the path and has the storage say so. */
  ghost predicate FirstBelow(v: Server, rules: seq<Rule>, user: User, target: string, i: int) {
    && 0 <= i < |rules| && OpensBelow(v, rules[i], user, target) && Speaks(v, rules[i])
    && forall j :: 0 <= j < i && OpensBelow(v, rules[j], user, target) ==> !Speaks(v, rules[j])
  }

  lemma {:induction false} FirstExistingSnoc(v: Server, rules: seq<Rule>, last: Rule)
    ensures FirstExisting(v, rules + [last]) ==
            if !FirstExisting(v, rules).Denied? then FirstExisting(v, rules) else FirstExisting(v, [last])
  {
    if rules == [] {
      assert rules + [last] == [last];
    } else {
      assert (rules + [last])[1..] == rules[1..] + [last];
      FirstExistingSnoc(v, rules[1..], last);
    }
  }

  lemma {:induction false} BelowIsFirst(v: Server, rules: seq<Rule>, user: User, target: string)
    requires IsClean(target)
    ensures var verdict := FirstExisting(v, ReadableBelow(v, rules, user, target));
            && (verdict.Denied? ==> forall i :: !FirstBelow(v, rules, user, target, i))
            && (!verdict.Denied? ==>
                  exists i ::
                    && FirstBelow(v, rules, user, target, i)
                    && verdict == if v.stat(CleanRulePath(rules[i].path)).IsDirectory? then Allowed else Failed)
    decreases |rules|
  {
    hide OpensBelow, IsReadableBelow, CleanRulePath;
    if rules != [] {
      var n := |rules| - 1;
      var init, last := rules[..n], rules[n];
      BelowIsFirst(v, init, user, target);
      ReadableMeansOpens(v, last, user, target);
      var before := ReadableBelow(v, init, user, target);
      FirstExistingSnoc(v, before, Cleaned(last));
      if !FirstExisting(v, before).Denied? {
        var i :| FirstBelow(v, init, user, target, i)
                 && FirstExisting(v, before) == if v.stat(CleanRulePath(init[i].path)).IsDirectory? then Allowed else Failed;
        assert FirstBelow(v, rules, user, target, i);
      } else {
        forall i | 0 <= i < n && OpensBelow(v, rules[i], user, target)
          ensures !Speaks(v, rules[i])
        {
          NoneSpeaks(v, init, user, target, i);
        }
        assert OpensBelow(v, last, user, target) && Speaks(v, last) ==> FirstBelow(v, rules, user, target, n);
      }
    }
  }

  /** If there is no first rule of the kind, there is none at all. */
  lemma {:induction false} NoneSpeaks(v: Server, rules: seq<Rule>, user: User, target: string, i: nat)
    requires i < |rules| && forall k :: !FirstBelow(v, rules, user, target, k)
    ensures !(OpensBelow(v, rules[i], user, target) && Speaks(v, rules[i]))
    decreases i
  {
    hide OpensBelow, Speaks;
    forall j | 0 <= j < i
      ensures !(OpensBelow(v, rules[j], user, target) && Speaks(v, rules[j]))
    {
      NoneSpeaks(v, rules, user, target, j);
    }
    assert !FirstBelow(v, rules, user, target, i);
  }

  /** The first rule that opens something below the path, while there is a storage and the path is
      not the root, points to an existing directory. */
  ghost predicate DirectoryOpensBelow(v: Server, user: User, target: string) {
    v.hasStorage && target != "/"
    && exists i :: FirstBelow(v, v.rules, user, target, i) && v.stat(CleanRulePath(v.rules[i].path)).IsDirectory?
  }

  /** It points to something the storage cannot tell. */
  ghost predicate StorageFailsBelow(v: Server, user: User, target: string) {
    v.hasStorage && target != "/"
    && exists i :: FirstBelow(v, v.rules, user, target, i) && v.stat(CleanRulePath(v.rules[i].path)).Broken?
  }

  lemma OnlyOneFirst(v: Server, rules: seq<Rule>, user: User, target: string, i: int, j: int)
    requires FirstBelow(v, rules, user, target, i) && FirstBelow(v, rules, user, target, j)
    ensures i == j
  {
    hide OpensBelow, Speaks;
  }

  /** Reading, without a rule for the path itself: allowed exactly on the way to an existing
      directory that a rule opens, and in the home directory; it fails exactly if the storage
      fails at the first rule that would decide. */
  lemma ReadAdmitsExactly(v: Server, user: User, path: string)
    requires Ordinary(v, user, path) && Match(v.rules, ValidatePath(path).value).None?
    requires Accepted(ValidatePath(path).value)
    ensures var target := ValidatePath(path).value;
            Authorize(v, Some(user), path, Read, true) ==
            if StorageFailsBelow(v, user, target) then Failed
            else if DirectoryOpensBelow(v, user, target) || HomeCovers(user, target) then Allowed
            else Denied
  {
    hide ValidatePath, Match, HomeCovers, InHome, CleanRulePath, FirstExisting, ReadableBelow, FirstBelow;
    var target := ValidatePath(path).value;
    ValidatedIsClean(path);
    HomeMeansCovers(user, target);
    BelowIsFirst(v, v.rules, user, target);
    if v.hasStorage && target != "/" && exists i :: FirstBelow(v, v.rules, user, target, i) {
      var i :| FirstBelow(v, v.rules, user, target, i);
      FirstSpeaks(v, v.rules, user, target, i);
      forall j | FirstBelow(v, v.rules, user, target, j)
        ensures j == i
      {
        OnlyOneFirst(v, v.rules, user, target, i, j);
      }
    }
  }

  lemma FirstSpeaks(v: Server, rules: seq<Rule>, user: User, target: string, i: int)
    requires FirstBelow(v, rules, user, target, i)
    ensures 0 <= i < |rules| && Speaks(v, rules[i])
  {
    hide OpensBelow, Speaks;
  }

  lemma HomeMeansCovers(user: User, target: string)
    ensures InHome(user, target) <==> HomeCovers(user, target)
  {
    hide ValidatePath, TrimSpace, PathWithinBase, NamesOf;
    if ValidatePath(user.homeDir).Some? {
      WithinMeansPrefix(ValidatePath(user.homeDir).value, target);
    }
  }
}

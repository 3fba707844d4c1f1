/** Directory quotas: the checks before a move or a copy, computed from path strings, the
    reservation that must fit them, and exactly when both account for what happens. */
module Quota {
  import opened Common
  import opened FileTree
  import opened Paths
  import opened Text

  datatype Rule = Rule(path: string, quotaBytes: int)

  datatype Check = Check(quotaPath: string, used: nat, quota: nat, required: nat)

  /** The size of what a path names, or nothing if the scan overflows. */
  function PathLogicalSize(files: Files, path: string): Option<nat> {
    var bytes := BytesUnder(files, NamesOf(path));
    if bytes <= MAX_INT64 then Some(bytes) else None
  }

  function MappedSize(files: Files, treeRoot: string, mappedRoot: string, quotaPath: string): Option<nat> {
    var mapped := MappedTreePathForQuota(treeRoot, mappedRoot, quotaPath);
    if mapped.None? then Some(0) else PathLogicalSize(files, mapped.value)
  }

  predicate Applies(rule: Rule) {
    CleanRulePath(rule.path) != "" && rule.quotaBytes > 0
  }

  /** The growth a move is charged for. */
  function MoveRequired(files: Files, source: string, destination: string, quotaPath: string): Option<int> {
    var arriving := MappedSize(files, source, destination, quotaPath);
    var leaving := MappedSize(files, source, source, quotaPath);
    if arriving.None? || leaving.None? then None else Some(arriving.value - leaving.value)
  }

  function CopyRequired(files: Files, source: string, destination: string, quotaPath: string): Option<int> {
    var size := if PathWithinBase(quotaPath, destination) then PathLogicalSize(files, source)
                else MappedSize(files, source, destination, quotaPath);
    if size.None? then None else Some(size.value)
  }

  datatype Change = Moving | Copying

  function Required(change: Change, files: Files, source: string, destination: string, quotaPath: string): Option<int> {
    if change.Moving? then MoveRequired(files, source, destination, quotaPath)
    else CopyRequired(files, source, destination, quotaPath)
  }

  /** The check that a change makes for a rule. */
  function CheckFor(files: Files, rule: Rule, required: nat): Check {
    var q := CleanRulePath(rule.path);
    Check(q, BytesUnder(files, NamesOf(q)), if rule.quotaBytes < 0 then 0 else rule.quotaBytes, required)
  }

  /** The check comes from this rule: it applies, and the change adds to it. */
  ghost predicate ComesFrom(change: Change, files: Files, source: string, destination: string, c: Check, rule: Rule) {
    var required := Required(change, files, source, destination, CleanRulePath(rule.path));
    Applies(rule) && required.Some? && required.value > 0 && c == CheckFor(files, rule, required.value)
  }

  /** The rule cannot be checked: a size it needs overflows. */
  predicate Unmeasured(change: Change, files: Files, source: string, destination: string, rule: Rule) {
    var q := CleanRulePath(rule.path);
    var required := Required(change, files, source, destination, q);
    Applies(rule) && (required.None? || (required.value > 0 && PathLogicalSize(files, q).None?))
  }

  /** Every rule that applies could be measured, those the change adds to have their check,
      and every check comes from such a rule. */
  ghost predicate Covers(change: Change, files: Files, source: string, destination: string, rules: seq<Rule>, checks: seq<Check>) {
    && (forall rule :: rule in rules && Applies(rule) ==>
          var required := Required(change, files, source, destination, CleanRulePath(rule.path));
          required.Some? && (required.value > 0 ==> CheckFor(files, rule, required.value) in checks))
    && (forall c :: c in checks ==> exists rule :: rule in rules && ComesFrom(change, files, source, destination, c, rule))
  }

  method DirectoryQuotaChecks(change: Change, files: Files, source: string, destination: string, rules: seq<Rule>)
      returns (checks: Option<seq<Check>>)
    ensures checks.Some? ==> Covers(change, files, source, destination, rules, checks.value)
    ensures checks.None? <==> exists rule :: rule in rules && Unmeasured(change, files, source, destination, rule)
  {
    hide Required, CleanRulePath, BytesUnder, NamesOf;
    var made: seq<Check> := [];
    for i := 0 to |rules|
      invariant Covers(change, files, source, destination, rules[..i], made)
      invariant forall rule :: rule in rules[..i] ==> !Unmeasured(change, files, source, destination, rule)
    {
      var rule := rules[i];
      var q := CleanRulePath(rule.path);
      assert rules[..i + 1] == rules[..i] + [rule] && rule in rules;
      if q != "" && rule.quotaBytes > 0 {
        var required := Required(change, files, source, destination, q);
        if required.None? {
          return None;
        }
        if required.value > 0 {
          var used := PathLogicalSize(files, q);
          if used.None? {
            return None;
          }
          var check := Check(q, used.value, rule.quotaBytes, required.value);
          assert ComesFrom(change, files, source, destination, check, rule);
          made := made + [check];
        }
      }
    }
    assert rules[..|rules|] == rules;
    checks := Some(made);
  }

  /** The checks that cover the rules, written out: for rules with a path and a positive quota only,
      each with that quota and the bytes below its path now, and one whenever such a rule grows. */
  lemma ChecksExactly(change: Change, files: Files, source: string, destination: string, rules: seq<Rule>, checks: seq<Check>)
    requires Covers(change, files, source, destination, rules, checks)
    ensures forall rule :: rule in rules && rule.quotaBytes > 0 && CleanRulePath(rule.path) != "" ==>
              var q := CleanRulePath(rule.path);
              var required := Required(change, files, source, destination, q);
              && required.Some?
              && (required.value > 0 ==> Check(q, BytesUnder(files, NamesOf(q)), rule.quotaBytes, required.value) in checks)
    ensures forall c :: c in checks ==>
              exists rule :: rule in rules && rule.quotaBytes > 0 && CleanRulePath(rule.path) == c.quotaPath != ""
                && c.quota == rule.quotaBytes && c.used == BytesUnder(files, NamesOf(c.quotaPath)) && c.required > 0
                && Required(change, files, source, destination, c.quotaPath) == Some(c.required)
  {
    hide Required, CleanRulePath, BytesUnder, NamesOf;
    forall rule | rule in rules && rule.quotaBytes > 0 && CleanRulePath(rule.path) != ""
      ensures Applies(rule)
    {
    }
    forall c | c in checks
      ensures exists rule :: rule in rules && rule.quotaBytes > 0 && CleanRulePath(rule.path) == c.quotaPath != ""
                && c.quota == rule.quotaBytes && c.used == BytesUnder(files, NamesOf(c.quotaPath)) && c.required > 0
                && Required(change, files, source, destination, c.quotaPath) == Some(c.required)
    {
      var rule :| rule in rules && ComesFrom(change, files, source, destination, c, rule);
      assert rule.quotaBytes > 0;
    }
  }

  /** A rule cannot be checked if and only if it has a path and a positive quota and a size that
      is needed exceeds 63 bits: one of the mapped sizes, or the usage where the change adds. */
  lemma UnmeasuredExactlyWhen(change: Change, files: Files, source: string, destination: string, rule: Rule)
    ensures var q := CleanRulePath(rule.path);
            var required := Required(change, files, source, destination, q);
            Unmeasured(change, files, source, destination, rule) <==>
              && q != "" && rule.quotaBytes > 0
              && (required.None? || (required.value > 0 && BytesUnder(files, NamesOf(q)) > 0x7fff_ffff_ffff_ffff))
  {
    hide Required, CleanRulePath, BytesUnder, NamesOf;
  }

  // ----- Reserving what the checks ask for -----

  /** The claims of one scope together: the largest usage, the smallest limit, all growth. */
  datatype Claim = Claim(used: nat, limit: nat, required: nat)

  function Aggregate(checks: seq<Check>, key: string): Option<Claim> {
    if checks == [] then None
    else
      var before, last := Aggregate(checks[..|checks| - 1], key), checks[|checks| - 1];
      if last.quotaPath != key then before
      else if before.None? then Some(Claim(last.used, last.quota, last.required))
      else
        Some(Claim(if last.used > before.value.used then last.used else before.value.used,
                   if last.quota < before.value.limit then last.quota else before.value.limit,
                   before.value.required + last.required))
  }

  function Available(limit: nat, used: nat, reserved: nat): nat {
    if used >= limit then 0 else if reserved >= limit - used then 0 else limit - used - reserved
  }

  function ReservedFor(reserved: map<string, nat>, key: string): nat {
    if key in reserved then reserved[key] else 0
  }

  predicate Fits(claim: Claim, reserved: nat) {
    claim.required <= Available(claim.limit, claim.used, reserved) && claim.required <= MAX_INT64
  }

  lemma {:induction false} AggregateCovers(checks: seq<Check>, i: nat)
    requires i < |checks|
    ensures var claim := Aggregate(checks, checks[i].quotaPath);
            && claim.Some? && checks[i].used <= claim.value.used && claim.value.limit <= checks[i].quota
            && checks[i].required <= claim.value.required
  {
    if i < |checks| - 1 {
      AggregateCovers(checks[..|checks| - 1], i);
    }
  }

  lemma {:induction false} AggregateGrows(checks: seq<Check>, n: nat, key: string)
    requires n <= |checks| && Aggregate(checks[..n], key).Some?
    ensures Aggregate(checks, key).Some?
    ensures Aggregate(checks[..n], key).value.required <= Aggregate(checks, key).value.required
    decreases |checks| - n
  {
    if n == |checks| {
      assert checks[..n] == checks;
    } else {
      assert checks[..n + 1][..n] == checks[..n];
      AggregateGrows(checks, n + 1, key);
    }
  }

  ghost predicate IsAggregate(checks: seq<Check>, all: map<string, Claim>, keys: seq<string>) {
    && (forall key :: key in all ==> Aggregate(checks, key) == Some(all[key]))
    && (forall key: string :: Aggregate(checks, key).Some? ==> key in all)
    && (forall key :: key in keys <==> key in all)
  }

  /** Adds up the claims scope by scope; an overflow is an error. */
  method AggregateClaims(checks: seq<Check>) returns (aggregated: Option<map<string, Claim>>, keys: seq<string>)
    ensures aggregated.Some? ==> IsAggregate(checks, aggregated.value, keys)
    ensures aggregated.None? ==> exists c :: c in checks && Aggregate(checks, c.quotaPath).Some?
                                             && Aggregate(checks, c.quotaPath).value.required > MAX_INT64
    ensures aggregated.Some? && (forall c :: c in checks ==> c.required <= MAX_INT64) ==>
      forall key :: key in aggregated.value ==> aggregated.value[key].required <= MAX_INT64
  {
    var all: map<string, Claim> := map[];
    keys := [];
    for i := 0 to |checks|
      invariant IsAggregate(checks[..i], all, keys)
      invariant (forall c :: c in checks ==> c.required <= MAX_INT64) ==>
                  forall key :: key in all ==> all[key].required <= MAX_INT64
    {
      var check := checks[i];
      assert checks[..i + 1][..i] == checks[..i];
      assert check in checks;
      if check.quotaPath !in all {
        all := all[check.quotaPath := Claim(check.used, check.quota, check.required)];
        keys := keys + [check.quotaPath];
      } else {
        var claim := all[check.quotaPath];
        if claim.required > MAX_INT64 - check.required {
          AggregateGrows(checks, i + 1, check.quotaPath);
          return None, keys;
        }
        all := all[check.quotaPath := Claim(if check.used > claim.used then check.used else claim.used,
                                            if check.quota < claim.limit then check.quota else claim.limit,
                                            claim.required + check.required)];
      }
    }
    assert checks[..|checks|] == checks;
    aggregated := Some(all);
  }

  ghost predicate AllFit(checks: seq<Check>, reserved: map<string, nat>) {
    forall key: string :: Aggregate(checks, key).Some? ==> Fits(Aggregate(checks, key).value, ReservedFor(reserved, key))
  }

  /** A reservation is granted exactly when in every scope all claims fit together beside
      what is reserved already. */
  method Prepare(checks: seq<Check>, reserved: map<string, nat>) returns (ok: bool)
    ensures ok <==> AllFit(checks, reserved)
  {
    var aggregated, keys := AggregateClaims(checks);
    if aggregated.None? {
      return false;
    }
    for i := 0 to |keys|
      invariant forall j :: 0 <= j < i ==> Fits(aggregated.value[keys[j]], ReservedFor(reserved, keys[j]))
    {
      var claim := aggregated.value[keys[i]];
      assert keys[i] in keys;
      assert Aggregate(checks, keys[i]) == Some(claim);
      if claim.required > MAX_INT64 || claim.required > Available(claim.limit, claim.used, ReservedFor(reserved, keys[i])) {
        return false;
      }
    }
    hide Fits;
    ok := true;
  }

  /** The growth all claims of one scope ask for together. */
  function TotalGrowth(checks: seq<Check>, key: string): nat {
    if checks == [] then 0
    else (if checks[0].quotaPath == key then checks[0].required else 0) + TotalGrowth(checks[1..], key)
  }

  lemma {:induction false} TotalGrowthSnoc(checks: seq<Check>, last: Check, key: string)
    ensures TotalGrowth(checks + [last], key) == TotalGrowth(checks, key) + (if last.quotaPath == key then last.required else 0)
  {
    if checks == [] {
      assert checks + [last] == [last] && [last][1..] == [];
    } else {
      assert (checks + [last])[1..] == checks[1..] + [last];
      TotalGrowthSnoc(checks[1..], last, key);
    }
  }

  /** What the claims of a scope come to: nothing if it has none, else the largest usage and the
      smallest limit among them, and the sum of what they ask for. */
  lemma {:induction false} AggregateExactly(checks: seq<Check>, key: string)
    ensures var claim := Aggregate(checks, key);
            && (claim.None? <==> forall c :: c in checks ==> c.quotaPath != key)
            && (claim.Some? ==>
                  && claim.value.required == TotalGrowth(checks, key)
                  && (forall c :: c in checks && c.quotaPath == key ==> c.used <= claim.value.used && claim.value.limit <= c.quota)
                  && (exists c :: c in checks && c.quotaPath == key && c.used == claim.value.used)
                  && (exists c :: c in checks && c.quotaPath == key && c.quota == claim.value.limit))
            && (claim.None? ==> TotalGrowth(checks, key) == 0)
  {
    if checks != [] {
      var init, last := checks[..|checks| - 1], checks[|checks| - 1];
      AggregateExactly(init, key);
      TotalGrowthSnoc(init, last, key);
      assert checks == init + [last];
      assert forall c :: c in checks <==> c in init || c == last;
    }
  }

  /** A reservation is granted if and only if in every scope that grows the total growth is below
      2^63 and fits, beside what is reserved there, whatever usage and limit of the scope one takes. */
  lemma GrantedExactlyWhen(checks: seq<Check>, reserved: map<string, nat>)
    ensures AllFit(checks, reserved) <==>
              forall a, b :: a in checks && b in checks && a.quotaPath == b.quotaPath && TotalGrowth(checks, a.quotaPath) > 0 ==>
                && TotalGrowth(checks, a.quotaPath) <= 0x7fff_ffff_ffff_ffff
                && a.used + (if a.quotaPath in reserved then reserved[a.quotaPath] else 0)
                   + TotalGrowth(checks, a.quotaPath) <= b.quota
  {
    hide Aggregate, TotalGrowth, Fits;
    forall c | c in checks
      ensures var claim, t := Aggregate(checks, c.quotaPath), TotalGrowth(checks, c.quotaPath);
              claim.Some? && claim.value.required == t
    {
      AggregateExactly(checks, c.quotaPath);
    }
    if AllFit(checks, reserved) {
      forall a, b | a in checks && b in checks && a.quotaPath == b.quotaPath && TotalGrowth(checks, a.quotaPath) > 0
        ensures TotalGrowth(checks, a.quotaPath) <= 0x7fff_ffff_ffff_ffff
        ensures a.used + ReservedFor(reserved, a.quotaPath) + TotalGrowth(checks, a.quotaPath) <= b.quota
      {
        AggregateExactly(checks, a.quotaPath);
        FitsExactly(Aggregate(checks, a.quotaPath).value, ReservedFor(reserved, a.quotaPath));
      }
    } else {
      var key: string :| Aggregate(checks, key).Some? && !Fits(Aggregate(checks, key).value, ReservedFor(reserved, key));
      AggregateExactly(checks, key);
      FitsExactly(Aggregate(checks, key).value, ReservedFor(reserved, key));
      var a :| a in checks && a.quotaPath == key && a.used == Aggregate(checks, key).value.used;
      var b :| b in checks && b.quotaPath == key && b.quota == Aggregate(checks, key).value.limit;
    }
  }

  lemma FitsExactly(claim: Claim, reserved: nat)
    ensures Fits(claim, reserved) <==>
              claim.required == 0 || (claim.required <= MAX_INT64 && claim.used + reserved + claim.required <= claim.limit)
  {
  }

  /** A granted check leaves room for its growth beside everything reserved. */
  lemma GrantedChecksFit(checks: seq<Check>, reserved: map<string, nat>, c: Check)
    requires AllFit(checks, reserved) && c in checks && c.required > 0
    ensures c.used + (if c.quotaPath in reserved then reserved[c.quotaPath] else 0) + c.required <= c.quota
  {
    var i :| 0 <= i < |checks| && checks[i] == c;
    AggregateCovers(checks, i);
    var claim := Aggregate(checks, c.quotaPath).value;
    assert Fits(claim, ReservedFor(reserved, c.quotaPath));
  }

  // ----- What granted changes keep -----

  function After(change: Change, files: Files, source: string, destination: string): Files {
    if change.Moving? then Move(files, NamesOf(source), NamesOf(destination))
    else Copy(files, NamesOf(source), NamesOf(destination))
  }

  /** What a change really adds under a quota path; it may be negative. */
  function Growth(change: Change, files: Files, source: string, destination: string, quotaPath: string): int {
    BytesUnder(After(change, files, source, destination), NamesOf(quotaPath)) - BytesUnder(files, NamesOf(quotaPath))
  }

  /** What is measured are the bytes of the mapping of the cleaned paths, for any three paths. */
  lemma MappedSizeIsBytes(files: Files, treeRoot: string, mappedRoot: string, quotaPath: string)
    ensures var bytes := BytesAt(files, CleanedMapping(treeRoot, mappedRoot, quotaPath));
            MappedSize(files, treeRoot, mappedRoot, quotaPath) == if bytes <= MAX_INT64 then Some(bytes) else None
  {
    hide CleanedMapping, MappedTreePathForQuota, NamesOf, BytesUnder;
    MappingIsExact(treeRoot, mappedRoot, quotaPath);
    var mapped := CleanedMapping(treeRoot, mappedRoot, quotaPath);
    if mapped.Some? {
      NamesOfRender(mapped.value);
    }
  }

  /** On paths the rule cleaner leaves alone, a change is charged exactly for its growth. */
  lemma ChargeIsExact(change: Change, files: Files, source: string, destination: string, quotaPath: string)
    requires Accepted(source) && Accepted(destination) && Accepted(quotaPath)
    requires source != "" && destination != "" && quotaPath != ""
    ensures var required := Required(change, files, source, destination, quotaPath);
            required.Some? ==> required.value == Growth(change, files, source, destination, quotaPath)
  {
    hide MappedSize, NamesOf, BytesUnder, Move, Copy, CleanRulePath, PathWithinBase;
    var s, d, q := NamesOf(source), NamesOf(destination), NamesOf(quotaPath);
    MappedSizeIsBytes(files, source, destination, quotaPath);
    MappedSizeIsBytes(files, source, source, quotaPath);
    MoveConserves(files, s, d, q);
    CopyAdds(files, s, d, q);
    WithinMeansPrefix(quotaPath, destination);
  }
}

/** Exactly when directory quotas account for a move or a copy, for paths of any form: what is
    charged follows the cleaned paths, what happens follows the paths as they are. */
module QuotaFlows {
  import opened Common
  import opened FileTree
  import opened Paths
  import opened Quota

  /** The part of the tree that a change is charged for and credited for, and the part that
      really arrives under the quota path and leaves it. */
  datatype Flows = Flows(chargedIn: Option<Names>, chargedOut: Option<Names>, realIn: Option<Names>, realOut: Option<Names>)

  /** The destination is free, so nothing can be counted there. */
  function Outside(place: Option<Names>, destination: Names): Option<Names> {
    if place.Some? && destination <= place.value then None else place
  }

  /** The part of the source that a change is charged for; only a copy compares the paths as
      they are with the quota path. */
  function ChargedPart(change: Change, source: string, destination: string, quotaPath: string): Option<Names> {
    if change.Copying? && NamesOf(quotaPath) <= NamesOf(destination) then Some(NamesOf(source))
    else CleanedMapping(source, destination, quotaPath)
  }

  function FlowsOf(change: Change, source: string, destination: string, quotaPath: string): Flows {
    var s, d, q := NamesOf(source), NamesOf(destination), NamesOf(quotaPath);
    var moving := change.Moving?;
    Flows(Outside(ChargedPart(change, source, destination, quotaPath), d),
          if moving then Outside(CleanedMapping(source, source, quotaPath), d) else None,
          Outside(Mapped(s, d, q), d),
          if moving then Outside(Mapped(s, s, q), d) else None)
  }

  /** Charged is what arrives and credited what leaves, or both come to nothing. */
  predicate Balanced(f: Flows) {
    (f.chargedIn == f.realIn && f.chargedOut == f.realOut) || (f.chargedIn == f.chargedOut && f.realIn == f.realOut)
  }

  function In(place: Option<Names>, path: Names): int {
    if Counts(place, path) then 1 else 0
  }

  /** A file at the path is charged at least what it adds. */
  predicate Enough(f: Flows, path: Names) {
    In(f.chargedIn, path) + In(f.realOut, path) >= In(f.realIn, path) + In(f.chargedOut, path)
  }

  predicate EnoughAt(f: Flows, place: Option<Names>) {
    place.Some? ==> Enough(f, place.value)
  }

  /** Nothing ever arrives that did not leave, or the two roots that matter are charged enough. */
  predicate NeverUndercharged(f: Flows) {
    f.realIn.None? || Counts(f.realOut, f.realIn.value) || (EnoughAt(f, f.realIn) && EnoughAt(f, f.chargedOut))
  }

  // ----- From sizes to flows -----

  lemma PrefixTransitive(x: Names, y: Names, z: Names)
    ensures x <= y && y <= z ==> x <= z
  {
  }

  lemma {:induction false} FreeCountsNothing(files: Files, destination: Names, q: Names)
    requires IsFree(files, destination) && destination <= q
    ensures BytesUnder(files, q) == 0
  {
    if files != [] {
      var path := files[0].path;
      PrefixTransitive(destination, q, path);
      assert IsFree(files[1..], destination) by {
        forall i | 0 <= i < |files[1..]|
          ensures !(destination <= files[1..][i].path) && !(files[1..][i].path <= destination)
        {
          assert files[1..][i] == files[i + 1];
        }
      }
      FreeCountsNothing(files[1..], destination, q);
    }
  }

  lemma OutsideCountsAll(files: Files, place: Option<Names>, destination: Names)
    requires IsFree(files, destination)
    ensures BytesAt(files, Outside(place, destination)) == BytesAt(files, place)
  {
    hide BytesUnder, IsFree;
    if place.Some? && destination <= place.value {
      FreeCountsNothing(files, destination, place.value);
    }
  }

  lemma ChargeFlows(change: Change, files: Files, source: string, destination: string, quotaPath: string)
    requires IsFree(files, NamesOf(destination))
    ensures var f := FlowsOf(change, source, destination, quotaPath);
            var required := Required(change, files, source, destination, quotaPath);
            && (required.Some? ==> required.value == BytesAt(files, f.chargedIn) - BytesAt(files, f.chargedOut))
            && (BytesAt(files, f.chargedIn) <= MAX_INT64 && BytesAt(files, f.chargedOut) <= MAX_INT64 ==> required.Some?)
  {
    hide CleanedMapping, NamesOf, BytesUnder, PathWithinBase, MappedSize, Outside, IsFree;
    MappedSizeIsBytes(files, source, destination, quotaPath);
    MappedSizeIsBytes(files, source, source, quotaPath);
    OutsideCountsAll(files, ChargedPart(change, source, destination, quotaPath), NamesOf(destination));
    OutsideCountsAll(files, CleanedMapping(source, source, quotaPath), NamesOf(destination));
    WithinMeansPrefix(quotaPath, destination);
  }

  lemma GrowthFlows(change: Change, files: Files, source: string, destination: string, quotaPath: string)
    requires IsFree(files, NamesOf(destination))
    ensures var f := FlowsOf(change, source, destination, quotaPath);
            Growth(change, files, source, destination, quotaPath) == BytesAt(files, f.realIn) - BytesAt(files, f.realOut)
  {
    hide CleanedMapping, NamesOf, BytesUnder, Move, Copy, Mapped, Outside, IsFree, ChargedPart;
    var s, d, q := NamesOf(source), NamesOf(destination), NamesOf(quotaPath);
    MoveConserves(files, s, d, q);
    CopyAdds(files, s, d, q);
    OutsideCountsAll(files, Mapped(s, d, q), d);
    OutsideCountsAll(files, Mapped(s, s, q), d);
  }

  // ----- From files to roots -----

  /** Enough at the two roots is enough everywhere. */
  lemma EnoughEverywhere(f: Flows, path: Names)
    requires EnoughAt(f, f.realIn) && EnoughAt(f, f.chargedOut)
    ensures Enough(f, path)
  {
    if Counts(f.realIn, path) && Counts(f.chargedOut, path) {
      PrefixesCompare(f.realIn.value, f.chargedOut.value, path);
    }
    if Counts(f.realIn, path) {
      Inherits(f, f.realIn.value, path);
    }
    if Counts(f.chargedOut, path) {
      Inherits(f, f.chargedOut.value, path);
    }
  }

  lemma Inherits(f: Flows, root: Names, path: Names)
    requires root <= path
    ensures Counts(f.chargedIn, root) ==> Counts(f.chargedIn, path)
    ensures Counts(f.realOut, root) ==> Counts(f.realOut, path)
  {
    if Counts(f.chargedIn, root) {
      PrefixTransitive(f.chargedIn.value, root, path);
    }
    if Counts(f.realOut, root) {
      PrefixTransitive(f.realOut.value, root, path);
    }
  }

  lemma {:induction false} EnoughAddsUp(files: Files, f: Flows)
    requires forall i :: 0 <= i < |files| ==> Enough(f, files[i].path)
    ensures BytesAt(files, f.chargedIn) + BytesAt(files, f.realOut) >= BytesAt(files, f.realIn) + BytesAt(files, f.chargedOut)
  {
    if files != [] {
      assert Enough(f, files[0].path);
      assert forall i :: 0 <= i < |files[1..]| ==> Enough(f, files[1..][i].path);
      EnoughAddsUp(files[1..], f);
      AddOne(files, f.chargedIn);
      AddOne(files, f.chargedOut);
      AddOne(files, f.realIn);
      AddOne(files, f.realOut);
      hide BytesAt, Counts;
    }
  }

  lemma AddOne(files: Files, place: Option<Names>)
    requires files != []
    ensures BytesAt(files, place) == (if Counts(place, files[0].path) then LogicalSize(files[0]) else 0) + BytesAt(files[1..], place)
  {
  }

  lemma {:induction false} InnerCountsLess(files: Files, outer: Names, inner: Names)
    requires outer <= inner
    ensures BytesUnder(files, inner) <= BytesUnder(files, outer)
  {
    if files != [] {
      PrefixTransitive(outer, inner, files[0].path);
      InnerCountsLess(files[1..], outer, inner);
    }
  }

  /** Then what is charged is at least what is added, if anything is. */
  lemma ChargedEnough(files: Files, f: Flows)
    requires NeverUndercharged(f)
    ensures var growth := BytesAt(files, f.realIn) - BytesAt(files, f.realOut);
            growth <= 0 || growth <= BytesAt(files, f.chargedIn) - BytesAt(files, f.chargedOut)
  {
    hide BytesUnder, Enough;
    if f.realIn.Some? {
      if Counts(f.realOut, f.realIn.value) {
        InnerCountsLess(files, f.realOut.value, f.realIn.value);
      } else {
        forall i | 0 <= i < |files|
          ensures Enough(f, files[i].path)
        {
          EnoughEverywhere(f, files[i].path);
        }
        EnoughAddsUp(files, f);
      }
    }
  }

  // ----- Files that show a difference -----

  function Longest(names: Names): nat {
    if names == [] then 0
    else
      var rest := Longest(names[1..]);
      if |names[0]| > rest then |names[0]| else rest
  }

  lemma {:induction false} LongestBounds(names: Names, name: string)
    ensures name in names ==> |name| <= Longest(names)
  {
    if names != [] {
      LongestBounds(names[1..], name);
      assert name in names ==> name == names[0] || name in names[1..];
    }
  }

  /** A name of the given length. */
  function Long(n: nat): (name: string)
    requires n > 2
    ensures |name| == n && GoodName(name)
  {
    seq(n, _ => 'f')
  }

  predicate Short(place: Option<Names>, n: nat) {
    place.Some? ==> Longest(place.value) < n
  }

  lemma PrefixOfChild(x: Names, parent: Names, name: string)
    requires name !in x
    ensures x <= parent + [name] <==> x <= parent
  {
    var child := parent + [name];
    assert child[..|parent|] == parent && child[|parent|] == name;
    assert x <= child && |x| > |parent| ==> x == child && name in x;
  }

  /** A new child counts where its parent does. */
  lemma ChildCounts(place: Option<Names>, parent: Names, n: nat)
    requires n > 2 && Short(place, n)
    ensures Counts(place, parent + [Long(n)]) <==> Counts(place, parent)
  {
    if place.Some? {
      LongestBounds(place.value, Long(n));
      PrefixOfChild(place.value, parent, Long(n));
    }
  }

  /** A new child lies in no given path, nor another new child in it. */
  lemma ChildIsNew(parent: Names, n: nat, path: Names)
    requires n > 2 && Longest(path) < n
    ensures !(parent + [Long(n)] <= path)
  {
    LongestBounds(path, Long(n));
    var name := Long(n);
    assert (parent + [name])[|parent|] == name;
    assert parent + [name] <= path ==> name in path;
  }

  lemma ChildrenApart(x: Names, y: Names, n: nat)
    requires n > 2 && Longest(x) < n && Longest(y) < n
    ensures Apart(x + [Long(n)], y + [Long(n + 1)])
  {
    LongestBounds(x, Long(n + 1));
    LongestBounds(y, Long(n));
    ChildIsNew(x, n, y);
    ChildIsNew(y, n + 1, x);
    PrefixOfChild(x + [Long(n)], y, Long(n + 1));
    PrefixOfChild(y + [Long(n + 1)], x, Long(n));
  }

  /** The trees a change can meet: a source that is there and a destination that is free. */
  ghost predicate Possible(files: Files, source: Names, destination: Names) {
    && IsTree(files) && IsFree(files, destination)
    && (forall i :: 0 <= i < |files| ==> files[i].path != [] && Good(files[i].path))
    && (exists i :: 0 <= i < |files| && source <= files[i].path)
  }

  function Two(x: Names, xSize: nat, y: Names, ySize: nat, n: nat): Files
    requires n > 2
  {
    [File(x + [Long(n)], xSize), File(y + [Long(n + 1)], ySize)]
  }

  lemma TwoArePossible(x: Names, xSize: nat, y: Names, ySize: nat, n: nat, s: Names, d: Names)
    requires n > 2 && Longest(x) < n && Longest(y) < n && Longest(d) < n && Good(x) && Good(y)
    requires (s <= x || s <= y) && !(d <= x) && !(d <= y)
    ensures Possible(Two(x, xSize, y, ySize, n), s, d)
  {
    hide Long, Longest;
    var files := Two(x, xSize, y, ySize, n);
    ChildrenApart(x, y, n);
    ChildIsNew(x, n, d);
    ChildIsNew(y, n + 1, d);
    ChildCounts(Some(d), x, n);
    ChildCounts(Some(d), y, n + 1);
    PrefixTransitive(s, x, files[0].path);
    PrefixTransitive(s, y, files[1].path);
  }

  lemma TwoCount(x: Names, xSize: nat, y: Names, ySize: nat, n: nat, place: Option<Names>)
    requires n > 2 && Short(place, n)
    ensures BytesAt(Two(x, xSize, y, ySize, n), place) ==
            (if Counts(place, x) then xSize else 0) + (if Counts(place, y) then ySize else 0)
  {
    hide Long, Longest;
    var files := Two(x, xSize, y, ySize, n);
    ChildCounts(place, x, n);
    ChildCounts(place, y, n + 1);
    assert files[1..] == [files[1]] && files[1..][1..] == [];
    AddOne(files, place);
    AddOne(files[1..], place);
  }

  // ----- Flows that do not balance differ at a root -----

  predicate Even(f: Flows, path: Names) {
    In(f.chargedIn, path) + In(f.realOut, path) == In(f.realIn, path) + In(f.chargedOut, path)
  }

  predicate EvenAt(f: Flows, place: Option<Names>) {
    place.Some? ==> Even(f, place.value)
  }

  predicate AtLeast(place: Option<Names>, n: nat) {
    place.Some? ==> |place.value| >= n
  }

  lemma SameLength(x: Names, y: Names)
    ensures x <= y && |y| <= |x| ==> x == y
  {
    assert x <= y && |y| <= |x| ==> y[..|x|] == y;
  }

  lemma Meets(x: Option<Names>, y: Option<Names>, z: Option<Names>)
    ensures x.Some? && AtLeast(y, |x.value|) && AtLeast(z, |x.value|) && (Counts(y, x.value) || Counts(z, x.value)) ==>
      x == y || x == z
  {
    if x.Some? && y.Some? {
      SameLength(y.value, x.value);
    }
    if x.Some? && z.Some? {
      SameLength(z.value, x.value);
    }
  }

  /** The shortest root of one side is also one of the other. */
  lemma OneIsShared(f: Flows)
    requires EvenAt(f, f.chargedIn) && EvenAt(f, f.chargedOut) && EvenAt(f, f.realIn) && EvenAt(f, f.realOut)
    ensures f.chargedIn == f.realIn || f.chargedIn == f.chargedOut || f.realOut == f.realIn || f.realOut == f.chargedOut
  {
    Meets(f.chargedIn, f.realIn, f.chargedOut);
    Meets(f.realOut, f.realIn, f.chargedOut);
    Meets(f.realIn, f.chargedIn, f.realOut);
    Meets(f.chargedOut, f.chargedIn, f.realOut);
  }

  lemma SameCounts(x: Option<Names>, y: Option<Names>)
    ensures (x.Some? ==> Counts(y, x.value)) && (y.Some? ==> Counts(x, y.value)) ==> x == y
  {
    if x.Some? && y.Some? {
      SameLength(x.value, y.value);
    }
  }

  lemma EvenMeansBalanced(f: Flows)
    requires EvenAt(f, f.chargedIn) && EvenAt(f, f.chargedOut) && EvenAt(f, f.realIn) && EvenAt(f, f.realOut)
    ensures Balanced(f)
  {
    OneIsShared(f);
    SameCounts(f.realOut, f.chargedOut);
    SameCounts(f.realOut, f.realIn);
    SameCounts(f.chargedIn, f.chargedOut);
    SameCounts(f.chargedIn, f.realIn);
  }

  predicate IsRoot(f: Flows, root: Names) {
    Some(root) in {f.chargedIn, f.chargedOut, f.realIn, f.realOut}
  }

  lemma UnevenRoot(f: Flows) returns (root: Names)
    requires !Balanced(f)
    ensures IsRoot(f, root) && !Even(f, root)
  {
    hide Balanced;
    if !EvenAt(f, f.chargedIn) {
      root := f.chargedIn.value;
    } else if !EvenAt(f, f.chargedOut) {
      root := f.chargedOut.value;
    } else if !EvenAt(f, f.realIn) {
      root := f.realIn.value;
    } else if !EvenAt(f, f.realOut) {
      root := f.realOut.value;
    } else {
      EvenMeansBalanced(f);
    }
  }

  // ----- Charged exactly -----

  /** For every tree the change can meet, what it is charged is what it adds. */
  ghost predicate ChargedExactly(change: Change, source: string, destination: string, quotaPath: string) {
    forall files: Files :: Possible(files, NamesOf(source), NamesOf(destination)) ==>
      var required := Required(change, files, source, destination, quotaPath);
      required.Some? ==> required.value == Growth(change, files, source, destination, quotaPath)
  }

  lemma LongestOf(x: Names, y: Names, z: Names, f: Flows) returns (n: nat)
    ensures n > 2 && Longest(x) < n && Longest(y) < n && Longest(z) < n
    ensures Short(f.chargedIn, n) && Short(f.chargedOut, n) && Short(f.realIn, n) && Short(f.realOut, n)
  {
    hide Longest;
    n := 3 + Longest(x) + Longest(y) + Longest(z);
    if f.chargedIn.Some? {
      n := n + Longest(f.chargedIn.value);
    }
    if f.chargedOut.Some? {
      n := n + Longest(f.chargedOut.value);
    }
    if f.realIn.Some? {
      n := n + Longest(f.realIn.value);
    }
    if f.realOut.Some? {
      n := n + Longest(f.realOut.value);
    }
  }

  lemma MappedFacts(change: Change, source: string, destination: string, quotaPath: string)
    ensures var f := FlowsOf(change, source, destination, quotaPath);
            && (forall root :: IsRoot(f, root) ==> Good(root) && !(NamesOf(destination) <= root))
            && (f.realIn.Some? ==> NamesOf(source) <= f.realIn.value)
  {
    hide CleanedMapping, NamesOf, Good, Mapped, Outside, ChargedPart, MappedTreePathForQuota;
    var s, d, q := NamesOf(source), NamesOf(destination), NamesOf(quotaPath);
    MappingIsExact(source, source, quotaPath);
    GoodMapped(s, d, q);
    GoodMapped(s, s, q);
    MappedStartsAtSource(s, d, q);
    ChargedPartIsGood(change, source, destination, quotaPath);
    OutsideIsOutside(ChargedPart(change, source, destination, quotaPath), d);
    OutsideIsOutside(CleanedMapping(source, source, quotaPath), d);
    OutsideIsOutside(Mapped(s, d, q), d);
    OutsideIsOutside(Mapped(s, s, q), d);
  }

  lemma OutsideIsOutside(place: Option<Names>, destination: Names)
    ensures Outside(place, destination).Some? ==> Outside(place, destination) == place && !(destination <= place.value)
  {
  }

  lemma MappedStartsAtSource(s: Names, d: Names, q: Names)
    ensures Mapped(s, d, q).Some? ==> s <= Mapped(s, d, q).value
  {
  }

  lemma ChargedPartIsGood(change: Change, source: string, destination: string, quotaPath: string)
    ensures var part := ChargedPart(change, source, destination, quotaPath); part.Some? ==> Good(part.value)
  {
    hide CleanedMapping, NamesOf, MappedTreePathForQuota, Good;
    MappingIsExact(source, destination, quotaPath);
  }

  /** One small file at a root where the flows differ, beside an empty file that makes the
      source exist. */
  lemma UnbalancedTree(change: Change, source: string, destination: string, quotaPath: string) returns (files: Files)
    requires Apart(NamesOf(source), NamesOf(destination))
    requires !Balanced(FlowsOf(change, source, destination, quotaPath))
    ensures Possible(files, NamesOf(source), NamesOf(destination))
    ensures var required := Required(change, files, source, destination, quotaPath);
            required.Some? && required.value != Growth(change, files, source, destination, quotaPath)
  {
    hide FlowsOf, NamesOf, Longest, BytesAt, Balanced, Required, Growth, Possible, Counts, Two;
    var f := FlowsOf(change, source, destination, quotaPath);
    var s, d := NamesOf(source), NamesOf(destination);
    MappedFacts(change, source, destination, quotaPath);
    var root := UnevenRoot(f);
    var n := LongestOf(root, s, d, f);
    files := Two(root, 1, s, 0, n);
    TwoArePossible(root, 1, s, 0, n, s, d);
    PossibleIsFree(files, s, d);
    TwoCount(root, 1, s, 0, n, f.chargedIn);
    TwoCount(root, 1, s, 0, n, f.chargedOut);
    TwoCount(root, 1, s, 0, n, f.realIn);
    TwoCount(root, 1, s, 0, n, f.realOut);
    ChargeFlows(change, files, source, destination, quotaPath);
    GrowthFlows(change, files, source, destination, quotaPath);
  }

  lemma PossibleIsFree(files: Files, source: Names, destination: Names)
    ensures Possible(files, source, destination) ==> IsFree(files, destination)
  {
  }

  /** A change is charged exactly, in every tree it can meet, if and only if its flows balance:
      for any paths, source and destination being neither equal nor nested. */
  lemma ChargedExactlyWhen(change: Change, source: string, destination: string, quotaPath: string)
    requires Apart(NamesOf(source), NamesOf(destination))
    ensures ChargedExactly(change, source, destination, quotaPath) <==>
            Balanced(FlowsOf(change, source, destination, quotaPath))
  {
    hide FlowsOf, NamesOf, Required, Growth, Possible, BytesUnder;
    var f := FlowsOf(change, source, destination, quotaPath);
    if Balanced(f) {
      forall files: Files | Possible(files, NamesOf(source), NamesOf(destination))
        ensures var required := Required(change, files, source, destination, quotaPath);
                required.Some? ==> required.value == Growth(change, files, source, destination, quotaPath)
      {
        PossibleIsFree(files, NamesOf(source), NamesOf(destination));
        ChargeFlows(change, files, source, destination, quotaPath);
        GrowthFlows(change, files, source, destination, quotaPath);
      }
    } else {
      var files := UnbalancedTree(change, source, destination, quotaPath);
    }
  }

  // ----- Never over quota -----

  /** A granted change leaves the usage of every rule that it does not undercharge at most at
      its quota, or where it was if that was more. */
  lemma GrantedStaysWithinQuota(change: Change, files: Files, source: string, destination: string, rules: seq<Rule>,
                                checks: seq<Check>, reserved: map<string, nat>, rule: Rule)
    requires IsFree(files, NamesOf(destination))
    requires Covers(change, files, source, destination, rules, checks) && AllFit(checks, reserved)
    requires rule in rules && Applies(rule)
    requires NeverUndercharged(FlowsOf(change, source, destination, CleanRulePath(rule.path)))
    ensures var q := NamesOf(CleanRulePath(rule.path));
            var before, after := BytesUnder(files, q), BytesUnder(After(change, files, source, destination), q);
            after <= before || after <= rule.quotaBytes
  {
    hide Required, CleanRulePath, BytesUnder, NamesOf, After, AllFit, IsFree, FlowsOf, NeverUndercharged;
    var q := CleanRulePath(rule.path);
    var f := FlowsOf(change, source, destination, q);
    ChargeFlows(change, files, source, destination, q);
    GrowthFlows(change, files, source, destination, q);
    ChargedEnough(files, f);
    var required := Required(change, files, source, destination, q).value;
    if required > 0 {
      GrantedChecksFit(checks, reserved, CheckFor(files, rule, required));
    }
  }

  /** Whatever its quota, the rule alone keeps every change that it grants within it. */
  ghost predicate KeepsQuota(change: Change, source: string, destination: string, path: string) {
    forall files: Files, quota: int, checks: seq<Check> ::
      && Possible(files, NamesOf(source), NamesOf(destination)) && quota > 0
      && Covers(change, files, source, destination, [Rule(path, quota)], checks) && AllFit(checks, map[]) ==>
        var before := BytesUnder(files, NamesOf(CleanRulePath(path)));
        var after := BytesUnder(After(change, files, source, destination), NamesOf(CleanRulePath(path)));
        after <= before || after <= quota
  }

  /** Two files, at the root that arrives and where too much is credited. */
  lemma UnderchargedTree(change: Change, source: string, destination: string, quotaPath: string) returns (files: Files)
    requires Apart(NamesOf(source), NamesOf(destination))
    requires !NeverUndercharged(FlowsOf(change, source, destination, quotaPath))
    ensures Possible(files, NamesOf(source), NamesOf(destination))
    ensures var required := Required(change, files, source, destination, quotaPath);
            var growth := Growth(change, files, source, destination, quotaPath);
            required.Some? && growth > required.value && growth > 1
  {
    hide FlowsOf, NamesOf, Longest, BytesAt, Required, Growth, Possible, Counts, Two;
    var f := FlowsOf(change, source, destination, quotaPath);
    var s, d := NamesOf(source), NamesOf(destination);
    MappedFacts(change, source, destination, quotaPath);
    var x := f.realIn.value;
    assert IsRoot(f, x);
    CountsItself(x);
    var y, ySize := s, 0;
    if EnoughAt(f, f.realIn) {
      y, ySize := f.chargedOut.value, 2;
      assert IsRoot(f, y);
      CountsItself(y);
    }
    var n := LongestOf(x, y, d, f);
    files := Two(x, 2, y, ySize, n);
    TwoArePossible(x, 2, y, ySize, n, s, d);
    PossibleIsFree(files, s, d);
    TwoCount(x, 2, y, ySize, n, f.chargedIn);
    TwoCount(x, 2, y, ySize, n, f.chargedOut);
    TwoCount(x, 2, y, ySize, n, f.realIn);
    TwoCount(x, 2, y, ySize, n, f.realOut);
    ChargeFlows(change, files, source, destination, quotaPath);
    GrowthFlows(change, files, source, destination, quotaPath);
  }

  lemma CountsItself(path: Names)
    ensures Counts(Some(path), path)
  {
  }

  lemma OneCheckFits(c: Check)
    requires c.used + c.required <= c.quota && c.required <= MAX_INT64
    ensures AllFit([c], map[])
  {
    assert [c][..0] == [];
  }

  /** A growth that is charged too little is granted under some quota that it then breaks. */
  lemma BrokenQuota(change: Change, files: Files, source: string, destination: string, path: string)
      returns (quota: int, checks: seq<Check>)
    requires CleanRulePath(path) != ""
    requires var required := Required(change, files, source, destination, CleanRulePath(path));
             var growth := Growth(change, files, source, destination, CleanRulePath(path));
             required.Some? && required.value <= MAX_INT64 && growth > required.value && growth > 1
    ensures quota > 0 && AllFit(checks, map[])
    ensures Covers(change, files, source, destination, [Rule(path, quota)], checks)
    ensures BytesUnder(After(change, files, source, destination), NamesOf(CleanRulePath(path))) > quota
  {
    hide Required, CleanRulePath, BytesUnder, NamesOf, After, AllFit;
    var q := CleanRulePath(path);
    var required := Required(change, files, source, destination, q).value;
    if required <= 0 {
      quota, checks := 1, [];
      NothingFits();
    } else {
      quota := BytesUnder(files, NamesOf(q)) + required;
      var rule := Rule(path, quota);
      checks := [CheckFor(files, rule, required)];
      assert rule in [rule] && ComesFrom(change, files, source, destination, checks[0], rule);
      OneCheckFits(checks[0]);
    }
  }

  lemma NothingFits()
    ensures AllFit([], map[])
  {
  }

  lemma ChargeIsMeasured(change: Change, files: Files, source: string, destination: string, quotaPath: string)
    ensures var required := Required(change, files, source, destination, quotaPath);
            required.Some? ==> required.value <= MAX_INT64
  {
    hide MappedTreePathForQuota, NamesOf, BytesUnder, PathWithinBase;
  }

  /** A rule keeps what it grants within its quota, in every tree and for every quota, if and
      only if its flows never undercharge. */
  lemma KeepsQuotaExactlyWhen(change: Change, source: string, destination: string, path: string)
    requires CleanRulePath(path) != "" && Apart(NamesOf(source), NamesOf(destination))
    ensures KeepsQuota(change, source, destination, path) <==>
            NeverUndercharged(FlowsOf(change, source, destination, CleanRulePath(path)))
  {
    hide FlowsOf, NamesOf, Required, After, Possible, BytesUnder, CleanRulePath, AllFit, Covers, NeverUndercharged;
    var q := CleanRulePath(path);
    var f := FlowsOf(change, source, destination, q);
    if NeverUndercharged(f) {
      forall files: Files, quota: int, checks: seq<Check>
        | && Possible(files, NamesOf(source), NamesOf(destination)) && quota > 0
          && Covers(change, files, source, destination, [Rule(path, quota)], checks) && AllFit(checks, map[])
        ensures var before, after := BytesUnder(files, NamesOf(q)), BytesUnder(After(change, files, source, destination), NamesOf(q));
                after <= before || after <= quota
      {
        PossibleIsFree(files, NamesOf(source), NamesOf(destination));
        var rule := Rule(path, quota);
        GrantedStaysWithinQuota(change, files, source, destination, [rule], checks, map[], rule);
      }
    } else {
      var files := UnderchargedTree(change, source, destination, q);
      ChargeIsMeasured(change, files, source, destination, q);
      var quota, checks := BrokenQuota(change, files, source, destination, path);
    }
  }

  // ----- Which paths are charged exactly, and three that are not -----

  /** Paths that the cleaner leaves alone are charged exactly, and no quota is ever broken. */
  lemma AcceptedPathsBalance(change: Change, source: string, destination: string, quotaPath: string)
    requires Accepted(source) && Accepted(destination) && Accepted(quotaPath)
    requires source != "" && destination != "" && quotaPath != ""
    ensures Balanced(FlowsOf(change, source, destination, quotaPath))
    ensures NeverUndercharged(FlowsOf(change, source, destination, quotaPath))
  {
    hide CleanRulePath, NamesOf;
  }

  /** Moving a directory whose name ends in a blank below the one without the blank fills the
      quota of that one and is charged nothing. */
  lemma BlankMovesInFree(files: Files, path: string, destination: string)
    requires Accepted(path) && path != "" && Accepted(destination)
    requires NamesOf(path) != [] && NamesOf(path) < NamesOf(destination)
    ensures var required := MoveRequired(files, path + " ", destination, path); required.Some? ==> required.value == 0
    ensures Growth(Moving, files, path + " ", destination, path) == BytesUnder(files, NamesOf(path + " "))
    ensures IsClean(path + " ")
  {
    CleanedIsClean(path);
    BlankIsDropped(path);
    hide CleanRulePath, NamesOf, BytesUnder, Move, MappedSize, IsClean;
    var source := path + " ";
    MappedSizeIsBytes(files, source, destination, path);
    MappedSizeIsBytes(files, source, source, path);
    MoveConserves(files, NamesOf(source), NamesOf(destination), NamesOf(path));
  }

  /** Copying to a name that ends in a blank adds nothing below the name without the blank and
      is charged to that one in full. */
  lemma BlankCopyIsCharged(files: Files, source: string, path: string)
    requires Accepted(source) && source != "" && Accepted(path) && path != "" && NamesOf(path) != []
    ensures var required := CopyRequired(files, source, path + " ", path);
            required.Some? ==> required.value == BytesUnder(files, NamesOf(source))
    ensures Growth(Copying, files, source, path + " ", path) == 0
    ensures IsClean(path + " ")
  {
    hide CleanRulePath, NamesOf, BytesUnder, Copy, MappedSize, IsClean, PathWithinBase;
    CleanedIsClean(path);
    BlankIsDropped(path);
    var destination := path + " ";
    MappedSizeIsBytes(files, source, destination, path);
    CopyAdds(files, NamesOf(source), NamesOf(destination), NamesOf(path));
    WithinMeansPrefix(path, destination);
  }

  /** A source that the cleaner refuses moves in free. */
  lemma RefusedMovesInFree(files: Files, source: string, destination: string, quotaPath: string)
    requires CleanRulePath(source) == "" && !(NamesOf(quotaPath) <= NamesOf(source))
    requires NamesOf(quotaPath) <= NamesOf(destination) && !(NamesOf(source) <= NamesOf(quotaPath))
    ensures MoveRequired(files, source, destination, quotaPath) == Some(0)
    ensures Growth(Moving, files, source, destination, quotaPath) == BytesUnder(files, NamesOf(source))
  {
    hide NamesOf, BytesUnder, Move;
    MoveConserves(files, NamesOf(source), NamesOf(destination), NamesOf(quotaPath));
  }
}

/** Absolute slash-separated paths as strings, and what the string tests on them mean for
    the names they consist of. */
module Paths {
  import opened Common
  import opened Text

  type Names = seq<string>

  predicate GoodName(name: string) {
    name != "" && '/' !in name && name != "." && name != ".."
  }

  predicate Good(names: Names) {
    forall i :: 0 <= i < |names| ==> GoodName(names[i])
  }

  /** Drops empty and "." segments; ".." takes back one name, and none at the root. */
  function Resolve(segments: seq<string>): (names: Names)
    requires forall i :: 0 <= i < |segments| ==> '/' !in segments[i]
    ensures Good(names)
  {
    if segments == [] then []
    else
      var before, last := Resolve(segments[..|segments| - 1]), segments[|segments| - 1];
      if last == "" || last == "." then before
      else if last == ".." then (if before == [] then [] else before[..|before| - 1])
      else before + [last]
  }

  function NamesOf(path: string): (names: Names)
    ensures Good(names)
  {
    Resolve(Split(path, '/'))
  }

  function Render(names: Names): (path: string)
    ensures path != "" && path[0] == '/'
  {
    if names == [] then "/" else "/" + Join(names, '/')
  }

  /** The shortest equivalent of an absolute path. */
  function Clean(path: string): string {
    Render(NamesOf(path))
  }

  predicate IsClean(path: string) {
    Clean(path) == path
  }

  function JoinPath(path: string, rest: string): string {
    Clean(path + "/" + rest)
  }

  predicate PathWithinBase(base: string, target: string) {
    var b, t := Clean(base), Clean(target);
    if b == "/" then HasPrefix(t, "/") else t == b || HasPrefix(t, b + "/")
  }

  function TrimPrefix(s: string, prefix: string): string {
    if HasPrefix(s, prefix) then s[|prefix|..] else s
  }

  predicate HasDotSegment(path: string) {
    exists i :: 0 <= i < |Split(path, '/')| && Split(path, '/')[i] in [".", ".."]
  }

  predicate HasForbidden(s: string) {
    exists i :: 0 <= i < |s| && s[i] in "\\?#"
  }

  /** How the path of a rule is cleaned; the empty string stands for an ignored rule. */
  function CleanRulePath(path: string): string {
    var trimmed := TrimSpace(path);
    if trimmed == "" || !HasPrefix(trimmed, "/") then ""
    else if HasForbidden(trimmed) || HasDotSegment(trimmed) || HasControl(trimmed) then ""
    else Clean(trimmed)
  }

  function SlashesOnly(s: string): (r: string)
    ensures |r| == |s| && forall i :: 0 <= i < |s| ==> r[i] == if s[i] == '\\' then '/' else s[i]
  {
    if s == "" then "" else [if s[0] == '\\' then '/' else s[0]] + SlashesOnly(s[1..])
  }

  /** How the path of a request is checked and cleaned. */
  function ValidatePath(path: string): Option<string> {
    var normalized := SlashesOnly(path);
    if HasControl(normalized) || HasDotSegment(normalized) then None else Some(Clean("/" + normalized))
  }

  // ----- Rendering and parsing are inverse -----

  lemma {:induction false} ResolveGood(names: Names)
    requires Good(names)
    ensures Resolve(names) == names
  {
    if names != [] {
      ResolveGood(names[..|names| - 1]);
    }
  }

  lemma {:induction false} ResolveConcat(a: seq<string>, b: Names)
    requires Good(b) && forall i :: 0 <= i < |a| ==> '/' !in a[i]
    ensures Resolve(a + b) == Resolve(a) + b
    decreases |b|
  {
    if b == [] {
      assert a + b == a;
    } else {
      var n := |b| - 1;
      assert (a + b)[..|a| + n] == a + b[..n];
      ResolveConcat(a, b[..n]);
    }
  }

  function Prepend(c: char, pieces: seq<string>): seq<string>
    requires |pieces| > 0
  {
    if c == '/' then [""] + pieces else [[c] + pieces[0]] + pieces[1..]
  }

  lemma PrependConcat(c: char, a: seq<string>, b: seq<string>)
    requires |a| > 0
    ensures Prepend(c, a + b) == Prepend(c, a) + b
  {
    assert (a + b)[1..] == a[1..] + b;
  }

  lemma SplitStep(s: string)
    requires s != ""
    ensures Split(s, '/') == Prepend(s[0], Split(s[1..], '/'))
  {
  }

  lemma {:induction false} SplitConcat(a: string, b: string)
    ensures Split(a + "/" + b, '/') == Split(a, '/') + Split(b, '/')
    decreases |a|
  {
    hide Prepend;
    var s := a + "/" + b;
    SplitStep(s);
    if a == "" {
      assert s[1..] == b;
      assert Prepend('/', Split(b, '/')) == [""] + Split(b, '/') by {
        SplitStep("/" + b);
        assert ("/" + b)[1..] == b;
      }
    } else {
      SplitConcat(a[1..], b);
      assert s[1..] == a[1..] + "/" + b;
      SplitStep(a);
      PrependConcat(a[0], Split(a[1..], '/'), Split(b, '/'));
    }
  }

  lemma NamesOfRender(names: Names)
    requires Good(names)
    ensures NamesOf(Render(names)) == names
  {
    if names == [] {
      assert Split("/", '/') == ["", ""];
      assert ["", ""][..1] == [""] && [""][..0] == [];
    } else {
      SplitOfJoin(names, '/');
      SplitConcat("", Join(names, '/'));
      assert "" + "/" + Join(names, '/') == Render(names);
      ResolveConcat([""], names);
      assert [""][..0] == [];
    }
  }

  /** Cleaning once is enough, and two clean paths with the same names are the same. */
  lemma CleanIsClean(path: string)
    ensures IsClean(Clean(path)) && NamesOf(Clean(path)) == NamesOf(path)
  {
    NamesOfRender(NamesOf(path));
  }

  lemma ValidatedIsClean(path: string)
    ensures ValidatePath(path).Some? ==> IsClean(ValidatePath(path).value)
  {
    CleanIsClean("/" + SlashesOnly(path));
  }

  /** The pieces that are not empty, in their order. */
  function NonEmpty(pieces: seq<string>): seq<string> {
    if pieces == [] then []
    else
      var before, last := NonEmpty(pieces[..|pieces| - 1]), pieces[|pieces| - 1];
      if last == "" then before else before + [last]
  }

  lemma {:induction false} ResolveWithoutDots(segments: seq<string>)
    requires forall i :: 0 <= i < |segments| ==> '/' !in segments[i] && segments[i] != "." && segments[i] != ".."
    ensures Resolve(segments) == NonEmpty(segments)
  {
    if segments != [] {
      ResolveWithoutDots(segments[..|segments| - 1]);
    }
  }

  lemma {:induction false} NonEmptyFirst(segments: seq<string>)
    ensures NonEmpty([""] + segments) == NonEmpty(segments)
  {
    if segments == [] {
      assert [""] + segments == [""] && [""][..0] == [];
    } else {
      NonEmptyFirst(segments[..|segments| - 1]);
      assert ([""] + segments)[..|segments|] == [""] + segments[..|segments| - 1];
    }
  }

  /** A request path is accepted if and only if it has no control character and, read with slashes
      for backslashes, no segment that is a dot or two. All its names are kept, in their order. */
  lemma ValidatedExactlyWhen(path: string)
    ensures var segments := Split(SlashesOnly(path), '/');
            && (ValidatePath(path).Some? <==>
                  && (forall i :: 0 <= i < |path| ==> ' ' <= path[i] && !('\U{7F}' <= path[i] <= '\U{9F}'))
                  && NoDots(segments))
            && (ValidatePath(path).Some? ==> NamesOf(ValidatePath(path).value) == NonEmpty(segments))
  {
    hide Clean, NamesOf, Split, NonEmpty, HasControl, HasDotSegment;
    var normalized := SlashesOnly(path);
    var segments := Split(normalized, '/');
    SameControl(path);
    DotSegments(normalized);
    if ValidatePath(path).Some? {
      NamesAreSegments(normalized);
      CleanIsClean("/" + normalized);
    }
  }

  /** What one more segment does to the names of a path: nothing if it is empty or a dot, two dots
      take the last name back, if there is one, and anything else is one name more. */
  lemma NamesOfSegment(path: string, segment: string)
    requires '/' !in segment
    ensures var names := NamesOf(path);
            NamesOf(path + "/" + segment) ==
            if segment == "" || segment == "." then names
            else if segment == ".." then (if names == [] then [] else names[..|names| - 1])
            else names + [segment]
  {
    hide Split;
    SplitConcat(path, segment);
    SplitWhole(segment, '/');
    var before := Split(path, '/');
    assert (before + [segment])[..|before|] == before;
  }

  /** No character that a rule's path may not have. */
  predicate Harmless(s: string) {
    forall i :: 0 <= i < |s| ==> s[i] != '\\' && s[i] != '?' && s[i] != '#' && !IsControl(s[i])
  }

  /** A rule's path is taken if and only if, trimmed, it begins with a slash and has none of the
      three refused characters, no control character and no segment that is a dot or two. It then
      has the names of its segments. */
  lemma RulePathExactlyWhen(path: string)
    ensures var t := TrimSpace(path);
            && (CleanRulePath(path) != "" <==>
                  && t != "" && t[0] == '/'
                  && Harmless(t)
                  && NoDots(Split(t, '/')))
            && (CleanRulePath(path) != "" ==> NamesOf(CleanRulePath(path)) == NonEmpty(Split(t, '/')))
  {
    hide Clean, NamesOf, Split, NonEmpty, HasDotSegment, HasForbidden, HasControl, Harmless, NoDots, TrimSpace, Resolve;
    var t := TrimSpace(path);
    assert t != "" ==> (HasPrefix(t, "/") <==> t[0] == '/');
    DotSegments(t);
    HarmlessExactly(t);
    CleanIsSomething(t);
    if CleanRulePath(path) != "" {
      CleanIsClean(t);
      NamesOfDotless(t);
    }
  }

  lemma CleanIsSomething(path: string)
    ensures Clean(path) != ""
  {
  }

  lemma RefusedIs(c: char)
    ensures c in "\\?#" <==> c == '\\' || c == '?' || c == '#'
  {
    var refused := "\\?#";
    assert refused[0] == '\\' && refused[1] == '?' && refused[2] == '#';
  }

  lemma HarmlessExactly(s: string)
    ensures Harmless(s) <==> !HasForbidden(s) && !HasControl(s)
  {
    hide IsControl;
    forall i | 0 <= i < |s|
      ensures s[i] in "\\?#" <==> s[i] == '\\' || s[i] == '?' || s[i] == '#'
    {
      RefusedIs(s[i]);
    }
  }

  lemma NamesOfDotless(path: string)
    requires NoDots(Split(path, '/'))
    ensures NamesOf(path) == NonEmpty(Split(path, '/'))
  {
    hide Split, Resolve, NonEmpty;
    ResolveWithoutDots(Split(path, '/'));
  }

  lemma SameControl(path: string)
    ensures HasControl(SlashesOnly(path)) <==> !forall i :: 0 <= i < |path| ==> ' ' <= path[i] && !('\U{7F}' <= path[i] <= '\U{9F}')
  {
    var normalized := SlashesOnly(path);
    forall i | 0 <= i < |path|
      ensures IsControl(normalized[i]) <==> !(' ' <= path[i] && !('\U{7F}' <= path[i] <= '\U{9F}'))
    {
      assert normalized[i] == if path[i] == '\\' then '/' else path[i];
    }
  }

  predicate NoDots(segments: seq<string>) {
    forall i :: 0 <= i < |segments| ==> segments[i] != "." && segments[i] != ".."
  }

  lemma DotSegments(path: string)
    ensures HasDotSegment(path) <==> !NoDots(Split(path, '/'))
  {
    hide Split;
    var segments := Split(path, '/');
    if HasDotSegment(path) {
      var i :| 0 <= i < |segments| && segments[i] in [".", ".."];
      IsDots(segments[i]);
    } else {
      forall i | 0 <= i < |segments|
        ensures segments[i] != "." && segments[i] != ".."
      {
        IsDots(segments[i]);
      }
    }
  }

  lemma IsDots(segment: string)
    ensures segment in [".", ".."] <==> segment == "." || segment == ".."
  {
    var dots := [".", ".."];
    assert dots[0] == "." && dots[1] == "..";
  }

  lemma NamesAreSegments(normalized: string)
    requires !HasDotSegment(normalized)
    ensures NamesOf("/" + normalized) == NonEmpty(Split(normalized, '/'))
  {
    hide Split, Resolve, NonEmpty, Prepend;
    var segments := Split(normalized, '/');
    SplitConcat("", normalized);
    assert "" + "/" + normalized == "/" + normalized;
    SplitOfNothing();
    ResolveWithoutDots([""] + segments);
    NonEmptyFirst(segments);
  }

  lemma SplitOfNothing()
    ensures Split("", '/') == [""]
  {
  }

  predicate NoControl(pieces: seq<string>) {
    forall i :: 0 <= i < |pieces| ==> !HasControl(pieces[i])
  }

  lemma ControlOfConcat(a: string, b: string)
    ensures HasControl(a + b) <==> HasControl(a) || HasControl(b)
  {
    assert forall i :: 0 <= i < |b| ==> (a + b)[|a| + i] == b[i];
    assert forall i :: 0 <= i < |a| ==> (a + b)[i] == a[i];
  }

  lemma {:induction false} SplitNoControl(s: string)
    requires !HasControl(s)
    ensures NoControl(Split(s, '/'))
  {
    if s != "" {
      assert s == [s[0]] + s[1..];
      ControlOfConcat([s[0]], s[1..]);
      SplitNoControl(s[1..]);
      ControlOfConcat([s[0]], Split(s[1..], '/')[0]);
      hide HasControl;
      SplitStep(s);
    }
  }

  lemma {:induction false} ResolveNoControl(segments: seq<string>)
    requires NoControl(segments) && forall i :: 0 <= i < |segments| ==> '/' !in segments[i]
    ensures NoControl(Resolve(segments))
  {
    hide HasControl;
    if segments != [] {
      ResolveNoControl(segments[..|segments| - 1]);
    }
  }

  lemma {:induction false} JoinNoControl(names: Names)
    requires NoControl(names) && names != []
    ensures !HasControl(Join(names, '/'))
  {
    if |names| > 1 {
      JoinNoControl(names[1..]);
      ControlOfConcat(names[0], "/");
      ControlOfConcat(names[0] + "/", Join(names[1..], '/'));
    }
  }

  lemma ValidatedHasNoControl(path: string)
    ensures ValidatePath(path).Some? ==> !HasControl(ValidatePath(path).value)
  {
    var normalized := SlashesOnly(path);
    if !HasControl(normalized) {
      ControlOfConcat("/", normalized);
      SplitNoControl("/" + normalized);
      ResolveNoControl(Split("/" + normalized, '/'));
      var names := NamesOf("/" + normalized);
      if names != [] {
        JoinNoControl(names);
        ControlOfConcat("/", Join(names, '/'));
      }
    }
  }

  lemma NamesOfJoined(path: string, names: Names)
    requires Good(names) && names != []
    ensures JoinPath(path, Join(names, '/')) == Render(NamesOf(path) + names)
  {
    SplitConcat(path, Join(names, '/'));
    SplitOfJoin(names, '/');
    ResolveConcat(Split(path, '/'), names);
  }

  // ----- A path lies in a base exactly if its names go on from the base's -----

  lemma SlashAt(name: string, rest: string)
    requires '/' !in name
    ensures var s := name + "/" + rest; s[|name|] == '/' && forall i :: 0 <= i < |name| ==> s[i] != '/'
  {
  }

  lemma FirstSlash(a: string, u: string, b: string, v: string)
    requires '/' !in a && '/' !in b
    ensures HasPrefix(b + "/" + v, a + "/" + u) <==> a == b && HasPrefix(v, u)
    ensures !HasPrefix(b, a + "/" + u)
  {
    var left, right := a + "/" + u, b + "/" + v;
    SlashAt(a, u);
    SlashAt(b, v);
    assert left <= right ==> |a| == |b| by {
      assert left <= right ==> forall i :: 0 <= i < |left| ==> left[i] == right[i];
    }
    if a == b {
      assert right[|a| + 1..] == v && left[|a| + 1..] == u;
      assert left <= right ==> u == right[|a| + 1..|left|];
      assert u <= v ==> right[..|left|] == left;
    }
    assert left <= right ==> a == left[..|a|] && b == right[..|b|] && left[..|a|] == right[..|a|];
    assert forall i :: 0 <= i < |b| ==> b[i] in b;
  }

  lemma JoinStep(names: Names)
    requires names != []
    ensures Join(names, '/') == if |names| == 1 then names[0] else names[0] + "/" + Join(names[1..], '/')
    ensures Join(names, '/') + "/" == names[0] + "/" + (if |names| == 1 then "" else Join(names[1..], '/') + "/")
  {
    if |names| > 1 {
      JoinUnfolds(names);
      hide Join;
      SlashLast(names[0], Join(names[1..], '/'));
    } else {
      assert names[0] + "/" == names[0] + "/" + "";
    }
  }

  lemma JoinUnfolds(names: Names)
    requires |names| > 1
    ensures Join(names, '/') == names[0] + "/" + Join(names[1..], '/')
  {
  }

  lemma SlashLast(name: string, rest: string)
    ensures name + "/" + rest + "/" == name + "/" + (rest + "/")
  {
  }

  lemma HeadAndTail(x: Names, y: Names)
    requires x != [] && y != []
    ensures x < y <==> x[0] == y[0] && |y| > 1 && (|x| == 1 || x[1..] < y[1..])
  {
    assert x == [x[0]] + x[1..] && y == [y[0]] + y[1..];
    assert |x| == 1 ==> x[1..] == [];
  }

  lemma {:induction false} JoinedPrefix(x: Names, y: Names)
    requires Good(x) && Good(y) && x != [] && y != []
    ensures HasPrefix(Join(y, '/'), Join(x, '/') + "/") <==> x < y
    decreases |x|
  {
    hide Join, HasPrefix;
    assert GoodName(x[0]) && GoodName(y[0]);
    var u := if |x| == 1 then "" else Join(x[1..], '/') + "/";
    var v := if |y| == 1 then "" else Join(y[1..], '/');
    JoinStep(x);
    JoinStep(y);
    HeadAndTail(x, y);
    FirstSlash(x[0], u, y[0], v);
    if |x| > 1 && |y| > 1 {
      JoinedPrefix(x[1..], y[1..]);
    } else {
      EmptyPrefix(v);
    }
  }

  lemma EmptyPrefix(s: string)
    ensures HasPrefix(s, "")
  {
  }

  lemma RenderedPrefix(x: Names, y: Names)
    requires Good(x) && Good(y) && x != []
    ensures HasPrefix(Render(y), Render(x) + "/") <==> x < y
  {
    var left := Render(x) + "/";
    if y == [] {
      assert |left| > 1;
    } else {
      JoinedPrefix(x, y);
      var joined := Join(x, '/') + "/";
      assert left == "/" + joined && left[1..] == joined && Render(y)[1..] == Join(y, '/');
      if HasPrefix(Join(y, '/'), joined) {
        assert Render(y)[..|left|] == left;
      }
      if HasPrefix(Render(y), left) {
        assert Join(y, '/')[..|joined|] == joined;
      }
    }
  }

  /** The string test for "within a base" means exactly that the base's names come first. */
  lemma WithinMeansPrefix(base: string, target: string)
    ensures PathWithinBase(base, target) <==> NamesOf(base) <= NamesOf(target)
  {
    var x, y := NamesOf(base), NamesOf(target);
    NamesOfRender(x);
    NamesOfRender(y);
    if x != [] {
      RenderedPrefix(x, y);
      assert Render(x) != "/" by {
        assert NamesOf("/") == [] by {
          NamesOfRender([]);
        }
      }
      assert x <= y <==> x == y || x < y;
    }
  }

  // ----- Where a quota path falls in a tree that is mapped elsewhere -----

  /** For a tree at `treeRoot` that is or will be at `mappedRoot`: the part of it that counts
      for the quota path, as a path of the tree where it is now. */
  function MappedTreePathForQuota(treeRoot: string, mappedRoot: string, quotaPath: string): Option<string> {
    var t, m, q := CleanRulePath(treeRoot), CleanRulePath(mappedRoot), CleanRulePath(quotaPath);
    if t == "" || m == "" || q == "" then None
    else if PathWithinBase(q, m) then Some(t)
    else if !PathWithinBase(m, q) then None
    else
      var relative := if m == "/" then TrimPrefix(q, "/") else TrimPrefix(TrimPrefix(q, m), "/");
      if relative == "" then Some(t) else Some(JoinPath(t, relative))
  }

  /** The same on names. */
  function Mapped(t: Names, m: Names, q: Names): Option<Names> {
    if q <= m then Some(t) else if m <= q then Some(t + q[|m|..]) else None
  }

  /** The mapping on the names of what the cleaner makes of the three paths. */
  function CleanedMapping(treeRoot: string, mappedRoot: string, quotaPath: string): Option<Names> {
    var t, m, q := CleanRulePath(treeRoot), CleanRulePath(mappedRoot), CleanRulePath(quotaPath);
    if t == "" || m == "" || q == "" then None else Mapped(NamesOf(t), NamesOf(m), NamesOf(q))
  }

  predicate Accepted(path: string) {
    CleanRulePath(path) == path
  }

  lemma CleanedIsClean(path: string)
    requires CleanRulePath(path) != ""
    ensures IsClean(CleanRulePath(path))
  {
    CleanIsClean(TrimSpace(path));
  }

  lemma RelativePart(m: Names, q: Names)
    requires Good(m) && Good(q) && m < q
    ensures var path, root := Render(q), Render(m);
            (if root == "/" then TrimPrefix(path, "/") else TrimPrefix(TrimPrefix(path, root), "/")) == Join(q[|m|..], '/')
    ensures (m == [] <==> Render(m) == "/") && Join(q[|m|..], '/') != ""
  {
    hide Join, NamesOf, Render, TrimPrefix, Good;
    var rest := q[|m|..];
    assert q == m + rest && rest != [];
    JoinedIsNotEmpty(q, |m|);
    if m == [] {
      RootRelative(q);
    } else {
      NotRoot(m);
      DeepRelative(m, rest);
    }
  }

  lemma JoinedIsNotEmpty(names: Names, n: nat)
    requires Good(names) && n < |names|
    ensures Join(names[n..], '/') != ""
  {
    assert GoodName(names[n]);
  }

  lemma RootRelative(names: Names)
    requires names != []
    ensures Render([]) == "/" && TrimPrefix(Render(names), "/") == Join(names, '/')
    ensures names[0..] == names
  {
    hide Join;
    assert Render(names)[1..] == Join(names, '/');
  }

  lemma DeepRelative(names: Names, rest: Names)
    requires names != [] && rest != []
    ensures TrimPrefix(TrimPrefix(Render(names + rest), Render(names)), "/") == Join(rest, '/')
  {
    hide Join, TrimPrefix;
    JoinConcat(names, rest);
    StripTwice(Render(names), Join(rest, '/'));
    assert "/" + (Join(names, '/') + "/" + Join(rest, '/')) == "/" + Join(names, '/') + "/" + Join(rest, '/');
  }

  lemma NotRoot(names: Names)
    requires Good(names) && names != []
    ensures Render(names) != "/"
  {
    NamesOfRender(names);
    NamesOfRender([]);
  }

  lemma StripTwice(root: string, rest: string)
    ensures TrimPrefix(TrimPrefix(root + "/" + rest, root), "/") == rest
  {
    var path := root + "/" + rest;
    assert path[..|root|] == root && path[|root|..] == "/" + rest;
    assert ("/" + rest)[..1] == "/";
  }

  lemma {:induction false} JoinConcat(a: Names, b: Names)
    requires a != [] && b != []
    ensures Join(a + b, '/') == Join(a, '/') + "/" + Join(b, '/')
    decreases |a|
  {
    if |a| == 1 {
      assert (a + b)[1..] == b;
    } else {
      JoinConcat(a[1..], b);
      assert (a + b)[1..] == a[1..] + b;
      assert a[0] + "/" + (Join(a[1..], '/') + "/" + Join(b, '/')) ==
             a[0] + "/" + Join(a[1..], '/') + "/" + Join(b, '/');
    }
  }

  lemma GoodMapped(t: Names, m: Names, q: Names)
    requires Good(t) && Good(m) && Good(q)
    ensures Mapped(t, m, q).Some? ==> Good(Mapped(t, m, q).value)
  {
  }

  lemma MappingOfClean(t: string, m: string, q: string)
    requires IsClean(t) && IsClean(m) && IsClean(q)
    ensures var mapped := Mapped(NamesOf(t), NamesOf(m), NamesOf(q));
            var relative := if m == "/" then TrimPrefix(q, "/") else TrimPrefix(TrimPrefix(q, m), "/");
            (if PathWithinBase(q, m) then Some(t)
             else if !PathWithinBase(m, q) then None
             else if relative == "" then Some(t) else Some(JoinPath(t, relative)))
            == if mapped.Some? then Some(Render(mapped.value)) else None
  {
    hide PathWithinBase, NamesOf, TrimPrefix;
    WithinMeansPrefix(q, m);
    WithinMeansPrefix(m, q);
    var names, root := NamesOf(q), NamesOf(m);
    if !(names <= root) && root <= names {
      RelativePart(root, names);
      NamesOfJoined(t, names[|root|..]);
    }
  }

  /** The string mapping is the mapping of the names of the cleaned paths, for any three paths. */
  lemma MappingIsExact(treeRoot: string, mappedRoot: string, quotaPath: string)
    ensures var mapped := CleanedMapping(treeRoot, mappedRoot, quotaPath);
            MappedTreePathForQuota(treeRoot, mappedRoot, quotaPath) ==
              if mapped.Some? then Some(Render(mapped.value)) else None
    ensures CleanedMapping(treeRoot, mappedRoot, quotaPath).Some? ==>
      Good(CleanedMapping(treeRoot, mappedRoot, quotaPath).value)
  {
    var t, m, q := CleanRulePath(treeRoot), CleanRulePath(mappedRoot), CleanRulePath(quotaPath);
    if t != "" && m != "" && q != "" {
      CleanedIsClean(treeRoot);
      CleanedIsClean(mappedRoot);
      CleanedIsClean(quotaPath);
      hide CleanRulePath, NamesOf, PathWithinBase;
      MappingOfClean(t, m, q);
      GoodMapped(NamesOf(t), NamesOf(m), NamesOf(q));
    }
  }

  // ----- Which paths the cleaner leaves alone -----

  function Weight(segments: seq<string>): nat {
    if segments == [] then 0 else |segments[0]| + 1 + Weight(segments[1..])
  }

  lemma {:induction false} WeightSnoc(segments: seq<string>, last: string)
    ensures Weight(segments + [last]) == Weight(segments) + |last| + 1
  {
    if segments != [] {
      WeightSnoc(segments[1..], last);
      assert (segments + [last])[1..] == segments[1..] + [last];
    }
  }

  lemma {:induction false} JoinedWeight(names: seq<string>)
    requires names != []
    ensures |Join(names, '/')| + 1 == Weight(names)
  {
    if |names| > 1 {
      JoinedWeight(names[1..]);
    }
  }

  /** Resolving never adds text, and a leading empty segment always goes. */
  lemma {:induction false} ResolveLightens(segments: seq<string>)
    requires forall i :: 0 <= i < |segments| ==> '/' !in segments[i]
    ensures Weight(Resolve(segments)) <= Weight(segments)
    ensures segments != [] && segments[0] == "" ==> Weight(Resolve(segments)) < Weight(segments)
  {
    if segments != [] {
      var before, last := segments[..|segments| - 1], segments[|segments| - 1];
      ResolveLightens(before);
      assert segments == before + [last];
      WeightSnoc(before, last);
      var names := Resolve(before);
      WeightSnoc(names, last);
      if names != [] {
        WeightSnoc(names[..|names| - 1], names[|names| - 1]);
        assert names == names[..|names| - 1] + [names[|names| - 1]];
      }
    }
  }

  lemma CleanIsShorter(path: string)
    requires path != "" && path[0] == '/'
    ensures |Clean(path)| <= |path|
  {
    var segments := Split(path, '/');
    SplitStep(path);
    JoinOfSplit(path, '/');
    JoinedWeight(segments);
    ResolveLightens(segments);
    if NamesOf(path) != [] {
      JoinedWeight(NamesOf(path));
    }
  }

  lemma SplitOfClean(path: string)
    requires IsClean(path)
    ensures Split(path, '/') == [""] + (if NamesOf(path) == [] then [""] else NamesOf(path))
  {
    var names := NamesOf(path);
    if names == [] {
      assert path == "/" && path[1..] == "";
    } else {
      SplitOfJoin(names, '/');
      SplitConcat("", Join(names, '/'));
      assert "" + "/" + Join(names, '/') == path;
    }
  }

  lemma NoDotInClean(path: string)
    requires IsClean(path)
    ensures !HasDotSegment(path)
  {
    hide Split, NamesOf, Clean;
    SplitOfClean(path);
  }

  predicate EndsInSpace(path: string) {
    path != "" && IsSpace(path[|path| - 1])
  }

  /** A clean path is left alone exactly if it has no refused character, no control character
      and does not end in white space. */
  lemma AcceptedExactlyWhen(path: string)
    requires IsClean(path)
    ensures Accepted(path) <==> !HasForbidden(path) && !HasControl(path) && !EndsInSpace(path)
  {
    NoDotInClean(path);
    var trimmed := TrimSpace(path);
    assert TrimLeft(path) == path;
    if EndsInSpace(path) {
      assert |trimmed| < |path|;
      if trimmed != "" {
        assert trimmed[0] == path[0];
        CleanIsShorter(trimmed);
      }
    } else {
      assert trimmed == path;
    }
    hide HasForbidden, HasControl, HasDotSegment, Clean, TrimSpace;
  }

  /** Behind one more slash the white space is kept: a rule can be for such a path, but
      cleaning that path again gives another one. */
  lemma CleaningTwiceDiffers(path: string)
    requires IsClean(path) && !HasForbidden(path) && !HasControl(path) && EndsInSpace(path)
    ensures CleanRulePath(path + "/") == path && CleanRulePath(path) != path
  {
    AcceptedExactlyWhen(path);
    KeptBehindSlash(path);
  }

  lemma KeptBehindSlash(path: string)
    requires IsClean(path) && !HasForbidden(path) && !HasControl(path)
    ensures CleanRulePath(path + "/") == path
  {
    hide HasForbidden, HasControl, HasDotSegment, TrimSpace, NamesOf;
    SlashIsKept(path);
    SlashIsHarmless(path);
    SlashAddsNoName(path);
  }

  lemma SlashIsKept(path: string)
    requires IsClean(path)
    ensures TrimSpace(path + "/") == path + "/"
  {
    hide NamesOf;
    var longer := path + "/";
    assert longer[0] == path[0] && longer[|longer| - 1] == '/';
    assert TrimLeft(longer) == longer;
  }

  lemma SlashIsHarmless(path: string)
    ensures HasForbidden(path + "/") <==> HasForbidden(path)
    ensures HasControl(path + "/") <==> HasControl(path)
  {
    assert !HasControl("/");
    hide HasControl;
    ControlOfConcat(path, "/");
    var longer := path + "/";
    assert forall i :: 0 <= i < |path| ==> longer[i] == path[i];
  }

  lemma SlashAddsNoName(path: string)
    requires IsClean(path)
    ensures NamesOf(path + "/") == NamesOf(path) && !HasDotSegment(path + "/")
  {
    hide Split;
    SplitOfClean(path);
    NoDotInClean(path);
    SplitConcat(path, "");
    SplitWhole("", '/');
    assert path + "/" + "" == path + "/";
    var segments := Split(path, '/');
    assert (segments + [""])[..|segments|] == segments;
  }

  lemma {:induction false} JoinSnoc(names: Names, more: string)
    requires names != []
    ensures var n := |names| - 1; Join(names, '/') + more == Join(names[..n] + [names[n] + more], '/')
    decreases |names|
  {
    var n := |names| - 1;
    var longer := names[..n] + [names[n] + more];
    if n > 0 {
      JoinSnoc(names[1..], more);
      assert longer[1..] == names[1..][..n - 1] + [names[1..][n - 1] + more];
      assert names[0] + "/" + (Join(names[1..], '/') + more) == names[0] + "/" + Join(names[1..], '/') + more;
    } else {
      assert longer == [names[0] + more];
    }
  }

  predicate Apart(x: Names, y: Names) {
    !(x <= y) && !(y <= x)
  }

  /** A path with a blank behind it is cleaned to the path without, although it is another. */
  lemma BlankIsDropped(path: string)
    requires Accepted(path) && IsClean(path) && NamesOf(path) != []
    ensures CleanRulePath(path + " ") == path && IsClean(path + " ")
    ensures Apart(NamesOf(path), NamesOf(path + " "))
  {
    hide HasForbidden, HasControl, HasDotSegment, NamesOf, TrimSpace, Render;
    AcceptedExactlyWhen(path);
    BlankIsTrimmed(path);
    BlankIsAnotherName(path);
  }

  lemma BlankIsTrimmed(path: string)
    requires IsClean(path)
    ensures TrimSpace(path + " ") == TrimSpace(path)
  {
    hide NamesOf;
    var longer := path + " ";
    assert longer[0] == path[0] && TrimLeft(longer) == longer && TrimLeft(path) == path;
    assert longer[..|path|] == path;
  }

  lemma BlankIsAnotherName(path: string)
    requires IsClean(path) && NamesOf(path) != []
    ensures IsClean(path + " ") && Apart(NamesOf(path), NamesOf(path + " "))
  {
    hide NamesOf, Join;
    var names := NamesOf(path);
    var n := |names| - 1;
    var last := names[n] + " ";
    var blank := names[..n] + [last];
    JoinSnoc(names, " ");
    assert "/" + (Join(names, '/') + " ") == path + " ";
    assert |last| == |names[n]| + 1 && last[|names[n]|] == ' ';
    assert GoodName(names[n]) && GoodName(last);
    NamesOfRender(blank);
    assert names[n] != blank[n];
  }
}

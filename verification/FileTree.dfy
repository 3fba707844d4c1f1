/** A tree of files: what a move or a copy of a subtree does to it, how many bytes it brings
    under any path, and the recursive size scan with its overflow check. */
module FileTree {
  import opened Common
  import opened Paths

  const MAX_INT64: nat := 0x7fff_ffff_ffff_ffff

  /** A file and where it is; directories matter only through the files in them. */
  datatype File = File(path: Names, size: int)

  type Files = seq<File>

  function LogicalSize(f: File): nat {
    if f.size < 0 then 0 else f.size
  }

  function BytesUnder(files: Files, q: Names): nat {
    if files == [] then 0 else (if q <= files[0].path then LogicalSize(files[0]) else 0) + BytesUnder(files[1..], q)
  }

  // ----- Moving and copying a subtree -----

  function Located(f: File, source: Names, destination: Names): File {
    if source <= f.path then f.(path := destination + f.path[|source|..]) else f
  }

  function Move(files: Files, source: Names, destination: Names): Files {
    if files == [] then [] else [Located(files[0], source, destination)] + Move(files[1..], source, destination)
  }

  function Copies(files: Files, source: Names, destination: Names): Files {
    if files == [] then []
    else
      (if source <= files[0].path then [Located(files[0], source, destination)] else [])
      + Copies(files[1..], source, destination)
  }

  function Copy(files: Files, source: Names, destination: Names): Files {
    files + Copies(files, source, destination)
  }

  function BytesAt(files: Files, place: Option<Names>): nat {
    if place.Some? then BytesUnder(files, place.value) else 0
  }

  function Counts(place: Option<Names>, path: Names): bool {
    place.Some? && place.value <= path
  }

  /** Where a file of a moved tree lands decides exactly as where it came from. */
  lemma LandsUnder(f: File, source: Names, destination: Names, q: Names)
    ensures source <= f.path ==> (q <= Located(f, source, destination).path <==> Counts(Mapped(source, destination, q), f.path))
    ensures !(source <= f.path) ==> !Counts(Mapped(source, destination, q), f.path)
  {
    if source <= f.path {
      var rest := f.path[|source|..];
      assert f.path == source + rest;
      if destination <= q {
        var tail := q[|destination|..];
        assert q == destination + tail;
        PrefixOfConcat(destination, tail, rest);
        PrefixOfConcat(source, tail, rest);
        assert q <= destination ==> tail == [];
      } else if q <= destination {
        assert q <= destination + rest;
      } else {
        PrefixesCompare(q, destination, destination + rest);
      }
    }
  }

  /** Two prefixes of one path: the shorter is a prefix of the longer. */
  lemma PrefixesCompare(x: Names, y: Names, z: Names)
    ensures x <= z && y <= z ==> x <= y || y <= x
  {
    assert x <= z && y <= z && |x| <= |y| ==> x == z[..|x|] && z[..|y|] == y && z[..|y|][..|x|] == x;
    assert x <= z && y <= z && |y| <= |x| ==> y == z[..|y|] && z[..|x|] == x && z[..|x|][..|y|] == y;
  }

  lemma PrefixOfLonger(base: Names, rest: Names, path: Names)
    ensures base + rest <= path ==> base <= path
  {
    assert base <= base + rest;
  }

  lemma PrefixOfConcat(base: Names, tail: Names, rest: Names)
    ensures base + tail <= base + rest <==> tail <= rest
  {
    if base + tail <= base + rest {
      assert (base + tail)[|base|..] == tail && (base + rest)[|base|..] == rest;
      assert tail == rest[..|tail|];
    }
    if tail <= rest {
      assert (base + rest)[..|base| + |tail|] == base + tail;
    }
  }

  /** A move changes the bytes under any path by exactly what lands there minus what leaves. */
  lemma {:induction false} MoveConserves(files: Files, source: Names, destination: Names, q: Names)
    ensures BytesUnder(Move(files, source, destination), q) + BytesAt(files, Mapped(source, source, q))
         == BytesUnder(files, q) + BytesAt(files, Mapped(source, destination, q))
  {
    if files != [] {
      var moved := Move(files, source, destination);
      assert moved[0] == Located(files[0], source, destination) && moved[1..] == Move(files[1..], source, destination);
      MoveConserves(files[1..], source, destination, q);
      LandsUnder(files[0], source, destination, q);
      LandsUnder(files[0], source, source, q);
      if source <= files[0].path {
        assert source + files[0].path[|source|..] == files[0].path;
      }
      hide Mapped, Located;
    }
  }

  lemma {:induction false} BytesOfConcat(a: Files, b: Files, q: Names)
    ensures BytesUnder(a + b, q) == BytesUnder(a, q) + BytesUnder(b, q)
  {
    if a == [] {
      assert a + b == b;
    } else {
      BytesOfConcat(a[1..], b, q);
      assert (a + b)[1..] == a[1..] + b;
    }
  }

  lemma {:induction false} CopiesCount(files: Files, source: Names, destination: Names, q: Names)
    ensures BytesUnder(Copies(files, source, destination), q) == BytesAt(files, Mapped(source, destination, q))
  {
    if files != [] {
      CopiesCount(files[1..], source, destination, q);
      LandsUnder(files[0], source, destination, q);
      var first, rest := Located(files[0], source, destination), Copies(files[1..], source, destination);
      assert ([first] + rest)[1..] == rest && [] + rest == rest;
      hide Mapped, Located;
    }
  }

  /** A copy adds exactly what lands under the path. */
  lemma CopyAdds(files: Files, source: Names, destination: Names, q: Names)
    ensures BytesUnder(Copy(files, source, destination), q) ==
            BytesUnder(files, q) + BytesAt(files, Mapped(source, destination, q))
  {
    BytesOfConcat(files, Copies(files, source, destination), q);
    CopiesCount(files, source, destination, q);
  }

  /** No path is taken twice and no file lies under another. */
  predicate IsTree(files: Files) {
    forall i, j :: 0 <= i < |files| && 0 <= j < |files| && i != j ==> !(files[i].path <= files[j].path)
  }

  /** Nothing at or above the destination, nor under it. */
  predicate IsFree(files: Files, destination: Names) {
    forall i :: 0 <= i < |files| ==> !(destination <= files[i].path) && !(files[i].path <= destination)
  }

  lemma {:induction false} MovedAt(files: Files, source: Names, destination: Names, i: nat)
    requires i < |files|
    ensures |Move(files, source, destination)| == |files|
    ensures Move(files, source, destination)[i] == Located(files[i], source, destination)
  {
    if i > 0 {
      MovedAt(files[1..], source, destination, i - 1);
    } else if |files| > 1 {
      MovedAt(files[1..], source, destination, 0);
    }
  }

  lemma StillApart(a: File, b: File, source: Names, destination: Names)
    requires !(a.path <= b.path) && !(destination <= b.path)
    requires !(a.path <= destination) && !(destination <= a.path)
    ensures !(Located(a, source, destination).path <= Located(b, source, destination).path)
  {
    if source <= b.path {
      var rest := b.path[|source|..];
      assert b.path == source + rest;
      if source <= a.path {
        assert a.path == source + a.path[|source|..];
        PrefixOfConcat(source, a.path[|source|..], rest);
        PrefixOfConcat(destination, a.path[|source|..], rest);
      } else {
        PrefixesCompare(a.path, destination, destination + rest);
      }
    } else if source <= a.path {
      PrefixOfLonger(destination, a.path[|source|..], b.path);
    }
  }

  /** A move to a free place leaves a tree of as many files. */
  lemma MoveKeepsTree(files: Files, source: Names, destination: Names)
    requires IsTree(files) && IsFree(files, destination)
    ensures IsTree(Move(files, source, destination)) && |Move(files, source, destination)| == |files|
  {
    var moved := Move(files, source, destination);
    if files != [] {
      MovedAt(files, source, destination, 0);
    }
    forall i, j | 0 <= i < |moved| && 0 <= j < |moved| && i != j
      ensures !(moved[i].path <= moved[j].path)
    {
      MovedAt(files, source, destination, i);
      MovedAt(files, source, destination, j);
      StillApart(files[i], files[j], source, destination);
    }
  }

  // ----- Measuring a tree -----

  type Int64 = n: int | -0x8000_0000_0000_0000 <= n <= MAX_INT64

  datatype Node = Leaf(size: Int64) | Directory(children: seq<Node>)

  function Total(node: Node): nat {
    match node
    case Leaf(size) => if size < 0 then 0 else size
    case Directory(children) => TotalOf(children)
  }

  function TotalOf(nodes: seq<Node>): nat {
    if nodes == [] then 0 else TotalOf(nodes[..|nodes| - 1]) + Total(nodes[|nodes| - 1])
  }

  lemma {:induction false} TotalGrows(nodes: seq<Node>, n: nat)
    requires n <= |nodes|
    ensures TotalOf(nodes[..n]) <= TotalOf(nodes)
    ensures n < |nodes| ==> Total(nodes[n]) <= TotalOf(nodes)
    decreases |nodes| - n
  {
    if n == |nodes| {
      assert nodes[..n] == nodes;
    } else {
      TotalGrows(nodes, n + 1);
      assert nodes[..n + 1][..n] == nodes[..n];
    }
  }

  /** Adding sizes fails instead of wrapping around. */
  function AddQuotaSize(left: nat, right: int): (sum: Option<nat>)
    requires left <= MAX_INT64
  {
    if right <= 0 then Some(left) else if left > MAX_INT64 - right then None else Some(left + right)
  }

  /** The recursive scan: the exact total if it fits 63 bits, and an error otherwise. */
  method FileInfoLogicalSize(node: Node) returns (size: Option<nat>)
    ensures size == if Total(node) <= MAX_INT64 then Some(Total(node)) else None
    decreases node
  {
    match node
    case Leaf(bytes) =>
      size := Some(if bytes < 0 then 0 else bytes);
    case Directory(children) =>
      var total := 0;
      for i := 0 to |children|
        invariant total == TotalOf(children[..i]) <= MAX_INT64
      {
        TotalGrows(children, i);
        TotalGrows(children, i + 1);
        assert children[..i + 1][..i] == children[..i];
        var child := FileInfoLogicalSize(children[i]);
        if child.None? {
          return None;
        }
        var sum := AddQuotaSize(total, child.value);
        if sum.None? {
          return None;
        }
        total := sum.value;
      }
      assert children[..|children|] == children;
      size := Some(total);
  }
}

/** Where the content-addressed store keeps an object: sharded directories under the root,
    an optional extension for the compressed form, and the strict reverse. */
module ObjectPaths {
  import opened Common
  import opened Manifest

  const COMPRESSED_SUFFIX := ".zst"
  const TEMP_SUFFIX := ".tmp"

  /** A path relative to the store's root. */
  type Path = seq<string>

  datatype Object = Object(hash: string, compressed: bool)

  /** Shard directories: how many levels, and how many characters of the hash for each. */
  datatype Layout = Layout(levels: nat, size: nat)
  {
    /** What the configuration check leaves. */
    predicate Valid() {
      (levels > 0 ==> size > 0) && levels * size <= HASH_LENGTH
    }
  }

  lemma SplitProduct(a: nat, b: nat, size: nat)
    requires a <= b
    ensures b * size == a * size + (b - a) * size >= a * size
    ensures b == a + 1 ==> b * size == a * size + size
  {
  }

  lemma ShardsFit(l: Layout, levels: nat)
    requires l.Valid() && levels <= l.levels
    ensures levels * l.size <= HASH_LENGTH
    ensures levels < l.levels ==> (levels + 1) * l.size == levels * l.size + l.size <= HASH_LENGTH
  {
    SplitProduct(levels, l.levels, l.size);
    if levels < l.levels {
      SplitProduct(levels, levels + 1, l.size);
      SplitProduct(levels + 1, l.levels, l.size);
    }
  }

  function Shards(l: Layout, hash: string, levels: nat): (p: Path)
    requires l.Valid() && levels <= l.levels && |hash| == HASH_LENGTH
    ensures |p| == levels
  {
    if levels == 0 then []
    else
      ShardsFit(l, levels);
      ShardsFit(l, levels - 1);
      Shards(l, hash, levels - 1) + [hash[(levels - 1) * l.size..levels * l.size]]
  }

  function FileName(o: Object): string {
    if o.compressed then o.hash + COMPRESSED_SUFFIX else o.hash
  }

  function PathOf(l: Layout, o: Object): (p: Path)
    requires l.Valid() && |o.hash| == HASH_LENGTH
    ensures |p| == l.levels + 1
  {
    Shards(l, o.hash, l.levels) + [FileName(o)]
  }

  /** The loop over shard levels that builds an object's path. */
  method HashToPath(l: Layout, hash: string) returns (path: Path)
    requires l.Valid() && |hash| == HASH_LENGTH
    ensures path == PathOf(l, Object(hash, false))
  {
    path := [];
    var offset := 0;
    for level := 0 to l.levels
      invariant path == Shards(l, hash, level)
      invariant offset == level * l.size
    {
      ShardsFit(l, level);
      var end := offset + l.size;
      if end <= |hash| {
        path := path + [hash[offset..end]];
        offset := end;
      }
    }
    path := path + [hash];
  }

  function StripCompressedSuffix(name: string): Object {
    if |name| >= 4 && name[|name| - 4..] == COMPRESSED_SUFFIX then Object(name[..|name| - 4], true) else Object(name, false)
  }

  lemma StripUndoesFileName(o: Object)
    requires IsValidHash(o.hash)
    ensures StripCompressedSuffix(FileName(o)) == o
  {
    var name := FileName(o);
    if o.compressed {
      assert name[|name| - 4..] == COMPRESSED_SUFFIX && name[..|name| - 4] == o.hash;
    } else {
      assert name[|name| - 4..][0] == name[|name| - 4];
      assert IsHexDigit(o.hash[|name| - 4]);
    }
  }

  lemma FileNameUndoesStrip(name: string)
    ensures FileName(StripCompressedSuffix(name)) == name
  {
  }

  /** Reads an object back from a path: a valid hash, under exactly the shards it belongs to. */
  method ParseObjectPath(l: Layout, path: Path) returns (o: Option<Object>)
    requires l.Valid()
    ensures o.Some? ==> IsValidHash(o.value.hash) && path == PathOf(l, o.value)
    ensures o.None? ==> forall other: Object :: IsValidHash(other.hash) ==> path != PathOf(l, other)
  {
    if |path| != l.levels + 1 {
      return None;
    }
    var found := StripCompressedSuffix(path[l.levels]);
    FileNameUndoesStrip(path[l.levels]);
    forall other: Object | IsValidHash(other.hash) && path == PathOf(l, other)
      ensures other == found
    {
      StripUndoesFileName(other);
      assert path[l.levels] == FileName(other);
    }
    if !IsValidHash(found.hash) {
      return None;
    }
    for index := 0 to l.levels
      invariant path[..index] == Shards(l, found.hash, index)
    {
      ShardsFit(l, index);
      var start := index * l.size;
      if |path[index]| != l.size || start + l.size > |found.hash| || found.hash[start..start + l.size] != path[index] {
        ShardsAgree(l, found, path, index);
        return None;
      }
      assert path[..index + 1] == path[..index] + [path[index]];
    }
    assert path == path[..l.levels] + [path[l.levels]];
    o := Some(found);
  }

  lemma {:induction false} ShardAt(l: Layout, hash: string, levels: nat, index: nat)
    requires l.Valid() && index < levels <= l.levels && |hash| == HASH_LENGTH
    requires index * l.size <= (index + 1) * l.size <= HASH_LENGTH
    ensures Shards(l, hash, levels)[index] == hash[index * l.size..(index + 1) * l.size]
  {
    if index < levels - 1 {
      ShardAt(l, hash, levels - 1, index);
    }
  }

  lemma ShardsAgree(l: Layout, o: Object, path: Path, index: nat)
    requires l.Valid() && IsValidHash(o.hash) && |path| == l.levels + 1 && index < l.levels
    ensures index * l.size + l.size <= HASH_LENGTH
    ensures path == PathOf(l, o) ==> path[index] == o.hash[index * l.size..index * l.size + l.size]
  {
    ShardsFit(l, index);
    ShardAt(l, o.hash, l.levels, index);
    assert PathOf(l, o)[index] == Shards(l, o.hash, l.levels)[index];
  }

  /** Different objects, and the two forms of one object, never share a path. */
  lemma PathsAreDistinct(l: Layout, a: Object, b: Object)
    requires l.Valid() && IsValidHash(a.hash) && IsValidHash(b.hash) && PathOf(l, a) == PathOf(l, b)
    ensures a == b
  {
    StripUndoesFileName(a);
    StripUndoesFileName(b);
    assert PathOf(l, a)[l.levels] == FileName(a) && PathOf(l, b)[l.levels] == FileName(b);
  }

  /** No object is ever taken for a leftover temporary file. */
  lemma ObjectsAreNotTemporary(o: Object)
    requires IsValidHash(o.hash)
    ensures var name := FileName(o); |name| >= 4 && name[|name| - 4..] != TEMP_SUFFIX
  {
    var name := FileName(o);
    assert name[|name| - 4..][3] == name[|name| - 1];
    if !o.compressed {
      assert IsHexDigit(o.hash[|name| - 1]);
    }
  }
}

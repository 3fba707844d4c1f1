/** The content-addressed store as the program keeps it: each operation updates the index,
    the files and the counters step by step and is proved to do what `Cas` says. */
module CasStorage {
  import opened Cas
  import opened Chunking
  import opened Common
  import opened Manifest
  import opened ObjectPaths

  /** The size an index entry gets for a file found on disk; a compressed file that cannot be
      decompressed counts with its own size. */
  function FoundSize(c: Settings, raw: Bytes, compressed: bool): nat {
    var data := Decoded(c, raw, compressed);
    if data.Some? then |data.value| else |raw|
  }

  predicate IsFoundSize(c: Settings, s: Store, hash: string, size: nat)
    requires c.layout.Valid() && IsValidHash(hash)
  {
    || (HasFile(c, s, hash, true) && size == FoundSize(c, s.files[FileOf(c, hash, true)], true))
    || (HasFile(c, s, hash, false) && size == FoundSize(c, s.files[FileOf(c, hash, false)], false))
  }

  // ----- Rebuilding the index -----

  datatype Rebuilt = Rebuilt(index: map<string, nat>, count: nat, size: nat)

  function Found(c: Settings, files: map<Path, Bytes>, r: Rebuilt, o: Object): Rebuilt
    requires c.layout.Valid() && IsValidHash(o.hash) && PathOf(c.layout, o) in files
  {
    var size := FoundSize(c, files[PathOf(c.layout, o)], o.compressed);
    Rebuilt(r.index[o.hash := size], r.count + 1, r.size + size)
  }

  predicate Seen(c: Settings, seen: set<Path>, hash: string, compressed: bool)
    requires c.layout.Valid() && IsValidHash(hash)
  {
    FileOf(c, hash, compressed) in seen
  }

  predicate HashWalked(c: Settings, s: Store, seen: set<Path>, r: Rebuilt, twice: set<string>, hash: string)
    requires c.layout.Valid() && IsValidHash(hash)
  {
    && (hash in r.index <==> Seen(c, seen, hash, true) || Seen(c, seen, hash, false))
    && (hash in twice <==> Seen(c, seen, hash, true) && Seen(c, seen, hash, false))
    && (hash in r.index ==> IsFoundSize(c, s, hash, r.index[hash]))
  }

  predicate Totals(r: Rebuilt, twice: set<string>) {
    r.count == |r.index| + |twice|
  }

  ghost predicate Sizes(r: Rebuilt, twice: set<string>) {
    twice == {} ==> r.size == Sum(r.index)
  }

  /** What is known of the index, the counters and the hashes met twice after some files. */
  ghost predicate Walked(c: Settings, s: Store, seen: set<Path>, r: Rebuilt, twice: set<string>)
    requires c.layout.Valid()
  {
    && (forall hash :: hash in r.index || hash in twice ==> IsValidHash(hash))
    && (forall hash :: IsValidHash(hash) ==> HashWalked(c, s, seen, r, twice, hash))
    && Totals(r, twice) && Sizes(r, twice)
  }

  lemma IndexNewHash(c: Settings, s: Store, r: Rebuilt, o: Object)
    requires c.layout.Valid() && IsValidHash(o.hash) && PathOf(c.layout, o) in s.files && o.hash !in r.index
    ensures var next := Found(c, s.files, r, o);
            && |next.index| == |r.index| + 1
            && Sum(next.index) - Sum(r.index) == next.size - r.size
  {
    SumWith(r.index, o.hash, FoundSize(c, s.files[PathOf(c.layout, o)], o.compressed));
  }

  lemma CountFound(c: Settings, s: Store, r: Rebuilt, twice: set<string>, o: Object)
    requires c.layout.Valid() && IsValidHash(o.hash) && PathOf(c.layout, o) in s.files
    requires Totals(r, twice) && Sizes(r, twice) && o.hash !in twice
    ensures var next, twice' := Found(c, s.files, r, o), Twice(r, twice, o.hash);
            Totals(next, twice') && Sizes(next, twice')
  {
    hide FoundSize, Sum;
    var next := Found(c, s.files, r, o);
    if o.hash in r.index {
      assert next.index.Keys == r.index.Keys;
      assert |next.index.Keys| == |next.index| && |r.index.Keys| == |r.index|;
    } else {
      IndexNewHash(c, s, r, o);
    }
  }

  function Twice(r: Rebuilt, twice: set<string>, hash: string): set<string> {
    if hash in r.index then twice + {hash} else twice
  }

  lemma OneHashFound(c: Settings, s: Store, seen: set<Path>, r: Rebuilt, twice: set<string>, o: Object, hash: string)
    requires c.layout.Valid() && IsValidHash(hash) && HashWalked(c, s, seen, r, twice, hash)
    requires IsValidHash(o.hash) && PathOf(c.layout, o) in s.files && PathOf(c.layout, o) !in seen
    ensures HashWalked(c, s, seen + {PathOf(c.layout, o)}, Found(c, s.files, r, o), Twice(r, twice, o.hash), hash)
  {
    FilesAreDistinct(c);
    assert PathOf(c.layout, o) == FileOf(c, o.hash, o.compressed);
    hide FileOf, FoundSize, PathOf, IsValidHash;
  }

  lemma FoundKeepsWalked(c: Settings, s: Store, seen: set<Path>, r: Rebuilt, twice: set<string>, o: Object)
    requires c.layout.Valid() && Walked(c, s, seen, r, twice)
    requires IsValidHash(o.hash) && PathOf(c.layout, o) in s.files && PathOf(c.layout, o) !in seen
    ensures Walked(c, s, seen + {PathOf(c.layout, o)}, Found(c, s.files, r, o), Twice(r, twice, o.hash))
  {
    hide HashWalked, Totals, Sizes, PathOf, IsHexDigit, Found;
    NotTwiceYet(c, s, seen, r, twice, o);
    CountFound(c, s, r, twice, o);
    FoundAddsOne(c, s, r, o);
    var next, twice' := Found(c, s.files, r, o), Twice(r, twice, o.hash);
    forall hash | IsValidHash(hash)
      ensures HashWalked(c, s, seen + {PathOf(c.layout, o)}, next, twice', hash)
    {
      OneHashFound(c, s, seen, r, twice, o, hash);
    }
  }

  lemma NotTwiceYet(c: Settings, s: Store, seen: set<Path>, r: Rebuilt, twice: set<string>, o: Object)
    requires c.layout.Valid() && IsValidHash(o.hash) && HashWalked(c, s, seen, r, twice, o.hash)
    requires PathOf(c.layout, o) !in seen
    ensures o.hash !in twice
  {
    assert PathOf(c.layout, o) == FileOf(c, o.hash, o.compressed);
    hide PathOf, IsValidHash, FoundSize;
  }

  lemma FoundAddsOne(c: Settings, s: Store, r: Rebuilt, o: Object)
    requires c.layout.Valid() && IsValidHash(o.hash) && PathOf(c.layout, o) in s.files
    ensures Found(c, s.files, r, o).index.Keys == r.index.Keys + {o.hash}
  {
    hide PathOf, IsValidHash, FoundSize;
  }

  lemma OneHashSkipped(c: Settings, s: Store, seen: set<Path>, r: Rebuilt, twice: set<string>, path: Path, hash: string)
    requires c.layout.Valid() && IsValidHash(hash) && HashWalked(c, s, seen, r, twice, hash)
    requires FileOf(c, hash, true) != path && FileOf(c, hash, false) != path
    ensures HashWalked(c, s, seen + {path}, r, twice, hash)
  {
    hide FileOf, IsValidHash, FoundSize;
  }

  lemma SkipKeepsWalked(c: Settings, s: Store, seen: set<Path>, r: Rebuilt, twice: set<string>, path: Path)
    requires c.layout.Valid() && Walked(c, s, seen, r, twice)
    requires forall o: Object :: IsValidHash(o.hash) ==> path != PathOf(c.layout, o)
    ensures Walked(c, s, seen + {path}, r, twice)
  {
    hide HashWalked, Totals, Sizes, PathOf, IsHexDigit;
    forall hash | IsValidHash(hash)
      ensures HashWalked(c, s, seen + {path}, r, twice, hash)
    {
      assert FileOf(c, hash, true) == PathOf(c.layout, Object(hash, true));
      assert FileOf(c, hash, false) == PathOf(c.layout, Object(hash, false));
      OneHashSkipped(c, s, seen, r, twice, path, hash);
    }
  }

  /** Hashes that have both a plain and a compressed file. */
  function Doubles(c: Settings, s: Store): set<string>
    requires c.layout.Valid()
  {
    set hash | hash in s.index && IsValidHash(hash) && HasFile(c, s, hash, true) && HasFile(c, s, hash, false)
  }

  /** What a rebuilt index is: exactly the hashes that have a file, with the size of one of
      their files. Files are counted, so a hash with two forms counts twice; without such a
      hash the statistics are exact. */
  ghost predicate IsRebuilt(c: Settings, s: Store)
    requires c.layout.Valid()
  {
    && (forall hash :: hash in s.index ==> IsValidHash(hash))
    && (forall hash :: IsValidHash(hash) ==> (hash in s.index <==> Exists(c, s, hash)))
    && (forall hash :: hash in s.index ==> IsFoundSize(c, s, hash, s.index[hash]))
    && s.totalChunks == |s.index| + |Doubles(c, s)|
    && (Doubles(c, s) == {} ==> s.totalSize == Sum(s.index))
    && s.logicalSize == s.totalSize
  }

  class CasStore {
    const c: Settings
    var index: map<string, nat>
    var files: map<Path, Bytes>
    var totalChunks: int
    var totalSize: int
    var logicalSize: int

    ghost function Value(): Store
      reads this
    {
      Store(index, files, totalChunks, totalSize, logicalSize)
    }

    method ObjectExists(hash: string) returns (b: bool)
      requires c.Valid() && IsValidHash(hash)
      ensures b == Exists(c, Value(), hash)
    {
      var base := HashToPath(c.layout, hash);
      var compressed := base[..|base| - 1] + [hash + COMPRESSED_SUFFIX];
      b := compressed in files || base in files;
    }

    predicate PreparesWriteTarget(data: Bytes, fault: PutFault) {
      !(TriesCompression(c, data) && fault.CompressionFails?)
    }

    method Put(data: Bytes, fault: PutFault) returns (r: PutResult)
      requires c.Valid()
      modifies this
      ensures (Value(), r) == AfterPut(c, old(Value()), data, fault)
    {
      hide FileOf, Raw, Compresses, TriesCompression, HasFile, Exists, IsValidHash;
      var hash, size := c.digest(data), |data|;
      if hash in index {
        if fault.LookupFails? {
          return PutFailed;
        }
        var present := ObjectExists(hash);
        if present {
          logicalSize := logicalSize + size;
          return Stored(hash, true);
        }
        if !PreparesWriteTarget(data, fault) {
          return PutFailed;
        }
        var staleSize := index[hash];
        index := index - {hash};
        totalChunks := totalChunks - 1;
        totalSize := totalSize - staleSize;
      }
      if !PreparesWriteTarget(data, fault) || fault.WriteFails? {
        return PutFailed;
      }
      files := files[FileOf(c, hash, Compresses(c, data)) := Raw(c, data)];
      if fault.SyncFails? {
        return PutFailed;
      }
      index := index[hash := size];
      logicalSize := logicalSize + size;
      totalChunks := totalChunks + 1;
      totalSize := totalSize + size;
      r := Stored(hash, false);
    }

    method RollbackLogicalSize(bytes: nat)
      modifies this
      ensures Value() == old(Value()).(logicalSize := old(logicalSize) - bytes)
    {
      if bytes != 0 {
        logicalSize := logicalSize - bytes;
      }
    }

    method RemoveFile(path: Path, stays: bool) returns (ok: bool)
      modifies this`files
      ensures ok == (path in old(files) && !stays)
      ensures files == if stays then old(files) else old(files) - {path}
    {
      ok := path in files && !stays;
      if ok {
        files := files - {path};
      } else if !stays {
        assert files == files - {path};
      }
    }

    method Delete(hash: string, fault: DeleteFault) returns (r: DeleteResult)
      requires c.Valid()
      modifies this
      ensures (Value(), r) == AfterDelete(c, old(Value()), hash, fault)
    {
      hide FileOf, IsValidHash;
      if !IsValidHash(hash) {
        return InvalidDelete;
      }
      if hash !in index {
        return Deleted(false);
      }
      FilesAreDistinct(c);
      ghost var s := Value();
      var size := index[hash];
      var deletedCompressed := RemoveFile(FileOf(c, hash, true), fault.compressedStays);
      var deletedPlain := RemoveFile(FileOf(c, hash, false), fault.plainStays);
      assert files == WithoutFiles(c, s, hash, fault);
      if !(deletedCompressed || deletedPlain) {
        assert files == s.files;
        return Deleted(false);
      }
      index := index - {hash};
      totalChunks := totalChunks - 1;
      totalSize := totalSize - size;
      r := if fault.syncFails then DeleteFailed else Deleted(true);
    }

    method Read(hash: string) returns (r: GetResult)
      requires c.Valid()
      ensures r == Get(c, Value(), hash)
    {
      if !IsValidHash(hash) {
        return GetResult.InvalidHash;
      }
      var raw, compressed := [], true;
      if FileOf(c, hash, true) in files {
        raw := files[FileOf(c, hash, true)];
      } else if FileOf(c, hash, false) in files {
        raw, compressed := files[FileOf(c, hash, false)], false;
      } else {
        return NotFound;
      }
      var data := raw;
      if compressed {
        var decoded := c.decompress(raw);
        if decoded.None? {
          return BadCompression;
        }
        data := decoded.value;
      }
      if c.digest(data) != hash {
        return HashMismatch;
      }
      r := Data(data);
    }

    /** Looks at every file once, in any order, and counts the objects among them. */
    method Walk(order: seq<Path>) returns (r: Rebuilt, ghost twice: set<string>)
      requires c.Valid() && IsListing(order, files)
      ensures Walked(c, Value(), Visited(order, |order|), r, twice)
    {
      ghost var s := Value();
      twice := {};
      NothingWalked(c, s);
      hide Walked, Found, IsFoundSize, Exists, Settings.Valid, PathOf, Doubles;
      r := Rebuilt(map[], 0, 0);
      for i := 0 to |order|
        invariant Walked(c, s, Visited(order, i), r, twice)
      {
        var path := order[i];
        VisitedHas(order, i, path);
        var o := ParseObjectPath(c.layout, path);
        if o.Some? {
          FoundKeepsWalked(c, s, Visited(order, i), r, twice, o.value);
          twice := Twice(r, twice, o.value.hash);
          r := Found(c, files, r, o.value);
        } else {
          SkipKeepsWalked(c, s, Visited(order, i), r, twice, path);
        }
      }
    }

    /** Walks the files in any order and rebuilds index and counters from what they are. */
    method RebuildIndex(order: seq<Path>)
      requires c.Valid()
      requires IsListing(order, files)
      modifies this
      ensures files == old(files) && IsRebuilt(c, Value())
    {
      hide Walked, Visited, IsListing, IsRebuilt, IsValidHash, Layout.Valid;
      var r, twice := Walk(order);
      WalkIsDone(c, Value(), order, r, twice);
      index, totalChunks, totalSize, logicalSize := r.index, r.count, r.size, r.size;
    }
  }

  /** Every file once. */
  ghost predicate IsListing(order: seq<Path>, files: map<Path, Bytes>) {
    && (forall p :: p in order <==> p in files)
    && (forall i, j :: 0 <= i < j < |order| ==> order[i] != order[j])
  }

  ghost function Visited(order: seq<Path>, n: nat): set<Path>
    requires n <= |order|
  {
    if n == 0 then {} else Visited(order, n - 1) + {order[n - 1]}
  }

  lemma {:induction false} VisitedHas(order: seq<Path>, n: nat, path: Path)
    requires n <= |order|
    ensures path in Visited(order, n) <==> path in order[..n]
  {
    if n > 0 {
      VisitedHas(order, n - 1, path);
      assert order[..n] == order[..n - 1] + [order[n - 1]];
    }
  }

  lemma AllVisited(order: seq<Path>, files: map<Path, Bytes>)
    requires IsListing(order, files)
    ensures forall p :: p in Visited(order, |order|) <==> p in files
  {
    forall p
      ensures p in Visited(order, |order|) <==> p in files
    {
      VisitedHas(order, |order|, p);
      assert order[..|order|] == order;
    }
  }

  lemma NothingWalked(c: Settings, s: Store)
    requires c.layout.Valid()
    ensures Walked(c, s, {}, Rebuilt(map[], 0, 0), {})
  {
  }

  lemma WalkIsDone(c: Settings, s: Store, order: seq<Path>, r: Rebuilt, twice: set<string>)
    requires c.layout.Valid() && IsListing(order, s.files) && Walked(c, s, Visited(order, |order|), r, twice)
    ensures IsRebuilt(c, Store(r.index, s.files, r.count, r.size, r.size))
  {
    hide Visited, IsListing, FileOf, FoundSize, Sum, Exists, HasFile, IsFoundSize, HashWalked, Seen;
    var done, seen := Store(r.index, s.files, r.count, r.size, r.size), Visited(order, |order|);
    forall hash | IsValidHash(hash)
      ensures hash in r.index <==> Exists(c, done, hash)
      ensures hash in r.index ==> IsFoundSize(c, done, hash, r.index[hash])
      ensures hash in twice <==> HasFile(c, done, hash, true) && HasFile(c, done, hash, false)
    {
      OneHashDone(c, s, order, r, twice, hash);
    }
    forall hash
      ensures hash in Doubles(c, done) <==> hash in twice
    {
      if hash in twice {
        OneHashDone(c, s, order, r, twice, hash);
        TwiceIsIndexed(c, s, seen, r, twice, hash);
      }
    }
    assert Doubles(c, done) == twice;
  }

  lemma TwiceIsIndexed(c: Settings, s: Store, seen: set<Path>, r: Rebuilt, twice: set<string>, hash: string)
    requires c.layout.Valid() && IsValidHash(hash) && HashWalked(c, s, seen, r, twice, hash)
    ensures hash in twice ==> hash in r.index
  {
  }

  lemma OneHashDone(c: Settings, s: Store, order: seq<Path>, r: Rebuilt, twice: set<string>, hash: string)
    requires c.layout.Valid() && IsValidHash(hash) && IsListing(order, s.files)
    requires HashWalked(c, s, Visited(order, |order|), r, twice, hash)
    ensures var done := Store(r.index, s.files, r.count, r.size, r.size);
            && (hash in r.index <==> Exists(c, done, hash))
            && (hash in r.index ==> IsFoundSize(c, done, hash, r.index[hash]))
            && (hash in twice <==> HasFile(c, done, hash, true) && HasFile(c, done, hash, false))
  {
    hide FileOf, FoundSize, Visited, IsListing;
    AllVisited(order, s.files);
  }
}

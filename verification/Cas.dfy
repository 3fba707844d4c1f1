/** The content-addressed store as values: the memory index, the object files and the
    statistics, what each operation does to them under any fault, and what that keeps. */
module Cas {
  import opened Chunking
  import opened Common
  import opened Manifest
  import opened ObjectPaths

  /** Hash and compression are parameters; the compressed form is only used when it is smaller. */
  datatype Settings = Settings(layout: Layout, digest: Bytes -> string, compress: Bytes -> Bytes,
                               decompress: Bytes -> Option<Bytes>, compressionEnabled: bool, minCompressSize: nat)
  {
    ghost predicate Valid() {
      && layout.Valid()
      && (forall data: Bytes :: IsValidHash(digest(data)))
      && (forall data: Bytes :: decompress(compress(data)) == Some(data))
    }
  }

  datatype Store = Store(index: map<string, nat>, files: map<Path, Bytes>, totalChunks: int, totalSize: int, logicalSize: int)

  /** Where one operation's input or output may fail. */
  datatype PutFault = NoPutFault | LookupFails | CompressionFails | WriteFails | SyncFails

  datatype DeleteFault = DeleteFault(compressedStays: bool, plainStays: bool, syncFails: bool)

  datatype PutResult = Stored(hash: string, deduplicated: bool) | PutFailed

  datatype DeleteResult = Deleted(found: bool) | DeleteFailed | InvalidDelete

  datatype GetResult = Data(data: Bytes) | InvalidHash | NotFound | BadCompression | HashMismatch

  // ----- Files -----

  function FileOf(c: Settings, hash: string, compressed: bool): Path
    requires c.layout.Valid() && IsValidHash(hash)
  {
    PathOf(c.layout, Object(hash, compressed))
  }

  predicate HasFile(c: Settings, s: Store, hash: string, compressed: bool)
    requires c.layout.Valid() && IsValidHash(hash)
  {
    FileOf(c, hash, compressed) in s.files
  }

  predicate Exists(c: Settings, s: Store, hash: string)
    requires c.layout.Valid() && IsValidHash(hash)
  {
    HasFile(c, s, hash, true) || HasFile(c, s, hash, false)
  }

  predicate TriesCompression(c: Settings, data: Bytes) {
    c.compressionEnabled && |data| >= c.minCompressSize
  }

  predicate Compresses(c: Settings, data: Bytes) {
    TriesCompression(c, data) && |c.compress(data)| < |data|
  }

  function Raw(c: Settings, data: Bytes): Bytes {
    if Compresses(c, data) then c.compress(data) else data
  }

  function Decoded(c: Settings, raw: Bytes, compressed: bool): Option<Bytes> {
    if compressed then c.decompress(raw) else Some(raw)
  }

  lemma FilesAreDistinct(c: Settings)
    requires c.layout.Valid()
    ensures forall h1, f1, h2, f2 :: IsValidHash(h1) && IsValidHash(h2) && FileOf(c, h1, f1) == FileOf(c, h2, f2) ==>
              h1 == h2 && f1 == f2
  {
    forall h1, f1, h2, f2 | IsValidHash(h1) && IsValidHash(h2) && FileOf(c, h1, f1) == FileOf(c, h2, f2)
      ensures h1 == h2 && f1 == f2
    {
      PathsAreDistinct(c.layout, Object(h1, f1), Object(h2, f2));
    }
  }

  // ----- Operations -----

  /** An entry whose files are gone is dropped with its share of the statistics. */
  function DropStale(c: Settings, s: Store, hash: string): Store
    requires c.layout.Valid() && IsValidHash(hash)
  {
    if hash in s.index && !Exists(c, s, hash) then
      s.(index := s.index - {hash}, totalChunks := s.totalChunks - 1, totalSize := s.totalSize - s.index[hash])
    else s
  }

  function Write(c: Settings, s: Store, hash: string, data: Bytes): Store
    requires c.layout.Valid() && IsValidHash(hash)
  {
    s.(files := s.files[FileOf(c, hash, Compresses(c, data)) := Raw(c, data)])
  }

  function AddEntry(s: Store, hash: string, size: nat): Store {
    s.(index := s.index[hash := size], totalChunks := s.totalChunks + 1, totalSize := s.totalSize + size,
       logicalSize := s.logicalSize + size)
  }

  ghost function AfterPut(c: Settings, s: Store, data: Bytes, fault: PutFault): (Store, PutResult)
    requires c.Valid()
  {
    var hash := c.digest(data);
    if hash in s.index && fault.LookupFails? then (s, PutFailed)
    else if hash in s.index && Exists(c, s, hash) then (s.(logicalSize := s.logicalSize + |data|), Stored(hash, true))
    else if fault.CompressionFails? && TriesCompression(c, data) then (s, PutFailed)
    else
      var kept := DropStale(c, s, hash);
      if fault.WriteFails? then (kept, PutFailed)
      else
        var written := Write(c, kept, hash, data);
        if fault.SyncFails? then (written, PutFailed)
        else (AddEntry(written, hash, |data|), Stored(hash, false))
  }

  predicate Removed(c: Settings, s: Store, hash: string, fault: DeleteFault)
    requires c.layout.Valid() && IsValidHash(hash)
  {
    (HasFile(c, s, hash, true) && !fault.compressedStays) || (HasFile(c, s, hash, false) && !fault.plainStays)
  }

  function WithoutFiles(c: Settings, s: Store, hash: string, fault: DeleteFault): map<Path, Bytes>
    requires c.layout.Valid() && IsValidHash(hash)
  {
    s.files - (if fault.compressedStays then {} else {FileOf(c, hash, true)})
      - (if fault.plainStays then {} else {FileOf(c, hash, false)})
  }

  function AfterDelete(c: Settings, s: Store, hash: string, fault: DeleteFault): (Store, DeleteResult)
    requires c.layout.Valid()
  {
    if !IsValidHash(hash) then (s, InvalidDelete)
    else if hash !in s.index then (s, Deleted(false))
    else if !Removed(c, s, hash, fault) then (s, Deleted(false))
    else
      (s.(index := s.index - {hash}, files := WithoutFiles(c, s, hash, fault), totalChunks := s.totalChunks - 1,
          totalSize := s.totalSize - s.index[hash]),
       if fault.syncFails then DeleteFailed else Deleted(true))
  }

  /** The compressed form is read first; whatever is read must have the hash it was asked by. */
  function Get(c: Settings, s: Store, hash: string): (r: GetResult)
    requires c.layout.Valid()
    ensures r.Data? ==> c.digest(r.data) == hash
  {
    if !IsValidHash(hash) then GetResult.InvalidHash
    else if !Exists(c, s, hash) then NotFound
    else
      var compressed := HasFile(c, s, hash, true);
      var data := Decoded(c, s.files[FileOf(c, hash, compressed)], compressed);
      if data.None? then BadCompression
      else if c.digest(data.value) != hash then HashMismatch
      else Data(data.value)
  }

  /** What reading an object answers: the compressed file comes first, it has to decompress, and
      whatever is read has to have the hash. */
  lemma GetExactly(c: Settings, s: Store, hash: string)
    requires c.layout.Valid()
    ensures (Get(c, s, hash) == GetResult.InvalidHash) <==> !IsValidHash(hash)
    ensures IsValidHash(hash) ==>
      var r, packed, plain := Get(c, s, hash), FileOf(c, hash, true), FileOf(c, hash, false);
      if packed in s.files then
        && (r == BadCompression <==> c.decompress(s.files[packed]).None?)
        && (r == HashMismatch <==> c.decompress(s.files[packed]).Some? && c.digest(c.decompress(s.files[packed]).value) != hash)
        && (r.Data? ==> Some(r.data) == c.decompress(s.files[packed]))
        && r != NotFound
      else if plain in s.files then
        r == if c.digest(s.files[plain]) == hash then Data(s.files[plain]) else HashMismatch
      else r == NotFound
  {
    hide FileOf, IsValidHash;
  }

  // ----- Statistics -----

  ghost function Sum(index: map<string, nat>): nat
    decreases |index|
  {
    if index == map[] then 0
    else
      var hash :| hash in index;
      index[hash] + Sum(index - {hash})
  }

  lemma {:induction false} SumWithout(index: map<string, nat>, hash: string)
    requires hash in index
    ensures Sum(index) == index[hash] + Sum(index - {hash})
    decreases |index|
  {
    var first :| first in index && Sum(index) == index[first] + Sum(index - {first});
    if first != hash {
      var rest := index - {first};
      SumWithout(rest, hash);
      SumWithout(index - {hash}, first);
      assert rest - {hash} == index - {hash} - {first};
    }
  }

  lemma SumWith(index: map<string, nat>, hash: string, size: nat)
    requires hash !in index
    ensures Sum(index[hash := size]) == Sum(index) + size
    ensures |index[hash := size]| == |index| + 1
  {
    hide Sum;
    var more := index[hash := size];
    assert more - {hash} == index;
    SumWithout(more, hash);
    SizeWithout(more, hash);
  }

  lemma SizeWithout(index: map<string, nat>, hash: string)
    requires hash in index
    ensures |index - {hash}| == |index| - 1
  {
    var rest := index - {hash};
    assert rest.Keys == index.Keys - {hash};
    assert |rest.Keys| == |rest| && |index.Keys| == |index|;
  }

  /** The statistics are exact: the number of entries and the sum of their sizes. */
  ghost predicate Counted(s: Store) {
    s.totalChunks == |s.index| && s.totalSize == Sum(s.index)
  }

  lemma DropStaleKeepsCounted(c: Settings, s: Store, hash: string)
    requires c.layout.Valid() && IsValidHash(hash) && Counted(s)
    ensures Counted(DropStale(c, s, hash))
    ensures hash in DropStale(c, s, hash).index ==> hash in s.index && Exists(c, s, hash)
  {
    hide Sum, IsValidHash, FileOf;
    if hash in s.index {
      SumWithout(s.index, hash);
      SizeWithout(s.index, hash);
    }
  }

  lemma AddEntryKeepsCounted(s: Store, hash: string, size: nat)
    requires Counted(s) && hash !in s.index
    ensures Counted(AddEntry(s, hash, size))
  {
    hide Sum;
    SumWith(s.index, hash, size);
  }

  lemma CountedIgnoresFiles(s: Store, t: Store)
    requires Counted(s) && t.index == s.index && t.totalChunks == s.totalChunks && t.totalSize == s.totalSize
    ensures Counted(t)
  {
  }

  /** Every put keeps the statistics exact, whatever fails and whatever happened to the files. */
  lemma PutKeepsCounted(c: Settings, s: Store, data: Bytes, fault: PutFault)
    requires c.Valid() && Counted(s)
    ensures Counted(AfterPut(c, s, data, fault).0)
  {
    hide Counted, DropStale, Exists, AddEntry, FileOf, Raw, Compresses, IsValidHash;
    var hash := c.digest(data);
    DropStaleKeepsCounted(c, s, hash);
    var dropped := DropStale(c, s, hash);
    var written := Write(c, dropped, hash, data);
    CountedIgnoresFiles(dropped, written);
    CountedIgnoresFiles(s, s.(logicalSize := s.logicalSize + |data|));
    if hash !in written.index {
      AddEntryKeepsCounted(written, hash, |data|);
    }
  }

  lemma DeleteKeepsCounted(c: Settings, s: Store, hash: string, fault: DeleteFault)
    requires c.layout.Valid() && Counted(s)
    ensures Counted(AfterDelete(c, s, hash, fault).0)
  {
    hide Sum, IsValidHash, FileOf, Removed, WithoutFiles;
    if hash in s.index {
      SumWithout(s.index, hash);
      SizeWithout(s.index, hash);
    }
  }

  /** What a deletion answers, and what it leaves: an object that is indexed and has a file that
      can be removed goes with its entry, its removable files and its share of the statistics;
      in every other case nothing changes. */
  lemma DeletesExactly(c: Settings, s: Store, hash: string, fault: DeleteFault)
    requires c.layout.Valid()
    ensures var (after, r) := AfterDelete(c, s, hash, fault);
            var gone: set<Path> := if !IsValidHash(hash) then {} else
              (if fault.compressedStays then {} else {FileOf(c, hash, true)})
              + (if fault.plainStays then {} else {FileOf(c, hash, false)});
            var goes := IsValidHash(hash) && hash in s.index && gone * s.files.Keys != {};
            && (r.InvalidDelete? <==> !IsValidHash(hash))
            && (r == Deleted(true) <==> goes && !fault.syncFails)
            && (r.DeleteFailed? <==> goes && fault.syncFails)
            && (r == Deleted(false) <==> IsValidHash(hash) && !goes)
            && (!goes ==> after == s)
            && (goes ==>
                  after == Store(s.index - {hash}, s.files - gone, s.totalChunks - 1, s.totalSize - s.index[hash], s.logicalSize))
  {
    hide IsValidHash, FileOf;
    if IsValidHash(hash) {
      var z, p := FileOf(c, hash, true), FileOf(c, hash, false);
      var gone := (if fault.compressedStays then {} else {z}) + (if fault.plainStays then {} else {p});
      assert Removed(c, s, hash, fault) <==> gone * s.files.Keys != {} by {
        assert Removed(c, s, hash, fault) ==> z in gone * s.files.Keys || p in gone * s.files.Keys;
      }
      assert WithoutFiles(c, s, hash, fault) == s.files - gone;
    }
  }

  /** What a put answers, and what it counts: data whose object is indexed and there is only added
      to the logical size; all other data is written under its hash, indexed with its size and
      counted, unless a step fails, which never adds an entry. */
  lemma PutsExactly(c: Settings, s: Store, data: Bytes, fault: PutFault)
    requires c.Valid()
    ensures var (after, r) := AfterPut(c, s, data, fault);
            var hash := c.digest(data);
            var there := hash in s.index && Exists(c, s, hash);
            var fails := (fault.LookupFails? && hash in s.index)
                         || (!there && (fault.WriteFails? || fault.SyncFails?
                                        || (fault.CompressionFails? && c.compressionEnabled && |data| >= c.minCompressSize)));
            && (r == Stored(hash, true) <==> there && !fails)
            && (r == Stored(hash, false) <==> !there && !fails)
            && (r == PutFailed <==> fails)
            && (r == Stored(hash, true) ==> after == s.(logicalSize := s.logicalSize + |data|))
            && (r == Stored(hash, false) ==>
                  && after.index == s.index[hash := |data|]
                  && after.logicalSize == s.logicalSize + |data|
                  && after.totalChunks == s.totalChunks + (if hash in s.index then 0 else 1)
                  && after.totalSize == s.totalSize + |data| - (if hash in s.index then s.index[hash] else 0)
                  && var smaller := c.compressionEnabled && |data| >= c.minCompressSize && |c.compress(data)| < |data|;
                     after.files == s.files[FileOf(c, hash, smaller) := if smaller then c.compress(data) else data])
            && (r.PutFailed? ==> after.logicalSize == s.logicalSize && after.index.Keys <= s.index.Keys)
  {
    hide IsValidHash, FileOf, Exists;
    var hash := c.digest(data);
    assert hash in s.index ==> (s.index - {hash})[hash := |data|] == s.index[hash := |data|];
  }

  // ----- What is stored can be read -----

  /** Every object file holds data with the hash in its name. */
  predicate GoodFile(c: Settings, s: Store, hash: string, compressed: bool)
    requires c.layout.Valid() && IsValidHash(hash)
  {
    HasFile(c, s, hash, compressed) ==>
      var data := Decoded(c, s.files[FileOf(c, hash, compressed)], compressed);
      data.Some? && c.digest(data.value) == hash
  }

  ghost predicate Sound(c: Settings, s: Store)
    requires c.layout.Valid()
  {
    forall hash, compressed :: IsValidHash(hash) ==> GoodFile(c, s, hash, compressed)
  }

  ghost predicate NoStaleEntry(c: Settings, s: Store)
    requires c.layout.Valid()
  {
    forall hash :: hash in s.index ==> IsValidHash(hash) && Exists(c, s, hash)
  }

  lemma WriteKeepsSound(c: Settings, s: Store, data: Bytes)
    requires c.Valid() && Sound(c, s)
    ensures Sound(c, Write(c, s, c.digest(data), data))
    ensures forall h :: IsValidHash(h) && Exists(c, s, h) ==> Exists(c, Write(c, s, c.digest(data), data), h)
    ensures Exists(c, Write(c, s, c.digest(data), data), c.digest(data))
  {
    FilesAreDistinct(c);
    var next := Write(c, s, c.digest(data), data);
    forall hash, compressed | IsValidHash(hash)
      ensures GoodFile(c, next, hash, compressed)
    {
      assert GoodFile(c, s, hash, compressed);
    }
    hide Sound;
  }

  /** A put stores what it was given or what was there under its hash, and loses nothing. */
  lemma PutKeepsSound(c: Settings, s: Store, data: Bytes, fault: PutFault)
    requires c.Valid() && Sound(c, s)
    ensures var (after, r) := AfterPut(c, s, data, fault);
            && Sound(c, after)
            && (forall h :: IsValidHash(h) && Exists(c, s, h) ==> Exists(c, after, h))
            && (r.Stored? ==> r.hash == c.digest(data) && r.hash in after.index && Exists(c, after, r.hash))
            && (NoStaleEntry(c, s) ==> NoStaleEntry(c, after))
  {
    var hash := c.digest(data);
    var dropped := DropStale(c, s, hash);
    assert dropped.files == s.files;
    FilesMakeExists(c, s, dropped);
    WriteKeepsSound(c, dropped, data);
    FilesMakeExists(c, s, s.(logicalSize := s.logicalSize + |data|));
    var written := Write(c, dropped, hash, data);
    FilesMakeExists(c, written, AddEntry(written, hash, |data|));
    hide Sound, Exists, FileOf, Raw, DropStale, Settings.Valid;
  }

  /** A put never makes an entry stale, and meets no stale one if there is none. */
  lemma PutKeepsPresent(c: Settings, s: Store, data: Bytes, fault: PutFault)
    requires c.Valid() && NoStaleEntry(c, s)
    ensures NoStaleEntry(c, AfterPut(c, s, data, fault).0)
    ensures DropStale(c, s, c.digest(data)) == s
  {
    var hash := c.digest(data);
    var written, after := Write(c, s, hash, data), AfterPut(c, s, data, fault).0;
    WriteKeepsExists(c, s, hash, data);
    FilesMakeExists(c, if after.files == s.files then s else written, after);
    hide Exists, FileOf, Raw, Compresses, Sound, IsValidHash, Write;
  }

  lemma WriteKeepsExists(c: Settings, s: Store, hash: string, data: Bytes)
    requires c.layout.Valid() && IsValidHash(hash)
    ensures forall h :: IsValidHash(h) && Exists(c, s, h) ==> Exists(c, Write(c, s, hash, data), h)
    ensures Exists(c, Write(c, s, hash, data), hash)
  {
    hide FileOf, Raw;
  }

  /** Only the files decide what exists and what is sound. */
  lemma FilesMakeExists(c: Settings, s: Store, t: Store)
    requires c.layout.Valid() && s.files == t.files
    ensures forall h :: IsValidHash(h) ==> Exists(c, s, h) == Exists(c, t, h)
    ensures Sound(c, s) == Sound(c, t)
  {
    assert forall h, f :: IsValidHash(h) ==> GoodFile(c, s, h, f) == GoodFile(c, t, h, f);
  }

  /** In a sound store everything that exists is read back with its own hash. */
  lemma SoundReads(c: Settings, s: Store, hash: string)
    requires c.layout.Valid() && Sound(c, s) && IsValidHash(hash) && Exists(c, s, hash)
    ensures Get(c, s, hash).Data?
  {
    assert GoodFile(c, s, hash, HasFile(c, s, hash, true));
  }
}

/** What a file upload leaves in the content-addressed store: the manifest of its chunks on
    success, and after a failure what the rollback cannot take back. */
module Uploads {
  import opened Cas
  import opened Chunking
  import opened Common
  import opened Manifest
  import opened ObjectPaths

  // ----- Rolling back -----

  /** The entries are those of `base` and one for each created hash. */
  ghost predicate IsPlus(index: map<string, nat>, base: map<string, nat>, created: seq<string>) {
    && (forall hash :: hash in index <==> hash in base || hash in created)
    && (forall hash :: hash in base ==> hash in index && index[hash] == base[hash])
    && (forall hash :: hash in created ==> hash !in base)
    && (forall i, j :: 0 <= i < j < |created| ==> created[i] != created[j])
  }

  lemma PlusNothing(index: map<string, nat>, base: map<string, nat>, created: seq<string>)
    requires IsPlus(index, base, created)
    ensures index == base <==> created == []
  {
    if created == [] {
      assert index.Keys == base.Keys;
    } else {
      assert created[0] in created;
    }
  }

  /** Deletes the created objects, the last one first. */
  function DeleteAll(c: Settings, s: Store, created: seq<string>, faults: nat -> DeleteFault): Store
    requires c.layout.Valid()
    decreases |created|
  {
    if created == [] then s
    else
      var n := |created| - 1;
      DeleteAll(c, AfterDelete(c, s, created[n], faults(n)).0, created[..n], faults)
  }

  /** The created hashes of which no file can be removed. */
  function Left(c: Settings, s: Store, created: seq<string>, faults: nat -> DeleteFault): seq<string>
    requires c.layout.Valid() && forall hash :: hash in created ==> IsValidHash(hash)
  {
    if created == [] then []
    else
      var n := |created| - 1;
      assert created[n] in created;
      Left(c, s, created[..n], faults) + (if Removed(c, s, created[n], faults(n)) then [] else [created[n]])
  }

  lemma OtherFilesStay(c: Settings, s: Store, deleted: string, fault: DeleteFault, hash: string)
    requires c.layout.Valid() && IsValidHash(hash) && IsValidHash(deleted) && hash != deleted
    ensures var t := AfterDelete(c, s, deleted, fault).0;
            forall f :: HasFile(c, t, hash, f) == HasFile(c, s, hash, f)
  {
    FilesAreDistinct(c);
  }

  lemma {:induction false} OthersAreLeftTheSame(c: Settings, s: Store, deleted: string, fault: DeleteFault,
                                                created: seq<string>, faults: nat -> DeleteFault)
    requires c.layout.Valid() && IsValidHash(deleted) && deleted !in created
    requires forall hash :: hash in created ==> IsValidHash(hash)
    ensures Left(c, AfterDelete(c, s, deleted, fault).0, created, faults) == Left(c, s, created, faults)
  {
    hide AfterDelete, HasFile;
    if created != [] {
      var n := |created| - 1;
      assert created[n] in created;
      OthersAreLeftTheSame(c, s, deleted, fault, created[..n], faults);
      OtherFilesStay(c, s, deleted, fault, created[n]);
    }
  }

  lemma PlusWithoutLast(index: map<string, nat>, base: map<string, nat>, created: seq<string>)
    requires IsPlus(index, base, created) && created != []
    ensures var n := |created| - 1; var last := created[n];
            && IsPlus(index - {last}, base, created[..n])
            && (last in index ==> IsPlus(index, base[last := index[last]], created[..n]))
            && last in index && last !in created[..n]
  {
    var n := |created| - 1;
    assert created == created[..n] + [created[n]];
    assert created[n] in created;
  }

  lemma PlusMoreLeft(index: map<string, nat>, base: map<string, nat>, last: string, size: nat, left: seq<string>)
    requires IsPlus(index, base[last := size], left) && last !in base
    ensures IsPlus(index, base, left + [last])
  {
    assert forall hash :: hash in left + [last] <==> hash in left || hash == last;
  }

  /** After the deletions the index is the one before the upload, plus exactly those created
      hashes none of whose files could be removed. */
  lemma {:induction false} DeleteAllRestores(c: Settings, base: map<string, nat>, s: Store, created: seq<string>,
                                             faults: nat -> DeleteFault)
    requires c.layout.Valid() && IsPlus(s.index, base, created) && Counted(s)
    requires forall hash :: hash in created ==> IsValidHash(hash)
    ensures var t := DeleteAll(c, s, created, faults);
            && IsPlus(t.index, base, Left(c, s, created, faults))
            && t.logicalSize == s.logicalSize && Counted(t)
    decreases |created|
  {
    if created != [] {
      var n := |created| - 1;
      var last, rest := created[n], created[..n];
      assert last in created;
      var next := AfterDelete(c, s, last, faults(n)).0;
      DeleteKeepsCounted(c, s, last, faults(n));
      PlusWithoutLast(s.index, base, created);
      OthersAreLeftTheSame(c, s, last, faults(n), rest, faults);
      hide IsPlus, Left, Counted, Removed, WithoutFiles;
      if Removed(c, s, last, faults(n)) {
        DeleteAllRestores(c, base, next, rest, faults);
        LeftStep(c, s, created, faults);
      } else {
        DeleteAllRestores(c, base[last := s.index[last]], next, rest, faults);
        LeftStep(c, s, created, faults);
        NotInBase(s.index, base, created);
        PlusMoreLeft(DeleteAll(c, next, rest, faults).index, base, last, s.index[last], Left(c, s, rest, faults));
      }
    }
  }

  lemma NotInBase(index: map<string, nat>, base: map<string, nat>, created: seq<string>)
    requires IsPlus(index, base, created) && created != []
    ensures created[|created| - 1] !in base
  {
    assert created[|created| - 1] in created;
  }

  lemma LeftStep(c: Settings, s: Store, created: seq<string>, faults: nat -> DeleteFault)
    requires c.layout.Valid() && created != [] && forall hash :: hash in created ==> IsValidHash(hash)
    ensures var n := |created| - 1;
            && IsValidHash(created[n]) && (forall hash :: hash in created[..n] ==> IsValidHash(hash))
            && Left(c, s, created, faults) ==
                 if Removed(c, s, created[n], faults(n)) then Left(c, s, created[..n], faults)
                 else Left(c, s, created[..n], faults) + [created[n]]
  {
    assert created[|created| - 1] in created;
  }

  ghost predicate DeletesWork(faults: nat -> DeleteFault, n: nat) {
    forall i: nat :: i < n ==> !faults(i).compressedStays && !faults(i).plainStays
  }

  lemma {:induction false} NothingLeft(c: Settings, s: Store, created: seq<string>, faults: nat -> DeleteFault)
    requires c.layout.Valid() && forall hash :: hash in created ==> IsValidHash(hash) && Exists(c, s, hash)
    requires DeletesWork(faults, |created|)
    ensures Left(c, s, created, faults) == []
  {
    if created != [] {
      NothingLeft(c, s, created[..|created| - 1], faults);
      assert created[|created| - 1] in created;
    }
  }

  // ----- The manifest -----

  predicate Fits(chunk: Chunk) {
    chunk.length <= 0xffff_ffff && chunk.offset <= MAX_U64
  }

  function RefOf(c: Settings, chunk: Chunk): ChunkRef
    requires Fits(chunk)
  {
    ChunkRef(c.digest(chunk.data), chunk.length, chunk.offset)
  }

  function RefsOf(c: Settings, chunks: seq<Chunk>): (refs: seq<ChunkRef>)
    requires forall chunk :: chunk in chunks ==> Fits(chunk)
    ensures |refs| == |chunks|
    ensures forall i :: 0 <= i < |chunks| ==> refs[i] == RefOf(c, chunks[i])
  {
    seq(|chunks|, i requires 0 <= i < |chunks| => RefOf(c, chunks[i]))
  }

  /** Consecutive cuts, one by one. */
  lemma {:induction false} CutsInOrder(k: Config, file: Bytes, chunks: seq<Chunk>, start: nat, end: nat)
    requires k.Valid() && CutsBetween(k, file, chunks, start, end)
    ensures start <= end <= |file|
    ensures forall i :: 0 <= i < |chunks| ==>
      && IsCutOf(k, file, chunks[i])
      && chunks[i].offset == (if i == 0 then start else Chunking.End(chunks[i - 1]))
    ensures end == if chunks == [] then start else Chunking.End(chunks[|chunks| - 1])
    decreases |chunks|
  {
    hide IsCutOf;
    if chunks != [] {
      CutsInOrder(k, file, chunks[1..], Chunking.End(chunks[0]), end);
      CutsAreOrdered(k, file, chunks, start, end);
      assert forall i :: 0 < i < |chunks| ==> chunks[i] == chunks[1..][i - 1];
    }
  }

  lemma CutsFit(k: Config, file: Bytes, chunks: seq<Chunk>, start: nat, end: nat)
    requires k.Valid() && CutsBetween(k, file, chunks, start, end) && |file| <= MAX_U64
    ensures forall chunk :: chunk in chunks ==> Fits(chunk) && 0 < chunk.length == |chunk.data|
  {
    CutsInOrder(k, file, chunks, start, end);
    forall i | 0 <= i < |chunks|
      ensures Fits(chunks[i]) && 0 < chunks[i].length == |chunks[i].data|
    {
      CutIsNotEmpty(k, file, chunks[i]);
    }
  }

  predicate Consecutive(chunks: seq<Chunk>) {
    && (forall i :: 0 <= i < |chunks| ==> 0 < chunks[i].length && Fits(chunks[i]))
    && (chunks != [] ==> chunks[0].offset == 0)
    && (forall i :: 0 < i < |chunks| ==> chunks[i].offset == Chunking.End(chunks[i - 1]))
  }

  lemma {:induction false} RefsTile(c: Settings, chunks: seq<Chunk>, refs: seq<ChunkRef>, n: nat)
    requires c.Valid() && Consecutive(chunks) && n <= |chunks| == |refs|
    requires forall i :: 0 <= i < |chunks| ==> refs[i] == RefOf(c, chunks[i])
    ensures TiledUpTo(refs, n, if n == 0 then 0 else Chunking.End(chunks[n - 1]))
  {
    hide TiledUpTo;
    if n == 0 {
      NothingTiled(refs);
    } else {
      var i := n - 1;
      RefsTile(c, chunks, refs, i);
      assert chunks[i].offset == if i == 0 then 0 else Chunking.End(chunks[i - 1]);
      assert refs[i] == RefOf(c, chunks[i]) && IsValidHash(c.digest(chunks[i].data));
      ExtendTiling(refs, i, chunks[i].offset);
    }
  }

  lemma NothingTiled(refs: seq<ChunkRef>)
    ensures TiledUpTo(refs, 0, 0)
  {
  }

  /** The manifest of a chunked file is a gap-free tiling of it. */
  lemma ManifestTiles(c: Settings, k: Config, file: Bytes, chunks: seq<Chunk>, now: U64)
    requires c.Valid() && k.Valid() && IsChunkingOf(k, file, chunks) && |file| <= MAX_U64
    requires forall chunk :: chunk in chunks ==> Fits(chunk)
    ensures TilesFile(FileManifest(|file|, RefsOf(c, chunks), now))
  {
    hide IsCutOf, CutsBetween, TiledUpTo, TilesFile, Consecutive;
    CutsAreConsecutive(k, file, chunks);
    RefsTile(c, chunks, RefsOf(c, chunks), |chunks|);
    TiledToTheEnd(FileManifest(|file|, RefsOf(c, chunks), now));
  }

  lemma TiledToTheEnd(m: FileManifest)
    requires TiledUpTo(m.chunks, |m.chunks|, m.size)
    ensures TilesFile(m)
  {
  }

  lemma CutsAreConsecutive(k: Config, file: Bytes, chunks: seq<Chunk>)
    requires k.Valid() && IsChunkingOf(k, file, chunks) && |file| <= MAX_U64
    ensures Consecutive(chunks) && |file| == if chunks == [] then 0 else Chunking.End(chunks[|chunks| - 1])
  {
    CutsFit(k, file, chunks, 0, |file|);
    CutsInOrder(k, file, chunks, 0, |file|);
    hide IsCutOf, CutsBetween;
    assert forall i :: 0 <= i < |chunks| ==> chunks[i] in chunks;
  }

  // ----- An upload in progress -----

  /** What one upload has collected; `stored` is the chunks behind the references. */
  datatype Progress = Progress(refs: seq<ChunkRef>, created: seq<string>, logicalAdded: nat, uniqueSize: nat,
                               stored: seq<Chunk>)

  const NOTHING := Progress([], [], 0, 0, [])

  function Advance(c: Settings, p: Progress, chunk: Chunk, r: PutResult): Progress
    requires Fits(chunk) && r.Stored?
  {
    Progress(p.refs + [ChunkRef(r.hash, chunk.length, chunk.offset)],
             if r.deduplicated then p.created else p.created + [r.hash],
             p.logicalAdded + chunk.length,
             if r.deduplicated then p.uniqueSize else p.uniqueSize + chunk.length,
             p.stored + [chunk])
  }

  /** Relative to the store before the upload, everything new is accounted for. */
  ghost predicate Accounted(c: Settings, before: Store, s: Store, p: Progress)
    requires c.layout.Valid()
  {
    && IsPlus(s.index, before.index, p.created) && NoStaleEntry(c, s) && Counted(s)
    && s.logicalSize == before.logicalSize + p.logicalAdded
    && s.totalSize == before.totalSize + p.uniqueSize
  }

  predicate Holds(c: Settings, s: Store, chunks: seq<Chunk>)
    requires c.Valid()
  {
    forall chunk :: chunk in chunks ==> Exists(c, s, c.digest(chunk.data))
  }

  /** An upload only counts on its store when nothing was wrong with it before. */
  ghost predicate Tracks(c: Settings, before: Store, s: Store, p: Progress)
    requires c.Valid()
  {
    && (NoStaleEntry(c, before) && Counted(before) ==> Accounted(c, before, s, p))
    && (Sound(c, before) ==> Sound(c, s) && Holds(c, s, p.stored))
    && |p.refs| == |p.stored|
    && (forall i :: 0 <= i < |p.stored| ==> Fits(p.stored[i]) && p.refs[i] == RefOf(c, p.stored[i]))
  }

  lemma PutIsAccounted(c: Settings, before: Store, s: Store, p: Progress, chunk: Chunk, fault: PutFault)
    requires c.Valid() && Accounted(c, before, s, p) && Fits(chunk) && chunk.length == |chunk.data|
    ensures var (after, r) := AfterPut(c, s, chunk.data, fault);
            Accounted(c, before, after, if r.Stored? then Advance(c, p, chunk, r) else p)
  {
    var hash := c.digest(chunk.data);
    PutKeepsCounted(c, s, chunk.data, fault);
    PutKeepsPresent(c, s, chunk.data, fault);
    assert DropStale(c, s, hash) == s;
    if hash !in s.index {
      PlusOne(s.index, before.index, p.created, hash, |chunk.data|);
    }
    hide IsPlus, NoStaleEntry, Counted, Exists, DropStale;
  }

  lemma PlusOne(index: map<string, nat>, base: map<string, nat>, created: seq<string>, hash: string, size: nat)
    requires IsPlus(index, base, created) && hash !in index
    ensures IsPlus(index[hash := size], base, created + [hash])
  {
  }

  lemma PutIsTracked(c: Settings, before: Store, s: Store, p: Progress, chunk: Chunk, fault: PutFault)
    requires c.Valid() && Tracks(c, before, s, p) && Fits(chunk) && chunk.length == |chunk.data|
    ensures var (after, r) := AfterPut(c, s, chunk.data, fault);
            Tracks(c, before, after, if r.Stored? then Advance(c, p, chunk, r) else p)
  {
    hide AfterPut, Sound, NoStaleEntry, Counted, Accounted, Exists;
    if NoStaleEntry(c, before) && Counted(before) {
      PutIsAccounted(c, before, s, p, chunk, fault);
    }
    if Sound(c, before) {
      PutKeepsSound(c, s, chunk.data, fault);
    }
    PutHash(c, s, chunk.data, fault);
  }

  lemma PutHash(c: Settings, s: Store, data: Bytes, fault: PutFault)
    requires c.Valid()
    ensures var r := AfterPut(c, s, data, fault).1; r.Stored? ==> r.hash == c.digest(data)
    ensures fault.NoPutFault? ==> AfterPut(c, s, data, fault).1.Stored?
  {
  }

  // ----- Rolling an upload back -----

  function AfterRollback(c: Settings, s: Store, p: Progress, faults: nat -> DeleteFault): Store
    requires c.layout.Valid()
  {
    DeleteAll(c, s.(logicalSize := s.logicalSize - p.logicalAdded), p.created, faults)
  }

  /** A store in which nothing of a failed upload is left but the entries of `left`. */
  ghost predicate RolledBack(c: Settings, before: Store, s: Store, left: seq<string>)
    requires c.layout.Valid()
  {
    NoStaleEntry(c, before) && Counted(before) ==>
      && IsPlus(s.index, before.index, left) && Counted(s)
      && s.logicalSize == before.logicalSize
  }

  /** Of each of these objects a file can be removed. */
  ghost predicate AllRemoved(c: Settings, s: Store, created: seq<string>, faults: nat -> DeleteFault)
    requires c.layout.Valid()
  {
    forall i :: 0 <= i < |created| ==> IsValidHash(created[i]) && Removed(c, s, created[i], faults(i))
  }

  lemma {:induction false} NothingLeftExactlyWhen(c: Settings, s: Store, created: seq<string>, faults: nat -> DeleteFault)
    requires c.layout.Valid() && forall hash :: hash in created ==> IsValidHash(hash)
    ensures Left(c, s, created, faults) == [] <==> AllRemoved(c, s, created, faults)
  {
    hide Removed;
    if created != [] {
      var n := |created| - 1;
      LeftStep(c, s, created, faults);
      NothingLeftExactlyWhen(c, s, created[..n], faults);
      assert forall i :: 0 <= i < n ==> created[..n][i] == created[i];
    }
  }

  lemma {:induction false} LeftReadsFiles(c: Settings, s: Store, t: Store, created: seq<string>, faults: nat -> DeleteFault)
    requires c.layout.Valid() && s.files == t.files && forall hash :: hash in created ==> IsValidHash(hash)
    ensures Left(c, s, created, faults) == Left(c, t, created, faults)
  {
    if created != [] {
      LeftReadsFiles(c, s, t, created[..|created| - 1], faults);
      assert created[|created| - 1] in created;
    }
  }

  /** What a rollback of the upload makes of the store, and what it leaves: the objects it
      created none of whose files could be removed. */
  ghost predicate TakenBack(c: Settings, before: Store, s: Store, p: Progress, faults: nat -> DeleteFault,
                            after: Store, left: seq<string>)
    requires c.Valid()
  {
    && Tracks(c, before, s, p) && after == AfterRollback(c, s, p, faults)
    && RolledBack(c, before, after, left)
    && (NoStaleEntry(c, before) && Counted(before) ==>
          && (forall hash :: hash in p.created ==> IsValidHash(hash))
          && left == Left(c, s, p.created, faults)
          && (left == [] <==> AllRemoved(c, s, p.created, faults)))
  }

  /** With no stale entry before it, a failed upload is taken back completely exactly when
      for each object it created one file can be removed. */
  lemma RollbackRestores(c: Settings, before: Store, s: Store, p: Progress, faults: nat -> DeleteFault)
      returns (left: seq<string>)
    requires c.Valid() && Tracks(c, before, s, p)
    ensures TakenBack(c, before, s, p, faults, AfterRollback(c, s, p, faults), left)
    ensures NoStaleEntry(c, before) && Counted(before) && DeletesWork(faults, |p.created|) ==> left == []
  {
    hide Tracks, AfterRollback, AllRemoved, Left, DeletesWork;
    left := [];
    if NoStaleEntry(c, before) && Counted(before) {
      assert Accounted(c, before, s, p) by {
        TracksAccounts(c, before, s, p);
      }
      left := AccountedRollback(c, before, s, p, faults);
    }
  }

  lemma TracksAccounts(c: Settings, before: Store, s: Store, p: Progress)
    requires c.Valid() && Tracks(c, before, s, p) && NoStaleEntry(c, before) && Counted(before)
    ensures Accounted(c, before, s, p)
  {
  }

  lemma AccountedRollback(c: Settings, before: Store, s: Store, p: Progress, faults: nat -> DeleteFault)
      returns (left: seq<string>)
    requires c.Valid() && Accounted(c, before, s, p)
    ensures var t := AfterRollback(c, s, p, faults);
            IsPlus(t.index, before.index, left) && Counted(t) && t.logicalSize == before.logicalSize
    ensures forall hash :: hash in p.created ==> IsValidHash(hash)
    ensures left == Left(c, s, p.created, faults)
    ensures left == [] <==> AllRemoved(c, s, p.created, faults)
    ensures DeletesWork(faults, |p.created|) ==> left == []
  {
    hide IsPlus, NoStaleEntry, Counted, Exists, Sound, Left, DeletesWork, Holds, DeleteAll, IsValidHash, Accounted, AllRemoved;
    var less := s.(logicalSize := s.logicalSize - p.logicalAdded);
    CreatedArePresent(c, before, s, p, less);
    left := Left(c, less, p.created, faults);
    LeftReadsFiles(c, less, s, p.created, faults);
    NothingLeftExactlyWhen(c, s, p.created, faults);
    DeleteAllRestores(c, before.index, less, p.created, faults);
    if DeletesWork(faults, |p.created|) {
      NothingLeft(c, less, p.created, faults);
    }
  }

  lemma CreatedArePresent(c: Settings, before: Store, s: Store, p: Progress, less: Store)
    requires c.Valid() && Accounted(c, before, s, p) && less == s.(logicalSize := s.logicalSize - p.logicalAdded)
    ensures Counted(less) && less.logicalSize == before.logicalSize && IsPlus(less.index, before.index, p.created)
    ensures forall hash :: hash in p.created ==> IsValidHash(hash) && Exists(c, less, hash)
  {
    hide Exists, Sound;
    FilesMakeExists(c, s, less);
  }

  /** Nothing left means that index, object count, unique size and logical size are as before. */
  lemma NothingLeftMeansRestored(c: Settings, before: Store, s: Store, left: seq<string>)
    requires c.Valid() && NoStaleEntry(c, before) && Counted(before) && RolledBack(c, before, s, left)
    ensures s.logicalSize == before.logicalSize
    ensures s.index == before.index <==> left == []
    ensures left == [] ==> s.totalChunks == before.totalChunks && s.totalSize == before.totalSize
  {
    PlusNothing(s.index, before.index, left);
  }

  // ----- Reading back -----

  datatype Json = Json(write: FileManifest -> Bytes, parse: Bytes -> Option<FileManifest>)
  {
    ghost predicate Valid() {
      forall m: FileManifest :: parse(write(m)) == Some(m)
    }
  }

  /** What a complete download is: the manifest's chunks, each with its stated size. */
  ghost predicate ReadsAs(c: Settings, j: Json, s: Store, hash: string, m: FileManifest, sent: seq<Bytes>)
    requires c.layout.Valid()
  {
    && Get(c, s, hash).Data? && j.parse(Get(c, s, hash).data) == Some(m)
    && TilesFile(m)
    && |sent| == |m.chunks|
    && forall i :: 0 <= i < |sent| ==> Get(c, s, m.chunks[i].hash) == Data(sent[i]) && |sent[i]| == m.chunks[i].size
  }

  predicate CollisionFree(c: Settings, contents: set<Bytes>) {
    forall x, y :: x in contents && y in contents && c.digest(x) == c.digest(y) ==> x == y
  }

  /** All that can be read from the store is among these contents. */
  ghost predicate Within(c: Settings, s: Store, contents: set<Bytes>)
    requires c.layout.Valid()
  {
    forall hash :: Get(c, s, hash).Data? ==> Get(c, s, hash).data in contents
  }

  lemma StoredIsRead(c: Settings, s: Store, data: Bytes, contents: set<Bytes>)
    requires c.Valid() && Sound(c, s) && Exists(c, s, c.digest(data))
    requires CollisionFree(c, contents) && Within(c, s, contents) && data in contents
    ensures Get(c, s, c.digest(data)) == Data(data)
  {
    SoundReads(c, s, c.digest(data));
  }

  function Datas(chunks: seq<Chunk>): (datas: seq<Bytes>)
    ensures |datas| == |chunks| && forall i :: 0 <= i < |chunks| ==> datas[i] == chunks[i].data
  {
    seq(|chunks|, i requires 0 <= i < |chunks| => chunks[i].data)
  }

  lemma {:induction false} DatasArePayload(chunks: seq<Chunk>, n: nat)
    requires n <= |chunks|
    ensures Concat(Datas(chunks)[..n]) + Payload(chunks[n..]) == Payload(chunks)
  {
    var datas := Datas(chunks);
    if n == 0 {
      assert chunks[0..] == chunks;
    } else {
      DatasArePayload(chunks, n - 1);
      assert datas[..n][..n - 1] == datas[..n - 1];
      assert chunks[n - 1..][1..] == chunks[n..];
      Associative(Concat(datas[..n - 1]), datas[n - 1], Payload(chunks[n..]));
    }
  }

  /** A store that holds the chunks of a file and their manifest gives back the file. */
  lemma StoredFileReadsBack(c: Settings, k: Config, j: Json, s: Store, file: Bytes, chunks: seq<Chunk>, now: U64,
                            contents: set<Bytes>)
    requires c.Valid() && k.Valid() && j.Valid() && IsChunkingOf(k, file, chunks) && |file| <= MAX_U64
    requires forall chunk :: chunk in chunks ==> Fits(chunk)
    requires var manifest := j.write(FileManifest(|file|, RefsOf(c, chunks), now));
             && Exists(c, s, c.digest(manifest)) && manifest in contents
    requires Sound(c, s) && CollisionFree(c, contents) && Within(c, s, contents)
    requires forall chunk :: chunk in chunks ==> Exists(c, s, c.digest(chunk.data)) && chunk.data in contents
    ensures var m := FileManifest(|file|, RefsOf(c, chunks), now);
            && ReadsAs(c, j, s, c.digest(j.write(m)), m, Datas(chunks))
            && Concat(Datas(chunks)) == file
  {
    hide Get, TilesFile, CutsBetween, IsCutOf, Sound, CollisionFree, Within, Exists, Concat;
    var m := FileManifest(|file|, RefsOf(c, chunks), now);
    ManifestTiles(c, k, file, chunks, now);
    StoredIsRead(c, s, j.write(m), contents);
    CutsFit(k, file, chunks, 0, |file|);
    DatasAreFile(k, file, chunks);
    forall i | 0 <= i < |chunks|
      ensures Get(c, s, m.chunks[i].hash) == Data(chunks[i].data) && |chunks[i].data| == m.chunks[i].size
    {
      assert chunks[i] in chunks;
      StoredIsRead(c, s, chunks[i].data, contents);
    }
  }

  lemma DatasAreFile(k: Config, file: Bytes, chunks: seq<Chunk>)
    requires k.Valid() && IsChunkingOf(k, file, chunks)
    ensures Concat(Datas(chunks)) == file
  {
    PayloadIsCutRange(k, file, chunks, 0, |file|);
    DatasArePayload(chunks, |chunks|);
    assert Datas(chunks)[..|chunks|] == Datas(chunks) && chunks[|chunks|..] == [];
    assert file[0..|file|] == file;
    assert Concat(Datas(chunks)) + [] == Concat(Datas(chunks));
  }

  // ----- A finished upload -----

  /** The store after the manifest of an upload was put. */
  ghost predicate IsManifestOf(c: Settings, j: Json, before: Store, s: Store, p: Progress, total: U64, now: U64, hash: string)
    requires c.Valid()
  {
    && hash == c.digest(j.write(FileManifest(total, p.refs, now)))
    && (Sound(c, before) ==> Sound(c, s) && IsValidHash(hash) && Exists(c, s, hash) && Holds(c, s, p.stored))
    && |p.refs| == |p.stored|
    && (forall i :: 0 <= i < |p.stored| ==> Fits(p.stored[i]) && p.refs[i] == RefOf(c, p.stored[i]))
  }

  lemma ManifestPut(c: Settings, j: Json, before: Store, s: Store, p: Progress, total: U64, now: U64, fault: PutFault)
    requires c.Valid() && Tracks(c, before, s, p)
    ensures var (after, r) := AfterPut(c, s, j.write(FileManifest(total, p.refs, now)), fault);
            if r.Stored? then IsManifestOf(c, j, before, after, p, total, now, r.hash) else Tracks(c, before, after, p)
  {
    hide AfterPut, Sound, NoStaleEntry, Counted, Accounted, Exists;
    var data := j.write(FileManifest(total, p.refs, now));
    if NoStaleEntry(c, before) && Counted(before) {
      FailedPutIsAccounted(c, before, s, p, data, fault);
    }
    if Sound(c, before) {
      PutKeepsSound(c, s, data, fault);
    }
    PutHash(c, s, data, fault);
  }

  lemma FailedPutIsAccounted(c: Settings, before: Store, s: Store, p: Progress, data: Bytes, fault: PutFault)
    requires c.Valid() && Accounted(c, before, s, p)
    ensures AfterPut(c, s, data, fault).1.PutFailed? ==> Accounted(c, before, AfterPut(c, s, data, fault).0, p)
  {
    hide IsPlus, NoStaleEntry, Counted, Exists, DropStale;
    PutKeepsCounted(c, s, data, fault);
    PutKeepsPresent(c, s, data, fault);
  }

  /** What an accepted upload leaves: the chunks of the file, under the manifest of them. */
  ghost predicate IsUploaded(c: Settings, k: Config, j: Json, before: Store, s: Store, file: Bytes, chunks: seq<Chunk>,
                             now: U64, hash: string)
    requires c.Valid() && k.Valid()
  {
    && |file| <= MAX_U64 && IsChunkingOf(k, file, chunks) && (forall chunk :: chunk in chunks ==> Fits(chunk))
    && hash == c.digest(j.write(FileManifest(|file|, RefsOf(c, chunks), now)))
    && (Sound(c, before) ==> Sound(c, s) && Exists(c, s, hash) && Holds(c, s, chunks))
  }

  lemma UploadIsComplete(c: Settings, k: Config, j: Json, before: Store, s: Store, file: Bytes, p: Progress, now: U64,
                         hash: string)
    requires c.Valid() && k.Valid() && |file| <= MAX_U64 && IsChunkingOf(k, file, p.stored)
    requires IsManifestOf(c, j, before, s, p, |file|, now, hash)
    ensures IsUploaded(c, k, j, before, s, file, p.stored, now, hash)
  {
    hide Sound, Exists, CutsBetween;
    assert p.refs == RefsOf(c, p.stored);
  }

  /** The file of an accepted upload comes back byte for byte, as long as none of the contents
      in the store share a hash. */
  lemma UploadReadsBack(c: Settings, k: Config, j: Json, before: Store, s: Store, file: Bytes, chunks: seq<Chunk>,
                        now: U64, hash: string, contents: set<Bytes>)
    requires c.Valid() && k.Valid() && j.Valid() && Sound(c, before)
    requires IsUploaded(c, k, j, before, s, file, chunks, now, hash)
    requires CollisionFree(c, contents) && Within(c, s, contents)
    requires j.write(FileManifest(|file|, RefsOf(c, chunks), now)) in contents
    requires forall chunk :: chunk in chunks ==> chunk.data in contents
    ensures ReadsAs(c, j, s, hash, FileManifest(|file|, RefsOf(c, chunks), now), Datas(chunks))
    ensures Concat(Datas(chunks)) == file
  {
    StoredFileReadsBack(c, k, j, s, file, chunks, now, contents);
  }
}

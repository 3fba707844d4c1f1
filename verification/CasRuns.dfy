/** What the content-addressed store guarantees over any run of puts, deletes and restarts,
    with any fault in each of them, as long as no two stored contents share a hash. */
module CasRuns {
  import opened Cas
  import opened CasStorage
  import opened Chunking
  import opened Common
  import opened Manifest
  import opened ObjectPaths

  /** `made` remembers the content given for each hash, `failed` the hashes of puts that
      failed after their file was in place and since the last restart. */
  datatype World = World(c: Settings, s: Store, made: map<string, Bytes>, failed: set<string>)

  /** A restart may come with other compression settings; it ends with the rebuilt index. */
  datatype Event = Put(data: Bytes, putFault: PutFault) | Delete(hash: string, deleteFault: DeleteFault)
                 | Restart(compressionEnabled: bool, minCompressSize: nat, rebuilt: Store)

  function Reconfigured(c: Settings, e: Event): Settings
    requires e.Restart?
  {
    c.(compressionEnabled := e.compressionEnabled, minCompressSize := e.minCompressSize)
  }

  ghost predicate Possible(w: World, e: Event)
    requires w.c.Valid()
  {
    match e
    case Put(data, _) => var hash := w.c.digest(data); hash in w.made ==> w.made[hash] == data
    case Delete(_, _) => true
    case Restart(_, _, rebuilt) => rebuilt.files == w.s.files && IsRebuilt(Reconfigured(w.c, e), rebuilt)
  }

  ghost function Next(w: World, e: Event): World
    requires w.c.Valid()
  {
    match e
    case Put(data, fault) =>
      var (after, r) := AfterPut(w.c, w.s, data, fault);
      var hash := w.c.digest(data);
      World(w.c, after, w.made[hash := data], if fault.SyncFails? then w.failed + {hash} else w.failed)
    case Delete(hash, fault) => w.(s := AfterDelete(w.c, w.s, hash, fault).0)
    case Restart(_, _, rebuilt) => World(Reconfigured(w.c, e), rebuilt, w.made, {})
  }

  // ----- The invariant -----

  predicate FileFits(w: World, hash: string, compressed: bool)
    requires w.c.layout.Valid() && IsValidHash(hash)
  {
    HasFile(w.c, w.s, hash, compressed) ==>
      hash in w.made && w.c.digest(w.made[hash]) == hash
      && Decoded(w.c, w.s.files[FileOf(w.c, hash, compressed)], compressed) == Some(w.made[hash])
  }

  /** An object has one file at most. Without an entry it was left by a failed put of this
      process, so a new put would replace it in place. */
  predicate HashFits(w: World, hash: string)
    requires w.c.layout.Valid() && IsValidHash(hash)
  {
    && FileFits(w, hash, true) && FileFits(w, hash, false)
    && !(HasFile(w.c, w.s, hash, true) && HasFile(w.c, w.s, hash, false))
    && (hash in w.s.index ==> Exists(w.c, w.s, hash) && hash in w.made && w.s.index[hash] == |w.made[hash]|)
    && (hash !in w.s.index && Exists(w.c, w.s, hash) ==>
          hash in w.made && hash in w.failed && HasFile(w.c, w.s, hash, Compresses(w.c, w.made[hash])))
  }

  ghost predicate Inv(w: World) {
    && w.c.Valid()
    && (forall hash :: hash in w.s.index ==> IsValidHash(hash))
    && (forall hash :: IsValidHash(hash) ==> HashFits(w, hash))
    && Counted(w.s)
  }

  lemma DecodedRaw(c: Settings, data: Bytes)
    requires c.Valid()
    ensures Decoded(c, Raw(c, data), Compresses(c, data)) == Some(data)
  {
  }

  /** A put that gets past the duplicate check meets no entry at all. */
  lemma NothingStale(w: World, data: Bytes)
    requires Inv(w)
    ensures w.c.digest(data) in w.s.index ==> Exists(w.c, w.s, w.c.digest(data))
    ensures DropStale(w.c, w.s, w.c.digest(data)) == w.s
  {
    assert IsValidHash(w.c.digest(data));
    assert HashFits(w, w.c.digest(data));
  }

  /** The world after a put whose file was put in place, with an entry or without one. */
  ghost predicate WrittenTo(w: World, data: Bytes, after: World)
    requires w.c.Valid()
  {
    var written := w.c.digest(data);
    && w.c.digest(data) !in w.s.index && (written in w.made ==> w.made[written] == data)
    && after.c == w.c && after.s.files == Write(w.c, w.s, written, data).files
    && after.made == w.made[written := data]
    && ((after.s.index == w.s.index && after.failed == w.failed + {written})
        || (after.s.index == w.s.index[written := |data|] && after.failed == w.failed))
  }

  lemma WrittenFiles(w: World, data: Bytes, hash: string, f: bool)
    requires w.c.Valid() && IsValidHash(hash) && IsValidHash(w.c.digest(data))
    ensures var path, files := FileOf(w.c, hash, f), Write(w.c, w.s, w.c.digest(data), data).files;
            if hash == w.c.digest(data) && f == Compresses(w.c, data) then path in files && files[path] == Raw(w.c, data)
            else (path in files <==> path in w.s.files) && (path in files ==> files[path] == w.s.files[path])
  {
    FilesAreDistinct(w.c);
    hide FileOf, Raw, Compresses, IsValidHash, Settings.Valid, Layout.Valid;
  }

  lemma OtherStaysFit(w: World, data: Bytes, hash: string, after: World)
    requires w.c.Valid() && IsValidHash(hash) && HashFits(w, hash) && WrittenTo(w, data, after) && hash != w.c.digest(data)
    ensures HashFits(after, hash)
  {
    hide FileOf, Raw, Compresses, Decoded, IsValidHash, Layout.Valid, Write;
    assert IsValidHash(w.c.digest(data));
    WrittenFiles(w, data, hash, true);
    WrittenFiles(w, data, hash, false);
  }

  lemma WrittenItselfFits(w: World, data: Bytes, after: World)
    requires w.c.Valid() && IsValidHash(w.c.digest(data)) && HashFits(w, w.c.digest(data)) && WrittenTo(w, data, after)
    ensures HashFits(after, w.c.digest(data))
  {
    hide FileOf, Raw, Compresses, Decoded, IsValidHash, Settings.Valid, Layout.Valid, Write;
    DecodedRaw(w.c, data);
    WrittenFiles(w, data, w.c.digest(data), true);
    WrittenFiles(w, data, w.c.digest(data), false);
  }

  lemma WrittenFits(w: World, data: Bytes, hash: string, after: World)
    requires w.c.Valid() && IsValidHash(hash) && HashFits(w, hash) && WrittenTo(w, data, after)
    ensures HashFits(after, hash)
  {
    hide HashFits, WrittenTo;
    if hash == w.c.digest(data) {
      WrittenItselfFits(w, data, after);
    } else {
      OtherStaysFit(w, data, hash, after);
    }
  }

  lemma SameFilesFit(w: World, data: Bytes, hash: string, after: World)
    requires w.c.layout.Valid() && IsValidHash(hash) && HashFits(w, hash)
    requires after.c == w.c && after.s.files == w.s.files && after.s.index == w.s.index && w.failed <= after.failed
    requires after.made == w.made[w.c.digest(data) := data]
    requires w.c.digest(data) in w.made ==> w.made[w.c.digest(data)] == data
    ensures HashFits(after, hash)
  {
    hide FileOf, Compresses, Decoded, IsValidHash, Layout.Valid;
    assert forall f :: HasFile(after.c, after.s, hash, f) == HasFile(w.c, w.s, hash, f);
  }

  lemma InvMeansFits(w: World, hash: string)
    requires Inv(w) && IsValidHash(hash)
    ensures HashFits(w, hash)
  {
  }

  lemma PutFits(w: World, data: Bytes, fault: PutFault, hash: string)
    requires Inv(w) && Possible(w, Put(data, fault)) && IsValidHash(hash)
    ensures HashFits(Next(w, Put(data, fault)), hash)
  {
    NothingStale(w, data);
    InvMeansFits(w, hash);
    var after := Next(w, Put(data, fault));
    hide HashFits, Inv, DropStale, Exists, IsValidHash, FileOf, Compresses, TriesCompression;
    if after.s.files == w.s.files && after.s.index == w.s.index {
      SameFilesFit(w, data, hash, after);
    } else {
      WrittenFits(w, data, hash, after);
    }
  }

  lemma PutKeepsInv(w: World, data: Bytes, fault: PutFault)
    requires Inv(w) && Possible(w, Put(data, fault))
    ensures Inv(Next(w, Put(data, fault)))
  {
    PutKeepsCounted(w.c, w.s, data, fault);
    var after := Next(w, Put(data, fault));
    forall hash | IsValidHash(hash)
      ensures HashFits(after, hash)
    {
      PutFits(w, data, fault, hash);
    }
    hide HashFits, Exists, DropStale, Counted;
    assert forall hash :: hash in after.s.index ==> hash in w.s.index || hash == w.c.digest(data);
  }

  lemma RemainingFiles(c: Settings, s: Store, deleted: string, fault: DeleteFault, hash: string, f: bool)
    requires c.layout.Valid() && IsValidHash(hash) && IsValidHash(deleted)
    ensures var path, rest := FileOf(c, hash, f), WithoutFiles(c, s, deleted, fault);
            && (path in rest <==> path in s.files && (hash != deleted || (if f then fault.compressedStays else fault.plainStays)))
            && (path in rest ==> rest[path] == s.files[path])
  {
    hide FileOf, IsValidHash, Layout.Valid;
    FilesAreDistinct(c);
  }

  lemma DeletedFits(w: World, deleted: string, fault: DeleteFault, hash: string)
    requires w.c.Valid() && IsValidHash(hash) && HashFits(w, hash)
    requires IsValidHash(deleted) && Removed(w.c, w.s, deleted, fault)
    requires var gone := World(w.c, AfterDelete(w.c, w.s, deleted, fault).0, w.made, w.failed);
             gone.s.files == WithoutFiles(w.c, w.s, deleted, fault) && gone.s.index == w.s.index - {deleted}
    ensures HashFits(w.(s := AfterDelete(w.c, w.s, deleted, fault).0), hash)
  {
    RemainingFiles(w.c, w.s, deleted, fault, hash, true);
    RemainingFiles(w.c, w.s, deleted, fault, hash, false);
    hide FileOf, Compresses, Decoded, IsValidHash, Settings.Valid, Layout.Valid, WithoutFiles, AfterDelete;
  }

  lemma DeleteKeepsInv(w: World, deleted: string, fault: DeleteFault)
    requires Inv(w)
    ensures Inv(Next(w, Delete(deleted, fault)))
  {
    hide HashFits, Counted;
    DeleteKeepsCounted(w.c, w.s, deleted, fault);
    var after := Next(w, Delete(deleted, fault));
    forall hash | IsValidHash(hash)
      ensures HashFits(after, hash)
    {
      assert HashFits(w, hash);
      if after.s != w.s {
        DeletedFits(w, deleted, fault, hash);
      }
    }
  }

  lemma RestartKeepsInv(w: World, e: Event)
    requires Inv(w) && e.Restart? && Possible(w, e)
    ensures Inv(Next(w, e))
  {
    var after := Next(w, e);
    forall hash | IsValidHash(hash)
      ensures HashFits(after, hash)
      ensures !(HasFile(after.c, after.s, hash, true) && HasFile(after.c, after.s, hash, false))
    {
      hide FileOf, Compresses, IsValidHash, Settings.Valid, Layout.Valid;
      assert HashFits(w, hash);
      assert forall f :: FileOf(after.c, hash, f) == FileOf(w.c, hash, f);
      assert forall f :: HasFile(after.c, after.s, hash, f) == HasFile(w.c, w.s, hash, f);
    }
    assert Doubles(after.c, after.s) == {};
    hide HashFits;
  }

  // ----- Runs -----

  ghost predicate Run(worlds: seq<World>, events: seq<Event>) {
    && |worlds| == |events| + 1
    && (forall i :: 0 <= i < |worlds| ==> worlds[i].c.Valid())
    && (forall i :: 0 <= i < |events| ==> Possible(worlds[i], events[i]) && worlds[i + 1] == Next(worlds[i], events[i]))
  }

  function Empty(c: Settings): World {
    World(c, Store(map[], map[], 0, 0, 0), map[], {})
  }

  lemma {:induction false} RunKeepsInv(worlds: seq<World>, events: seq<Event>, n: nat)
    requires Run(worlds, events) && n < |worlds| && worlds[0] == Empty(worlds[0].c)
    ensures Inv(worlds[n])
  {
    hide Inv, Next, Possible, Settings.Valid;
    if n == 0 {
      EmptyIsFine(worlds[0].c);
    } else {
      RunKeepsInv(worlds, events, n - 1);
      match events[n - 1]
      case Put(data, fault) => PutKeepsInv(worlds[n - 1], data, fault);
      case Delete(hash, fault) => DeleteKeepsInv(worlds[n - 1], hash, fault);
      case Restart(_, _, _) => RestartKeepsInv(worlds[n - 1], events[n - 1]);
    }
  }

  lemma EmptyIsFine(c: Settings)
    requires c.Valid()
    ensures Inv(Empty(c))
  {
  }

  /** Over any run, the counters are the number of entries and the sum of their sizes, and
      every entry is read back as exactly the content that was put under its hash. */
  lemma EverythingIndexedIsReadable(worlds: seq<World>, events: seq<Event>, n: nat, hash: string)
    requires Run(worlds, events) && n < |worlds| && worlds[0] == Empty(worlds[0].c)
    ensures var w := worlds[n];
            && w.s.totalChunks == |w.s.index| && w.s.totalSize == Sum(w.s.index)
            && (hash in w.s.index ==> hash in w.made && Get(w.c, w.s, hash) == Data(w.made[hash]))
  {
    RunKeepsInv(worlds, events, n);
    if hash in worlds[n].s.index {
      assert HashFits(worlds[n], hash);
    }
    hide FileOf, Compresses;
  }

  /** Whenever the store is stopped, a rebuild finds every object that had an entry, with its
      size; what it finds besides are puts that failed after their file was in place. */
  lemma RebuildRecovers(worlds: seq<World>, events: seq<Event>, n: nat, e: Event)
    requires Run(worlds, events) && n < |worlds| && worlds[0] == Empty(worlds[0].c)
    requires e.Restart? && Possible(worlds[n], e)
    ensures var w := worlds[n];
            && (forall hash :: hash in w.s.index ==> hash in e.rebuilt.index && e.rebuilt.index[hash] == w.s.index[hash])
            && (forall hash :: hash in e.rebuilt.index && hash !in w.s.index ==> hash in w.failed)
            && Counted(e.rebuilt)
  {
    RunKeepsInv(worlds, events, n);
    var w := worlds[n];
    RestartKeepsInv(w, e);
    var after := Next(w, e);
    forall hash | IsValidHash(hash)
      ensures HashFits(w, hash) && HashFits(after, hash)
      ensures Exists(w.c, w.s, hash) == Exists(after.c, after.s, hash)
    {
      assert forall f :: FileOf(after.c, hash, f) == FileOf(w.c, hash, f);
    }
    hide FileOf, Compresses, IsFoundSize, FileFits;
  }
}

/** Streaming a file into the content-addressed store and back: the message loop of an
    upload with its rollback, and the download that checks the manifest first. */
module FileTransfer {
  import opened Cas
  import opened CasStorage
  import opened Chunking
  import opened Common
  import opened Manifest
  import opened ObjectPaths
  import opened Uploads

  const MAX_FILE_SIZE: nat := 10 * 1024 * 1024 * 1024

  /** One item of the upload stream; an empty message carries no payload. */
  datatype Message = Metadata | Piece(data: Bytes) | Empty | Broken

  datatype Answer = Accepted(manifestHash: string, totalSize: nat, chunkCount: nat) | Rejected

  /** The faults of one upload, put by put and delete by delete. */
  datatype Faults = Faults(puts: nat -> PutFault, deletes: nat -> DeleteFault, jsonFails: bool)

  ghost predicate NoFaults(f: Faults) {
    (forall i: nat :: f.puts(i).NoPutFault?) && !f.jsonFails
  }

  function PayloadOf(messages: seq<Message>): Bytes {
    if messages == [] then []
    else
      var last := messages[|messages| - 1];
      PayloadOf(messages[..|messages| - 1]) + (if last.Piece? then last.data else [])
  }

  /** No transport error, the metadata exactly once, and no piece before it. */
  ghost predicate InOrder(messages: seq<Message>) {
    && (forall i :: 0 <= i < |messages| ==> !messages[i].Broken?)
    && (forall i, j :: 0 <= i < j < |messages| ==> !(messages[i].Metadata? && messages[j].Metadata?))
    && (forall i, j :: 0 <= i < j < |messages| ==> !(messages[i].Piece? && messages[j].Metadata?))
    && (forall i :: 0 <= i < |messages| && messages[i].Piece? ==> HasMetadata(messages))
  }

  predicate HasMetadata(messages: seq<Message>) {
    exists i :: 0 <= i < |messages| && messages[i].Metadata?
  }

  /** The streams an upload takes: not empty and not over the size limit either. */
  ghost predicate Acceptable(messages: seq<Message>) {
    InOrder(messages) && HasMetadata(messages) && 0 < |PayloadOf(messages)| <= MAX_FILE_SIZE
  }

  lemma {:induction false} PayloadGrows(messages: seq<Message>, n: nat)
    requires n <= |messages|
    ensures |PayloadOf(messages[..n])| <= |PayloadOf(messages)|
    decreases |messages| - n
  {
    if n < |messages| {
      assert messages[..n + 1][..n] == messages[..n];
      PayloadGrows(messages, n + 1);
    } else {
      assert messages[..n] == messages;
    }
  }

  lemma OneMore(messages: seq<Message>, n: nat)
    requires n < |messages|
    ensures PayloadOf(messages[..n + 1]) ==
            PayloadOf(messages[..n]) + (if messages[n].Piece? then messages[n].data else [])
    ensures HasMetadata(messages[..n + 1]) <==> HasMetadata(messages[..n]) || messages[n].Metadata?
  {
    assert messages[..n + 1][..n] == messages[..n];
    if HasMetadata(messages[..n]) {
      var i :| 0 <= i < n && messages[..n][i].Metadata?;
      assert messages[..n + 1][i].Metadata?;
    }
    if messages[n].Metadata? {
      assert messages[..n + 1][n].Metadata?;
    }
  }

  lemma StillInOrder(messages: seq<Message>, n: nat)
    requires n < |messages| && InOrder(messages[..n]) && !messages[n].Broken?
    requires messages[n].Metadata? ==> !HasMetadata(messages[..n])
    requires messages[n].Piece? ==> HasMetadata(messages[..n])
    ensures InOrder(messages[..n + 1])
  {
    hide PayloadOf;
    OneMore(messages, n);
    var longer := messages[..n + 1];
    assert forall i :: 0 <= i < n ==> longer[i] == messages[..n][i];
    assert longer[n] == messages[n];
  }

  /** A message that is refused where it stands makes the whole stream unacceptable. */
  lemma RefusedMessage(messages: seq<Message>, n: nat)
    requires n < |messages|
    requires || messages[n].Broken?
             || (messages[n].Metadata? && (HasMetadata(messages[..n]) || |PayloadOf(messages[..n])| > 0))
             || (messages[n].Piece? && (!HasMetadata(messages[..n]) || |PayloadOf(messages[..n + 1])| > MAX_FILE_SIZE))
    ensures !Acceptable(messages)
  {
    if messages[n].Metadata? && |PayloadOf(messages[..n])| > 0 {
      PayloadHasPiece(messages[..n]);
    }
    if messages[n].Piece? {
      PayloadGrows(messages, n + 1);
      if InOrder(messages) && HasMetadata(messages) {
        var i :| 0 <= i < |messages| && messages[i].Metadata?;
        assert i < n;
        assert messages[..n][i].Metadata?;
      }
    }
  }

  lemma {:induction false} PayloadHasPiece(messages: seq<Message>)
    requires |PayloadOf(messages)| > 0
    ensures exists i :: 0 <= i < |messages| && messages[i].Piece?
  {
    var n := |messages| - 1;
    if !messages[n].Piece? {
      PayloadHasPiece(messages[..n]);
    }
  }

  /** What the loop knows after the first `n` messages. */
  ghost predicate Taken(messages: seq<Message>, n: nat, hasMetadata: bool, total: nat) {
    && n <= |messages| && InOrder(messages[..n]) && (hasMetadata <==> HasMetadata(messages[..n]))
    && total == |PayloadOf(messages[..n])| && total <= MAX_FILE_SIZE
  }

  predicate Refused(message: Message, hasMetadata: bool, total: nat) {
    match message
    case Broken => true
    case Metadata => hasMetadata || total > 0
    case Piece(data) => !hasMetadata || total + |data| > MAX_FILE_SIZE
    case Empty => false
  }

  lemma NothingTaken(messages: seq<Message>)
    ensures Taken(messages, 0, false, 0) && PayloadOf(messages[..0]) == []
  {
  }

  /** A message is refused exactly where the stream can no longer be accepted. */
  lemma TakeOne(messages: seq<Message>, n: nat, hasMetadata: bool, total: nat)
    requires n < |messages| && Taken(messages, n, hasMetadata, total)
    ensures if Refused(messages[n], hasMetadata, total) then !Acceptable(messages)
            else Taken(messages, n + 1, hasMetadata || messages[n].Metadata?,
                       total + (if messages[n].Piece? then |messages[n].data| else 0))
    ensures PayloadOf(messages[..n + 1]) ==
            PayloadOf(messages[..n]) + (if messages[n].Piece? then messages[n].data else [])
  {
    hide InOrder, HasMetadata, PayloadOf, Acceptable;
    OneMore(messages, n);
    if Refused(messages[n], hasMetadata, total) {
      RefusedMessage(messages, n);
    } else {
      StillInOrder(messages, n);
    }
  }

  lemma AllTaken(messages: seq<Message>, hasMetadata: bool, total: nat)
    requires Taken(messages, |messages|, hasMetadata, total)
    ensures total == |PayloadOf(messages)| && total <= MAX_FILE_SIZE && InOrder(messages)
    ensures hasMetadata <==> HasMetadata(messages)
    ensures messages[..|messages|] == messages
    ensures Acceptable(messages) ==> HasMetadata(messages)
  {
    hide InOrder, PayloadOf;
    assert messages[..|messages|] == messages;
  }

  class FileService {
    const c: Settings
    const chunking: Config
    const json: Json
    const cas: CasStore

    ghost predicate Valid() {
      c.Valid() && chunking.Valid() && json.Valid() && cas.c == c
    }

    constructor (cas: CasStore, chunking: Config, json: Json)
      requires cas.c.Valid() && chunking.Valid() && json.Valid()
      ensures Valid() && this.cas == cas && this.chunking == chunking && this.json == json
    {
      this.c, this.cas, this.chunking, this.json := cas.c, cas, chunking, json;
    }

    method StoreUploadedChunk(ghost before: Store, p: Progress, chunk: Chunk, fault: PutFault)
        returns (ok: bool, next: Progress)
      requires Valid() && Tracks(c, before, cas.Value(), p) && Fits(chunk) && chunk.length == |chunk.data|
      modifies cas
      ensures Tracks(c, before, cas.Value(), next)
      ensures next.stored == if ok then p.stored + [chunk] else p.stored
      ensures fault.NoPutFault? ==> ok
    {
      hide Tracks, AfterPut;
      PutIsTracked(c, before, cas.Value(), p, chunk, fault);
      PutHash(c, cas.Value(), chunk.data, fault);
      var r := cas.Put(chunk.data, fault);
      ok := r.Stored?;
      next := if ok then Advance(c, p, chunk, r) else p;
    }

    method StoreChunks(ghost before: Store, p: Progress, chunks: seq<Chunk>, f: Faults) returns (ok: bool, next: Progress)
      requires Valid() && Tracks(c, before, cas.Value(), p)
      requires forall chunk :: chunk in chunks ==> Fits(chunk) && chunk.length == |chunk.data|
      modifies cas
      ensures Tracks(c, before, cas.Value(), next)
      ensures ok ==> next.stored == p.stored + chunks
      ensures NoFaults(f) ==> ok
    {
      hide Tracks, Settings.Valid;
      ok, next := true, p;
      for i := 0 to |chunks|
        invariant Tracks(c, before, cas.Value(), next)
        invariant ok && next.stored == p.stored + chunks[..i]
      {
        ok, next := StoreUploadedChunk(before, next, chunks[i], f.puts(|next.stored|));
        if !ok {
          return;
        }
        assert p.stored + chunks[..i + 1] == p.stored + chunks[..i] + [chunks[i]];
      }
      assert chunks[..|chunks|] == chunks;
    }

    /** Takes back the logical size and deletes what the upload created, last first. */
    method RollbackPutFileFailure(ghost before: Store, p: Progress, f: Faults) returns (ghost left: seq<string>)
      requires Valid() && Tracks(c, before, cas.Value(), p)
      modifies cas
      ensures TakenBack(c, before, old(cas.Value()), p, f.deletes, cas.Value(), left)
      ensures NoStaleEntry(c, before) && Counted(before) && DeletesWork(f.deletes, |p.created|) ==> left == []
    {
      hide Tracks, RolledBack, TakenBack, NoStaleEntry, Counted, DeletesWork, AfterDelete;
      left := RollbackRestores(c, before, cas.Value(), p, f.deletes);
      ghost var s := cas.Value();
      cas.RollbackLogicalSize(p.logicalAdded);
      var i := |p.created|;
      assert p.created[..i] == p.created;
      while i > 0
        invariant 0 <= i <= |p.created|
        invariant DeleteAll(c, cas.Value(), p.created[..i], f.deletes) == AfterRollback(c, s, p, f.deletes)
      {
        i := i - 1;
        assert p.created[..i + 1][..i] == p.created[..i];
        var deleted := cas.Delete(p.created[i], f.deletes(i));
      }
    }

    /** Stores the chunks that a piece of the payload completes. */
    method ReceivePiece(ghost before: Store, p: Progress, data: Bytes, chunker: StreamingChunker, f: Faults)
        returns (ok: bool, next: Progress)
      requires Valid() && Tracks(c, before, cas.Value(), p)
      requires chunker.Valid() && chunker.emitted == p.stored && |chunker.fed| + |data| <= MAX_FILE_SIZE
      modifies cas, chunker
      ensures Tracks(c, before, cas.Value(), next)
      ensures ok ==> chunker.Valid() && chunker.fed == old(chunker.fed) + data && chunker.emitted == next.stored
      ensures NoFaults(f) ==> ok
    {
      hide Tracks, NoFaults, Settings.Valid;
      var chunks := chunker.Feed(data);
      EmittedFit(chunker, chunks);
      ok, next := StoreChunks(before, p, chunks, f);
    }

    /** Reads the stream to its end or to the first message that is refused or cannot be stored. */
    method Receive(ghost before: Store, messages: seq<Message>, chunker: StreamingChunker, f: Faults)
        returns (ok: bool, p: Progress, total: nat)
      requires Valid() && cas.Value() == before && chunker.Valid() && chunker.config == chunking
      requires chunker.fed == [] && chunker.emitted == []
      modifies cas, chunker
      ensures Tracks(c, before, cas.Value(), p)
      ensures ok ==> chunker.Valid() && chunker.fed == PayloadOf(messages) && chunker.emitted == p.stored
      ensures ok ==> total == |PayloadOf(messages)| && total <= MAX_FILE_SIZE && InOrder(messages) && HasMetadata(messages)
      ensures Acceptable(messages) && NoFaults(f) ==> ok
    {
      hide Tracks, Acceptable, NoFaults, Settings.Valid, PayloadOf, Taken, InOrder, HasMetadata;
      NothingTracked(c, before);
      NothingTaken(messages);
      var hasMetadata := false;
      p, total := NOTHING, 0;
      for n := 0 to |messages|
        invariant Tracks(c, before, cas.Value(), p)
        invariant chunker.Valid() && chunker.fed == PayloadOf(messages[..n]) && chunker.emitted == p.stored
        invariant Taken(messages, n, hasMetadata, total) && |chunker.fed| == total
      {
        TakeOne(messages, n, hasMetadata, total);
        match messages[n]
        case Broken =>
          return false, p, total;
        case Metadata =>
          if hasMetadata || total > 0 {
            return false, p, total;
          }
          hasMetadata := true;
        case Piece(data) =>
          if !hasMetadata || total + |data| > MAX_FILE_SIZE {
            return false, p, total;
          }
          total := total + |data|;
          var stored, next := ReceivePiece(before, p, data, chunker, f);
          p := next;
          if !stored {
            return false, p, total;
          }
        case Empty =>
      }
      AllTaken(messages, hasMetadata, total);
      ok := hasMetadata;
    }

    /** Stores the manifest that lists the upload's chunks. */
    method StoreManifest(ghost before: Store, p: Progress, total: U64, now: U64, f: Faults)
        returns (ok: bool, hash: string)
      requires Valid() && Tracks(c, before, cas.Value(), p)
      modifies cas
      ensures !ok ==> Tracks(c, before, cas.Value(), p)
      ensures ok ==> IsManifestOf(c, json, before, cas.Value(), p, total, now, hash) && !f.jsonFails
      ensures NoFaults(f) ==> ok
    {
      hide Tracks, AfterPut, IsManifestOf;
      if f.jsonFails {
        return false, "";
      }
      var data := json.write(FileManifest(total, p.refs, now));
      ManifestPut(c, json, before, cas.Value(), p, total, now, f.puts(|p.stored|));
      PutHash(c, cas.Value(), data, f.puts(|p.stored|));
      var r := cas.Put(data, f.puts(|p.stored|));
      ok, hash := r.Stored?, if r.Stored? then r.hash else "";
    }

    /** A whole upload. It is accepted only for an acceptable stream, and then the store holds
        the chunks of exactly the bytes sent, under a manifest of them; otherwise everything
        it did is rolled back from the store `failed` at which it stopped, but for those of
        its objects, `left`, that could not be deleted. */
    method PutFile(messages: seq<Message>, now: U64, f: Faults)
        returns (r: Answer, ghost failed: Store, ghost p: Progress, ghost left: seq<string>, ghost chunks: seq<Chunk>)
      requires Valid()
      modifies cas
      ensures Acceptable(messages) && NoFaults(f) ==> r.Accepted?
      ensures r.Accepted? ==> Acceptable(messages) && r.totalSize == |PayloadOf(messages)| && !f.jsonFails
      ensures r.Accepted? ==> IsUploaded(c, chunking, json, old(cas.Value()), cas.Value(), PayloadOf(messages), chunks, now,
                                         r.manifestHash)
      ensures r.Rejected? ==> TakenBack(c, old(cas.Value()), failed, p, f.deletes, cas.Value(), left)
      ensures r.Rejected? && NoStaleEntry(c, old(cas.Value())) && Counted(old(cas.Value()))
              && (forall i: nat :: !f.deletes(i).compressedStays && !f.deletes(i).plainStays) ==>
                left == []
    {
      hide Tracks, NoFaults, InOrder, IsUploaded, IsManifestOf, TakenBack, NoStaleEntry, Counted, Settings.Valid;
      ghost var before := cas.Value();
      left, chunks := [], [];
      var chunker := new StreamingChunker(chunking);
      var received, first, total := Receive(before, messages, chunker, f);
      failed, p := cas.Value(), first;
      if !received || total == 0 {
        left := RollbackPutFileFailure(before, first, f);
        return Rejected, failed, p, left, chunks;
      }
      var last := chunker.Finish();
      ChunksFit(chunking, PayloadOf(messages), chunker.emitted, last);
      var ok, all := StoreChunks(before, first, last, f);
      failed, p := cas.Value(), all;
      if !ok {
        left := RollbackPutFileFailure(before, all, f);
        return Rejected, failed, p, left, chunks;
      }
      chunks := all.stored;
      var done, hash := StoreManifest(before, all, total, now, f);
      failed := cas.Value();
      if !done {
        left := RollbackPutFileFailure(before, all, f);
        return Rejected, failed, p, left, chunks;
      }
      UploadIsComplete(c, chunking, json, before, cas.Value(), PayloadOf(messages), all, now, hash);
      r := Accepted(hash, total, |all.refs|);
    }

    /** Sends the file behind a manifest; stops at anything that does not fit. */
    method GetFile(manifestHash: string) returns (complete: bool, sent: seq<Bytes>)
      requires Valid()
      ensures complete ==> exists m :: ReadsAs(c, json, cas.Value(), manifestHash, m, sent)
      ensures forall m, parts :: ReadsAs(c, json, cas.Value(), manifestHash, m, parts) ==> complete && sent == parts
    {
      sent := [];
      var found := cas.Read(manifestHash);
      if !found.Data? {
        return false, sent;
      }
      var parsed := json.parse(found.data);
      if parsed.None? {
        return false, sent;
      }
      var manifest := parsed.value;
      var checked := Validate(manifest);
      if !checked.Pass? {
        return false, sent;
      }
      hide TilesFile, Get, Settings.Valid;
      for i := 0 to |manifest.chunks|
        invariant |sent| == i
        invariant forall j :: 0 <= j < i ==>
          Get(c, cas.Value(), manifest.chunks[j].hash) == Data(sent[j]) && |sent[j]| == manifest.chunks[j].size
      {
        var chunk := cas.Read(manifest.chunks[i].hash);
        if !chunk.Data? || |chunk.data| != manifest.chunks[i].size {
          return false, sent;
        }
        sent := sent + [chunk.data];
      }
      complete := true;
      SameParts(c, json, cas.Value(), manifestHash, manifest, sent);
    }
  }

  lemma SameParts(c: Settings, j: Json, s: Store, hash: string, m: FileManifest, sent: seq<Bytes>)
    requires c.layout.Valid() && ReadsAs(c, j, s, hash, m, sent)
    ensures forall m', sent' :: ReadsAs(c, j, s, hash, m', sent') ==> m == m' && sent == sent'
  {
    hide TilesFile, Get;
    forall m', sent' | ReadsAs(c, j, s, hash, m', sent')
      ensures m == m' && sent == sent'
    {
      forall i | 0 <= i < |sent|
        ensures sent[i] == sent'[i]
      {
        assert Data(sent[i]) == Data(sent'[i]);
      }
    }
  }

  lemma EmittedFit(chunker: StreamingChunker, chunks: seq<Chunk>)
    requires chunker.Valid() && |chunker.fed| <= MAX_FILE_SIZE
    requires forall chunk :: chunk in chunks ==> chunk in chunker.emitted
    ensures forall chunk :: chunk in chunks ==> Fits(chunk) && chunk.length == |chunk.data|
  {
    CutsFit(chunker.config, chunker.fed, chunker.emitted, 0, chunker.totalOffset);
  }

  lemma ChunksFit(k: Config, file: Bytes, all: seq<Chunk>, chunks: seq<Chunk>)
    requires k.Valid() && IsChunkingOf(k, file, all) && |file| <= MAX_FILE_SIZE
    requires forall chunk :: chunk in chunks ==> chunk in all
    ensures forall chunk :: chunk in chunks ==> Fits(chunk) && chunk.length == |chunk.data|
  {
    CutsFit(k, file, all, 0, |file|);
  }

  lemma NothingTracked(c: Settings, before: Store)
    requires c.Valid()
    ensures Tracks(c, before, before, NOTHING)
  {
  }
}

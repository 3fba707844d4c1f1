/** Content-defined chunking: the batch chunker, the streaming chunker that
    works on a bounded buffer, and the proof that they produce the same chunks
    however the input is split. */
module Chunking {
  newtype byte = b: int | 0 <= b < 256

  type Bytes = seq<byte>

  datatype Chunk = Chunk(offset: nat, length: nat, data: Bytes, hash: string)

  /** Chunk sizes, the rolling hash of the FastCDC cut with the tests of its two
      masks, and the content hash. Every theorem holds for any of these functions. */
  datatype Config = Config(minSize: nat, avgSize: nat, maxSize: nat,
                           roll: (nat, byte) -> nat, hitsSmall: nat -> bool, hitsLarge: nat -> bool,
                           digest: Bytes -> string)
  {
    predicate Valid() {
      2 <= minSize <= avgSize <= maxSize < 0x1_0000_0000
    }

    function Threshold(): nat {
      maxSize * 2
    }
  }

  // ----- The cut -----

  /** Rolls the hash from `index`; the small mask applies before `center`, the
      large one after it. Returns the first position whose hash is hit, or `limit`. */
  function Scan(c: Config, b: Bytes, index: nat, center: nat, limit: nat, hash: nat): (cut: nat)
    requires index <= limit <= |b|
    ensures index <= cut <= limit
    decreases limit - index
  {
    if index == limit then limit
    else
      var h := c.roll(hash, b[index]);
      if (if index < center then c.hitsSmall(h) else c.hitsLarge(h)) then index
      else Scan(c, b, index + 1, center, limit, h)
  }

  function Limit(c: Config, n: nat): nat {
    if c.maxSize < n then c.maxSize else n
  }

  function Center(c: Config, n: nat): nat {
    if n <= c.maxSize && n < c.avgSize then n else c.avgSize
  }

  /** Length of the first chunk of `b`. */
  function Cut(c: Config, b: Bytes): (cut: nat)
    requires c.Valid() && |b| > 0
    ensures 0 < cut <= |b| && cut <= c.maxSize
  {
    if |b| <= c.minSize then |b|
    else Scan(c, b, c.minSize, Center(c, |b|), Limit(c, |b|), 0)
  }

  lemma {:induction false} ScanIgnoresTail(c: Config, b: Bytes, tail: Bytes, index: nat,
                                           center: nat, center': nat, limit: nat, limit': nat, hash: nat)
    requires index <= limit <= |b| && limit <= limit' <= |b + tail|
    requires center == center' || (limit <= center && limit <= center')
    requires Scan(c, b, index, center, limit, hash) < limit || limit == limit'
    ensures Scan(c, b + tail, index, center', limit', hash) == Scan(c, b, index, center, limit, hash)
    decreases limit - index
  {
    if index < limit {
      var h := c.roll(hash, b[index]);
      assert (b + tail)[index] == b[index];
      if !(if index < center then c.hitsSmall(h) else c.hitsLarge(h)) {
        ScanIgnoresTail(c, b, tail, index + 1, center, center', limit, limit', h);
      }
    }
  }

  /** Locality: a cut strictly inside the data does not move when data follows. */
  lemma CutIsLocal(c: Config, b: Bytes, tail: Bytes)
    requires c.Valid() && |b| > 0
    requires Cut(c, b) < |b|
    ensures Cut(c, b + tail) == Cut(c, b)
  {
    var n, n' := |b|, |b + tail|;
    ScanIgnoresTail(c, b, tail, c.minSize, Center(c, n), Center(c, n'), Limit(c, n), Limit(c, n'), 0);
  }

  /** The rolling hash after the bytes from the minimum size to `i`, that one included. */
  function HashAt(c: Config, b: Bytes, from: nat, i: nat): nat
    requires from <= i < |b|
    decreases i
  {
    c.roll(if i == from then 0 else HashAt(c, b, from, i - 1), b[i])
  }

  /** The hash at a position is hit by the mask that applies there: the small one below the
      average size, the large one from it on. */
  predicate Hit(c: Config, b: Bytes, i: nat)
    requires c.Valid() && c.minSize <= i < |b|
  {
    var h := HashAt(c, b, c.minSize, i);
    if i < c.avgSize then c.hitsSmall(h) else c.hitsLarge(h)
  }

  lemma {:induction false} ScanFinds(c: Config, b: Bytes, index: nat, center: nat, limit: nat, hash: nat)
    requires c.Valid() && c.minSize <= index <= limit <= |b|
    requires center == c.avgSize || (limit <= center && limit <= c.avgSize)
    requires hash == if index == c.minSize then 0 else HashAt(c, b, c.minSize, index - 1)
    ensures var cut := Scan(c, b, index, center, limit, hash);
            && (forall i :: index <= i < cut ==> !Hit(c, b, i))
            && (cut < limit ==> Hit(c, b, cut))
    decreases limit - index
  {
    if index < limit {
      var h := c.roll(hash, b[index]);
      assert h == HashAt(c, b, c.minSize, index);
      if !(if index < center then c.hitsSmall(h) else c.hitsLarge(h)) {
        ScanFinds(c, b, index + 1, center, limit, h);
      }
    }
  }

  /** A chunk ends with the data if that is no longer than the minimum size, and else at the first
      position from the minimum size on whose hash is hit, but not beyond the maximum size. */
  lemma CutExactly(c: Config, b: Bytes)
    requires c.Valid() && |b| > 0
    ensures var cut := Cut(c, b);
            && (|b| <= c.minSize ==> cut == |b|)
            && (|b| > c.minSize ==>
                  && c.minSize <= cut <= c.maxSize
                  && (forall i :: c.minSize <= i < cut ==> !Hit(c, b, i))
                  && (cut == c.maxSize || cut == |b| || Hit(c, b, cut)))
  {
    hide Scan, Hit;
    if |b| > c.minSize {
      ScanFinds(c, b, c.minSize, Center(c, |b|), Limit(c, |b|), 0);
    }
  }

  // ----- What a chunking is -----

  function ChunkAt(c: Config, data: Bytes, offset: nat): Chunk {
    Chunk(offset, |data|, data, c.digest(data))
  }

  function End(chunk: Chunk): nat {
    chunk.offset + chunk.length
  }

  /** `chunk` is what the cut takes from `file` at the chunk's offset. */
  ghost predicate IsCutOf(c: Config, file: Bytes, chunk: Chunk)
    requires c.Valid()
  {
    && chunk.offset < |file|
    && chunk == ChunkAt(c, file[chunk.offset..chunk.offset + Cut(c, file[chunk.offset..])], chunk.offset)
  }

  /** `chunks` are the consecutive cuts of `file` that lead from `start` to `end`. */
  ghost predicate CutsBetween(c: Config, file: Bytes, chunks: seq<Chunk>, start: nat, end: nat)
    requires c.Valid()
    decreases |chunks|
  {
    if chunks == [] then start == end <= |file|
    else
      && chunks[0].offset == start
      && IsCutOf(c, file, chunks[0])
      && CutsBetween(c, file, chunks[1..], End(chunks[0]), end)
  }

  ghost predicate IsChunkingOf(c: Config, file: Bytes, chunks: seq<Chunk>)
    requires c.Valid()
  {
    CutsBetween(c, file, chunks, 0, |file|)
  }

  function Payload(chunks: seq<Chunk>): Bytes {
    if chunks == [] then [] else chunks[0].data + Payload(chunks[1..])
  }

  function Concat(parts: seq<Bytes>): Bytes {
    if parts == [] then [] else Concat(parts[..|parts| - 1]) + parts[|parts| - 1]
  }

  lemma NextCut(c: Config, file: Bytes, position: nat)
    requires c.Valid() && position < |file|
    ensures var k := Cut(c, file[position..]);
            IsCutOf(c, file, ChunkAt(c, file[position..position + k], position))
  {
  }

  lemma CutIsNotEmpty(c: Config, file: Bytes, chunk: Chunk)
    requires c.Valid() && IsCutOf(c, file, chunk)
    ensures chunk.offset < End(chunk) <= |file| && chunk.length <= c.maxSize
    ensures chunk.data == file[chunk.offset..End(chunk)] && chunk.hash == c.digest(chunk.data)
  {
  }

  lemma CutIsUnique(c: Config, file: Bytes, chunk: Chunk, chunk': Chunk)
    requires c.Valid() && IsCutOf(c, file, chunk) && IsCutOf(c, file, chunk') && chunk.offset == chunk'.offset
    ensures chunk == chunk'
  {
  }

  lemma {:induction false} CutsAreOrdered(c: Config, file: Bytes, chunks: seq<Chunk>, start: nat, end: nat)
    requires c.Valid() && CutsBetween(c, file, chunks, start, end)
    ensures start <= end <= |file| && (chunks != [] ==> start < end)
    decreases |chunks|
  {
    hide IsCutOf;
    if chunks != [] {
      CutIsNotEmpty(c, file, chunks[0]);
      CutsAreOrdered(c, file, chunks[1..], End(chunks[0]), end);
    }
  }

  /** Cuts never depend on what follows: a file has only one chunking. */
  lemma {:induction false} ChunkingIsUnique(c: Config, file: Bytes, chunks: seq<Chunk>, chunks': seq<Chunk>, start: nat)
    requires c.Valid()
    requires CutsBetween(c, file, chunks, start, |file|) && CutsBetween(c, file, chunks', start, |file|)
    ensures chunks == chunks'
    decreases |chunks|
  {
    hide IsCutOf;
    CutsAreOrdered(c, file, chunks, start, |file|);
    CutsAreOrdered(c, file, chunks', start, |file|);
    if chunks != [] {
      CutIsUnique(c, file, chunks[0], chunks'[0]);
      ChunkingIsUnique(c, file, chunks[1..], chunks'[1..], End(chunks[0]));
      assert chunks == [chunks[0]] + chunks[1..] && chunks' == [chunks'[0]] + chunks'[1..];
    }
  }

  /** Every chunk but the last is of at least the minimum size, and none is larger than the
      maximum; one that is smaller than that and not the last ends where a mask hits. */
  lemma {:induction false} ChunkSizes(c: Config, file: Bytes, chunks: seq<Chunk>, start: nat, i: nat)
    requires c.Valid() && CutsBetween(c, file, chunks, start, |file|) && i < |chunks|
    ensures chunks[i].offset < End(chunks[i]) <= |file| && chunks[i].length <= c.maxSize
    ensures i + 1 < |chunks| ==>
              && c.minSize <= chunks[i].length && End(chunks[i]) == chunks[i + 1].offset < |file|
              && (chunks[i].length == c.maxSize || Hit(c, file[chunks[i].offset..], chunks[i].length))
    decreases |chunks|
  {
    hide Cut, Hit;
    CutIsNotEmpty(c, file, chunks[0]);
    if i > 0 {
      ChunkSizes(c, file, chunks[1..], End(chunks[0]), i - 1);
    } else if |chunks| > 1 {
      CutIsNotEmpty(c, file, chunks[1]);
      CutExactly(c, file[chunks[0].offset..]);
      CutLength(c, file, chunks[0]);
    }
  }

  lemma CutLength(c: Config, file: Bytes, chunk: Chunk)
    requires c.Valid() && IsCutOf(c, file, chunk)
    ensures chunk.length == Cut(c, file[chunk.offset..])
  {
  }

  /** The chunks of a file hold its bytes, in order and without gaps. */
  lemma {:induction false} PayloadIsCutRange(c: Config, file: Bytes, chunks: seq<Chunk>, start: nat, end: nat)
    requires c.Valid() && CutsBetween(c, file, chunks, start, end)
    ensures start <= end <= |file| && Payload(chunks) == file[start..end]
    decreases |chunks|
  {
    hide IsCutOf;
    CutsAreOrdered(c, file, chunks, start, end);
    if chunks != [] {
      var next := End(chunks[0]);
      CutIsNotEmpty(c, file, chunks[0]);
      CutsAreOrdered(c, file, chunks[1..], next, end);
      PayloadIsCutRange(c, file, chunks[1..], next, end);
      assert file[start..end] == file[start..next] + file[next..end];
    }
  }

  /** A cut that ends inside the file stays a cut when bytes are appended. */
  lemma CutSurvivesAppend(c: Config, file: Bytes, tail: Bytes, chunk: Chunk)
    requires c.Valid() && IsCutOf(c, file, chunk) && End(chunk) < |file|
    ensures IsCutOf(c, file + tail, chunk)
  {
    var rest := file[chunk.offset..];
    CutIsLocal(c, rest, tail);
    assert (file + tail)[chunk.offset..] == rest + tail;
    assert (file + tail)[chunk.offset..End(chunk)] == file[chunk.offset..End(chunk)];
  }

  lemma {:induction false} CutsSurviveAppend(c: Config, file: Bytes, tail: Bytes, chunks: seq<Chunk>, start: nat, end: nat)
    requires c.Valid() && CutsBetween(c, file, chunks, start, end)
    requires chunks == [] || end < |file|
    ensures CutsBetween(c, file + tail, chunks, start, end)
    decreases |chunks|
  {
    hide IsCutOf;
    if chunks != [] {
      CutsAreOrdered(c, file, chunks[1..], End(chunks[0]), end);
      CutSurvivesAppend(c, file, tail, chunks[0]);
      CutsSurviveAppend(c, file, tail, chunks[1..], End(chunks[0]), end);
    }
  }

  /** The cut at the end of a run of cuts extends it. */
  lemma {:induction false} CutExtends(c: Config, file: Bytes, chunks: seq<Chunk>, start: nat, end: nat, chunk: Chunk)
    requires c.Valid() && CutsBetween(c, file, chunks, start, end)
    requires IsCutOf(c, file, chunk) && chunk.offset == end
    ensures CutsBetween(c, file, chunks + [chunk], start, End(chunk))
    decreases |chunks|
  {
    hide IsCutOf;
    if chunks == [] {
      CutIsNotEmpty(c, file, chunk);
      assert ([chunk])[1..] == [] && chunks + [chunk] == [chunk];
    } else {
      CutExtends(c, file, chunks[1..], End(chunks[0]), end, chunk);
      assert (chunks + [chunk])[1..] == chunks[1..] + [chunk];
    }
  }

  lemma Associative<T>(a: seq<T>, b: seq<T>, c: seq<T>)
    ensures a + (b + c) == a + b + c
  {
  }

  lemma SplitInside(b: Bytes, tail: Bytes, k: nat)
    requires k <= |b|
    ensures (b + tail)[k..] == b[k..] + tail
  {
  }

  /** The same step seen from a buffer that holds the file from `base` on. */
  lemma BufferedCutExtends(c: Config, file: Bytes, chunks: seq<Chunk>, base: nat, i: nat)
    requires c.Valid() && base + i < |file| && CutsBetween(c, file, chunks, 0, base + i)
    ensures var buffer := file[base..];
            var k := Cut(c, buffer[i..]);
            CutsBetween(c, file, chunks + [ChunkAt(c, buffer[i..i + k], base + i)], 0, base + i + k)
  {
    hide CutsBetween, IsCutOf, Cut;
    var buffer := file[base..];
    var k := Cut(c, buffer[i..]);
    assert buffer[i..] == file[base + i..] && buffer[i..i + k] == file[base + i..base + i + k];
    NextCut(c, file, base + i);
    CutExtends(c, file, chunks, 0, base + i, ChunkAt(c, file[base + i..base + i + k], base + i));
  }

  // ----- Batch chunking -----

  lemma NothingCut(c: Config, data: Bytes)
    requires c.Valid()
    ensures CutsBetween(c, data, [], 0, 0)
  {
  }

  method ChunkBatch(c: Config, data: Bytes) returns (chunks: seq<Chunk>)
    requires c.Valid()
    ensures IsChunkingOf(c, data, chunks)
  {
    hide CutsBetween, IsCutOf, Cut;
    chunks := [];
    var position := 0;
    NothingCut(c, data);
    while position < |data|
      invariant position <= |data|
      invariant CutsBetween(c, data, chunks, 0, position)
    {
      var k := Cut(c, data[position..]);
      var chunk := ChunkAt(c, data[position..position + k], position);
      NextCut(c, data, position);
      CutExtends(c, data, chunks, 0, position, chunk);
      chunks := chunks + [chunk];
      position := position + k;
    }
  }

  // ----- Streaming -----

  class StreamingChunker {
    const config: Config
    const threshold: nat
    var buffer: Bytes
    var totalOffset: nat
    /** Everything fed so far, and every chunk handed out so far. */
    ghost var fed: Bytes
    ghost var emitted: seq<Chunk>

    /** Between calls the buffer holds less than twice the maximum chunk size,
        and it is exactly the part of the input that no chunk covers yet. */
    ghost predicate Valid()
      reads this
    {
      && Consistent()
      && threshold == config.Threshold()
      && |buffer| < threshold
    }

    ghost predicate Consistent()
      reads this
    {
      && config.Valid()
      && totalOffset <= |fed|
      && CutsBetween(config, fed, emitted, 0, totalOffset)
      && (emitted == [] || totalOffset < |fed|)
      && buffer == fed[totalOffset..]
    }

    constructor (config: Config)
      requires config.Valid()
      ensures Valid() && this.config == config && fed == [] && emitted == []
    {
      this.config := config;
      threshold := config.Threshold();
      buffer := [];
      totalOffset := 0;
      fed, emitted := [], [];
    }

    /** The chunks handed out are cuts of the whole input, whatever is fed later. */
    method Feed(data: Bytes) returns (chunks: seq<Chunk>)
      requires Valid()
      modifies this
      ensures Valid()
      ensures fed == old(fed) + data && emitted == old(emitted) + chunks
      ensures |old(buffer)| + |data| < threshold ==> chunks == [] && buffer == old(buffer) + data
    {
      hide CutsBetween;
      CutsSurviveAppend(config, fed, data, emitted, 0, totalOffset);
      SplitInside(fed, data, totalOffset);
      buffer := buffer + data;
      fed := fed + data;
      if |buffer| < threshold {
        return [];
      }
      chunks := ProcessBuffer(false);
    }

    /** Consumes the chunker: with the last chunks, the output is the chunking of the input. */
    method Finish() returns (chunks: seq<Chunk>)
      requires Valid()
      modifies this
      ensures fed == old(fed) && emitted == old(emitted) + chunks
      ensures IsChunkingOf(config, fed, emitted)
    {
      chunks := ProcessBuffer(true);
    }

    method ProcessBuffer(isFinal: bool) returns (chunks: seq<Chunk>)
      requires Consistent()
      modifies this
      ensures fed == old(fed) && emitted == old(emitted) + chunks
      ensures isFinal ==> IsChunkingOf(config, fed, emitted)
      ensures !isFinal ==> Consistent() && |buffer| <= config.maxSize
    {
      chunks := [];
      var lastEnd := 0;
      ghost var all := emitted;
      hide CutsBetween, IsCutOf, Cut;
      while lastEnd < |buffer|
        invariant lastEnd <= |buffer|
        invariant unchanged(this)
        invariant all == emitted + chunks
        invariant CutsBetween(config, fed, all, 0, totalOffset + lastEnd)
        invariant all == [] || isFinal || lastEnd < |buffer|
      {
        BufferedCutExtends(config, fed, all, totalOffset, lastEnd);
        var k := Cut(config, buffer[lastEnd..]);
        if !isFinal && lastEnd + k >= |buffer| {
          break;
        }
        var chunk := ChunkAt(config, buffer[lastEnd..lastEnd + k], totalOffset + lastEnd);
        Associative(emitted, chunks, [chunk]);
        chunks, all := chunks + [chunk], all + [chunk];
        lastEnd := lastEnd + k;
      }
      assert buffer[lastEnd..] == fed[totalOffset + lastEnd..];
      emitted := all;
      totalOffset := totalOffset + lastEnd;
      buffer := buffer[lastEnd..];
    }
  }

  /** Feeds the parts one by one, then finishes, as an upload does. */
  method ChunkStream(c: Config, parts: seq<Bytes>) returns (chunks: seq<Chunk>)
    requires c.Valid()
    ensures IsChunkingOf(c, Concat(parts), chunks)
  {
    var chunker := new StreamingChunker(c);
    chunks := [];
    for i := 0 to |parts|
      invariant chunker.Valid() && chunker.config == c && fresh(chunker)
      invariant chunker.fed == Concat(parts[..i]) && chunker.emitted == chunks
    {
      var more := chunker.Feed(parts[i]);
      chunks := chunks + more;
      assert parts[..i + 1][..i] == parts[..i];
    }
    assert parts[..|parts|] == parts;
    var last := chunker.Finish();
    chunks := chunks + last;
  }

  /** Main result: streamed in any pieces or chunked at once, a file yields the
      same chunks, and their payload is the file. */
  lemma StreamingEqualsBatch(c: Config, parts: seq<Bytes>, streamed: seq<Chunk>, batch: seq<Chunk>)
    requires c.Valid()
    requires IsChunkingOf(c, Concat(parts), streamed) && IsChunkingOf(c, Concat(parts), batch)
    ensures streamed == batch && Payload(streamed) == Concat(parts)
  {
    ChunkingIsUnique(c, Concat(parts), streamed, batch, 0);
    PayloadIsCutRange(c, Concat(parts), streamed, 0, |Concat(parts)|);
  }
}

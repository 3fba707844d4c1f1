/** The manifest that lists a file's chunks, and the check it must pass before
    the file is read back. */
module Manifest {
  const MAX_U64: nat := 0xffff_ffff_ffff_ffff
  const HASH_LENGTH: nat := 64

  type U64 = n: nat | n <= MAX_U64
  type U32 = n: nat | n <= 0xffff_ffff

  datatype ChunkRef = ChunkRef(hash: string, size: U32, offset: U64)

  datatype FileManifest = FileManifest(size: U64, chunks: seq<ChunkRef>, createdAt: U64)

  datatype ManifestError = InvalidHash(index: nat) | ZeroSize(index: nat) | WrongOffset(index: nat)
                         | Overflow(index: nat) | WrongTotal

  datatype Outcome = Pass | Fail(error: ManifestError)

  predicate IsHexDigit(c: char) {
    '0' <= c <= '9' || 'a' <= c <= 'f' || 'A' <= c <= 'F'
  }

  predicate IsValidHash(hash: string) {
    |hash| == HASH_LENGTH && forall i :: 0 <= i < |hash| ==> IsHexDigit(hash[i])
  }

  lemma HexDigitsAre(c: char)
    ensures IsHexDigit(c) <==> c in "0123456789abcdefABCDEF"
  {
    var digits := "0123456789abcdefABCDEF";
    if IsHexDigit(c) {
      var k := if c <= '9' then c as int - '0' as int
               else if c <= 'F' then c as int - 'A' as int + 16 else c as int - 'a' as int + 10;
      assert digits[k] == c;
    }
  }

  /** A hash is valid if and only if it consists of 64 hexadecimal digits of either case. */
  lemma ValidHashExactly(hash: string)
    ensures IsValidHash(hash) <==> |hash| == 64 && forall i :: 0 <= i < |hash| ==> hash[i] in "0123456789abcdefABCDEF"
  {
    hide IsHexDigit;
    forall i | 0 <= i < |hash|
      ensures IsHexDigit(hash[i]) <==> hash[i] in "0123456789abcdefABCDEF"
    {
      HexDigitsAre(hash[i]);
    }
  }

  function End(chunk: ChunkRef): nat {
    chunk.offset + chunk.size
  }

  predicate Covers(chunk: ChunkRef, position: nat) {
    chunk.offset <= position < End(chunk)
  }

  ghost predicate IsCovered(chunks: seq<ChunkRef>, n: nat, position: nat)
    requires n <= |chunks|
  {
    exists i :: 0 <= i < n && Covers(chunks[i], position)
  }

  /** Independent meaning of a good manifest: well-formed, non-empty chunks in
      file order that never overlap and together cover exactly `[0, size)`. */
  ghost predicate TilesFile(m: FileManifest) {
    && (forall i :: 0 <= i < |m.chunks| ==> IsValidHash(m.chunks[i].hash) && m.chunks[i].size > 0)
    && (forall i, j :: 0 <= i < j < |m.chunks| ==> End(m.chunks[i]) <= m.chunks[j].offset)
    && (forall i :: 0 <= i < |m.chunks| ==> End(m.chunks[i]) <= m.size)
    && (forall p: nat :: p < m.size ==> IsCovered(m.chunks, |m.chunks|, p))
  }

  /** The first `n` chunks tile `[0, end)`. */
  ghost predicate TiledUpTo(chunks: seq<ChunkRef>, n: nat, end: nat)
    requires n <= |chunks|
  {
    && (forall i :: 0 <= i < n ==> IsValidHash(chunks[i].hash) && chunks[i].size > 0)
    && (forall i :: 0 <= i < n ==> End(chunks[i]) <= end)
    && (forall i, j :: 0 <= i < j < n ==> End(chunks[i]) <= chunks[j].offset)
    && (forall p: nat :: p < end ==> IsCovered(chunks, n, p))
  }

  /** In a tiling, the next chunk starts where the tiled part ends. */
  lemma NextOffsetIsForced(m: FileManifest, n: nat, end: nat)
    requires TilesFile(m) && n < |m.chunks| && TiledUpTo(m.chunks, n, end)
    requires n == 0 ==> end == 0
    requires n > 0 ==> End(m.chunks[n - 1]) == end
    ensures m.chunks[n].offset == end
  {
    var next := m.chunks[n];
    assert next.offset >= end;
    assert IsCovered(m.chunks, |m.chunks|, end);
    assert forall k :: 0 <= k < n ==> !Covers(m.chunks[k], end);
    assert forall k :: n < k < |m.chunks| ==> !Covers(m.chunks[k], end);
  }

  lemma TilingEndsAtSize(m: FileManifest, end: nat)
    requires TilesFile(m) && TiledUpTo(m.chunks, |m.chunks|, end)
    requires m.chunks == [] ==> end == 0
    requires m.chunks != [] ==> End(m.chunks[|m.chunks| - 1]) == end
    ensures end == m.size
  {
    var n := |m.chunks|;
    assert n > 0 ==> End(m.chunks[n - 1]) <= m.size;
    assert end < m.size ==> IsCovered(m.chunks, n, end);
  }

  lemma ExtendTiling(chunks: seq<ChunkRef>, n: nat, end: nat)
    requires n < |chunks| && TiledUpTo(chunks, n, end)
    requires IsValidHash(chunks[n].hash) && chunks[n].size > 0 && chunks[n].offset == end
    ensures TiledUpTo(chunks, n + 1, end + chunks[n].size)
  {
    var n', end' := n + 1, end + chunks[n].size;
    forall p: nat | p < end'
      ensures IsCovered(chunks, n', p)
    {
      if p < end {
        assert IsCovered(chunks, n, p);
        var i :| 0 <= i < n && Covers(chunks[i], p);
      } else {
        assert Covers(chunks[n], p);
      }
    }
  }

  /** The first chunks tile the file up to where the last of them ends. */
  ghost predicate CheckedUpTo(m: FileManifest, n: nat, expected: nat) {
    && n <= |m.chunks| && TiledUpTo(m.chunks, n, expected) && expected <= MAX_U64
    && (if n == 0 then expected == 0 else End(m.chunks[n - 1]) == expected)
  }

  lemma NothingChecked(m: FileManifest)
    ensures CheckedUpTo(m, 0, 0)
  {
  }

  predicate PassesChecks(chunk: ChunkRef, expected: nat) {
    IsValidHash(chunk.hash) && chunk.size > 0 && chunk.offset == expected && expected + chunk.size <= MAX_U64
  }

  /** A chunk that passes every check extends the tiling; one that fails any spoils it. */
  lemma OneMoreChecked(m: FileManifest, n: nat, expected: nat)
    requires n < |m.chunks| && CheckedUpTo(m, n, expected)
    ensures if PassesChecks(m.chunks[n], expected) then CheckedUpTo(m, n + 1, expected + m.chunks[n].size) else !TilesFile(m)
  {
    hide TiledUpTo, IsValidHash;
    var chunk := m.chunks[n];
    assert TilesFile(m) ==> End(chunk) <= m.size;
    if PassesChecks(chunk, expected) {
      ExtendTiling(m.chunks, n, expected);
    } else if TilesFile(m) {
      NextOffsetIsForced(m, n, expected);
    }
  }

  lemma AllChecked(m: FileManifest, expected: nat)
    requires CheckedUpTo(m, |m.chunks|, expected)
    ensures TilesFile(m) <==> expected == m.size
  {
    hide IsValidHash, IsCovered;
    if TilesFile(m) {
      TilingEndsAtSize(m, expected);
    }
  }

  /** The loop of `validate` accepts exactly the manifests that tile their file. */
  method Validate(m: FileManifest) returns (result: Outcome)
    ensures result.Pass? <==> TilesFile(m)
  {
    hide TilesFile, CheckedUpTo, IsValidHash;
    NothingChecked(m);
    var expected: nat := 0;
    for index := 0 to |m.chunks|
      invariant CheckedUpTo(m, index, expected)
    {
      var chunk := m.chunks[index];
      OneMoreChecked(m, index, expected);
      if !IsValidHash(chunk.hash) {
        return Fail(InvalidHash(index));
      }
      if chunk.size == 0 {
        return Fail(ZeroSize(index));
      }
      if chunk.offset != expected {
        return Fail(WrongOffset(index));
      }
      if expected + chunk.size > MAX_U64 {
        return Fail(Overflow(index));
      }
      expected := expected + chunk.size;
    }
    AllChecked(m, expected);
    if expected != m.size {
      return Fail(WrongTotal);
    }
    return Pass;
  }
}

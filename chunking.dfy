/** How the sender cuts a file into chunks: each read takes the
    `Blob.slice` of `CHUNK_SIZE` bytes starting at the current offset,
    and the offset always grows by `CHUNK_SIZE`, whatever the slice's
    actual length (client/src/App.jsx:174-175, 187, 204-207). */
module Chunking {
  import opened Protocol

  /** The fixed chunk length, 16 KiB. */
  const CHUNK_SIZE: nat := 16384

  function Min(a: int, b: int): int { if a <= b then a else b }

  /** `Blob.slice(start, end)` for non-negative positions: both ends are
      clamped to the blob's length and an inverted range is empty. */
  function Slice(b: seq<byte>, start: nat, end: nat): (r: seq<byte>)
    ensures |r| == if Min(end, |b|) <= Min(start, |b|) then 0 else Min(end, |b|) - Min(start, |b|)
    ensures forall i :: 0 <= i < |r| ==> r[i] == b[start + i]
  {
    var lo := Min(start, |b|);
    var hi := Min(end, |b|);
    if hi <= lo then [] else b[lo..hi]
  }

  /** The number of chunks the sender emits for a file of `size` bytes:
      the smallest positive `n` with `n * CHUNK_SIZE >= size`. A zero-byte
      file still costs one (empty) chunk, because the first read happens
      before the offset is compared with the size. */
  function ChunkCount(size: nat): (n: nat)
    ensures n >= 1
    ensures n * CHUNK_SIZE >= size
    ensures n == 1 || (n - 1) * CHUNK_SIZE < size
  {
    if size == 0 then 1 else (size + CHUNK_SIZE - 1) / CHUNK_SIZE
  }

  /** `ChunkCount` is the only count with those properties, so a sender
      that stops at the first offset reaching the size has sent exactly
      `ChunkCount` chunks; an offset still short of the size comes before
      the last chunk. */
  lemma ChunkCountUnique(size: nat, m: nat)
    requires m >= 1 && m * CHUNK_SIZE >= size
    requires m == 1 || (m - 1) * CHUNK_SIZE < size
    ensures m == ChunkCount(size)
  {
  }

  lemma BeforeLastChunk(size: nat, k: nat)
    requires k * CHUNK_SIZE < size
    ensures k < ChunkCount(size)
    ensures (k + 1) * CHUNK_SIZE < size ==> k + 1 < ChunkCount(size)
  {
  }

  /** The payload of chunk `k`: the slice read at offset `k * CHUNK_SIZE`. */
  function ChunkAt(b: seq<byte>, k: nat): seq<byte>
  {
    Slice(b, k * CHUNK_SIZE, k * CHUNK_SIZE + CHUNK_SIZE)
  }

  /** The payloads of the first `n` chunks, in sending order. */
  function ChunkList(b: seq<byte>, n: nat): (r: seq<seq<byte>>)
    ensures |r| == n
    ensures forall k :: 0 <= k < n ==> r[k] == ChunkAt(b, k)
  {
    if n == 0 then [] else ChunkList(b, n - 1) + [ChunkAt(b, n - 1)]
  }

  /** Every chunk the sender reads lies inside the file: chunk `k` is the
      byte range `[k * CHUNK_SIZE, min((k + 1) * CHUNK_SIZE, size))`; all
      chunks but the last are full, and the last holds the remainder
      (nothing at all for an empty file). */
  lemma ChunkBounds(b: seq<byte>, k: nat)
    requires k < ChunkCount(|b|)
    ensures k * CHUNK_SIZE <= |b|
    ensures ChunkAt(b, k) == b[k * CHUNK_SIZE..Min((k + 1) * CHUNK_SIZE, |b|)]
    ensures k + 1 < ChunkCount(|b|) ==> |ChunkAt(b, k)| == CHUNK_SIZE
    ensures k + 1 == ChunkCount(|b|) ==> |ChunkAt(b, k)| == |b| - k * CHUNK_SIZE
  {
    var n := ChunkCount(|b|);
    assert k <= n - 1;
    assert k * CHUNK_SIZE <= (n - 1) * CHUNK_SIZE;
    var c := ChunkAt(b, k);
    var lo := k * CHUNK_SIZE;
    var hi := Min((k + 1) * CHUNK_SIZE, |b|);
    if k + 1 < n {
      assert (k + 1) * CHUNK_SIZE <= (n - 1) * CHUNK_SIZE;
    }
    assert |c| == hi - lo;
    assert forall i :: 0 <= i < |c| ==> c[i] == b[lo..hi][i];
  }

  /** The first `n` chunks, concatenated in order, are the file's prefix
      up to `n * CHUNK_SIZE` bytes: consecutive chunks are contiguous and
      never overlap. */
  lemma {:induction false} ConcatChunkList(b: seq<byte>, n: nat)
    ensures Concat(ChunkList(b, n)) == b[..Min(n * CHUNK_SIZE, |b|)]
  {
    if n > 0 {
      var k := n - 1;
      ConcatChunkList(b, k);
      ConcatSnoc(ChunkList(b, k), ChunkAt(b, k));
      var lo := Min(k * CHUNK_SIZE, |b|);
      var hi := Min(n * CHUNK_SIZE, |b|);
      assert ChunkList(b, n) == ChunkList(b, k) + [ChunkAt(b, k)];
      ChunkAtRange(b, k);
      PrefixSplit(b, lo, hi);
    }
  }

  /** Chunk `k` is the file's bytes from `k * CHUNK_SIZE` to
      `(k + 1) * CHUNK_SIZE`, both clamped to the file's length. */
  lemma ChunkAtRange(b: seq<byte>, k: nat)
    ensures ChunkAt(b, k) == b[Min(k * CHUNK_SIZE, |b|)..Min((k + 1) * CHUNK_SIZE, |b|)]
  {
  }

  lemma PrefixSplit(b: seq<byte>, lo: nat, hi: nat)
    requires lo <= hi <= |b|
    ensures b[..lo] + b[lo..hi] == b[..hi]
  {
  }

  /** Splitting a file into `ChunkCount` chunks and concatenating them in
      order gives back exactly the file: no byte is lost, repeated or
      reordered, even though the last chunk may be short. */
  lemma {:induction false} ChunksReassemble(b: seq<byte>)
    ensures Concat(ChunkList(b, ChunkCount(|b|))) == b
  {
    var n := ChunkCount(|b|);
    ConcatChunkList(b, n);
    assert Min(n * CHUNK_SIZE, |b|) == |b|;
    assert b[..|b|] == b;
  }

  /** A 40000-byte file: three chunks of 16384, 16384 and 7232 bytes. */
  lemma FortyThousandBytes(b: seq<byte>)
    requires |b| == 40000
    ensures ChunkCount(|b|) == 3
    ensures |ChunkAt(b, 0)| == 16384 && |ChunkAt(b, 1)| == 16384 && |ChunkAt(b, 2)| == 7232
  {
  }
}

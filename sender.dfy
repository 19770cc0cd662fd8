/** The sending side of a transfer, `transferFile` in client/src/App.jsx:
    announce the file, then read and send one chunk per `reader.onload`,
    pacing reads against the connection's buffered amount, and send `EOF`
    once the offset has reached the file size. The `FileReader` and
    `setTimeout` continuation chain is one iteration of a loop; the delay
    before the next read is returned rather than waited for. */
module Send {
  import opened Protocol
  import opened Chunking
  import opened Channel

  /** Above this many buffered bytes (10 MiB) the next read is delayed. */
  const HIGH_WATER_MARK: nat := 10 * 1024 * 1024

  /** The delay, in milliseconds, used above the high-water mark. */
  const BACKOFF_MS: nat := 100

  /** The delay before the next read: the backoff while more than
      `HIGH_WATER_MARK` bytes are buffered, otherwise none (next tick). */
  function Delay(bufferedAmount: nat): (ms: nat)
    ensures ms == 0 || ms == BACKOFF_MS
    ensures ms == BACKOFF_MS <==> bufferedAmount > HIGH_WATER_MARK
  {
    if bufferedAmount > HIGH_WATER_MARK then BACKOFF_MS else 0
  }

  /** More buffered bytes never shorten the delay; at exactly 10 MiB
      there is still no delay. */
  lemma DelayMonotone(a: nat, b: nat)
    requires a <= b
    ensures Delay(a) <= Delay(b)
    ensures Delay(10 * 1024 * 1024) == 0 && Delay(10 * 1024 * 1024 + 1) == BACKOFF_MS
  {
  }

  /** The progress percentage shown after a send: `Math.min(100, offset /
      size * 100)`. For an empty file the quotient is `Infinity` (the offset
      is positive by then), so the shown value is 100. */
  function SenderPercent(offset: nat, size: nat): (p: real)
    requires offset > 0
    ensures 0.0 < p <= 100.0
    ensures p == 100.0 <==> offset >= size
  {
    if size == 0 then 100.0
    else
      var q := (offset as real) / (size as real) * 100.0;
      assert offset < size ==> q < 100.0 by {
        if offset < size {
          assert (offset as real) / (size as real) < 1.0;
        }
      }
      assert offset >= size ==> q >= 100.0 by {
        if offset >= size {
          assert (offset as real) / (size as real) >= 1.0;
        }
      }
      if q < 100.0 then q else 100.0
  }

  /** A later offset never shows less progress. */
  lemma PercentMonotone(a: nat, b: nat, size: nat)
    requires 0 < a <= b
    ensures SenderPercent(a, size) <= SenderPercent(b, size)
  {
    if size > 0 {
      assert (a as real) / (size as real) <= (b as real) / (size as real);
    }
  }

  /** How many reads, from read `k` on and before read `n`, complete while
      the connection is open: the index of the first read that finds it
      closed, or `n` if none does. */
  function FirstClosed(env: nat -> Observation, k: nat, n: nat): (r: nat)
    requires k <= n
    ensures k <= r <= n
    ensures forall j :: k <= j < r ==> env(j).open
    ensures r < n ==> !env(r).open
    decreases n - k
  {
    if k == n || !env(k).open then k else FirstClosed(env, k + 1, n)
  }

  /** One `CHUNK` message for each of the first `n` chunks, in order. */
  function ChunkMessages(b: seq<byte>, n: nat): (r: seq<Message>)
    ensures |r| == n
  {
    if n == 0 then [] else ChunkMessages(b, n - 1) + [Chunk(ChunkAt(b, n - 1))]
  }

  /** What the sender puts on the connection after `sent` chunks, with
      or without the closing `EOF`. */
  function Transcript(file: File, sent: nat, finished: bool): seq<Message>
  {
    [Metadata(file.Announcement())] + ChunkMessages(file.bytes, sent) + (if finished then [Eof] else [])
  }

  /** The first message is the `METADATA` announcing the file's name, size
      and MIME type; the next `sent` are the chunks in file order; `EOF`
      appears once, as the very last message, and only if the transfer
      finished. */
  lemma TranscriptShape(file: File, sent: nat, finished: bool)
    ensures var r := Transcript(file, sent, finished);
      && |r| == 1 + sent + (if finished then 1 else 0)
      && r[0] == Metadata(file.Announcement())
      && (forall k :: 0 <= k < sent ==> r[k + 1] == Chunk(ChunkAt(file.bytes, k)))
      && (forall i :: 0 <= i < |r| ==> (r[i] == Eof <==> finished && i == |r| - 1))
  {
    var r := Transcript(file, sent, finished);
    var cm := ChunkMessages(file.bytes, sent);
    ChunkMessagesAt(file.bytes, sent);
    forall i | 1 <= i <= sent
      ensures r[i] == cm[i - 1]
    {
    }
    forall i | 0 <= i < |r|
      ensures r[i] == Eof <==> finished && i == |r| - 1
    {
      if 1 <= i <= sent {
        assert r[i] == Chunk(ChunkAt(file.bytes, i - 1));
      }
    }
  }

  lemma {:induction false} ChunkMessagesAt(b: seq<byte>, n: nat)
    ensures forall k :: 0 <= k < n ==> ChunkMessages(b, n)[k] == Chunk(ChunkAt(b, k))
  {
    if n > 0 {
      ChunkMessagesAt(b, n - 1);
    }
  }

  /** What `reader.onload` does after one read: stop, schedule the next
      read after a delay, or finish; with the progress it showed. */
  datatype Continuation =
    | Stopped
    | ReadNext(percent: real, delay: nat)
    | Finished(percent: real)

  /** `reader.onload` for the chunk `data` read at `offset`: on a
      connection that is no longer open it does nothing at all; otherwise
      it sends the chunk, advances the offset by `CHUNK_SIZE` (not by the
      length of `data`), and then either picks the delay before the next
      read or, once the offset has reached the size, sends `EOF`. */
  method OnLoad(conn: Connection, file: File, offset: nat, data: seq<byte>)
    returns (next: Continuation, newOffset: nat)
    modifies conn`log
    ensures !conn.open ==> next == Stopped && newOffset == offset && conn.log == old(conn.log)
    ensures conn.open ==> newOffset == offset + CHUNK_SIZE
    ensures conn.open && newOffset < file.Size() ==>
      next == ReadNext(SenderPercent(newOffset, file.Size()), Delay(conn.bufferedAmount))
      && conn.log == old(conn.log) + [Chunk(data)]
    ensures conn.open && newOffset >= file.Size() ==>
      next == Finished(SenderPercent(newOffset, file.Size()))
      && conn.log == old(conn.log) + [Chunk(data), Eof]
  {
    if !conn.open {
      return Stopped, offset;
    }
    conn.Send(Chunk(data));
    newOffset := offset + CHUNK_SIZE;
    var percent := SenderPercent(newOffset, file.Size());
    if newOffset < file.Size() {
      next := ReadNext(percent, Delay(conn.bufferedAmount));
    } else {
      conn.Send(Eof);
      next := Finished(percent);
    }
  }

  /** `transferFile(conn, file)`. `env(k)` is the connection's state when
      the `k`-th read completes. The sender announces the file and sends
      chunk after chunk until either the last chunk has gone, followed by
      `EOF`, or a read completes on a connection that is no longer open,
      after which it sends nothing more and leaves the offset where it was.
      Returns the number of chunks sent, the final offset and whether the
      transfer reached `complete`; the progress and the delay chosen after
      each send are those of `OnLoad`. */
  method TransferFile(conn: Connection, file: File, env: nat -> Observation)
    returns (sent: nat, offset: nat, complete: bool)
    modifies conn
    ensures sent == FirstClosed(env, 0, ChunkCount(file.Size()))
    ensures complete <==> sent == ChunkCount(file.Size())
    ensures offset == sent * CHUNK_SIZE
    ensures conn.log == old(conn.log) + Transcript(file, sent, complete)
    ensures var last := if complete then sent - 1 else sent;
      conn.open == env(last).open && conn.bufferedAmount == env(last).bufferedAmount
  {
    var size := file.Size();
    ghost var n := ChunkCount(size);
    ghost var log0 := conn.log;
    conn.Send(Metadata(file.Announcement()));
    offset, sent, complete := 0, 0, false;
    while true
      invariant sent < n
      invariant offset == sent * CHUNK_SIZE
      invariant sent == 0 || offset < size
      invariant forall j :: 0 <= j < sent ==> env(j).open
      invariant !complete
      invariant conn.log == log0 + Transcript(file, sent, false)
      invariant sent > 0 ==> conn.open == env(sent - 1).open && conn.bufferedAmount == env(sent - 1).bufferedAmount
      decreases n - sent
    {
      // readNextChunk: the slice at the current offset
      var data := Slice(file.bytes, offset, offset + CHUNK_SIZE);
      assert data == ChunkAt(file.bytes, sent);
      // the network moves on until the read completes
      conn.Observe(env(sent));
      var next;
      next, offset := OnLoad(conn, file, offset, data);
      match next
      case Stopped =>
        break;
      case ReadNext(_, _) =>
        LogAfterChunk(file, log0, sent);
        BeforeLastChunk(size, sent);
        sent := sent + 1;
      case Finished(_) =>
        LogAfterLastChunk(file, log0, sent);
        sent := sent + 1;
        ChunkCountUnique(size, sent);
        complete := true;
        break;
    }
    FirstClosedIs(env, sent, n);
  }

  /** Sending chunk `k` shows 100 exactly when it is the last chunk. */
  lemma LastChunkShows100(size: nat, k: nat)
    requires k < ChunkCount(size)
    ensures SenderPercent((k + 1) * CHUNK_SIZE, size) == 100.0 <==> k + 1 == ChunkCount(size)
  {
    if k + 1 < ChunkCount(size) {
      assert (k + 1) * CHUNK_SIZE <= (ChunkCount(size) - 1) * CHUNK_SIZE;
    }
  }

  /** The log after one more chunk, and after the last chunk with the
      closing `EOF`. */
  lemma LogAfterChunk(file: File, log0: seq<Message>, sent: nat)
    ensures log0 + Transcript(file, sent, false) + [Chunk(ChunkAt(file.bytes, sent))]
         == log0 + Transcript(file, sent + 1, false)
  {
    TranscriptGrows(file, sent);
  }

  lemma LogAfterLastChunk(file: File, log0: seq<Message>, sent: nat)
    ensures log0 + Transcript(file, sent, false) + [Chunk(ChunkAt(file.bytes, sent)), Eof]
         == log0 + Transcript(file, sent + 1, true)
  {
    TranscriptGrows(file, sent);
    TranscriptGrows(file, sent + 1);
    assert [Chunk(ChunkAt(file.bytes, sent)), Eof] == [Chunk(ChunkAt(file.bytes, sent))] + [Eof];
  }

  /** Sending one more chunk, or the closing `EOF`, extends the transcript
      by that one message. */
  lemma TranscriptGrows(file: File, sent: nat)
    ensures Transcript(file, sent + 1, false) == Transcript(file, sent, false) + [Chunk(ChunkAt(file.bytes, sent))]
    ensures Transcript(file, sent, true) == Transcript(file, sent, false) + [Eof]
  {
  }

  /** `FirstClosed` is determined by its contract: if the first `r`
      reads find the connection open and read `r` is the last one or finds
      it closed, then `r` is the count. */
  lemma FirstClosedIs(env: nat -> Observation, r: nat, n: nat)
    requires r <= n
    requires forall j :: 0 <= j < r ==> env(j).open
    requires r < n ==> !env(r).open
    ensures FirstClosed(env, 0, n) == r
  {
  }
}

/** The receiving side of a transfer: the connection's `data` handler and
    `downloadFile` in client/src/App.jsx. The handler keeps a chunk list,
    a received-byte counter and the last metadata seen, all updated in
    place; `EOF` turns the chunk list into the file that is offered for
    download. The handler checks no order and no size: a chunk is stored
    even before any metadata, `EOF` assembles whatever has arrived, and
    messages after completion are handled like any others. */
module Receive {
  import opened Protocol

  /** The receiver's status as far as the data handler sets it. `Idle`
      stands for whatever the connection set-up left there ('init',
      'connecting' or 'connected'). The 'error' status, set by the
      connection's error handler, is not modelled. */
  datatype Status = Idle | Receiving | Complete

  /** The receiver's buffers: the chunk list, the received-byte counter,
      the metadata slot and the status. */
  datatype ReceiverState = ReceiverState(
    chunks: seq<seq<byte>>,
    receivedSize: nat,
    meta: Option<Meta>,
    status: Status)

  /** The buffers when the receive page is opened. */
  const Initial: ReceiverState := ReceiverState([], 0, None, Idle)

  /** The buffers after one message, and the file offered for download
      while handling it, if any. */
  datatype Reaction = Reaction(next: ReceiverState, download: Option<Download>)

  /** `downloadFile`: without metadata nothing happens; otherwise the
      chunks, in arrival order, become the downloaded file under the
      metadata's name and MIME type, and the chunk list is emptied. The
      counter and the metadata stay as they are. */
  function Finalize(s: ReceiverState): Reaction
  {
    match s.meta
    case None => Reaction(s, None)
    case Some(m) => Reaction(s.(chunks := []), Some(Download(m.name, m.mime, Concat(s.chunks))))
  }

  /** The `data` handler, dispatching on the message's type. */
  function Step(s: ReceiverState, msg: Message): Reaction
  {
    match msg
    case Metadata(m) => Reaction(ReceiverState([], 0, Some(m), Receiving), None)
    case Chunk(d) => Reaction(s.(chunks := s.chunks + [d], receivedSize := s.receivedSize + |d|), None)
    case Eof =>
      var f := Finalize(s);
      Reaction(f.next.(status := Complete), f.download)
    case Other(_) => Reaction(s, None)
  }

  /** What each message does to the buffers. `METADATA` forgets every
      earlier chunk; a `CHUNK` is stored and counted whether or not any
      metadata has arrived; `EOF` completes whatever the state; other tags
      change nothing. Only `EOF` with metadata offers a file. */
  lemma StepCases(s: ReceiverState, msg: Message)
    ensures msg.Metadata? ==> Step(s, msg) == Reaction(ReceiverState([], 0, Some(msg.meta), Receiving), None)
    ensures msg.Chunk? ==>
      (&& Step(s, msg).next.chunks == s.chunks + [msg.data]
       && Step(s, msg).next.receivedSize == s.receivedSize + |msg.data|
       && Step(s, msg).next.meta == s.meta && Step(s, msg).next.status == s.status
       && Step(s, msg).download == None)
    ensures msg.Eof? ==>
      (&& Step(s, msg).next.status == Complete
       && Step(s, msg).next.receivedSize == s.receivedSize && Step(s, msg).next.meta == s.meta
       && (Step(s, msg).download.Some? <==> s.meta.Some?)
       && (s.meta.None? ==> Step(s, msg).next.chunks == s.chunks))
    ensures msg.Other? ==> Step(s, msg) == Reaction(s, None)
  {
  }

  /** The buffers after a sequence of messages, and every file offered
      for download on the way, in order. */
  datatype Outcome = Outcome(final: ReceiverState, downloads: seq<Download>)

  function Run(s: ReceiverState, msgs: seq<Message>): Outcome
    decreases |msgs|
  {
    if msgs == [] then Outcome(s, [])
    else
      var before := Run(s, msgs[..|msgs| - 1]);
      var r := Step(before.final, msgs[|msgs| - 1]);
      Outcome(r.next, before.downloads + (if r.download.Some? then [r.download.value] else []))
  }

  /** Handling one more message extends the run by that message. */
  lemma RunSnoc(s: ReceiverState, msgs: seq<Message>, m: Message)
    ensures var before := Run(s, msgs);
      var r := Step(before.final, m);
      Run(s, msgs + [m]) == Outcome(r.next, before.downloads + (if r.download.Some? then [r.download.value] else []))
  {
    assert (msgs + [m])[..|msgs|] == msgs;
  }

  /** Running two message sequences one after the other is running their
      concatenation: the handler keeps no state besides its buffers. */
  lemma {:induction false} RunAppend(s: ReceiverState, a: seq<Message>, b: seq<Message>)
    ensures Run(s, a + b).final == Run(Run(s, a).final, b).final
    ensures Run(s, a + b).downloads == Run(s, a).downloads + Run(Run(s, a).final, b).downloads
    decreases |b|
  {
    if b == [] {
      assert a + b == a;
    } else {
      var b' := b[..|b| - 1];
      var m := b[|b| - 1];
      assert b == b' + [m];
      assert a + b == (a + b') + [m];
      RunAppend(s, a, b');
      RunSnoc(s, a + b', m);
      RunSnoc(Run(s, a).final, b', m);
    }
  }

  /** The chunk payloads that arrived after the last `METADATA` (all of
      them if there was none). */
  function PayloadsSinceMetadata(msgs: seq<Message>): seq<seq<byte>>
  {
    if msgs == [] then []
    else
      var rest := PayloadsSinceMetadata(msgs[..|msgs| - 1]);
      match msgs[|msgs| - 1]
      case Metadata(_) => []
      case Chunk(d) => rest + [d]
      case _ => rest
    }

  /** Whether some `METADATA` has arrived. */
  predicate HasMetadata(msgs: seq<Message>)
  {
    exists i :: 0 <= i < |msgs| && msgs[i].Metadata?
  }

  /** Whether an `EOF` arrived after the last `METADATA`. */
  predicate EofSinceMetadata(msgs: seq<Message>)
  {
    if msgs == [] then false
    else
      match msgs[|msgs| - 1]
      case Metadata(_) => false
      case Eof => true
      case _ => EofSinceMetadata(msgs[..|msgs| - 1])
  }

  /** `s` is what remains of `t` after dropping some of its first elements. */
  predicate IsSuffix<T(==)>(s: seq<T>, t: seq<T>)
  {
    |s| <= |t| && s == t[|t| - |s|..]
  }

  /** The counter invariant. From a fresh page, `receivedSize` is the total
      length of the chunks that arrived since the last `METADATA` (or since
      the start), whether or not an `EOF` has flushed them; the chunk list
      holds the latest of those chunks in arrival order, all of them while
      no `EOF` has come since that `METADATA`. */
  lemma {:induction false} CounterInvariant(msgs: seq<Message>)
    ensures Run(Initial, msgs).final.receivedSize == TotalLength(PayloadsSinceMetadata(msgs))
    ensures IsSuffix(Run(Initial, msgs).final.chunks, PayloadsSinceMetadata(msgs))
    ensures !EofSinceMetadata(msgs) ==> Run(Initial, msgs).final.chunks == PayloadsSinceMetadata(msgs)
    decreases |msgs|
  {
    if msgs != [] {
      var p := msgs[..|msgs| - 1];
      var m := msgs[|msgs| - 1];
      assert msgs == p + [m];
      CounterInvariant(p);
      RunSnoc(Initial, p, m);
      CounterStep(Run(Initial, p).final, PayloadsSinceMetadata(p), EofSinceMetadata(p), m);
    }
  }

  /** The counter invariant for one state: the counter is the total of
      `since`, the chunk list is a suffix of `since`, and all of it unless
      `flushed`. */
  predicate Accounts(s: ReceiverState, since: seq<seq<byte>>, flushed: bool)
  {
    && s.receivedSize == TotalLength(since)
    && IsSuffix(s.chunks, since)
    && (!flushed ==> s.chunks == since)
  }

  /** One message keeps the counter invariant, with `since` and `flushed`
      updated as `PayloadsSinceMetadata` and `EofSinceMetadata` update them. */
  lemma CounterStep(s: ReceiverState, since: seq<seq<byte>>, flushed: bool, m: Message)
    requires Accounts(s, since, flushed)
    ensures match m
      case Metadata(_) => Accounts(Step(s, m).next, [], false)
      case Chunk(d) => Accounts(Step(s, m).next, since + [d], flushed)
      case Eof => Accounts(Step(s, m).next, since, true)
      case Other(_) => Accounts(Step(s, m).next, since, flushed)
  {
    match m
    case Metadata(_) =>
    case Chunk(d) =>
      CounterOnChunk(s, since, flushed, d);
    case Eof =>
      CounterOnEof(s, since, flushed);
    case Other(_) =>
  }

  /** A `CHUNK` adds its payload to `since` and to the chunk list. */
  lemma CounterOnChunk(s: ReceiverState, since: seq<seq<byte>>, flushed: bool, d: seq<byte>)
    requires Accounts(s, since, flushed)
    ensures Accounts(Step(s, Chunk(d)).next, since + [d], flushed)
  {
    var t := s.(chunks := s.chunks + [d], receivedSize := s.receivedSize + |d|);
    assert Step(s, Chunk(d)).next == t;
    AccountsSnoc(s.chunks, s.receivedSize, since, flushed, d);
  }

  /** The counter invariant on plain values: appending `d` to both the
      chunk list and `since`, and its length to the counter, keeps it. */
  lemma AccountsSnoc(c: seq<seq<byte>>, n: nat, since: seq<seq<byte>>, flushed: bool, d: seq<byte>)
    requires n == TotalLength(since) && IsSuffix(c, since) && (!flushed ==> c == since)
    ensures n + |d| == TotalLength(since + [d])
    ensures IsSuffix(c + [d], since + [d])
    ensures !flushed ==> c + [d] == since + [d]
  {
    TotalLengthSnoc(since, d);
    SuffixSnoc(c, since, d);
  }

  /** `EOF` keeps the counter and leaves either the whole chunk list or
      none of it. */
  lemma CounterOnEof(s: ReceiverState, since: seq<seq<byte>>, flushed: bool)
    requires Accounts(s, since, flushed)
    ensures Accounts(Step(s, Eof).next, since, true)
  {
    var t := Step(s, Eof).next;
    assert t.receivedSize == s.receivedSize;
    assert t.chunks == [] || t.chunks == s.chunks;
    EmptySuffix(since);
  }

  /** A suffix stays a suffix when both sequences gain the same last element. */
  lemma SuffixSnoc<T>(c: seq<T>, t: seq<T>, x: T)
    requires IsSuffix(c, t)
    ensures IsSuffix(c + [x], t + [x])
  {
    assert (t + [x])[|t| - |c|..] == t[|t| - |c|..] + [x];
  }

  /** The empty sequence is a suffix of every sequence. */
  lemma EmptySuffix<T>(t: seq<T>)
    ensures IsSuffix([], t)
  {
    assert t[|t|..] == [];
  }

  /** As long as no `METADATA` has arrived, nothing is ever offered for
      download and the slot stays empty, yet every chunk is stored and
      counted. */
  lemma {:induction false} NoMetadataNoDownload(msgs: seq<Message>)
    requires !HasMetadata(msgs)
    ensures Run(Initial, msgs).downloads == []
    ensures Run(Initial, msgs).final.meta == None
    ensures Run(Initial, msgs).final.chunks == PayloadsSinceMetadata(msgs)
    decreases |msgs|
  {
    if msgs != [] {
      var p := msgs[..|msgs| - 1];
      var m := msgs[|msgs| - 1];
      assert msgs == p + [m];
      assert forall i :: 0 <= i < |p| ==> p[i] == msgs[i];
      assert !m.Metadata? by {
        assert msgs[|msgs| - 1] == m;
      }
      NoMetadataNoDownload(p);
      RunSnoc(Initial, p, m);
    }
  }

  /** `EOF` checks nothing against the declared size: with metadata
      present it offers the chunks received so far, whatever their total
      length, and afterwards the list is empty and the status complete. */
  lemma EofIgnoresDeclaredSize(s: ReceiverState)
    requires s.meta.Some?
    ensures Step(s, Eof).download == Some(Download(s.meta.value.name, s.meta.value.mime, Concat(s.chunks)))
    ensures |Step(s, Eof).download.value.bytes| == TotalLength(s.chunks)
    ensures Step(s, Eof).next == s.(chunks := [], status := Complete)
  {
  }

  /** The receiver's buffers, updated in place by the `data` handler. */
  class Receiver {
    var chunks: seq<seq<byte>>
    var receivedSize: nat
    var meta: Option<Meta>
    var status: Status

    function Snapshot(): ReceiverState
      reads this
    {
      ReceiverState(chunks, receivedSize, meta, status)
    }

    constructor ()
      ensures Snapshot() == Initial
    {
      chunks, receivedSize, meta, status := [], 0, None, Idle;
    }

    /** `downloadFile`. */
    method DownloadFile() returns (download: Option<Download>)
      modifies this
      ensures Reaction(Snapshot(), download) == Finalize(old(Snapshot()))
    {
      if meta.None? {
        return None;
      }
      download := Some(Download(meta.value.name, meta.value.mime, Concat(chunks)));
      chunks := [];
    }

    /** `conn.on('data', ...)`: one inbound message. */
    method HandleData(msg: Message) returns (download: Option<Download>)
      modifies this
      ensures Reaction(Snapshot(), download) == Step(old(Snapshot()), msg)
    {
      download := None;
      match msg
      case Metadata(m) =>
        meta := Some(m);
        chunks := [];
        receivedSize := 0;
        status := Receiving;
      case Chunk(d) =>
        chunks := chunks + [d];
        receivedSize := receivedSize + |d|;
      case Eof =>
        download := DownloadFile();
        status := Complete;
      case Other(_) =>
    }

    /** The handler applied to every message of `msgs`, in delivery order;
        returns the files offered for download on the way. */
    method Deliver(msgs: seq<Message>) returns (downloads: seq<Download>)
      modifies this
      ensures Outcome(Snapshot(), downloads) == Run(old(Snapshot()), msgs)
    {
      ghost var s0 := Snapshot();
      downloads := [];
      for i := 0 to |msgs|
        invariant Outcome(Snapshot(), downloads) == Run(s0, msgs[..i])
      {
        RunSnoc(s0, msgs[..i], msgs[i]);
        assert msgs[..i + 1] == msgs[..i] + [msgs[i]];
        var d := HandleData(msgs[i]);
        if d.Some? {
          downloads := downloads + [d.value];
        }
      }
      assert msgs[..|msgs|] == msgs;
    }
  }
}

/** The two halves together: what the sender puts on the connection, fed
    in order to the receiver, offers exactly the original file for
    download when the transfer completes, and nothing when the connection
    closed first. */
module RoundTrip {
  import opened Protocol
  import opened Chunking
  import opened Channel
  import opened Send
  import opened Receive

  /** The file as the receiver offers it: the announced name and MIME
      type, and the file's bytes. */
  function Received(file: File): Download
  {
    Download(file.name, file.mime, file.bytes)
  }

  /** From any receiver state, `METADATA` followed by the first `n` chunks
      leaves exactly those chunks buffered, counted and not yet offered:
      the `METADATA` reset forgets everything that came before. */
  lemma {:induction false} ReplayChunks(s: ReceiverState, file: File, n: nat)
    ensures Run(s, Transcript(file, n, false)) ==
      Outcome(ReceiverState(ChunkList(file.bytes, n), TotalLength(ChunkList(file.bytes, n)),
                            Some(file.Announcement()), Receiving), [])
  {
    if n == 0 {
      assert Transcript(file, 0, false) == [] + [Metadata(file.Announcement())];
      RunSnoc(s, [], Metadata(file.Announcement()));
    } else {
      var c := ChunkAt(file.bytes, n - 1);
      ReplayChunks(s, file, n - 1);
      TranscriptGrows(file, n - 1);
      RunSnoc(s, Transcript(file, n - 1, false), Chunk(c));
      ConcatSnoc(ChunkList(file.bytes, n - 1), c);
    }
  }

  /** A complete transfer, received from any state, offers the file
      byte for byte, once; afterwards the chunk list is empty, the counter
      equals the file size and the status is complete. */
  lemma RoundTripComplete(s: ReceiverState, file: File)
    ensures var out := Run(s, Transcript(file, ChunkCount(file.Size()), true));
      && out.downloads == [Received(file)]
      && out.final == ReceiverState([], file.Size(), Some(file.Announcement()), Complete)
  {
    var n := ChunkCount(file.Size());
    var cs := ChunkList(file.bytes, n);
    var mid := ReceiverState(cs, TotalLength(cs), Some(file.Announcement()), Receiving);
    ReplayChunks(s, file, n);
    TranscriptGrows(file, n);
    RunSnoc(s, Transcript(file, n, false), Eof);
    ChunksReassemble(file.bytes);
    EofOffersFile(file, cs);
  }

  /** `EOF` after the announcement and chunks that concatenate to the file
      offers the file and completes with the file size counted. */
  lemma EofOffersFile(file: File, cs: seq<seq<byte>>)
    requires Concat(cs) == file.bytes
    ensures Step(ReceiverState(cs, TotalLength(cs), Some(file.Announcement()), Receiving), Eof)
         == Reaction(ReceiverState([], file.Size(), Some(file.Announcement()), Complete), Some(Received(file)))
  {
    assert TotalLength(cs) == |Concat(cs)|;
  }

  /** A transfer the connection cut short offers nothing for download. */
  lemma InterruptedTransferOffersNothing(s: ReceiverState, file: File, sent: nat)
    ensures Run(s, Transcript(file, sent, false)).downloads == []
  {
    ReplayChunks(s, file, sent);
  }

  /** Whatever the connection does, a fresh receiver fed the sender's
      messages offers the original file exactly when the sender reached
      `complete`, and nothing otherwise. */
  lemma SenderThenReceiver(file: File, env: nat -> Observation)
    ensures var sent := FirstClosed(env, 0, ChunkCount(file.Size()));
      var complete := sent == ChunkCount(file.Size());
      Run(Initial, Transcript(file, sent, complete)).downloads == if complete then [Received(file)] else []
  {
    var sent := FirstClosed(env, 0, ChunkCount(file.Size()));
    if sent == ChunkCount(file.Size()) {
      RoundTripComplete(Initial, file);
    } else {
      InterruptedTransferOffersNothing(Initial, file, sent);
    }
  }

  /** Completion does not stop the receiver: two complete transfers in a
      row on one page offer both files, in order. */
  lemma TwoTransfersInARow(first: File, second: File)
    ensures Run(Initial, Transcript(first, ChunkCount(first.Size()), true)
                         + Transcript(second, ChunkCount(second.Size()), true)).downloads
         == [Received(first), Received(second)]
  {
    var a := Transcript(first, ChunkCount(first.Size()), true);
    var b := Transcript(second, ChunkCount(second.Size()), true);
    RunAppend(Initial, a, b);
    RoundTripComplete(Initial, first);
    RoundTripComplete(Run(Initial, a).final, second);
  }

  /** A connection that stays open lets every chunk through. */
  lemma AllOpenCompletes(file: File, env: nat -> Observation)
    ensures (forall k :: env(k).open) ==> FirstClosed(env, 0, ChunkCount(file.Size())) == ChunkCount(file.Size())
  {
    if forall k :: env(k).open {
      FirstClosedIs(env, ChunkCount(file.Size()), ChunkCount(file.Size()));
    }
  }

  /** One whole transfer over a fresh connection: the sender runs against
      the connection's behaviour `env`, and a fresh receiver handles every
      message the sender sent, in order. Returns the files the receiver
      offered for download. */
  method TransferAndReceive(file: File, env: nat -> Observation) returns (downloads: seq<Download>)
    ensures downloads == if FirstClosed(env, 0, ChunkCount(file.Size())) == ChunkCount(file.Size())
                         then [Received(file)] else []
    ensures (forall k :: env(k).open) ==> downloads == [Received(file)]
  {
    var conn := new Connection(true, 0);
    var sent, offset, complete := TransferFile(conn, file, env);
    ghost var log := Transcript(file, sent, complete);
    assert conn.log == log by {
      assert [] + log == log;
    }
    var receiver := new Receiver();
    downloads := receiver.Deliver(conn.log);
    assert downloads == Run(Initial, log).downloads;
    SenderThenReceiver(file, env);
    AllOpenCompletes(file, env);
  }
}

# flashshare chunked file transfer, modelled in Dafny

flashshare is a browser app for sending one file from peer to peer over
a WebRTC data channel. The transfer logic lives in `client/src/App.jsx`,
and this project models it.

The **sender** (`transferFile`) sends a `METADATA` message first. That
message announces the file's name, size and MIME type. The sender then
reads the file in slices of 16384 bytes. Each time a read completes, it
sends the slice as a `CHUNK` and advances its offset by 16384. It then
either schedules the next read, or sends `EOF` once the offset has
reached the size. The next read is delayed by 100 ms while more than
10 MiB sit in the data channel's send buffer; otherwise it runs on the
next tick. A read that completes after the connection has closed sends
nothing and stops the chain.

The **receiver** (the connection's `data` handler and `downloadFile`)
keeps a list of chunks, a received-byte counter and the last metadata
seen.
- `METADATA` resets the list and the counter.
- `CHUNK` appends its payload and adds its length to the counter.
- `EOF` does one of two things. With metadata present, it assembles the
  chunk list into the downloaded file and empties the list. Without
  metadata, it does nothing. In both cases the status becomes complete.

Modules:
- `Protocol`: bytes, the message envelope, the announced metadata, and
  the concatenation of chunks.
- `Chunking`: `Blob.slice` with its clamping, the chunk count, and chunk
  `k` of a file.
- `Channel`: the connection as a class. It has an append-only log of the
  messages sent, plus the `open` flag and `bufferedAmount` that the
  network changes.
- `Send`: the backpressure delay, the progress percentage, `reader.onload`
  as the method `OnLoad`, and `transferFile` as the loop method
  `TransferFile`. The connection's behaviour is a parameter `env`, where
  `env(k)` is the connection's state when read `k` completes. `TransferFile`
  is proved against the function `Transcript`, the
  messages sent after a given number of chunks.
- `Receive`: the handler as the pure function `Step`, folded over a
  message sequence by `Run`. The class `Receiver` has the four fields the
  handler updates in place, and each of its methods is proved equal to the
  matching function. `Step` and `Finalize` are the same definition of the
  handler and of `downloadFile` as `Receiver.HandleData` and
  `Receiver.DownloadFile`, given a second time as values so that lemmas
  can be stated over them. `Run` is the handler folded over a message
  sequence.
- `RoundTrip`: the sender's messages fed to the receiver.

The code makes none of the following checks, and neither does the model:
- no size check at `EOF`;
- no waiting for the buffer to drain before `EOF`;
- no abort message, no acknowledgements and no sequence numbers;
- chunks are accepted before any metadata;
- messages that arrive after completion are still handled;
- the high-water mark is 10 MiB (`10 * 1024 * 1024`).

## Model

| member | source | states |
|---|---|---|
| Protocol.Concat | client/src/App.jsx:331 | the assembled bytes are as long as the chunks' lengths together |
| Chunking.Slice | client/src/App.jsx:204-207 | `Blob.slice(start, end)`: ends clamped to the length; the result has the clamped length, and byte `i` is the blob's byte `start + i` |
| Chunking.ChunkCount | client/src/App.jsx:187-199 | the number of chunks is the least `n >= 1` with `n * 16384 >= size`, so an empty file sends one empty chunk |
| Chunking.ChunkList | client/src/App.jsx:204-207 | the first `n` chunks in order; entry `k` is the slice read at offset `k * 16384` |
| Chunking.ChunkBounds | client/src/App.jsx:174-175 | chunk `k` is the file's bytes `[k*16384, min((k+1)*16384, size))`; every chunk but the last is full, and the last holds the remainder |
| Chunking.ConcatChunkList | client/src/App.jsx:187 | the first `n` chunks concatenated are the file's prefix of `min(n*16384, size)` bytes |
| Chunking.ChunksReassemble | client/src/App.jsx:174-209 | all the chunks of a file, concatenated in order, are the file exactly |
| Chunking.FortyThousandBytes | client/src/App.jsx:174-175 | a 40000-byte file is cut into chunks of 16384, 16384 and 7232 bytes |
| Send.Delay | client/src/App.jsx:193-197 | the delay before the next read is 100 ms exactly when more than 10 MiB are buffered, otherwise 0 |
| Send.DelayMonotone | client/src/App.jsx:193 | more buffered bytes never mean a shorter delay; exactly 10 MiB gives no delay, and one byte more gives 100 ms |
| Send.SenderPercent | client/src/App.jsx:188 | the progress shown lies in (0, 100] and is 100 exactly when the offset has reached the size (an empty file shows 100) |
| Send.PercentMonotone | client/src/App.jsx:188 | a larger offset never shows less progress |
| Send.LastChunkShows100 | client/src/App.jsx:187-189 | sending chunk `k` shows 100 exactly when it is the last chunk |
| Send.FirstClosed | client/src/App.jsx:180 | the number of reads that complete on an open connection before the first one that finds it closed |
| Send.FirstClosedIs | client/src/App.jsx:180 | that count is the only one with those properties |
| Send.ChunkMessages | client/src/App.jsx:182-185 | one `CHUNK` message per chunk sent |
| Send.TranscriptShape | client/src/App.jsx:164-209 | `METADATA` (the file's name, size and MIME type) comes first; message `k+1` is chunk `k`; `EOF` appears once, as the last message, and only for a finished transfer |
| Send.ChunkMessagesAt | client/src/App.jsx:182-185 | the `k`-th chunk message carries chunk `k` |
| Send.TranscriptGrows | client/src/App.jsx:182-199 | one more chunk, or the closing `EOF`, extends the messages sent by exactly that message |
| Send.OnLoad | client/src/App.jsx:179-202 | on a closed connection: nothing is sent and the offset stays put. On an open one: the chunk is sent and the offset grows by 16384. Then, below the size, the next read is scheduled with `Delay` and the shown progress; at or past the size, `EOF` follows the chunk |
| Send.TransferFile | client/src/App.jsx:164-210 | sends exactly `Transcript(file, sent, complete)`, where `sent` is the number of reads before the connection is first seen closed (at most `ChunkCount`). It is complete exactly when every chunk went out, and the final offset is `sent * 16384` |
| Channel.Connection.Send | client/src/App.jsx:166-171 | a sent message is appended after every earlier one |
| Channel.Connection.Observe | client/src/App.jsx:180 | the connection's open flag and buffered amount take the observed values; the log is untouched |
| Receive.Receiver.constructor | client/src/App.jsx:272-274 | empty chunk list, zero counter, no metadata |
| Receive.Receiver.DownloadFile | client/src/App.jsx:329-343 | without metadata nothing changes and nothing is offered. With metadata, the chunks concatenated are offered under the metadata's name and MIME type, and the list is emptied |
| Receive.Receiver.HandleData | client/src/App.jsx:298-323 | updates the four fields in place exactly as `Step` says, and returns the file `Step` offers |
| Receive.StepCases | client/src/App.jsx:298-323 | `METADATA` stores the metadata, empties the list, zeroes the counter and sets receiving. `CHUNK` appends and counts its payload even without metadata. `EOF` sets complete, and offers a file exactly when metadata is present (with no metadata the list is kept). Other types change nothing |
| Receive.Receiver.Deliver | client/src/App.jsx:298-323 | handling messages one by one gives the buffers and the downloads of `Run` |
| Receive.RunSnoc | client/src/App.jsx:298-323 | one more message extends a run by one `Step` |
| Receive.RunAppend | client/src/App.jsx:298-323 | running two message sequences in turn is running their concatenation |
| Receive.CounterInvariant | client/src/App.jsx:300-311 | the counter is the total length of the chunks since the last `METADATA`. The chunk list is a suffix of those chunks, and all of them while no `EOF` has followed |
| Receive.CounterStep | client/src/App.jsx:300-322 | each kind of message keeps that invariant |
| Receive.NoMetadataNoDownload | client/src/App.jsx:308-310 | without any `METADATA`, chunks are still stored, but nothing is ever offered and the metadata slot stays empty |
| Receive.EofIgnoresDeclaredSize | client/src/App.jsx:319-322 | `EOF` offers the chunks received, whatever their total length compared with the announced size, then empties the list and marks the status complete |
| RoundTrip.ReplayChunks | client/src/App.jsx:300-311 | from any state, `METADATA` and `n` chunks leave exactly those chunks buffered and counted, with the announced metadata and nothing offered |
| RoundTrip.RoundTripComplete | client/src/App.jsx:164-343 | a complete transfer offers the original file byte for byte, once, and leaves an empty list, the file size on the counter and the status complete |
| RoundTrip.InterruptedTransferOffersNothing | client/src/App.jsx:180 | a transfer cut short before `EOF` offers nothing |
| RoundTrip.SenderThenReceiver | client/src/App.jsx:164-343 | a fresh receiver offers the original file exactly when the sender completed, and nothing otherwise |
| RoundTrip.TwoTransfersInARow | client/src/App.jsx:298-323 | after completion the receiver still handles messages, so two complete transfers offer both files in order |
| RoundTrip.AllOpenCompletes | client/src/App.jsx:180 | a connection that stays open lets every chunk through |
| RoundTrip.TransferAndReceive | client/src/App.jsx:164-343 | one transfer over a fresh connection, delivered to a fresh receiver, offers `[file]` when every read found the connection open (and in general exactly when the transfer completed), and nothing otherwise |

## Left out

- The React UI (components, state hooks, rendering, clipboard), the PeerJS
  set-up and connection events, and `server/server.js`: none of them
  touches the transfer data.
- Timing. `FileReader` and `setTimeout` are asynchronous. The model runs
  their callback chain as a loop: `OnLoad` returns the delay before the
  next read but does not wait. The network's progress between reads is the
  parameter `env`.
- Send.TransferFile: does not record the progress value and the delay of
  every step, to keep the proof small. Both are stated per call in
  `Send.OnLoad`, together with `Send.SenderPercent` and `Send.Delay`.
- `bufferedAmount` is a value the network supplies in `env`. The model
  does not count the bytes a send adds to it.
- What PeerJS does with any message sent on a connection that is not
  open is not modelled: every sent message is in the log. This includes
  the `METADATA` message, which is sent with no `open` check.
- Serialisation of messages by PeerJS, the `Blob` built from the chunks,
  the object URL and the anchor click: the downloaded file is the returned
  name, MIME type and bytes.
- The receiver's progress percentage (`receivedSize / size * 100`) is not
  modelled. It is floating point, and for an announced size of 0 it is
  `NaN` or `Infinity`.
- `setFileName` on `METADATA` only feeds the UI. The metadata slot keeps
  the same name.
- The connection-level statuses 'init', 'connecting' and 'connected' are
  collapsed into `Idle`.
- The connection's `error` handler (client/src/App.jsx:326) is not
  modelled. It can set the status to 'error' at any time, including in the
  middle of a transfer; the model has no such event, so its status stays
  where the data handler left it.
- Send.SenderPercent: uses exact real arithmetic. The rounding of the
  double-precision value the page displays is not modelled.

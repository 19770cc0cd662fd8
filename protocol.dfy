/** The message envelope exchanged by the two peers and the byte-level
    helpers both sides share. A message is dispatched on its `type` tag;
    `Other` stands for any envelope whose tag is none of the three the
    protocol uses (the receiver ignores those). */
module Protocol {

  /** One octet of a file. */
  newtype byte = x: int | 0 <= x < 256

  datatype Option<T> = None | Some(value: T)

  /** What the sender announces about the file: `name`, `size`, `mime`. */
  datatype Meta = Meta(name: string, size: nat, mime: string)

  datatype Message =
    | Metadata(meta: Meta)
    | Chunk(data: seq<byte>)
    | Eof
    | Other(tag: string)

  /** The file the user selected: its name, MIME type and contents.
      Its `size` is the byte length of its contents. */
  datatype File = File(name: string, mime: string, bytes: seq<byte>)
  {
    function Size(): nat { |bytes| }
    function Announcement(): Meta { Meta(name, Size(), mime) }
  }

  /** What the receiver hands to the browser for saving: the file name
      and MIME type from the metadata and the assembled bytes. */
  datatype Download = Download(name: string, mime: string, bytes: seq<byte>)

  /** The bytes of a list of chunks, in list order. */
  function Concat(chunks: seq<seq<byte>>): (r: seq<byte>)
    ensures |r| == TotalLength(chunks)
  {
    if chunks == [] then [] else Concat(chunks[..|chunks| - 1]) + chunks[|chunks| - 1]
  }

  /** The sum of the byte lengths of a list of chunks. */
  function TotalLength(chunks: seq<seq<byte>>): nat
  {
    if chunks == [] then 0 else TotalLength(chunks[..|chunks| - 1]) + |chunks[|chunks| - 1]|
  }

  /** Appending a chunk appends its bytes. */
  lemma ConcatSnoc(chunks: seq<seq<byte>>, c: seq<byte>)
    ensures Concat(chunks + [c]) == Concat(chunks) + c
    ensures TotalLength(chunks + [c]) == TotalLength(chunks) + |c|
  {
    assert (chunks + [c])[..|chunks|] == chunks;
  }

  /** Appending a chunk adds its length to the total. */
  lemma TotalLengthSnoc(chunks: seq<seq<byte>>, c: seq<byte>)
    ensures TotalLength(chunks + [c]) == TotalLength(chunks) + |c|
  {
    assert (chunks + [c])[..|chunks|] == chunks;
  }
}

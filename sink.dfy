/**
 * The output side of the escaper: an append-only byte destination, which is
 * what the in-memory `Vec<u8>` behind `io::Write` amounts to here.
 */
module Sink {
  import opened Utf8

  /** A growable byte buffer that is only ever appended to. */
  class ByteWriter {
    var bytes: seq<byte>

    /** An empty buffer. */
    constructor Empty()
      ensures bytes == []
    {
      bytes := [];
    }

    /** Appends all of `data`, in order. */
    method WriteAll(data: seq<byte>)
      modifies this
      ensures bytes == old(bytes) + data
    {
      bytes := bytes + data;
    }
  }

  /** Appends the UTF-8 encoding of one character (the `write_char` helper). */
  method WriteChar(w: ByteWriter, c: char)
    modifies w
    ensures w.bytes == old(w.bytes) + EncodeScalar(c)
  {
    w.WriteAll(EncodeScalar(c));
  }
}

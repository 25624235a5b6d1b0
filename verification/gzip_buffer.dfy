/** Bytes and the compressed in-memory buffer that a batch of analytics
    events accumulates in. */
module Gzip {

  newtype byte = b: int | 0 <= b < 256

  /** The chunks laid end to end, in order. */
  function Flatten(chunks: seq<seq<byte>>): seq<byte>
  {
    if chunks == [] then [] else Flatten(chunks[..|chunks| - 1]) + chunks[|chunks| - 1]
  }

  /**
   * A bytes.Buffer together with the gzip.Writer that compresses into it;
   * the two are always created, and replaced, together.
   *
   * The compressor itself is opaque. `content` is what the writer has
   * accepted since the pair was created, i.e. what a reader recovers by
   * decompressing the finished stream; `len` is the number of compressed
   * bytes the buffer holds, as the environment reports it after a write;
   * `closed` records that the stream was finalised.
   */
  class GzipBuffer {
    var content: seq<byte>
    var len: nat
    var closed: bool

    /** A fresh, empty buffer with a fresh writer on top of it. */
    constructor ()
      ensures content == [] && len == 0 && !closed
    {
      content := [];
      len := 0;
      closed := false;
    }

    /**
     * Writes `data` through the compressor. Whether the writer accepts it
     * and the buffer length afterwards are supplied by the caller; a
     * rejected write leaves the buffer as it was.
     */
    method Write(data: seq<byte>, accepted: bool, observedLen: nat) returns (ok: bool)
      modifies this
      ensures ok == accepted
      ensures closed == old(closed)
      ensures ok ==> content == old(content) + data && len == observedLen
      ensures !ok ==> content == old(content) && len == old(len)
    {
      ok := accepted;
      if ok {
        content := content + data;
        len := observedLen;
      }
    }

    /** Finalises the compressed stream (writes the gzip trailer). The
        trailer makes the real buffer longer, but `len` is deliberately left
        stale: a closed buffer is only read out, never measured again. */
    method Close()
      modifies this
      ensures closed
      ensures content == old(content) && len == old(len)
    {
      closed := true;
    }
  }
}

/** Byte streams as the scanner sees them through `io.Reader`, and the bounded
    copy (`io.CopyN`) it uses to cap how much of a stream it buffers.

    A stream is modelled by the bytes a reader yields before it stops and by how
    it stops: cleanly at end of file, or with a read error. A stream longer than
    any bound of interest (a decompression bomb) is represented by any prefix
    at least as long as that bound, because a bounded copy never looks past it. */
module Streams {

  newtype byte = x: int | 0 <= x < 256

  /** An opaque error value produced by a foreign reader or decoder. */
  datatype Fault = Fault(code: nat)

  /** How a reader stops after yielding its data. */
  datatype Ending = AtEof | Failed(fault: Fault)

  datatype Stream = Stream(data: seq<byte>, ending: Ending)

  /** The error `io.CopyN` returns: `nil` when the count was reached, `io.EOF`
      when the source ended first, or the source's own read error. */
  datatype CopyStatus = Filled | Eof | ReadFailed(fault: Fault)

  datatype Copied = Copied(buf: seq<byte>, status: CopyStatus)

  /** `io.CopyN(dst, src, n)` into an empty buffer: it copies through a reader
      limited to `n` bytes, so once `n` bytes are in it stops without reading
      further and reports no error, however the source would have ended. */
  function CopyN(s: Stream, n: nat): (c: Copied)
    ensures |c.buf| <= n
    ensures c.buf <= s.data
    ensures c.status == Filled <==> n <= |s.data|
    ensures c.status == Filled ==> |c.buf| == n
    ensures c.status != Filled ==> c.buf == s.data
    ensures c.status == Eof <==> |s.data| < n && s.ending == AtEof
    ensures c.status.ReadFailed? <==> |s.data| < n && s.ending.Failed?
    ensures c.status.ReadFailed? ==> c.status.fault == s.ending.fault
  {
    if n <= |s.data| then Copied(s.data[..n], Filled)
    else
      match s.ending
      case AtEof => Copied(s.data, Eof)
      case Failed(f) => Copied(s.data, ReadFailed(f))
  }

  /** The same copy, step by step as the Go library does it: `io.Copy` through
      a reader limited to `n` bytes, whose own end of file is not an error,
      followed by `io.CopyN`'s translation of a short count into `io.EOF`. */
  method CopyNStepwise(s: Stream, n: nat) returns (buf: seq<byte>, status: CopyStatus)
    ensures Copied(buf, status) == CopyN(s, n)
  {
    buf := [];
    var remaining := n;
    while remaining > 0 && |buf| < |s.data|
      invariant |buf| + remaining == n
      invariant |buf| <= |s.data|
      invariant buf == s.data[..|buf|]
      decreases remaining
    {
      buf := buf + [s.data[|buf|]];
      remaining := remaining - 1;
    }
    // The limited reader reports end of file once its budget is spent; the
    // underlying reader's ending only surfaces when it ran dry first.
    var copyErr: Ending := if remaining == 0 then AtEof else s.ending;
    if |buf| == n {
      status := Filled;
    } else if copyErr == AtEof {
      status := Eof;
    } else {
      status := ReadFailed(copyErr.fault);
    }
  }
}

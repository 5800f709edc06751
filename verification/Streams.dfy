// Binary streams, and the buffered reader the decoder puts over its input
// (cryptoflex/streaming.py, class _StreamReader).
module Streams {
  import opened Bytes
  import opened Wrappers

  /** A binary source. A full one, like a buffered file or bytes in memory, returns as many bytes as
      it is asked for while it has them; any other, like a pipe or a socket, may return fewer. */
  class InputStream {
    const full: bool
    var remaining: bytes

    constructor (contents: bytes, full: bool)
      ensures remaining == contents && this.full == full
    {
      remaining := contents;
      this.full := full;
    }

    /** At most n bytes; some, unless the stream is at its end. How many is determined only of a
        full stream. */
    method Read(n: nat) returns (b: bytes)
      modifies this
      ensures old(remaining) == b + remaining
      ensures |b| <= n
      ensures n > 0 && old(remaining) != [] ==> b != []
      ensures full ==> |b| == n || remaining == []
    {
      if n == 0 || remaining == [] { return []; }
      var k: nat := if n <= |remaining| then n else |remaining|;
      if !full { k :| 1 <= k <= n && k <= |remaining|; }
      b, remaining := remaining[..k], remaining[k..];
    }
  }

  /** A binary sink, as the list of what each call of write was given. */
  class OutputStream {
    var pieces: seq<bytes>

    constructor ()
      ensures pieces == []
    {
      pieces := [];
    }

    /** What has been written. */
    function Written(): bytes
      reads this
    {
      Join(pieces)
    }

    method Write(b: bytes)
      modifies this
      ensures pieces == old(pieces) + [b] && Written() == old(Written()) + b
    {
      JoinAppend(pieces, b);
      pieces := pieces + [b];
    }
  }

  const READ_AHEAD: nat := 4096

  class StreamReader {
    var buf: bytes
    const stream: InputStream

    constructor (initial: bytes, stream: InputStream)
      ensures this.stream == stream && Remaining() == initial + stream.remaining
    {
      buf := initial;
      this.stream := stream;
    }

    /** The bytes still to come: what is buffered, then what the stream holds. */
    function Remaining(): bytes
      reads this, stream
    {
      buf + stream.remaining
    }

    /** The next n bytes, wherever the read-ahead has put them; None, and nothing lost, when there are fewer. */
    method ReadExact(n: nat) returns (r: Option<bytes>)
      modifies this, stream
      ensures r.Some? <==> n <= |old(Remaining())|
      ensures r.Some? ==> r.value == old(Remaining())[..n] && Remaining() == old(Remaining())[n..]
      ensures r.None? ==> Remaining() == old(Remaining())
    {
      while |buf| < n
        invariant Remaining() == old(Remaining())
        decreases |stream.remaining|
      {
        ghost var before := buf + stream.remaining;
        var more := stream.Read(n - |buf| + READ_AHEAD);
        if more == [] { break; }
        assert before == buf + more + stream.remaining;
        buf := buf + more;
      }
      if |buf| < n { return None; }
      assert Remaining()[..n] == buf[..n] && Remaining()[n..] == buf[n..] + stream.remaining;
      r, buf := Some(buf[..n]), buf[n..];
    }

    /** Whether anything is left; peeking keeps it. */
    method HasRemaining() returns (b: bool)
      modifies this, stream
      ensures b <==> old(Remaining()) != []
      ensures Remaining() == old(Remaining())
    {
      if |buf| > 0 { return true; }
      var more := stream.Read(1);
      if more != [] {
        buf := buf + more;
        return true;
      }
      return false;
    }
  }
}

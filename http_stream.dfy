/*
 * The byte stream of the proxy (src/django_quik/server/http.py): a wrapper
 * around one connected socket with a push-back buffer, and the two framing
 * loops built on it, one that reads a header block and one that reads a body
 * of a declared length.
 *
 * The socket itself is the environment. It is modelled as a script: the
 * bytes the peer will still send, the sizes in which the network is going to
 * cut them, whether the peer still reads, and a log of everything sent to it.
 */
module HttpStream {
  import opened Text

  /** Bytes on the wire, one character per byte. */
  type Bytes = string

  /** The blank line that ends a header block: CR LF CR LF. */
  const HeaderEnd: Bytes := "\r\n\r\n"

  /** The default `buffer_size` of a stream. */
  const DefaultBufferSize: nat := 1024

  datatype StreamError =
    | StreamRead    // StreamReadException: the socket delivered no data, the peer has gone
    | StreamWrite   // StreamWriteException: sendall failed
    | SocketClosed  // the OSError recv raises on a closed socket, which read_chunk lets through

  /** A size the network delivers in one piece: never zero. */
  type Segment = k: nat | k > 0 witness 1

  /** A connected socket, as seen by the proxy. */
  class Socket {
    /** What the peer will still send; empty once the peer has closed its end. */
    var unread: Bytes
    /**
     * How the network cuts the peer's data: receive number k delivers at most
     * segments[k] bytes; once the script is used up, as many as are asked for.
     */
    var segments: seq<Segment>
    /** Everything sendall has delivered to the peer so far. */
    var sent: Bytes
    /** Whether this end has been closed. */
    var closed: bool
    /** Whether the peer still accepts data (false: broken pipe). */
    const peerReading: bool

    /** A sendall on this socket succeeds. */
    predicate Writable()
      reads this
    {
      !closed && peerReading
    }

    constructor (data: Bytes, segments: seq<Segment>, peerReading: bool)
      ensures unread == data && this.segments == segments && sent == "" && !closed
      ensures this.peerReading == peerReading
    {
      unread := data;
      this.segments := segments;
      sent := "";
      closed := false;
      this.peerReading := peerReading;
    }

    /** `recv(n)`: at most n bytes of the peer's data, b'' once the peer has closed. */
    method Recv(n: nat) returns (r: Result<Bytes, StreamError>)
      modifies this
      ensures sent == old(sent) && closed == old(closed)
      ensures old(closed) ==> r == Err(SocketClosed) && unread == old(unread)
      ensures !old(closed) ==> r.Ok? && |r.value| <= n && old(unread) == r.value + unread
      ensures !old(closed) ==> (|r.value| > 0 <==> n > 0 && old(unread) != "")
    {
      if closed {
        return Err(SocketClosed);
      }
      if n == 0 || unread == "" {
        return Ok("");
      }
      var size := if n < |unread| then n else |unread|;
      if segments != [] {
        if segments[0] < size {
          size := segments[0];
        }
        segments := segments[1..];
      }
      r := Ok(unread[..size]);
      unread := unread[size..];
    }

    /** `sendall(data)`: all of `data` or, on a socket error, nothing. */
    method SendAll(data: Bytes) returns (ok: bool)
      modifies this
      ensures ok == old(Writable())
      ensures sent == (if ok then old(sent) + data else old(sent))
      ensures unread == old(unread) && closed == old(closed)
    {
      ok := Writable();
      if ok {
        sent := sent + data;
      }
    }

    method Close()
      modifies this
      ensures closed && unread == old(unread) && sent == old(sent)
    {
      closed := true;
    }
  }

  /** A stream of bytes over one socket, with a push-back buffer (`Stream` in http.py). */
  class Stream {
    const sock: Socket
    const bufferSize: nat
    /** Bytes read too early and handed back; the next read returns them first. */
    var restored: Bytes

    /** Everything a reader of this stream will still see: pushed-back bytes first. */
    ghost function Pending(): Bytes
      reads this, sock
    {
      restored + sock.unread
    }

    /** The receive size `read_chunk` uses: its argument if non-zero, else the stream's own. */
    function ChunkSize(size: nat): nat
      reads this
    {
      if size > 0 then size else bufferSize
    }

    constructor (sock: Socket, bufferSize: nat)
      ensures this.sock == sock && this.bufferSize == bufferSize && restored == ""
    {
      this.sock := sock;
      this.bufferSize := bufferSize;
      restored := "";
    }

    /**
     * `read_chunk`: all pushed-back bytes if there are any, without touching
     * the socket; otherwise one receive, where an empty receive is a
     * StreamRead failure. A successful read is never empty and takes exactly
     * its bytes off the front of what is pending. Size 0 stands for Python's
     * None (use the stream's buffer size).
     */
    method ReadChunk(size: nat) returns (r: Result<Bytes, StreamError>)
      modifies this, sock
      ensures restored == ""
      ensures sock.sent == old(sock.sent) && sock.closed == old(sock.closed)
      ensures old(restored) != "" ==> r == Ok(old(restored)) && sock.unread == old(sock.unread)
      ensures old(restored) == "" && old(sock.closed) ==> r == Err(SocketClosed)
      ensures old(restored) == "" && !old(sock.closed) ==>
                (r.Ok? <==> ChunkSize(size) > 0 && old(sock.unread) != "")
      ensures old(restored) == "" && r.Ok? ==> |r.value| <= ChunkSize(size)
      ensures r.Ok? ==> |r.value| > 0 && old(Pending()) == r.value + Pending()
      ensures r.Err? ==> Pending() == old(Pending())
      ensures r.Err? && !sock.closed && ChunkSize(size) > 0 ==> Pending() == ""
    {
      if |restored| > 0 {
        r := Ok(restored);
        restored := "";
        return;
      }
      var data := sock.Recv(ChunkSize(size));
      if data.Err? {
        return data;
      }
      if |data.value| == 0 {
        return Err(StreamRead);
      }
      return data;
    }

    /** `write_chunk`: send all of `data`, or fail with StreamWrite and send nothing. */
    method WriteChunk(data: Bytes) returns (ok: bool)
      modifies sock
      ensures ok == old(sock.Writable())
      ensures sock.sent == (if ok then old(sock.sent) + data else old(sock.sent))
      ensures sock.unread == old(sock.unread) && sock.closed == old(sock.closed)
    {
      ok := sock.SendAll(data);
    }

    /** `restore_bytes`: append `data` to the push-back buffer, ahead of the socket's data. */
    method RestoreBytes(data: Bytes)
      modifies this
      ensures restored == old(restored) + data
      ensures Pending() == old(restored) + data + sock.unread
    {
      restored := restored + data;
    }

    /** `close`: close the socket; closing twice is harmless. */
    method Close()
      modifies sock
      ensures sock.closed && sock.unread == old(sock.unread) && sock.sent == old(sock.sent)
    {
      sock.Close();
    }
  }

  /**
   * `pending` is a header block `header`, the first CR LF CR LF of `pending`,
   * and what follows it.
   */
  ghost predicate HeaderSplit(pending: Bytes, header: Bytes, rest: Bytes)
  {
    Find(pending, HeaderEnd) == Some(|header|) && pending == header + HeaderEnd + rest
  }

  /** The header block of a split holds no terminator of its own. */
  lemma HeaderSplitNoEnd(pending: Bytes, header: Bytes, rest: Bytes)
    requires HeaderSplit(pending, header, rest)
    ensures Find(header, HeaderEnd) == None
  {
    FindBeforeFirst(pending, HeaderEnd, |header|);
    assert pending[..|header|] == header;
  }

  /** Everything pending splits at one place only: the split is determined by `pending`. */
  lemma HeaderSplitUnique(pending: Bytes, h1: Bytes, r1: Bytes, h2: Bytes, r2: Bytes)
    requires HeaderSplit(pending, h1, r1) && HeaderSplit(pending, h2, r2)
    ensures h1 == h2 && r1 == r2
  {
    assert h1 == pending[..|h1|];
    assert h2 == pending[..|h2|];
    assert r1 == pending[|h1| + |HeaderEnd|..];
    assert r2 == pending[|h2| + |HeaderEnd|..];
  }

  /**
   * `read_headers`: accumulate chunks until the first CR LF CR LF, return the
   * bytes before it and push back the bytes after it. Whatever the sizes of
   * the chunks, the result is the same split of the pending bytes; it fails
   * only when the peer stops sending before a terminator arrives.
   */
  method ReadHeaders(stream: Stream) returns (r: Result<Bytes, StreamError>)
    modifies stream, stream.sock
    ensures stream.sock.sent == old(stream.sock.sent) && stream.sock.closed == old(stream.sock.closed)
    ensures r.Ok? ==> HeaderSplit(old(stream.Pending()), r.value, stream.Pending())
    ensures (!old(stream.sock.closed) && stream.bufferSize > 0 && Find(old(stream.Pending()), HeaderEnd).Some?)
              ==> r.Ok?
    ensures r.Err? && !stream.sock.closed && stream.bufferSize > 0 ==> stream.Pending() == ""
  {
    ghost var before := stream.Pending();
    var buffer: Bytes := "";
    while true
      invariant stream.sock.sent == old(stream.sock.sent) && stream.sock.closed == old(stream.sock.closed)
      invariant before == buffer + stream.Pending()
      invariant Find(buffer, HeaderEnd) == None
      decreases |stream.Pending()|
    {
      var chunk := stream.ReadChunk(0);
      if chunk.Err? {
        assert !stream.sock.closed && stream.bufferSize > 0 ==> before == buffer;
        return Err(chunk.error);
      }
      buffer := buffer + chunk.value;
      if |buffer| < |HeaderEnd| {
        continue;
      }
      var found := Find(buffer, HeaderEnd);
      if found.Some? {
        var i := found.value;
        ghost var unread := stream.sock.unread;
        assert stream.Pending() == unread;
        HeaderBoundary(before, buffer, unread, i);
        var header := buffer[..i];
        var misread := buffer[i + |HeaderEnd|..];
        stream.RestoreBytes(misread);
        assert stream.Pending() == misread + unread;
        return Ok(header);
      }
    }
  }

  /** The first terminator in the bytes read so far is the first one of everything pending. */
  lemma HeaderBoundary(pending: Bytes, buffer: Bytes, unread: Bytes, i: nat)
    requires Find(buffer, HeaderEnd) == Some(i)
    requires pending == buffer + unread
    ensures i + |HeaderEnd| <= |buffer|
    ensures HeaderSplit(pending, buffer[..i], buffer[i + |HeaderEnd|..] + unread)
  {
    FindCut(buffer, unread, HeaderEnd, i);
  }

  /**
   * `read_text_body`: read whole chunks until at least `contentLength` bytes
   * have arrived. Nothing is read for a length of zero or less, and bytes
   * read past the length stay in the result instead of being pushed back.
   */
  method ReadTextBody(stream: Stream, contentLength: int) returns (r: Result<Bytes, StreamError>)
    modifies stream, stream.sock
    ensures stream.sock.sent == old(stream.sock.sent) && stream.sock.closed == old(stream.sock.closed)
    ensures r.Ok? ==> old(stream.Pending()) == r.value + stream.Pending()
    ensures r.Ok? ==> |r.value| >= contentLength
    ensures contentLength <= 0 ==> r == Ok("")
    ensures (!old(stream.sock.closed) && stream.bufferSize > 0 && |old(stream.Pending())| >= contentLength)
              ==> r.Ok?
    ensures r.Err? && !stream.sock.closed && stream.bufferSize > 0 ==> stream.Pending() == ""
  {
    ghost var before := stream.Pending();
    var buffer: Bytes := "";
    var readSize := 0;
    while readSize < contentLength
      invariant stream.sock.sent == old(stream.sock.sent) && stream.sock.closed == old(stream.sock.closed)
      invariant readSize == |buffer|
      invariant before == buffer + stream.Pending()
      invariant contentLength <= 0 ==> buffer == ""
      decreases |stream.Pending()|
    {
      var chunk := stream.ReadChunk(0);
      if chunk.Err? {
        return Err(chunk.error);
      }
      buffer := buffer + chunk.value;
      readSize := readSize + |chunk.value|;
    }
    return Ok(buffer);
  }
}

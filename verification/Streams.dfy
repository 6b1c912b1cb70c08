/** Non-blocking byte streams, and the helpers that move bytes between them and a retry buffer
    (src/tcp_util.rs, src/utils.rs). */
module Streams {
  import opened Wire

  /** What one non-blocking call does: `Done(0)` is how a closed stream answers. */
  datatype Io = Done(n: nat) | Block | Fail

  /** One socket or session as its user sees it. How much each call moves, and when it blocks
      or fails, is up to the network. */
  class Stream {
    /** All the bytes the other side will ever send and that have not been read. */
    var pending: seq<byte>
    ghost var received: seq<byte>
    ghost var written: seq<byte>
    ghost var lastRead: Io
    ghost var lastWrite: Io
    ghost var writes: nat
    ghost var readCalls: nat
    /** A write failed or moved nothing. */
    ghost var broke: bool
    /** A read failed or found the end. */
    ghost var ended: bool

    constructor (incoming: seq<byte>)
      ensures pending == incoming && received == [] && written == [] && !broke && !ended
    {
      pending, received, written, broke, ended := incoming, [], [], false, false;
    }

    method Write(data: seq<byte>) returns (r: Io)
      requires data != []
      modifies `written, `lastWrite, `writes, `broke
      ensures r.Done? ==> r.n <= |data|
      ensures written == if r.Done? then old(written) + data[..r.n] else old(written)
      ensures lastWrite == r && writes == old(writes) + 1
      ensures broke == (old(broke) || r.Fail? || r == Done(0))
    {
      if * {
        var n: nat :| n <= |data|;
        written := written + data[..n];
        r := Done(n);
      } else if * {
        r := Block;
      } else {
        r := Fail;
      }
      lastWrite, writes, broke := r, writes + 1, broke || r.Fail? || r == Done(0);
    }

    method Read(capacity: nat) returns (r: Io, data: seq<byte>)
      requires capacity > 0
      modifies `pending, `received, `lastRead, `readCalls, `ended
      ensures readCalls == old(readCalls) + 1
      ensures r.Done? ==> |data| == r.n <= capacity
      ensures !r.Done? ==> data == []
      ensures old(pending) == data + pending && received == old(received) + data
      ensures lastRead == r && ended == (old(ended) || r.Fail? || r == Done(0))
    {
      data := [];
      if * {
        var n: nat :| n <= |pending| && n <= capacity;
        data := pending[..n];
        pending := pending[n..];
        received := received + data;
        r := Done(n);
      } else if * {
        r := Block;
      } else {
        r := Fail;
      }
      lastRead, readCalls, ended := r, readCalls + 1, ended || r.Fail? || r == Done(0);
    }
  }

  /** `tcp_send`: writes until everything is out or the stream blocks; what is left goes behind
      `sendBuffer`. `k` bytes of `data` were accepted. */
  method TcpSend(conn: Stream, sendBuffer: seq<byte>, data: seq<byte>)
    returns (ok: bool, buffer: seq<byte>, ghost k: nat)
    modifies conn`written, conn`lastWrite, conn`writes, conn`broke
    ensures k <= |data| && conn.written == old(conn.written) + data[..k]
    ensures buffer == if ok then sendBuffer + data[k..] else sendBuffer
    ensures ok && k < |data| ==> conn.lastWrite.Block? && conn.writes > old(conn.writes)
    ensures !ok ==> Broke(conn) && conn.writes > old(conn.writes)
    ensures conn.broke == (old(conn.broke) || !ok) && conn.writes >= old(conn.writes)
    ensures data == [] ==> ok
  {
    var rest := data;
    buffer, k := sendBuffer, 0;
    while true
      invariant k <= |data| && rest == data[k..] && buffer == sendBuffer
      invariant conn.written == old(conn.written) + data[..k]
      invariant conn.writes >= old(conn.writes) && conn.broke == old(conn.broke)
      decreases |rest|
    {
      if rest == [] {
        return true, buffer, k;
      }
      var r := conn.Write(rest);
      match r {
        case Done(size) =>
          if size == 0 {
            return false, buffer, k;
          }
          assert data[..k] + rest[..size] == data[..k + size];
          k, rest := k + size, rest[size..];
        case Block =>
          buffer := buffer + rest;
          return true, buffer, k;
        case Fail =>
          return false, buffer, k;
      }
    }
  }

  lemma SentAndLeft(written: seq<byte>, data: seq<byte>, k: nat)
    requires k <= |data|
    ensures written + data[..k] + data[k..] == written + data
    ensures written + data[..k] + ([] + data[k..]) == written + data
    ensures written + data[..k] <= written + data
  {
    assert data[..k] + data[k..] == data;
  }

  datatype Flush = Flushed | Blocked | Broken

  /** `send_all`: writes the buffer and keeps what was not accepted; a broken writer empties it. */
  method SendAll(writer: Stream, buffer: seq<byte>) returns (r: Flush, rest: seq<byte>)
    modifies writer`written, writer`lastWrite, writer`writes, writer`broke
    ensures old(writer.written) <= writer.written <= old(writer.written) + buffer
    ensures !r.Broken? ==> writer.written + rest == old(writer.written) + buffer
    ensures r.Flushed? <==> !r.Broken? && rest == []
    ensures r.Blocked? ==> writer.lastWrite.Block? && writer.writes > old(writer.writes)
    ensures r.Broken? ==> rest == [] && Broke(writer) && writer.writes > old(writer.writes)
    ensures writer.writes >= old(writer.writes) && writer.broke == (old(writer.broke) || r.Broken?)
  {
    if buffer == [] {
      return Flushed, buffer;
    }
    var offset := 0;
    r := Flushed;
    while offset < |buffer|
      invariant offset <= |buffer| && r.Flushed? && writer.broke == old(writer.broke)
      invariant writer.written == old(writer.written) + buffer[..offset]
      invariant writer.writes >= old(writer.writes)
    {
      var io := writer.Write(buffer[offset..]);
      match io {
        case Done(n) =>
          if n == 0 {
            r := Broken;
            break;
          }
          assert buffer[offset..][..n] == buffer[offset..offset + n];
          assert buffer[..offset] + buffer[offset..offset + n] == buffer[..offset + n];
          offset := offset + n;
        case Block =>
          r := Blocked;
          break;
        case Fail =>
          r := Broken;
          break;
      }
    }
    assert buffer[..offset] + buffer[offset..] == buffer;
    rest := if r.Broken? then [] else buffer[offset..];
  }

  /** The last write said that the stream is gone. */
  ghost predicate Broke(s: Stream)
    reads s
  {
    s.lastWrite.Fail? || s.lastWrite == Done(0)
  }

  ghost predicate AtEnd(s: Stream)
    reads s
  {
    s.lastRead.Fail? || s.lastRead == Done(0)
  }

  datatype Fetch = Fetched | Dry | Ended

  /** `read_once`: one read behind the buffer. */
  method ReadOnce(reader: Stream, buffer: seq<byte>) returns (r: Fetch, filled: seq<byte>, ghost data: seq<byte>)
    modifies reader`pending, reader`received, reader`lastRead, reader`readCalls, reader`ended
    ensures reader.readCalls > old(reader.readCalls)
    ensures old(reader.pending) == data + reader.pending
    ensures reader.received == old(reader.received) + data && filled == buffer + data
    ensures r.Fetched? <==> data != []
    ensures r.Dry? ==> reader.lastRead.Block?
    ensures r.Ended? ==> AtEnd(reader)
    ensures reader.ended == (old(reader.ended) || r.Ended?)
  {
    var io, bytes := reader.Read(1500);
    filled, data := buffer + bytes, bytes;
    match io {
      case Done(n) => r := if n == 0 then Ended else Fetched;
      case Block => r := Dry;
      case Fail => r := Ended;
    }
  }

  /** One more read, when everything read before is written. */
  lemma OneMoreRead(all: seq<byte>, written: seq<byte>, buffer: seq<byte>, received: seq<byte>, got: seq<byte>, data: seq<byte>,
                    pending: seq<byte>)
    requires all + [] == written + (buffer + got)
    ensures all + ([] + data) == written + (buffer + (got + data))
    ensures received + got + data == received + (got + data) && got + (data + pending) == (got + data) + pending
  {
    assert written + (buffer + got) + data == written + (buffer + (got + data));
    assert all + ([] + data) == (all + []) + data;
  }

  datatype CopyResult = RxBlock | TxBlock | RxBreak | TxBreak

  /** `copy_stream`: empties the buffer into `to`, refills it from `from`, and so on until a side
      blocks or breaks. Unless the writer breaks every byte read is written or still buffered, in
      order; the buffer is empty whenever it was the reader that stopped the copy. `got` is what
      was read. */
  method CopyStream(from: Stream, to: Stream, buffer: seq<byte>)
    returns (r: CopyResult, rest: seq<byte>, ghost got: seq<byte>)
    requires from != to
    modifies from`pending, from`received, from`lastRead, from`readCalls, from`ended, to`written, to`lastWrite, to`writes, to`broke
    ensures from.received == old(from.received) + got && old(from.pending) == got + from.pending
    ensures old(to.written) <= to.written <= old(to.written) + (buffer + got)
    ensures !r.TxBreak? ==> to.written + rest == old(to.written) + (buffer + got)
    ensures r.TxBlock? <==> rest != []
    ensures r.RxBlock? ==> from.lastRead.Block?
    ensures r.RxBreak? ==> AtEnd(from)
    ensures r.TxBlock? ==> to.lastWrite.Block? && to.writes > old(to.writes)
    ensures r.TxBreak? ==> Broke(to) && to.writes > old(to.writes)
    ensures r.RxBlock? || r.RxBreak? ==> from.readCalls > old(from.readCalls)
    ensures from.ended == (old(from.ended) || r.RxBreak?) && to.broke == (old(to.broke) || r.TxBreak?)
  {
    got, rest := [], buffer;
    while true
      invariant from.received == old(from.received) + got && old(from.pending) == got + from.pending
      invariant old(to.written) <= to.written && to.writes >= old(to.writes)
      invariant from.ended == old(from.ended) && to.broke == old(to.broke) && from.readCalls >= old(from.readCalls)
      invariant to.written + rest == old(to.written) + (buffer + got)
      decreases |from.pending|
    {
      var flush;
      flush, rest := SendAll(to, rest);
      if flush.Blocked? {
        return TxBlock, rest, got;
      }
      if flush.Broken? {
        return TxBreak, rest, got;
      }
      var fetch;
      ghost var data;
      fetch, rest, data := ReadOnce(from, rest);
      OneMoreRead(to.written, old(to.written), buffer, old(from.received), got, data, from.pending);
      got := got + data;
      if fetch.Dry? {
        return RxBlock, rest, got;
      }
      if fetch.Ended? {
        return RxBreak, rest, got;
      }
    }
  }
}

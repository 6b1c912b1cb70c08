/** A TLS connection as its users see it: decrypted input, a session buffer of output that still
    has to reach the socket, and the five-state status (src/tls_conn.rs). */
module Tls {
  import opened Options
  import opened Status
  import opened Streams
  import opened Wire

  class TlsConn {
    var status: ConnStatus
    var writable: bool
    /** Plaintext on its way in: not yet read from the socket, read but not decrypted, decrypted. */
    var pending: seq<byte>
    var raw: seq<byte>
    var plain: seq<byte>
    /** How many bytes the socket still has to deliver. */
    var cipher: nat
    /** Plaintext written to the session and not yet to the socket. */
    var outbox: seq<byte>
    ghost var received: seq<byte>
    ghost var wire: seq<byte>
    /** A write to the session failed, so part of it is missing from the output. */
    ghost var lost: bool
    /** The socket ended or failed, or the session did. */
    ghost var failed: bool
    /** The owner shut the connection down. */
    ghost var dropped: bool
    /** Shut down for one of these two reasons, not by draining. */
    ghost var aborted: bool
    ghost var lastRead: Io
    ghost var lastWrite: Io
    ghost var fetches: nat
    ghost var pushes: nat
    ghost var readCalls: nat
    ghost var sendCalls: nat

    constructor (incoming: seq<byte>, cipher: nat)
      ensures status == Connecting && writable && Incoming() == incoming
      ensures Valid() && received == [] && outbox == [] && wire == [] && !lost && !failed && !dropped && !aborted
    {
      status, writable, pending, raw, plain, outbox, this.cipher := Connecting, true, incoming, [], [], [], cipher;
      received, wire, lost, failed, dropped, aborted := [], [], false, false, false, false;
      fetches, pushes, readCalls, sendCalls := 0, 0, 0, 0;
    }

    /** Everything the peer will ever send and that has not been handed out. */
    function Incoming(): seq<byte>
      reads `pending, `raw, `plain
    {
      plain + raw + pending
    }

    /** A connection that failed is down; one that is down without a reason went down by draining, and
        has no output left of which nothing is missing. */
    ghost predicate Valid()
      reads `status, `aborted, `failed, `dropped, `lost, `outbox
    {
      && (lost ==> failed) && (failed ==> aborted) && (aborted ==> failed || dropped)
      && (aborted ==> status.IsShutdown())
      && (status.IsShutdown() && !aborted ==> outbox == [])
    }

    /** `shutdown` by the owner. */
    method Shutdown()
      requires Valid()
      modifies `status, `aborted, `dropped
      ensures Valid() && status == old(status).OnShutdown() && dropped
      ensures aborted == (old(aborted) || !old(status).IsShutdown())
    {
      dropped := true;
      aborted := aborted || !status.IsShutdown();
      status := status.OnShutdown();
    }

    /** `shutdown` because of a failure. */
    method Fail()
      requires Valid()
      modifies `status, `aborted, `failed
      ensures Valid() && status == old(status).OnShutdown() && failed
    {
      failed, aborted := true, true;
      status := status.OnShutdown();
    }

    predicate CanWrite()
      reads this
    {
      writable && status.Alive()
    }

    /** `read_tls`: one read of the socket. */
    method ReadTls() returns (r: Io)
      modifies `pending, `raw, `cipher, `lastRead, `fetches
      ensures lastRead == r && fetches == old(fetches) + 1 && Incoming() == old(Incoming())
      ensures r.Done? && r.n > 0 ==> cipher < old(cipher)
    {
      var arrives: bool := *;
      if cipher > 0 && arrives {
        var n: nat :| 0 < n <= cipher;
        var m: nat :| m <= |pending|;
        assert plain + (raw + pending[..m]) + pending[m..] == plain + raw + pending;
        cipher, raw, pending := cipher - n, raw + pending[..m], pending[m..];
        r := Done(n);
      } else if * {
        r := Done(0);
      } else if * {
        r := Block;
      } else {
        r := Io.Fail;
      }
      lastRead, fetches := r, fetches + 1;
    }

    /** `process_new_packets`: decrypts the complete records. */
    method Process() returns (ok: bool)
      modifies `raw, `plain
      ensures Incoming() == old(Incoming())
    {
      if * {
        return false;
      }
      var m: nat :| m <= |raw|;
      assert plain + raw[..m] + raw[m..] + pending == plain + raw + pending;
      plain, raw := plain + raw[..m], raw[m..];
      return true;
    }

    /** The loop of `do_read`: reads until the socket blocks, ends or fails. */
    method Fetch()
      requires Valid()
      modifies `status, `aborted, `failed, `pending, `raw, `cipher, `lastRead, `fetches
      ensures Valid() && Incoming() == old(Incoming())
      ensures fetches > old(fetches) && !(lastRead.Done? && lastRead.n > 0)
      ensures failed == (old(failed) || !lastRead.Block?)
      ensures status == if failed then old(status).OnShutdown() else old(status)
    {
      while true
        invariant Valid() && status == old(status) && failed == old(failed) && fetches >= old(fetches)
        invariant Incoming() == old(Incoming())
        decreases cipher
      {
        var io := ReadTls();
        match io {
          case Done(size) =>
            if size == 0 {
              Fail();
              break;
            }
          case Block =>
            break;
          case Fail =>
            Fail();
            break;
        }
      }
    }

    /** The rest of `do_read`: hands out all that is decrypted. */
    method HandOut() returns (r: Option<seq<byte>>)
      requires Valid()
      modifies `status, `aborted, `failed, `raw, `plain, `received
      ensures Valid() && (old(failed) ==> failed)
      ensures status == if failed then old(status).OnShutdown() else old(status)
      ensures r.Some? ==> r.value != []
      ensures var got := if r.Some? then r.value else [];
              received == old(received) + got && old(Incoming()) == got + Incoming()
      ensures plain == [] || (r.None? && failed)
    {
      var ok := Process();
      if !ok {
        Fail();
        assert old(Incoming()) == [] + Incoming() && received == received + [];
        return None;
      }
      var got := plain;
      assert plain + raw + pending == plain + ([] + raw + pending);
      plain, received := [], received + got;
      if * {
        // the session ended behind what it handed out
        Fail();
      }
      r := if got == [] then None else Some(got);
    }

    /** `do_read`. */
    method DoRead() returns (r: Option<seq<byte>>)
      requires Valid()
      modifies `status, `aborted, `failed, `pending, `raw, `plain, `cipher, `received, `readCalls, `lastRead, `fetches
      ensures Valid() && (old(failed) ==> failed)
      ensures status == if failed then old(status).OnShutdown() else old(status)
      ensures r.Some? ==> r.value != []
      ensures var got := if r.Some? then r.value else [];
              received == old(received) + got && old(Incoming()) == got + Incoming()
      ensures readCalls == old(readCalls) + 1 && fetches > old(fetches)
      ensures lastRead.Block? || failed
      ensures plain == [] || (r.None? && failed)
    {
      readCalls := readCalls + 1;
      Fetch();
      r := HandOut();
    }

    /** `write_tls`: one write to the socket. */
    method WriteTls() returns (r: Io)
      requires outbox != []
      modifies `outbox, `wire, `lastWrite, `pushes
      ensures lastWrite == r && pushes == old(pushes) + 1
      ensures wire + outbox == old(wire + outbox) && old(wire) <= wire
      ensures if r.Done? then |outbox| < |old(outbox)| else outbox == old(outbox) && wire == old(wire)
    {
      if * {
        var n: nat :| 0 < n <= |outbox|;
        assert wire + outbox == (wire + outbox[..n]) + outbox[n..];
        wire, outbox := wire + outbox[..n], outbox[n..];
        r := Done(n);
      } else if * {
        r := Block;
      } else {
        r := Io.Fail;
      }
      lastWrite, pushes := r, pushes + 1;
    }

    /** `do_send`: pushes the session buffer to the socket until it is empty, blocks or fails. */
    method DoSend()
      requires Valid()
      modifies `status, `aborted, `failed, `writable, `outbox, `wire, `sendCalls, `lastWrite, `pushes
      ensures Valid() && sendCalls == old(sendCalls) + 1
      ensures wire + outbox == old(wire + outbox) && old(wire) <= wire
      ensures status == old(status) || (status == old(status).OnShutdown() && !old(status).Connecting?)
      ensures old(status).Connecting? ==> outbox == old(outbox) && writable == old(writable) && failed == old(failed)
      ensures !old(status).Connecting? ==> Pushed(old(pushes)) && writable == (outbox == [] || !lastWrite.Block?)
      ensures failed == (old(failed) || (!old(status).Connecting? && pushes > old(pushes) && lastWrite.Fail?))
      ensures pushes >= old(pushes)
    {
      sendCalls := sendCalls + 1;
      if status.Connecting? {
        return;
      }
      writable := true;
      while outbox != []
        invariant wire + outbox == old(wire + outbox) && old(wire) <= wire && pushes >= old(pushes)
        invariant status == old(status) && aborted == old(aborted) && failed == old(failed)
        invariant writable && sendCalls == old(sendCalls) + 1 && Valid()
        invariant pushes > old(pushes) ==> lastWrite.Done?
        decreases |outbox|
      {
        var io := WriteTls();
        match io {
          case Done(_) =>
          case Block =>
            writable := false;
            break;
          case Fail =>
            Fail();
            break;
        }
      }
    }

    /** All output is out, or the last of the writes made since then blocked or failed. */
    ghost predicate Pushed(since: nat)
      reads `outbox, `lastWrite, `pushes
    {
      outbox == [] || (pushes > since && !lastWrite.Done?)
    }

    method WriteSession(data: seq<byte>) returns (ok: bool)
      requires Valid() && (status.IsShutdown() ==> aborted)
      modifies `status, `aborted, `failed, `outbox, `lost
      ensures Valid()
      ensures ok ==> outbox == old(outbox) + data && status == old(status) && lost == old(lost) && failed == old(failed)
      ensures !ok ==> lost && failed && status == old(status).OnShutdown()
      ensures old(outbox) <= outbox <= old(outbox) + data
    {
      if * {
        outbox := outbox + data;
        return true;
      }
      var n: nat :| n <= |data|;
      outbox := outbox + data[..n];
      Fail();
      lost := true;
      return false;
    }
  }

  /** `tcp_read`: moves bytes from the socket into the session until the socket blocks; false when
      the socket ended or failed. */
  method TcpRead(conn: Stream, tls: TlsConn) returns (ok: bool, ghost got: seq<byte>)
    requires tls.Valid() && !tls.status.IsShutdown()
    modifies conn`pending, conn`received, conn`lastRead, conn`readCalls, conn`ended
    modifies tls`status, tls`aborted, tls`failed, tls`outbox, tls`lost
    ensures tls.Valid()
    ensures conn.received == old(conn.received) + got && conn.readCalls > old(conn.readCalls)
    ensures old(tls.outbox) <= tls.outbox <= old(tls.outbox) + got
    ensures if tls.lost then tls.status == old(tls.status).OnShutdown()
            else tls.outbox == old(tls.outbox) + got && tls.status == old(tls.status) && tls.failed == old(tls.failed)
    ensures !ok ==> AtEnd(conn)
    ensures conn.ended == (old(conn.ended) || !ok)
    ensures ok ==> conn.lastRead.Block? || tls.lost
  {
    got := [];
    while true
      invariant conn.received == old(conn.received) + got && conn.readCalls >= old(conn.readCalls)
      invariant tls.outbox == old(tls.outbox) + got && tls.status == old(tls.status)
      invariant tls.lost == old(tls.lost) && tls.failed == old(tls.failed)
      invariant tls.Valid() && conn.ended == old(conn.ended)
      decreases |conn.pending|
    {
      var r, data := conn.Read(MAX_PACKET_SIZE);
      ghost var outbox := tls.outbox;
      got := got + data;
      assert outbox + data == old(tls.outbox) + got;
      match r {
        case Done(size) =>
          if size == 0 {
            return false, got;
          }
          var sent := tls.WriteSession(data);
          if !sent {
            return true, got;
          }
        case Block =>
          return true, got;
        case Fail =>
          return false, got;
      }
    }
  }
}

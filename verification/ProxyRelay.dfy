/** The proxy side of a relayed TCP connection: a local client and a TLS connection to the server
    (src/proxy/tcp_server.rs). */
module ProxyRelay {
  import opened Status
  import opened Streams
  import opened Tls
  import opened Wire

  datatype Event =
    | ClientEvent(readable: bool, writeable: bool)
    | ServerEvent(readable: bool, writeable: bool)
    | BadToken

  class Connection {
    const client: Stream
    const server: TlsConn
    var status: ConnStatus
    var sendBuffer: seq<byte>
    var readClient: bool
    var readServer: bool
    /** The request in front of the client's bytes. */
    ghost var request: seq<byte>
    /** The client end was shut down by an error or by its end of file, not by draining. */
    ghost var aborted: bool
    /** Nothing happened for too long, or an event came for an unknown token. */
    ghost var failure: bool

    constructor (client: Stream, server: TlsConn)
      requires client.written == [] && client.received == [] && !client.broke && !client.ended && !server.dropped
      requires server.Valid() && server.received == [] && server.wire + server.outbox == []
      requires server.status.Connecting? || server.status.Established?
      ensures this.client == client && this.server == server && status.Connecting? && request == []
      ensures Valid()
    {
      this.client, this.server, status := client, server, Connecting;
      sendBuffer, readClient, readServer := [], false, false;
      request, aborted, failure := [], false, false;
    }

    /** Server to client: nothing is lost, reordered or duplicated; if the client's socket broke it
        got a prefix. `rest` was read from the server and is still to be handed on. The end is shut
        down when its socket breaks or ends, and not without a reason. */
    ghost predicate Downstream(rest: seq<byte>)
      reads this, client, server
    {
      && (if client.broke then aborted && sendBuffer == [] && rest == [] && client.written <= server.received
          else client.written + sendBuffer + rest == server.received)
      && (client.broke || client.ended ==> status.IsShutdown())
      && (aborted ==> status.IsShutdown() && (client.broke || client.ended || failure))
      && (status.IsShutdown() && !aborted ==> sendBuffer == [])
    }

    /** Client to server, behind the request; likewise. */
    ghost predicate Upstream()
      reads this, client, server
    {
      && server.Valid() && (server.dropped ==> failure)
      && server.wire + server.outbox <= request + client.received
      && (!server.lost ==> server.wire + server.outbox == request + client.received)
    }

    ghost predicate Valid()
      reads this, client, server
    {
      Downstream([]) && Upstream() && Settled(Ends(status, server.status))
    }

    predicate CanWrite()
      reads this
    {
      sendBuffer == [] && status.Alive()
    }

    /** After a try since then the client's buffer is empty, or its socket blocked. */
    ghost predicate ClientPushed(since: nat)
      reads `status, `sendBuffer, client
    {
      status.Connecting? || status.IsShutdown() || sendBuffer == [] || (client.lastWrite.Block? && client.writes > since)
    }

    method Shutdown()
      modifies `status, `aborted
      ensures status == old(status).OnShutdown() && aborted == (old(aborted) || !old(status).IsShutdown())
    {
      aborted := aborted || !status.IsShutdown();
      status := status.OnShutdown();
    }

    /** `setup`: queue the request in front of everything the client will send. */
    method Setup(pass: seq<byte>, dst: SocketAddr) returns (ok: bool)
      requires Valid() && client.received == [] && server.wire + server.outbox == [] && request == []
      requires server.status.IsShutdown() ==> server.aborted
      modifies this`request, server`status, server`aborted, server`failed, server`outbox, server`lost
      ensures ok ==> Valid() && request == RequestBytes(pass, 1, dst)
      ensures !ok ==> server.lost || request == RequestBytes(pass, 1, dst)
    {
      var buffer := new BytesMut();
      GenerateRequest(buffer, pass, CONNECT, dst);
      assert buffer.bytes == RequestBytes(pass, CONNECT, dst);
      ghost var outbox := server.outbox;
      ok := server.WriteSession(buffer.bytes);
      request := buffer.bytes;
      assert server.wire + outbox == [];
      assert ok ==> server.wire + server.outbox == (server.wire + outbox) + request;
      assert server.wire + server.outbox <= server.wire + (outbox + request);
      if * {
        // registering the client's socket failed
        ok := false;
      }
    }

    method DoSendClient(data: seq<byte>)
      requires sendBuffer == [] && Downstream(data) && (status.IsShutdown() && !aborted ==> data == [])
      modifies this`sendBuffer, this`status, this`aborted
      modifies client`written, client`lastWrite, client`writes, client`broke
      ensures Downstream([]) && IoMove(old(status), status)
      ensures sendBuffer != [] ==> client.lastWrite.Block? && client.writes > old(client.writes)
      ensures client.writes >= old(client.writes)
    {
      var ok;
      ghost var k;
      ok, sendBuffer, k := TcpSend(client, sendBuffer, data);
      ghost var written := old(client.written);
      SentAndLeft(written, data, k);
      assert written + [] + data == written + data;
      assert ok ==> client.written + sendBuffer + [] == written + data;
      if !ok {
        Shutdown();
      }
    }

    /** The first part of `try_send_client`: buffered bytes go first. */
    method HandOn(buffer: seq<byte>)
      requires Downstream(buffer) && (buffer != [] ==> !status.IsShutdown())
      modifies this`sendBuffer, this`status, this`aborted
      modifies client`written, client`lastWrite, client`writes, client`broke
      ensures Downstream([]) && IoMove(old(status), status)
      ensures ClientPushed(old(client.writes)) && client.writes >= old(client.writes)
      ensures old(status).Connecting? <==> status.Connecting?
      ensures old(status).Connecting? ==> sendBuffer == old(sendBuffer) + buffer
    {
      assert client.written + (sendBuffer + buffer) + [] == client.written + sendBuffer + buffer;
      assert client.written + [] + (sendBuffer + buffer) == client.written + sendBuffer + buffer;
      if status.Connecting? {
        sendBuffer := sendBuffer + buffer;
      } else if sendBuffer == [] {
        DoSendClient(buffer);
      } else {
        var all := sendBuffer + buffer;
        sendBuffer := [];
        DoSendClient(all);
      }
    }

    /** `try_send_client` and `try_read_server` call each other while a read from the server is
        owed and the client takes everything. */
    method TrySendClient(buffer: seq<byte>)
      requires server.Valid() && Downstream(buffer) && (buffer != [] ==> !status.IsShutdown())
      modifies this`sendBuffer, this`status, this`aborted, this`readServer
      modifies client`written, client`lastWrite, client`writes, client`broke
      modifies server`status, server`aborted, server`failed, server`pending, server`raw, server`plain, server`cipher, server`received, server`readCalls, server`lastRead, server`fetches
      ensures server.Valid() && Downstream([]) && IoMove(old(status), status)
      ensures IoMove(old(server.status), server.status) && server.readCalls >= old(server.readCalls)
      ensures CanWrite() ==> !readServer
      ensures old(readServer) ==> readServer || server.readCalls > old(server.readCalls)
      ensures ClientPushed(old(client.writes)) && client.writes >= old(client.writes)
      ensures status.Connecting? ==> old(status).Connecting?
      decreases |server.Incoming()|, 1
    {
      HandOn(buffer);
      hide Downstream;
      if CanWrite() && readServer {
        TryReadServer();
        readServer := false;
      }
    }

    method TryReadServer()
      requires server.Valid() && Downstream([]) && CanWrite()
      modifies this`sendBuffer, this`status, this`aborted, this`readServer
      modifies client`written, client`lastWrite, client`writes, client`broke
      modifies server`status, server`aborted, server`failed, server`pending, server`raw, server`plain, server`cipher, server`received, server`readCalls, server`lastRead, server`fetches
      ensures server.Valid() && Downstream([]) && IoMove(old(status), status)
      ensures IoMove(old(server.status), server.status) && server.readCalls > old(server.readCalls)
      ensures ClientPushed(old(client.writes)) && client.writes >= old(client.writes) && !status.Connecting?
      decreases |server.Incoming()|, 0
    {
      var got := server.DoRead();
      if got.Some? {
        assert client.written + sendBuffer + [] + got.value == client.written + sendBuffer + got.value;
        TrySendClient(got.value);
      } else {
        assert server.received == old(server.received) + [];
      }
    }

    method TryReadClient()
      requires Downstream([]) && Upstream() && !server.status.IsShutdown()
      modifies this`status, this`aborted, this`readClient
      modifies client`pending, client`received, client`lastRead, client`readCalls, client`ended
      modifies server`status, server`aborted, server`failed, server`outbox, server`lost, server`writable, server`wire, server`sendCalls, server`lastWrite, server`pushes
      ensures Downstream([]) && Upstream() && client.readCalls > old(client.readCalls)
      ensures IoMove(old(status), status) && IoMove(old(server.status), server.status)
      ensures server.sendCalls > old(server.sendCalls) && !readClient
      ensures server.pushes >= old(server.pushes) && (!server.status.Connecting? ==> server.Pushed(old(server.pushes)))
      decreases 1
    {
      var ok;
      ghost var got;
      ok, got := TcpRead(client, server);
      assert server.wire + (old(server.outbox) + got) == old(server.wire + server.outbox) + got;
      assert server.wire + server.outbox <= server.wire + (old(server.outbox) + got);
      assert request + old(client.received) + got == request + client.received;
      if !ok {
        Shutdown();
      }
      readClient := false;
      TrySendServer();
    }

    method TrySendServer()
      requires Downstream([]) && Upstream()
      modifies this`status, this`aborted, this`readClient
      modifies client`pending, client`received, client`lastRead, client`readCalls, client`ended
      modifies server`status, server`aborted, server`failed, server`outbox, server`lost, server`writable, server`wire, server`sendCalls, server`lastWrite, server`pushes
      ensures Downstream([]) && Upstream() && client.readCalls >= old(client.readCalls)
      ensures IoMove(old(status), status) && IoMove(old(server.status), server.status)
      ensures server.sendCalls > old(server.sendCalls)
      ensures old(server.status).Connecting? && !server.lost ==> server.status.Connecting?
      ensures server.pushes >= old(server.pushes) && (!server.status.Connecting? ==> server.Pushed(old(server.pushes)))
      ensures server.CanWrite() ==> !readClient
      ensures !old(readClient) ==> !readClient && status == old(status)
      ensures old(readClient) ==> readClient || client.readCalls > old(client.readCalls)
      decreases if readClient then 2 else 0
    {
      server.DoSend();
      if server.CanWrite() && readClient {
        TryReadClient();
      }
    }

    method OnClientReadable()
      requires Downstream([]) && Upstream()
      modifies this, client, server
      ensures request == old(request) && failure == old(failure)
      ensures readServer == old(readServer) && server.readCalls == old(server.readCalls) && client.writes == old(client.writes)
      ensures Downstream([]) && Upstream()
      ensures IoMove(old(status), status) && IoMove(old(server.status), server.status)
      ensures readClient || client.readCalls > old(client.readCalls)
      ensures if old(server.CanWrite()) then client.readCalls > old(client.readCalls) else readClient
      ensures server.pushes >= old(server.pushes)
    {
      if server.CanWrite() {
        TryReadClient();
      } else {
        readClient := true;
      }
    }

    method OnServerReadable()
      requires Downstream([]) && Upstream()
      modifies this, client, server
      ensures request == old(request) && failure == old(failure)
      ensures readClient == old(readClient) && client.readCalls == old(client.readCalls)
      ensures Downstream([]) && Upstream()
      ensures IoMove(old(status), status) && IoMove(old(server.status), server.status)
      ensures server.sendCalls > old(server.sendCalls)
      ensures readServer || server.readCalls > old(server.readCalls)
      ensures if old(CanWrite()) then server.readCalls > old(server.readCalls) && ClientPushed(old(client.writes)) else readServer
      ensures old(CanWrite()) ==> !status.Connecting?
      ensures client.writes >= old(client.writes) && server.pushes >= old(server.pushes)
    {
      if CanWrite() {
        TryReadServer();
      } else {
        readServer := true;
      }
      server.DoSend();
    }

    method OnBadToken()
      requires Downstream([]) && Upstream()
      modifies this`status, this`aborted, this`failure
      ensures Downstream([]) && Upstream() && status == old(status).OnShutdown()
    {
      failure := true;
      Shutdown();
    }

    method OnClientWriteable()
      requires Downstream([]) && Upstream()
      modifies this, client, server
      ensures request == old(request) && failure == old(failure)
      ensures readClient == old(readClient) && client.readCalls == old(client.readCalls) && server.pushes == old(server.pushes)
      ensures Downstream([]) && Upstream()
      ensures IoMove(old(status), status) && IoMove(old(server.status), server.status)
      ensures server.readCalls >= old(server.readCalls)
      ensures !status.Connecting? && ClientPushed(old(client.writes))
      ensures CanWrite() ==> !readServer
      ensures old(readServer) ==> readServer || server.readCalls > old(server.readCalls)
    {
      status := status.OnEstablished();
      TrySendClient([]);
    }

    method OnServerWriteable()
      requires Downstream([]) && Upstream()
      modifies this, client, server
      ensures request == old(request) && failure == old(failure)
      ensures readServer == old(readServer) && server.readCalls == old(server.readCalls) && client.writes == old(client.writes)
      ensures sendBuffer == old(sendBuffer) && client.lastWrite == old(client.lastWrite)
      ensures Downstream([]) && Upstream()
      ensures IoMove(old(status), status) && IoMove(old(server.status), server.status)
      ensures server.sendCalls > old(server.sendCalls) && client.readCalls >= old(client.readCalls)
      ensures !server.status.Connecting? && server.Pushed(old(server.pushes))
      ensures server.CanWrite() ==> !readClient
      ensures old(readClient) ==> readClient || client.readCalls > old(client.readCalls)
    {
      server.status := server.status.OnEstablished();
      TrySendServer();
    }

    method OnClientEvent(readable: bool, writeable: bool)
      requires Downstream([]) && Upstream()
      modifies this, client, server
      ensures Downstream([]) && Upstream() && request == old(request)
      ensures IoMove(old(status), status) && IoMove(old(server.status), server.status)
      ensures readable || old(readClient) ==> readClient || client.readCalls > old(client.readCalls)
      ensures writeable && CanWrite() ==> !readServer
      ensures writeable ==> !status.Connecting? && ClientPushed(old(client.writes))
      ensures readable && old(server.CanWrite()) ==> client.readCalls > old(client.readCalls)
      ensures old(readServer) ==> readServer || server.readCalls > old(server.readCalls)
    {
      hide Downstream, Upstream;
      if readable {
        OnClientReadable();
      }
      if writeable {
        OnClientWriteable();
      }
    }

    method OnServerEvent(readable: bool, writeable: bool)
      requires Downstream([]) && Upstream()
      modifies this, client, server
      ensures Downstream([]) && Upstream() && request == old(request)
      ensures IoMove(old(status), status) && IoMove(old(server.status), server.status)
      ensures readable || old(readServer) ==> readServer || server.readCalls > old(server.readCalls)
      ensures readable || writeable ==> server.sendCalls > old(server.sendCalls)
      ensures writeable ==> !server.status.Connecting? && server.Pushed(old(server.pushes))
      ensures readable && old(CanWrite()) ==> server.readCalls > old(server.readCalls) && ClientPushed(old(client.writes))
      ensures old(readClient) ==> readClient || client.readCalls > old(client.readCalls)
    {
      hide Downstream, Upstream;
      if readable {
        OnServerReadable();
      }
      if writeable {
        OnServerWriteable();
      }
    }

    /** The input and output part of `ready`. */
    method HandleIo(event: Event)
      requires Downstream([]) && Upstream()
      modifies this, client, server
      ensures Downstream([]) && Upstream() && request == old(request)
      ensures IoMove(old(status), status) && IoMove(old(server.status), server.status)
      ensures old(readClient) || (event.ClientEvent? && event.readable) ==>
        readClient || client.readCalls > old(client.readCalls)
      ensures event.ClientEvent? && event.writeable && CanWrite() ==> !readServer
      ensures event.ServerEvent? ==> server.sendCalls > old(server.sendCalls) || !(event.readable || event.writeable)
      ensures old(readServer) || (event.ServerEvent? && event.readable) ==>
        readServer || server.readCalls > old(server.readCalls)
      ensures event.ClientEvent? && event.writeable ==> !status.Connecting? && ClientPushed(old(client.writes))
      ensures event.ClientEvent? && event.readable && old(server.CanWrite()) ==> client.readCalls > old(client.readCalls)
      ensures event.ServerEvent? && event.writeable ==> !server.status.Connecting? && server.Pushed(old(server.pushes))
      ensures event.ServerEvent? && event.readable && old(CanWrite()) ==>
        server.readCalls > old(server.readCalls) && ClientPushed(old(client.writes))
      ensures event.BadToken? ==> status.IsShutdown()
    {
      hide Downstream, Upstream;
      match event {
        case ClientEvent(readable, writeable) =>
          OnClientEvent(readable, writeable);
        case ServerEvent(readable, writeable) =>
          OnServerEvent(readable, writeable);
        case BadToken =>
          OnBadToken();
      }
    }

    /** `ready`: one event. `mid` is the state of the two ends before they are coupled. */
    method Ready(event: Event) returns (ghost mid: Ends)
      requires Valid()
      modifies this, client, server
      ensures Valid() && request == old(request)
      ensures IoMove(old(status), mid.a) && IoMove(old(server.status), mid.b)
      ensures Ends(status, server.status) == Couple(mid, sendBuffer == [], server.outbox == [])
      ensures old(readClient) || (event.ClientEvent? && event.readable) ==>
        readClient || client.readCalls > old(client.readCalls)
      ensures old(readServer) || (event.ServerEvent? && event.readable) ==>
        readServer || server.readCalls > old(server.readCalls)
      ensures event.ClientEvent? && event.writeable ==> !status.Connecting? && ClientPushed(old(client.writes))
      ensures event.ClientEvent? && event.readable && old(server.CanWrite()) ==> client.readCalls > old(client.readCalls)
      ensures event.ServerEvent? && event.writeable ==> !server.status.Connecting? && server.Pushed(old(server.pushes))
      ensures event.ServerEvent? && event.readable && old(CanWrite()) ==>
        server.readCalls > old(server.readCalls) && ClientPushed(old(client.writes))
    {
      HandleIo(event);
      mid := Ends(status, server.status);
      CoupleEnds();
    }

    /** The tail of `ready`. */
    method CoupleEnds()
      requires Downstream([]) && Upstream() && Coupled(Ends(status, server.status))
      modifies `status, server`status
      ensures Valid()
      ensures Ends(status, server.status) ==
        Couple(old(Ends(status, server.status)), sendBuffer == [], server.outbox == [])
    {
      if status.IsShutdown() {
        server.status := server.status.OnPeerClosed();
      }
      if server.status.IsShutdown() {
        status := status.OnPeerClosed();
      }
      status := status.AfterCheck(sendBuffer == []);
      server.status := server.status.AfterCheck(server.outbox == []);
    }

    /** What the invariant says about the bytes. */
    lemma Summary()
      requires Valid()
      ensures client.written <= server.received && server.wire <= request + client.received
      ensures !client.broke ==> client.written + sendBuffer == server.received
      ensures !server.lost ==> server.wire + server.outbox == request + client.received
      ensures status.IsShutdown() && !aborted ==> client.written == server.received
      ensures server.status.IsShutdown() && !server.aborted ==> server.wire == request + client.received
    {
      assert client.written + sendBuffer + [] == client.written + sendBuffer;
      assert client.written + [] == client.written && server.wire + [] == server.wire;
      assert client.written <= client.written + sendBuffer;
      assert server.wire <= server.wire + server.outbox;
    }

    /** `destroy`: the idle timeout. */
    method Destroy()
      requires Valid()
      modifies this`status, this`aborted, this`failure, server`status, server`aborted, server`dropped
      ensures Valid() && status.Deregistered? && server.status.Deregistered?
    {
      failure := true;
      Shutdown();
      server.Shutdown();
      status := status.AfterCheck(sendBuffer == []);
      server.status := server.status.AfterCheck(server.outbox == []);
    }
  }

  /** Over any sequence of events and I/O outcomes both directions conserve their bytes. What an end
      got is always a prefix of what was meant for it, and all of it once the end went down by
      draining. */
  method Serve(conn: Connection, events: seq<Event>)
    requires conn.Valid()
    modifies conn, conn.client, conn.server
    ensures conn.Valid() && conn.request == old(conn.request)
    ensures conn.client.written <= conn.server.received && conn.server.wire <= conn.request + conn.client.received
    ensures !conn.client.broke ==> conn.client.written + conn.sendBuffer == conn.server.received
    ensures !conn.server.lost ==>
      conn.server.wire + conn.server.outbox == conn.request + conn.client.received
    ensures conn.status.IsShutdown() && !conn.aborted ==> conn.client.written == conn.server.received
    ensures conn.server.status.IsShutdown() && !conn.server.aborted ==>
      conn.server.wire == conn.request + conn.client.received
    ensures conn.status.Rank() >= old(conn.status).Rank() && conn.server.status.Rank() >= old(conn.server.status).Rank()
  {
    var i := 0;
    while i < |events|
      invariant i <= |events| && conn.Valid() && conn.request == old(conn.request)
      invariant conn.status.Rank() >= old(conn.status).Rank()
      invariant conn.server.status.Rank() >= old(conn.server.status).Rank()
    {
      if * {
        // nothing happened for too long
        conn.Destroy();
        break;
      }
      ghost var mid := conn.Ready(events[i]);
      i := i + 1;
    }
    conn.Summary();
  }
}

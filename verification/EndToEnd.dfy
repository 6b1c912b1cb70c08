/** Both sides of a relayed TCP connection together: the proxy next to the client and the server next
    to the target (src/proxy/tcp_server.rs, src/server/connection.rs). */
module EndToEnd {
  import opened Options
  import opened Streams
  import opened Tls
  import opened Wire
  import ProxyRelay
  import ServerRelay

  /** The network between the two delivers in order, and perhaps not everything. */
  ghost predicate Linked(p: ProxyRelay.Connection, s: ServerRelay.Connection)
    reads p.server, s.proxy
  {
    s.proxy.received <= p.server.wire && p.server.received <= s.proxy.wire
  }

  /** `p` asks for `dst` with a password that the server accepts. */
  ghost predicate Asks(p: ProxyRelay.Connection, s: ServerRelay.Connection, pass: seq<byte>, dst: SocketAddr)
    reads p
  {
    && |pass| == s.env.passLen && s.env.checkPass(pass)
    && p.request == RequestBytes(pass, 1, dst)
  }

  lemma Suffixes(request: seq<byte>, a: seq<byte>, b: seq<byte>)
    requires |request| <= |a| && a <= request + b
    ensures a[|request|..] <= b
  {
    assert (request + b)[|request|..] == b;
  }

  /** In whatever states the two sides are, once the server has handled the first read: it goes for
      the target that was asked for exactly if the whole request was in that read. */
  lemma TargetIffHeaderInFirstRead(p: ProxyRelay.Connection, s: ServerRelay.Connection, pass: seq<byte>, dst: SocketAddr)
    requires p.Valid() && s.Valid() && Linked(p, s) && Asks(p, s, pass, dst)
    requires !s.phase.HandShake? && dst.OnWire() != s.backAddr
    ensures s.target == Some(dst.OnWire()) <==> |p.request| <= |s.first|
    ensures s.target == if |p.request| <= |s.first| then Some(dst.OnWire()) else Some(s.backAddr)
    ensures |p.request| <= |s.first| ==> s.header == |p.request|
  {
    hide RequestBytes, ServerRelay.Decides, ServerRelay.Raw, ServerRelay.Image;
    ServerRelay.TargetIffWholeRequest(s.env, pass, dst, s.first, p.client.received, s.command, s.sock5, s.header);
  }

  /** The server went for the target that was asked for. Whatever was lost or broke on the way, the
      target got a prefix of what the client sent, and the client a prefix of what the target sent.
      Ends that went down by draining and a network that delivered everything make it all. */
  ghost predicate Carried(p: ProxyRelay.Connection, s: ServerRelay.Connection, dst: SocketAddr)
    requires s.backend != null
    reads p, p.client, p.server, s, s.proxy, s.backend, s.backend.conn
  {
    && s.backend.target == dst.OnWire()
    && s.backend.conn.written <= p.client.received
    && p.client.written <= s.backend.conn.received
    && (p.server.status.IsShutdown() && !p.server.aborted && s.proxy.received == p.server.wire &&
        s.backend.status.IsShutdown() && !s.backend.aborted ==>
          s.backend.conn.written == p.client.received)
    && (s.proxy.status.IsShutdown() && !s.proxy.aborted && p.server.received == s.proxy.wire &&
        p.status.IsShutdown() && !p.aborted ==>
          p.client.written == s.backend.conn.received)
  }

  /** Both sides in any states, the whole request in the first read. */
  lemma Transparent(p: ProxyRelay.Connection, s: ServerRelay.Connection, pass: seq<byte>, dst: SocketAddr)
    requires p.Valid() && s.Valid() && Linked(p, s) && Asks(p, s, pass, dst)
    requires s.backend != null && dst.OnWire() != s.backAddr && |p.request| <= |s.first|
    ensures Carried(p, s, dst)
  {
    TargetIffHeaderInFirstRead(p, s, pass, dst);
    s.Summary();
    p.Summary();
    Suffixes(p.request, s.proxy.received, p.client.received);
    assert (p.request + p.client.received)[|p.request|..] == p.client.received;
  }

  /** A server that failed to parse had all of the request but its last one or two bytes in its first
      read. */
  lemma FailedMeansCut(p: ProxyRelay.Connection, s: ServerRelay.Connection, pass: seq<byte>, dst: SocketAddr)
    requires p.Valid() && Linked(p, s) && Asks(p, s, pass, dst) && IsCutRequest(s.env, s.proxy.received)
    ensures |p.request| - 2 <= |s.proxy.received| < |p.request|
  {
    hide RequestBytes, IsCutRequest, ServerRelay.Decides, ServerRelay.Raw, ServerRelay.Image;
    var r := ParseRequest(s.env, s.proxy.received);
    ServerRelay.ParseDecides(s.env, s.proxy.received);
    if r.Request? {
      ServerRelay.TargetIffWholeRequest(s.env, pass, dst, s.proxy.received, p.client.received, r.command, r.address, r.offset);
    } else {
      ServerRelay.TargetIffWholeRequest(s.env, pass, dst, s.proxy.received, p.client.received, 1, NoAddress, 0);
    }
  }

  /** The proxy connects for a new client and queues the request. */
  method NewProxy(pass: seq<byte>, dst: SocketAddr, fromClient: seq<byte>, toProxy: seq<byte>, proxyBytes: nat)
    returns (ok: bool, p: ProxyRelay.Connection)
    ensures fresh(p) && fresh(p.client) && fresh(p.server)
    ensures ok ==> p.Valid() && p.request == RequestBytes(pass, 1, dst)
  {
    hide RequestBytes;
    var client := new Stream(fromClient);
    var server := new TlsConn(toProxy, proxyBytes);
    p := new ProxyRelay.Connection(client, server);
    ok := p.Setup(pass, dst);
  }

  /** A whole run: the proxy queues the request and serves; the server serves what arrives. What each
      connection will ever be sent is given in advance, so the two runs stand for any interleaving in
      which the network delivers in order (`Linked`). `ok` is false if queueing the request failed. */
  method Relay(env: Env, backAddr: SocketAddr, rewrite: ServerRelay.Rewrite, pass: seq<byte>, dst: SocketAddr,
               fromClient: seq<byte>, toProxy: seq<byte>, proxyBytes: nat, toServer: seq<byte>, serverBytes: nat,
               proxyEvents: seq<ProxyRelay.Event>, serverEvents: seq<ServerRelay.Event>)
    returns (ok: bool, p: ProxyRelay.Connection, s: ServerRelay.Connection)
    requires |pass| == env.passLen && env.checkPass(pass) && dst.OnWire() != backAddr
    ensures fresh(p) && fresh(s) && s.env == env && s.backAddr == backAddr
    ensures ok ==> p.Valid() && Asks(p, s, pass, dst) && (!s.panicked ==> s.Valid())
    ensures ok && Linked(p, s) && s.panicked ==> |p.request| - 2 <= |s.proxy.received| < |p.request|
    ensures ok && Linked(p, s) && !s.panicked && !s.phase.HandShake? ==>
      s.target == if |p.request| <= |s.first| then Some(dst.OnWire()) else Some(s.backAddr)
    ensures ok && Linked(p, s) && !s.panicked && s.backend != null && |p.request| <= |s.first| ==> Carried(p, s, dst)
  {
    hide RequestBytes, IsCutRequest, ServerRelay.Decides, ServerRelay.Raw, ServerRelay.Image;
    ok, p := NewProxy(pass, dst, fromClient, toProxy, proxyBytes);
    var proxy := new TlsConn(toServer, serverBytes);
    s := new ServerRelay.Connection(env, backAddr, rewrite, proxy);
    if !ok {
      return;
    }
    ProxyRelay.Serve(p, proxyEvents);
    ServerRelay.Serve(s, serverEvents);
    if Linked(p, s) {
      Conclude(p, s, pass, dst);
    }
  }

  lemma Conclude(p: ProxyRelay.Connection, s: ServerRelay.Connection, pass: seq<byte>, dst: SocketAddr)
    requires p.Valid() && Linked(p, s) && Asks(p, s, pass, dst) && dst.OnWire() != s.backAddr
    requires if s.panicked then IsCutRequest(s.env, s.proxy.received) else s.Valid()
    ensures s.panicked ==> |p.request| - 2 <= |s.proxy.received| < |p.request|
    ensures !s.panicked && !s.phase.HandShake? ==>
      s.target == if |p.request| <= |s.first| then Some(dst.OnWire()) else Some(s.backAddr)
    ensures !s.panicked && s.backend != null && |p.request| <= |s.first| ==> Carried(p, s, dst)
  {
    if s.panicked {
      FailedMeansCut(p, s, pass, dst);
    } else if !s.phase.HandShake? {
      TargetIffHeaderInFirstRead(p, s, pass, dst);
      if s.backend != null && |p.request| <= |s.first| {
        Transparent(p, s, pass, dst);
      }
    }
  }
}

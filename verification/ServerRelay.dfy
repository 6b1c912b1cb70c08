/** The server side of a CONNECT: handshake, wait for the target's address, forward
    (src/server/connection.rs, src/server/tcp_backend.rs). */
module ServerRelay {
  import opened Options
  import opened Status
  import opened Streams
  import opened Tls
  import opened Wire

  /** The connection to the target. */
  class TcpBackend {
    const conn: Stream
    const target: SocketAddr
    var status: ConnStatus
    var sendBuffer: seq<byte>
    /** Everything dispatched to this backend. */
    ghost var fed: seq<byte>
    /** Shut down by an error, the target's end of file or a timeout, not by draining. */
    ghost var aborted: bool
    ghost var timedOut: bool
    ghost var dispatches: nat

    constructor (conn: Stream, target: SocketAddr)
      requires conn.written == [] && !conn.broke && !conn.ended
      ensures Valid() && this.conn == conn && this.target == target && status == ConnStatus.Established
      ensures fed == [] && sendBuffer == [] && !aborted && !timedOut
    {
      this.conn, this.target, status, sendBuffer := conn, target, ConnStatus.Established, [];
      fed, aborted, timedOut, dispatches := [], false, false, 0;
    }

    /** What the target accepted and what is buffered is what was dispatched, and a prefix of it if
        the socket broke. The backend goes down when its socket breaks or ends, and for no other reason
        but a timeout, unless it is drained: then it has nothing buffered. */
    ghost predicate Valid()
      reads this, conn
    {
      && (if conn.broke then sendBuffer == [] && conn.written <= fed else conn.written + sendBuffer == fed)
      && (conn.broke ==> aborted) && (conn.ended ==> status.IsShutdown())
      && (aborted ==> status.IsShutdown() && (conn.broke || conn.ended || timedOut))
      && (status.IsShutdown() && !aborted ==> sendBuffer == [])
    }

    predicate CanWrite()
      reads this
    {
      sendBuffer == [] && status.Alive()
    }

    /** The state in which the socket has just ended, or too much time has passed. */
    ghost predicate Ending()
      reads this, conn
    {
      && (if conn.broke then sendBuffer == [] && conn.written <= fed else conn.written + sendBuffer == fed)
      && (conn.broke ==> aborted) && (conn.ended || timedOut)
      && (aborted ==> status.IsShutdown())
      && (status.IsShutdown() && !aborted ==> sendBuffer == [])
    }

    method Shutdown()
      requires Ending()
      modifies `status, `aborted
      ensures Valid() && status == old(status).OnShutdown()
      ensures aborted == (old(aborted) || !old(status).IsShutdown())
    {
      aborted := aborted || !status.IsShutdown();
      status := status.OnShutdown();
    }

    /** `dispatch`: send what is buffered, then the new bytes. Unless the socket broke, bytes stay
        behind only because it blocked. */
    method Dispatch(buffer: seq<byte>)
      requires Valid()
      requires buffer != [] ==> !status.IsShutdown()
      modifies `fed, `sendBuffer, `status, `aborted, `dispatches, conn`written, conn`lastWrite, conn`writes, conn`broke
      ensures Valid() && fed == old(fed) + buffer && (old(conn.broke) ==> conn.broke) && (old(aborted) ==> aborted)
      ensures status == if conn.broke then old(status).OnShutdown() else old(status)
      ensures conn.broke && !old(conn.broke) ==> Broke(conn) && conn.writes > old(conn.writes)
      ensures dispatches == old(dispatches) + 1
      ensures sendBuffer != [] ==> conn.lastWrite.Block? && conn.writes > old(conn.writes)
    {
      dispatches := dispatches + 1;
      assert old(conn.written) + (old(sendBuffer) + buffer) == old(conn.written) + old(sendBuffer) + buffer;
      fed := fed + buffer;
      if sendBuffer == [] {
        DoSend(buffer);
      } else {
        var all := sendBuffer + buffer;
        sendBuffer := [];
        DoSend(all);
      }
    }

    method DoSend(data: seq<byte>)
      requires sendBuffer == [] && (status.IsShutdown() && !aborted ==> data == [])
      requires aborted ==> status.IsShutdown() && (conn.broke || conn.ended || timedOut)
      requires (conn.broke ==> aborted) && (conn.ended ==> status.IsShutdown())
      requires if conn.broke then data == [] && conn.written <= fed else conn.written + data == fed
      modifies `sendBuffer, `status, `aborted, conn`written, conn`lastWrite, conn`writes, conn`broke
      ensures Valid() && (old(conn.broke) ==> conn.broke) && (old(aborted) ==> aborted)
      ensures status == if conn.broke then old(status).OnShutdown() else old(status)
      ensures conn.broke && !old(conn.broke) ==> Broke(conn) && conn.writes > old(conn.writes)
      ensures sendBuffer != [] ==> conn.lastWrite.Block? && conn.writes > old(conn.writes)
    {
      var ok;
      ghost var k;
      ok, sendBuffer, k := TcpSend(conn, sendBuffer, data);
      SentAndLeft(old(conn.written), data, k);
      if !ok {
        aborted := true;
        status := status.OnShutdown();
      }
    }

    /** `do_read`: target to client; the end of the target's stream shuts the backend down. */
    method DoRead(tls: TlsConn)
      requires Valid() && tls.Valid() && !tls.status.IsShutdown()
      modifies `status, `aborted, conn`pending, conn`received, conn`lastRead, conn`readCalls, conn`ended
      modifies tls`status, tls`aborted, tls`failed, tls`outbox, tls`lost, tls`writable, tls`wire, tls`sendCalls, tls`lastWrite, tls`pushes
      ensures Valid() && tls.Valid() && (old(aborted) ==> aborted)
      ensures status == if conn.ended then old(status).OnShutdown() else old(status)
      ensures conn.ended && !old(conn.ended) ==> AtEnd(conn)
      ensures conn.ended || conn.lastRead.Block? || tls.lost
      ensures IoMove(old(tls.status), tls.status) && tls.sendCalls == old(tls.sendCalls) + 1
      ensures tls.pushes >= old(tls.pushes) && (!old(tls.status).Connecting? ==> tls.Pushed(old(tls.pushes)))
      ensures old(tls.status).Connecting? && !tls.lost ==> tls.status.Connecting?
      ensures old(conn.received) <= conn.received && conn.readCalls > old(conn.readCalls)
      ensures var relayed := old(tls.wire + tls.outbox) + conn.received[|old(conn.received)|..];
              if tls.lost then tls.wire + tls.outbox <= relayed else tls.wire + tls.outbox == relayed
    {
      var ok;
      ghost var got;
      ok, got := TcpRead(conn, tls);
      assert tls.wire + (old(tls.outbox) + got) == old(tls.wire + tls.outbox) + got;
      assert tls.wire + tls.outbox <= tls.wire + (old(tls.outbox) + got);
      if !ok {
        Shutdown();
      }
      tls.DoSend();
    }
  }

  datatype Phase = HandShake | DnsWait | TcpForward | UdpForward | PingServing

  datatype Event =
    | ProxyEvent(readable: bool, writeable: bool)
    | BackendEvent(readable: bool, writeable: bool)
    | DnsResult(ip: Option<Ip>)

  /** What the first read means: the command, the address and the length of the request at its front;
      a CONNECT without an address if there is none. */
  ghost predicate Decides(env: Env, first: seq<byte>, command: byte, address: Sock5Address, header: nat) {
    if exists c, a, n :: IsRequestAt(env, first, c, a, n) then IsRequestAt(env, first, command, address, header)
    else command == 1 && address.NoAddress? && header == 0
  }

  lemma ParseDecides(env: Env, first: seq<byte>)
    ensures var p := ParseRequest(env, first);
            if p.Request? then Decides(env, first, p.command, p.address, p.offset) else Decides(env, first, 1, NoAddress, 0)
  {
    hide ParseRequest, IsRequestAt;
    ParseFindsRequest(env, first);
  }

  lemma DecidesIsParse(env: Env, first: seq<byte>, command: byte, address: Sock5Address, header: nat)
    requires Decides(env, first, command, address, header)
    ensures var p := ParseRequest(env, first);
            if p.Request? then command == p.command && address == p.address && header == p.offset
            else command == 1 && address.NoAddress? && header == 0
  {
    hide ParseRequest, IsRequestAt;
    ParseFindsRequest(env, first);
    if IsRequestAt(env, first, command, address, header) {
      RequestInside(env, first, command, address, header);
      RequestIff(env, first, command, address, first[header..], header);
    }
  }

  /** What the first read makes of a client's stream that starts with a generated CONNECT request. The
      whole request: the server takes the target from it and cuts off exactly the request. All but one
      or two bytes: the parser fails. Less: the fallback address is the target and nothing is cut off. */
  lemma TargetIffWholeRequest(env: Env, pass: seq<byte>, addr: SocketAddr, first: seq<byte>, more: seq<byte>,
                              command: byte, address: Sock5Address, header: nat)
    requires |pass| == env.passLen && env.checkPass(pass) && Decides(env, first, command, address, header)
    requires first <= RequestBytes(pass, CONNECT, addr) + more
    ensures command == 1
    ensures if |RequestBytes(pass, CONNECT, addr)| <= |first|
            then address == Socket(addr.OnWire()) && header == |RequestBytes(pass, CONNECT, addr)|
            else address.NoAddress? && header == 0
    ensures IsCutRequest(env, first) <==>
      |RequestBytes(pass, CONNECT, addr)| - 2 <= |first| < |RequestBytes(pass, CONNECT, addr)|
  {
    hide ParseRequest, RequestBytes, IsCutRequest, Decides;
    var request := RequestBytes(pass, CONNECT, addr);
    DecidesIsParse(env, first, command, address, header);
    RequestPanicIff(env, first);
    if |request| <= |first| {
      var rest := first[|request|..];
      assert first[..|request|] == (request + more)[..|request|] == request;
      assert first == request + rest;
      RequestRoundTrip(env, pass, CONNECT, addr, rest);
    } else {
      assert first == (request + more)[..|first|] == request[..|first|];
      CutIff(env, pass, CONNECT, addr, first);
      PartIsNoRequest(env, pass, addr, first);
    }
  }

  lemma PartIsNoRequest(env: Env, pass: seq<byte>, addr: SocketAddr, first: seq<byte>)
    requires |pass| == env.passLen && env.checkPass(pass)
    requires first <= RequestBytes(pass, CONNECT, addr) && first != RequestBytes(pass, CONNECT, addr)
    ensures !ParseRequest(env, first).Request?
  {
    hide ParseRequest, RequestBytes;
    var request := RequestBytes(pass, CONNECT, addr);
    if ParseRequest(env, first).Request? {
      var missing := request[|first|..];
      assert first + missing == request && request + [] == request;
      RequestStable(env, first, missing);
      RequestRoundTrip(env, pass, CONNECT, addr, []);
    }
  }

  // ---------- what the fallback address gets ----------

  /** How a complete request head is found, and the line that is put at its end. */
  datatype Rewrite = Rewrite(headEnd: seq<byte> -> Option<nat>, forwarded: seq<byte>)

  /** A complete head loses its last line break and gets the line and two line breaks instead. */
  function Rewritten(w: Rewrite, piece: seq<byte>): seq<byte> {
    match w.headEnd(piece)
    case Some(n) => if 2 <= n <= |piece| then piece[..n - 2] + w.forwarded + [13, 10, 13, 10] + piece[n..] else piece
    case None => piece
  }

  /** In a head that ends in a line break the line is put in front of that, and nothing else changes. */
  lemma RewrittenInsertsLine(w: Rewrite, piece: seq<byte>, n: nat)
    requires w.headEnd(piece) == Some(n) && 2 <= n <= |piece| && piece[n - 2..n] == [13, 10]
    ensures Rewritten(w, piece) == piece[..n - 2] + (w.forwarded + [13, 10]) + piece[n - 2..]
  {
    var lineBreak: seq<byte> := [13, 10];
    assert piece[n - 2..] == lineBreak + piece[n..];
    assert [13, 10, 13, 10] == lineBreak + lineBreak;
  }

  /** A piece of the client's bytes, and whether it was rewritten. */
  type Piece = (seq<byte>, bool)

  function Raw(pieces: seq<Piece>): seq<byte> {
    if pieces == [] then [] else Raw(pieces[..|pieces| - 1]) + pieces[|pieces| - 1].0
  }

  function Image(w: Rewrite, pieces: seq<Piece>): seq<byte> {
    if pieces == [] then []
    else
      var (piece, marked) := pieces[|pieces| - 1];
      Image(w, pieces[..|pieces| - 1]) + if marked then Rewritten(w, piece) else piece
  }

  lemma OneMorePiece(w: Rewrite, pieces: seq<Piece>, piece: seq<byte>, marked: bool)
    ensures Raw(pieces + [(piece, marked)]) == Raw(pieces) + piece
    ensures Image(w, pieces + [(piece, marked)]) == Image(w, pieces) + if marked then Rewritten(w, piece) else piece
  {
    assert (pieces + [(piece, marked)])[..|pieces|] == pieces;
  }

  predicate Unmarked(pieces: seq<Piece>) {
    forall k :: 0 <= k < |pieces| ==> !pieces[k].1
  }

  lemma {:induction false} UnmarkedImage(w: Rewrite, pieces: seq<Piece>)
    requires Unmarked(pieces)
    ensures Image(w, pieces) == Raw(pieces)
  {
    if pieces != [] { UnmarkedImage(w, pieces[..|pieces| - 1]); }
  }

  /** A read owed to an end is still owed or has been made. */
  predicate ReadKept(wasOwed: bool, owed: bool, callsBefore: nat, calls: nat) {
    wasOwed ==> owed || calls > callsBefore
  }

  lemma StandingStill(s: ConnStatus)
    ensures IoMove(s, s)
  {
  }

  lemma MovesCompose(a: ConnStatus, b: ConnStatus, c: ConnStatus)
    requires IoMove(a, b) && IoMove(b, c)
    ensures IoMove(a, c)
  {
  }

  /** The part of a connection that handing bytes on leaves alone. */
  datatype Rest = Rest(command: byte, sock5: Sock5Address, target: Option<SocketAddr>, awaiting: bool,
                       dispatched: seq<byte>, panicked: bool, readProxy: bool, readBackend: bool)

  class Connection {
    const env: Env
    const backAddr: SocketAddr
    /** The X-Forwarded-For rewrite of data for the fallback address. */
    const rewrite: Rewrite
    const proxy: TlsConn
    var backend: TcpBackend?
    var phase: Phase
    var command: byte
    var sock5: Sock5Address
    var target: Option<SocketAddr>
    var data: seq<byte>
    var readProxy: bool
    var readBackend: bool
    /** The parser indexed past the end of the first read. */
    var panicked: bool
    /** The client bytes handled so far and the length of the request header in front of them. */
    ghost var dispatched: seq<byte>
    ghost var header: nat
    /** What the first read delivered; the request is parsed from it alone. */
    ghost var first: seq<byte>
    /** The client bytes after the header, as they were handled. */
    ghost var pieces: seq<Piece>
    /** What was handed to the backend. */
    ghost var handed: seq<byte>
    /** A connect, the setup of a socket or a lookup failed, or nothing happened for too long. */
    ghost var failure: bool
    /** The resolver owes an answer; it gives one for each question. */
    var awaiting: bool

    constructor (env: Env, backAddr: SocketAddr, rewrite: Rewrite, proxy: TlsConn)
      requires proxy.Valid() && proxy.status.Connecting? && proxy.received == [] && proxy.wire + proxy.outbox == []
      requires !proxy.dropped
      ensures Valid() && this.env == env && this.backAddr == backAddr && this.proxy == proxy && phase.HandShake? && !panicked && backend == null
    {
      this.env, this.backAddr, this.rewrite, this.proxy := env, backAddr, rewrite, proxy;
      backend, phase, command, sock5, target := null, HandShake, 0, NoAddress, None;
      data, readProxy, readBackend, panicked, awaiting := [], false, false, false, false;
      dispatched, header, first, pieces, handed, failure := [], 0, [], [], [], false;
    }

    /** What the first read decided. The target of a CONNECT is set once: to the address in the
        request, to the fallback address if there is none, or to the answer of the resolver. */
    ghost predicate Handshaken()
      reads `header, `first, `command, `sock5, `target, `awaiting
    {
      && Decides(env, first, command, sock5, header) && header <= |first|
      && (command == 1 ==>
            && (sock5.Socket? ==> target == Some(sock5.addr))
            && (sock5.NoAddress? ==> target == Some(backAddr))
            && (sock5.Domain? && target.Some? ==> target.value.port == sock5.port))
      && (awaiting ==> command == 1 && sock5.Domain? && target.None?)
    }

    /** The pieces are the client's bytes after the header without `rest`, which is being handled; only
        those for the fallback address are rewritten. */
    ghost predicate Accounted(total: seq<byte>, rest: seq<byte>)
      requires header <= |total|
      reads `pieces, `header, `target
    {
      && Raw(pieces) + rest == total[header..]
      && (target != Some(backAddr) ==> Unmarked(pieces))
    }

    /** The image of the pieces is, in order: accepted by the target, in the backend's buffer, in
        `data`. */
    ghost predicate Conserved(total: seq<byte>, rest: seq<byte>)
      reads `phase, `data, `backend, `header, `first, `command, `sock5, `target, `awaiting, `pieces, `handed
    {
      && (!phase.HandShake? ==> first <= total && Handshaken())
      && match phase
      case HandShake => backend == null && data == [] && pieces == [] && rest == total && target.None? && !awaiting
      case DnsWait =>
        backend == null && (command == 1 ==> Accounted(total, rest) && data == Image(rewrite, pieces))
      case TcpForward =>
        && command == 1 && target.Some?
        && (backend != null ==>
              && data == [] && target == Some(backend.target)
              && Accounted(total, rest) && handed == Image(rewrite, pieces))
      case _ => backend == null && command != 1
    }

    ghost function Others(): Rest
      reads `command, `sock5, `target, `awaiting, `dispatched, `panicked, `readProxy, `readBackend
    {
      Rest(command, sock5, target, awaiting, dispatched, panicked, readProxy, readBackend)
    }

    ghost function TargetConn(): set<Stream>
      reads `backend
    {
      if backend != null then {backend.conn} else {}
    }

    /** What came from the target. */
    ghost function Relayed(): seq<byte>
      reads `backend, backend, TargetConn()
    {
      if backend != null then backend.conn.received else []
    }

    /** The two ends by themselves, and target to client: what is on the wire or queued for it is what
        came from the target, and a prefix of it if the session failed. */
    ghost predicate EndsValid()
      reads `backend, `failure, `handed, proxy, backend, TargetConn()
    {
      && proxy.Valid() && (proxy.dropped ==> failure)
      && (backend != null ==> backend.Valid() && backend.fed == handed && (backend.timedOut ==> failure))
      && (if proxy.lost then proxy.wire + proxy.outbox <= Relayed() else proxy.wire + proxy.outbox == Relayed())
    }

    /** A CONNECT whose target is known has a backend, or the client's end is down. */
    predicate NotStuck()
      reads `phase, `command, `target, `backend, proxy`status
    {
      !phase.HandShake? && command == 1 && target.Some? && backend == null ==> proxy.status.IsShutdown()
    }

    /** What every step of an event keeps. */
    ghost predicate Sound()
      reads `phase, `data, `backend, `header, `first, `command, `sock5, `target, `awaiting, `dispatched
      reads `pieces, `handed, `failure, proxy, backend, TargetConn()
    {
      EndsValid() && NotStuck() && Conserved(dispatched, [])
    }

    ghost predicate Valid()
      reads this, proxy, backend, TargetConn()
    {
      && Sound() && dispatched == proxy.received
      && if backend != null then Settled(Ends(proxy.status, backend.status))
         else !proxy.status.PeerClosed?
    }

    /** `try_handshake`: false if the parser panicked. Anything but a complete request is passed
        through to the fallback address, header and all. */
    method TryHandshake(buffer: seq<byte>) returns (ok: bool, rest: seq<byte>)
      requires phase.HandShake? && Conserved(buffer, buffer)
      modifies `command, `sock5, `target, `header, `first, `awaiting
      ensures ok <==> !IsCutRequest(env, buffer)
      ensures ok ==> first == buffer && Handshaken() && rest == buffer[header..]
      ensures ok && command == 1 && sock5.Domain? ==> (awaiting <==> target.None?)
    {
      hide ParseRequest, IsCutRequest, Decides;
      RequestPanicIff(env, buffer);
      ParseDecides(env, buffer);
      rest, first := buffer, buffer;
      header := 0;
      var p := ParseRequest(env, buffer);
      if p.RequestPanic? {
        return false, rest;
      }
      if p.Request? {
        command, sock5, rest := p.command, p.address, p.payload;
        header := p.offset;
      } else {
        command, sock5 := CONNECT, NoAddress;
      }
      match sock5 {
        case Domain(_, port) =>
          if command != CONNECT {
            return true, rest;
          }
          if * {
            // the resolver's cache knows the name
            var ip: Ip :| true;
            target := Some(SocketAddrNew(ip, port));
          } else {
            awaiting := true;
          }
        case Socket(address) =>
          target := Some(address);
        case NoAddress =>
          target := Some(backAddr);
      }
      return true, rest;
    }

    /** `try_setup_tcp_target`: connects and hands over what was cached. On success of the connect
        but failure of the setup the phase moves on without a backend. */
    method TrySetupTcpTarget() returns (ok: bool)
      requires backend == null && target.Some? && proxy.Valid()
      modifies `backend, `data, `failure, proxy`status, proxy`aborted, proxy`dropped
      ensures proxy.Valid() && (old(failure) ==> failure) && (proxy.dropped ==> failure || old(proxy.dropped))
      ensures backend != null ==> !backend.timedOut && failure == old(failure) && proxy.dropped == old(proxy.dropped)
      ensures !ok ==> backend == null && data == old(data) && proxy.status == old(proxy.status).OnShutdown()
      ensures ok && backend == null ==> data == old(data) && proxy.status == old(proxy.status).OnShutdown()
      ensures backend != null ==>
        && ok && fresh(backend) && fresh(backend.conn) && backend.Valid()
        && data == [] && backend.fed == old(data) && backend.target == target.value && backend.conn.received == []
        && proxy.status == old(proxy.status)
        && (backend.status == ConnStatus.Established || (backend.status.Shutdown? && backend.aborted))
      ensures proxy.status == old(proxy.status) || proxy.status == old(proxy.status).OnShutdown()
    {
      if * {
        // the connect failed
        failure := true;
        proxy.Shutdown();
        return false;
      }
      if * {
        // setting up the socket failed
        failure := true;
        proxy.Shutdown();
        return true;
      }
      var incoming: seq<byte> :| true;
      var conn := new Stream(incoming);
      var b := new TcpBackend(conn, target.value);
      if data != [] {
        b.Dispatch(data);
        data := [];
      }
      backend := b;
      return true;
    }

    /** Puts the data into the cache, rewritten if it is for the fallback address and the client's address
        is known. */
    method CachePiece(rest: seq<byte>, ghost total: seq<byte>)
      requires phase.DnsWait? && command == 1 && Conserved(total, rest)
      modifies `data, `pieces
      ensures Conserved(total, [])
      ensures data == old(data) + rest || (target == Some(backAddr) && data == old(data) + Rewritten(rewrite, rest))
    {
      hide Decides, Rewritten, Raw, Image, Handshaken;
      var image := rest;
      ghost var marked := false;
      if target == Some(backAddr) {
        if * {
          image := Rewritten(rewrite, rest);
          marked := true;
        }
      }
      OneMorePiece(rewrite, pieces, rest, marked);
      pieces := pieces + [(rest, marked)];
      data := data + image;
      assert Raw(pieces) + [] == Raw(pieces);
    }

    /** The CONNECT arm of `dispatch` while waiting for the target: cache the data, connect once
        the target is known. */
    method CacheAndConnect(rest: seq<byte>, ghost total: seq<byte>)
      requires phase.DnsWait? && command == 1 && Conserved(total, rest) && EndsValid() && backend == null
      modifies `data, `backend, `phase, `pieces, `handed, `failure, proxy`status, proxy`aborted, proxy`dropped
      ensures Conserved(total, []) && EndsValid()
      ensures phase.DnsWait? || phase.TcpForward?
      ensures target.None? ==> phase.DnsWait? && proxy.status == old(proxy.status)
      ensures target.Some? && backend == null ==> proxy.status.IsShutdown()
      ensures proxy.status == old(proxy.status) || proxy.status == old(proxy.status).OnShutdown()
      ensures backend != null ==>
        && phase.TcpForward? && fresh(backend) && fresh(backend.conn)
        && !backend.status.Deregistered? && !backend.status.PeerClosed?
    {
      hide Conserved;
      CachePiece(rest, total);
      if target.Some? {
        ConnectNow(total);
      }
    }

    method ConnectNow(ghost total: seq<byte>)
      requires phase.DnsWait? && command == 1 && Conserved(total, []) && EndsValid() && target.Some?
      modifies `data, `backend, `phase, `handed, `failure, proxy`status, proxy`aborted, proxy`dropped
      ensures Conserved(total, []) && EndsValid()
      ensures phase.DnsWait? || phase.TcpForward?
      ensures backend == null ==> proxy.status.IsShutdown()
      ensures proxy.status == old(proxy.status) || proxy.status == old(proxy.status).OnShutdown()
      ensures backend != null ==>
        && phase.TcpForward? && fresh(backend) && fresh(backend.conn)
        && !backend.status.Deregistered? && !backend.status.PeerClosed?
    {
      hide Decides, Accounted, Handshaken, Image, Raw;
      var ok := TrySetupTcpTarget();
      if ok {
        phase := TcpForward;
        handed := if backend != null then backend.fed else [];
      }
    }

    /** `dispatch`: the state loop. */
    method Dispatch(buffer: seq<byte>)
      requires EndsValid() && Conserved(dispatched + buffer, buffer) && !panicked
      requires phase.HandShake? ==> dispatched == []
      requires backend != null && buffer != [] ==> !backend.status.IsShutdown()
      requires !phase.DnsWait? ==> NotStuck()
      modifies this, proxy`status, proxy`aborted, proxy`dropped, backend, TargetConn()
      ensures dispatched == old(dispatched) + buffer && readProxy == old(readProxy) && readBackend == old(readBackend)
      ensures !panicked ==> Sound()
      ensures panicked <==> old(phase).HandShake? && IsCutRequest(env, buffer)
      ensures phase == old(phase) || old(phase).HandShake? || old(phase).DnsWait?
      ensures IoMove(old(proxy.status), proxy.status)
      ensures old(backend) != null ==>
        && backend == old(backend) && proxy.status == old(proxy.status) && backend.conn.readCalls == old(backend.conn.readCalls)
        && IoMove(old(backend.status), backend.status) && backend.dispatches >= old(backend.dispatches)
      ensures old(backend) == null && backend != null ==>
        fresh(backend) && fresh(backend.conn) && !backend.status.Deregistered? && !backend.status.PeerClosed?
      ensures !old(phase).HandShake? ==> Others() == old(Others()).(dispatched := dispatched)
      ensures old(phase).DnsWait? && command == 1 && target.Some? ==> phase.TcpForward? || proxy.status.IsShutdown()
    {
      OnlyForwardHasBackend(dispatched + buffer, buffer);
      hide Conserved, EndsValid, IsCutRequest, IoMove, NotStuck, Sound;
      dispatched := dispatched + buffer;
      if phase.HandShake? {
        Start(buffer);
      } else {
        Advance(buffer);
      }
    }

    /** The first read. */
    method Start(buffer: seq<byte>)
      requires phase.HandShake? && EndsValid() && Conserved(buffer, buffer) && !panicked && dispatched == buffer && backend == null
      modifies this, proxy`status, proxy`aborted, proxy`dropped
      ensures dispatched == old(dispatched) && readProxy == old(readProxy) && readBackend == old(readBackend)
      ensures if panicked then IsCutRequest(env, buffer) else Sound() && !IsCutRequest(env, buffer)
      ensures IoMove(old(proxy.status), proxy.status)
      ensures backend != null ==>
        fresh(backend) && fresh(backend.conn) && !backend.status.Deregistered? && !backend.status.PeerClosed?
    {
      StandingStill(proxy.status);
      hide Conserved, EndsValid, IsCutRequest, IoMove, NotStuck, Sound;
      var ok, rest := BeginWait(buffer);
      if ok {
        Leave(rest);
      } else {
        panicked := true;
      }
    }

    /** The other arms of the loop. */
    method Advance(rest: seq<byte>)
      requires !phase.HandShake? && Conserved(dispatched, rest) && EndsValid() && (!phase.DnsWait? ==> NotStuck())
      requires backend != null && rest != [] ==> !backend.status.IsShutdown()
      modifies this, proxy`status, proxy`aborted, proxy`dropped, backend, TargetConn()
      ensures Others() == old(Others())
      ensures old(backend) != null ==> backend == old(backend) && backend.conn.readCalls == old(backend.conn.readCalls)
      ensures Sound()
      ensures phase == old(phase) || old(phase).DnsWait?
      ensures old(phase).DnsWait? && command == 1 && target.Some? ==> phase.TcpForward? || proxy.status.IsShutdown()
      ensures IoMove(old(proxy.status), proxy.status)
      ensures old(backend) != null ==>
        && backend == old(backend) && proxy.status == old(proxy.status)
        && IoMove(old(backend.status), backend.status) && backend.dispatches >= old(backend.dispatches)
      ensures old(backend) == null && backend != null ==>
        fresh(backend) && fresh(backend.conn) && !backend.status.Deregistered? && !backend.status.PeerClosed?
    {
      OnlyForwardHasBackend(dispatched, rest);
      StandingStill(proxy.status);
      hide Conserved, EndsValid, NotStuck, IoMove, Sound, Others;
      if phase.DnsWait? {
        Leave(rest);
      } else {
        Forward(rest);
      }
    }

    /** From waiting on to the target, if it can be reached. */
    method Leave(rest: seq<byte>)
      requires phase.DnsWait? && Conserved(dispatched, rest) && EndsValid() && backend == null
      modifies this, proxy`status, proxy`aborted, proxy`dropped
      ensures Others() == old(Others())
      ensures Sound() && !phase.HandShake?
      ensures command == 1 && target.Some? ==> phase.TcpForward? || proxy.status.IsShutdown()
      ensures IoMove(old(proxy.status), proxy.status)
      ensures backend != null ==>
        fresh(backend) && fresh(backend.conn) && !backend.status.Deregistered? && !backend.status.PeerClosed?
    {
      hide Conserved, EndsValid, NotStuck, IoMove;
      var left := TryConnect(rest, dispatched);
      if !phase.DnsWait? {
        Forward(left);
      }
    }

    /** The arm that waits for the target; it leaves nothing of `rest` to forward. */
    method TryConnect(rest: seq<byte>, ghost total: seq<byte>) returns (left: seq<byte>)
      requires phase.DnsWait? && Conserved(total, rest) && EndsValid() && backend == null
      modifies `data, `backend, `phase, `pieces, `handed, `failure, proxy`status, proxy`aborted, proxy`dropped
      ensures left == [] && Conserved(total, []) && EndsValid() && !phase.HandShake?
      ensures command == 1 && target.Some? ==> phase.TcpForward? || proxy.status.IsShutdown()
      ensures NotStuck()
      ensures IoMove(old(proxy.status), proxy.status)
      ensures backend != null ==>
        fresh(backend) && fresh(backend.conn) && !backend.status.Deregistered? && !backend.status.PeerClosed?
    {
      hide Conserved, EndsValid;
      if command == CONNECT {
        CacheAndConnect(rest, total);
      } else {
        SetupOther(rest, total);
      }
      left := [];
    }

    /** The handshake arm. */
    method BeginWait(buffer: seq<byte>) returns (ok: bool, rest: seq<byte>)
      requires phase.HandShake? && Conserved(buffer, buffer) && EndsValid()
      modifies this
      ensures dispatched == old(dispatched) && panicked == old(panicked) && backend == old(backend)
      ensures readProxy == old(readProxy) && readBackend == old(readBackend)
      ensures ok <==> !IsCutRequest(env, buffer)
      ensures ok ==> phase.DnsWait? && Conserved(buffer, rest) && EndsValid()
    {
      hide Decides, IsCutRequest;
      ok, rest := TryHandshake(buffer);
      if ok {
        assert Raw([]) + rest == rest && Image(rewrite, []) == [];
        phase := DnsWait;
      }
    }

    /** The arm of the phases with a backend. */
    method Forward(rest: seq<byte>)
      requires !phase.HandShake? && !phase.DnsWait? && Conserved(dispatched, rest) && EndsValid() && NotStuck()
      requires backend != null && rest != [] ==> !backend.status.IsShutdown()
      modifies this, backend, TargetConn()
      ensures Others() == old(Others()) && phase == old(phase) && backend == old(backend)
      ensures Sound()
      ensures backend != null ==> backend.conn.readCalls == old(backend.conn.readCalls)
      ensures backend != null ==>
        && IoMove(old(backend.status), backend.status) && backend.dispatches == old(backend.dispatches) + 1
        && (!old(backend.status).Deregistered? && !old(backend.status).PeerClosed? ==>
              !backend.status.Deregistered? && !backend.status.PeerClosed?)
    {
      hide Conserved, EndsValid, NotStuck;
      OnlyForwardHasBackend(dispatched, rest);
      if backend != null {
        PassOn(rest);
      } else {
        NothingToPassOn(rest);
      }
    }

    lemma NothingToPassOn(rest: seq<byte>)
      requires !phase.HandShake? && !phase.DnsWait? && Conserved(dispatched, rest) && backend == null
      ensures Conserved(dispatched, [])
    {
    }

    method PassOn(rest: seq<byte>)
      requires phase.TcpForward? && Conserved(dispatched, rest) && EndsValid() && backend != null
      requires rest != [] ==> !backend.status.IsShutdown()
      modifies `pieces, `handed, backend, backend.conn
      ensures Sound() && backend.conn.readCalls == old(backend.conn.readCalls)
      ensures IoMove(old(backend.status), backend.status) && backend.dispatches == old(backend.dispatches) + 1
    {
      hide Decides, Image, Raw;
      OneMorePiece(rewrite, pieces, rest, false);
      pieces := pieces + [(rest, false)];
      assert Accounted(dispatched, []) by { assert Raw(pieces) + [] == Raw(pieces); }
      hide Accounted, Handshaken;
      handed := handed + rest;
      backend.Dispatch(rest);
    }

    /** The other two commands install backends that this class does not follow. */
    method SetupOther(rest: seq<byte>, ghost total: seq<byte>)
      requires phase.DnsWait? && command != 1 && Conserved(total, rest) && EndsValid()
      modifies `phase, `failure, proxy`status, proxy`aborted, proxy`dropped
      ensures Conserved(total, []) && EndsValid()
      ensures proxy.status == old(proxy.status) || proxy.status == old(proxy.status).OnShutdown()
      ensures phase == (if command == PING then PingServing else UdpForward) ||
              (phase.DnsWait? && command != PING && proxy.status.IsShutdown())
    {
      if command == PING {
        phase := PingServing;
      } else if * {
        // binding the socket failed
        failure := true;
        proxy.Shutdown();
      } else {
        if * {
          // registering it failed
          failure := true;
          proxy.Shutdown();
        }
        phase := UdpForward;
      }
    }

    /** What I/O may do to the two ends: statuses move as `IoMove` allows, the backend stays, and
        a new one is neither draining nor deregistered. */
    twostate predicate IoStep()
      reads `backend, proxy`status, if backend != null then {backend} else {}`status
      reads if backend != null then {backend} else {}`dispatches
    {
      && IoMove(old(proxy.status), proxy.status)
      && (old(backend) != null ==>
            backend == old(backend) && IoMove(old(backend.status), backend.status) &&
            backend.dispatches >= old(backend.dispatches))
      && (old(backend) == null && backend != null ==> !backend.status.Deregistered? && !backend.status.PeerClosed?)
    }

    method TryReadProxy()
      requires Sound() && dispatched == proxy.received && !panicked
      requires backend != null ==> !backend.status.IsShutdown()
      modifies this, proxy, backend, TargetConn()
      ensures proxy.sendCalls == old(proxy.sendCalls) && proxy.pushes == old(proxy.pushes)
      ensures old(backend) != null ==> backend == old(backend) && backend.conn.readCalls == old(backend.conn.readCalls)
      ensures dispatched == proxy.received && proxy.readCalls == old(proxy.readCalls) + 1
      ensures panicked ==> IsCutRequest(env, proxy.received)
      ensures !panicked ==> Sound()
      ensures IoStep() && (old(backend) == null && backend != null ==> fresh(backend) && fresh(backend.conn))
      ensures readBackend == old(readBackend) && readProxy == old(readProxy)
    {
      hide Sound, Conserved, EndsValid, NotStuck, IsCutRequest;
      var got := FetchProxy();
      if got != [] {
        assert dispatched == [] ==> proxy.received == got;
        Dispatch(got);
      }
    }

    /** `do_read` of the client's end; `got` is still to be dispatched. */
    method FetchProxy() returns (got: seq<byte>)
      requires Sound() && dispatched == proxy.received
      modifies proxy`status, proxy`aborted, proxy`failed, proxy`pending, proxy`raw, proxy`plain, proxy`cipher
      modifies proxy`received, proxy`readCalls, proxy`lastRead, proxy`fetches
      ensures proxy.received == old(proxy.received) + got && proxy.readCalls == old(proxy.readCalls) + 1
      ensures EndsValid() && NotStuck() && Conserved(dispatched + got, got)
      ensures got == [] ==> Sound() && proxy.received == dispatched
      ensures phase.HandShake? ==> dispatched == []
      ensures IoMove(old(proxy.status), proxy.status) && proxy.fetches > old(proxy.fetches)
    {
      hide Decides, Raw, Image, Handshaken, Accounted;
      var r := proxy.DoRead();
      got := if r.Some? then r.value else [];
      StillConserved(dispatched, got);
      assert got == [] ==> dispatched + got == dispatched;
    }

    /** `try_resolve`: the resolver's answer arrives. The guards of the code always hold: a question
        is asked for a name only, and the phase waits for the answer. */
    method TryResolve(ip: Option<Ip>)
      requires Sound() && dispatched == proxy.received && !panicked && awaiting
      modifies this, proxy`status, proxy`aborted, proxy`dropped
      ensures old(backend) == null
      ensures dispatched == proxy.received && !panicked && Sound() && !awaiting
      ensures IoStep() && (backend != null ==> fresh(backend) && fresh(backend.conn))
      ensures old(phase).DnsWait? && sock5.Domain?
      ensures ip.None? ==> proxy.status.IsShutdown() && target.None?
      ensures ip.Some? ==>
        && (phase.TcpForward? || proxy.status.IsShutdown()) && target.Some?
        && match ip.value
           case V4(octets) => target.value.Addr4? && target.value.octets == octets && target.value.port == sock5.port
           case V6(segments) => target.value.Addr6? && target.value.segments == segments && target.value.port == sock5.port
      ensures readProxy == old(readProxy) && readBackend == old(readBackend) && sock5 == old(sock5) && command == old(command)
    {
      hide Sound;
      OnlyNamesAwait();
      hide IoMove;
      StandingStill(proxy.status);
      if phase.DnsWait? && sock5.Domain? {
        match ip {
          case Some(address) =>
            Resolved(SocketAddrNew(address, sock5.port));
          case None =>
            GiveUp();
        }
      }
    }

    /** The target is known now. */
    method Resolved(address: SocketAddr)
      requires Sound() && awaiting && !panicked && phase.DnsWait? && sock5.Domain? && command == 1 && backend == null
      requires address.port == sock5.port
      modifies this, proxy`status, proxy`aborted, proxy`dropped
      ensures Sound() && Others() == old(Others()).(target := Some(address), awaiting := false)
      ensures phase.TcpForward? || proxy.status.IsShutdown()
      ensures IoMove(old(proxy.status), proxy.status)
      ensures backend != null ==>
        fresh(backend) && fresh(backend.conn) && !backend.status.Deregistered? && !backend.status.PeerClosed?
    {
      hide Sound, Conserved, EndsValid, NotStuck, IsCutRequest, IoMove;
      SetTarget(address);
      assert dispatched + [] == dispatched;
      Dispatch([]);
    }

    lemma OnlyNamesAwait()
      requires Sound() && awaiting
      ensures phase.DnsWait? && sock5.Domain? && command == 1 && backend == null && target.None?
    {
    }

    method SetTarget(address: SocketAddr)
      requires Sound() && awaiting && (sock5.Domain? ==> address.port == sock5.port)
      modifies `target, `awaiting
      ensures target == Some(address) && !awaiting && EndsValid() && Conserved(dispatched, [])
    {
      hide Decides;
      target, awaiting := Some(address), false;
    }

    method GiveUp()
      requires Sound() && awaiting
      modifies `awaiting, `failure, proxy`status, proxy`aborted, proxy`dropped
      ensures Sound() && !awaiting && proxy.status == old(proxy.status).OnShutdown()
    {
      hide Decides;
      awaiting := false;
      failure := true;
      proxy.Shutdown();
    }


    twostate predicate ReadsKept()
      reads `readProxy, `readBackend, `backend, proxy`readCalls, TargetConn()`readCalls
    {
      && ReadKept(old(readProxy), readProxy, old(proxy.readCalls), proxy.readCalls)
      && (backend != null && backend == old(backend) ==>
            ReadKept(old(readBackend), readBackend, old(backend.conn.readCalls), backend.conn.readCalls))
    }

    /** `do_read` of the backend that is there. */
    method ReadBackend()
      requires Sound() && backend != null && !proxy.status.IsShutdown()
      modifies proxy`status, proxy`aborted, proxy`failed, proxy`writable, proxy`outbox, proxy`wire, proxy`sendCalls, proxy`lastWrite, proxy`pushes, proxy`lost
      modifies backend`status, backend`aborted
      modifies backend.conn`pending, backend.conn`received, backend.conn`lastRead, backend.conn`readCalls, backend.conn`ended
      ensures Sound() && IoStep()
      ensures backend.conn.readCalls > old(backend.conn.readCalls) && proxy.sendCalls > old(proxy.sendCalls)
      ensures old(proxy.status).Connecting? && !proxy.lost ==> proxy.status.Connecting?
      ensures proxy.status.Connecting? ==> old(proxy.status).Connecting?
      ensures proxy.pushes >= old(proxy.pushes) && (!old(proxy.status).Connecting? ==> proxy.Pushed(old(proxy.pushes)))
    {
      hide Decides;
      backend.DoRead(proxy);
    }

    method PushProxy()
      requires Sound()
      modifies proxy`status, proxy`aborted, proxy`failed, proxy`writable, proxy`outbox, proxy`wire, proxy`sendCalls, proxy`lastWrite, proxy`pushes
      ensures Sound() && IoStep()
      ensures !proxy.status.Connecting? && proxy.sendCalls > old(proxy.sendCalls)
      ensures proxy.pushes >= old(proxy.pushes) && proxy.Pushed(old(proxy.pushes))
    {
      hide Decides;
      proxy.status := proxy.status.OnEstablished();
      proxy.DoSend();
    }

    method OnProxyWriteable()
      requires Sound()
      modifies proxy`status, proxy`aborted, proxy`failed, proxy`writable, proxy`outbox, proxy`wire, proxy`sendCalls, proxy`lastWrite, proxy`pushes, proxy`lost, `readBackend
      modifies if backend != null then {backend} else {}`status, if backend != null then {backend} else {}`aborted
      modifies TargetConn()`pending, TargetConn()`received, TargetConn()`lastRead, TargetConn()`readCalls, TargetConn()`ended
      ensures Sound() && IoStep()
      ensures !proxy.status.Connecting? && proxy.sendCalls > old(proxy.sendCalls)
      ensures backend == null || ReadKept(old(readBackend), readBackend, old(backend.conn.readCalls), backend.conn.readCalls)
      ensures proxy.CanWrite() ==> !readBackend
      ensures proxy.Pushed(old(proxy.pushes))
    {
      hide Sound;
      PushProxy();
      if proxy.CanWrite() && readBackend {
        if backend != null {
          ReadBackend();
        }
        readBackend := false;
      }
    }

    /** Read now if the target takes everything, otherwise remember to. */
    method OnProxyReadable()
      requires Sound() && dispatched == proxy.received && !panicked
      modifies this, proxy, backend, TargetConn()
      ensures proxy.sendCalls == old(proxy.sendCalls) && proxy.pushes == old(proxy.pushes)
      ensures old(backend) != null ==> backend == old(backend) && backend.conn.readCalls == old(backend.conn.readCalls)
      ensures dispatched == proxy.received
      ensures panicked ==> IsCutRequest(env, proxy.received)
      ensures !panicked ==> Sound()
      ensures IoStep() && (old(backend) == null && backend != null ==> fresh(backend) && fresh(backend.conn))
      ensures readBackend == old(readBackend) && (old(readProxy) ==> readProxy)
      ensures if old(backend == null || backend.CanWrite()) then proxy.readCalls == old(proxy.readCalls) + 1 else readProxy
    {
      hide Sound, IsCutRequest;
      if backend == null || backend.CanWrite() {
        TryReadProxy();
      } else {
        readProxy := true;
      }
    }

    method OnProxyEvent(readable: bool, writeable: bool)
      requires Sound() && dispatched == proxy.received && !panicked
      modifies this, proxy, backend, TargetConn()
      ensures if panicked then IsCutRequest(env, proxy.received)
              else Sound() && dispatched == proxy.received
      ensures IoStep() && (old(backend) == null && backend != null ==> fresh(backend) && fresh(backend.conn))
      ensures !panicked ==> ReadsKept()
      ensures readable && !panicked ==>
        if old(backend == null || backend.CanWrite()) then proxy.readCalls == old(proxy.readCalls) + 1
        else readProxy || proxy.readCalls == old(proxy.readCalls) + 1
      ensures writeable && !panicked ==>
        !proxy.status.Connecting? && proxy.sendCalls > old(proxy.sendCalls) && proxy.Pushed(old(proxy.pushes))
    {
      hide Sound;
      if readable {
        OnProxyReadable();
        if panicked {
          return;
        }
      }
      if writeable {
        OnProxyWriteable();
      }
    }

    /** An empty dispatch sends what is buffered. */
    method Retry()
      requires Sound() && backend != null
      modifies backend, backend.conn
      ensures Sound() && IoMove(old(backend.status), backend.status)
      ensures backend.dispatches == old(backend.dispatches) + 1 && backend.conn.readCalls == old(backend.conn.readCalls)
      ensures backend.sendBuffer != [] ==> backend.conn.lastWrite.Block? && backend.conn.writes > old(backend.conn.writes)
    {
      hide Accounted, Handshaken, Image;
      backend.Dispatch([]);
      assert backend.fed == old(backend.fed) + [] == old(backend.fed);
    }

    method OnBackendWriteable()
      requires Sound() && dispatched == proxy.received
      requires !panicked && phase.TcpForward? && backend != null
      modifies this, proxy, backend, backend.conn
      ensures if panicked then IsCutRequest(env, proxy.received)
              else Sound() && dispatched == proxy.received
      ensures IoStep() && backend == old(backend) && readBackend == old(readBackend)
      ensures backend.dispatches > old(backend.dispatches)
      ensures ReadKept(old(readProxy), readProxy, old(proxy.readCalls), proxy.readCalls) && (backend.CanWrite() ==> !readProxy)
      ensures backend.conn.readCalls == old(backend.conn.readCalls)
    {
      Retry();
      hide Sound, IsCutRequest;
      if backend.CanWrite() && readProxy {
        TryReadProxy();
        readProxy := false;
      }
    }

    method OnBackendReadable()
      requires Sound() && backend != null
      modifies this, proxy, backend, backend.conn
      ensures Sound() && backend == old(backend) && phase == old(phase)
      ensures dispatched == old(dispatched) && proxy.received == old(proxy.received) && panicked == old(panicked)
      ensures IoMove(old(proxy.status), proxy.status) && IoMove(old(backend.status), backend.status)
      ensures readProxy == old(readProxy) && proxy.readCalls == old(proxy.readCalls) && backend.dispatches == old(backend.dispatches)
      ensures readBackend || backend.conn.readCalls > old(backend.conn.readCalls)
      ensures old(proxy.CanWrite()) ==> backend.conn.readCalls > old(backend.conn.readCalls)
    {
      hide Decides;
      if proxy.CanWrite() {
        ReadBackend();
      } else {
        readBackend := true;
      }
    }

    lemma OnlyForwardHasBackend(total: seq<byte>, rest: seq<byte>)
      requires Conserved(total, rest)
      ensures backend != null ==> phase.TcpForward?
    {
    }

    method OnBackendEvent(readable: bool, writeable: bool)
      requires Sound() && dispatched == proxy.received && !panicked
      modifies this, proxy, backend, TargetConn()
      ensures if panicked then IsCutRequest(env, proxy.received)
              else Sound() && dispatched == proxy.received
      ensures IoStep() && backend == old(backend) && ReadsKept()
      ensures writeable && backend != null && !panicked ==> backend.dispatches > old(backend.dispatches)
      ensures readable && backend != null && !panicked ==>
        (!old(proxy.CanWrite()) && readBackend) || backend.conn.readCalls > old(backend.conn.readCalls)
    {
      OnlyForwardHasBackend(dispatched, []);
      if phase.TcpForward? && backend != null {
        OnTargetEvent(readable, writeable);
      }
    }

    method OnTargetEvent(readable: bool, writeable: bool)
      requires Sound() && dispatched == proxy.received && !panicked
      requires phase.TcpForward? && backend != null
      modifies this, proxy, backend, backend.conn
      ensures if panicked then IsCutRequest(env, proxy.received)
              else Sound() && dispatched == proxy.received
      ensures backend == old(backend) && backend.dispatches >= old(backend.dispatches) + if writeable then 1 else 0
      ensures IoMove(old(proxy.status), proxy.status) && IoMove(old(backend.status), backend.status)
      ensures ReadKept(old(readProxy), readProxy, old(proxy.readCalls), proxy.readCalls)
      ensures old(readBackend) || readable ==> readBackend || backend.conn.readCalls > old(backend.conn.readCalls)
      ensures readable && old(proxy.CanWrite()) ==> backend.conn.readCalls > old(backend.conn.readCalls)
    {
      StandingStill(proxy.status);
      StandingStill(backend.status);
      hide Sound, IoMove, IsCutRequest;
      if readable {
        OnBackendReadable();
      }
      ghost var mid := Ends(proxy.status, backend.status);
      if writeable {
        OnBackendWriteable();
        MovesCompose(old(proxy.status), mid.a, proxy.status);
        MovesCompose(old(backend.status), mid.b, backend.status);
      }
    }

    /** The input and output part of `ready`. */
    method HandleIo(event: Event)
      requires Valid() && !panicked && (event.DnsResult? ==> awaiting)
      modifies this, proxy, backend, TargetConn()
      ensures if panicked then IsCutRequest(env, proxy.received)
              else Sound() && dispatched == proxy.received
      ensures IoStep() && (old(backend) == null && backend != null ==> fresh(backend) && fresh(backend.conn))
      ensures !panicked ==> ReadsKept()
      ensures event.ProxyEvent? && event.readable && !panicked ==>
        if old(backend == null || backend.CanWrite()) then proxy.readCalls == old(proxy.readCalls) + 1
        else readProxy || proxy.readCalls == old(proxy.readCalls) + 1
      ensures event.ProxyEvent? && event.writeable && !panicked ==>
        proxy.sendCalls > old(proxy.sendCalls) && proxy.Pushed(old(proxy.pushes))
      ensures event.BackendEvent? && event.writeable && old(backend) != null && !panicked ==>
        backend.dispatches > old(backend.dispatches)
      ensures event.BackendEvent? && event.readable && old(backend) != null && !panicked ==>
        (!old(proxy.CanWrite()) && readBackend) || backend.conn.readCalls > old(backend.conn.readCalls)
    {
      match event {
        case ProxyEvent(readable, writeable) =>
          OnProxyEvent(readable, writeable);
        case BackendEvent(readable, writeable) =>
          OnBackendEvent(readable, writeable);
        case DnsResult(ip) =>
          TryResolve(ip);
      }
    }

    /** `ready`: one event. `mid` is the state of the two ends before they are coupled. Between
        events the client's bytes are conserved and the two ends coupled; an end that went down by
        draining has delivered everything; no read that is owed to an end is forgotten. */
    method Ready(event: Event) returns (ghost mid: Ends)
      requires Valid() && !panicked && (event.DnsResult? ==> awaiting)
      modifies this, proxy, backend, TargetConn()
      ensures if panicked then IsCutRequest(env, proxy.received) else Valid()
      ensures !panicked && backend != null ==>
        && IoMove(old(proxy.status), mid.a) && (old(backend) != null ==> IoMove(old(backend.status), mid.b))
        && Ends(proxy.status, backend.status) == Couple(mid, proxy.outbox == [], backend.sendBuffer == [])
      ensures !panicked && backend != null && backend.status.IsShutdown() && !backend.aborted && target != Some(backAddr) ==>
        backend.conn.written == proxy.received[header..]
      ensures !panicked && backend != null && proxy.status.IsShutdown() && !proxy.aborted ==>
        proxy.wire == backend.conn.received
      ensures old(proxy.status).Rank() <= proxy.status.Rank() || panicked
      ensures old(backend) != null ==> backend == old(backend)
      ensures old(backend) == null && backend != null ==> fresh(backend) && fresh(backend.conn)
      ensures !panicked ==> ReadsKept()
      ensures event.ProxyEvent? && event.readable && !panicked ==>
        if old(backend == null || backend.CanWrite()) then proxy.readCalls == old(proxy.readCalls) + 1
        else readProxy || proxy.readCalls == old(proxy.readCalls) + 1
      ensures event.ProxyEvent? && event.writeable && !panicked ==>
        proxy.sendCalls > old(proxy.sendCalls) && proxy.Pushed(old(proxy.pushes))
      ensures event.BackendEvent? && event.writeable && old(backend) != null && !panicked ==>
        backend.dispatches > old(backend.dispatches)
      ensures event.BackendEvent? && event.readable && old(backend) != null && !panicked ==>
        (!old(proxy.CanWrite()) && readBackend) || backend.conn.readCalls > old(backend.conn.readCalls)
    {
      hide Sound;
      HandleIo(event);
      mid := Ends(proxy.status, if backend != null then backend.status else Deregistered);
      if !panicked {
        CoupleEnds();
        if backend != null {
          Summary();
        }
      }
    }

    /** What the invariant says once the first read is handled. */
    lemma Decided()
      requires Valid() && !phase.HandShake?
      ensures first <= proxy.received && header <= |first| && Decides(env, first, command, sock5, header)
      ensures command == 1 && sock5.Socket? ==> target == Some(sock5.addr)
      ensures command == 1 && sock5.NoAddress? ==> target == Some(backAddr)
      ensures command == 1 && backend == null ==> if target.Some? then proxy.status.IsShutdown() else phase.DnsWait?
      ensures backend != null ==> command == 1
    {
      hide Decides, Raw, Image;
    }

    /** No end goes down without a reason. */
    lemma Reasons()
      requires Valid()
      ensures proxy.aborted ==> proxy.failed || failure
      ensures backend != null && backend.aborted ==> backend.conn.broke || backend.conn.ended || failure
      ensures backend != null && (backend.conn.broke || backend.conn.ended) ==> backend.status.IsShutdown()
      ensures proxy.failed ==> proxy.status.IsShutdown()
    {
      hide Conserved;
    }

    /** What the invariant says while the target is unknown. */
    lemma Waiting()
      requires Valid() && phase.DnsWait? && command == 1
      ensures header <= |proxy.received| && Raw(pieces) == proxy.received[header..] && data == Image(rewrite, pieces)
      ensures target != Some(backAddr) ==> data == proxy.received[header..]
    {
      hide Decides, Raw, Image;
      assert Raw(pieces) + [] == Raw(pieces);
      if target != Some(backAddr) { UnmarkedImage(rewrite, pieces); }
    }

    /** What the invariant says once a backend is there. */
    lemma Summary()
      requires Valid() && backend != null
      ensures !phase.HandShake? && command == 1
      ensures target == Some(backend.target) && (sock5.Socket? ==> backend.target == sock5.addr)
      ensures data == [] && header <= |proxy.received| && Raw(pieces) == proxy.received[header..]
      ensures backend.conn.written <= Image(rewrite, pieces)
      ensures !backend.conn.broke ==> backend.conn.written + backend.sendBuffer + data == Image(rewrite, pieces)
      ensures backend.status.IsShutdown() && !backend.aborted ==> backend.conn.written == Image(rewrite, pieces)
      ensures target != Some(backAddr) ==> Image(rewrite, pieces) == proxy.received[header..]
      ensures proxy.wire <= backend.conn.received
      ensures !proxy.lost ==> proxy.wire + proxy.outbox == backend.conn.received
      ensures proxy.status.IsShutdown() && !proxy.aborted ==> proxy.wire == backend.conn.received
    {
      hide Decides, Raw, Image;
      assert Raw(pieces) + [] == Raw(pieces) && backend.conn.written + [] == backend.conn.written;
      assert backend.conn.written + backend.sendBuffer + [] == backend.conn.written + backend.sendBuffer;
      assert proxy.wire <= proxy.wire + proxy.outbox && proxy.wire + [] == proxy.wire;
      if target != Some(backAddr) { UnmarkedImage(rewrite, pieces); }
    }

    /** The tail of `ready`. */
    method CoupleEnds()
      requires Sound() && dispatched == proxy.received
      requires if backend != null then Coupled(Ends(proxy.status, backend.status)) else !proxy.status.PeerClosed?
      modifies proxy`status, if backend != null then {backend} else {}`status
      ensures Valid()
      ensures backend != null ==>
        Ends(proxy.status, backend.status) ==
          Couple(old(Ends(proxy.status, backend.status)), proxy.outbox == [], backend.sendBuffer == [])
      ensures backend == null ==> proxy.status == old(proxy.status).AfterCheck(proxy.outbox == [])
    {
      hide Conserved;
      if backend != null {
        CoupleBoth();
      } else {
        proxy.status := proxy.status.AfterCheck(proxy.outbox == []);
      }
    }

    method CoupleBoth()
      requires Sound() && dispatched == proxy.received && backend != null && Coupled(Ends(proxy.status, backend.status))
      modifies proxy`status, backend`status
      ensures Valid()
      ensures Ends(proxy.status, backend.status) ==
          Couple(old(Ends(proxy.status, backend.status)), proxy.outbox == [], backend.sendBuffer == [])
    {
      hide Conserved;
      CoupleSettles(Ends(proxy.status, backend.status), proxy.outbox == [], backend.sendBuffer == []);
      hide Settled, Couple;
      StepBoth();
    }

    method StepBoth()
      requires backend != null
      modifies proxy`status, backend`status
      ensures Ends(proxy.status, backend.status) ==
          Couple(old(Ends(proxy.status, backend.status)), proxy.outbox == [], backend.sendBuffer == [])
    {
      if proxy.status.IsShutdown() {
        backend.status := backend.status.OnPeerClosed();
      }
      if backend.status.IsShutdown() {
        proxy.status := proxy.status.OnPeerClosed();
      }
      proxy.status := proxy.status.AfterCheck(proxy.outbox == []);
      backend.status := backend.status.AfterCheck(backend.sendBuffer == []);
    }

    /** `destroy`: the idle timeout. */
    method Destroy()
      requires Valid()
      modifies `failure, proxy`status, proxy`aborted, proxy`dropped, backend
      ensures Valid() && proxy.status.Deregistered?
      ensures backend != null ==> backend.status.Deregistered?
    {
      hide Accounted, Handshaken, Image, Raw;
      DropProxy();
      if backend != null {
        DropBackend();
      }
    }

    method DropProxy()
      requires Sound()
      modifies `failure, proxy`status, proxy`aborted, proxy`dropped
      ensures Sound() && failure && proxy.status.Deregistered?
    {
      hide Conserved;
      failure := true;
      proxy.Shutdown();
      proxy.status := proxy.status.AfterCheck(proxy.outbox == []);
    }

    method DropBackend()
      requires Sound() && failure && backend != null
      modifies backend`timedOut, backend`status, backend`aborted
      ensures Sound() && backend.status.Deregistered?
    {
      hide Conserved;
      backend.timedOut := true;
      backend.Shutdown();
      backend.status := backend.status.AfterCheck(backend.sendBuffer == []);
    }

    lemma StillConserved(total: seq<byte>, more: seq<byte>)
      requires Conserved(total, [])
      ensures Conserved(total + more, more)
    {
      if !phase.HandShake? && header <= |total| {
        assert (total + more)[header..] == total[header..] + more;
        assert Raw(pieces) + [] == Raw(pieces);
      }
    }
  }

  /** Any number of events of any kind, with any outcome of every read, write, connect and lookup.
      The parser fails only on a first read that is a cut request. Otherwise that read decides: a request
      its command and address, anything else a CONNECT to the fallback address. For a CONNECT the
      client's bytes after the header are handed on in order, for another address than the fallback
      as they are; they are those the target accepted, those in the backend's buffer and those cached;
      and what came from the target is on the wire or queued for it. What an end got is always a prefix
      of what was meant for it, and all of it once the end went down by draining. */
  method Serve(conn: Connection, events: seq<Event>)
    requires conn.Valid() && !conn.panicked && conn.backend == null
    modifies conn, conn.proxy
    ensures conn.panicked ==> IsCutRequest(conn.env, conn.proxy.received)
    ensures !conn.panicked ==> conn.Valid()
    ensures !conn.panicked && !conn.phase.HandShake? ==>
      && conn.first <= conn.proxy.received && conn.header <= |conn.first|
      && Decides(conn.env, conn.first, conn.command, conn.sock5, conn.header)
      && (conn.command == 1 && conn.sock5.Socket? ==> conn.target == Some(conn.sock5.addr))
      && (conn.command == 1 && conn.sock5.NoAddress? ==> conn.target == Some(conn.backAddr))
    ensures !conn.panicked && conn.command == 1 && conn.phase.DnsWait? ==>
      && Raw(conn.pieces) == conn.proxy.received[conn.header..] && conn.data == Image(conn.rewrite, conn.pieces)
      && (conn.target != Some(conn.backAddr) ==> conn.data == conn.proxy.received[conn.header..])
    ensures !conn.panicked && !conn.phase.HandShake? && conn.command == 1 && conn.backend == null ==>
      if conn.target.Some? then conn.proxy.status.IsShutdown() else conn.phase.DnsWait?
    ensures !conn.panicked && conn.backend != null ==>
      var image := Image(conn.rewrite, conn.pieces);
      && conn.command == 1 && conn.target == Some(conn.backend.target)
      && Raw(conn.pieces) == conn.proxy.received[conn.header..]
      && (conn.target != Some(conn.backAddr) ==> image == conn.proxy.received[conn.header..])
      && conn.backend.conn.written <= image
      && (!conn.backend.conn.broke ==> conn.backend.conn.written + conn.backend.sendBuffer + conn.data == image)
      && (conn.backend.status.IsShutdown() && !conn.backend.aborted ==> conn.backend.conn.written == image)
    ensures !conn.panicked && conn.backend != null ==>
      var stream := conn.backend.conn.received;
      && conn.proxy.wire <= stream
      && (!conn.proxy.lost ==> conn.proxy.wire + conn.proxy.outbox == stream)
      && (conn.proxy.status.IsShutdown() && !conn.proxy.aborted ==> conn.proxy.wire == stream)
    ensures !conn.panicked ==> (conn.proxy.aborted ==> conn.proxy.failed || conn.failure) && (conn.proxy.failed ==> conn.proxy.status.IsShutdown())
    ensures !conn.panicked && conn.backend != null ==>
      var target := conn.backend.conn;
      && (conn.backend.aborted ==> target.broke || target.ended || conn.failure)
      && (target.broke || target.ended ==> conn.backend.status.IsShutdown())
  {
    hide IsCutRequest, Decides, Raw, Image, Connection.Valid;
    var i := 0;
    while i < |events| && !conn.panicked
      invariant i <= |events|
      invariant !conn.panicked ==> conn.Valid()
      invariant conn.panicked ==> IsCutRequest(conn.env, conn.proxy.received)
      invariant conn.backend != null ==> fresh(conn.backend) && fresh(conn.backend.conn)
    {
      if * {
        // nothing happened for too long
        conn.Destroy();
        break;
      }
      // the resolver answers each question once
      if events[i].DnsResult? ==> conn.awaiting {
        ghost var mid := conn.Ready(events[i]);
      }
      i := i + 1;
    }
    if !conn.panicked {
      conn.Reasons();
      if !conn.phase.HandShake? {
        conn.Decided();
      }
      if conn.phase.DnsWait? && conn.command == 1 {
        conn.Waiting();
      }
      if conn.backend != null {
        conn.Summary();
      }
    }
  }
}

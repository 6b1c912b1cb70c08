/** The server's UDP backend: it cuts datagrams out of the client's byte stream and sends them,
    keeping what it cannot parse or send yet (src/server/udp_backend.rs). */
module UdpReassembly {
  import opened Status
  import opened Wire

  datatype Datagram = Datagram(address: Sock5Address, payload: seq<byte>)

  // ---------- the meaning of a byte stream ----------

  /** The complete datagrams at the front of a stream, and what follows them. */
  function Decode(env: Env, b: seq<byte>): (r: (seq<Datagram>, seq<byte>))
    ensures !ParseUdp(env, r.1).Packet?
    decreases |b|
  {
    var p := ParseUdp(env, b);
    if p.Packet? then
      var (packets, rest) := Decode(env, b[p.offset..]);
      ([Datagram(p.address, p.payload[..p.length])] + packets, rest)
    else ([], b)
  }

  lemma DecodeStep(env: Env, b: seq<byte>)
    requires ParseUdp(env, b).Packet?
    ensures var p := ParseUdp(env, b);
            var d := Decode(env, b[p.offset..]);
            Decode(env, b) == ([Datagram(p.address, p.payload[..p.length])] + d.0, d.1)
  {
    hide ParseUdp;
  }

  lemma DecodeNothing(env: Env)
    ensures Decode(env, []) == ([], [])
  {
  }

  lemma StartsWithPacket(env: Env, b: seq<byte>)
    requires b != [] && Decode(env, b).1 == []
    ensures ParseUdp(env, b).Packet?
  {
    hide ParseUdp;
  }

  /** Decoding may pause after any whole number of datagrams. */
  lemma {:induction false} DecodeResumes(env: Env, taken: seq<byte>, more: seq<byte>)
    requires Decode(env, taken).1 == []
    ensures var d := Decode(env, more);
            Decode(env, taken + more) == (Decode(env, taken).0 + d.0, d.1)
    decreases |taken|
  {
    hide ParseUdp, Decode;
    if taken == [] {
      DecodeNothing(env);
      assert taken + more == more && [] + Decode(env, more).0 == Decode(env, more).0;
    } else {
      var p := ParseUdp(env, taken);
      StartsWithPacket(env, taken);
      var tail := taken[p.offset..];
      UdpStable(env, taken, more);
      DecodeStep(env, taken);
      DecodeStep(env, taken + more);
      assert (p.payload + more)[..p.length] == p.payload[..p.length];
      assert (taken + more)[p.offset..] == tail + more;
      DecodeResumes(env, tail, more);
      var first := [Datagram(p.address, p.payload[..p.length])];
      assert first + (Decode(env, tail).0 + Decode(env, more).0) == (first + Decode(env, tail).0) + Decode(env, more).0;
    }
  }

  /** One more datagram behind a whole number of them. */
  lemma DecodeAppend(env: Env, taken: seq<byte>, buffer: seq<byte>)
    requires Decode(env, taken).1 == [] && ParseUdp(env, buffer).Packet?
    ensures var p := ParseUdp(env, buffer);
            Decode(env, taken + buffer[..p.offset]) ==
              (Decode(env, taken).0 + [Datagram(p.address, p.payload[..p.length])], [])
  {
    var p := ParseUdp(env, buffer);
    FrameAlone(env, buffer);
    DecodeResumes(env, taken, buffer[..p.offset]);
  }

  /** The bytes of a frame parse to the same datagram without what follows it. */
  lemma FrameAlone(env: Env, buffer: seq<byte>)
    requires ParseUdp(env, buffer).Packet?
    ensures var p := ParseUdp(env, buffer);
            && ParseUdp(env, buffer[..p.offset]) == p.(payload := p.payload[..p.length])
            && Decode(env, buffer[..p.offset]) == ([Datagram(p.address, p.payload[..p.length])], [])
  {
    hide ParseUdp, ParseAddress, IsAddressField, Decode;
    var p := ParseUdp(env, buffer);
    var frame, n := buffer[..p.offset], p.offset - p.length - 4;
    ParsedPacket(env, buffer);
    FrameParses(env, buffer, p.address, p.offset, p.length);
    assert frame[..n] == buffer[..n] && frame[n..][..2] == buffer[n..][..2];
    FrameParses(env, frame, p.address, p.offset, p.length);
    assert frame[p.offset - p.length..] == p.payload[..p.length];
    DecodeNothing(env);
    DecodeStep(env, frame);
    assert frame[p.offset..] == [];
    var first := [Datagram(p.address, p.payload[..p.length])];
    assert first + [] == first && p.payload[..p.length][..p.length] == p.payload[..p.length];
  }

  // ---------- generated streams ----------

  function Encode(d: Datagram): seq<byte>
    requires d.address.Socket? && |d.payload| <= MAX_PACKET_SIZE
  {
    UdpHeader(d.address.addr, |d.payload|) + d.payload
  }

  /** What `generate` can put on the wire without loss. */
  predicate IsSendable(d: Datagram) {
    d.address.Socket? && |d.payload| <= MAX_PACKET_SIZE && d.address.addr.OnWire() == d.address.addr
  }

  predicate Sendable(ds: seq<Datagram>) {
    forall i :: 0 <= i < |ds| ==> IsSendable(ds[i])
  }

  function EncodeAll(ds: seq<Datagram>): seq<byte>
    requires Sendable(ds)
  {
    if ds == [] then [] else Encode(ds[0]) + EncodeAll(ds[1..])
  }

  lemma EncodeParses(env: Env, d: Datagram, rest: seq<byte>)
    requires IsSendable(d)
    ensures ParseUdp(env, Encode(d) + rest) == Packet(d.address, |Encode(d)|, |d.payload|, d.payload + rest)
  {
    UdpRoundTrip(env, d.address.addr, d.payload, rest);
  }

  lemma EncodeDecodes(env: Env, d: Datagram, tail: seq<byte>)
    requires IsSendable(d)
    ensures Decode(env, Encode(d) + tail) == ([d] + Decode(env, tail).0, Decode(env, tail).1)
  {
    hide ParseUdp, Encode, Decode;
    EncodeParses(env, d, tail);
    assert (d.payload + tail)[..|d.payload|] == d.payload;
    assert (Encode(d) + tail)[|Encode(d)|..] == tail;
    DecodeStep(env, Encode(d) + tail);
  }

  /** Decoding undoes encoding, whatever follows the stream. */
  lemma {:induction false} DecodeEncode(env: Env, ds: seq<Datagram>, rest: seq<byte>)
    requires Sendable(ds) && !ParseUdp(env, rest).Packet?
    ensures Decode(env, EncodeAll(ds) + rest) == (ds, rest)
  {
    hide ParseUdp, Encode;
    if ds == [] {
      assert EncodeAll(ds) + rest == rest;
    } else {
      hide Decode;
      var tail := EncodeAll(ds[1..]) + rest;
      assert EncodeAll(ds) + rest == Encode(ds[0]) + tail;
      DecodeEncode(env, ds[1..], rest);
      EncodeDecodes(env, ds[0], tail);
      assert [ds[0]] + ds[1..] == ds;
    }
  }

  lemma IncompleteFrame(env: Env, d: Datagram, b: seq<byte>)
    requires IsSendable(d) && b <= Encode(d) && b != Encode(d)
    ensures Decode(env, b) == ([], b)
  {
    hide ParseUdp, Encode;
    var e := Encode(d);
    EncodeParses(env, d, []);
    assert e + [] == e;
    var missing := e[|b|..];
    assert b + missing == e;
    if ParseUdp(env, b).Packet? {
      UdpStable(env, b, missing);
    }
  }

  /** A beginning of a generated stream either stops inside the first datagram or holds all of it. */
  lemma PrefixSplits(ds: seq<Datagram>, b: seq<byte>)
    requires ds != [] && Sendable(ds) && b <= EncodeAll(ds)
    ensures Sendable(ds[1..])
    ensures var e := Encode(ds[0]);
            if |e| <= |b| then b == e + b[|e|..] && b[|e|..] <= EncodeAll(ds[1..]) else b <= e
  {
    hide Encode;
    var e, rest, all := Encode(ds[0]), EncodeAll(ds[1..]), EncodeAll(ds);
    assert all == e + rest && b == all[..|b|];
    if |e| <= |b| {
      assert b[..|e|] == all[..|e|] == e;
      assert b[|e|..] == rest[..|b| - |e|];
    } else {
      assert b == e[..|b|];
    }
  }

  lemma EncodeAllPrepend(d: Datagram, ds: seq<Datagram>)
    requires IsSendable(d) && Sendable(ds)
    ensures Sendable([d] + ds) && EncodeAll([d] + ds) == Encode(d) + EncodeAll(ds)
  {
    assert ([d] + ds)[1..] == ds;
  }

  /** From any prefix of a generated stream exactly the complete datagrams are decoded, and their
      encodings plus the remainder are the prefix. */
  lemma {:induction false} DecodePrefix(env: Env, ds: seq<Datagram>, b: seq<byte>)
    requires Sendable(ds) && b <= EncodeAll(ds)
    ensures var d := Decode(env, b);
            d.0 <= ds && Sendable(d.0) && EncodeAll(d.0) + d.1 == b
    decreases |ds|
  {
    hide ParseUdp, Encode, Decode;
    if ds == [] {
      DecodeNothing(env);
    } else {
      PrefixSplits(ds, b);
      hide EncodeAll;
      var e := Encode(ds[0]);
      if |e| <= |b| {
        var tail := b[|e|..];
        DecodePrefix(env, ds[1..], tail);
        EncodeDecodes(env, ds[0], tail);
        var d := Decode(env, tail);
        EncodeAllPrepend(ds[0], d.0);
        assert e + (EncodeAll(d.0) + d.1) == e + EncodeAll(d.0) + d.1;
        assert [ds[0]] + ds[1..] == ds;
      } else {
        IncompleteFrame(env, ds[0], b);
        NothingEncoded(b);
      }
    }
  }

  lemma NothingEncoded(b: seq<byte>)
    ensures EncodeAll([]) + b == b
  {
  }

  // ---------- the backend ----------

  datatype SendResult = Sent(size: nat) | WouldBlock | SendFailed

  /** A datagram socket; what each send does is up to the network. */
  class UdpSocket {
    ghost var sent: seq<Datagram>
    ghost var last: SendResult
    ghost var tried: Datagram
    ghost var calls: nat
    /** Some send failed or sent another number of bytes than it was given. */
    ghost var broke: bool

    constructor ()
      ensures sent == [] && !broke
    {
      sent, broke := [], false;
    }

    method SendTo(payload: seq<byte>, address: SocketAddr) returns (r: SendResult)
      modifies this
      ensures last == r && tried == Datagram(Socket(address), payload) && calls == old(calls) + 1
      ensures sent == if r == Sent(|payload|) then old(sent) + [tried] else old(sent)
      ensures broke == (old(broke) || (!r.WouldBlock? && r != Sent(|payload|)))
    {
      if * {
        var size: nat := *;
        r := Sent(size);
      } else if * {
        r := WouldBlock;
      } else {
        r := SendFailed;
      }
      last, tried, calls := r, Datagram(Socket(address), payload), calls + 1;
      if r == Sent(|payload|) {
        sent := sent + [tried];
      }
      broke := broke || (!r.WouldBlock? && r != Sent(|payload|));
    }
  }

  /** What can never be sent: no datagram, or one for a name. */
  predicate Hopeless(env: Env, rest: seq<byte>) {
    var p := ParseUdp(env, rest);
    p.UdpInvalid? || p.UdpPanic? || (p.Packet? && !p.address.Socket?)
  }

  /** The datagram at the front of `rest` is the one that was tried. */
  predicate InFront(env: Env, rest: seq<byte>, tried: Datagram) {
    var p := ParseUdp(env, rest);
    p.Packet? && tried == Datagram(p.address, p.payload[..p.length])
  }

  datatype Outcome =
    | Waiting           // the remaining bytes do not make a datagram yet
    | Blocked           // the socket would block on the next datagram
    | Rejected          // shut down: what follows can never be sent as a datagram
    | SocketError       // shut down: the socket failed or truncated a datagram
    | Panicked          // indexing past the end of the input

  class UdpBackend {
    const env: Env
    const socket: UdpSocket
    var status: ConnStatus
    var sendBuffer: seq<byte>
    /** All bytes dispatched so far, and those already sent as datagrams. */
    ghost var input: seq<byte>
    ghost var taken: seq<byte>

    constructor (env: Env)
      ensures Valid() && fresh(socket) && this.env == env
      ensures input == [] && socket.sent == [] && status == ConnStatus.Established
    {
      this.env := env;
      socket := new UdpSocket();
      status := ConnStatus.Established;
      sendBuffer, input, taken := [], [], [];
    }

    /** Nothing is lost, reordered or sent twice: what was sent is the decoding of the bytes
        taken so far, and the buffer holds all the others. */
    ghost predicate Valid()
      reads this, socket
    {
      Decode(env, taken) == (socket.sent, []) && (!status.IsShutdown() ==> input == taken + sendBuffer)
    }

    /** `do_send`: the parse-and-send loop over `buffer`. It stops for a reason: the rest is no
        datagram yet, or the datagram in front of it was tried now and the socket blocked, failed or
        truncated it, or it can never be sent. */
    method DoSend(data: seq<byte>) returns (outcome: Outcome)
      requires Decode(env, taken) == (socket.sent, []) && sendBuffer == []
      requires !status.IsShutdown() ==> input == taken + data
      modifies this`status, this`sendBuffer, this`taken, socket
      ensures outcome.Panicked? || Valid()
      ensures old(socket.sent) <= socket.sent && (old(socket.broke) ==> socket.broke)
      ensures status == if outcome.Rejected? || outcome.SocketError? then old(status).OnShutdown() else old(status)
      ensures match outcome
        case Waiting => ParseUdp(env, sendBuffer).UdpContinued? && |sendBuffer| < MAX_FRAME_SIZE
        case Blocked => InFront(env, sendBuffer, socket.tried) && socket.last.WouldBlock? && socket.calls > old(socket.calls)
        case Rejected => exists rest :: taken + rest == old(taken) + data && Hopeless(env, rest) && rest != [DOMAIN]
        case SocketError =>
          && socket.broke && socket.calls > old(socket.calls)
          && (exists rest :: taken + rest == old(taken) + data && InFront(env, rest, socket.tried))
          && !socket.last.WouldBlock? && socket.last != Sent(|socket.tried.payload|)
        case Panicked => taken + [DOMAIN] == old(taken) + data && Decode(env, taken) == (socket.sent, [])
    {
      hide Decode, ParseUdp;
      var buffer := data;
      while true
        invariant taken + buffer == old(taken) + data
        invariant Decode(env, taken) == (socket.sent, []) && sendBuffer == []
        invariant old(socket.sent) <= socket.sent && status == old(status) && (old(socket.broke) ==> socket.broke)
        invariant socket.calls >= old(socket.calls)
        decreases |buffer|
      {
        match ParseUdp(env, buffer) {
          case Packet(address, offset, length, payload) =>
            if !address.Socket? {
              status := status.OnShutdown();
              return Rejected;
            }
            var result := socket.SendTo(payload[..length], address.addr);
            assert InFront(env, buffer, socket.tried);
            match result {
              case Sent(size) =>
                if size != length {
                  status := status.OnShutdown();
                  return SocketError;
                }
                DecodeAppend(env, taken, buffer);
                assert (taken + buffer[..offset]) + buffer[offset..] == taken + buffer;
                taken := taken + buffer[..offset];
                buffer := payload[length..];
              case WouldBlock =>
                sendBuffer := sendBuffer + buffer;
                assert sendBuffer == buffer;
                return Blocked;
              case SendFailed =>
                status := status.OnShutdown();
                return SocketError;
            }
          case UdpInvalid =>
            status := status.OnShutdown();
            LoneTypeByte(env);
            return Rejected;
          case UdpContinued =>
            sendBuffer := sendBuffer + buffer;
            assert sendBuffer == buffer;
            return Waiting;
          case UdpPanic =>
            return Panicked;
        }
      }
    }

    /** `dispatch`: the next piece of the client's stream, of any length; an empty one retries. */
    method Dispatch(buffer: seq<byte>) returns (outcome: Outcome)
      requires Valid()
      modifies this, socket
      ensures outcome.Panicked? || Valid()
      ensures input == old(input) + buffer && old(socket.sent) <= socket.sent && (old(socket.broke) ==> socket.broke)
      ensures status == if outcome.Rejected? || outcome.SocketError? then old(status).OnShutdown() else old(status)
      ensures outcome.Waiting? ==> ParseUdp(env, sendBuffer).UdpContinued? && |sendBuffer| < MAX_FRAME_SIZE
      ensures outcome.Blocked? ==>
        InFront(env, sendBuffer, socket.tried) && socket.last.WouldBlock? && socket.calls > old(socket.calls)
      ensures outcome.SocketError? ==>
        && socket.broke && socket.calls > old(socket.calls)
        && !socket.last.WouldBlock? && socket.last != Sent(|socket.tried.payload|)
      ensures !old(status).IsShutdown() && outcome.SocketError? ==>
        exists rest :: taken + rest == input && InFront(env, rest, socket.tried)
      ensures !old(status).IsShutdown() && (outcome.Rejected? || outcome.Panicked?) ==>
        && Decode(env, taken) == (socket.sent, [])
        && exists rest :: taken + rest == input && Hopeless(env, rest)
    {
      hide Decode, ParseUdp;
      input := input + buffer;
      assert old(taken + sendBuffer) + buffer == old(taken) + (old(sendBuffer) + buffer);
      if sendBuffer == [] {
        outcome := DoSend(buffer);
      } else {
        var all := sendBuffer + buffer;
        sendBuffer := [];
        outcome := DoSend(all);
      }
      LoneTypeByte(env);
      assert Hopeless(env, [DOMAIN]);
    }

    /** `finish_send`, as `check_status` asks it: drained means no complete datagram is left. */
    method CheckStatus()
      requires Valid()
      modifies this`status
      ensures Valid()
      ensures status == old(status).AfterCheck(!ParseUdp(env, sendBuffer).Packet?)
      ensures old(status).PeerClosed? && status.Deregistered? ==> socket.sent == Decode(env, input).0
    {
      var drained := !ParseUdp(env, sendBuffer).Packet?;
      DecodeResumes(env, taken, sendBuffer);
      assert drained ==> Decode(env, sendBuffer).0 == [];
      status := status.AfterCheck(drained);
    }
  }

  /** Any split of the stream into pieces, with any pattern of blocking: until the backend is shut
      down, what was sent is a prefix of the stream's datagrams, and all of them once the
      remainder is not a complete datagram. The run stops only at a send that broke or at something
      that can never be sent. */
  method RunPieces(backend: UdpBackend, pieces: seq<seq<byte>>) returns (ok: bool)
    requires backend.Valid() && backend.input == [] && backend.socket.sent == []
    modifies backend, backend.socket
    ensures ok ==>
      && backend.Valid() && backend.status == old(backend.status)
      && backend.input == Flatten(pieces)
      && var d := Decode(backend.env, Flatten(pieces));
         && backend.socket.sent <= d.0
         && (!ParseUdp(backend.env, backend.sendBuffer).Packet? ==>
               backend.socket.sent == d.0 && backend.sendBuffer == d.1)
    ensures !ok && !old(backend.status).IsShutdown() ==> backend.socket.broke || StoppedAt(backend, pieces)
  {
    hide Decode, ParseUdp;
    var i := 0;
    ok := !backend.status.IsShutdown();
    while i < |pieces| && ok
      invariant i <= |pieces|
      invariant ok ==> backend.Valid() && backend.status == old(backend.status) && !backend.status.IsShutdown()
      invariant ok ==> backend.input == Flatten(pieces[..i])
      invariant !ok && !old(backend.status).IsShutdown() ==> backend.socket.broke || StoppedAt(backend, pieces)
    {
      var outcome := backend.Dispatch(pieces[i]);
      FlattenAppend(pieces[..i], pieces[i]);
      assert pieces[..i] + [pieces[i]] == pieces[..i + 1];
      ok := !outcome.Panicked? && !backend.status.IsShutdown();
      i := i + 1;
    }
    if ok {
      assert pieces[..i] == pieces;
      Concluded(backend);
    }
  }

  /** Behind what was sent of the first pieces comes something that can never be sent. */
  ghost predicate StoppedAt(backend: UdpBackend, pieces: seq<seq<byte>>)
    reads backend, backend.socket
  {
    exists i, rest ::
      && 0 <= i <= |pieces| && Decode(backend.env, backend.taken) == (backend.socket.sent, [])
      && backend.taken + rest == Flatten(pieces[..i]) && Hopeless(backend.env, rest)
  }

  lemma Concluded(backend: UdpBackend)
    requires backend.Valid() && !backend.status.IsShutdown()
    ensures var d := Decode(backend.env, backend.input);
            && backend.socket.sent <= d.0
            && (!ParseUdp(backend.env, backend.sendBuffer).Packet? ==> backend.socket.sent == d.0 && backend.sendBuffer == d.1)
  {
    DecodeResumes(backend.env, backend.taken, backend.sendBuffer);
  }

  /** A stream that was generated never stops a run by itself: unless the socket breaks, every piece is
      taken and the backend stays as it was. */
  method RunGenerated(backend: UdpBackend, pieces: seq<seq<byte>>, ghost ds: seq<Datagram>) returns (ok: bool)
    requires backend.Valid() && backend.input == [] && backend.socket.sent == [] && !backend.status.IsShutdown()
    requires Sendable(ds) && Flatten(pieces) <= EncodeAll(ds)
    modifies backend, backend.socket
    ensures ok || backend.socket.broke
    ensures ok ==>
      && backend.status == old(backend.status) && backend.socket.sent <= ds && Sendable(backend.socket.sent)
      && EncodeAll(backend.socket.sent) + backend.sendBuffer == Flatten(pieces)
  {
    hide Decode, ParseUdp, EncodeAll, Flatten;
    ok := RunPieces(backend, pieces);
    if ok {
      SentPlusBufferIsInput(backend.env, ds, backend.taken, backend.socket.sent, backend.sendBuffer);
    } else if StoppedAt(backend, pieces) {
      var i, rest :|
        && 0 <= i <= |pieces| && Decode(backend.env, backend.taken) == (backend.socket.sent, [])
        && backend.taken + rest == Flatten(pieces[..i]) && Hopeless(backend.env, rest);
      FlattenPrefix(pieces, i);
      GeneratedNotHopeless(backend.env, ds, backend.taken, backend.socket.sent, rest);
    }
  }

  lemma {:induction false} FlattenPrefix(pieces: seq<seq<byte>>, i: nat)
    requires i <= |pieces|
    ensures Flatten(pieces[..i]) <= Flatten(pieces)
  {
    if i > 0 {
      FlattenPrefix(pieces[1..], i - 1);
      assert pieces[..i][1..] == pieces[1..][..i - 1];
    }
  }

  /** What follows whole datagrams in a generated stream is never hopeless. */
  lemma GeneratedNotHopeless(env: Env, ds: seq<Datagram>, taken: seq<byte>, sent: seq<Datagram>, rest: seq<byte>)
    requires Sendable(ds) && taken + rest <= EncodeAll(ds) && Decode(env, taken) == (sent, [])
    ensures !Hopeless(env, rest)
  {
    hide Decode, ParseUdp, EncodeAll, Hopeless;
    SentPlusBufferIsInput(env, ds, taken, sent, rest);
    RestIsGenerated(ds, sent, rest);
    PrefixNotHopeless(env, ds[|sent|..], rest);
  }

  lemma {:induction false} RestIsGenerated(ds: seq<Datagram>, sent: seq<Datagram>, rest: seq<byte>)
    requires Sendable(ds) && sent <= ds && Sendable(sent) && EncodeAll(sent) + rest <= EncodeAll(ds)
    ensures Sendable(ds[|sent|..]) && rest <= EncodeAll(ds[|sent|..])
    decreases |sent|
  {
    hide Encode;
    if sent == [] {
      assert ds[0..] == ds && EncodeAll(sent) + rest == rest;
    } else {
      var e := Encode(ds[0]);
      assert EncodeAll(sent) + rest == e + (EncodeAll(sent[1..]) + rest);
      assert EncodeAll(ds)[|e|..] == EncodeAll(ds[1..]);
      assert (e + (EncodeAll(sent[1..]) + rest))[|e|..] == EncodeAll(sent[1..]) + rest;
      RestIsGenerated(ds[1..], sent[1..], rest);
      assert ds[1..][|sent[1..]|..] == ds[|sent|..];
    }
  }

  lemma PrefixNotHopeless(env: Env, ds: seq<Datagram>, b: seq<byte>)
    requires Sendable(ds) && b <= EncodeAll(ds)
    ensures !Hopeless(env, b)
  {
    hide Encode;
    if b != [] {
      PrefixSplits(ds, b);
      hide EncodeAll, ParseUdp;
      var e := Encode(ds[0]);
      EncodeParses(env, ds[0], []);
      assert e + [] == e;
      if |e| <= |b| {
        EncodeParses(env, ds[0], b[|e|..]);
      } else {
        var missing := e[|b|..];
        assert b + missing == e;
        if ParseUdp(env, b).UdpInvalid? || ParseUdp(env, b).Packet? { UdpStable(env, b, missing); }
        FirstByte(ds[0]);
        OnlyTypeBytePanics(env, b);
      }
    }
  }

  lemma FirstByte(d: Datagram)
    requires IsSendable(d)
    ensures |Encode(d)| > 0 && Encode(d)[0] != DOMAIN
  {
  }

  lemma OnlyTypeBytePanics(env: Env, b: seq<byte>)
    ensures ParseUdp(env, b).UdpPanic? <==> b == [DOMAIN]
  {
    hide ParseUdp;
  }

  function Flatten(pieces: seq<seq<byte>>): seq<byte> {
    if pieces == [] then [] else pieces[0] + Flatten(pieces[1..])
  }

  lemma {:induction false} FlattenAppend(pieces: seq<seq<byte>>, last: seq<byte>)
    ensures Flatten(pieces + [last]) == Flatten(pieces) + last
  {
    if pieces == [] {
      assert pieces + [last] == [last];
    } else {
      FlattenAppend(pieces[1..], last);
      assert (pieces + [last])[1..] == pieces[1..] + [last];
    }
  }

  /** For a generated stream: the encodings of what was sent, plus the buffer, are the bytes
      dispatched, however they were split. */
  lemma SentPlusBufferIsInput(env: Env, ds: seq<Datagram>, taken: seq<byte>, sent: seq<Datagram>, buffer: seq<byte>)
    requires Sendable(ds) && taken + buffer <= EncodeAll(ds)
    requires Decode(env, taken) == (sent, [])
    ensures sent <= ds && Sendable(sent) && EncodeAll(sent) + buffer == taken + buffer
  {
    var all := taken + buffer;
    assert taken <= EncodeAll(ds) by { assert all[..|taken|] == taken; }
    DecodePrefix(env, ds, taken);
    assert EncodeAll(sent) + [] == EncodeAll(sent);
  }
}

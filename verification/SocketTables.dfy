/** The socket tables of the asynchronous virtual device (async_smoltcp/src/device.rs): which
    endpoint owns which socket handle, and who receives its data. Handles of removed sockets are
    reused, and the table from TCP handles to sources keeps stale entries for them. */
module SocketTables {
  import opened Endpoints
  import opened Options

  /** What the tables' code looks at in a socket; the rest of its state belongs to the IP stack.
      `inactive`, `failed` and `closed` are the answers after its data were handed on. */
  datatype Sock =
    | TcpSock(canRecv: bool, remote: Option<Endpoint>, inactive: bool)
    | UdpSock(target: Endpoint, canRecv: bool, failed: bool, closed: bool)
  {
    /** `process_ingress` looks only at sockets with data, and removes these of them. */
    predicate Finished() {
      canRecv && if TcpSock? then remote.None? || inactive else failed || closed
    }
  }

  datatype Packet = Syn(source: Endpoint, dest: Endpoint) | Datagram(dest: Endpoint) | Other

  type TcpIndex = map<Endpoint, (Handle, Endpoint)>

  /** Registered sources have live TCP sockets and the other way round. Nothing is said about
      entries of `handle2ip` whose handle is not a live TCP socket. */
  ghost predicate TcpTables(sockets: map<Handle, Sock>, ip2handle: TcpIndex, handle2ip: map<Handle, Endpoint>) {
    && (forall s {:trigger ip2handle[s]} :: s in ip2handle ==>
          var h := ip2handle[s].0;
          h in sockets && sockets[h].TcpSock? && h in handle2ip && handle2ip[h] == s)
    && (forall h {:trigger sockets[h]} :: h in sockets && sockets[h].TcpSock? ==>
          h in handle2ip && handle2ip[h] in ip2handle && ip2handle[handle2ip[h]].0 == h)
  }

  ghost predicate UdpTables(sockets: map<Handle, Sock>, ip2handle: map<Endpoint, Handle>) {
    && (forall t {:trigger ip2handle[t]} :: t in ip2handle ==>
          ip2handle[t] in sockets && sockets[ip2handle[t]].UdpSock? && sockets[ip2handle[t]].target == t)
    && (forall h {:trigger sockets[h]} :: h in sockets && sockets[h].UdpSock? ==>
          sockets[h].target in ip2handle && ip2handle[sockets[h].target] == h)
  }

  /** What holds as long as the IP stack connects a socket only to the source that it was registered
      for. The tables do not rely on it. */
  predicate RemotesRegistered(sockets: map<Handle, Sock>, handle2ip: map<Handle, Endpoint>) {
    forall h {:trigger sockets[h]} :: h in sockets && sockets[h].TcpSock? && sockets[h].remote.Some? ==>
      h in handle2ip && handle2ip[h] == sockets[h].remote.value
  }

  /** Every connected socket with data has a sender for its remote endpoint. */
  predicate SendersKnown(sockets: map<Handle, Sock>, senders: set<Endpoint>) {
    forall h {:trigger sockets[h]} :: h in sockets && sockets[h].TcpSock? && sockets[h].canRecv && sockets[h].remote.Some? ==>
      sockets[h].remote.value in senders
  }

  /** A socket that is connected to `s`, and that `process_ingress` finds inactive. */
  predicate EndsAt(sockets: map<Handle, Sock>, h: Handle, s: Endpoint) {
    h in sockets && sockets[h].TcpSock? && sockets[h].remote == Some(s) && sockets[h].Finished()
  }

  /** The sockets that `process_ingress` removes: a TCP socket goes when one that is connected to its
      source is inactive, which need not be the socket itself. */
  ghost predicate Goes(sockets: map<Handle, Sock>, handle2ip: map<Handle, Endpoint>, h: Handle)
    requires h in sockets
  {
    if sockets[h].UdpSock? then sockets[h].Finished()
    else
      || (sockets[h].canRecv && sockets[h].remote.None?)
      || (h in handle2ip && exists k :: EndsAt(sockets, k, handle2ip[h]))
  }

  /** If remote endpoints are registered sources, the sockets removed are exactly the finished ones,
      and every sender is known. */
  lemma RegisteredRemotesSuffice(sockets: map<Handle, Sock>, ip2handle: TcpIndex, handle2ip: map<Handle, Endpoint>)
    requires TcpTables(sockets, ip2handle, handle2ip) && RemotesRegistered(sockets, handle2ip)
    ensures forall h :: h in sockets ==> (Goes(sockets, handle2ip, h) <==> sockets[h].Finished())
    ensures SendersKnown(sockets, ip2handle.Keys)
  {
    forall h | h in sockets && sockets[h].TcpSock? && sockets[h].Finished() ensures Goes(sockets, handle2ip, h) {
      if sockets[h].remote.Some? { assert EndsAt(sockets, h, handle2ip[h]); }
    }
    forall h | h in sockets && sockets[h].TcpSock? && Goes(sockets, handle2ip, h) ensures sockets[h].Finished() {
      if !(sockets[h].canRecv && sockets[h].remote.None?) {
        var k :| EndsAt(sockets, k, handle2ip[h]);
        assert handle2ip[k] == handle2ip[h] && ip2handle[handle2ip[k]].0 == k;
      }
    }
  }

  /** On live TCP handles the two tables are inverse to each other. */
  lemma InverseOnLive(sockets: map<Handle, Sock>, ip2handle: TcpIndex, handle2ip: map<Handle, Endpoint>, h: Handle, s: Endpoint)
    requires TcpTables(sockets, ip2handle, handle2ip)
    requires h in sockets && sockets[h].TcpSock?
    ensures h in handle2ip
    ensures handle2ip[h] == s <==> s in ip2handle && ip2handle[s].0 == h
  {
  }

  lemma RegisteredIsLive(sockets: map<Handle, Sock>, ip2handle: TcpIndex, handle2ip: map<Handle, Endpoint>, s: Endpoint)
    requires TcpTables(sockets, ip2handle, handle2ip) && s in ip2handle
    ensures ip2handle[s].0 in sockets && sockets[ip2handle[s].0].TcpSock?
    ensures ip2handle[s].0 in handle2ip && handle2ip[ip2handle[s].0] == s
  {
  }

  lemma AddTcp(sockets: map<Handle, Sock>, ip2handle: TcpIndex, handle2ip: map<Handle, Endpoint>,
               slot: Handle, source: Endpoint, dest: Endpoint)
    requires TcpTables(sockets, ip2handle, handle2ip)
    requires slot !in sockets && source !in ip2handle
    ensures var sockets' := sockets[slot := TcpSock(false, None, false)];
            var handle2ip' := handle2ip[slot := source];
            TcpTables(sockets', ip2handle[source := (slot, dest)], handle2ip')
  {
  }

  lemma DropTcp(sockets: map<Handle, Sock>, ip2handle: TcpIndex, handle2ip: map<Handle, Endpoint>, source: Endpoint)
    requires TcpTables(sockets, ip2handle, handle2ip)
    requires source in ip2handle
    ensures var sockets' := sockets - {ip2handle[source].0};
            TcpTables(sockets', ip2handle - {source}, handle2ip)
  {
    var sockets' := sockets - {ip2handle[source].0};
    forall h | h in sockets' ensures sockets'[h] == sockets[h] { }
    var rest := ip2handle - {source};
    forall s | s in rest ensures rest[s] == ip2handle[s] && rest[s].0 != ip2handle[source].0 { }
  }

  lemma DropUdp(sockets: map<Handle, Sock>, ip2handle: map<Endpoint, Handle>, target: Endpoint)
    requires UdpTables(sockets, ip2handle) && target in ip2handle
    ensures UdpTables(sockets - {ip2handle[target]}, ip2handle - {target})
  {
    var sockets' := sockets - {ip2handle[target]};
    forall h | h in sockets' ensures sockets'[h] == sockets[h] { }
    var rest := ip2handle - {target};
    forall t | t in rest ensures rest[t] == ip2handle[t] && rest[t] != ip2handle[target] { }
  }

  /** Entries of handles without a live TCP socket may go at any time. */
  lemma StaleEntryGone(sockets: map<Handle, Sock>, ip2handle: TcpIndex, handle2ip: map<Handle, Endpoint>, h: Handle)
    requires TcpTables(sockets, ip2handle, handle2ip)
    requires h in sockets ==> sockets[h].UdpSock?
    ensures TcpTables(sockets, ip2handle, handle2ip - {h})
  {
    var rest := handle2ip - {h};
    forall k | k in sockets && k in handle2ip && k != h ensures k in rest && rest[k] == handle2ip[k] { }
  }

  /** Removing a socket of one kind does not disturb the tables of the other. */
  lemma OtherKindUndisturbed(sockets: map<Handle, Sock>, tcp: TcpIndex, handle2ip: map<Handle, Endpoint>,
                             udp: map<Endpoint, Handle>, h: Handle)
    requires TcpTables(sockets, tcp, handle2ip) && UdpTables(sockets, udp)
    requires h in sockets
    ensures sockets[h].TcpSock? ==> UdpTables(sockets - {h}, udp)
    ensures sockets[h].UdpSock? ==> TcpTables(sockets - {h}, tcp, handle2ip)
  {
    var sockets' := sockets - {h};
    forall k | k in sockets' ensures sockets'[k] == sockets[k] { }
  }

  lemma FreeSlot(s: set<Handle>) returns (h: Handle)
    ensures h !in s
  {
    h := 0;
    var rest := s;
    while rest != {}
      invariant rest <= s && forall x :: x in s && x !in rest ==> x < h
    {
      var x :| x in rest;
      if h <= x { h := x + 1; }
      rest := rest - {x};
    }
  }

  /** The endpoints collected after looking at one more socket. */
  lemma OneMoreEnd(sockets: map<Handle, Sock>, todo: set<Handle>, handle: Handle, before: seq<Endpoint>, after: seq<Endpoint>)
    requires handle in todo && handle in sockets
    requires forall s :: s in before <==> exists h :: h !in todo && EndsAt(sockets, h, s)
    requires forall s :: s in after <==> s in before || EndsAt(sockets, handle, s)
    ensures forall s :: s in after <==> exists h :: h !in todo - {handle} && EndsAt(sockets, h, s)
  {
    forall s ensures s in after <==> exists h :: h !in todo - {handle} && EndsAt(sockets, h, s) {
      if EndsAt(sockets, handle, s) { assert handle !in todo - {handle}; }
      if s in before {
        var h :| h !in todo && EndsAt(sockets, h, s);
        assert h !in todo - {handle};
      }
    }
  }

  predicate Distinct(s: seq<Endpoint>) {
    forall i, j :: 0 <= i < j < |s| ==> s[i] != s[j]
  }

  /** The sources that a list of packets registers, with the destinations they ask for: a source that is
      not known yet, at its first connection request. */
  function NewStreams(known: set<Endpoint>, packets: seq<Packet>): seq<(Endpoint, Endpoint)> {
    if packets == [] then []
    else
      var before, last := NewStreams(known, packets[..|packets| - 1]), packets[|packets| - 1];
      if last.Syn? && last.source !in known + Firsts(before) then before + [(last.source, last.dest)] else before
  }

  /** The sources with the destinations that they are registered with. */
  ghost function Asked(sources: seq<Endpoint>, index: TcpIndex): (streams: seq<(Endpoint, Endpoint)>)
    requires forall s :: s in sources ==> s in index
    ensures |streams| == |sources|
    ensures forall i :: 0 <= i < |streams| ==> streams[i] == (sources[i], index[sources[i]].1)
  {
    seq(|sources|, i requires 0 <= i < |sources| => (sources[i], index[sources[i]].1))
  }

  function Firsts(streams: seq<(Endpoint, Endpoint)>): set<Endpoint> {
    set p | p in streams :: p.0
  }

  function NewTargets(known: set<Endpoint>, packets: seq<Packet>): seq<Endpoint> {
    if packets == [] then []
    else
      var before, last := NewTargets(known, packets[..|packets| - 1]), packets[|packets| - 1];
      if last.Datagram? && last.dest !in known && last.dest !in before then before + [last.dest] else before
  }

  lemma FirstsAppend(streams: seq<(Endpoint, Endpoint)>, p: (Endpoint, Endpoint))
    ensures Firsts(streams + [p]) == Firsts(streams) + {p.0}
  {
    forall e | e in Firsts(streams) + {p.0} ensures e in Firsts(streams + [p]) {
      if e == p.0 {
        assert p in streams + [p];
      } else {
        var q :| q in streams && q.0 == e;
        assert q in streams + [p];
      }
    }
  }

  lemma NewStreamsStep(known: set<Endpoint>, packets: seq<Packet>, i: nat)
    requires i < |packets|
    ensures var before := NewStreams(known, packets[..i]);
            NewStreams(known, packets[..i + 1]) ==
              if packets[i].Syn? && packets[i].source !in known + Firsts(before)
              then before + [(packets[i].source, packets[i].dest)] else before
    ensures var before := NewTargets(known, packets[..i]);
            NewTargets(known, packets[..i + 1]) ==
              if packets[i].Datagram? && packets[i].dest !in known && packets[i].dest !in before
              then before + [packets[i].dest] else before
    ensures known + Firsts(NewStreams(known, packets[..i + 1])) ==
              known + Firsts(NewStreams(known, packets[..i])) + if packets[i].Syn? then {packets[i].source} else {}
  {
    assert packets[..i + 1][..i] == packets[..i];
    if packets[i].Syn? {
      FirstsAppend(NewStreams(known, packets[..i]), (packets[i].source, packets[i].dest));
    }
  }

  class TunDevice {
    var sockets: map<Handle, Sock>
    var tcpIp2Handle: TcpIndex
    var tcpHandle2Ip: map<Handle, Endpoint>
    var udpIp2Handle: map<Endpoint, Handle>
    var newTcp: seq<Endpoint>
    var newUdp: seq<Endpoint>
    var tcpReqSenders: set<Endpoint>
    var udpReqSenders: set<Endpoint>
    /** Sources with data waiting to be sent to them. */
    var tcpResponse: set<Endpoint>

    constructor ()
      ensures Valid() && Accepted() && sockets == map[] && tcpHandle2Ip == map[]
    {
      sockets, tcpIp2Handle, tcpHandle2Ip, udpIp2Handle := map[], map[], map[], map[];
      newTcp, newUdp, tcpReqSenders, udpReqSenders, tcpResponse := [], [], {}, {}, {};
    }

    ghost predicate Tables()
      reads `sockets, `tcpIp2Handle, `tcpHandle2Ip, `udpIp2Handle
    {
      && TcpTables(sockets, tcpIp2Handle, tcpHandle2Ip)
      && UdpTables(sockets, udpIp2Handle)
    }

    /** Every registered endpoint either has a sender or waits to be accepted. */
    ghost predicate Valid()
      reads this
    {
      && Tables()
      && (forall s :: s in tcpIp2Handle <==> s in tcpReqSenders || s in newTcp)
      && (forall s :: s in tcpReqSenders ==> s !in newTcp)
      && (forall t :: t in udpIp2Handle <==> t in udpReqSenders || t in newUdp)
      && (forall t :: t in udpReqSenders ==> t !in newUdp)
      && Distinct(newTcp) && Distinct(newUdp)
    }

    /** Nothing waits: the senders have exactly the keys of the socket tables. */
    ghost predicate Accepted()
      reads this
    {
      Tables() && newTcp == [] && newUdp == [] && tcpReqSenders == tcpIp2Handle.Keys && udpReqSenders == udpIp2Handle.Keys
    }

    lemma AcceptedIsValid()
      requires Accepted()
      ensures Valid()
    {
    }

    /** `ensure_tcp_socket`; `slot` is any handle that is not live. */
    method EnsureTcpSocket(dest: Endpoint, source: Endpoint, slot: Handle)
      requires Valid() && slot !in sockets
      modifies `sockets, `tcpIp2Handle, `tcpHandle2Ip, `newTcp
      ensures Valid() && source in tcpIp2Handle
      ensures source in old(tcpIp2Handle) ==>
        sockets == old(sockets) && tcpIp2Handle == old(tcpIp2Handle) && tcpHandle2Ip == old(tcpHandle2Ip) && newTcp == old(newTcp)
      ensures source !in old(tcpIp2Handle) ==>
        && sockets == old(sockets)[slot := TcpSock(false, None, false)]
        && tcpIp2Handle == old(tcpIp2Handle)[source := (slot, dest)]
        && tcpHandle2Ip == old(tcpHandle2Ip)[slot := source]
        && newTcp == old(newTcp) + [source]
    {
      if source in tcpIp2Handle {
        return;
      }
      AddTcp(sockets, tcpIp2Handle, tcpHandle2Ip, slot, source, dest);
      sockets := sockets[slot := TcpSock(false, None, false)];
      tcpIp2Handle := tcpIp2Handle[source := (slot, dest)];
      tcpHandle2Ip := tcpHandle2Ip[slot := source];
      newTcp := newTcp + [source];
    }

    /** `ensure_udp_socket`. */
    method EnsureUdpSocket(dest: Endpoint, slot: Handle)
      requires Valid() && slot !in sockets
      modifies `sockets, `udpIp2Handle, `newUdp
      ensures Valid() && dest in udpIp2Handle
      ensures dest in old(udpIp2Handle) ==>
        sockets == old(sockets) && udpIp2Handle == old(udpIp2Handle) && newUdp == old(newUdp)
      ensures dest !in old(udpIp2Handle) ==>
        && sockets == old(sockets)[slot := UdpSock(dest, false, false, false)]
        && udpIp2Handle == old(udpIp2Handle)[dest := slot] && newUdp == old(newUdp) + [dest]
    {
      if dest in udpIp2Handle {
        return;
      }
      sockets := sockets[slot := UdpSock(dest, false, false, false)];
      udpIp2Handle := udpIp2Handle[dest := slot];
      newUdp := newUdp + [dest];
    }

    /** `accept_tcp`: one stream per new source, with the destination it asked for. Every lookup
        succeeds. */
    method AcceptTcp() returns (streams: seq<(Endpoint, Endpoint)>)
      requires Valid()
      modifies `newTcp, `tcpReqSenders
      ensures Valid() && newTcp == [] && tcpReqSenders == tcpIp2Handle.Keys
      ensures |streams| == |old(newTcp)|
      ensures forall i :: 0 <= i < |streams| ==>
        old(newTcp)[i] in tcpIp2Handle && streams[i] == (old(newTcp)[i], tcpIp2Handle[old(newTcp)[i]].1)
    {
      var sources := newTcp;
      newTcp, streams := [], [];
      var i := 0;
      while i < |sources|
        invariant i <= |sources| == |old(newTcp)| && |streams| == i && newTcp == []
        invariant tcpReqSenders == old(tcpReqSenders) + set s | s in sources[..i]
        invariant forall j :: 0 <= j < i ==>
          sources[j] in tcpIp2Handle && streams[j] == (sources[j], tcpIp2Handle[sources[j]].1)
      {
        assert sources[i] in old(newTcp);
        assert sources[..i + 1] == sources[..i] + [sources[i]];
        tcpReqSenders := tcpReqSenders + {sources[i]};
        streams := streams + [(sources[i], tcpIp2Handle[sources[i]].1)];
        i := i + 1;
      }
      assert sources[..i] == sources;
    }

    /** `accept_udp`. */
    method AcceptUdp() returns (targets: seq<Endpoint>)
      requires Valid()
      modifies `newUdp, `udpReqSenders
      ensures Valid() && newUdp == [] && udpReqSenders == udpIp2Handle.Keys && targets == old(newUdp)
    {
      targets, newUdp := newUdp, [];
      var i := 0;
      while i < |targets|
        invariant i <= |targets| && newUdp == [] && udpReqSenders == old(udpReqSenders) + set t | t in targets[..i]
      {
        assert targets[..i + 1] == targets[..i] + [targets[i]];
        udpReqSenders := udpReqSenders + {targets[i]};
        i := i + 1;
      }
      assert targets[..i] == targets;
    }

    /** `remove_tcp`. Removing a handle that is not live would abort the program. */
    method RemoveTcp(source: Endpoint)
      requires Accepted()
      modifies `sockets, `tcpIp2Handle, `tcpReqSenders, `tcpResponse
      ensures Accepted()
      ensures tcpIp2Handle == old(tcpIp2Handle) - {source}
      ensures tcpReqSenders == old(tcpReqSenders) - {source} && tcpResponse == old(tcpResponse) - {source}
      ensures sockets == old(sockets) - if source in old(tcpIp2Handle) then {old(tcpIp2Handle)[source].0} else {}
    {
      if source in tcpIp2Handle {
        var handle := tcpIp2Handle[source].0;
        assert handle in sockets;
        OtherKindUndisturbed(sockets, tcpIp2Handle, tcpHandle2Ip, udpIp2Handle, handle);
        DropTcp(sockets, tcpIp2Handle, tcpHandle2Ip, source);
        sockets := sockets - {handle};
        tcpIp2Handle := tcpIp2Handle - {source};
      }
      tcpReqSenders := tcpReqSenders - {source};
      tcpResponse := tcpResponse - {source};
    }

    /** `remove_tcp_handle`: the socket that is registered for the handle's source goes, and the entry
        for the handle. For a live handle that is its own socket. */
    method RemoveTcpHandle(handle: Handle)
      requires Accepted()
      modifies `sockets, `tcpIp2Handle, `tcpReqSenders, `tcpResponse, `tcpHandle2Ip
      ensures Accepted() && tcpHandle2Ip == old(tcpHandle2Ip) - {handle}
      ensures handle in old(tcpHandle2Ip) ==>
        var source := old(tcpHandle2Ip)[handle];
        && tcpIp2Handle == old(tcpIp2Handle) - {source}
        && sockets == old(sockets) - if source in old(tcpIp2Handle) then {old(tcpIp2Handle)[source].0} else {}
      ensures handle in old(sockets) && old(sockets)[handle].TcpSock? ==>
        handle in old(tcpHandle2Ip) && sockets == old(sockets) - {handle}
      ensures handle !in old(tcpHandle2Ip) ==> sockets == old(sockets) && tcpIp2Handle == old(tcpIp2Handle)
    {
      if handle in tcpHandle2Ip {
        var source := tcpHandle2Ip[handle];
        RemoveTcp(source);
        StaleEntryGone(sockets, tcpIp2Handle, tcpHandle2Ip, handle);
        tcpHandle2Ip := tcpHandle2Ip - {handle};
      }
    }

    /** `remove_udp`. */
    method RemoveUdp(target: Endpoint)
      requires Accepted()
      modifies `sockets, `udpIp2Handle, `udpReqSenders
      ensures Accepted()
      ensures udpIp2Handle == old(udpIp2Handle) - {target} && udpReqSenders == old(udpReqSenders) - {target}
      ensures sockets == old(sockets) - if target in old(udpIp2Handle) then {old(udpIp2Handle)[target]} else {}
      ensures Shrunk(old(sockets), sockets) && TcpKept(old(sockets), sockets)
    {
      if target in udpIp2Handle {
        var handle := udpIp2Handle[target];
        assert handle in sockets;
        OtherKindUndisturbed(sockets, tcpIp2Handle, tcpHandle2Ip, udpIp2Handle, handle);
        DropUdp(sockets, udpIp2Handle, target);
        sockets := sockets - {handle};
        udpIp2Handle := udpIp2Handle - {target};
      }
      udpReqSenders := udpReqSenders - {target};
    }

    /** The pass of `process_ingress` over the sockets. It fails exactly if some connected socket with
        data has no sender for its remote endpoint. Otherwise endpoints whose sockets are finished are
        collected for removal, as are the handles of TCP sockets without a remote endpoint. */
    method CollectFinished() returns (ok: bool, tcp: seq<Endpoint>, udp: seq<Endpoint>, handles: seq<Handle>)
      requires Accepted()
      ensures ok <==> SendersKnown(sockets, tcpReqSenders)
      ensures ok ==> forall s :: s in tcp <==> exists h :: EndsAt(sockets, h, s)
      ensures ok ==> forall t :: t in udp <==> t in udpIp2Handle && sockets[udpIp2Handle[t]].Finished()
      ensures ok ==> forall h :: h in handles <==> Unconnected(h)
      ensures forall i, j :: 0 <= i < j < |handles| ==> handles[i] != handles[j]
    {
      tcp, udp, handles := [], [], [];
      var todo := sockets.Keys;
      while todo != {}
        invariant todo <= sockets.Keys
        invariant forall h :: h in sockets && h !in todo && sockets[h].TcpSock? && sockets[h].canRecv && sockets[h].remote.Some? ==>
          sockets[h].remote.value in tcpReqSenders
        invariant forall s :: s in tcp <==> exists h :: h !in todo && EndsAt(sockets, h, s)
        invariant forall t :: t in udp <==> t in udpIp2Handle && udpIp2Handle[t] !in todo && sockets[udpIp2Handle[t]].Finished()
        invariant forall h :: h in handles <==> Unconnected(h) && h !in todo
        invariant forall i, j :: 0 <= i < j < |handles| ==> handles[i] != handles[j]
        decreases |todo|
      {
        var handle :| handle in todo;
        ghost var before := todo;
        todo := todo - {handle};
        var socket := sockets[handle];
        ghost var tcpBefore := tcp;
        if socket.canRecv {
          if socket.TcpSock? {
            match socket.remote {
              case Some(source) =>
                if source !in tcpReqSenders {
                  return false, [], [], [];
                }
                if socket.inactive {
                  tcp := tcp + [source];
                }
              case None =>
                handles := handles + [handle];
            }
          } else {
            assert socket.target in udpReqSenders;
            if socket.failed {
              udp := udp + [socket.target];
            }
            if socket.closed {
              udp := udp + [socket.target];
            }
          }
        }
        OneMoreEnd(sockets, before, handle, tcpBefore, tcp);
      }
      ok := true;
    }

    ghost predicate Unconnected(h: Handle)
      reads `sockets
    {
      h in sockets && sockets[h].TcpSock? && sockets[h].canRecv && sockets[h].remote.None?
    }

    method RemoveTcps(tcp: seq<Endpoint>)
      requires Accepted()
      modifies `sockets, `tcpIp2Handle, `tcpReqSenders, `tcpResponse
      ensures Accepted() && Shrunk(old(sockets), sockets)
      ensures forall s :: s in tcp ==> s !in tcpIp2Handle
      ensures forall h :: h in old(sockets) ==>
        (h in sockets <==> !(old(sockets)[h].TcpSock? && h in tcpHandle2Ip && tcpHandle2Ip[h] in tcp))
    {
      var i := 0;
      while i < |tcp|
        invariant i <= |tcp| && Accepted() && Shrunk(old(sockets), sockets)
        invariant forall h :: h in old(sockets) && h !in sockets ==>
          old(sockets)[h].TcpSock? && h in tcpHandle2Ip && tcpHandle2Ip[h] in tcp
        invariant forall j :: 0 <= j < i ==> tcp[j] !in tcpIp2Handle
      {
        if tcp[i] in tcpIp2Handle { RegisteredIsLive(sockets, tcpIp2Handle, tcpHandle2Ip, tcp[i]); }
        RemoveTcp(tcp[i]);
        i := i + 1;
      }
    }

    method RemoveUdps(udp: seq<Endpoint>)
      requires Accepted()
      modifies `sockets, `udpIp2Handle, `udpReqSenders
      ensures Accepted() && Shrunk(old(sockets), sockets) && TcpKept(old(sockets), sockets)
      ensures forall h :: h in old(sockets) && old(sockets)[h].UdpSock? ==> (h in sockets <==> old(sockets)[h].target !in udp)
    {
      var i := 0;
      while i < |udp|
        invariant i <= |udp| && Accepted() && Shrunk(old(sockets), sockets) && TcpKept(old(sockets), sockets)
        invariant forall h :: h in old(sockets) && old(sockets)[h].UdpSock? ==>
          (h in sockets <==> old(sockets)[h].target !in udp[..i])
      {
        assert udp[..i + 1] == udp[..i] + [udp[i]];
        RemoveUdp(udp[i]);
        i := i + 1;
      }
      assert udp[..i] == udp;
    }

    method RemoveTcpHandles(handles: seq<Handle>)
      requires Accepted()
      requires forall h :: h in handles ==> h in tcpHandle2Ip && OwnOrGone(h)
      requires forall i, j :: 0 <= i < j < |handles| ==> handles[i] != handles[j]
      modifies `sockets, `tcpIp2Handle, `tcpReqSenders, `tcpResponse, `tcpHandle2Ip
      ensures Accepted() && Shrunk(old(sockets), sockets) && Kept(old(tcpHandle2Ip), tcpHandle2Ip)
      ensures forall h :: h in old(sockets) ==> (h in sockets <==> h !in handles)
    {
      var i := 0;
      while i < |handles|
        invariant i <= |handles| && Accepted() && Shrunk(old(sockets), sockets) && Kept(old(tcpHandle2Ip), tcpHandle2Ip)
        invariant forall h :: h in old(sockets) ==> (h in sockets <==> h !in handles[..i])
        invariant forall j :: i <= j < |handles| ==> handles[j] in tcpHandle2Ip && OwnOrGone(handles[j])
      {
        assert handles[i] !in handles[..i];
        RemoveTcpHandle(handles[i]);
        assert handles[..i + 1] == handles[..i] + [handles[i]];
        i := i + 1;
      }
      assert handles[..i] == handles;
    }

    /** The handle is of a live TCP socket, or neither it nor its source has a socket any more. */
    ghost predicate OwnOrGone(h: Handle)
      reads `sockets, `tcpHandle2Ip, `tcpIp2Handle
    {
      if h in sockets then sockets[h].TcpSock? else h in tcpHandle2Ip ==> tcpHandle2Ip[h] !in tcpIp2Handle
    }

    /** `process_ingress`, unless the pass fails, removes the sockets that `Goes` says, each once, and
        keeps the tables coherent whatever the sockets are connected to. */
    method ProcessIngress() returns (ok: bool)
      requires Accepted()
      modifies `sockets, `tcpIp2Handle, `tcpHandle2Ip, `udpIp2Handle, `tcpReqSenders, `udpReqSenders, `tcpResponse
      ensures Accepted() && Shrunk(old(sockets), sockets)
      ensures Kept(old(tcpHandle2Ip), tcpHandle2Ip)
      ensures ok <==> SendersKnown(old(sockets), old(tcpReqSenders))
      ensures ok ==> forall h :: h in old(sockets) ==> (h in sockets <==> !Goes(old(sockets), old(tcpHandle2Ip), h))
      ensures !ok ==> sockets == old(sockets) && tcpReqSenders == old(tcpReqSenders)
      ensures RemotesRegistered(old(sockets), old(tcpHandle2Ip)) ==>
        ok && forall h :: h in old(sockets) ==> (h in sockets <==> !old(sockets)[h].Finished())
    {
      hide Goes, SendersKnown, RemotesRegistered;
      if RemotesRegistered(sockets, tcpHandle2Ip) { RegisteredRemotesSuffice(sockets, tcpIp2Handle, tcpHandle2Ip); }
      var tcp, udp, handles;
      ok, tcp, udp, handles := CollectFinished();
      if ok {
        CollectedGo(tcp, udp, handles);
        RemoveAll(tcp, udp, handles);
      }
    }

    /** What the pass collects describes what goes. */
    lemma CollectedGo(tcp: seq<Endpoint>, udp: seq<Endpoint>, handles: seq<Handle>)
      requires Accepted()
      requires forall s :: s in tcp <==> exists h :: EndsAt(sockets, h, s)
      requires forall t :: t in udp <==> t in udpIp2Handle && sockets[udpIp2Handle[t]].Finished()
      requires forall h :: h in handles <==> Unconnected(h)
      ensures forall h :: h in sockets ==> (Named(h, tcp, udp, handles) <==> Goes(sockets, tcpHandle2Ip, h))
      ensures forall h :: h in handles ==> h in sockets && sockets[h].TcpSock?
    {
    }

    ghost predicate Named(h: Handle, tcp: seq<Endpoint>, udp: seq<Endpoint>, handles: seq<Handle>)
      requires h in sockets
      reads `sockets, `tcpHandle2Ip
    {
      if sockets[h].UdpSock? then sockets[h].target in udp
      else h in handles || (h in tcpHandle2Ip && tcpHandle2Ip[h] in tcp)
    }

    /** The removals at the end of `process_ingress`. */
    method RemoveAll(tcp: seq<Endpoint>, udp: seq<Endpoint>, handles: seq<Handle>)
      requires Accepted()
      requires forall h :: h in handles ==> h in sockets && sockets[h].TcpSock?
      requires forall i, j :: 0 <= i < j < |handles| ==> handles[i] != handles[j]
      modifies `sockets, `tcpIp2Handle, `tcpHandle2Ip, `udpIp2Handle, `tcpReqSenders, `udpReqSenders, `tcpResponse
      ensures Accepted() && Shrunk(old(sockets), sockets) && Kept(old(tcpHandle2Ip), tcpHandle2Ip)
      ensures forall h :: h in old(sockets) ==> (h in sockets <==> !old(Named(h, tcp, udp, handles)))
    {
      RemoveEndpoints(tcp, udp);
      RemoveTcpHandles(handles);
    }

    method RemoveEndpoints(tcp: seq<Endpoint>, udp: seq<Endpoint>)
      requires Accepted()
      modifies `sockets, `tcpIp2Handle, `udpIp2Handle, `tcpReqSenders, `udpReqSenders, `tcpResponse
      ensures Accepted() && Shrunk(old(sockets), sockets)
      ensures forall s :: s in tcp ==> s !in tcpIp2Handle
      ensures forall h :: h in old(sockets) && old(sockets)[h].TcpSock? ==>
        (h in sockets <==> !(h in tcpHandle2Ip && tcpHandle2Ip[h] in tcp))
      ensures forall h :: h in old(sockets) && old(sockets)[h].UdpSock? ==> (h in sockets <==> old(sockets)[h].target !in udp)
    {
      RemoveTcps(tcp);
      RemoveUdps(udp);
    }

    /** `process_egress`: `received` are the sources that new responses arrived for; `sends` are the UDP
        targets with packets, and whether one of these was empty or failed to be sent. Responses for
        unknown sources are dropped, as are the targets with a failed packet; every other lookup
        succeeds. */
    method ProcessEgress(received: set<Endpoint>, sends: map<Endpoint, bool>)
      requires Accepted()
      modifies `sockets, `udpIp2Handle, `udpReqSenders, `tcpResponse
      ensures Accepted() && Shrunk(old(sockets), sockets)
      ensures tcpResponse == (old(tcpResponse) + received) * tcpIp2Handle.Keys
      ensures forall t :: t in udpIp2Handle <==> t in old(udpIp2Handle) && !(t in sends && sends[t])
    {
      FlushTcp(received);
      FlushUdp(sends);
    }

    /** The TCP half of `process_egress`. */
    method FlushTcp(received: set<Endpoint>)
      requires TcpTables(sockets, tcpIp2Handle, tcpHandle2Ip)
      modifies `tcpResponse
      ensures tcpResponse == (old(tcpResponse) + received) * tcpIp2Handle.Keys
    {
      var response := tcpResponse + received;
      var toBeRemoved: set<Endpoint> := {};
      var todo := response;
      while todo != {}
        invariant todo <= response
        invariant forall s :: s in toBeRemoved <==> s in response && s !in todo && s !in tcpIp2Handle
        decreases |todo|
      {
        var source :| source in todo;
        todo := todo - {source};
        if source !in tcpIp2Handle {
          toBeRemoved := toBeRemoved + {source};
        } else {
          var socket := sockets[tcpIp2Handle[source].0];
        }
      }
      tcpResponse := response - toBeRemoved;
    }

    /** The UDP half of `process_egress`: removes exactly the targets with a failed packet. */
    method FlushUdp(sends: map<Endpoint, bool>)
      requires Accepted()
      modifies `sockets, `udpIp2Handle, `udpReqSenders
      ensures Accepted() && Shrunk(old(sockets), sockets)
      ensures forall t :: t in udpIp2Handle <==> t in old(udpIp2Handle) && !(t in sends && sends[t])
    {
      var left := sends.Keys;
      while left != {}
        invariant left <= sends.Keys && Accepted() && Shrunk(old(sockets), sockets)
        invariant forall t :: t in udpIp2Handle <==> t in old(udpIp2Handle) && !(t in sends && t !in left && sends[t])
        decreases |left|
      {
        var target :| target in left;
        left := left - {target};
        if target in udpIp2Handle {
          var socket := sockets[udpIp2Handle[target]];
          if sends[target] {
            RemoveUdp(target);
          }
        }
      }
    }

    /** The IP stack at work: any change to the sockets' states and remote endpoints. */
    method Evolve()
      requires Valid()
      modifies `sockets
      ensures Valid() && sockets.Keys == old(sockets).Keys && Pending() == old(Pending())
    {
      var next: map<Handle, Sock> :|
        && next.Keys == sockets.Keys
        && (forall h :: h in next ==> next[h].TcpSock? == sockets[h].TcpSock?)
        && (forall h :: h in next && next[h].UdpSock? ==> next[h].target == sockets[h].target);
      sockets := next;
    }

    /** The new sources that wait to be accepted, with the destinations they asked for. */
    ghost function Pending(): seq<(Endpoint, Endpoint)>
      requires Valid()
      reads this
    {
      Asked(newTcp, tcpIp2Handle)
    }

    /** `preprocess_packet` of an allowed packet, into whatever free slot the socket set picks. A new
        source waits with the destination it asked for, a new UDP target likewise. */
    method Preprocess(packet: Packet)
      requires Valid()
      modifies `sockets, `tcpIp2Handle, `tcpHandle2Ip, `newTcp, `udpIp2Handle, `newUdp
      ensures Valid()
      ensures if packet.Syn? && packet.source !in old(tcpIp2Handle)
              then Pending() == old(Pending()) + [(packet.source, packet.dest)] && tcpIp2Handle.Keys == old(tcpIp2Handle).Keys + {packet.source}
              else Pending() == old(Pending()) && tcpIp2Handle.Keys == old(tcpIp2Handle).Keys
      ensures if packet.Datagram? && packet.dest !in old(udpIp2Handle)
              then newUdp == old(newUdp) + [packet.dest] && udpIp2Handle.Keys == old(udpIp2Handle).Keys + {packet.dest}
              else newUdp == old(newUdp) && udpIp2Handle.Keys == old(udpIp2Handle).Keys
    {
      hide TcpTables, UdpTables;
      ghost var free := FreeSlot(sockets.Keys);
      var slot: Handle :| slot !in sockets;
      match packet {
        case Syn(source, dest) => EnsureTcpSocket(dest, source, slot);
        case Datagram(dest) => EnsureUdpSocket(dest, slot);
        case Other =>
      }
    }

    /** The packets of one round, with the IP stack at work in between. */
    method Receive(packets: seq<Packet>)
      requires Valid()
      modifies `sockets, `tcpIp2Handle, `tcpHandle2Ip, `newTcp, `udpIp2Handle, `newUdp
      ensures Valid()
      ensures Pending() == old(Pending()) + NewStreams(old(tcpIp2Handle).Keys, packets)
      ensures newUdp == old(newUdp) + NewTargets(old(udpIp2Handle).Keys, packets)
    {
      hide Valid, NewStreams, NewTargets, Firsts;
      NothingNew(tcpIp2Handle.Keys);
      NothingNew(udpIp2Handle.Keys);
      Evolve();
      var i := 0;
      while i < |packets|
        invariant i <= |packets| && Valid()
        invariant Pending() == old(Pending()) + NewStreams(old(tcpIp2Handle).Keys, packets[..i])
        invariant tcpIp2Handle.Keys == old(tcpIp2Handle).Keys + Firsts(NewStreams(old(tcpIp2Handle).Keys, packets[..i]))
        invariant newUdp == old(newUdp) + NewTargets(old(udpIp2Handle).Keys, packets[..i])
        invariant forall t :: t in udpIp2Handle <==> t in old(udpIp2Handle) || t in NewTargets(old(udpIp2Handle).Keys, packets[..i])
      {
        NewStreamsStep(old(tcpIp2Handle).Keys, packets, i);
        NewStreamsStep(old(udpIp2Handle).Keys, packets, i);
        Preprocess(packets[i]);
        Evolve();
        i := i + 1;
      }
      assert packets[..i] == packets;
    }

    /** `poll`: one round. The IP stack may change its sockets at any time, with packets or without.
        Every new source gets a stream to the destination it asked for, and every new target a socket.
        The round fails exactly if the pass over the sockets does; the tables are coherent anyway. */
    method Poll(packets: seq<Packet>, received: set<Endpoint>, sends: map<Endpoint, bool>)
      returns (ok: bool, streams: seq<(Endpoint, Endpoint)>, targets: seq<Endpoint>)
      requires Valid()
      modifies this
      ensures Valid() && Accepted()
      ensures streams == old(Pending()) + NewStreams(old(tcpIp2Handle).Keys, packets)
      ensures targets == old(newUdp) + NewTargets(old(udpIp2Handle).Keys, packets)
      ensures ok ==> tcpResponse <= tcpIp2Handle.Keys
      ensures !ok ==> !SendersKnown(sockets, tcpReqSenders)
    {
      hide Tables, NewStreams, NewTargets;
      Receive(packets);
      ghost var pending := Pending();
      streams := AcceptTcp();
      assert streams == pending;
      targets := AcceptUdp();
      ok := ProcessIngress();
      if ok {
        ProcessEgress(received, sends);
      }
    }
  }

  lemma NothingNew(known: set<Endpoint>)
    ensures NewStreams(known, []) == [] && NewTargets(known, []) == [] && Firsts([]) == {}
  {
  }

  /** What arrives in one round. */
  datatype Round = Round(packets: seq<Packet>, received: set<Endpoint>, sends: map<Endpoint, bool>)

  /** Any number of rounds, with any behaviour of the IP stack: the two TCP tables are inverse to each
      other on live handles, the UDP table and the UDP sockets likewise, and the senders have exactly
      the keys of the tables. The run stops only at a connected socket with data whose remote endpoint
      has no sender. */
  method Serve(device: TunDevice, rounds: seq<Round>) returns (ok: bool)
    requires device.Accepted()
    modifies device
    ensures device.Accepted()
    ensures !ok ==> !SendersKnown(device.sockets, device.tcpReqSenders)
    ensures forall h, s :: h in device.sockets && device.sockets[h].TcpSock? ==>
      h in device.tcpHandle2Ip && (device.tcpHandle2Ip[h] == s <==> s in device.tcpIp2Handle && device.tcpIp2Handle[s].0 == h)
    ensures forall s :: s in device.tcpIp2Handle ==>
      device.tcpIp2Handle[s].0 in device.sockets && device.sockets[device.tcpIp2Handle[s].0].TcpSock?
    ensures forall t :: t in device.udpIp2Handle ==>
      device.udpIp2Handle[t] in device.sockets && device.sockets[device.udpIp2Handle[t]].UdpSock?
    ensures device.tcpReqSenders == device.tcpIp2Handle.Keys && device.udpReqSenders == device.udpIp2Handle.Keys
  {
    ok := true;
    var i := 0;
    while i < |rounds| && ok
      invariant device.Accepted() && (!ok ==> !SendersKnown(device.sockets, device.tcpReqSenders))
    {
      device.AcceptedIsValid();
      var streams, targets;
      ok, streams, targets := device.Poll(rounds[i].packets, rounds[i].received, rounds[i].sends);
      i := i + 1;
    }
    forall h, s | h in device.sockets && device.sockets[h].TcpSock?
      ensures h in device.tcpHandle2Ip && (device.tcpHandle2Ip[h] == s <==> s in device.tcpIp2Handle && device.tcpIp2Handle[s].0 == h)
    {
      InverseOnLive(device.sockets, device.tcpIp2Handle, device.tcpHandle2Ip, h, s);
    }
  }

  lemma CrossedStays(sockets: map<Handle, Sock>, handle2ip: map<Handle, Endpoint>, crossed: Handle, b: Endpoint)
    requires EndsAt(sockets, crossed, b) && crossed in handle2ip
    requires forall k :: !EndsAt(sockets, k, handle2ip[crossed])
    ensures !Goes(sockets, handle2ip, crossed)
  {
  }

  lemma OwnGoes(sockets: map<Handle, Sock>, handle2ip: map<Handle, Endpoint>, own: Handle, crossed: Handle, b: Endpoint)
    requires EndsAt(sockets, crossed, b)
    requires own in sockets && sockets[own].TcpSock? && own in handle2ip && handle2ip[own] == b
    ensures Goes(sockets, handle2ip, own)
  {
  }

  lemma NoSender(sockets: map<Handle, Sock>, senders: set<Endpoint>, crossed: Handle, b: Endpoint)
    requires EndsAt(sockets, crossed, b) && b !in senders
    ensures !SendersKnown(sockets, senders)
  {
  }

  /** How a run can stop: the socket registered for `a` got connected to `b`, which has a socket of its
      own. When the former is inactive the latter is removed in its place, and with it the sender that
      the next pass looks up for the former, which is still there. */
  method CrossedConnectionStops(device: TunDevice, crossed: Handle, b: Endpoint) returns (first: bool, second: bool)
    requires device.Accepted() && SendersKnown(device.sockets, device.tcpReqSenders)
    requires EndsAt(device.sockets, crossed, b) && crossed in device.tcpHandle2Ip
    requires forall k :: !EndsAt(device.sockets, k, device.tcpHandle2Ip[crossed])
    modifies device
    ensures first && !second && crossed in device.sockets && b !in device.tcpIp2Handle
  {
    ghost var all, handle2ip := device.sockets, device.tcpHandle2Ip;
    hide Goes, SendersKnown;
    CrossedStays(all, handle2ip, crossed, b);
    first := device.ProcessIngress();
    if b in device.tcpIp2Handle {
      var own := device.tcpIp2Handle[b].0;
      RegisteredIsLive(device.sockets, device.tcpIp2Handle, device.tcpHandle2Ip, b);
      OwnGoes(all, handle2ip, own, crossed, b);
    }
    NoSender(device.sockets, device.tcpReqSenders, crossed, b);
    second := device.ProcessIngress();
  }

  ghost predicate Kept(before: map<Handle, Endpoint>, after: map<Handle, Endpoint>) {
    forall h :: h in after ==> h in before && after[h] == before[h]
  }

  ghost predicate TcpKept(before: map<Handle, Sock>, after: map<Handle, Sock>) {
    forall h :: h in before && before[h].TcpSock? ==> h in after
  }

  ghost predicate Shrunk(before: map<Handle, Sock>, after: map<Handle, Sock>) {
    forall h :: h in after ==> h in before && after[h] == before[h]
  }
}

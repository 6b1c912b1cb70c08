/** The UDP server behind the Windows adapter (src/wintun/udp.rs): two tables of connections and a
    reference count for every socket handle. */
module UdpSessions {
  import opened Endpoints

  type Token = nat
  type Time = int

  /** Tokens are drawn in a circle. */
  const MIN_INDEX: nat := 2
  const MAX_INDEX: nat := 0xFFFF_FFFF_FFFF_FFFF / 3

  /** What the tables share about a connection; the connection itself lives behind an `Arc`. */
  datatype Conn = Conn(token: Token, local: Handle, endpoint: Endpoint)

  datatype HandleInfo = HandleInfo(lastActive: Time, refCount: nat)

  /** One received datagram: its source, and whether the connection is closed after handling it. */
  datatype Packet = Packet(source: Endpoint, closes: bool)

  const HANDLE_TIMEOUT: Time := 600

  /** The live connections that belong to a handle. */
  function Users(conns: map<Token, Conn>, h: Handle): set<Token> {
    set t | t in conns && conns[t].local == h
  }

  /** Both tables hold the same connections. */
  ghost predicate SameConns(token2conns: map<Token, Conn>, addr2conns: map<Endpoint, Conn>) {
    && (forall t {:trigger token2conns[t]} :: t in token2conns ==>
          var c := token2conns[t];
          c.token == t && c.endpoint in addr2conns && addr2conns[c.endpoint] == c)
    && (forall e {:trigger addr2conns[e]} :: e in addr2conns ==>
          var c := addr2conns[e];
          c.endpoint == e && c.token in token2conns && token2conns[c.token] == c)
  }

  ghost predicate CountsExact(handles: map<Handle, HandleInfo>, conns: map<Token, Conn>) {
    && (forall t {:trigger conns[t]} :: t in conns ==> conns[t].local in handles)
    && (forall h {:trigger handles[h]} :: h in handles ==> handles[h].refCount == |Users(conns, h)|)
  }

  lemma AddToTables(token2conns: map<Token, Conn>, addr2conns: map<Endpoint, Conn>, c: Conn)
    requires SameConns(token2conns, addr2conns)
    requires c.token !in token2conns && c.endpoint !in addr2conns
    ensures SameConns(token2conns[c.token := c], addr2conns[c.endpoint := c])
  {
  }

  /** A new source under a token in use: one of the tables has a connection that the other has not. */
  lemma TokenInUse(token2conns: map<Token, Conn>, addr2conns: map<Endpoint, Conn>, c: Conn)
    requires SameConns(token2conns, addr2conns)
    requires c.token in token2conns && c.endpoint !in addr2conns
    ensures !SameConns(token2conns, addr2conns[c.endpoint := c])
  {
    var after := addr2conns[c.endpoint := c];
    assert after[c.endpoint] == c && token2conns[c.token].endpoint in addr2conns;
  }

  lemma UsersAfterAdd(conns: map<Token, Conn>, c: Conn, h: Handle)
    requires c.token !in conns
    ensures Users(conns[c.token := c], h) == if c.local == h then Users(conns, h) + {c.token} else Users(conns, h)
    ensures c.token !in Users(conns, h)
  {
  }

  lemma UsersAfterDrop(conns: map<Token, Conn>, t: Token, h: Handle)
    requires t in conns
    ensures Users(conns - {t}, h) == if conns[t].local == h then Users(conns, h) - {t} else Users(conns, h)
    ensures t in Users(conns, h) <==> conns[t].local == h
  {
  }

  lemma AddToCount(conns: map<Token, Conn>, handles: map<Handle, HandleInfo>, c: Conn)
    requires CountsExact(handles, conns) && c.token !in conns && c.local in handles
    ensures var i := handles[c.local];
            CountsExact(handles[c.local := i.(refCount := i.refCount + 1)], conns[c.token := c])
  {
    hide Users;
    var i := handles[c.local];
    var handles' := handles[c.local := i.(refCount := i.refCount + 1)];
    forall h | h in handles' ensures handles'[h].refCount == |Users(conns[c.token := c], h)| {
      assert handles[h].refCount == |Users(conns, h)|;
      UsersAfterAdd(conns, c, h);
    }
  }

  lemma DropFromTables(token2conns: map<Token, Conn>, addr2conns: map<Endpoint, Conn>, t: Token)
    requires SameConns(token2conns, addr2conns) && t in token2conns
    ensures SameConns(token2conns - {t}, addr2conns - {token2conns[t].endpoint})
  {
    var after, rest := token2conns - {t}, addr2conns - {token2conns[t].endpoint};
    forall u | u in after ensures after[u] == token2conns[u] { }
    forall e | e in rest ensures rest[e] == addr2conns[e] && rest[e].token != t { }
  }

  /** Removing a connection decrements a count that is not zero. */
  lemma DropFromCount(conns: map<Token, Conn>, handles: map<Handle, HandleInfo>, t: Token)
    requires CountsExact(handles, conns) && t in conns
    ensures var c := conns[t];
            && c.local in handles && handles[c.local].refCount > 0
            && var i := handles[c.local];
               CountsExact(handles[c.local := i.(refCount := i.refCount - 1)], conns - {t})
  {
    hide Users;
    var c := conns[t];
    var after := conns - {t};
    UsersAfterDrop(conns, t, c.local);
    var i := handles[c.local];
    assert i.refCount == |Users(conns, c.local)|;
    var handles' := handles[c.local := i.(refCount := i.refCount - 1)];
    forall h | h in handles' ensures handles'[h].refCount == |Users(after, h)| {
      assert handles[h].refCount == |Users(conns, h)|;
      UsersAfterDrop(conns, t, h);
    }
    forall u | u in after ensures after[u] == conns[u] && after[u].local in handles' { }
  }

  function NextIndex(index: nat): nat {
    if index + 1 >= MAX_INDEX then MIN_INDEX else index + 1
  }

  /** The token that the i-th draw from now on gives. */
  function TokenAfter(next: nat, i: nat): Token
    decreases i
  {
    if i == 0 then next else TokenAfter(NextIndex(next), i - 1)
  }

  lemma {:induction false} TokenAfterIs(next: nat, i: nat)
    requires MIN_INDEX <= next < MAX_INDEX && i <= MAX_INDEX - MIN_INDEX
    ensures TokenAfter(next, i) == if next + i < MAX_INDEX then next + i else next + i - (MAX_INDEX - MIN_INDEX)
    decreases i
  {
    if i > 0 && next + 1 < MAX_INDEX {
      TokenAfterIs(next + 1, i - 1);
    } else if i > 0 {
      TokenAfterIs(MIN_INDEX, i - 1);
    }
  }

  /** None of the next `n` tokens belongs to a live connection, and they all differ. */
  predicate FreshTokens(next: nat, n: nat, conns: map<Token, Conn>) {
    n <= MAX_INDEX - MIN_INDEX && forall i :: 0 <= i < n ==> TokenAfter(next, i) !in conns
  }

  lemma FreshAfterDraw(next: nat, n: nat, conns: map<Token, Conn>, c: Conn)
    requires MIN_INDEX <= next < MAX_INDEX && FreshTokens(next, n, conns) && n > 0
    ensures FreshTokens(NextIndex(next), n - 1, conns[next := c])
  {
    forall i | 0 <= i < n - 1 ensures TokenAfter(NextIndex(next), i) !in conns[next := c] {
      assert TokenAfter(next, i + 1) == TokenAfter(NextIndex(next), i);
      TokenAfterIs(next, i + 1);
    }
  }

  lemma FirstTokenFresh(next: nat, n: nat, conns: map<Token, Conn>)
    requires FreshTokens(next, n, conns) && n > 0
    ensures next !in conns
  {
    assert TokenAfter(next, 0) == next;
  }

  lemma FirstSource(packets: seq<Packet>)
    requires packets != []
    ensures Sources(packets) == {packets[0].source} + Sources(packets[1..])
  {
    var p := packets[0].source;
    forall e | e in {p} + Sources(packets[1..]) ensures e in Sources(packets) {
      if e == p {
        assert packets[0] in packets;
      } else {
        var q :| q in packets[1..] && q.source == e;
        assert q in packets;
      }
    }
  }

  lemma NoSources(packets: seq<Packet>)
    requires packets == []
    ensures Sources(packets) == {}
  {
  }

  /** How many of the sources are new. */
  function NewSources(packets: seq<Packet>, known: set<Endpoint>): nat {
    |Sources(packets) - known|
  }

  lemma OneSourceLess(packets: seq<Packet>, known: set<Endpoint>)
    requires packets != []
    ensures var p := packets[0].source;
            NewSources(packets, known) == NewSources(packets[1..], known + {p}) + if p in known then 0 else 1
  {
    var p := packets[0].source;
    FirstSource(packets);
    var rest := Sources(packets[1..]) - (known + {p});
    if p in known {
      assert Sources(packets) - known == rest;
    } else {
      assert Sources(packets) - known == rest + {p};
    }
  }

  lemma {:induction false} NewSourcesAtMost(packets: seq<Packet>, known: set<Endpoint>)
    ensures NewSources(packets, known) <= |packets|
    decreases |packets|
  {
    if packets != [] {
      OneSourceLess(packets, known);
      NewSourcesAtMost(packets[1..], known + {packets[0].source});
    } else {
      assert Sources(packets) == {};
    }
  }

  function Sources(packets: seq<Packet>): set<Endpoint> {
    set p | p in packets :: p.source
  }

  /** The tokens of the connections that close after handling their packets. */
  function Closing(packets: seq<Packet>, conns: map<Endpoint, Conn>): set<Token> {
    set p | p in packets && p.closes && p.source in conns :: conns[p.source].token
  }

  lemma ClosingStep(packets: seq<Packet>, i: nat, before: map<Endpoint, Conn>, after: map<Endpoint, Conn>, h: Handle)
    requires i < |packets| && packets[i].source in after
    requires Grown(before, after, h) && Sources(packets[..i]) <= before.Keys
    ensures Sources(packets[..i + 1]) <= after.Keys
    ensures Closing(packets[..i + 1], after) ==
              Closing(packets[..i], before) + if packets[i].closes then {after[packets[i].source].token} else {}
  {
    assert packets[..i + 1] == packets[..i] + [packets[i]];
    forall p | p in packets[..i] ensures p.source in before && p.source in after && after[p.source] == before[p.source] {
      assert p.source in Sources(packets[..i]);
    }
    var all, was := Closing(packets[..i + 1], after), Closing(packets[..i], before);
    forall t | t in was ensures t in all {
      var p :| p in packets[..i] && p.closes && before[p.source].token == t;
      assert p in packets[..i + 1] && after[p.source].token == t;
    }
  }

  lemma NothingCloses(conns: map<Endpoint, Conn>)
    ensures Closing([], conns) == {} && Sources([]) == {}
  {
  }

  /** New connections belong to `h`; the others stay as they are. */
  ghost predicate Grown(before: map<Endpoint, Conn>, after: map<Endpoint, Conn>, h: Handle) {
    && (forall e :: e in before ==> e in after && after[e] == before[e])
    && (forall e :: e in after && e !in before ==> after[e].local == h)
  }

  lemma GrownRefl(a: map<Endpoint, Conn>, h: Handle)
    ensures Grown(a, a, h)
  {
  }

  lemma GrownAdd(a: map<Endpoint, Conn>, c: Conn)
    requires c.endpoint !in a
    ensures a[c.endpoint := c].Keys == a.Keys + {c.endpoint} && Grown(a, a[c.endpoint := c], c.local)
  {
  }

  lemma GrownStep(a: map<Endpoint, Conn>, b: map<Endpoint, Conn>, c: map<Endpoint, Conn>, h: Handle)
    requires Grown(a, b, h) && Grown(b, c, h)
    ensures Grown(a, c, h)
  {
  }

  ghost predicate SameTimes(before: map<Handle, HandleInfo>, after: map<Handle, HandleInfo>) {
    after.Keys == before.Keys && forall h :: h in after ==> after[h].lastActive == before[h].lastActive
  }

  lemma MinusOneMore(m: map<Token, Conn>, gone: set<Token>, t: Token)
    ensures (m - gone) - {t} == m - (gone + {t})
    ensures t !in m - gone ==> m - gone == m - (gone + {t})
  {
  }

  class UdpServer {
    var token2conns: map<Token, Conn>
    var addr2conns: map<Endpoint, Conn>
    var handles: map<Handle, HandleInfo>
    var removed: set<Token>
    var next: nat

    constructor ()
      ensures Valid() && token2conns == map[] && handles == map[] && removed == {}
      ensures Unwrapped() && next == MIN_INDEX
    {
      token2conns, addr2conns, handles, removed, next := map[], map[], map[], {}, MIN_INDEX;
    }

    ghost predicate Valid()
      reads `token2conns, `addr2conns, `handles, `next
    {
      SameConns(token2conns, addr2conns) && CountsExact(handles, token2conns) && MIN_INDEX <= next < MAX_INDEX
    }

    method NextToken() returns (token: Token)
      requires MIN_INDEX <= next < MAX_INDEX
      modifies `next
      ensures token == old(next) && next == NextIndex(old(next)) && MIN_INDEX <= next < MAX_INDEX
      ensures next == if old(next) + 1 >= 0x5555_5555_5555_5555 then 2 else old(next) + 1
    {
      token := next;
      next := next + 1;
      if next >= MAX_INDEX {
        next := MIN_INDEX;
      }
    }

    /** The circle has not closed yet: all live tokens lie behind the next one. */
    ghost predicate Unwrapped()
      reads `token2conns, `next
    {
      MIN_INDEX <= next && forall t :: t in token2conns ==> t < next
    }

    lemma UnwrappedIsFresh(packets: seq<Packet>)
      requires Unwrapped() && next + |packets| < MAX_INDEX
      ensures FreshTokens(next, NewSources(packets, addr2conns.Keys), token2conns)
    {
      NewSourcesAtMost(packets, addr2conns.Keys);
      forall i: nat | i < NewSources(packets, addr2conns.Keys) ensures TokenAfter(next, i) !in token2conns {
        TokenAfterIs(next, i);
      }
    }

    /** One datagram of `do_local`, received on `handle`. A new source draws a token; the tables
        stay coherent exactly if no live connection has it. */
    method OnDatagram(handle: Handle, packet: Packet)
      requires Valid() && handle in handles
      modifies `token2conns, `addr2conns, `handles, `removed, `next
      ensures Valid() <==> packet.source in old(addr2conns) || old(next) !in old(token2conns)
      ensures packet.source in old(addr2conns) ==>
        token2conns == old(token2conns) && addr2conns == old(addr2conns) && handles == old(handles) && next == old(next)
      ensures packet.source !in old(addr2conns) ==>
        var c := Conn(old(next), handle, packet.source);
        && token2conns == (if old(next) in old(token2conns) then old(token2conns) else old(token2conns)[old(next) := c])
        && addr2conns == old(addr2conns)[packet.source := c] && next == NextIndex(old(next))
        && handles == old(handles)[handle := HandleInfo(old(handles)[handle].lastActive, old(handles)[handle].refCount + 1)]
      ensures addr2conns.Keys == old(addr2conns).Keys + {packet.source} && Grown(old(addr2conns), addr2conns, handle)
      ensures removed == if packet.closes then old(removed) + {addr2conns[packet.source].token} else old(removed)
    {
      hide CountsExact, Grown;
      if packet.source in addr2conns {
        GrownRefl(addr2conns, handle);
        assert addr2conns.Keys + {packet.source} == addr2conns.Keys;
      } else {
        GrownAdd(addr2conns, Conn(next, handle, packet.source));
      }
      if packet.source !in addr2conns {
        var token := NextToken();
        var c := Conn(token, handle, packet.source);
        var info := handles[handle];
        if token !in token2conns {
          AddToTables(token2conns, addr2conns, c);
          AddToCount(token2conns, handles, c);
        } else {
          TokenInUse(token2conns, addr2conns, c);
        }
        handles := handles[handle := info.(refCount := info.refCount + 1)];
        addr2conns := addr2conns[packet.source := c];
      }
      var conn := addr2conns[packet.source];
      if conn.token !in token2conns {
        token2conns := token2conns[conn.token := conn];
      }
      if packet.closes {
        removed := removed + {conn.token};
      }
    }

    /** The entry for the handle is made or refreshed before its packets are read. */
    method Touch(handle: Handle, now: Time)
      requires Valid()
      modifies `handles
      ensures Valid()
      ensures handles == old(handles)[handle := HandleInfo(now, if handle in old(handles) then old(handles)[handle].refCount else 0)]
    {
      var info := if handle in handles then handles[handle] else HandleInfo(now, 0);
      if handle !in handles {
        assert Users(token2conns, handle) == {};
      }
      handles := handles[handle := info.(lastActive := now)];
    }

    /** The first of the waiting packets. A fresh token is used up if its source is new. */
    method OnFirst(handle: Handle, packets: seq<Packet>)
      requires Valid() && handle in handles && packets != []
      requires FreshTokens(next, NewSources(packets, addr2conns.Keys), token2conns)
      modifies `token2conns, `addr2conns, `handles, `removed, `next
      ensures Valid() && handle in handles && handles[handle].lastActive == old(handles)[handle].lastActive
      ensures FreshTokens(next, NewSources(packets[1..], addr2conns.Keys), token2conns)
      ensures addr2conns.Keys + Sources(packets[1..]) == old(addr2conns).Keys + Sources(packets)
      ensures Grown(old(addr2conns), addr2conns, handle)
      ensures old(Unwrapped()) && old(next) + 1 < MAX_INDEX ==> Unwrapped() && next <= old(next) + 1
      ensures packets[0].source in addr2conns
      ensures removed == old(removed) + if packets[0].closes then {addr2conns[packets[0].source].token} else {}
    {
      hide SameConns, CountsExact, Users, FreshTokens, NewSources, Sources;
      var packet := packets[0];
      OneSourceLess(packets, addr2conns.Keys);
      FirstSource(packets);
      if packet.source !in addr2conns {
        FirstTokenFresh(next, NewSources(packets, addr2conns.Keys), token2conns);
        FreshAfterDraw(next, NewSources(packets, addr2conns.Keys), token2conns, Conn(next, handle, packet.source));
      } else {
        assert addr2conns.Keys + {packet.source} == addr2conns.Keys;
      }
      OnDatagram(handle, packet);
    }

    /** `do_local` for the packets waiting on one handle. It needs as many fresh tokens as there are
        new sources. Exactly the connections that close are noted. */
    method DoLocal(handle: Handle, now: Time, packets: seq<Packet>)
      requires Valid() && FreshTokens(next, NewSources(packets, addr2conns.Keys), token2conns)
      modifies this
      ensures Valid() && handle in handles && handles[handle].lastActive == now
      ensures addr2conns.Keys == old(addr2conns).Keys + Sources(packets)
      ensures Grown(old(addr2conns), addr2conns, handle)
      ensures old(Unwrapped()) && old(next) + |packets| < MAX_INDEX ==> Unwrapped() && next <= old(next) + |packets|
      ensures removed == old(removed) + Closing(packets, addr2conns)
    {
      hide Valid, FreshTokens, NewSources, Sources, Grown, Closing;
      NothingCloses(addr2conns);
      Touch(handle, now);
      GrownRefl(addr2conns, handle);
      var i := 0;
      assert packets[0..] == packets;
      while i < |packets|
        invariant i <= |packets| && Valid() && handle in handles && handles[handle].lastActive == now
        invariant FreshTokens(next, NewSources(packets[i..], addr2conns.Keys), token2conns)
        invariant addr2conns.Keys + Sources(packets[i..]) == old(addr2conns).Keys + Sources(packets)
        invariant Grown(old(addr2conns), addr2conns, handle) && Sources(packets[..i]) <= addr2conns.Keys
        invariant removed == old(removed) + Closing(packets[..i], addr2conns)
        invariant old(Unwrapped()) && old(next) + |packets| < MAX_INDEX ==> Unwrapped() && next <= old(next) + i
      {
        ghost var before := addr2conns;
        assert packets[i..][1..] == packets[i + 1..];
        OnFirst(handle, packets[i..]);
        GrownStep(old(addr2conns), before, addr2conns, handle);
        ClosingStep(packets, i, before, addr2conns, handle);
        i := i + 1;
      }
      NoSources(packets[i..]);
      assert packets[..i] == packets;
    }

    /** `do_remote`: the connection may turn out to be closed. */
    method DoRemote(token: Token, closes: bool)
      requires Valid()
      modifies `removed
      ensures Valid() && removed == old(removed) + if token in token2conns && closes then {token} else {}
    {
      if token in token2conns {
        if closes {
          removed := removed + {token2conns[token].token};
        }
      }
    }

    method RemoveConn(token: Token)
      requires Valid() && token in token2conns
      modifies `token2conns, `addr2conns, `handles
      ensures Valid() && token2conns == old(token2conns) - {token}
      ensures addr2conns == old(addr2conns) - {old(token2conns)[token].endpoint}
      ensures SameTimes(old(handles), handles)
    {
      var conn := token2conns[token];
      DropFromTables(token2conns, addr2conns, token);
      DropFromCount(token2conns, handles, token);
      var info := handles[conn.local];
      handles := handles[conn.local := info.(refCount := info.refCount - 1)];
      token2conns := token2conns - {conn.token};
      addr2conns := addr2conns - {conn.endpoint};
    }

    /** `remove_closed`: drops exactly the closed connections from both tables; tokens of
        connections that are gone already do nothing. */
    method RemoveClosed()
      requires Valid()
      modifies `token2conns, `addr2conns, `handles, `removed
      ensures Valid() && removed == {}
      ensures token2conns == old(token2conns) - old(removed)
      ensures SameTimes(old(handles), handles)
    {
      hide Valid, SameConns, CountsExact, Users;
      var todo := removed;
      ghost var gone: set<Token> := {};
      while todo != {}
        invariant todo <= removed == old(removed) && gone == removed - todo
        invariant Valid() && token2conns == old(token2conns) - gone && SameTimes(old(handles), handles)
        decreases |todo|
      {
        var token :| token in todo;
        todo := todo - {token};
        MinusOneMore(old(token2conns), gone, token);
        gone := gone + {token};
        if token in token2conns {
          RemoveConn(token);
        }
      }
      assert gone == removed;
      removed := {};
    }

    /** `check_timeout`: forgets exactly the handles that are unused and idle for ten minutes. No
        live connection belongs to a forgotten handle. */
    method CheckTimeout(now: Time) returns (dropped: set<Handle>)
      requires Valid()
      modifies `handles
      ensures Valid() && handles == old(handles) - dropped
      ensures dropped == set h | h in old(handles) && Users(token2conns, h) == {} && now - old(handles)[h].lastActive > 600
      ensures forall t :: t in token2conns ==> token2conns[t].local !in dropped
    {
      dropped := set h | h in handles && !(handles[h].refCount > 0) && now - handles[h].lastActive > HANDLE_TIMEOUT;
      forall t | t in token2conns ensures token2conns[t].local !in dropped {
        assert t in Users(token2conns, token2conns[t].local);
      }
      handles := handles - dropped;
    }
  }

  datatype Event =
    | Local(handle: Handle, packets: seq<Packet>)
    | Remote(token: Token, closes: bool)

  /** One round of the main loop: its events, then the clean-up. */
  datatype Round = Round(now: Time, events: seq<Event>)

  /** How many datagrams the events bring. */
  function Datagrams(events: seq<Event>): nat {
    if events == [] then 0
    else (if events[0].Local? then |events[0].packets| else 0) + Datagrams(events[1..])
  }

  function AllDatagrams(rounds: seq<Round>): nat {
    if rounds == [] then 0 else Datagrams(rounds[0].events) + AllDatagrams(rounds[1..])
  }

  /** The events of one round; stops before drawing a token that is in use. */
  method HandleEvents(server: UdpServer, now: Time, events: seq<Event>) returns (ok: bool)
    requires server.Valid()
    modifies server
    ensures server.Valid()
    ensures old(server.Unwrapped()) && old(server.next) + Datagrams(events) < MAX_INDEX ==>
      ok && server.Unwrapped() && server.next <= old(server.next) + Datagrams(events)
  {
    hide SameConns, CountsExact, FreshTokens, NewSources, Sources, Closing, Grown;
    ok := true;
    var i := 0;
    assert events[0..] == events;
    while i < |events| && ok
      invariant i <= |events| && server.Valid()
      invariant old(server.Unwrapped()) && old(server.next) + Datagrams(events) < MAX_INDEX ==>
        ok && server.Unwrapped() && server.next + Datagrams(events[i..]) <= old(server.next) + Datagrams(events)
    {
      assert events[i..][1..] == events[i + 1..];
      match events[i] {
        case Local(handle, packets) =>
          if server.Unwrapped() && server.next + |packets| < MAX_INDEX { server.UnwrappedIsFresh(packets); }
          ok := FreshTokens(server.next, NewSources(packets, server.addr2conns.Keys), server.token2conns);
          if ok {
            server.DoLocal(handle, now, packets);
          }
        case Remote(token, closes) =>
          server.DoRemote(token, closes);
      }
      i := i + 1;
    }
  }

  /** Any number of rounds. Until the first draw of a token that is still in use (`ok` is false then)
      both tables hold the same connections and every count is the number of live connections, so no
      decrement underflows and no lookup fails; between rounds no closed connection is left. No such
      draw happens while the datagrams are fewer than the tokens. */
  method Serve(server: UdpServer, rounds: seq<Round>) returns (ok: bool)
    requires server.Valid() && server.removed == {}
    modifies server
    ensures server.removed == {} && SameConns(server.token2conns, server.addr2conns)
    ensures forall t :: t in server.token2conns ==> server.token2conns[t].local in server.handles
    ensures forall h :: h in server.handles ==> server.handles[h].refCount == |Users(server.token2conns, h)|
    ensures old(server.Unwrapped()) && old(server.next) + AllDatagrams(rounds) < MAX_INDEX ==> ok
  {
    hide Users, Datagrams;
    ok := true;
    var r := 0;
    assert rounds[0..] == rounds;
    while r < |rounds| && ok
      invariant r <= |rounds| && server.Valid() && server.removed == {}
      invariant old(server.Unwrapped()) && old(server.next) + AllDatagrams(rounds) < MAX_INDEX ==>
        ok && server.Unwrapped() && server.next + AllDatagrams(rounds[r..]) <= old(server.next) + AllDatagrams(rounds)
    {
      var Round(now, events) := rounds[r];
      assert rounds[r..][1..] == rounds[r + 1..];
      ok := HandleEvents(server, now, events);
      server.RemoveClosed();
      var dropped := server.CheckTimeout(now);
      r := r + 1;
    }
  }
}

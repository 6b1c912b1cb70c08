/** The DNS server's store: cached responses, and the clients waiting for the first one
    (src/dns/server.rs; message ids as in section 4.1.1 of RFC 1035). */
module DnsCache {
  import opened Options
  import opened Queues
  import opened DomainMaps

  type Key = string
  type Addr = nat
  type Id = nat
  type Time = int

  /** A message with its id, the key of what it is about and the lifetimes of its records; `answer` is
      everything else. */
  datatype Message = Message(id: Id, key: Key, ttls: seq<nat>, answer: nat)

  /** Names that are blocked are asked of the one server, all others of the other one. */
  datatype Upstream = Trusted | Poisoned

  datatype QueryResult = QueryResult(addresses: seq<Client>, response: Option<Message>, expire: Time)

  type Store = map<Key, QueryResult>

  /** What one client asked: the key, and its address with its message id. */
  type Client = (Addr, Id)
  type Question = (Key, Client)

  /** The clients that wait for each key. */
  function Clients(store: Store): Queue<Key, Client> {
    map k | k in store :: store[k].addresses
  }

  lemma ClientsUpdate(store: Store, key: Key, result: QueryResult)
    ensures Clients(store[key := result]) == Clients(store)[key := result.addresses]
    ensures forall k :: Waiting(Clients(store[key := result]), k) == (if k == key then result.addresses else Waiting(Clients(store), k))
  {
  }

  /** A stored response is about its key, and nobody is waiting for it. */
  ghost predicate NobodyWaitsForStored(store: Store) {
    forall k :: k in store && store[k].response.Some? ==> store[k].addresses == [] && store[k].response.value.key == k
  }

  /** The replies a response gives to the clients in the queue: each under its own id. */
  function Replies(addresses: seq<Client>, m: Message): seq<(Addr, Message)> {
    seq(|addresses|, i requires 0 <= i < |addresses| => (addresses[i].0, m.(id := addresses[i].1)))
  }

  lemma AppendReply(addresses: seq<Client>, last: Client, m: Message)
    ensures Replies(addresses + [last], m) == Replies(addresses, m) + [(last.0, m.(id := last.1))]
  {
  }

  /** The questions that the messages sent to clients answer: by key, address and id. */
  function Deliveries(sent: seq<(Addr, Message)>): seq<Question> {
    seq(|sent|, i requires 0 <= i < |sent| => (sent[i].1.key, (sent[i].0, sent[i].1.id)))
  }

  function Delivered(sent: seq<(Addr, Message)>): multiset<Question> {
    multiset(Deliveries(sent))
  }

  lemma DeliveredConcat(sent: seq<(Addr, Message)>, more: seq<(Addr, Message)>)
    ensures Delivered(sent + more) == Delivered(sent) + Delivered(more)
  {
    assert Deliveries(sent + more) == Deliveries(sent) + Deliveries(more);
  }

  lemma DeliveredOne(to: Addr, m: Message)
    ensures Delivered([(to, m)]) == multiset{(m.key, (to, m.id))}
  {
    assert Deliveries([(to, m)]) == [(m.key, (to, m.id))];
  }

  lemma DeliveredReplies(addresses: seq<Client>, m: Message)
    ensures Delivered(Replies(addresses, m)) == multiset(Tagged(m.key, addresses))
  {
    assert Deliveries(Replies(addresses, m)) == Tagged(m.key, addresses);
  }

  lemma QueueConserves(asked: multiset<Question>, answered: multiset<Question>, store: Store,
                       key: Key, client: Client, result: QueryResult)
    requires Conserved(asked, answered, Clients(store))
    requires result.addresses == Waiting(Clients(store), key) + [client]
    ensures Conserved(asked + multiset{(key, client)}, answered, Clients(store[key := result]))
  {
    hide Conserved;
    EnqueueConserves(asked, answered, Clients(store), key, client);
    ClientsUpdate(store, key, result);
  }

  lemma ResponseConserves(asked: multiset<Question>, answered: multiset<Question>, store: Store, key: Key, result: QueryResult)
    requires Conserved(asked, answered, Clients(store)) && result.addresses == []
    ensures Conserved(asked, answered + multiset(Tagged(key, Waiting(Clients(store), key))), Clients(store[key := result]))
  {
    ClientsUpdate(store, key, result);
    AnswerConserves(asked, answered, Clients(store), key, Clients(store[key := result]));
  }

  lemma RefreshConserves(asked: multiset<Question>, answered: multiset<Question>, store: Store, key: Key, result: QueryResult)
    requires Conserved(asked, answered, Clients(store))
    requires key in store && result.addresses == store[key].addresses
    ensures Conserved(asked, answered, Clients(store[key := result]))
  {
    ClientsUpdate(store, key, result);
    assert Clients(store[key := result]) == Clients(store);
  }

  class DnsServer {
    const cacheTime: Time
    const blockedDomains: DomainMap
    var store: Store
    /** Questions that were answered at once or queued. */
    ghost var asked: multiset<Question>
    /** Everything sent to clients, in order, and what was asked of which upstream server. */
    ghost var sent: seq<(Addr, Message)>
    ghost var forwarded: seq<(Upstream, Key)>

    constructor (cacheTime: Time, blockedDomains: DomainMap)
      ensures Valid() && asked == multiset{} && sent == [] && store == map[] && this.blockedDomains == blockedDomains
    {
      this.cacheTime, this.blockedDomains := cacheTime, blockedDomains;
      store, asked, sent, forwarded := map[], multiset{}, [], [];
    }

    ghost predicate Valid()
      reads this
    {
      NobodyWaitsForStored(store) && Conserved(asked, Delivered(sent), Clients(store))
    }

    /** `add_request`: the client joins the others that wait for the key; only the first one of them
        sets a time. */
    method AddRequest(key: Key, from: Addr, id: Id, now: Time)
      requires Valid() && (key in store ==> store[key].response.None?)
      modifies `store, `asked
      ensures Valid()
      ensures store == old(store)[key := QueryResult(
          (if key in old(store) then old(store)[key].addresses else []) + [(from, id)], None,
          if key in old(store) then old(store)[key].expire else now + cacheTime)]
      ensures asked == old(asked) + multiset{(key, (from, id))}
    {
      hide Conserved, Delivered;
      ghost var before := store;
      if key !in store {
        store := store[key := QueryResult([], None, now + cacheTime)];
      }
      var result := store[key].(addresses := store[key].addresses + [(from, id)]);
      QueueConserves(asked, Delivered(sent), before, key, (from, id), result);
      store := store[key := result];
      asked := asked + multiset{(key, (from, id))};
      assert store == before[key := result];
    }

    /** The stored response goes to the asker under its own id, which it keeps in the store. */
    method AnswerNow(key: Key, from: Addr, id: Id)
      requires Valid() && key in store && store[key].response.Some?
      modifies `store, `asked, `sent
      ensures Valid() && asked == old(asked) + multiset{(key, (from, id))}
      ensures var response := old(store)[key].response.value.(id := id);
              && response.key == key && sent == old(sent) + [(from, response)]
              && store == old(store)[key := old(store)[key].(response := Some(response))]
    {
      hide Conserved, Delivered, Clients;
      var response := store[key].response.value.(id := id);
      var result := store[key].(response := Some(response));
      EnqueueConserves(asked, Delivered(sent), Clients(store), key, (from, id));
      DeliveredConcat(sent, [(from, response)]);
      DeliveredOne(from, response);
      asked := asked + multiset{(key, (from, id))};
      sent := sent + [(from, response)];
      RefreshConserves(asked, Delivered(sent), store, key, result);
      store := store[key := result];
    }

    /** The store branch of `dispatch_local`. A cached response answers at once, under the asker's
        id, and is renewed upstream when it has expired; without one the question is forwarded and
        the client queued, unless forwarding fails. Blocked names go to the trusted server. */
    method OnQuery(name: string, kind: string, from: Addr, id: Id, now: Time, forwards: bool)
      requires Valid()
      modifies this
      ensures Valid()
      ensures
        var key := name + "|" + kind;
        var upstream := if Blocked(blockedDomains.domains, Trim(name)) then Trusted else Poisoned;
        if key in old(store) && old(store)[key].response.Some? then
          var response := old(store)[key].response.value.(id := id);
          && response.key == key && sent == old(sent) + [(from, response)]
          && asked == old(asked) + multiset{(key, (from, id))}
          && store == old(store)[key := old(store)[key].(response := Some(response))]
          && forwarded == if forwards && old(store)[key].expire <= now then old(forwarded) + [(upstream, key)] else old(forwarded)
        else if forwards then
          && sent == old(sent) && asked == old(asked) + multiset{(key, (from, id))}
          && store == old(store)[key := QueryResult(
               (if key in old(store) then old(store)[key].addresses else []) + [(from, id)], None,
               if key in old(store) then old(store)[key].expire else now + cacheTime)]
          && forwarded == old(forwarded) + [(upstream, key)]
        else
          sent == old(sent) && asked == old(asked) && store == old(store) && forwarded == old(forwarded)
    {
      hide Conserved, Delivered, Clients, Blocked;
      var key := name + "|" + kind;
      var renew, respond := true, true;
      if key in store && store[key].response.Some? {
        renew, respond := store[key].expire <= now, false;
        AnswerNow(key, from, id);
      }
      if renew {
        var blocked := blockedDomains.Contains(name);
        if !forwards {
          return;
        }
        forwarded := forwarded + [(if blocked then Trusted else Poisoned, key)];
        if respond {
          AddRequest(key, from, id, now);
        }
      }
    }

    /** One message of `dispatch_server`. Everyone queued for its key is answered, each under its
        own id, the queue is emptied and the response stored for as long as its last record lives; a
        key that nobody asked for is ignored. So a repeated response is sent to nobody. */
    method OnResponse(message: Message, now: Time)
      requires Valid()
      modifies `store, `sent
      ensures Valid()
      ensures message.key !in old(store) ==> store == old(store) && sent == old(sent)
      ensures message.key in old(store) ==>
        && sent == old(sent) + Replies(old(store)[message.key].addresses, message)
        && store.Keys == old(store).Keys && (forall k :: k in store && k != message.key ==> store[k] == old(store)[k])
        && store[message.key].addresses == [] && store[message.key].response.Some?
        && store[message.key].response.value.(id := message.id) == message &&
           store[message.key].expire == now + if message.ttls == [] then 0 else message.ttls[|message.ttls| - 1]
      ensures message.key in old(store) && old(store)[message.key].response.Some? ==> sent == old(sent)
    {
      hide Conserved, Delivered, Clients, Tagged;
      var key := message.key;
      if key in store {
        var addresses := store[key].addresses;
        var timeout := Timeout(message.ttls);
        ResponseConserves(asked, Delivered(sent), store, key, QueryResult([], Some(message), now + timeout));
        WaitingClients(store, key);
        DeliveredConcat(sent, Replies(addresses, message));
        DeliveredReplies(addresses, message);
        var m := SendToAll(addresses, message);
        ghost var anyId := store[key := QueryResult([], Some(message), now + timeout)];
        store := store[key := QueryResult([], Some(m), now + timeout)];
        SameClients(anyId, store);
        assert Replies([], message) == [];
      }
    }

    /** The time of the last record counts. */
    method Timeout(ttls: seq<nat>) returns (timeout: nat)
      ensures timeout == if ttls == [] then 0 else ttls[|ttls| - 1]
    {
      timeout := 0;
      for i := 0 to |ttls|
        invariant timeout == if i == 0 then 0 else ttls[i - 1]
      {
        timeout := ttls[i];
      }
    }

    method SendToAll(addresses: seq<Client>, message: Message) returns (m: Message)
      modifies `sent
      ensures sent == old(sent) + Replies(addresses, message)
      ensures m.(id := message.id) == message
    {
      m := message;
      var i := 0;
      assert sent == old(sent) + Replies([], message);
      while i < |addresses|
        invariant i <= |addresses| && m.(id := message.id) == message
        invariant sent == old(sent) + Replies(addresses[..i], message)
      {
        var (address, id) := addresses[i];
        AppendReply(addresses[..i], addresses[i], message);
        assert addresses[..i + 1] == addresses[..i] + [addresses[i]];
        m := m.(id := id);
        sent := sent + [(address, m)];
        i := i + 1;
      }
      assert addresses[..i] == addresses;
    }
  }

  lemma WaitingClients(store: Store, key: Key)
    requires key in store
    ensures Waiting(Clients(store), key) == store[key].addresses
  {
  }

  lemma SameClients(a: Store, b: Store)
    requires a.Keys == b.Keys && forall k :: k in a ==> a[k].addresses == b[k].addresses
    ensures Clients(a) == Clients(b)
  {
  }

  datatype Event =
    | Query(name: string, kind: string, from: Addr, id: Id, now: Time, forwards: bool)
    | Response(message: Message, now: Time)
  {
    function Question(): Question
      requires Query?
    {
      (name + "|" + kind, (from, id))
    }
  }

  /** The questions among the events, or only those whose forwarding would succeed. */
  function Questions(events: seq<Event>, forwardedOnly: bool): multiset<Question> {
    if events == [] then multiset{}
    else
      var last := events[|events| - 1];
      Questions(events[..|events| - 1], forwardedOnly) +
      if last.Query? && (forwardedOnly ==> last.forwards) then multiset{last.Question()} else multiset{}
  }

  /** Any interleaving of queries and upstream responses, from the start: no question is sent more
      answers than it was asked; once a response for its key is stored, every question that was
      forwarded has been sent exactly one answer each time, under its own id. */
  method Serve(cacheTime: Time, blockedDomains: DomainMap, events: seq<Event>) returns (server: DnsServer)
    ensures fresh(server) && server.Valid()
    ensures forall q :: Delivered(server.sent)[q] <= Questions(events, false)[q]
    ensures forall q: Question :: q.0 in server.store && server.store[q.0].response.Some? ==>
      Questions(events, true)[q] <= Delivered(server.sent)[q] == server.asked[q]
  {
    hide Delivered, Questions, Conserved, Clients;
    server := new DnsServer(cacheTime, blockedDomains);
    NoQuestions();
    var i := 0;
    while i < |events|
      invariant i <= |events| && fresh(server) && server.Valid()
      invariant Questions(events[..i], true) <= server.asked <= Questions(events[..i], false)
    {
      QuestionsAppend(events, i, true);
      QuestionsAppend(events, i, false);
      match events[i] {
        case Query(name, kind, from, id, now, forwards) => server.OnQuery(name, kind, from, id, now, forwards);
        case Response(message, now) => server.OnResponse(message, now);
      }
      i := i + 1;
    }
    assert events[..i] == events;
    forall q: Question
      ensures Delivered(server.sent)[q] <= Questions(events, false)[q]
      ensures q.0 in server.store && server.store[q.0].response.Some? ==>
        Questions(events, true)[q] <= Delivered(server.sent)[q] == server.asked[q]
    {
      AnsweredAtMostOnce(server.asked, Delivered(server.sent), Clients(server.store), q);
      if q.0 in server.store { WaitingClients(server.store, q.0); }
    }
  }

  lemma NoQuestions()
    ensures Questions([], true) == Questions([], false) == multiset{}
  {
  }

  lemma QuestionsAppend(events: seq<Event>, i: nat, forwardedOnly: bool)
    requires i < |events|
    ensures Questions(events[..i + 1], forwardedOnly) == Questions(events[..i], forwardedOnly) +
      if events[i].Query? && (forwardedOnly ==> events[i].forwards)
      then multiset{events[i].Question()} else multiset{}
  {
    assert events[..i + 1][..i] == events[..i];
  }
}

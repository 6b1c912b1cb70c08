/** Requests that wait in queues, one queue for each key, until something answers a whole queue. */
module Queues {

  type Queue<K, W> = map<K, seq<W>>

  function Waiting<K, W>(queues: Queue<K, W>, key: K): seq<W> {
    if key in queues then queues[key] else []
  }

  /** How often the request `p` waits. */
  function WaitCount<K, W(==)>(queues: Queue<K, W>, p: (K, W)): nat {
    multiset(Waiting(queues, p.0))[p.1]
  }

  /** Every request has been answered once or is waiting once. */
  ghost predicate Conserved<K(!new), W(!new)>(asked: multiset<(K, W)>, answered: multiset<(K, W)>, queues: Queue<K, W>) {
    forall p :: asked[p] == answered[p] + WaitCount(queues, p)
  }

  /** The requests of those who wait for one key. */
  function Tagged<K, W>(key: K, waiters: seq<W>): seq<(K, W)> {
    seq(|waiters|, i requires 0 <= i < |waiters| => (key, waiters[i]))
  }

  lemma {:induction false} TaggedCount<K, W>(key: K, waiters: seq<W>, p: (K, W))
    ensures multiset(Tagged(key, waiters))[p] == if p.0 == key then multiset(waiters)[p.1] else 0
  {
    if waiters != [] {
      var front, last := waiters[..|waiters| - 1], waiters[|waiters| - 1];
      TaggedCount(key, front, p);
      assert waiters == front + [last];
      assert Tagged(key, waiters) == Tagged(key, front) + [(key, last)];
      assert (p == (key, last)) == (p.0 == key && p.1 == last);
    }
  }

  lemma WaitCountEnqueue<K, W>(queues: Queue<K, W>, key: K, waiter: W, p: (K, W))
    ensures WaitCount(queues[key := Waiting(queues, key) + [waiter]], p) ==
              WaitCount(queues, p) + if p == (key, waiter) then 1 else 0
  {
    assert (p == (key, waiter)) == (p.0 == key && p.1 == waiter);
  }

  /** A request may join the queue of its key or be answered at once. */
  lemma EnqueueConserves<K(!new), W(!new)>(asked: multiset<(K, W)>, answered: multiset<(K, W)>, queues: Queue<K, W>,
                                           key: K, waiter: W)
    requires Conserved(asked, answered, queues)
    ensures Conserved(asked + multiset{(key, waiter)}, answered, queues[key := Waiting(queues, key) + [waiter]])
    ensures Conserved(asked + multiset{(key, waiter)}, answered + multiset{(key, waiter)}, queues)
  {
    hide WaitCount, Waiting;
    forall p { WaitCountEnqueue(queues, key, waiter, p); }
  }

  /** Answering everyone in one queue empties it and leaves the others alone. */
  lemma AnswerConserves<K(!new), W(!new)>(asked: multiset<(K, W)>, answered: multiset<(K, W)>, queues: Queue<K, W>,
                                          key: K, after: Queue<K, W>)
    requires Conserved(asked, answered, queues)
    requires forall k :: Waiting(after, k) == if k == key then [] else Waiting(queues, k)
    ensures Conserved(asked, answered + multiset(Tagged(key, Waiting(queues, key))), after)
  {
    hide Tagged;
    var given := multiset(Tagged(key, Waiting(queues, key)));
    forall p ensures given[p] + WaitCount(after, p) == WaitCount(queues, p) {
      TaggedCount(key, Waiting(queues, key), p);
      assert Waiting(after, p.0) == if p.0 == key then [] else Waiting(queues, p.0);
    }
  }

  /** A request is never answered more often than it was made, and short of answers exactly while it
      waits. */
  lemma AnsweredAtMostOnce<K(!new), W(!new)>(asked: multiset<(K, W)>, answered: multiset<(K, W)>, queues: Queue<K, W>, p: (K, W))
    requires Conserved(asked, answered, queues)
    ensures answered[p] <= asked[p]
    ensures answered[p] < asked[p] <==> p.1 in Waiting(queues, p.0)
  {
    assert asked[p] == answered[p] + WaitCount(queues, p);
  }
}

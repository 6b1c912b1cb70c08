/** The pool of idle connections to the server (src/idle_pool.rs), with removal by swapping the last
    element in. */
module IdlePools {
  import opened Options

  /** A pooled connection; `closes` is whether its next `check_status` leaves it deregistered. */
  datatype Conn = Conn(id: nat, closes: bool)

  /** The connections that stay, in order. */
  function Survivors(pool: seq<Conn>): seq<Conn> {
    if pool == [] then []
    else (if pool[0].closes then [] else [pool[0]]) + Survivors(pool[1..])
  }

  lemma {:induction false} SurvivorsConcat(a: seq<Conn>, b: seq<Conn>)
    ensures Survivors(a + b) == Survivors(a) + Survivors(b)
  {
    if a == [] {
      assert a + b == b;
    } else {
      SurvivorsConcat(a[1..], b);
      assert (a + b)[1..] == a[1..] + b && (a + b)[0] == a[0];
      var first := if a[0].closes then [] else [a[0]];
      assert first + (Survivors(a[1..]) + Survivors(b)) == (first + Survivors(a[1..])) + Survivors(b);
    }
  }

  lemma {:induction false} AllSurvive(pool: seq<Conn>)
    requires forall i :: 0 <= i < |pool| ==> !pool[i].closes
    ensures Survivors(pool) == pool
  {
    if pool != [] { AllSurvive(pool[1..]); }
  }

  /** Indices of the connections that go, in ascending order. */
  function Closed(pool: seq<Conn>): (r: seq<nat>)
    ensures forall i :: 0 <= i < |r| ==> r[i] < |pool| && pool[r[i]].closes
    ensures forall i, j :: 0 <= i < j < |r| ==> r[i] < r[j]
    ensures forall k :: 0 <= k < |pool| && pool[k].closes ==> k in r
  {
    if pool == [] then []
    else
      var last := |pool| - 1;
      Closed(pool[..last]) + if pool[last].closes then [last] else []
  }

  /** Where the k-th closed index lies; beyond the last one, the end. */
  function Cut(pool: seq<Conn>, k: nat): (cut: nat)
    requires k <= |Closed(pool)|
    ensures cut <= |pool|
  {
    if k < |Closed(pool)| then Closed(pool)[k] else |pool|
  }

  /** Between two neighbouring closed indices everything survives. */
  lemma OpenStretch(pool: seq<Conn>, k: nat)
    requires k <= |Closed(pool)|
    ensures var from := if k == 0 then 0 else Closed(pool)[k - 1] + 1;
            from <= Cut(pool, k) && Survivors(pool[from..Cut(pool, k)]) == pool[from..Cut(pool, k)]
  {
    hide Closed, Survivors;
    var closed := Closed(pool);
    var from := if k == 0 then 0 else closed[k - 1] + 1;
    forall i | from <= i < Cut(pool, k) ensures !pool[i].closes {
      forall j | 0 <= j < |closed| ensures closed[j] != i {
        assert j < k - 1 ==> closed[j] < closed[k - 1];
        assert k < j ==> closed[k] < closed[j];
      }
    }
    var stretch := pool[from..Cut(pool, k)];
    forall i | 0 <= i < |stretch| ensures !stretch[i].closes {
      assert stretch[i] == pool[from + i];
    }
    AllSurvive(stretch);
  }

  /** `Vec::swap_remove`: the last element takes the place of the removed one. */
  function SwapRemove(pool: seq<Conn>, i: nat): (r: seq<Conn>)
    requires i < |pool|
    ensures |r| == |pool| - 1 && r[..i] == pool[..i]
    ensures multiset(r[i..]) == multiset(pool[i + 1..])
  {
    var last := |pool| - 1;
    if i == last then pool[..last]
    else
      var r := pool[..last][i := pool[last]];
      assert r[i..] == [pool[last]] + pool[i + 1..last];
      assert pool[i + 1..] == pool[i + 1..last] + [pool[last]];
      r
  }

  /** One removal: everything before the index is untouched, so the smaller indices still name
      their connections, and behind it exactly the survivors are left. */
  lemma RemovalStep(all: seq<Conn>, pool: seq<Conn>, i: nat, cut: nat)
    requires i < cut <= |all| && all[i].closes && Survivors(all[i + 1..cut]) == all[i + 1..cut]
    requires cut <= |pool| && pool[..cut] == all[..cut]
    requires multiset(pool[cut..]) == multiset(Survivors(all[cut..]))
    ensures pool[i] == all[i]
    ensures var r := SwapRemove(pool, i);
            && i <= |r| && r[..i] == all[..i]
            && multiset(r[i..]) == multiset(Survivors(all[i..]))
  {
    hide Survivors, SwapRemove;
    var between, tail := all[i + 1..cut], Survivors(all[cut..]);
    SurvivorsBehind(all, i, cut);
    assert pool[..cut][i] == all[..cut][i];
    assert pool[..cut][..i] == pool[..i] && all[..cut][..i] == all[..i];
    assert pool[i + 1..cut] == pool[..cut][i + 1..] == between;
    assert pool[i + 1..] == between + pool[cut..];
    assert multiset(between + tail) == multiset(between + pool[cut..]);
  }

  lemma SurvivorsBehind(all: seq<Conn>, i: nat, cut: nat)
    requires i < cut <= |all| && all[i].closes && Survivors(all[i + 1..cut]) == all[i + 1..cut]
    ensures Survivors(all[i..]) == all[i + 1..cut] + Survivors(all[cut..])
  {
    var between := all[i + 1..cut];
    assert all[i..][1..] == between + all[cut..];
    SurvivorsConcat(between, all[cut..]);
  }

  /** A surviving connection stays as often as it was there. */
  lemma {:induction false} SurvivorsCount(pool: seq<Conn>, c: Conn)
    ensures multiset(Survivors(pool))[c] == if c.closes then 0 else multiset(pool)[c]
  {
    if pool != [] {
      SurvivorsCount(pool[1..], c);
      assert pool == [pool[0]] + pool[1..];
    }
  }

  /** What is left after the last removal. */
  lemma SurvivorsLeft(all: seq<Conn>, pool: seq<Conn>, cut: nat)
    requires cut <= |all| && cut <= |pool| && pool[..cut] == all[..cut] && Survivors(all[..cut]) == all[..cut]
    requires multiset(pool[cut..]) == multiset(Survivors(all[cut..]))
    ensures multiset(pool) == multiset(Survivors(all))
    ensures forall c :: multiset(pool)[c] == if c.closes then 0 else multiset(all)[c]
  {
    hide Survivors;
    SurvivorsConcat(all[..cut], all[cut..]);
    assert all == all[..cut] + all[cut..] && pool == pool[..cut] + pool[cut..];
    forall c { SurvivorsCount(all, c); }
  }

  /** One attempt to connect: no connection, one that could not be registered, or one for the pool. */
  datatype Attempt = NoConnection | Unregistered | Connected(closes: bool)

  /** Indices run in a circle. */
  datatype Circle = Circle(low: nat, high: nat)
  {
    ghost predicate Has(index: nat) { low <= index < high }

    /** The index after `n` more draws. */
    ghost function After(index: nat, n: nat): nat {
      if n == 0 then index
      else
        var last := After(index, n - 1);
        if last + 1 >= high then low else last + 1
    }

    /** Whether the index is among the first `n` draws. */
    ghost predicate Draws(next: nat, n: nat, index: nat) {
      exists m: nat :: m < n && IsDraw(next, m, index)
    }

    ghost predicate IsDraw(next: nat, m: nat, index: nat) {
      index == After(next, m)
    }

    /** As long as the circle is not exhausted the draws differ. */
    lemma {:induction false} AfterIs(index: nat, n: nat)
      requires Has(index) && n <= high - low
      ensures After(index, n) == if index + n < high then index + n else index + n - (high - low)
    {
      if n > 0 { AfterIs(index, n - 1); }
    }
  }

  /** How many indices the attempts use up: one for every connection, registered or not. */
  ghost function Draws(attempts: seq<Attempt>): nat {
    if attempts == [] then 0
    else
      var last := |attempts| - 1;
      Draws(attempts[..last]) + if attempts[last].NoConnection? then 0 else 1
  }

  /** The connections that the attempts add, under the indices that they draw. */
  ghost function Made(circle: Circle, next: nat, attempts: seq<Attempt>): seq<Conn> {
    if attempts == [] then []
    else
      var last := |attempts| - 1;
      Made(circle, next, attempts[..last]) +
      if attempts[last].Connected? then [Conn(circle.After(next, Draws(attempts[..last])), attempts[last].closes)] else []
  }

  lemma {:induction false} DrawsAtMost(attempts: seq<Attempt>)
    ensures Draws(attempts) <= |attempts|
  {
    if attempts != [] { DrawsAtMost(attempts[..|attempts| - 1]); }
  }

  /** The connections are under different ones of the first `n` indices drawn. */
  ghost predicate OwnIndices(circle: Circle, next: nat, n: nat, made: seq<Conn>) {
    && (forall i {:trigger made[i]} :: 0 <= i < |made| ==> circle.Has(made[i].id) && circle.Draws(next, n, made[i].id))
    && (forall i, j :: 0 <= i < j < |made| ==> made[i].id != made[j].id)
  }

  lemma OneMore(circle: Circle, next: nat, n: nat, made: seq<Conn>, closes: bool)
    requires circle.Has(next) && n < circle.high - circle.low && OwnIndices(circle, next, n, made)
    ensures OwnIndices(circle, next, n + 1, made)
    ensures OwnIndices(circle, next, n + 1, made + [Conn(circle.After(next, n), closes)])
  {
    circle.AfterIs(next, n);
    var id := circle.After(next, n);
    assert circle.IsDraw(next, n, id) && n < n + 1;
    forall i | 0 <= i < |made| ensures made[i].id != id && circle.Draws(next, n + 1, made[i].id) {
      assert circle.Draws(next, n, made[i].id);
      var m: nat :| m < n && circle.IsDraw(next, m, made[i].id);
      circle.AfterIs(next, m);
      assert m < n + 1;
    }
  }

  /** Every connection is under an index drawn for it alone, as long as the indices suffice. */
  lemma {:induction false} MadeIndices(circle: Circle, next: nat, attempts: seq<Attempt>)
    requires circle.Has(next) && |attempts| <= circle.high - circle.low
    ensures OwnIndices(circle, next, Draws(attempts), Made(circle, next, attempts))
  {
    if attempts != [] {
      hide OwnIndices;
      var last := |attempts| - 1;
      MadeIndices(circle, next, attempts[..last]);
      DrawsAtMost(attempts[..last]);
      OneMore(circle, next, Draws(attempts[..last]), Made(circle, next, attempts[..last]), attempts[last].Connected? && attempts[last].closes);
    }
  }

  predicate AllConnect(attempts: seq<Attempt>) {
    forall i :: 0 <= i < |attempts| ==> attempts[i].Connected?
  }

  predicate NoneConnects(attempts: seq<Attempt>) {
    forall i :: 0 <= i < |attempts| ==> !attempts[i].Connected?
  }

  lemma OneMoreAttempt(attempts: seq<Attempt>, a: Attempt)
    ensures AllConnect(attempts + [a]) <==> AllConnect(attempts) && a.Connected?
    ensures NoneConnects(attempts + [a]) <==> NoneConnects(attempts) && !a.Connected?
  {
    var all := attempts + [a];
    assert all[|attempts|] == a && forall i :: 0 <= i < |attempts| ==> all[i] == attempts[i];
  }

  /** Every successful attempt makes a connection, and no other does. */
  lemma {:induction false} MadeCount(circle: Circle, next: nat, attempts: seq<Attempt>)
    ensures |Made(circle, next, attempts)| <= |attempts|
    ensures |Made(circle, next, attempts)| == |attempts| <==> AllConnect(attempts)
    ensures Made(circle, next, attempts) == [] <==> NoneConnects(attempts)
  {
    if attempts != [] {
      hide circle.After, Draws, AllConnect, NoneConnects;
      var last := |attempts| - 1;
      MadeCount(circle, next, attempts[..last]);
      OneMoreAttempt(attempts[..last], attempts[last]);
      assert attempts == attempts[..last] + [attempts[last]];
    }
  }

  lemma NothingMade(circle: Circle, next: nat)
    ensures Made(circle, next, []) == [] && Draws([]) == 0
  {
  }

  lemma MadeStep(circle: Circle, next: nat, attempts: seq<Attempt>, from: nat, i: nat)
    requires from <= i < |attempts|
    ensures Draws(attempts[from..i + 1]) == Draws(attempts[from..i]) + if attempts[i].NoConnection? then 0 else 1
    ensures Made(circle, next, attempts[from..i + 1]) ==
              Made(circle, next, attempts[from..i]) +
              if attempts[i].Connected? then [Conn(circle.After(next, Draws(attempts[from..i])), attempts[i].closes)] else []
  {
    assert attempts[from..i + 1][..i - from] == attempts[from..i];
  }

  class IdlePool {
    var pool: seq<Conn>
    const size: nat
    var nextIndex: nat
    const minIndex: nat
    const maxIndex: nat

    constructor (size: nat, minIndex: nat, maxIndex: nat)
      requires minIndex < maxIndex
      ensures Valid() && pool == [] && this.size == size
    {
      this.size, this.minIndex, this.maxIndex := size, minIndex, maxIndex;
      pool, nextIndex := [], minIndex;
    }

    ghost function Indices(): Circle {
      Circle(minIndex, maxIndex)
    }

    predicate Valid()
      reads this
    {
      |pool| <= size && minIndex <= nextIndex < maxIndex
    }

    method NextIndex() returns (index: nat)
      requires Valid()
      modifies `nextIndex
      ensures Valid() && index == old(nextIndex)
      ensures nextIndex == if index + 1 >= maxIndex then minIndex else index + 1
    {
      index := nextIndex;
      nextIndex := nextIndex + 1;
      if nextIndex >= maxIndex {
        nextIndex := minIndex;
      }
    }

    /** `alloc`: one attempt per missing connection; `attempts[i]` is the i-th attempt's result. Every
        successful attempt adds its connection; an index is drawn for a connection that cannot be
        registered as well. */
    method Alloc(attempts: seq<Attempt>)
      requires Valid() && |attempts| == size
      modifies `pool, `nextIndex
      ensures Valid()
      ensures pool == old(pool) + Made(Indices(), old(nextIndex), attempts[|old(pool)|..])
      ensures nextIndex == Indices().After(old(nextIndex), Draws(attempts[|old(pool)|..]))
    {
      hide Made, Draws;
      ghost var have := |pool|;
      var i := |pool|;
      NothingMade(Indices(), nextIndex);
      assert attempts[have..have] == [];
      while i < size
        invariant have <= i <= size && minIndex <= nextIndex < maxIndex
        invariant pool == old(pool) + Made(Indices(), old(nextIndex), attempts[have..i])
        invariant nextIndex == Indices().After(old(nextIndex), Draws(attempts[have..i]))
      {
        MadeStep(Indices(), old(nextIndex), attempts, have, i);
        MadeCount(Indices(), old(nextIndex), attempts[have..i]);
        match attempts[i] {
          case NoConnection =>
          case Unregistered =>
            var index := NextIndex();
          case Connected(closes) =>
            var index := NextIndex();
            pool := pool + [Conn(index, closes)];
        }
        i := i + 1;
      }
      assert attempts[have..i] == attempts[have..];
      MadeCount(Indices(), old(nextIndex), attempts[have..]);
    }

    /** `get`: refill and take the last one, as often as the pool is large. It answers nothing exactly
        if there was nothing and every attempt of every round failed; otherwise what is left, and the
        connection taken from its end, are what was there and what the first successful round made. */
    method Get(rounds: seq<seq<Attempt>>) returns (r: Option<Conn>, ghost round: nat)
      requires Valid() && |rounds| == size && forall k :: 0 <= k < size ==> |rounds[k]| == size
      modifies `pool, `nextIndex
      ensures Valid()
      ensures r.None? ==> pool == old(pool) == [] && round == size
      ensures r.Some? ==>
        round < size && pool + [r.value] == old(pool) + Made(Indices(), IndexBefore(old(nextIndex), rounds[..round]), rounds[round][|old(pool)|..])
      ensures forall k :: 0 <= k < round ==> old(pool) == [] && NoneConnects(rounds[k])
    {
      hide Made, Draws, NoneConnects, AllConnect;
      var k := 0;
      while k < size
        invariant k <= size && Valid() && pool == old(pool)
        invariant k > 0 ==> pool == []
        invariant nextIndex == IndexBefore(old(nextIndex), rounds[..k])
        invariant forall j :: 0 <= j < k ==> NoneConnects(rounds[j])
      {
        ghost var next, have := nextIndex, |pool|;
        Alloc(rounds[k]);
        MadeCount(Indices(), next, rounds[k][have..]);
        if pool != [] {
          var conn := pool[|pool| - 1];
          assert pool[..|pool| - 1] + [conn] == pool;
          pool := pool[..|pool| - 1];
          return Some(conn), k;
        }
        assert rounds[k][0..] == rounds[k];
        assert rounds[..k + 1][..k] == rounds[..k];
        k := k + 1;
      }
      return None, k;
    }

    /** The next index after rounds into an empty pool. */
    ghost function IndexBefore(next: nat, rounds: seq<seq<Attempt>>): nat {
      if rounds == [] then next
      else
        var last := |rounds| - 1;
        Indices().After(IndexBefore(next, rounds[..last]), Draws(rounds[last]))
    }

    /** `check_timeout`: what stays is exactly the survivors, each as often as before. */
    method CheckTimeout()
      requires Valid()
      modifies `pool
      ensures Valid() && multiset(pool) == multiset(Survivors(old(pool)))
      ensures forall c :: multiset(pool)[c] == if c.closes then 0 else multiset(old(pool))[c]
    {
      hide Closed, Survivors, SwapRemove;
      var closed := Closed(pool);
      ghost var all := pool;
      var k := |closed|;
      AllSurvive([]);
      assert all[Cut(all, k)..] == [];
      while k > 0
        invariant 0 <= k <= |closed| && |pool| <= |all|
        invariant Cut(all, k) <= |pool| && pool[..Cut(all, k)] == all[..Cut(all, k)]
        invariant multiset(pool[Cut(all, k)..]) == multiset(Survivors(all[Cut(all, k)..]))
      {
        OpenStretch(all, k);
        RemovalStep(all, pool, closed[k - 1], Cut(all, k));
        k := k - 1;
        pool := SwapRemove(pool, closed[k]);
      }
      ghost var cut := Cut(all, 0);
      OpenStretch(all, 0);
      assert all[0..cut] == all[..cut];
      SurvivorsLeft(all, pool, cut);
    }
  }
}

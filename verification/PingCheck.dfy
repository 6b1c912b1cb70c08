/** The ping service: one check per address at a time, answered to everyone who asked for it, and
    the running average a check computes (src/aserver/ping.rs). */
module PingCheck {
  import opened Options
  import opened Queues

  type Ip = nat
  /** One requester's channel. */
  type Sender = nat
  type Time = int

  datatype PingResult = PingResult(ip: Ip, lost: nat, ping: nat, time: Time)

  type Waiters = Queue<Ip, Sender>

  /** An address has waiters exactly while its one check is in flight. */
  ghost predicate SingleFlight(inFlight: multiset<Ip>, queues: Waiters) {
    && (forall ip :: inFlight[ip] == if ip in queues then 1 else 0)
    && (forall ip :: ip in queues ==> queues[ip] != [])
  }

  lemma RequestKeepsSingleFlight(inFlight: multiset<Ip>, queues: Waiters, ip: Ip, sender: Sender)
    requires SingleFlight(inFlight, queues)
    ensures SingleFlight(if ip in queues then inFlight else inFlight + multiset{ip},
                         queues[ip := Waiting(queues, ip) + [sender]])
  {
  }

  lemma AnswerKeepsSingleFlight(inFlight: multiset<Ip>, queues: Waiters, ip: Ip)
    requires SingleFlight(inFlight, queues) && ip in inFlight
    ensures ip in queues && SingleFlight(inFlight - multiset{ip}, queues - {ip}) && ip !in inFlight - multiset{ip}
  {
  }

  /** What the messages that went out answer. */
  function Deliveries(sent: seq<(Sender, PingResult)>): seq<(Ip, Sender)> {
    seq(|sent|, i requires 0 <= i < |sent| => (sent[i].1.ip, sent[i].0))
  }

  function Delivered(sent: seq<(Sender, PingResult)>): multiset<(Ip, Sender)> {
    multiset(Deliveries(sent))
  }

  lemma DeliveredConcat(sent: seq<(Sender, PingResult)>, more: seq<(Sender, PingResult)>)
    ensures Delivered(sent + more) == Delivered(sent) + Delivered(more)
  {
    assert Deliveries(sent + more) == Deliveries(sent) + Deliveries(more);
  }

  lemma DeliveredOne(sender: Sender, result: PingResult)
    ensures Delivered([(sender, result)]) == multiset{(result.ip, sender)}
  {
    assert Deliveries([(sender, result)]) == [(result.ip, sender)];
  }

  lemma DeliveredAnswers(senders: seq<Sender>, result: PingResult)
    ensures Delivered(Answers(senders, result)) == multiset(Tagged(result.ip, senders))
  {
    assert Deliveries(Answers(senders, result)) == Tagged(result.ip, senders);
  }

  /** Results are stored under their own address. */
  ghost predicate OwnResults(results: map<Ip, PingResult>) {
    forall ip :: ip in results ==> results[ip].ip == ip
  }

  class CheckRoutine {
    const cachedPingTimeout: Time
    var cacheResults: map<Ip, PingResult>
    var cacheSenders: Waiters
    var id: nat
    /** Spawned checks that have not answered yet. */
    var inFlight: multiset<Ip>
    ghost var requests: multiset<(Ip, Sender)>
    /** What was sent to whom, in order. */
    ghost var sent: seq<(Sender, PingResult)>

    constructor (timeout: Time)
      ensures Valid() && requests == multiset{} && sent == []
    {
      cachedPingTimeout := timeout;
      cacheResults, cacheSenders, id := map[], map[], 0;
      inFlight, requests, sent := multiset{}, multiset{}, [];
    }

    ghost predicate Valid()
      reads this
    {
      && SingleFlight(inFlight, cacheSenders) && OwnResults(cacheResults)
      && Conserved(requests, Delivered(sent), cacheSenders)
    }

    /** A request arrives at `now`. A recent result is answered at once; otherwise the requester
        waits, and a check is spawned unless one is in flight. */
    method OnRequest(ip: Ip, sender: Sender, now: Time) returns (spawned: bool)
      requires Valid()
      modifies this
      ensures Valid() && cacheResults == old(cacheResults)
      ensures requests == old(requests) + multiset{(ip, sender)}
      ensures var hit := ip in cacheResults && now - cacheResults[ip].time < cachedPingTimeout;
              if hit then
                && !spawned && sent == old(sent) + [(sender, cacheResults[ip])]
                && cacheResults[ip].ip == ip && cacheSenders == old(cacheSenders)
              else
                && spawned == (ip !in old(cacheSenders)) && sent == old(sent)
                && cacheSenders == old(cacheSenders)[ip := Waiting(old(cacheSenders), ip) + [sender]]
      ensures inFlight == if spawned then old(inFlight) + multiset{ip} else old(inFlight)
      ensures id == if spawned then (old(id) + 1) % 0x1_0000 else old(id)
    {
      hide Valid, Waiting;
      if ip in cacheResults {
        var result := cacheResults[ip];
        if now - result.time < cachedPingTimeout {
          AnswerNow(ip, sender);
          return false;
        }
      }
      spawned := Enqueue(ip, sender);
    }

    method AnswerNow(ip: Ip, sender: Sender)
      requires Valid() && ip in cacheResults
      modifies `requests, `sent
      ensures Valid() && cacheResults[ip].ip == ip
      ensures requests == old(requests) + multiset{(ip, sender)} && sent == old(sent) + [(sender, cacheResults[ip])]
    {
      hide SingleFlight, Conserved, Delivered;
      var result := cacheResults[ip];
      EnqueueConserves(requests, Delivered(sent), cacheSenders, ip, sender);
      DeliveredConcat(sent, [(sender, result)]);
      DeliveredOne(sender, result);
      requests := requests + multiset{(ip, sender)};
      sent := sent + [(sender, result)];
    }

    method Enqueue(ip: Ip, sender: Sender) returns (spawned: bool)
      requires Valid()
      modifies `requests, `inFlight, `id, `cacheSenders
      ensures Valid() && requests == old(requests) + multiset{(ip, sender)}
      ensures spawned == (ip !in old(cacheSenders))
      ensures cacheSenders == old(cacheSenders)[ip := Waiting(old(cacheSenders), ip) + [sender]]
      ensures inFlight == if spawned then old(inFlight) + multiset{ip} else old(inFlight)
      ensures id == if spawned then (old(id) + 1) % 0x1_0000 else old(id)
    {
      hide SingleFlight, Conserved, Delivered, Waiting;
      EnqueueConserves(requests, Delivered(sent), cacheSenders, ip, sender);
      RequestKeepsSingleFlight(inFlight, cacheSenders, ip, sender);
      requests := requests + multiset{(ip, sender)};
      spawned := ip !in cacheSenders;
      if spawned {
        inFlight := inFlight + multiset{ip};
        id := (id + 1) % 0x1_0000;
      }
      cacheSenders := cacheSenders[ip := Waiting(cacheSenders, ip) + [sender]];
    }

    /** A check answers. Everyone waiting for the address gets the result, in the order of asking,
        and the address is free for a new check. */
    method OnResponse(result: PingResult)
      requires Valid() && result.ip in inFlight
      modifies this
      ensures Valid() && requests == old(requests)
      ensures result.ip in old(cacheSenders) && cacheSenders == old(cacheSenders) - {result.ip}
      ensures inFlight == old(inFlight) - multiset{result.ip} && result.ip !in inFlight
      ensures cacheResults == old(cacheResults)[result.ip := result]
      ensures sent == old(sent) + Answers(old(cacheSenders)[result.ip], result)
    {
      hide SingleFlight, Conserved, Delivered, Tagged, Answers;
      AnswerConserves(requests, Delivered(sent), cacheSenders, result.ip, cacheSenders - {result.ip});
      AnswerKeepsSingleFlight(inFlight, cacheSenders, result.ip);
      if result.ip in cacheSenders {
        var senders := cacheSenders[result.ip];
        DeliveredConcat(sent, Answers(senders, result));
        DeliveredAnswers(senders, result);
        SendAll(senders, result);
        cacheSenders := cacheSenders - {result.ip};
      }
      inFlight := inFlight - multiset{result.ip};
      cacheResults := cacheResults[result.ip := result];
    }

    method SendAll(senders: seq<Sender>, result: PingResult)
      modifies `sent
      ensures sent == old(sent) + Answers(senders, result)
    {
      var i := 0;
      assert sent == old(sent) + Answers([], result);
      while i < |senders|
        invariant i <= |senders|
        invariant sent == old(sent) + Answers(senders[..i], result)
      {
        AppendAnswer(senders[..i], senders[i], result);
        assert senders[..i + 1] == senders[..i] + [senders[i]];
        sent := sent + [(senders[i], result)];
        i := i + 1;
      }
      assert senders[..i] == senders;
    }
  }

  function Answers(senders: seq<Sender>, result: PingResult): seq<(Sender, PingResult)> {
    seq(|senders|, i requires 0 <= i < |senders| => (senders[i], result))
  }

  lemma AppendAnswer(senders: seq<Sender>, last: Sender, result: PingResult)
    ensures Answers(senders + [last], result) == Answers(senders, result) + [(last, result)]
  {
  }

  datatype Event =
    | Request(ip: Ip, sender: Sender, now: Time)
    | Response(result: PingResult)

  /** The requests among the events. */
  function Asked(events: seq<Event>): multiset<(Ip, Sender)> {
    if events == [] then multiset{}
    else
      var last := events[|events| - 1];
      Asked(events[..|events| - 1]) + if last.Request? then multiset{(last.ip, last.sender)} else multiset{}
  }

  /** Any interleaving of requests and of answers from the checks that are running, from the start: an
      address has waiters exactly while its one check runs, nobody is sent more results for an address
      than it asked for, and once no check for an address runs everyone who asked for it has been sent
      one for each request. */
  method Serve(timeout: Time, events: seq<Event>) returns (routine: CheckRoutine)
    ensures fresh(routine) && routine.Valid()
    ensures forall ip :: routine.inFlight[ip] == if ip in routine.cacheSenders then 1 else 0
    ensures forall p :: Delivered(routine.sent)[p] <= Asked(events)[p]
    ensures forall p: (Ip, Sender) :: p.0 !in routine.inFlight ==> Delivered(routine.sent)[p] == Asked(events)[p]
  {
    hide Delivered, Asked;
    routine := new CheckRoutine(timeout);
    NothingAsked();
    var i := 0;
    while i < |events|
      invariant i <= |events| && fresh(routine) && routine.Valid() && routine.requests == Asked(events[..i])
    {
      AskedAppend(events, i);
      match events[i] {
        case Request(ip, sender, now) =>
          var spawned := routine.OnRequest(ip, sender, now);
        case Response(result) =>
          if result.ip in routine.inFlight {
            routine.OnResponse(result);
          }
      }
      i := i + 1;
    }
    assert events[..i] == events;
    forall p
      ensures Delivered(routine.sent)[p] <= Asked(events)[p]
      ensures p.0 !in routine.inFlight ==> Delivered(routine.sent)[p] == Asked(events)[p]
    {
      AnsweredAtMostOnce(routine.requests, Delivered(routine.sent), routine.cacheSenders, p);
      assert p.0 !in routine.inFlight ==> routine.inFlight[p.0] == 0;
    }
  }

  lemma NothingAsked()
    ensures Asked([]) == multiset{}
  {
  }

  lemma AskedAppend(events: seq<Event>, i: nat)
    requires i < |events|
    ensures Asked(events[..i + 1]) ==
      Asked(events[..i]) + if events[i].Request? then multiset{(events[i].ip, events[i].sender)} else multiset{}
  {
    assert events[..i + 1][..i] == events[..i];
  }

  // ---------- the average ----------

  /** The costs of the pings that were answered. */
  function Answered(costs: seq<Option<nat>>): seq<nat> {
    if costs == [] then []
    else
      var last := costs[|costs| - 1];
      Answered(costs[..|costs| - 1]) + if last.Some? then [last.value] else []
  }

  function Total(costs: seq<nat>): nat {
    if costs == [] then 0 else Total(costs[..|costs| - 1]) + costs[|costs| - 1]
  }

  lemma AnsweredAppend(costs: seq<Option<nat>>, last: Option<nat>)
    ensures Answered(costs + [last]) == if last.Some? then Answered(costs) + [last.value] else Answered(costs)
  {
    assert (costs + [last])[..|costs|] == costs;
    assert Answered(costs) + [] == Answered(costs);
  }

  /** `k` times the average falls short of the total by at most k(k-1)/2, and never exceeds it. */
  predicate NearTotal(avg: nat, k: nat, total: nat) {
    k * avg <= total && 2 * total <= 2 * (k * avg) + k * (k - 1)
  }

  /** The update of the average by the answer after `k` others, in integers. */
  function NextAverage(avg: nat, k: nat, cost: nat): nat {
    (avg * k + cost) / (k + 1)
  }

  lemma QuotientTimes(sum: nat, d: nat)
    requires d > 0
    ensures d * (sum / d) <= sum < d * (sum / d) + d
  {
  }

  lemma Triangle(k: nat)
    ensures (k + 1) * k == k * (k - 1) + 2 * k
  {
  }

  /** One truncating update of the average loses less than one unit per earlier answer. */
  lemma AverageStep(avg: nat, k: nat, total: nat, cost: nat)
    requires NearTotal(avg, k, total)
    ensures NearTotal(NextAverage(avg, k, cost), k + 1, total + cost)
  {
    QuotientTimes(avg * k + cost, k + 1);
    Triangle(k);
    var p, q, t := avg * k, (k + 1) * NextAverage(avg, k, cost), k * (k - 1);
    assert k * avg == p;
    assert q <= p + cost < q + k + 1;
    assert p <= total && 2 * total <= 2 * p + t;
    assert (k + 1) * ((k + 1) - 1) == t + 2 * k;
  }

  lemma QuotientBetween(sum: nat, d: nat, low: nat, high: nat)
    requires d > 0 && low * d <= sum <= high * d
    ensures low <= sum / d <= high
  {
    var q := sum / d;
    assert sum == q * d + sum % d;
    if q < low {
      assert (q + 1) * d == q * d + d;
      MulMonotone(q + 1, low, d);
    }
  }

  lemma MulMonotone(a: nat, b: nat, k: nat)
    requires a <= b
    ensures a * k <= b * k
  {
  }

  /** The truncating average stays between the bounds of what it averages. */
  lemma AverageBetween(avg: nat, k: nat, cost: nat, low: nat, high: nat)
    requires k > 0 ==> low <= avg <= high
    requires low <= cost <= high
    ensures low <= NextAverage(avg, k, cost) <= high
  {
    if k > 0 {
      MulMonotone(low, avg, k);
      MulMonotone(avg, high, k);
    }
    assert low * (k + 1) == low * k + low && high * (k + 1) == high * k + high;
    QuotientBetween(avg * k + cost, k + 1, low, high);
  }

  predicate Bounded(costs: seq<nat>, low: nat, high: nat) {
    forall i :: 0 <= i < |costs| ==> low <= costs[i] <= high
  }

  /** The average lies between any bounds of the costs. */
  ghost predicate Between(avg: nat, costs: seq<nat>) {
    forall low: nat, high: nat :: costs != [] && Bounded(costs, low, high) ==> low <= avg <= high
  }

  lemma BetweenExtends(avg: nat, costs: seq<nat>, cost: nat)
    requires Between(avg, costs)
    ensures Between(NextAverage(avg, |costs|, cost), costs + [cost])
  {
    var k, all := |costs|, costs + [cost];
    hide NextAverage;
    var next := NextAverage(avg, k, cost);
    forall low: nat, high: nat | Bounded(all, low, high) ensures low <= next <= high {
      assert all[k] == cost;
      assert Bounded(costs, low, high) by {
        forall j | 0 <= j < k ensures low <= costs[j] <= high { assert all[j] == costs[j]; }
      }
      AverageBetween(avg, k, cost, low, high);
    }
  }

  /** The running average of the costs so far. */
  function RunningAverage(costs: seq<nat>): nat {
    if costs == [] then 0
    else
      var k := |costs| - 1;
      NextAverage(RunningAverage(costs[..k]), k, costs[k])
  }

  lemma RunningAverageAppend(costs: seq<nat>, last: nat)
    ensures RunningAverage(costs + [last]) == NextAverage(RunningAverage(costs), |costs|, last)
  {
    assert (costs + [last])[..|costs|] == costs;
  }

  /** Times the number of costs, the running average falls short of their total by at most k(k-1)/2,
      and it lies between any bounds of the costs. */
  lemma {:induction false} RunningAverageClose(costs: seq<nat>)
    ensures NearTotal(RunningAverage(costs), |costs|, Total(costs)) && Between(RunningAverage(costs), costs)
  {
    hide NearTotal, NextAverage, Between;
    if costs == [] {
      StartOfAverage();
    } else {
      var k := |costs| - 1;
      var before := costs[..k];
      assert before + [costs[k]] == costs;
      RunningAverageClose(before);
      AverageStep(RunningAverage(before), k, Total(before), costs[k]);
      BetweenExtends(RunningAverage(before), before, costs[k]);
    }
  }

  lemma StartOfAverage()
    ensures NearTotal(0, 0, 0) && Between(0, [])
  {
  }

  lemma NothingAnswered()
    ensures Answered([]) == [] && RunningAverage([]) == 0
  {
  }

  /** `do_check`: 100 pings, and the running average over the answered ones, which is close to the true
      average and lies between any bounds of the costs; the narrowing to 16 bits is harmless while
      costs fit. */
  method DoCheck(costs: seq<Option<nat>>) returns (lost: nat, ping: nat, ghost avg: nat)
    requires |costs| == 100
    ensures lost == 100 - |Answered(costs)|
    ensures avg == RunningAverage(Answered(costs)) && ping == avg % 0x1_0000
    ensures NearTotal(avg, |Answered(costs)|, Total(Answered(costs))) && Between(avg, Answered(costs))
    ensures Bounded(Answered(costs), 0, 0xFFFF) ==> ping == avg
  {
    hide Answered, Total, NearTotal, NextAverage, RunningAverage;
    var received: nat, avgCost: nat := 0, 0;
    NothingAnswered();
    var i := 0;
    while i < 100
      invariant i <= 100 && received == |Answered(costs[..i])| <= i && avgCost == RunningAverage(Answered(costs[..i]))
    {
      assert costs[..i + 1] == costs[..i] + [costs[i]];
      AnsweredAppend(costs[..i], costs[i]);
      if costs[i].Some? {
        var cost := costs[i].value;
        RunningAverageAppend(Answered(costs[..i]), cost);
        avgCost := NextAverage(avgCost, received, cost);
        received := received + 1;
      }
      i := i + 1;
    }
    assert costs[..i] == costs;
    RunningAverageClose(Answered(costs));
    avg := avgCost;
    lost, ping := 100 - received, avgCost % 0x1_0000;
    if received == 0 { NothingAnswered(); }
  }
}

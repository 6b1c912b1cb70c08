/** The five-state life of one end of a relayed connection (src/status.rs), and the step that
    couples the two ends at the end of every event (src/proxy/tcp_server.rs,
    src/server/connection.rs). */
module Status {

  datatype ConnStatus = Connecting | Established | PeerClosed | Shutdown | Deregistered {
    predicate Alive() {
      PeerClosed? || Established?
    }

    predicate IsShutdown() {
      Shutdown? || Deregistered?
    }

    function Rank(): nat {
      match this
      case Connecting => 0
      case Established => 1
      case PeerClosed => 2
      case Shutdown => 3
      case Deregistered => 4
    }

    function OnPeerClosed(): ConnStatus {
      if Established? || Connecting? then PeerClosed else this
    }

    function OnEstablished(): ConnStatus {
      if Connecting? then Established else this
    }

    /** `shutdown()` when `close_conn()` answers true, as every implementation does. */
    function OnShutdown(): ConnStatus {
      if IsShutdown() then this else Shutdown
    }

    /** `check_status()` of an implementation whose `close_conn` and `deregister` answer true;
        `drained` is the answer of its `finish_send`. */
    function AfterCheck(drained: bool): ConnStatus {
      if IsShutdown() || (PeerClosed? && drained) then Deregistered else this
    }
  }

  /** The provided methods of the trait. What the implementing type answers to `close_conn`,
      `finish_send` and `deregister` comes in as parameters. */
  class StatusProvider {
    var status: ConnStatus

    constructor ()
      ensures status == Connecting
    {
      status := Connecting;
    }

    method PeerClosed()
      modifies this
      ensures status == old(status).OnPeerClosed()
      ensures status == if old(status) in {Connecting, ConnStatus.Established} then ConnStatus.PeerClosed else old(status)
    {
      match status {
        case Established | Connecting => status := ConnStatus.PeerClosed;
        case _ =>
      }
    }

    method Established()
      modifies this
      ensures status == old(status).OnEstablished()
      ensures status == if old(status) == Connecting then ConnStatus.Established else old(status)
    {
      if status.Connecting? {
        status := ConnStatus.Established;
      }
    }

    method Shutdown(closes: bool) returns (ok: bool)
      modifies this
      ensures ok <==> closes || old(status).IsShutdown()
      ensures status == if ok then old(status).OnShutdown() else old(status)
      ensures status == if old(status) == Deregistered || !ok then old(status) else ConnStatus.Shutdown
    {
      match status {
        case Established | PeerClosed | Connecting =>
          if closes {
            status := ConnStatus.Shutdown;
          } else {
            return false;
          }
        case Shutdown | Deregistered =>
      }
      return true;
    }

    /** Leaves `PeerClosed` only when drained, and then only as far as the implementation lets it. */
    method CheckStatus(drained: bool, closes: bool, deregisters: bool)
      modifies this
      ensures old(status).PeerClosed? && !(drained && closes) ==> status == old(status)
      ensures old(status).PeerClosed? && drained && closes ==>
        status == if deregisters then Deregistered else ConnStatus.Shutdown
      ensures old(status).Shutdown? ==> status == if deregisters then Deregistered else old(status)
      ensures old(status).Connecting? || old(status).Established? || old(status).Deregistered? ==>
        status == old(status)
      ensures closes && deregisters ==> status == old(status).AfterCheck(drained)
    {
      while true
        invariant status == old(status) ||
          (old(status).PeerClosed? && drained && closes && status == ConnStatus.Shutdown)
        decreases 4 - status.Rank()
      {
        match status {
          case Established | Connecting =>
          case PeerClosed =>
            if drained {
              var ok := Shutdown(closes);
              if ok {
                continue;
              }
            }
          case Shutdown =>
            if deregisters {
              status := Deregistered;
            }
          case Deregistered =>
        }
        break;
      }
    }
  }

  // ---------- two coupled ends ----------

  datatype Ends = Ends(a: ConnStatus, b: ConnStatus)

  /** The tail of `ready`: each end learns that the other is down, then both check their status. */
  function Couple(e: Ends, aDrained: bool, bDrained: bool): Ends {
    var b := if e.a.IsShutdown() then e.b.OnPeerClosed() else e.b;
    var a := if b.IsShutdown() then e.a.OnPeerClosed() else e.a;
    Ends(a.AfterCheck(aDrained), b.AfterCheck(bDrained))
  }

  /** What the step comes to for each end: a down end is deregistered, as is a drained end whose peer is
      down; an undrained one waits; an end whose peer is up stays as it is. */
  lemma CoupleExactly(e: Ends, aDrained: bool, bDrained: bool)
    requires Coupled(e)
    ensures var aDown, bDown := e.a in {Shutdown, Deregistered}, e.b in {Shutdown, Deregistered};
            Couple(e, aDrained, bDrained) == Ends(
              if aDown || (bDown && aDrained) then Deregistered else if bDown then PeerClosed else e.a,
              if bDown || (aDown && bDrained) then Deregistered else if aDown then PeerClosed else e.b)
  {
  }

  /** An end waits as `PeerClosed` only for an end that is down. */
  predicate Coupled(e: Ends) {
    && (e.a.PeerClosed? ==> e.b.IsShutdown())
    && (e.b.PeerClosed? ==> e.a.IsShutdown())
  }

  /** Between events nothing is half-done: no end is merely `Shutdown`, and the peer of a
      deregistered end is draining or deregistered too. */
  predicate Settled(e: Ends) {
    && Coupled(e)
    && !e.a.Shutdown? && !e.b.Shutdown?
    && (e.a.Deregistered? ==> e.b.PeerClosed? || e.b.Deregistered?)
    && (e.b.Deregistered? ==> e.a.PeerClosed? || e.a.Deregistered?)
  }

  /** The step settles the ends; one that was down stays down, and one that goes down is drained. */
  lemma CoupleSettles(e: Ends, aDrained: bool, bDrained: bool)
    requires Coupled(e)
    ensures var s := Couple(e, aDrained, bDrained);
            && Settled(s)
            && (if e.a.IsShutdown() then s.a.IsShutdown() else s.a.IsShutdown() ==> aDrained)
            && (if e.b.IsShutdown() then s.b.IsShutdown() else s.b.IsShutdown() ==> bDrained)
  {
  }

  /** What input and output during one event may do to an end. */
  predicate IoMove(before: ConnStatus, after: ConnStatus) {
    after == before || after == before.OnEstablished() || after == before.OnShutdown()
  }

  /** One event: I/O on both ends, then the coupling step. */
  datatype Step = Step(io: Ends, aDrained: bool, bDrained: bool)

  predicate RunOk(e: Ends, steps: seq<Step>)
    decreases steps
  {
    steps == [] ||
    (IoMove(e.a, steps[0].io.a) && IoMove(e.b, steps[0].io.b) &&
     RunOk(Couple(steps[0].io, steps[0].aDrained, steps[0].bDrained), steps[1..]))
  }

  function Run(e: Ends, steps: seq<Step>): Ends
    decreases steps
  {
    if steps == [] then e
    else Run(Couple(steps[0].io, steps[0].aDrained, steps[0].bDrained), steps[1..])
  }

  /** Over any run statuses only move forward and the ends stay coupled and settled. */
  lemma {:induction false} RunsStayCoupled(e: Ends, steps: seq<Step>)
    requires Settled(e) && RunOk(e, steps)
    ensures Settled(Run(e, steps))
    ensures e.a.Rank() <= Run(e, steps).a.Rank() && e.b.Rank() <= Run(e, steps).b.Rank()
    decreases steps
  {
    if steps != [] {
      RunsStayCoupled(Couple(steps[0].io, steps[0].aDrained, steps[0].bDrained), steps[1..]);
    }
  }

  /** After any run, a single event takes both ends down exactly when each of them is down
      itself or has nothing left to send to a peer that is. */
  lemma {:induction false} TeardownTakesOneStep(e: Ends, steps: seq<Step>, last: Step)
    requires Settled(e) && RunOk(e, steps)
    requires IoMove(Run(e, steps).a, last.io.a) && IoMove(Run(e, steps).b, last.io.b)
    ensures var down := Couple(last.io, last.aDrained, last.bDrained);
            down == Ends(Deregistered, Deregistered) <==>
              && (last.io.a.IsShutdown() || (last.io.b.IsShutdown() && last.aDrained))
              && (last.io.b.IsShutdown() || (last.io.a.IsShutdown() && last.bDrained))
  {
    RunsStayCoupled(e, steps);
  }

  /** An undrained end outlives its peer, however many events go by without draining it. */
  lemma {:induction false} UndrainedEndSurvives(e: Ends, steps: seq<Step>)
    requires Settled(e) && RunOk(e, steps) && e.b.PeerClosed?
    requires forall i :: 0 <= i < |steps| ==> !steps[i].bDrained && !steps[i].io.b.IsShutdown()
    ensures Run(e, steps).b.PeerClosed?
    decreases steps
  {
    if steps != [] {
      var rest := steps[1..];
      assert forall i :: 0 <= i < |rest| ==> rest[i] == steps[i + 1];
      assert !steps[0].bDrained && !steps[0].io.b.IsShutdown();
      UndrainedEndSurvives(Couple(steps[0].io, steps[0].aDrained, steps[0].bDrained), rest);
    }
  }
}

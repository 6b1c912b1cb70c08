/** Relaying between a local TCP socket behind the virtual adapter and the server, with half-close
    (src/wintun/tcp.rs). */
module TunRelay {
  import opened Streams
  import opened Wire

  datatype Event =
    | LocalEvent(readable: bool, writeable: bool)
    | RemoteEvent(readable: bool, writeable: bool)

  /** The socket under the session: in order, and frozen when it is closed. */
  ghost predicate InOrder(wire: seq<byte>, held: seq<byte>, due: seq<byte>, accepted: seq<byte>, outgoing: seq<byte>,
                          closed: bool, cut: bool)
  {
    && wire <= accepted && wire <= outgoing
    && (closed ==> wire + held <= accepted && due <= outgoing)
    && (closed && !cut ==> wire + held == due)
  }

  lemma StaysInOrder(wire: seq<byte>, held: seq<byte>, due: seq<byte>, accepted: seq<byte>, outgoing: seq<byte>,
                     closed: bool, cut: bool, accepted': seq<byte>, outgoing': seq<byte>)
    requires InOrder(wire, held, due, accepted, outgoing, closed, cut)
    requires accepted <= accepted' && outgoing <= outgoing'
    ensures InOrder(wire, held, due, accepted', outgoing', closed, cut)
  {
  }

  class Connection {
    const local: Stream
    /** The TLS session: what it accepts it holds until the socket under it takes it. */
    const remote: Stream
    /** The request that has to go in front of the local bytes. */
    const request: seq<byte>
    var lbuffer: seq<byte>
    var rbuffer: seq<byte>
    var lclosed: bool
    var rclosed: bool
    var established: bool
    /** What the session accepted of the request. */
    ghost var handshake: seq<byte>
    /** What the socket under the session took; nothing more once it is closed. */
    ghost var wire: seq<byte>
    /** What should have gone out, and what the session still held, when its socket was closed. */
    ghost var due: seq<byte>
    ghost var held: seq<byte>
    /** A write to this side broke; what was buffered for it is gone. */
    ghost var remoteBroke: bool
    ghost var localBroke: bool
    /** The side was closed because of itself: it ended, broke or could not be set up. A closed side
        without the mark was closed because the other side had finished. */
    ghost var remoteCut: bool
    ghost var localCut: bool
    /** A flush failed, or the local socket was not usable, or the request could not be written. */
    ghost var failure: bool
    ghost var flushes: nat

    constructor (local: Stream, remote: Stream, request: seq<byte>)
      requires local != remote && request != []
      requires local.received == [] && local.written == [] && remote.received == [] && remote.written == []
      requires !local.ended && !remote.ended
      ensures this.local == local && this.remote == remote && this.request == request
      ensures Valid() && HalfCloseDone() && !established && !lclosed && !rclosed
      ensures lbuffer == [] && rbuffer == [] && wire == [] && !remoteBroke && !localBroke
    {
      this.local, this.remote, this.request := local, remote, request;
      lbuffer, rbuffer, lclosed, rclosed, established := [], [], false, false, false;
      handshake, remoteBroke, localBroke, remoteCut, localCut := [], false, false, false, false;
      wire, due, held, failure, flushes := [], [], [], false, 0;
    }

    /** What the server should get. */
    ghost function Outgoing(): seq<byte>
      reads `handshake, local`received
    {
      handshake + local.received
    }

    /** Local to remote: everything read is accepted by the remote session or buffered. */
    ghost predicate Upstream()
      reads `rbuffer, `handshake, local`received, remote`written
    {
      remote.written + rbuffer == Outgoing()
    }

    /** Remote to local, likewise. */
    ghost predicate Downstream()
      reads `lbuffer, local`written, remote`received
    {
      local.written + lbuffer == remote.received
    }

    ghost predicate OnTheWire()
      reads `wire, `held, `due, `rclosed, `remoteCut, `handshake, local`received, remote`written
    {
      InOrder(wire, held, due, remote.written, Outgoing(), rclosed, remoteCut)
    }

    ghost predicate Valid()
      reads this, local, remote
    {
      && Shaped() && OnTheWire() && (local.ended ==> lclosed) && (remote.ended ==> rclosed)
      && (remoteBroke || Upstream())
      && (localBroke || Downstream())
    }

    /** How flags and buffers go together; no side is cut without a reason. */
    ghost predicate Shaped()
      reads this, local, remote
    {
      && local != remote && request != [] && handshake <= request
      && (!established ==> handshake == [] && local.received == [] && remote.written == [] && rbuffer == [])
      && (remoteBroke || remoteCut ==> rclosed)
      && (localBroke || localCut ==> lclosed)
      && (localCut ==> localBroke || local.ended || failure)
      && (remoteCut ==> remoteBroke || remote.ended || failure || (lclosed && !established))
    }

    /** No side stays open behind a closed one unless bytes for it are still buffered. */
    predicate HalfCloseDone()
      reads this
    {
      (lclosed && rbuffer == [] ==> rclosed) && (rclosed && lbuffer == [] ==> lclosed)
    }

    /** A side that this event closed because the other had finished was given all the other's bytes.
        They reached the server exactly if the session held nothing back. */
    twostate predicate ClosedInFull()
      reads this, local, remote
    {
      && (!old(rclosed) && rclosed && !remoteCut ==>
            lclosed && remote.written == Outgoing() && due == Outgoing() && (wire == Outgoing() <==> held == []))
      && (!old(lclosed) && lclosed && !localCut ==> rclosed && local.written == remote.received)
    }

    /** Closing is final, and so are its reasons. */
    twostate predicate OnlyCloses()
      reads this
    {
      && (old(lclosed) ==> lclosed)
      && (old(localCut) ==> localCut)
      && (old(rclosed) ==> rclosed && remoteCut == old(remoteCut) && wire == old(wire) && due == old(due) && held == old(held))
    }

    /** `close_stream`; closing a side twice changes nothing. Closing the remote side shuts its socket,
        whatever the session still holds. */
    method CloseStream(isLocal: bool)
      modifies `lclosed, `rclosed, `due, `held
      ensures lclosed == (old(lclosed) || isLocal) && rclosed == (old(rclosed) || !isLocal)
      ensures if rclosed && !old(rclosed) then due == Outgoing() && (wire <= remote.written ==> wire + held == remote.written)
              else due == old(due) && held == old(held)
    {
      if isLocal && !lclosed {
        lclosed := true;
      } else if !isLocal && !rclosed {
        due := Outgoing();
        held := if wire <= remote.written then remote.written[|wire|..] else [];
        rclosed := true;
      }
    }

    /** `close_stream` on a side's own account. */
    method Cut(isLocal: bool)
      requires Valid() && (failure || (!isLocal && lclosed && !established))
      modifies `lclosed, `rclosed, `due, `held, `localCut, `remoteCut
      ensures Valid() && OnlyCloses()
      ensures lclosed == (old(lclosed) || isLocal) && rclosed == (old(rclosed) || !isLocal)
      ensures localCut == (old(localCut) || (isLocal && !old(lclosed)))
      ensures remoteCut == (old(remoteCut) || (!isLocal && !old(rclosed)))
    {
      hide Upstream, Downstream;
      localCut := localCut || (isLocal && !lclosed);
      remoteCut := remoteCut || (!isLocal && !rclosed);
      CloseStream(isLocal);
    }

    /** `check_half_close`. The remote side is closed although the session may hold output: the server
        gets everything exactly if it does not. */
    method CheckHalfClose()
      requires Valid()
      modifies `lclosed, `rclosed, `due, `held
      ensures Valid() && HalfCloseDone() && OnlyCloses()
      ensures rclosed == (old(rclosed) || (lclosed && rbuffer == []))
      ensures lclosed == (old(lclosed) || (rclosed && lbuffer == []))
      ensures !old(rclosed) && rclosed ==>
        && old(lclosed) && remote.written == Outgoing() && due == Outgoing()
        && (wire == Outgoing() <==> wire == remote.written) && (held == [] <==> wire == remote.written)
    {
      if lclosed && !rclosed && rbuffer == [] {
        assert remote.written + [] == remote.written;
        CloseStream(false);
      }
      if rclosed && !lclosed && lbuffer == [] {
        CloseStream(true);
      }
    }

    /** The session passes on some of what it holds. */
    method Transmit()
      requires Valid()
      modifies `wire
      ensures Valid() && old(wire) <= wire && (rclosed ==> wire == old(wire))
    {
      if !rclosed {
        ghost var n: nat :| |wire| <= n <= |remote.written|;
        assert remote.written <= remote.written + rbuffer;
        wire := remote.written[..n];
      }
    }

    /** `flush_remote`: writes once, blocks or fails; in the first two cases the session may keep
        output. */
    method FlushRemote()
      requires Valid()
      modifies `wire, `lclosed, `rclosed, `due, `held, `localCut, `remoteCut, `failure, `flushes
      ensures Valid() && OnlyCloses() && lclosed == old(lclosed) && localCut == old(localCut)
      ensures rclosed == old(rclosed) || (rclosed && remoteCut && failure)
      ensures flushes == old(flushes) + 1 && (old(failure) ==> failure)
    {
      hide Upstream, Downstream, InOrder;
      flushes := flushes + 1;
      if * {
        Transmit();
      } else if * {
        failure := true;
        Cut(false);
      }
    }

    /** `close_stream` of the remote side after a failed write. */
    method BreakRemote()
      requires Shaped() && OnTheWire() && (localBroke || Downstream()) && (local.ended ==> lclosed) && (remote.ended ==> rclosed)
      modifies `remoteBroke, `remoteCut, `rclosed, `due, `held, `lclosed
      ensures Valid() && OnlyCloses() && rclosed && lclosed == old(lclosed) && remoteBroke
      ensures old(rclosed) || remoteCut
    {
      hide Downstream, Upstream;
      remoteBroke := true;
      remoteCut := remoteCut || !rclosed;
      CloseStream(false);
    }

    /** `close_stream` of the local side after its end. */
    method EndLocal()
      requires Shaped() && OnTheWire() && (remoteBroke || Upstream()) && (localBroke || Downstream())
      requires local.ended && (remote.ended ==> rclosed)
      modifies `localCut, `lclosed, `rclosed, `due, `held
      ensures Valid() && OnlyCloses() && lclosed && rclosed == old(rclosed) && (old(lclosed) || localCut)
    {
      hide InOrder, Downstream, Upstream;
      localCut := localCut || !lclosed;
      CloseStream(true);
    }

    method EndRemote()
      requires Shaped() && OnTheWire() && (remoteBroke || Upstream()) && (localBroke || Downstream())
      requires remote.ended && (local.ended ==> lclosed)
      modifies `remoteCut, `lclosed, `rclosed, `due, `held
      ensures Valid() && OnlyCloses() && rclosed && lclosed == old(lclosed) && (old(rclosed) || remoteCut)
    {
      hide Downstream, Upstream;
      remoteCut := remoteCut || !rclosed;
      CloseStream(false);
    }

    /** The copy of `local_to_remote`, and what its result comes to. */
    method CopyUp() returns (r: CopyResult)
      requires Valid() && established
      modifies this`rbuffer, this`remoteBroke, this`rclosed, this`due, this`held, this`remoteCut, this`lclosed, this`localCut
      modifies local`pending, local`received, local`lastRead, local`readCalls, local`ended
      modifies remote`written, remote`lastWrite, remote`writes, remote`broke
      ensures Valid() && OnlyCloses()
      ensures if r.RxBreak? then lclosed && (old(lclosed) || localCut) && AtEnd(local) && rbuffer == []
              else lclosed == old(lclosed) && localCut == old(localCut)
      ensures if r.TxBreak? then rclosed && (old(rclosed) || remoteCut) else rclosed == old(rclosed)
      ensures match r
        case TxBlock => rbuffer != [] && remote.lastWrite.Block? && remote.writes > old(remote.writes)
        case TxBreak => remoteBroke && remote.writes > old(remote.writes)
        case _ => local.readCalls > old(local.readCalls) && (local.lastRead.Block? || AtEnd(local))
      ensures rbuffer == [] || (r.TxBlock? && remote.lastWrite.Block? && remote.writes > old(remote.writes))
    {
      hide InOrder, Downstream;
      ghost var buffered, sent, received := rbuffer, remote.written, local.received;
      ghost var got;
      r, rbuffer, got := CopyStream(local, remote, rbuffer);
      MoreToGo(handshake, received, got, sent, buffered, remoteBroke);
      StaysInOrder(wire, held, due, sent, handshake + received, rclosed, remoteCut, remote.written, Outgoing());
      if r.TxBreak? {
        BreakRemote();
      } else if r.RxBreak? {
        EndLocal();
      }
    }

    /** `local_to_remote`. */
    method LocalToRemote()
      requires Valid()
      modifies this`rbuffer, this`lclosed, this`rclosed, this`localCut, this`remoteCut, this`remoteBroke
      modifies this`wire, this`due, this`held, this`failure, this`flushes
      modifies local`pending, local`received, local`lastRead, local`readCalls, local`ended
      modifies remote`written, remote`lastWrite, remote`writes, remote`broke
      ensures Valid() && OnlyCloses()
      ensures rclosed && !old(rclosed) ==> remoteCut
      ensures lclosed && !old(lclosed) ==> localCut && (established ==> AtEnd(local) && rbuffer == [])
      ensures established ==>
        rbuffer == [] || (remote.lastWrite.Block? && remote.writes > old(remote.writes))
      ensures established ==>
        || (local.readCalls > old(local.readCalls) && (local.lastRead.Block? || AtEnd(local)))
        || (remote.writes > old(remote.writes) && (rbuffer != [] || remoteBroke))
      ensures established && !rclosed ==> flushes > old(flushes)
      ensures flushes >= old(flushes)
    {
      hide InOrder, Upstream, Downstream;
      if !established {
        if * {
          // the socket is not active any more
          failure := true;
          Cut(true);
        }
        return;
      }
      var r := CopyUp();
      Transmit();
      if !rclosed {
        FlushRemote();
      }
    }

    /** `close_stream` of the local side after a failed write. */
    method BreakLocal()
      requires Shaped() && OnTheWire() && (remoteBroke || Upstream()) && (local.ended ==> lclosed) && (remote.ended ==> rclosed)
      modifies `localBroke, `localCut, `lclosed, `rclosed, `due, `held
      ensures Valid() && OnlyCloses() && lclosed && rclosed == old(rclosed) && localBroke
      ensures old(lclosed) || localCut
    {
      hide InOrder, Downstream, Upstream;
      localBroke := true;
      localCut := localCut || !lclosed;
      CloseStream(true);
    }

    /** The copy of `remote_to_local`, before its result is looked at. */
    method CopyDown() returns (r: CopyResult)
      requires Valid()
      modifies this`lbuffer, this`localBroke, this`lclosed, this`localCut, this`rclosed, this`remoteCut, this`due, this`held
      modifies remote`pending, remote`received, remote`lastRead, remote`readCalls, remote`ended
      modifies local`written, local`lastWrite, local`writes, local`broke
      ensures Valid() && OnlyCloses()
      ensures if r.RxBreak? then rclosed && (old(rclosed) || remoteCut) && AtEnd(remote) && lbuffer == []
              else rclosed == old(rclosed) && remoteCut == old(remoteCut)
      ensures if r.TxBreak? then lclosed && (old(lclosed) || localCut) else lclosed == old(lclosed) && localCut == old(localCut)
      ensures match r
        case TxBlock => lbuffer != [] && local.lastWrite.Block? && local.writes > old(local.writes)
        case TxBreak => localBroke && local.writes > old(local.writes)
        case _ => remote.readCalls > old(remote.readCalls) && (remote.lastRead.Block? || AtEnd(remote))
      ensures lbuffer == [] || (r.TxBlock? && local.lastWrite.Block? && local.writes > old(local.writes))
    {
      hide InOrder, Upstream;
      ghost var buffered, sent, received := lbuffer, local.written, remote.received;
      ghost var got;
      r, lbuffer, got := CopyStream(remote, local, lbuffer);
      MoreToGo([], received, got, sent, buffered, localBroke);
      assert [] + received == received && [] + (received + got) == received + got;
      if r.TxBreak? {
        BreakLocal();
      } else if r.RxBreak? {
        EndRemote();
      }
    }

    /** `remote_to_local`. The local socket is also closed here once nothing is left for it. */
    method RemoteToLocal()
      requires Valid()
      modifies this`lbuffer, this`lclosed, this`rclosed, this`localCut, this`remoteCut, this`localBroke, this`due, this`held
      modifies remote`pending, remote`received, remote`lastRead, remote`readCalls, remote`ended
      modifies local`written, local`lastWrite, local`writes, local`broke
      ensures Valid() && OnlyCloses()
      ensures rclosed && !old(rclosed) ==> remoteCut && AtEnd(remote) && lbuffer == []
      ensures lclosed && !old(lclosed) && !localCut ==> rclosed && lbuffer == [] && !localBroke
      ensures lbuffer == [] || (local.lastWrite.Block? && local.writes > old(local.writes))
      ensures
        || (remote.readCalls > old(remote.readCalls) && (remote.lastRead.Block? || AtEnd(remote)))
        || (local.writes > old(local.writes) && (lbuffer != [] || localBroke))
    {
      hide Upstream, Downstream, OnTheWire;
      var r := CopyDown();
      var sendQueueEmpty: bool := *;
      if rclosed && !lclosed && lbuffer == [] && sendQueueEmpty {
        CloseStream(true);
      }
    }

    /** `do_local`. */
    method DoLocal(readable: bool, writeable: bool)
      requires Valid()
      modifies this, local, remote
      ensures Valid() && HalfCloseDone() && ClosedInFull() && OnlyCloses()
      ensures established == old(established) && handshake == old(handshake)
      ensures readable && established ==> rbuffer == [] || remote.writes > old(remote.writes)
      ensures readable && established ==>
        local.readCalls > old(local.readCalls) || (remote.writes > old(remote.writes) && (rbuffer != [] || remoteBroke))
      ensures writeable ==>
        remote.readCalls > old(remote.readCalls) || (local.writes > old(local.writes) && (lbuffer != [] || localBroke))
      ensures writeable ==> lbuffer == [] || local.writes > old(local.writes)
    {
      hide Upstream, Downstream, OnTheWire;
      if readable {
        LocalToRemote();
      }
      if writeable {
        RemoteToLocal();
      }
      Finish();
    }

    /** The end of both handlers. */
    method Finish()
      requires Valid()
      modifies `lclosed, `rclosed, `due, `held
      ensures Valid() && HalfCloseDone() && OnlyCloses()
      ensures !old(rclosed) && rclosed ==>
        lclosed && remote.written == Outgoing() && due == Outgoing() && (wire == Outgoing() <==> held == [])
      ensures lclosed && !localBroke && !old(lclosed) ==> rclosed && local.written == remote.received
      ensures lclosed && !localBroke && lbuffer == [] ==> local.written == remote.received
    {
      CheckHalfClose();
      assert local.written + [] == local.written;
    }

    /** The first writable event of the remote side sends the request; false when that failed. The
        code does not look at how much of it the session accepted. */
    method Establish() returns (ok: bool)
      requires Valid() && !established && !lclosed
      modifies this`established, this`handshake, this`lclosed, this`rclosed, this`localCut, this`remoteCut
      modifies this`due, this`held, this`failure
      modifies remote`written, remote`lastWrite, remote`writes, remote`broke
      ensures Valid() && OnlyCloses()
      ensures remote.writes >= old(remote.writes)
      ensures ok ==>
        && established && lclosed == old(lclosed) && rclosed == old(rclosed)
        && remote.lastWrite.Done? && remote.lastWrite.n <= |request| && handshake == request[..remote.lastWrite.n]
        && (handshake == request <==> remote.lastWrite == Done(|request|))
      ensures !ok ==> !established && handshake == old(handshake) && lclosed && rclosed && localCut && (rclosed && !old(rclosed) ==> remoteCut)
    {
      if * {
        // the local socket has no endpoint
        Refuse();
        return false;
      }
      var r := remote.Write(request);
      if r.Done? {
        hide Downstream;
        established := true;
        handshake := request[..r.n];
        return true;
      }
      Refuse();
      return false;
    }

    /** `close`: both sides, because the request cannot be sent. */
    method Refuse()
      requires Valid()
      modifies `failure, `lclosed, `rclosed, `localCut, `remoteCut, `due, `held
      ensures Valid() && OnlyCloses() && lclosed && rclosed && failure
      ensures localCut == (old(localCut) || !old(lclosed)) && remoteCut == (old(remoteCut) || !old(rclosed))
    {
      hide InOrder, Upstream, Downstream;
      failure := true;
      Cut(true);
      Cut(false);
    }

    /** The writable half of `do_remote`; false when it returns early. */
    method OnRemoteWriteable() returns (goOn: bool)
      requires Valid()
      modifies this, local, remote
      ensures lbuffer == old(lbuffer) && localBroke == old(localBroke) && local.writes == old(local.writes)
      ensures remote.readCalls == old(remote.readCalls) && flushes >= old(flushes)
      ensures Valid() && OnlyCloses()
      ensures rclosed && !old(rclosed) ==> remoteCut
      ensures lclosed && !old(lclosed) ==> localCut
      ensures old(established) ==> established && handshake == old(handshake)
      ensures goOn <==> established
      ensures !goOn ==> lclosed && rclosed
      ensures goOn ==> rbuffer == [] || remote.writes > old(remote.writes)
      ensures goOn ==> local.readCalls > old(local.readCalls) || (remote.writes > old(remote.writes) && (rbuffer != [] || remoteBroke))
    {
      hide InOrder, Upstream, Downstream;
      if !established {
        if lclosed {
          Cut(false);
          return false;
        }
        var ok := Establish();
        if !ok {
          return false;
        }
      }
      LocalToRemote();
      return true;
    }

    /** The readable half of `do_remote`. */
    method OnRemoteReadable()
      requires Valid()
      modifies this, local, remote
      ensures Valid() && OnlyCloses()
      ensures established == old(established) && handshake == old(handshake) && rbuffer == old(rbuffer)
      ensures remoteBroke == old(remoteBroke) && remote.writes == old(remote.writes) && local.readCalls == old(local.readCalls)
      ensures rclosed && !old(rclosed) ==> remoteCut
      ensures lclosed && !old(lclosed) && !localCut ==> rclosed && lbuffer == [] && !localBroke
      ensures flushes > old(flushes) && (lbuffer == [] || local.writes > old(local.writes))
      ensures remote.readCalls > old(remote.readCalls) || (local.writes > old(local.writes) && (lbuffer != [] || localBroke))
    {
      hide InOrder, Upstream, Downstream;
      RemoteToLocal();
      FlushRemote();
    }

    /** `do_remote`. */
    method DoRemote(readable: bool, writeable: bool)
      requires Valid()
      modifies this, local, remote
      ensures Valid() && HalfCloseDone() && ClosedInFull() && OnlyCloses()
      ensures old(established) ==> established && handshake == old(handshake)
      ensures writeable && !established ==> lclosed && rclosed
      ensures writeable && established ==> rbuffer == [] || remote.writes > old(remote.writes)
      ensures writeable && established ==>
        local.readCalls > old(local.readCalls) || (remote.writes > old(remote.writes) && (rbuffer != [] || remoteBroke))
      ensures readable && (established || !writeable) ==>
        && flushes > old(flushes)
        && (remote.readCalls > old(remote.readCalls) || (local.writes > old(local.writes) && (lbuffer != [] || localBroke)))
      ensures readable && (established || !writeable) ==> lbuffer == [] || local.writes > old(local.writes)
    {
      hide Upstream, Downstream, OnTheWire;
      if writeable {
        var goOn := OnRemoteWriteable();
        if !goOn {
          return;
        }
      }
      if readable {
        OnRemoteReadable();
      }
      Finish();
    }

    /** What the invariants say about the bytes. */
    lemma Summary()
      requires Valid() && HalfCloseDone()
      ensures handshake <= request && wire <= Outgoing()
      ensures !remoteBroke ==> remote.written + rbuffer == Outgoing()
      ensures !localBroke ==> local.written + lbuffer == remote.received
      ensures lclosed && rbuffer == [] && !remoteBroke ==> rclosed && remote.written == Outgoing()
      ensures rclosed && lbuffer == [] && !localBroke ==> lclosed && local.written == remote.received
      ensures rclosed && !remoteCut ==> wire <= due <= Outgoing() && (wire == due <==> held == [])
      ensures (local.ended ==> lclosed) && (remote.ended ==> rclosed)
      ensures localCut ==> localBroke || local.ended || failure
      ensures remoteCut ==> remoteBroke || remote.ended || failure || (lclosed && !established)
    {
      assert remote.written + [] == remote.written && local.written + [] == local.written;
    }
  }

  /** Reading appends to what should go out, and to what is accepted or buffered. */
  lemma MoreToGo(handshake: seq<byte>, received: seq<byte>, got: seq<byte>, sent: seq<byte>, buffered: seq<byte>, broke: bool)
    requires broke || sent + buffered == handshake + received
    ensures broke || sent + (buffered + got) == handshake + (received + got)
    ensures handshake + received <= handshake + (received + got)
  {
    assert sent + (buffered + got) == sent + buffered + got;
    assert handshake + (received + got) == handshake + received + got;
  }

  /** Over any sequence of events and I/O outcomes: until a write to a side breaks, that side has
      accepted what it should get, up to what is buffered, and all of it once the other side is closed
      and nothing is buffered; no half-closed connection is left behind. The server's socket took a
      prefix of the request and the local bytes, whatever broke. If the remote side was closed
      because the local one had finished, everything due by then got out exactly if the session held
      nothing back at that moment. */
  method Serve(conn: Connection, events: seq<Event>)
    requires conn.Valid() && conn.HalfCloseDone()
    modifies conn, conn.local, conn.remote
    ensures conn.Valid() && conn.HalfCloseDone()
    ensures conn.handshake <= conn.request && conn.wire <= conn.handshake + conn.local.received
    ensures !conn.remoteBroke ==> conn.remote.written + conn.rbuffer == conn.handshake + conn.local.received
    ensures !conn.localBroke ==> conn.local.written + conn.lbuffer == conn.remote.received
    ensures conn.lclosed && conn.rbuffer == [] && !conn.remoteBroke ==>
      conn.rclosed && conn.remote.written == conn.handshake + conn.local.received
    ensures conn.rclosed && conn.lbuffer == [] && !conn.localBroke ==>
      conn.lclosed && conn.local.written == conn.remote.received
    ensures conn.rclosed && !conn.remoteCut ==>
      conn.wire <= conn.due <= conn.handshake + conn.local.received && (conn.wire == conn.due <==> conn.held == [])
    ensures old(conn.rclosed) ==> conn.rclosed && conn.wire == old(conn.wire) && conn.due == old(conn.due)
    ensures old(conn.established) ==> conn.handshake == old(conn.handshake)
  {
    var i := 0;
    while i < |events|
      invariant i <= |events| && conn.Valid() && conn.HalfCloseDone()
      invariant old(conn.rclosed) ==> conn.rclosed && conn.wire == old(conn.wire) && conn.due == old(conn.due)
      invariant old(conn.established) ==> conn.established && conn.handshake == old(conn.handshake)
    {
      match events[i] {
        case LocalEvent(readable, writeable) =>
          conn.DoLocal(readable, writeable);
        case RemoteEvent(readable, writeable) =>
          conn.DoRemote(readable, writeable);
      }
      i := i + 1;
    }
    conn.Summary();
  }

  /** A half-close that loses a byte: the local side sent it and ended while the session could not
      pass anything on. The byte never reaches the server, whatever happens afterwards. */
  method HalfCloseLosesBytes(conn: Connection, last: byte, events: seq<Event>)
    requires conn.Valid() && conn.established && conn.handshake == conn.request && conn.local.received == [last]
    requires conn.lclosed && !conn.rclosed && conn.rbuffer == [] && conn.wire == conn.request
    modifies conn, conn.local, conn.remote
    ensures conn.Valid() && conn.rclosed && conn.wire == conn.request < conn.request + [last] == conn.due
    ensures conn.handshake == conn.request
  {
    conn.CheckHalfClose();
    Serve(conn, events);
  }

  /** A new connection whose request went out whole: outcomes that `Establish` and `Transmit` allow. */
  method Established(request: seq<byte>, fromLocal: seq<byte>) returns (conn: Connection)
    requires request != []
    ensures fresh(conn) && fresh(conn.local) && fresh(conn.remote) && conn.Valid() && conn.HalfCloseDone()
    ensures conn.established && conn.handshake == conn.request == conn.wire == conn.remote.written == request
    ensures conn.local.pending == fromLocal && conn.local.received == [] && conn.rbuffer == []
    ensures !conn.lclosed && !conn.rclosed && !conn.remoteBroke
    ensures conn.localBroke || conn.Downstream()
  {
    var local := new Stream(fromLocal);
    var remote := new Stream([]);
    conn := new Connection(local, remote, request);
    remote.written, remote.lastWrite, remote.writes := request, Done(|request|), 1;
    conn.established, conn.handshake, conn.wire := true, request, request;
    assert conn.Outgoing() == request;
  }

  /** A run from a new connection that gets there: the local side sends its byte and ends, the session
      accepts the byte and passes nothing on. These are outcomes that `CopyUp` and `Cut` allow. */
  method LosingRun(request: seq<byte>, last: byte, events: seq<Event>) returns (conn: Connection)
    requires request != []
    ensures fresh(conn) && conn.Valid() && conn.handshake == conn.request == request && conn.rclosed
    ensures conn.wire == request < request + [last] == conn.due
  {
    conn := Established(request, [last]);
    var local, remote := conn.local, conn.remote;
    local.pending, local.received, local.lastRead, local.readCalls, local.ended := [], [last], Done(0), local.readCalls + 2, true;
    remote.written, remote.lastWrite, remote.writes := request + [last], Done(1), remote.writes + 1;
    conn.localCut, conn.lclosed := true, true;
    assert conn.Outgoing() == request + [last] && request <= request + [last];
    assert remote.written + conn.rbuffer == request + [last];
    HalfCloseLosesBytes(conn, last, events);
  }
}

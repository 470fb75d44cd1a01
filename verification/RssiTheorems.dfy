/** What holds over every run of the RSSI transport. */
module RssiTheorems {
  import opened Wrappers
  import opened CircularIndex
  import opened RssiSegments
  import opened RssiEndpoint
  import opened RssiInvariant
  import opened RssiLink
  import opened RssiSystem

  /** End-to-end safety: what one user has read is, in order and without gap or repetition, what
      the other user has written first, in both directions and whatever the network loses. */
  lemma EndToEnd(s: System, acts: seq<Action>)
    requires Init(s) && CanRun(s, acts)
    ensures var t := Run(s, acts);
            && t.s.user.read <= t.c.user.written && t.s.e.rx.delivered <= t.c.e.tx.taken
            && t.c.user.read <= t.s.user.written && t.c.e.rx.delivered <= t.s.e.tx.taken
  {
    InitInv(s);
    RunInv(s, acts);
    var t := Run(s, acts);
    ReadPrefix(t.c, t.s, t.cs, t.sc);
    ReadPrefix(t.s, t.c, t.sc, t.cs);
  }

  lemma ReadPrefix(x: Side, y: Side, ch: seq<Flight>, rv: seq<Flight>)
    requires Pair(x.e, y.e, ch, rv) && SideOk(x) && SideOk(y)
    ensures y.user.read <= x.user.written && y.e.rx.delivered <= x.e.tx.taken
  {
    if y.e.started && x.e.started {
      DatsPrefix(y.e.rx.got, x.e.tx.sent);
      assert y.user.read <= y.e.rx.delivered <= x.e.tx.taken <= x.user.written;
    }
  }

  /** Reachable states. */
  ghost predicate Reachable(t: System) {
    exists s: System, acts: seq<Action> :: Init(s) && CanRun(s, acts) && Run(s, acts) == t
  }

  lemma ReachableInv(t: System)
    requires Reachable(t)
    ensures Inv(t)
  {
    var s: System, acts: seq<Action> :| Init(s) && CanRun(s, acts) && Run(s, acts) == t;
    InitInv(s);
    RunInv(s, acts);
  }

  /** x discards only what y has taken in: those payloads are in y's output queue or beyond, and
      y acknowledges exactly up to the front of its buffer. */
  ghost predicate NoEarlyAck(x: Endpoint, y: Endpoint) {
    && 0 <= Base(x.tx) <= |x.tx.sent|
    && x.tx.sent[..Base(x.tx)] <= y.rx.got
    && Dats(x.tx.sent[..Base(x.tx)]) <= y.rx.delivered
    && (y.rx.got != [] ==> y.rx.oldest == Num(x.tx.isn, |y.rx.got|) && Nxt(y.rx.lastSeqRecv) == y.rx.oldest)
  }

  /** The one exception is a peer that gave up before it had heard anything; see
      RssiStray.DiscardsExactly. */
  lemma DiscardedWasDelivered(t: System)
    requires Reachable(t) && t.c.e.started && t.s.e.started
    ensures !QuitDeaf(t.s.e) ==> NoEarlyAck(t.c.e, t.s.e)
    ensures !QuitDeaf(t.c.e) ==> NoEarlyAck(t.s.e, t.c.e)
  {
    ReachableInv(t);
    NoEarlyAckOf(t.c.e, t.s.e, t.cs, t.sc);
    NoEarlyAckOf(t.s.e, t.c.e, t.sc, t.cs);
  }

  lemma NoEarlyAckOf(x: Endpoint, y: Endpoint, ch: seq<Flight>, rv: seq<Flight>)
    requires Pair(x, y, ch, rv) && x.started && y.started
    ensures !QuitDeaf(y) ==> NoEarlyAck(x, y)
  {
    hide Num, Nxt, Dats, Local, Link, QuitDeaf;
    if !QuitDeaf(y) {
      DiscardedIsReceived(x, y, ch, rv);
      DatsPrefix(x.tx.sent[..Base(x.tx)], y.rx.got);
    }
  }

  lemma DiscardedIsReceived(x: Endpoint, y: Endpoint, ch: seq<Flight>, rv: seq<Flight>)
    requires Pair(x, y, ch, rv) && x.started && y.started && !QuitDeaf(y)
    ensures 0 <= Base(x.tx) <= |x.tx.sent| && x.tx.sent[..Base(x.tx)] <= y.rx.got && y.rx.delivered == Dats(y.rx.got)
    ensures y.rx.got != [] ==> y.rx.oldest == Num(x.tx.isn, |y.rx.got|) && Nxt(y.rx.lastSeqRecv) == y.rx.oldest
  {
    hide Num, Dats, AckOk;
  }

  function Me(t: System, client: bool): Endpoint {
    if client then t.c.e else t.s.e
  }

  function Incoming(t: System, client: bool): seq<Flight> {
    if client then t.sc else t.cs
  }

  /** What the invariant says about a sender and the acknowledgements for it. */
  lemma AckContext(t: System, client: bool)
    requires Inv(t) && Me(t, client).started && !QuitDeaf(Me(t, !client))
    ensures var me, peer := Me(t, client).tx, Me(t, !client).rx;
            && AcksOk(me, peer, Incoming(t, client)) && RingOk(me)
            && |me.ring.segs| <= 128 && peer.got <= me.sent
  {
    hide Num, Nxt, AcksOk, RingOk;
  }

  /** An arriving acknowledgement removes exactly the segments up to the one it names, and its
      sender has taken all of them in. */
  lemma AckRemovesPrefix(t: System, client: bool)
    requires Reachable(t) && Me(t, client).started && !QuitDeaf(Me(t, !client))
    requires Incoming(t, client) != [] && Incoming(t, client)[0].seg.ack
    ensures var f := Incoming(t, client)[0];
            var me := Me(t, client).tx;
            && Base(me) + AckCount(me.ring, f.seg.ackNo) == f.ack <= |Me(t, !client).rx.got|
            && Nxt(f.seg.ackNo) == Num(me.isn, f.ack)
  {
    hide Reachable, AckCount, Num, Nxt, Inv, RingOk;
    ReachableInv(t);
    AckContext(t, client);
    var me, peer, inc := Me(t, client).tx, Me(t, !client).rx, Incoming(t, client);
    assert AckOk(me, peer, inc[0]);
    NumNext(me.isn, inc[0].ack - 1);
    AckExact(me, peer, inc);
  }

  /** When a sender keeps nothing for retransmission, all it has taken from its user has been
      handed on at the other end. */
  lemma AllDelivered(t: System, client: bool)
    requires Reachable(t) && t.c.e.started && t.s.e.started
    requires !QuitDeaf(Me(t, !client)) && RingSize(Me(t, client)) == 0
    ensures Me(t, !client).rx.delivered == Me(t, client).tx.taken
  {
    hide Reachable, Local, Link, SideOk, Dats;
    ReachableInv(t);
    AllDeliveredOf(t.c.e, t.s.e, t.cs, t.sc);
    AllDeliveredOf(t.s.e, t.c.e, t.sc, t.cs);
  }

  lemma AllDeliveredOf(x: Endpoint, y: Endpoint, ch: seq<Flight>, rv: seq<Flight>)
    requires Pair(x, y, ch, rv) && x.started && y.started
    ensures !QuitDeaf(y) && RingSize(x) == 0 ==> y.rx.delivered == x.tx.taken
  {
    hide Dats, Local, DataOk, AcksOk;
    TakenIsSent(x);
    if !QuitDeaf(y) && RingSize(x) == 0 {
      DiscardedIsReceived(x, y, ch, rv);
      assert y.rx.got == x.tx.sent;
    }
  }

  lemma TakenIsSent(x: Endpoint)
    requires Local(x) && x.started
    ensures x.tx.taken == Dats(x.tx.sent)
  {
  }

  /** An arriving payload that is next in line is handed on at once if the output queue has room. */
  lemma NextIsDelivered(t: System, client: bool, isn: Byte)
    requires Reachable(t) && IsOpen(Me(t, client).st) && !OutFull(Me(t, client))
    requires Incoming(t, client) != [] && !NoData(Incoming(t, client)[0].seg)
    requires Incoming(t, client)[0].idx == |Me(t, client).rx.got|
    requires !Incoming(t, client)[0].seg.nul
    ensures var me, seg := Me(t, client), Incoming(t, client)[0].seg;
            && EventEnabled(me, Arrives(isn), Incoming(t, client))
            && me.rx.delivered + [seg.payload] <= Perform(me, Arrives(isn), Incoming(t, client)).rx.delivered
  {
    hide Reachable, HandleRx;
    ReachableInv(t);
    var me, peer := Me(t, client), Me(t, !client);
    var out, inc := if client then t.cs else t.sc, Incoming(t, client);
    NextInLine(me, peer, out, inc);
    ArrivalDelivered(me, inc[0].seg, isn);
  }

  lemma NextInLine(me: Endpoint, peer: Endpoint, out: seq<Flight>, inc: seq<Flight>)
    requires Pair(me, peer, out, inc) && ControlOk(me) && IsOpen(me.st) && me.wire == []
    requires inc != [] && !NoData(inc[0].seg) && inc[0].idx == |me.rx.got| && !inc[0].seg.nul
    ensures var seg := inc[0].seg;
            && IsPureAck(seg) && seg.payload != [] && seg.seqNo == me.rx.oldest
            && Local(me) && Established(me) && !me.rstSent && |me.rx.window| >= 1
  {
    hide Num, Dats;
    assert FlightOk(peer.tx, MaxSegs(me.cfg), inc[0]);
    MaxSegsBound(me.cfg);
  }

  lemma ArrivalDelivered(me: Endpoint, seg: Segment, isn: Byte)
    requires Local(me) && Established(me) && !me.rstSent && IsOpen(me.st) && me.wire == [] && |me.rx.window| >= 1
    requires IsPureAck(seg) && seg.payload != [] && seg.seqNo == me.rx.oldest && !OutFull(me)
    ensures me.rx.delivered + [seg.payload] <= HandleRx(me, seg, isn).rx.delivered
  {
    hide Local, Drain, Reply, RingAck;
    AckLocal(me, seg);
    var e2 := ProcessAckNumber(me, seg);
    StoredDelivered(me.st, e2, seg);
    var e3 := RxData(me.st, e2, seg);
    RxDataLocal(me.st, e2, seg);
    ReplyLocal(me.st, e3, seg);
  }

  /** Handed on if and only if there is a payload: a DAT segment without any is taken for a bare
      acknowledgement. */
  lemma DeliveredExactly(me: Endpoint, seg: Segment, isn: Byte)
    requires Local(me) && Established(me) && !me.rstSent && IsOpen(me.st) && me.wire == [] && |me.rx.window| >= 1
    requires IsPureAck(seg) && seg.seqNo == me.rx.oldest && !OutFull(me)
    ensures me.rx.delivered + [seg.payload] <= HandleRx(me, seg, isn).rx.delivered <==> seg.payload != []
  {
    hide Local, Reply, RingAck, HandleRx;
    if seg.payload != [] {
      ArrivalDelivered(me, seg, isn);
    } else {
      BareKeepsRx(me, seg, isn);
    }
  }

  lemma BareKeepsRx(me: Endpoint, seg: Segment, isn: Byte)
    requires Local(me) && Established(me) && !me.rstSent && IsOpen(me.st) && me.wire == [] && IsAckOnly(seg)
    ensures HandleRx(me, seg, isn).rx == me.rx
  {
    hide Local, Reply, RingAck;
    var e1 := me.(ctl := me.ctl.(numCak := me.ctl.numCak - 1));
    LocalFrame(me, e1);
    AckLocal(e1, seg);
    ReplyLocal(me.st, ProcessAckNumber(e1, seg), seg);
  }

  lemma StoredDelivered(self: State, e: Endpoint, seg: Segment)
    requires IsOpen(self) && |e.rx.window| >= 1 && seg.seqNo == e.rx.oldest && !OutFull(e)
    requires IsPureAck(seg) && seg.payload != [] && Local(e) && Established(e)
    ensures e.rx.delivered + [seg.payload] <= RxData(self, e, seg).rx.delivered
  {
    var r := Store(e.rx, seg);
    assert DrainOk(r) by { StoreOk(e.rx, seg); }
    var r1 := PopFront(r).(delivered := r.delivered + [seg.payload]);
    PopFrontOk(r, r1);
    DrainLoopOk(r1, e.outQ + [seg.payload], OutDepth(e.cfg));
  }

  /** The ring is a queue of consecutively numbered segments that never outgrows the window. */
  ghost predicate RingInWindow(e: Endpoint) {
    && RingSize(e) <= (if e.par.peerOssMX > 1 then e.par.peerOssMX else 1) <= e.tx.ring.capa
    && (forall j :: 0 <= j < RingSize(e) ==> e.tx.ring.segs[j].seqNo == Num(e.tx.ring.oldest, j))
    && (RingSize(e) > 0 && !e.rstSent ==> e.tx.ring.segs[RingSize(e) - 1].seqNo == e.tx.lastSeqSent)
  }

  lemma WindowBound(t: System)
    requires Reachable(t)
    ensures t.c.e.started ==> RingInWindow(t.c.e)
    ensures t.s.e.started ==> RingInWindow(t.s.e)
  {
    ReachableInv(t);
    if t.c.e.started {
      RingInWindowOf(t.c.e);
    }
    if t.s.e.started {
      RingInWindowOf(t.s.e);
    }
  }

  lemma RingInWindowOf(e: Endpoint)
    requires Local(e) && e.started
    ensures RingInWindow(e)
  {
    var t := e.tx;
    forall j | 0 <= j < RingSize(e)
      ensures t.ring.segs[j].seqNo == Num(t.ring.oldest, j) == Num(t.isn, Base(t) + j)
    {
      assert Carries(t.ring.segs[j], t.sent[Base(t) + j], Num(t.isn, Base(t) + j));
      NumAdd(t.isn, Base(t), j);
    }
  }

  /** An enabled event meets a handler that throws, which ends the thread, if and only if it is an
      acknowledge or NUL time-out before the connection is up. */
  predicate Fails(e: Endpoint, ev: Event, inc: seq<Flight>) {
    EventEnabled(e, ev, inc) && Throws(e.st, ev)
  }

  predicate TimeoutTooEarly(e: Endpoint, ev: Event) {
    && (e.st.LISTEN? || e.st.CLNT_WAIT_SYN_ACK? || e.st.SERV_WAIT_SYN_ACK?)
    && ((ev.NulExpires? && e.ctl.nulT) || (ev.AckExpires? && e.ctl.ackT))
  }

  /** Wherever an endpoint waits: the input handler is enabled exactly in OPEN, the output handler
      only in the two OPEN states, the NUL timer is armed except in LISTEN (so some timer always
      is), and no enabled event but a time-out that comes too early meets a handler that throws.
      In the two other states before the connection is up that one is always possible. */
  ghost predicate Controlled(e: Endpoint, inc: seq<Flight>) {
    && (Waiting(e.st) ==>
          && (e.ctl.usrI <==> e.st.OPEN?)
          && (e.ctl.usrO ==> IsOpen(e.st))
          && (!e.st.LISTEN? ==> e.ctl.nulT))
    && (forall ev :: Fails(e, ev, inc) <==> TimeoutTooEarly(e, ev))
    && (e.st.CLNT_WAIT_SYN_ACK? || e.st.SERV_WAIT_SYN_ACK? ==> Fails(e, NulExpires, inc))
  }

  lemma ControlInvariant(t: System)
    requires Reachable(t)
    ensures Controlled(t.c.e, t.sc) && Controlled(t.s.e, t.cs)
    ensures (t.c.e.rstSent ==> t.c.e.st.CLOSED?) && (t.s.e.rstSent ==> t.s.e.st.CLOSED?)
  {
    hide Local, Link, Reachable;
    ReachableInv(t);
    ControlledOf(t.c.e, t.sc);
    ControlledOf(t.s.e, t.cs);
  }

  lemma ControlledOf(e: Endpoint, inc: seq<Flight>)
    requires ControlOk(e)
    ensures Controlled(e, inc)
  {
    forall ev ensures Fails(e, ev, inc) <==> TimeoutTooEarly(e, ev) {
      assert ControlOk(e);
    }
  }
}

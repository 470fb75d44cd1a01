/** The one way in which an RSSI sender discards what its peer has not taken in: the peer gave up
    before it had heard the sender's SYN, and the acknowledgement number in its RST, which nothing
    has set yet, happens to name a segment that the sender still keeps. */
module RssiStray {
  import opened Wrappers
  import opened CircularIndex
  import opened RssiSegments
  import opened RssiEndpoint
  import opened RssiInvariant
  import opened RssiLink
  import opened RssiSystem
  import opened RssiTheorems

  /** What an event takes off the front of the ring. */
  function Discards(e: Endpoint, ev: Event, inc: seq<Flight>): nat {
    if ev.Arrives? && inc != [] && Admits(e, inc[0].seg, ev.isn) && inc[0].seg.ack then AckCount(e.tx.ring, inc[0].seg.ackNo)
    else 0
  }

  // ----- only an arriving acknowledgement discards anything

  lemma {:induction false} RetransmitBase(e: Endpoint, k: nat)
    requires k <= RingSize(e)
    ensures var e' := RetransmitFrom(e, k); e'.tx.sent == e.tx.sent && RingSize(e') == RingSize(e) && e'.rx == e.rx
    decreases RingSize(e) - k
  {
    if k < RingSize(e) {
      RetransmitBase(ResendAt(e, k), k + 1);
    }
  }

  lemma RexBase(e: Endpoint)
    ensures Base(ProcessRex(e).tx) == Base(e.tx) && ProcessRex(e).rx == e.rx
  {
    hide RetransmitFrom;
    RetransmitBase(CountRex(e), 0);
  }

  lemma SendBase(self: State, e: Endpoint)
    ensures Base(SendDatOrAck(self, e).tx) == Base(e.tx) && SendDatOrAck(self, e).rx == e.rx
  {
  }

  lemma ReplyBase(self: State, e: Endpoint, seg: Segment)
    ensures Base(Reply(self, e, seg).tx) == Base(e.tx) && Reply(self, e, seg).rx == e.rx
  {
    hide ProcessRex, SendDatOrAck;
    RexBase(RxBusy(e, seg));
    SendBase(self, CountSegment(RxBusy(e, seg)));
  }

  lemma {:induction false} DrainLoopGot(r: Rx, outQ: seq<Payload>, depth: nat)
    ensures |r.got| <= |DrainLoop(r, outQ, depth).rx.got|
    decreases Ready(r.window)
  {
    if r.window != [] && r.window[0].Some? {
      var seg := r.window[0].value;
      var r' := PopFront(r);
      if seg.nul {
        DrainLoopGot(r', outQ, depth);
      } else if |outQ| < depth {
        DrainLoopGot(r'.(delivered := r'.delivered + [seg.payload]), outQ + [seg.payload], depth);
      }
    }
  }

  lemma DrainBase(self: State, e: Endpoint)
    ensures Drain(self, e).tx == e.tx && |e.rx.got| <= |Drain(self, e).rx.got|
  {
    hide DrainLoop;
    DrainLoopGot(e.rx, e.outQ, OutDepth(e.cfg));
  }

  lemma DataBase(self: State, e: Endpoint, seg: Segment)
    ensures RxData(self, e, seg).tx == e.tx && |e.rx.got| <= |RxData(self, e, seg).rx.got|
  {
    hide Drain;
    if (seg.payload != [] || seg.nul) && CanAccept(e.rx, seg.seqNo) {
      DrainBase(self, e.(rx := Store(e.rx, seg)));
    }
  }

  lemma AcceptedBase(self: State, e: Endpoint, seg: Segment)
    ensures var e' := RxAccepted(self, e, seg);
            && Base(e'.tx) == Base(e.tx) + (if seg.ack then AckCount(e.tx.ring, seg.ackNo) else 0)
            && |e.rx.got| <= |e'.rx.got|
  {
    hide RxData, Reply, AckCount;
    var e1 := ProcessAckNumber(e, seg);
    DataBase(self, e1, seg);
    ReplyBase(self, RxData(self, e1, seg), seg);
  }

  ghost predicate RingKept(e: Endpoint, e1: Endpoint) {
    e1.tx.sent == e.tx.sent && e1.tx.ring.segs == e.tx.ring.segs && e1.tx.ring.oldest == e.tx.ring.oldest
  }

  lemma GreetBase(e: Endpoint, seg: Segment)
    ensures RingKept(e, ExtractParams(e, seg.params)) && ExtractParams(e, seg.params).rx == e.rx
    ensures RingKept(e, Greeted(e, seg)) && Greeted(e, seg).rx.got != []
  {
  }

  lemma AbortBase(e: Endpoint)
    ensures RingKept(e, Abort(e)) && Abort(e).rx == e.rx
  {
  }

  /** Taking in a SYN or any other segment leaves the ring alone; a listener sends its own SYN. */
  lemma SynBase(e: Endpoint, seg: Segment, isn: Byte)
    ensures var e1 := HandleSyn(e, seg, isn).0;
            && (e.st.LISTEN? && RingSize(e) == |e.tx.sent| ==> Base(e1.tx) == Base(e.tx))
            && (!e.st.LISTEN? ==> RingKept(e, e1)) && (e.rx.got != [] ==> e1.rx.got != [])
  {
    hide ExtractParams, Seed, Abort;
    GreetBase(e, seg);
    AbortBase(ExtractParams(e, seg.params));
  }

  lemma OthBase(e: Endpoint, seg: Segment)
    ensures RingKept(e, HandleOth(e, seg).0) && HandleOth(e, seg).0.rx == e.rx
  {
    hide Abort;
    AbortBase(e);
  }

  lemma ArrivalBase(e: Endpoint, seg: Segment, isn: Byte)
    requires e.st.LISTEN? ==> RingSize(e) == |e.tx.sent| && !(seg.syn && seg.ack)
    ensures var e' := HandleRx(e, seg, isn);
            && Base(e'.tx) == Base(e.tx) + (if Admits(e, seg, isn) && seg.ack then AckCount(e.tx.ring, seg.ackNo) else 0)
            && (e.rx.got != [] ==> e'.rx.got != [])
  {
    hide HandleSyn, HandleOth, RxAccepted;
    SynBase(e, seg, isn);
    OthBase(e, seg);
    var e1 := if seg.syn then HandleSyn(e, seg, isn).0 else HandleOth(e, seg).0;
    AcceptedBase(e.st, e1, seg);
  }

  lemma {:induction false} InputBase(e: Endpoint)
    ensures Base(InputLoop(e).tx) == Base(e.tx) && InputLoop(e).rx == e.rx
    decreases |e.inpQ|
  {
    if WindowOpen(e) && e.inpQ != [] {
      InputBase(TakeInput(e));
    }
  }

  lemma OutputBase(e: Endpoint)
    ensures HandleUsrOutput(e).tx == e.tx && |e.rx.got| <= |HandleUsrOutput(e).rx.got|
  {
    hide Drain;
    DrainBase(e.st, e.(ctl := e.ctl.(usrO := false)));
  }

  lemma NulBase(e: Endpoint)
    ensures Base(NulTimeout(e).tx) == Base(e.tx) && NulTimeout(e).rx == e.rx
  {
  }

  lemma StartBase(e: Endpoint, isn: Byte)
    requires e.tx.sent == [] && e.rx.got == []
    ensures Base(Start(e, isn).tx) == 0
  {
  }

  /** Every event: what is gone from the ring is what an arriving acknowledgement discards. */
  lemma EventBase(me: Endpoint, peer: Endpoint, out: seq<Flight>, inc: seq<Flight>, ev: Event)
    requires Pair(me, peer, out, inc) && ControlOk(me) && EventEnabled(me, ev, inc)
    ensures var me' := Perform(me, ev, inc);
            && Base(me'.tx) == (if me.started then Base(me.tx) + Discards(me, ev, inc) else 0)
            && (me.rx.got != [] ==> me'.rx.got != [])
  {
    hide Link, HandleRx, HandleUsrInput, HandleUsrOutput, RexTimeout, AckTimeout, NulTimeout, Start, EnterOpen, Admits, AckCount;
    NotStarted(me);
    match ev
    case Starts(isn) => StartBase(me, isn);
    case Opens => OpensBase(me);
    case Arrives(isn) =>
      ListenerHeard(me, peer, out, inc);
      ArrivalBase(me, inc[0].seg, isn);
    case Input => HandleInputBase(me);
    case Output => OutputBase(me);
    case RexExpires => TimeoutBase(me);
    case AckExpires => TimeoutBase(me);
    case NulExpires => NulBase(me);
  }

  lemma NotStarted(me: Endpoint)
    requires Local(me) && ControlOk(me)
    ensures !me.started ==> me.st.CLOSED? && me.tx.sent == [] && me.rx.got == []
  {
  }

  lemma OpensBase(me: Endpoint)
    ensures EnterOpen(me).tx == me.tx && EnterOpen(me).rx == me.rx
  {
  }

  lemma HandleInputBase(me: Endpoint)
    ensures Base(HandleUsrInput(me).tx) == Base(me.tx) && HandleUsrInput(me).rx == me.rx
  {
    hide InputLoop;
    InputBase(me);
  }

  lemma TimeoutBase(me: Endpoint)
    ensures Base(RexTimeout(me).tx) == Base(me.tx) && RexTimeout(me).rx == me.rx
    ensures Base(AckTimeout(me).tx) == Base(me.tx) && AckTimeout(me).rx == me.rx
  {
    hide ProcessRex, SendDatOrAck;
    RexBase(me.(ctl := me.ctl.(rexT := false)));
    SendBase(me.st, me.(ctl := me.ctl.(ackT := false)));
  }

  /** Only a client's SYN reaches a listener, and that one acknowledges nothing. */
  lemma ListenerHeard(me: Endpoint, peer: Endpoint, out: seq<Flight>, inc: seq<Flight>)
    requires Pair(me, peer, out, inc) && ControlOk(me) && inc != [] && Waiting(me.st)
    ensures me.st.LISTEN? ==> RingSize(me) == |me.tx.sent| && !(inc[0].seg.syn && inc[0].seg.ack)
  {
    if me.st.LISTEN? {
      ArrivedSegOk(me, peer, out, inc);
      RingWithinSent(me);
    }
  }

  // ----- exactly when the peer has not taken in what is discarded

  /** Nothing has been discarded that the other end has not taken in. */
  ghost predicate Lawful(t: System) {
    t.c.e.started && t.s.e.started ==> NoEarlyAck(t.c.e, t.s.e) && NoEarlyAck(t.s.e, t.c.e)
  }

  /** A peer that gave up before it heard anything acknowledges a segment that is still kept. */
  predicate StrayAck(me: Endpoint, peer: Endpoint, ev: Event, inc: seq<Flight>) {
    && QuitDeaf(peer) && ev.Arrives? && inc != [] && inc[0].seg.ack && Admits(me, inc[0].seg, ev.isn)
    && Sub(inc[0].seg.ackNo, me.tx.isn) < RingSize(me)
  }

  predicate Stray(t: System, act: Action) {
    act.Does? && StrayAck(Me(t, act.client), Me(t, !act.client), act.ev, Incoming(t, act.client))
  }

  lemma CountPositive(r: Ring, ackNo: Byte)
    requires |r.segs| <= 128
    ensures AckCount(r, ackNo) > 0 <==> Sub(ackNo, r.oldest) < |r.segs|
  {
  }

  /** With nothing discarded yet. */
  lemma StrayDiscards(me: Endpoint, peer: Endpoint, ev: Event, inc: seq<Flight>)
    requires Local(me) && me.started && Base(me.tx) == 0 && QuitDeaf(peer)
    ensures Discards(me, ev, inc) > 0 <==> StrayAck(me, peer, ev, inc)
  {
    hide AckCount, Admits, Sub;
    RingFront(me);
    if ev.Arrives? && inc != [] {
      CountPositive(me.tx.ring, inc[0].seg.ackNo);
    }
  }

  lemma RingFront(me: Endpoint)
    requires Local(me) && me.started && Base(me.tx) == 0
    ensures RingSize(me) <= 128 && (RingSize(me) > 0 ==> me.tx.ring.oldest == me.tx.isn)
  {
    NumZero(me.tx.isn);
  }

  /** Against a peer that has taken in nothing, nothing may be discarded. */
  lemma DeafPeer(x: Endpoint, y: Endpoint)
    requires Local(x) && Local(y) && x.started && y.started && y.rx.got == []
    ensures NoEarlyAck(x, y) <==> Base(x.tx) == 0
  {
    RingWithinSent(x);
    if Base(x.tx) == 0 {
      assert x.tx.sent[..Base(x.tx)] == [];
    }
  }

  /** One step of one side, seen from both directions. */
  lemma SideExactly(me: Endpoint, peer: Endpoint, out: seq<Flight>, inc: seq<Flight>, ev: Event)
    requires Pair(me, peer, out, inc) && ControlOk(me) && me.wire == []
    requires EventEnabled(me, ev, inc) && !Throws(me.st, ev) && peer.started
    requires me.started ==> NoEarlyAck(me, peer) && NoEarlyAck(peer, me)
    ensures var me' := Perform(me, ev, inc);
            && (QuitDeaf(peer) ==> (NoEarlyAck(me', peer) <==> !StrayAck(me, peer, ev, inc)))
            && (QuitDeaf(me') ==> NoEarlyAck(peer, me'))
  {
    hide Link, Perform, EventEnabled, NoEarlyAck, StrayAck, Local, ControlOk;
    var me' := Perform(me, ev, inc);
    EventKeeps(me, peer, out, inc, ev);
    EventBase(me, peer, out, inc, ev);
    if QuitDeaf(peer) {
      DeafPeer(me', peer);
      if me.started {
        DeafPeer(me, peer);
        StrayDiscards(me, peer, ev, inc);
      } else {
        StartIsNoArrival(me, peer, ev, inc);
      }
    }
    if QuitDeaf(me') {
      DeafPeer(peer, me');
      if me.started {
        DeafPeer(peer, me);
      } else {
        UnheardBase(peer, me, inc, out);
      }
    }
  }

  lemma StartIsNoArrival(me: Endpoint, peer: Endpoint, ev: Event, inc: seq<Flight>)
    requires EventEnabled(me, ev, inc) && !me.started && Local(me) && ControlOk(me)
    ensures !StrayAck(me, peer, ev, inc)
  {
  }

  lemma UnheardBase(x: Endpoint, y: Endpoint, ch: seq<Flight>, rv: seq<Flight>)
    requires Pair(x, y, ch, rv) && x.started && !y.started
    ensures Base(x.tx) == 0
  {
    RingWithinSent(x);
  }

  /** What the actor's peer sees, and what the actor sees, after any action of one side. */
  lemma ActorExactly(t: System, act: Action)
    requires Inv(t) && Enabled(t, act) && Lawful(t) && !act.Loses?
    requires Me(t, !ByClient(act)).started
    ensures var client := ByClient(act);
            var me', peer := Me(Next(t, act), client), Me(t, !client);
            && (QuitDeaf(peer) ==> (NoEarlyAck(me', peer) <==> !Stray(t, act)))
            && (QuitDeaf(me') ==> NoEarlyAck(peer, me'))
            && Me(Next(t, act), !client) == peer
  {
    hide Local, Link, NoEarlyAck, StrayAck, Perform, EventEnabled, QuitDeaf;
    var client := ByClient(act);
    var me, peer := Me(t, client), Me(t, !client);
    var out, inc := if client then t.cs else t.sc, Incoming(t, client);
    if act.Does? {
      SideExactly(me, peer, out, inc, act.ev);
      SameLaw(Perform(me, act.ev, inc), Me(Next(t, act), client), peer);
    } else {
      SameLaw(me, Me(Next(t, act), client), peer);
    }
  }

  lemma SameLaw(e: Endpoint, e': Endpoint, peer: Endpoint)
    requires e'.tx == e.tx && e'.rx == e.rx && e'.rstSent == e.rstSent
    ensures NoEarlyAck(e, peer) == NoEarlyAck(e', peer) && NoEarlyAck(peer, e) == NoEarlyAck(peer, e')
    ensures QuitDeaf(e) == QuitDeaf(e')
  {
  }

  /** The rule, seen from either side. */
  lemma LawfulFrom(t: System, client: bool)
    requires Inv(t)
    ensures var me, peer := Me(t, client), Me(t, !client);
            && (Lawful(t) <==> (me.started && peer.started ==> NoEarlyAck(me, peer) && NoEarlyAck(peer, me)))
            && (me.started && peer.started && !QuitDeaf(peer) ==> NoEarlyAck(me, peer))
            && (me.started && peer.started && !QuitDeaf(me) ==> NoEarlyAck(peer, me))
            && (QuitDeaf(peer) ==> peer.started)
  {
    hide NoEarlyAck, Link;
    if t.c.e.started && t.s.e.started {
      NoEarlyAckOf(t.c.e, t.s.e, t.cs, t.sc);
      NoEarlyAckOf(t.s.e, t.c.e, t.sc, t.cs);
    }
  }

  /** A step breaks the rule if and only if it takes in such an acknowledgement. */
  lemma DiscardsExactly(t: System, act: Action)
    requires Inv(t) && Enabled(t, act) && Lawful(t)
    ensures Inv(Next(t, act)) && (Lawful(Next(t, act)) <==> !Stray(t, act))
  {
    hide NoEarlyAck, Inv, SideNext, SideEnabled, StrayAck, QuitDeaf;
    NextInv(t, act);
    if act.Loses? {
      hide Lawful;
      SameEnds(t, Next(t, act));
    } else {
      hide Next, Enabled, Lawful;
      var client := ByClient(act);
      LawfulFrom(t, client);
      LawfulFrom(Next(t, act), client);
      ActorPeer(t, act);
      StrayNeedsQuit(t, act);
      if Me(t, !client).started {
        ActorExactly(t, act);
      }
    }
  }

  lemma SameEnds(t: System, t': System)
    requires t'.c == t.c && t'.s == t.s
    ensures Lawful(t') == Lawful(t)
  {
  }

  lemma ActorPeer(t: System, act: Action)
    requires Inv(t) && Enabled(t, act) && !act.Loses?
    ensures Me(Next(t, act), !ByClient(act)) == Me(t, !ByClient(act)) && Me(Next(t, act), ByClient(act)).started
  {
    hide Local, Link, Perform, EventEnabled, ControlOk;
    var client := ByClient(act);
    if act.Does? {
      if client {
        EventKeeps(t.c.e, t.s.e, t.cs, t.sc, act.ev);
      } else {
        EventKeeps(t.s.e, t.c.e, t.sc, t.cs, act.ev);
      }
    }
  }

  lemma StrayNeedsQuit(t: System, act: Action)
    ensures Stray(t, act) ==> QuitDeaf(Me(t, !ByClient(act)))
  {
  }

  /** At every moment of the run. */
  ghost predicate AlwaysLawful(t: System, acts: seq<Action>)
    requires CanRun(t, acts)
    decreases |acts|
  {
    Lawful(t) && (acts != [] ==> AlwaysLawful(Next(t, acts[0]), acts[1..]))
  }

  ghost predicate NeverStray(t: System, acts: seq<Action>)
    requires CanRun(t, acts)
    decreases |acts|
  {
    acts != [] ==> !Stray(t, acts[0]) && NeverStray(Next(t, acts[0]), acts[1..])
  }

  lemma {:induction false} LawfulFromHere(t: System, acts: seq<Action>)
    requires Inv(t) && Lawful(t) && CanRun(t, acts)
    ensures AlwaysLawful(t, acts) <==> NeverStray(t, acts)
    decreases |acts|
  {
    hide Inv, Lawful, Stray, Next, Enabled;
    if acts != [] {
      DiscardsExactly(t, acts[0]);
      if !Stray(t, acts[0]) {
        LawfulFromHere(Next(t, acts[0]), acts[1..]);
      }
    }
  }

  /** No acknowledgement before delivery, over every run: the rule holds throughout if and only if
      the run never takes in the RST of a peer that had heard nothing, with a number in it that
      happens to name a segment that is still kept. */
  lemma RunsExactly(s: System, acts: seq<Action>)
    requires Init(s) && CanRun(s, acts)
    ensures AlwaysLawful(s, acts) <==> NeverStray(s, acts)
  {
    InitInv(s);
    LawfulFromHere(s, acts);
  }
}

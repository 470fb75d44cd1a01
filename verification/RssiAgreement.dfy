/** Negotiation over whole runs: the client works with the server's limits, and each end with the
    window of the other. */
module RssiAgreement {
  import opened Wrappers
  import opened CircularIndex
  import opened RssiSegments
  import opened RssiEndpoint
  import opened RssiInvariant
  import opened RssiLink
  import opened RssiSystem
  import opened RssiTheorems
  import opened RssiArrivals
  import opened RssiEvents

  /** What an endpoint announces in its SYN. */
  function Announced(cfg: Config): SynParams {
    SynParams(MaxSegs(cfg), cfg.rexMax, cfg.cumAckMax)
  }

  function FromSyn(p: SynParams): Params {
    Params(p.rexMX, p.cakMX, p.ossMX)
  }

  /** The SYN that has been sent announces the configuration; a server keeps its own limits, and a client
      goes by the SYN that it has taken in. */
  ghost predicate Negotiated(e: Endpoint) {
    && (e.tx.sent != [] ==> e.tx.sent[0] == Item.Syn(e.cfg.isServer, Announced(e.cfg)))
    && if e.cfg.isServer then e.started ==> e.par.rexMX == e.cfg.rexMax && e.par.cakMX == e.cfg.cumAckMax
       else e.rx.got != [] ==> e.rx.got[0].Syn? && e.par == FromSyn(e.rx.got[0].params)
  }

  /** The parameters stay, and the histories grow behind their first item. */
  ghost predicate Grown(e: Endpoint, e': Endpoint) {
    && e'.cfg == e.cfg && e'.started == e.started && e'.par == e.par
    && e.tx.sent <= e'.tx.sent && (e.tx.sent == [] ==> e'.tx.sent == [])
    && e.rx.got <= e'.rx.got && (e.rx.got == [] ==> e'.rx.got == [])
  }

  lemma GrownNegotiated(e: Endpoint, e': Endpoint)
    requires Negotiated(e) && Grown(e, e')
    ensures Negotiated(e')
  {
    if e.tx.sent != [] {
      assert e'.tx.sent[0] == e.tx.sent[0];
    }
    if e.rx.got != [] {
      assert e'.rx.got[0] == e.rx.got[0];
    }
  }

  // ----- histories grow

  ghost predicate SentGrows(e: Endpoint, e': Endpoint) {
    e.tx.sent <= e'.tx.sent && e'.started == e.started && e'.par == e.par && e'.cfg == e.cfg
  }

  lemma SentTwice(a: Endpoint, b: Endpoint, c: Endpoint)
    requires SentGrows(a, b) && SentGrows(b, c)
    ensures SentGrows(a, c)
  {
  }

  lemma AnswerSent(self: State, e: Endpoint)
    ensures SentGrows(e, SendDatOrAck(self, e))
  {
    hide Stamp, Nxt;
  }

  lemma {:induction false} RetransmitSent(e: Endpoint, k: nat)
    requires k <= RingSize(e)
    ensures SentGrows(e, RetransmitFrom(e, k))
    decreases RingSize(e) - k
  {
    if k < RingSize(e) {
      RetransmitSent(ResendAt(e, k), k + 1);
    }
  }

  lemma RexSent(e: Endpoint)
    ensures SentGrows(e, ProcessRex(e))
  {
    hide RetransmitFrom, Nxt;
    RetransmitSent(CountRex(e), 0);
  }

  lemma PolicySent(self: State, e: Endpoint)
    ensures SentGrows(e, RxAckPolicy(self, e))
  {
    hide SendDatOrAck;
    AnswerSent(self, CountSegment(e));
  }

  lemma BusySent(self: State, e: Endpoint, seg: Segment)
    ensures SentGrows(e, RxBusy(RxData(self, ProcessAckNumber(e, seg), seg), seg))
  {
    hide RxData, RingAck;
    DataTakes(self, ProcessAckNumber(e, seg), seg);
  }

  lemma AcceptedSent(self: State, e: Endpoint, seg: Segment)
    ensures SentGrows(e, RxAccepted(self, e, seg))
  {
    hide RxData, ProcessAckNumber, RxAckPolicy, ProcessRex, SentGrows, RxBusy;
    var e3 := RxData(self, ProcessAckNumber(e, seg), seg);
    var e4 := RxBusy(e3, seg);
    BusySent(self, e, seg);
    RexSent(e4);
    PolicySent(self, e4);
    SentTwice(e, e4, RxAccepted(self, e, seg));
  }

  lemma AdmittedSent(e: Endpoint, seg: Segment, isn: Byte)
    requires Connected(e.st)
    ensures SentGrows(e, if seg.syn then HandleSyn(e, seg, isn).0 else HandleOth(e, seg).0)
  {
  }

  lemma AfterSent(self: State, e: Endpoint)
    ensures SentGrows(e, AfterRx(self, e))
  {
  }

  /** An arrival once the handshake is over. */
  lemma ArrivalGrown(e: Endpoint, seg: Segment, isn: Byte)
    requires Connected(e.st) && e.tx.sent != [] && e.rx.got != []
    ensures Grown(e, HandleRx(e, seg, isn))
  {
    ArrivalSent(e, seg, isn);
    hide HandleRx, ItemAt, Admits;
    ArrivalKept(e, seg, isn);
  }

  lemma ArrivalSent(e: Endpoint, seg: Segment, isn: Byte)
    requires Connected(e.st)
    ensures SentGrows(e, HandleRx(e, seg, isn))
  {
    hide HandleSyn, HandleOth, RxAccepted, AfterRx, SentGrows;
    AdmittedSent(e, seg, isn);
    var (e1, ok) := if seg.syn then HandleSyn(e, seg, isn) else HandleOth(e, seg);
    var e2 := if ok then RxAccepted(e.st, e1, seg) else e1;
    AcceptedSent(e.st, e1, seg);
    AfterSent(e.st, e2);
    if ok {
      SentTwice(e, e1, e2);
    }
    SentTwice(e, e2, AfterRx(e.st, e2));
  }

  // ----- the other events

  lemma {:induction false} InputSent(e: Endpoint)
    ensures SentGrows(e, InputLoop(e)) && InputLoop(e).rx == e.rx
    decreases |e.inpQ|
  {
    hide Stamp, Nxt;
    if WindowOpen(e) && e.inpQ != [] {
      InputSent(TakeInput(e));
    }
  }

  lemma InputGrown(e: Endpoint)
    requires e.tx.sent != []
    ensures Grown(e, HandleUsrInput(e))
  {
    hide InputLoop;
    InputSent(e);
  }

  lemma OutputGrown(e: Endpoint)
    requires IsOpen(e.st) && e.rx.got != []
    ensures Grown(e, HandleUsrOutput(e))
  {
    OutputSent(e);
    hide HandleUsrOutput, ItemAt;
    OutputSends(e);
  }

  lemma OutputSent(e: Endpoint)
    ensures var e' := HandleUsrOutput(e); e'.tx.sent == e.tx.sent && e'.started == e.started && e'.par == e.par && e'.cfg == e.cfg
  {
    hide DrainLoop, Stamp, Nxt;
  }

  lemma RexGrown(e: Endpoint)
    ensures Grown(e, RexTimeout(e))
  {
    hide RetransmitFrom, Stamp, Nxt;
    var e0 := CountRex(e.(ctl := e.ctl.(rexT := false)));
    RetransmitKeepsSent(e0, 0);
  }

  lemma {:induction false} RetransmitKeepsSent(e: Endpoint, k: nat)
    requires k <= RingSize(e)
    ensures Grown(e, RetransmitFrom(e, k))
    decreases RingSize(e) - k
  {
    if k < RingSize(e) {
      RetransmitKeepsSent(ResendAt(e, k), k + 1);
    }
  }

  lemma AckGrown(e: Endpoint)
    requires e.tx.sent != []
    ensures Grown(e, AckTimeout(e))
  {
    hide SendDatOrAck;
    AnswerSent(e.st, e.(ctl := e.ctl.(ackT := false)));
    SendAnswers(e.st, e.(ctl := e.ctl.(ackT := false)));
  }

  lemma NulGrown(e: Endpoint)
    requires e.tx.sent != []
    ensures Grown(e, NulTimeout(e))
  {
    hide Stamp, Nxt;
  }

  lemma OpensGrown(e: Endpoint)
    ensures Grown(e, EnterOpen(e))
  {
  }

  lemma StartNegotiated(e: Endpoint, isn: Byte)
    requires Local(e) && !e.started
    ensures Negotiated(Start(e, isn))
  {
    hide MaxSegs, Stamp;
  }

  // ----- the handshake

  lemma AnswerSame(self: State, e: Endpoint)
    requires !IsOpen(self)
    ensures SendDatOrAck(self, e).tx.sent == e.tx.sent
  {
    hide Stamp, Nxt;
  }

  lemma PolicySame(self: State, e: Endpoint)
    requires !IsOpen(self)
    ensures RxAckPolicy(self, e).tx.sent == e.tx.sent
  {
    hide SendDatOrAck;
    AnswerSame(self, CountSegment(e));
  }

  lemma RexSame(e: Endpoint)
    ensures ProcessRex(e).tx.sent == e.tx.sent
  {
    hide RetransmitFrom, Stamp, Nxt;
    RetransmitSame(CountRex(e), 0);
  }

  lemma {:induction false} RetransmitSame(e: Endpoint, k: nat)
    requires k <= RingSize(e)
    ensures RetransmitFrom(e, k).tx.sent == e.tx.sent
    decreases RingSize(e) - k
  {
    if k < RingSize(e) {
      RetransmitSame(ResendAt(e, k), k + 1);
    }
  }

  /** Before the connection is open nothing new is sent but the SYN. */
  lemma AcceptedSame(self: State, e: Endpoint, seg: Segment)
    requires !IsOpen(self)
    ensures RxAccepted(self, e, seg).tx.sent == e.tx.sent
  {
    hide RxData, ProcessAckNumber, RxAckPolicy, ProcessRex;
    var e1 := ProcessAckNumber(e, seg);
    AckSame(e, seg);
    DataTakes(self, e1, seg);
    RexSame(RxBusy(RxData(self, e1, seg), seg));
    PolicySame(self, RxBusy(RxData(self, e1, seg), seg));
  }

  lemma AckSame(e: Endpoint, seg: Segment)
    ensures ProcessAckNumber(e, seg).tx.sent == e.tx.sent
  {
    hide AckCount, RingAck;
  }

  lemma AbortSame(e: Endpoint)
    ensures Grown(e, Abort(e))
  {
  }

  /** Anything but a SYN leaves what has been agreed alone. */
  lemma UnwelcomeNegotiated(e: Endpoint, seg: Segment, isn: Byte)
    requires (e.st.LISTEN? || e.st.CLNT_WAIT_SYN_ACK?) && !seg.syn && Negotiated(e)
    ensures Negotiated(HandleRx(e, seg, isn))
  {
    hide RxAccepted, Abort, Sub, Negotiated, Grown;
    var f := Abort(e);
    if seg.rst && CanAccept(e.rx, seg.seqNo) && seg.payload == [] {
      AbortSame(e);
      GrownNegotiated(e, f);
      RstNegotiated(e.st, f, seg);
    }
  }

  lemma RstNegotiated(self: State, e: Endpoint, seg: Segment)
    requires !IsOpen(self) && Negotiated(e)
    ensures Negotiated(RxAccepted(self, e, seg))
  {
    hide RxAccepted;
    AcceptedSame(self, e, seg);
    AcceptedSent(self, e, seg);
    AcceptedGot(self, e, seg);
  }

  lemma AcceptedGot(self: State, e: Endpoint, seg: Segment)
    requires !IsOpen(self)
    ensures RxAccepted(self, e, seg).rx.got == e.rx.got
  {
    hide ProcessAckNumber, Reply, SameReceiver;
    var e1 := ProcessAckNumber(e, seg);
    BusyKeepsRx(e, seg);
    SameRx(e, e1);
    ReplyKeepsRx(self, RxData(self, e1, seg), seg);
    SameRx(RxData(self, e1, seg), RxAccepted(self, e, seg));
    ClosedGot(self, e1, seg);
  }

  lemma ClosedGot(self: State, e: Endpoint, seg: Segment)
    requires !IsOpen(self)
    ensures RxData(self, e, seg).rx.got == e.rx.got
  {
  }

  /** The server has answered the SYN. */
  lemma WelcomeNegotiated(e: Endpoint, seg: Segment, isn: Byte)
    requires e.st.LISTEN? && e.cfg.isServer && e.started && e.tx.sent == [] && seg.syn && Negotiated(e)
    ensures Negotiated(HandleRx(e, seg, isn))
  {
    WelcomeSent(e, seg, isn);
    hide RxAccepted, HandleSyn;
    var s := HandleSyn(e, seg, isn).0;
    AcceptedSame(LISTEN, s, seg);
    AcceptedSent(LISTEN, s, seg);
  }

  lemma WelcomeSent(e: Endpoint, seg: Segment, isn: Byte)
    requires e.st.LISTEN? && e.cfg.isServer && e.tx.sent == [] && seg.syn
    ensures var (s, ok) := HandleSyn(e, seg, isn);
            && ok && s.cfg == e.cfg && s.started == e.started && s.par == e.par.(peerOssMX := seg.params.ossMX)
            && s.tx.sent == [Item.Syn(true, SynParams(MaxSegs(e.cfg), e.par.rexMX, e.par.cakMX))]
  {
    hide GrowTo, MaxSegs, Nxt;
  }

  /** The client has taken in the server's SYN. */
  lemma GreetNegotiated(e: Endpoint, seg: Segment, isn: Byte)
    requires e.st.CLNT_WAIT_SYN_ACK? && !e.cfg.isServer && seg.syn && seg.ack && Negotiated(e)
    ensures Negotiated(HandleRx(e, seg, isn))
  {
    SynTold(e, seg, isn);
    hide RxAccepted, HandleSyn;
    var s := HandleSyn(e, seg, isn).0;
    AcceptedSame(CLNT_WAIT_SYN_ACK, s, seg);
    AcceptedSent(CLNT_WAIT_SYN_ACK, s, seg);
    AcceptedGot(CLNT_WAIT_SYN_ACK, s, seg);
  }

  /** A SYN on its way to `me` is the one that its peer has sent. */
  lemma ArrivingSyn(me: Endpoint, peer: Endpoint, out: seq<Flight>, inc: seq<Flight>)
    requires Pair(me, peer, out, inc) && !me.rstSent && inc != [] && inc[0].seg.syn
    ensures inc[0].seg.ack == peer.cfg.isServer
  {
    hide Num, Dats;
    assert FlightOk(peer.tx, MaxSegs(me.cfg), inc[0]);
  }

  lemma ArrivesNegotiated(me: Endpoint, peer: Endpoint, out: seq<Flight>, inc: seq<Flight>, isn: Byte)
    requires Pair(me, peer, out, inc) && ControlOk(me) && Waiting(me.st) && inc != [] && Negotiated(me)
    ensures Negotiated(HandleRx(me, inc[0].seg, isn))
  {
    Heard(me, peer, out, inc);
    hide HandleRx, Negotiated, Pair, Grown;
    var seg := inc[0].seg;
    if Connected(me.st) {
      ArrivalGrown(me, seg, isn);
      GrownNegotiated(me, HandleRx(me, seg, isn));
    } else if !seg.syn {
      UnwelcomeNegotiated(me, seg, isn);
    } else if me.st.LISTEN? {
      WelcomeNegotiated(me, seg, isn);
    } else {
      GreetNegotiated(me, seg, isn);
    }
  }

  lemma Heard(me: Endpoint, peer: Endpoint, out: seq<Flight>, inc: seq<Flight>)
    requires Pair(me, peer, out, inc) && ControlOk(me) && Waiting(me.st) && inc != []
    ensures Connected(me.st) ==> me.tx.sent != [] && me.rx.got != []
    ensures me.st.LISTEN? ==> me.cfg.isServer && me.started && me.tx.sent == []
    ensures me.st.CLNT_WAIT_SYN_ACK? ==> !me.cfg.isServer && (inc[0].seg.syn ==> inc[0].seg.ack)
  {
    hide Local, Link;
    if inc[0].seg.syn {
      ArrivingSyn(me, peer, out, inc);
    }
  }

  // ----- runs

  lemma EventNegotiated(me: Endpoint, peer: Endpoint, out: seq<Flight>, inc: seq<Flight>, ev: Event)
    requires Pair(me, peer, out, inc) && ControlOk(me) && Negotiated(me)
    requires EventEnabled(me, ev, inc) && !Throws(me.st, ev)
    ensures Negotiated(Perform(me, ev, inc))
  {
    EventContext(me, peer, out, inc, ev);
    hide HandleRx, HandleUsrInput, HandleUsrOutput, RexTimeout, AckTimeout, NulTimeout, Start, EnterOpen;
    hide Pair, Negotiated, Grown, ControlOk;
    match ev {
      case Starts(isn) =>
        StartNegotiated(me, isn);
      case Arrives(isn) =>
        ArrivesNegotiated(me, peer, out, inc, isn);
      case Opens =>
        OpensGrown(me);
      case Input =>
        InputGrown(me);
      case Output =>
        OutputGrown(me);
      case RexExpires =>
        RexGrown(me);
      case AckExpires =>
        AckGrown(me);
      case NulExpires =>
        NulGrown(me);
    }
    if !ev.Starts? && !ev.Arrives? {
      GrownNegotiated(me, Perform(me, ev, inc));
    }
  }

  lemma EventContext(me: Endpoint, peer: Endpoint, out: seq<Flight>, inc: seq<Flight>, ev: Event)
    requires Pair(me, peer, out, inc) && ControlOk(me) && EventEnabled(me, ev, inc) && !Throws(me.st, ev)
    ensures ev.Starts? ==> Local(me) && !me.started
    ensures ev.Input? || ev.Output? || ev.AckExpires? || ev.NulExpires? ==>
              IsOpen(me.st) && me.tx.sent != [] && me.rx.got != []
  {
    hide Local, Link;
  }

  lemma SideNegotiated(me: Side, peer: Endpoint, out: seq<Flight>, inc: seq<Flight>, act: Action)
    requires Pair(me.e, peer, out, inc) && SideOk(me) && Negotiated(me.e) && !act.Loses? && SideEnabled(me, act, inc)
    ensures Negotiated(Flush(SideNext(me, act, inc)).e)
  {
    hide Pair, Perform, EventEnabled, ControlOk;
    if act.Does? {
      EventNegotiated(me.e, peer, out, inc, act.ev);
    }
  }

  ghost predicate BothNegotiated(s: System) {
    Negotiated(s.c.e) && Negotiated(s.s.e)
  }

  lemma NextNegotiated(s: System, act: Action)
    requires Inv(s) && BothNegotiated(s) && Enabled(s, act)
    ensures BothNegotiated(Next(s, act))
  {
    hide Pair, SideOk, SideNext, SideEnabled, Negotiated;
    if act.Loses? {
    } else if ByClient(act) {
      SideNegotiated(s.c, s.s.e, s.cs, s.sc, act);
    } else {
      Mirrored(s.c.e, s.s.e, s.cs, s.sc);
      SideNegotiated(s.s, s.c.e, s.sc, s.cs, act);
    }
  }

  lemma Mirrored(x: Endpoint, y: Endpoint, ch: seq<Flight>, rv: seq<Flight>)
    requires Pair(x, y, ch, rv)
    ensures Pair(y, x, rv, ch)
  {
    hide Local, Link;
  }

  lemma {:induction false} RunNegotiated(s: System, acts: seq<Action>)
    requires Inv(s) && BothNegotiated(s) && CanRun(s, acts)
    ensures BothNegotiated(Run(s, acts))
    decreases |acts|
  {
    hide Inv, BothNegotiated, Enabled, Next;
    if acts != [] {
      NextInv(s, acts[0]);
      NextNegotiated(s, acts[0]);
      RunNegotiated(Next(s, acts[0]), acts[1..]);
    }
  }

  lemma InitNegotiated(s: System)
    requires Init(s)
    ensures BothNegotiated(s)
  {
  }

  // ----- main result

  /** The server works with its own limits, and with the client's window once it has heard of it; the
      client, once it has heard of the server, with the server's limits and window. */
  ghost predicate Agreed(c: Endpoint, s: Endpoint) {
    && (c.rx.got != [] ==> c.par == Params(s.cfg.rexMax, s.cfg.cumAckMax, MaxSegs(s.cfg)))
    && (s.started ==> s.par.rexMX == s.cfg.rexMax && s.par.cakMX == s.cfg.cumAckMax)
    && (s.rx.got != [] ==> s.par.peerOssMX == MaxSegs(c.cfg))
  }

  /** In every state of every run the two ends agree. */
  lemma Agreement(t: System)
    requires Reachable(t)
    ensures Agreed(t.c.e, t.s.e)
  {
    hide Run, CanRun, Init;
    var s: System, acts: seq<Action> :| Init(s) && CanRun(s, acts) && Run(s, acts) == t;
    ReachableInv(t);
    hide Reachable, Inv, BothNegotiated;
    InitInv(s);
    InitNegotiated(s);
    RunNegotiated(s, acts);
    Concluded(t);
  }

  lemma Concluded(t: System)
    requires Inv(t) && BothNegotiated(t)
    ensures Agreed(t.c.e, t.s.e)
  {
    hide Local, SideOk, DataOk, AcksOk;
    var c, s := t.c.e, t.s.e;
    if c.rx.got != [] {
      assert c.rx.got[0] == s.tx.sent[0];
    }
  }
}

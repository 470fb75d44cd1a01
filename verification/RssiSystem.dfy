/** Two RSSI endpoints, a client and a server, joined by two FIFO channels that may lose any
    segment, over every run of one connection epoch.

    A run takes the endpoints through any interleaving of the events that CRssi's thread reacts
    to, with any armed timer expiring at any time.  An endpoint that is CLOSED again takes no
    further step: its next one would begin another epoch. */
module RssiSystem {
  import opened Wrappers
  import opened CircularIndex
  import opened RssiSegments
  import opened RssiEndpoint
  import opened RssiInvariant
  import opened RssiLink

  // ----- one endpoint's events

  /** Starts and Arrives carry the clock-derived sequence number that a SYN sent in this step
      would use. */
  datatype Event =
    | Starts(isn: Byte)
    | Opens
    | Arrives(isn: Byte)
    | Input
    | Output
    | RexExpires
    | AckExpires
    | NulExpires

  /** States whose `advance` waits for an event or a timer. */
  predicate Waiting(st: State) {
    !st.CLOSED? && !st.PREP_OPEN?
  }

  predicate EventEnabled(e: Endpoint, ev: Event, inc: seq<Flight>) {
    match ev
    case Starts(_) => !e.started
    case Opens => e.st.PREP_OPEN?
    case Arrives(_) => Waiting(e.st) && inc != []
    case Input => Waiting(e.st) && e.ctl.usrI && e.inpQ != []
    case Output => Waiting(e.st) && e.ctl.usrO && !OutFull(e)
    case RexExpires => Waiting(e.st) && e.ctl.rexT
    case AckExpires => Waiting(e.st) && e.ctl.ackT
    case NulExpires => Waiting(e.st) && e.ctl.nulT
  }

  /** The default handlers of STATE throw InternalError, which ends the thread. */
  predicate Throws(st: State, ev: Event) {
    match ev
    case Input => !(st.OPEN? || st.OPEN_OUTWIN_FULL?)
    case Output => !(st.OPEN? || st.OPEN_OUTWIN_FULL?)
    case AckExpires => !(st.OPEN? || st.OPEN_OUTWIN_FULL?)
    case NulExpires => !(st.OPEN? || st.OPEN_OUTWIN_FULL?)
    case _ => false
  }

  function Perform(e: Endpoint, ev: Event, inc: seq<Flight>): Endpoint
    requires EventEnabled(e, ev, inc)
  {
    match ev
    case Starts(isn) => Start(e, isn)
    case Opens => EnterOpen(e)
    case Arrives(isn) => HandleRx(e, inc[0].seg, isn)
    case Input => HandleUsrInput(e)
    case Output => HandleUsrOutput(e)
    case RexExpires => RexTimeout(e)
    case AckExpires => AckTimeout(e)
    case NulExpires => NulTimeout(e)
  }

  // ----- the system

  /** What the user of an endpoint has written to it and read from it. */
  datatype User = User(written: seq<Payload>, read: seq<Payload>)

  datatype Side = Side(e: Endpoint, user: User)

  /** c: client, s: server; cs, sc: the channels between them. */
  datatype System = System(c: Side, s: Side, cs: seq<Flight>, sc: seq<Flight>)

  datatype Action =
    | Does(client: bool, ev: Event)
    | Writes(client: bool, p: Payload)
    | Reads(client: bool)
    | Loses(fromClient: bool, i: nat)

  predicate SideEnabled(me: Side, act: Action, inc: seq<Flight>) {
    match act
    case Does(_, ev) => EventEnabled(me.e, ev, inc) && !Throws(me.e.st, ev)
    case Writes(_, p) => me.e.started && p != [] && |me.e.inpQ| < InpDepth(me.e.cfg)
    case Reads(_) => me.e.started && me.e.outQ != []
    case Loses(_, i) => true
  }

  /** One step of one side: its new state and what it sent. */
  function SideNext(me: Side, act: Action, inc: seq<Flight>): Side
    requires SideEnabled(me, act, inc)
  {
    match act
    case Does(_, ev) => me.(e := Perform(me.e, ev, inc))
    case Writes(_, p) =>
      Side(me.e.(inpQ := me.e.inpQ + [p]), me.user.(written := me.user.written + [p]))
    case Reads(_) =>
      Side(me.e.(outQ := me.e.outQ[1..]), me.user.(read := me.user.read + [me.e.outQ[0]]))
    case Loses(_, _) => me
  }

  function Flush(me: Side): Side {
    me.(e := me.e.(wire := []))
  }

  /** The arriving segment leaves the channel. */
  function Remaining(ev: Event, inc: seq<Flight>): seq<Flight> {
    if ev.Arrives? && inc != [] then inc[1..] else inc
  }

  function Rest(act: Action, inc: seq<Flight>): seq<Flight> {
    if act.Does? then Remaining(act.ev, inc) else inc
  }

  predicate ByClient(act: Action) {
    match act
    case Does(c, _) => c
    case Writes(c, _) => c
    case Reads(c) => c
    case Loses(c, _) => c
  }

  predicate Enabled(s: System, act: Action) {
    if act.Loses? then act.i < if act.fromClient then |s.cs| else |s.sc|
    else if ByClient(act) then SideEnabled(s.c, act, s.sc)
    else SideEnabled(s.s, act, s.cs)
  }

  function Next(s: System, act: Action): System
    requires Enabled(s, act)
  {
    if act.Loses? then
      if act.fromClient then s.(cs := s.cs[..act.i] + s.cs[act.i + 1..])
      else s.(sc := s.sc[..act.i] + s.sc[act.i + 1..])
    else if ByClient(act) then
      var me := SideNext(s.c, act, s.sc);
      System(Flush(me), s.s, s.cs + AnnotateAll(me.e), Rest(act, s.sc))
    else
      var me := SideNext(s.s, act, s.cs);
      System(s.c, Flush(me), Rest(act, s.cs), s.sc + AnnotateAll(me.e))
  }

  predicate CanRun(s: System, acts: seq<Action>)
    decreases |acts|
  {
    acts == [] || (Enabled(s, acts[0]) && CanRun(Next(s, acts[0]), acts[1..]))
  }

  function Run(s: System, acts: seq<Action>): System
    requires CanRun(s, acts)
    decreases |acts|
  {
    if acts == [] then s else Run(Next(s, acts[0]), acts[1..])
  }

  ghost predicate InitSide(me: Side) {
    && Local(me.e) && !me.e.started
    && me.user == User([], [])
  }

  ghost predicate Init(s: System) {
    && InitSide(s.c) && InitSide(s.s)
    && !s.c.e.cfg.isServer && s.s.e.cfg.isServer
    && s.cs == [] && s.sc == []
  }

  // ----- the invariant

  /** Handlers and timers, at the points where an endpoint waits. */
  ghost predicate ControlOk(e: Endpoint) {
    && (e.rstSent ==> e.st.CLOSED?)
    && (!e.st.CLOSED? ==> e.started)
    && match e.st
       case CLOSED => true
       case LISTEN => e.cfg.isServer && NothingReceived(e) && e.rx.got == [] && e.tx.sent == [] && !e.ctl.usrI && !e.ctl.usrO && !e.ctl.peerBSY
       case CLNT_WAIT_SYN_ACK => !e.cfg.isServer && NothingReceived(e) && e.tx.sent != [] && e.ctl.nulT && !e.ctl.usrI && !e.ctl.usrO
       case SERV_WAIT_SYN_ACK => e.cfg.isServer && Established(e) && e.ctl.nulT && !e.ctl.usrI && !e.ctl.usrO
       case PREP_OPEN => Established(e) && e.ctl.nulT && !e.ctl.usrI && !e.ctl.usrO
       case OPEN => Established(e) && e.ctl.nulT && e.ctl.usrI
       case OPEN_OUTWIN_FULL => Established(e) && e.ctl.nulT && !e.ctl.usrI && RingSize(e) >= e.par.peerOssMX
  }

  /** The endpoint has given up before it took in its peer's SYN: its RST carries whatever
      acknowledgement number was there. */
  predicate QuitDeaf(y: Endpoint) {
    y.rstSent && y.rx.got == []
  }

  /** x's data reach y over ch, y's acknowledgements return over rv. */
  ghost predicate Link(x: Endpoint, y: Endpoint, ch: seq<Flight>, rv: seq<Flight>) {
    && y.rx.got <= x.tx.sent
    && (x.rx.got != [] ==> x.par.peerOssMX == MaxSegs(y.cfg))
    && (ch != [] ==> x.started)
    && (!QuitDeaf(y) ==> DataOk(x.tx, y.rx, MaxSegs(y.cfg), ch) && AcksOk(x.tx, y.rx, rv))
  }

  ghost predicate Pair(me: Endpoint, peer: Endpoint, out: seq<Flight>, inc: seq<Flight>) {
    && Local(me) && Local(peer) && me.cfg.isServer != peer.cfg.isServer
    && Link(me, peer, out, inc) && Link(peer, me, inc, out)
  }

  /** Nothing is lost between an endpoint and its user. */
  ghost predicate UserOk(me: Side) {
    && me.e.tx.taken + me.e.inpQ == me.user.written
    && me.e.rx.delivered == me.user.read + me.e.outQ
  }

  ghost predicate SideOk(me: Side) {
    && ControlOk(me.e) && me.e.wire == []
    && (me.e.started ==> UserOk(me))
    && (!me.e.started ==> me.user == User([], []))
  }

  ghost predicate Inv(s: System) {
    && SideOk(s.c) && SideOk(s.s)
    && !s.c.e.cfg.isServer
    && Pair(s.c.e, s.s.e, s.cs, s.sc)
  }

  // ----- what a step of one endpoint keeps, stage by stage

  /** Sending keeps both directions. */
  lemma SendsKeepPair(me: Endpoint, me': Endpoint, peer: Endpoint, out: seq<Flight>, inc: seq<Flight>)
    requires Pair(me, peer, out, inc) && Local(me') && SendsOnly(me, me')
    ensures Pair(me', peer, out, inc)
  {
    hide Local;
    if !QuitDeaf(peer) {
      DataGrows(me.tx, me'.tx, peer.rx, MaxSegs(peer.cfg), out);
      AcksKeep(me.tx, me'.tx, peer.rx, inc);
    }
  }

  /** What was sent enters the channel. */
  lemma EnterKeepsPair(me: Endpoint, peer: Endpoint, out: seq<Flight>, inc: seq<Flight>)
    requires Pair(me, peer, out, inc) && me.started
    requires me.rx.got == [] && !me.rstSent ==> forall k :: 0 <= k < |me.wire| ==> !me.wire[k].ack
    ensures Pair(me.(wire := []), peer, out + AnnotateAll(me), inc)
  {
    if !QuitDeaf(peer) {
      Pow2Mono(0, peer.cfg.ldMaxUnackedSegs);
      EnterData(me, peer.rx, MaxSegs(peer.cfg), out);
    }
    if !QuitDeaf(me) {
      EnterAcks(me, peer.tx, out);
    }
  }

  /** The acknowledgement of the arriving segment has been dealt with, its data have not. */
  ghost predicate PairMid(me: Endpoint, peer: Endpoint, out: seq<Flight>, inc: seq<Flight>) {
    && inc != []
    && Local(me) && Local(peer) && me.cfg.isServer != peer.cfg.isServer
    && Link(me, peer, out, inc[1..]) && Link(peer, me, inc, out)
  }

  lemma AckStage(me: Endpoint, peer: Endpoint, out: seq<Flight>, inc: seq<Flight>)
    requires Pair(me, peer, out, inc) && inc != [] && me.started
    requires inc[0].seg.ack ==> NoDataOnWire(me)
    ensures PairMid(ProcessAckNumber(me, inc[0].seg), peer, out, inc)
    ensures AcksOnly(me, ProcessAckNumber(me, inc[0].seg))
    ensures var me' := ProcessAckNumber(me, inc[0].seg);
            && (RingSize(me') < RingSize(me) ==> me'.ctl.numRex == 0)
            && (!inc[0].seg.ack ==> me' == me)
  {
    var seg := inc[0].seg;
    var me' := ProcessAckNumber(me, seg);
    AckLocal(me, seg);
    if !QuitDeaf(peer) {
      if seg.ack {
        assert AckOk(me.tx, peer.rx, inc[0]);
        AckExact(me.tx, peer.rx, inc);
      } else {
        DropHeadAck(me.tx, peer.rx, inc);
      }
      DataGrows(me.tx, me'.tx, peer.rx, MaxSegs(peer.cfg), out);
    }
  }

  lemma DropMid(me: Endpoint, peer: Endpoint, out: seq<Flight>, inc: seq<Flight>)
    requires PairMid(me, peer, out, inc)
    ensures Pair(me, peer, out, inc[1..])
  {
    if !QuitDeaf(me) {
      DropHead(peer.tx, me.rx, MaxSegs(me.cfg), inc);
    }
  }

  /** Storing and handing on the arriving data, seen from the sender's history. */
  lemma ReceiveData(self: State, e: Endpoint, x: Tx, lim: nat, inc: seq<Flight>)
    requires DataOk(x, e.rx, lim, inc) && inc != [] && e.rx.got <= x.sent
    requires |e.rx.window| == lim <= 128 && |x.sent| <= |e.rx.got| + lim
    requires inc[0].seg.payload != [] || inc[0].seg.nul ==> e.rx.got != [] && !NoData(inc[0].seg)
    ensures var r := RxData(self, e, inc[0].seg).rx;
            DataOk(x, r, lim, inc[1..]) && r.got <= x.sent && |e.rx.got| <= |r.got|
  {
    var seg := inc[0].seg;
    DropHead(x, e.rx, lim, inc);
    if (seg.payload != [] || seg.nul) && CanAccept(e.rx, seg.seqNo) {
      StoreData(x, e.rx, lim, inc);
      hide DataOk, NoData, Carries;
      DrainStored(self, e.(rx := Store(e.rx, seg)), x, lim, inc[1..]);
    }
  }

  lemma DrainStored(self: State, e: Endpoint, x: Tx, lim: nat, ch: seq<Flight>)
    requires DataOk(x, e.rx, lim, ch) && e.rx.got != [] && e.rx.got <= x.sent
    ensures var r := Drain(self, e).rx;
            DataOk(x, r, lim, ch) && r.got <= x.sent && |e.rx.got| <= |r.got|
  {
    if IsOpen(self) {
      DrainData(x, e.rx, e.outQ, OutDepth(e.cfg), lim, ch);
      var d := DrainLoop(e.rx, e.outQ, OutDepth(e.cfg)).rx;
      hide DataOk;
      DataFrame(x, d, d.(lastSeqRecv := (d.oldest - 1) % 256), lim, ch);
    }
  }

  lemma DataFrame(x: Tx, y: Rx, y': Rx, lim: nat, ch: seq<Flight>)
    requires DataOk(x, y, lim, ch) && y'.got == y.got && y'.oldest == y.oldest && y'.window == y.window
    ensures DataOk(x, y', lim, ch)
  {
    forall o | 0 <= o < |y.window| && y.window[o].Some? && y.got != []
      ensures SlotOk(x, y', o)
    {
      assert SlotOk(x, y, o);
    }
    forall k | 0 <= k < |ch|
      ensures NotPast(y', ch[k])
    {
      assert NotPast(y, ch[k]);
    }
  }

  lemma DataStage(self: State, me: Endpoint, peer: Endpoint, out: seq<Flight>, inc: seq<Flight>)
    requires PairMid(me, peer, out, inc) && me.started && !me.rstSent
    requires inc[0].seg.payload != [] || inc[0].seg.nul ==> me.rx.got != [] && me.wire == []
    ensures Pair(RxData(self, me, inc[0].seg), peer, out, inc[1..])
    ensures DrainsOnly(me, RxData(self, me, inc[0].seg))
    ensures !IsOpen(self) ==> RxData(self, me, inc[0].seg).ctl.usrO == me.ctl.usrO
  {
    var seg := inc[0].seg;
    ArrivedSegOk(me, peer, out, inc);
    RxDataLocal(self, me, seg);
    MaxSegsBound(me.cfg);
    WindowFits(me, peer, out, inc);
    hide Local, DataOk, SegOk, NoData, RxData;
    ReceiveData(self, me, peer.tx, MaxSegs(me.cfg), inc);
    AcksMore(peer.tx, me.rx, RxData(self, me, seg).rx, out);
  }

  /** The sender is never more than one window ahead of the receiver. */
  lemma WindowFits(me: Endpoint, peer: Endpoint, out: seq<Flight>, inc: seq<Flight>)
    requires Local(me) && Local(peer) && peer.started && !me.rstSent && Link(peer, me, inc, out)
    ensures |peer.tx.sent| <= |me.rx.got| + MaxSegs(me.cfg) && |me.rx.window| == MaxSegs(me.cfg) <= 128
  {
    MaxSegsBound(me.cfg);
  }

  /** Whatever arrives is well formed. */
  lemma ArrivedSegOk(me: Endpoint, peer: Endpoint, out: seq<Flight>, inc: seq<Flight>)
    requires inc != [] && Local(me) && Local(peer) && !me.rstSent
    requires Link(peer, me, inc, out)
    ensures SegOk(inc[0].seg)
    ensures inc[0].seg.syn ==> inc[0].seg.ack == peer.cfg.isServer && inc[0].seg.params.ossMX == MaxSegs(peer.cfg)
    ensures inc[0].seg.syn ==> peer.tx.sent != [] && Carries(inc[0].seg, peer.tx.sent[0], peer.tx.isn) && inc[0].top >= 1
    ensures inc[0].seg.payload != [] || inc[0].seg.nul ==> !NoData(inc[0].seg)
  {
    hide Base, Dats;
    var f := inc[0];
    assert FlightOk(peer.tx, MaxSegs(me.cfg), f);
    MaxSegsBound(peer.cfg);
    if f.seg.syn {
      assert peer.tx.sent[f.idx].Syn?;
      assert f.idx == 0;
    }
  }

  // ----- a segment arrives

  /** What leaves the endpoint can enter the channel. */
  ghost predicate EnterReady(e: Endpoint) {
    e.rx.got == [] && !e.rstSent ==> forall k :: 0 <= k < |e.wire| ==> !e.wire[k].ack
  }

  /** Payloads are neither lost nor invented on their way between user and protocol. */
  ghost predicate UserSame(e: Endpoint, e': Endpoint) {
    && e'.tx.taken + e'.inpQ == e.tx.taken + e.inpQ
    && e.rx.delivered <= e'.rx.delivered
    && e'.outQ == e.outQ + e'.rx.delivered[|e.rx.delivered|..]
    && e'.started == e.started && e'.cfg == e.cfg
  }

  /** Both SYNs have been exchanged. */
  lemma RxConnected(me: Endpoint, peer: Endpoint, out: seq<Flight>, inc: seq<Flight>, e1: Endpoint)
    requires Pair(me, peer, out, inc) && inc != [] && ControlOk(me) && me.wire == []
    requires me.st.SERV_WAIT_SYN_ACK? || IsOpen(me.st)
    requires e1 == me.(ctl := me.ctl.(numCak := e1.ctl.numCak), st := e1.st) && (e1.st == me.st || e1.st.CLOSED?)
    ensures var e4 := RxAccepted(me.st, e1, inc[0].seg);
            && Pair(e4, peer, out, inc[1..]) && Established(e4) && UserSame(me, e4)
            && (e4.st == me.st || e4.st.CLOSED?)
            && (e4.rstSent ==> e4.st.CLOSED? && RingSize(e4) > 0 && RingSize(e4) >= RingSize(me))
            && e4.ctl.nulT && e4.ctl.usrI == me.ctl.usrI && (!IsOpen(me.st) ==> e4.ctl.usrO == me.ctl.usrO)
            && e4.cfg == me.cfg && e4.par == me.par
  {
    hide RunningOk;
    var seg := inc[0].seg;
    var e2 := ProcessAckNumber(e1, seg);
    var e3 := RxData(me.st, e2, seg);
    var e4 := Reply(me.st, e3, seg);
    hide Local, Link, RxData, Reply, ProcessAckNumber, NoDataOnWire;
    LocalFrame(me, e1);
    Admitted(me, e1);
    AckStage(e1, peer, out, inc);
    DataStage(me.st, e2, peer, out, inc);
    ReplyLocal(me.st, e3, seg);
    SendsKeepPair(e3, e4, peer, out, inc[1..]);
    ConnectedChain(me, e1, e2, e3, e4);
  }

  lemma Admitted(me: Endpoint, e1: Endpoint)
    requires ControlOk(me) && me.wire == [] && (me.st.SERV_WAIT_SYN_ACK? || IsOpen(me.st)) && Local(me)
    requires e1 == me.(ctl := me.ctl.(numCak := e1.ctl.numCak), st := e1.st)
    ensures e1.rx.got != [] && NoDataOnWire(e1) && Established(e1) && me.par.rexMX >= 1
  {
  }

  /** Acknowledge, hand on, reply: what the three stages amount to. */
  lemma ConnectedChain(me: Endpoint, e1: Endpoint, e2: Endpoint, e3: Endpoint, e4: Endpoint)
    requires ControlOk(me) && (me.st.SERV_WAIT_SYN_ACK? || IsOpen(me.st)) && me.par.rexMX >= 1
    requires e1 == me.(ctl := me.ctl.(numCak := e1.ctl.numCak), st := e1.st) && (e1.st == me.st || e1.st.CLOSED?)
    requires AcksOnly(e1, e2) && (RingSize(e2) < RingSize(e1) ==> e2.ctl.numRex == 0)
    requires DrainsOnly(e2, e3) && (!IsOpen(me.st) ==> e3.ctl.usrO == e2.ctl.usrO)
    requires Replies(me.st, e3, e4)
    ensures Established(e4) && UserSame(me, e4)
    ensures (e4.st == me.st || e4.st.CLOSED?)
    ensures e4.rstSent ==> e4.st.CLOSED? && RingSize(e4) > 0 && RingSize(e4) >= RingSize(me)
    ensures e4.ctl.nulT && e4.ctl.usrI == me.ctl.usrI && (!IsOpen(me.st) ==> e4.ctl.usrO == me.ctl.usrO)
    ensures e4.cfg == me.cfg && e4.par == me.par
  {
    hide Local;
  }

  lemma RxEstablished(me: Endpoint, peer: Endpoint, out: seq<Flight>, inc: seq<Flight>, isn: Byte)
    requires Pair(me, peer, out, inc) && inc != [] && ControlOk(me) && me.wire == []
    requires me.st.SERV_WAIT_SYN_ACK? || IsOpen(me.st)
    ensures var me' := HandleRx(me, inc[0].seg, isn);
            Pair(me', peer, out, inc[1..]) && EnterReady(me') && UserSame(me, me') && ControlOk(me')
  {
    hide RunningOk, Link;
    var seg := inc[0].seg;
    AdmitConnected(me, seg, isn);
    hide HandleSyn, HandleOth, RxAccepted, Local, Link, AfterRx, ControlOk, UserSame;
    var (e1, ok) := if seg.syn then HandleSyn(me, seg, isn) else HandleOth(me, seg);
    if ok {
      RxConnected(me, peer, out, inc, e1);
      var e4 := RxAccepted(me.st, e1, seg);
      AfterRxControl(me, e4);
      PairFrame(e4, AfterRx(me.st, e4), peer, out, inc[1..]);
    } else {
      SkipHead(me, peer, out, inc);
      AfterRxControl(me, me);
      PairFrame(me, AfterRx(me.st, me), peer, out, inc[1..]);
    }
  }

  lemma AfterRxControl(me: Endpoint, e: Endpoint)
    requires me.st.SERV_WAIT_SYN_ACK? || IsOpen(me.st)
    requires ControlOk(me) && Established(e) && UserSame(me, e) && e.cfg == me.cfg && e.par == me.par
    requires e.st == me.st || e.st.CLOSED?
    requires e.rstSent ==> e.st.CLOSED? && RingSize(e) > 0 && RingSize(e) >= RingSize(me)
    requires e.ctl.nulT && e.ctl.usrI == me.ctl.usrI && (!IsOpen(me.st) ==> e.ctl.usrO == me.ctl.usrO)
    ensures var e' := AfterRx(me.st, e);
            ControlOk(e') && EnterReady(e') && UserSame(me, e') && e' == e.(st := e'.st, ctl := e'.ctl)
  {
  }

  /** The state and the control part take no part in the exchange. */
  lemma PairFrame(e: Endpoint, e': Endpoint, peer: Endpoint, out: seq<Flight>, inc: seq<Flight>)
    requires Pair(e, peer, out, inc) && e.started && e' == e.(st := e'.st, ctl := e'.ctl)
    ensures Pair(e', peer, out, inc)
  {
  }

  lemma AdmitConnected(me: Endpoint, seg: Segment, isn: Byte)
    requires me.st.SERV_WAIT_SYN_ACK? || IsOpen(me.st)
    ensures var (e1, ok) := if seg.syn then HandleSyn(me, seg, isn) else HandleOth(me, seg);
            && e1 == me.(ctl := me.ctl.(numCak := e1.ctl.numCak), st := e1.st) && (e1.st == me.st || e1.st.CLOSED?)
            && (!ok ==> e1 == me)
  {
    hide HandleSyn, HandleOth, ForceAck;
    AdmitSyn(me, seg, isn);
    AdmitOth(me, seg);
    AckForced(me);
  }

  lemma AdmitSyn(me: Endpoint, seg: Segment, isn: Byte)
    requires me.st.SERV_WAIT_SYN_ACK? || IsOpen(me.st)
    ensures HandleSyn(me, seg, isn) == (ForceAck(me), true)
  {
    hide SendSyn, ExtractParams, Seed, Abort, ForceAck;
  }

  lemma AdmitOth(me: Endpoint, seg: Segment)
    requires me.st.SERV_WAIT_SYN_ACK? || IsOpen(me.st)
    ensures var (e1, ok) := HandleOth(me, seg);
            && (e1 == me.(ctl := me.ctl.(numCak := me.ctl.numCak - 1)) || e1 == ForceAck(me) || e1 == me || e1 == me.(st := CLOSED))
            && (!ok ==> e1 == me)
  {
    hide WaitSynHandleOth, ForceAck;
  }

  lemma AckForced(me: Endpoint)
    ensures ForceAck(me) == me.(ctl := me.ctl.(numCak := ForceAck(me).ctl.numCak))
  {
  }

  /** A segment is dropped on arrival. */
  lemma SkipHead(me: Endpoint, peer: Endpoint, out: seq<Flight>, inc: seq<Flight>)
    requires Pair(me, peer, out, inc) && inc != []
    ensures Pair(me, peer, out, inc[1..])
  {
    if !QuitDeaf(me) {
      DropHead(peer.tx, me.rx, MaxSegs(me.cfg), inc);
    }
    if !QuitDeaf(peer) {
      DropHeadAck(me.tx, peer.rx, inc);
    }
  }

  /** The peer's SYN is taken in: from here on the receiving half follows the peer's history. */
  lemma GreetPair(me: Endpoint, peer: Endpoint, out: seq<Flight>, inc: seq<Flight>)
    requires Pair(me, peer, out, inc) && inc != [] && inc[0].seg.syn
    requires me.started && !me.rstSent && NothingReceived(me) && me.wire == []
    ensures Pair(Greeted(me, inc[0].seg), peer, out, inc)
  {
    var seg := inc[0].seg;
    ArrivedSegOk(me, peer, out, inc);
    GreetedLocal(me, seg);
    var g := Greeted(me, seg);
    assert ItemOf(seg) == peer.tx.sent[0];
    GreetData(peer.tx, me.rx, g.rx, MaxSegs(me.cfg), inc);
    AcksMore(peer.tx, me.rx, g.rx, out);
    if !QuitDeaf(peer) {
      DataGrows(me.tx, g.tx, peer.rx, MaxSegs(peer.cfg), out);
      AcksKeep(me.tx, g.tx, peer.rx, inc);
    }
  }

  lemma GreetData(x: Tx, y: Rx, y': Rx, lim: nat, inc: seq<Flight>)
    requires DataOk(x, y, lim, inc) && inc != [] && inc[0].top >= 1 && x.sent != []
    requires WindowEmpty(y.window) && y'.window == y.window && |y'.got| == 1 && y'.oldest == Nxt(x.isn)
    ensures DataOk(x, y', lim, inc)
  {
    NumNext(x.isn, 0);
    NumZero(x.isn);
    forall k | 0 <= k < |inc|
      ensures NotPast(y', inc[k])
    {
      assert NotPast(y, inc[k]) && (k > 0 ==> inc[0].top <= inc[k].top);
    }
  }

  /** This side's SYN starts its history. */
  lemma SynPair(me: Endpoint, doAck: bool, isn: Byte, peer: Endpoint, out: seq<Flight>, inc: seq<Flight>)
    requires Pair(me, peer, out, inc)
    requires me.started && !me.rstSent && me.tx.sent == [] && me.wire == [] && doAck == me.cfg.isServer
    ensures Pair(SendSyn(me, doAck, isn), peer, out, inc)
  {
    SendSynLocal(me, doAck, isn);
    var e := SendSyn(me, doAck, isn);
    if !QuitDeaf(peer) {
      assert peer.rx.got == [];
      forall k | 0 <= k < |out|
        ensures FlightOk(e.tx, MaxSegs(peer.cfg), out[k])
      {
        assert FlightOk(me.tx, MaxSegs(peer.cfg), out[k]);
      }
      forall k | 0 <= k < |inc|
        ensures AckOk(e.tx, peer.rx, inc[k])
      {
        assert AckOk(me.tx, peer.rx, inc[k]);
      }
    }
  }

  /** A segment without data that has been admitted before the connection is up. */
  lemma RxBare(self: State, e1: Endpoint, peer: Endpoint, out: seq<Flight>, inc: seq<Flight>)
    requires Pair(e1, peer, out, inc) && inc != [] && e1.started && !IsOpen(self)
    requires inc[0].seg.payload == [] && !inc[0].seg.nul
    requires inc[0].seg.ack ==> NoDataOnWire(e1)
    requires e1.rstSent ==> e1.st == CLOSED
    ensures var e' := RxAccepted(self, e1, inc[0].seg);
            && Pair(e', peer, out, inc[1..]) && UserSame(e1, e')
            && (e'.st == e1.st || e'.st.CLOSED?) && (e'.rstSent ==> e'.st.CLOSED?)
            && e'.cfg == e1.cfg && e'.rx == e1.rx && e'.started && (e1.rstSent ==> e'.rstSent)
            && e'.tx.sent == e1.tx.sent
            && (e1.ctl.nulT ==> e'.ctl.nulT) && (e1.cfg.isServer && !e1.ctl.peerBSY ==> e'.ctl.nulT)
            && e'.ctl.usrI == e1.ctl.usrI && e'.ctl.usrO == e1.ctl.usrO
  {
    hide RunningOk, Link;
    var seg := inc[0].seg;
    AckStage(e1, peer, out, inc);
    var e2 := ProcessAckNumber(e1, seg);
    DropMid(e2, peer, out, inc);
    assert RxData(self, e2, seg) == e2;
    ReplyLocal(self, e2, seg);
    SendsKeepPair(e2, Reply(self, e2, seg), peer, out, inc[1..]);
  }

  /** A client or server that waits for a SYN receives something else. */
  lemma RxWaitOther(me: Endpoint, peer: Endpoint, out: seq<Flight>, inc: seq<Flight>, isn: Byte)
    requires Pair(me, peer, out, inc) && inc != [] && ControlOk(me) && me.wire == []
    requires (me.st.LISTEN? || me.st.CLNT_WAIT_SYN_ACK?) && !inc[0].seg.syn
    ensures var me' := HandleRx(me, inc[0].seg, isn);
            Pair(me', peer, out, inc[1..]) && EnterReady(me') && UserSame(me, me') && ControlOk(me')
  {
    hide Link, RunningOk, Local, DataOk, AcksOk;
    var seg := inc[0].seg;
    ArrivedSegOk(me, peer, out, inc);
    if WaitSynHandleOth(me, seg).1 {
      AdmitReset(me, seg);
      var e1 := Abort(me);
      hide Abort, Local, Link, RxAccepted;
      SendsKeepPair(me, e1, peer, out, inc);
      RxBare(me.st, e1, peer, out, inc);
    } else {
      SkipHead(me, peer, out, inc);
    }
  }

  lemma AdmitReset(me: Endpoint, seg: Segment)
    requires Local(me) && me.started && me.wire == [] && WaitSynHandleOth(me, seg).1 && SegOk(seg)
    ensures var e1 := Abort(me);
            && WaitSynHandleOth(me, seg).0 == e1 && Local(e1) && SendsOnly(me, e1)
            && seg.payload == [] && !seg.nul && NoDataOnWire(e1) && e1.rstSent && e1.st == CLOSED
            && UserSame(me, e1)
  {
    SendRstLocal(me);
  }

  lemma RxListenSyn(me: Endpoint, peer: Endpoint, out: seq<Flight>, inc: seq<Flight>, isn: Byte)
    requires Pair(me, peer, out, inc) && inc != [] && ControlOk(me) && me.wire == []
    requires me.st.LISTEN? && inc[0].seg.syn
    ensures var me' := HandleRx(me, inc[0].seg, isn);
            Pair(me', peer, out, inc[1..]) && EnterReady(me') && UserSame(me, me') && ControlOk(me')
  {
    hide Link, Local, DataOk, NothingReceived;
    var seg := inc[0].seg;
    ArrivedSegOk(me, peer, out, inc);
    GreetPair(me, peer, out, inc);
    var g := Greeted(me, seg);
    var e1 := HandleSyn(me, seg, isn).0;
    AdmitListen(me, seg, isn);
    hide Greeted, Local, Link, RxAccepted, HandleSyn, SendSyn;
    SynPair(g, true, isn, peer, out, inc);
    PairFrame(SendSyn(g, true, isn), e1, peer, out, inc);
    RxBare(me.st, e1, peer, out, inc);
  }

  lemma AdmitListen(me: Endpoint, seg: Segment, isn: Byte)
    requires me.st.LISTEN? && seg.syn && ControlOk(me) && me.wire == [] && me.started
    ensures var (e1, ok) := HandleSyn(me, seg, isn);
            var g := Greeted(me, seg);
            var x := SendSyn(g, true, isn);
            && ok && e1 == x.(st := SERV_WAIT_SYN_ACK, ctl := e1.ctl)
            && g.started && !g.rstSent && g.tx.sent == [] && g.wire == [] && g.cfg == me.cfg
            && e1.started && !e1.rstSent && e1.cfg == me.cfg && UserSame(me, e1)
            && |e1.rx.got| == 1
            && e1.rx == g.rx && e1.tx.sent != [] && !e1.ctl.usrI && !e1.ctl.usrO && !e1.ctl.peerBSY
  {
  }

  lemma RxClientSyn(me: Endpoint, peer: Endpoint, out: seq<Flight>, inc: seq<Flight>, isn: Byte)
    requires Pair(me, peer, out, inc) && inc != [] && ControlOk(me) && me.wire == []
    requires me.st.CLNT_WAIT_SYN_ACK? && inc[0].seg.syn
    ensures var me' := HandleRx(me, inc[0].seg, isn);
            Pair(me', peer, out, inc[1..]) && EnterReady(me') && UserSame(me, me') && ControlOk(me')
  {
    hide Link, DataOk, RunningOk, Local;
    var seg := inc[0].seg;
    ArrivedSegOk(me, peer, out, inc);
    GreetPair(me, peer, out, inc);
    var e1 := HandleSyn(me, seg, isn).0;
    var g := Greeted(me, seg);
    AdmitClient(me, seg, isn);
    hide Greeted, Local, Link, RxAccepted, HandleSyn;
    PairFrame(g, e1, peer, out, inc);
    RxBare(me.st, e1, peer, out, inc);
    RingWithinSent(RxAccepted(me.st, e1, seg));
  }

  lemma AdmitClient(me: Endpoint, seg: Segment, isn: Byte)
    requires me.st.CLNT_WAIT_SYN_ACK? && seg.syn && seg.ack && me.started && !me.rstSent && me.wire == []
    ensures var (e1, ok) := HandleSyn(me, seg, isn);
            var g := Greeted(me, seg);
            && ok && e1 == g.(st := e1.st, ctl := me.ctl.(numCak := e1.ctl.numCak)) && (e1.st == me.st || e1.st.PREP_OPEN?)
            && g.inpQ == me.inpQ && g.outQ == me.outQ && g.tx.taken == me.tx.taken && g.rx.delivered == me.rx.delivered
            && g.tx.sent == me.tx.sent && g.rx.window == me.rx.window && |g.rx.got| == 1
            && g.cfg == me.cfg && g.started && !g.rstSent && g.wire == []
  {
  }

  lemma RingWithinSent(e: Endpoint)
    requires e.started && Local(e)
    ensures RingSize(e) <= |e.tx.sent|
  {
  }

  // ----- every event keeps the invariant

  lemma RxKeeps(me: Endpoint, peer: Endpoint, out: seq<Flight>, inc: seq<Flight>, isn: Byte)
    requires Pair(me, peer, out, inc) && inc != [] && ControlOk(me) && me.wire == [] && Waiting(me.st)
    ensures var me' := HandleRx(me, inc[0].seg, isn);
            Pair(me', peer, out, inc[1..]) && EnterReady(me') && UserSame(me, me') && ControlOk(me')
  {
    if me.st.SERV_WAIT_SYN_ACK? || IsOpen(me.st) {
      RxEstablished(me, peer, out, inc, isn);
    } else if !inc[0].seg.syn {
      RxWaitOther(me, peer, out, inc, isn);
    } else if me.st.LISTEN? {
      RxListenSyn(me, peer, out, inc, isn);
    } else {
      RxClientSyn(me, peer, out, inc, isn);
    }
  }

  lemma DrainPair(self: State, me: Endpoint, peer: Endpoint, out: seq<Flight>, inc: seq<Flight>)
    requires Pair(me, peer, out, inc) && Established(me) && !me.rstSent && me.wire == [] && IsOpen(self)
    ensures Pair(Drain(self, me), peer, out, inc) && DrainsOnly(me, Drain(self, me))
  {
    DrainLocal(self, me);
    hide Local, DataOk, AcksOk, Drain;
    DrainStored(self, me, peer.tx, MaxSegs(me.cfg), inc);
    AcksMore(peer.tx, me.rx, Drain(self, me).rx, out);
  }

  lemma OutputKeeps(me: Endpoint, peer: Endpoint, out: seq<Flight>, inc: seq<Flight>)
    requires Pair(me, peer, out, inc) && ControlOk(me) && me.wire == [] && IsOpen(me.st)
    ensures var me' := HandleUsrOutput(me);
            Pair(me', peer, out, inc) && EnterReady(me') && UserSame(me, me') && ControlOk(me')
  {
    hide Local, RunningOk, Link, DataOk, Base, AcksOk;
    var e0 := me.(ctl := me.ctl.(usrO := false));
    PairFrame(me, e0, peer, out, inc);
    DrainPair(me.st, e0, peer, out, inc);
    var e1 := Drain(me.st, e0);
    hide Drain, Local, Link, SendAck;
    if !e1.ctl.usrO {
      SendAckLocal(e1);
      SendsKeepPair(e1, SendAck(e1), peer, out, inc);
      SendAckFields(e1);
    }
  }

  lemma SendAckFields(e: Endpoint)
    ensures SendAck(e) == e.(wire := SendAck(e).wire, ctl := e.ctl.(numCak := 0, ackT := false))
  {
  }

  lemma InputKeeps(me: Endpoint, peer: Endpoint, out: seq<Flight>, inc: seq<Flight>)
    requires Pair(me, peer, out, inc) && ControlOk(me) && me.wire == [] && IsOpen(me.st) && me.ctl.usrI
    ensures var me' := HandleUsrInput(me);
            Pair(me', peer, out, inc) && EnterReady(me') && UserSame(me, me') && ControlOk(me')
  {
    InputLoopLocal(me);
    var s := InputLoop(me);
    hide Local, Link, InputLoop;
    SendsKeepPair(me, s, peer, out, inc);
    PairFrame(s, HandleUsrInput(me), peer, out, inc);
  }

  lemma RexKeeps(me: Endpoint, peer: Endpoint, out: seq<Flight>, inc: seq<Flight>)
    requires Pair(me, peer, out, inc) && ControlOk(me) && me.wire == [] && Waiting(me.st)
    ensures var me' := RexTimeout(me);
            Pair(me', peer, out, inc) && EnterReady(me') && UserSame(me, me') && ControlOk(me')
  {
    var e0 := me.(ctl := me.ctl.(rexT := false));
    PairFrame(me, e0, peer, out, inc);
    ProcessRexLocal(e0);
    RexOfClient(e0);
    var e' := ProcessRex(e0);
    RingWithinSent(e');
    hide Local, Link, ProcessRex, ControlOk, EnterReady, UserSame;
    SendsKeepPair(e0, e', peer, out, inc);
    RexControl(me, e0, e');
  }

  lemma RexControl(me: Endpoint, e0: Endpoint, e': Endpoint)
    requires ControlOk(me) && Waiting(me.st) && e0 == me.(ctl := me.ctl.(rexT := false)) && SendsOnly(e0, e')
    requires (e'.rstSent && e'.st.CLOSED?) || (!e'.rstSent && e'.st == me.st)
    requires e'.tx.sent == me.tx.sent && RingSize(e') == RingSize(me) && e'.ctl.usrI == me.ctl.usrI
    requires e'.inpQ == me.inpQ && e'.ctl.peerBSY == me.ctl.peerBSY
    ensures ControlOk(e') && UserSame(me, e')
  {
    hide Local, RunningOk;
  }

  /** A client that has received nothing has nothing to acknowledge: it repeats its SYN. */
  lemma RexOfClient(e: Endpoint)
    requires e.started && Local(e) && e.wire == [] && (e.rx.got == [] && e.cfg.isServer ==> e.tx.sent == [])
    ensures EnterReady(ProcessRex(e))
  {
    ProcessRexLocal(e);
    var e1 := e.(ctl := e.ctl.(numRex := e.ctl.numRex + 1));
    if e.rx.got == [] && e1.ctl.numRex <= e1.par.rexMX && RingSize(e1) > 0 {
      assert RingSize(e1) == 1;
      var seg := e1.tx.ring.segs[0];
      assert Carries(seg, e1.tx.sent[Base(e1.tx) + 0], Num(e1.tx.isn, Base(e1.tx) + 0));
      var e2 := ResendAt(e1, 0);
      assert RetransmitFrom(e1, 0) == RetransmitFrom(e2, 1) == e2;
      assert e2.wire == [Stamp(e1, seg)];
    }
  }

  lemma AckKeeps(me: Endpoint, peer: Endpoint, out: seq<Flight>, inc: seq<Flight>)
    requires Pair(me, peer, out, inc) && ControlOk(me) && me.wire == [] && IsOpen(me.st)
    ensures var me' := AckTimeout(me);
            Pair(me', peer, out, inc) && EnterReady(me') && UserSame(me, me') && ControlOk(me')
  {
    var e0 := me.(ctl := me.ctl.(ackT := false));
    PairFrame(me, e0, peer, out, inc);
    hide Local, Link, SendDatOrAck;
    SendDatOrAckLocal(me.st, e0);
    SendsKeepPair(e0, AckTimeout(me), peer, out, inc);
  }

  lemma NulKeeps(me: Endpoint, peer: Endpoint, out: seq<Flight>, inc: seq<Flight>)
    requires Pair(me, peer, out, inc) && ControlOk(me) && me.wire == [] && IsOpen(me.st)
    ensures var me' := NulTimeout(me);
            Pair(me', peer, out, inc) && EnterReady(me') && UserSame(me, me') && ControlOk(me')
  {
    hide Local, Link;
    var e0 := me.(ctl := me.ctl.(nulT := false));
    PairFrame(me, e0, peer, out, inc);
    hide Local, Link, SendNul, Abort;
    if me.cfg.isServer {
      SendRstLocal(e0);
      SendsKeepPair(e0, Abort(e0), peer, out, inc);
      AbortCloses(e0);
    } else {
      SendNulLocal(e0);
      SendsKeepPair(e0, SendNul(e0), peer, out, inc);
      PairFrame(SendNul(e0), NulTimeout(me), peer, out, inc);
    }
  }

  lemma AbortCloses(e: Endpoint)
    ensures Abort(e).st.CLOSED? && Abort(e).rstSent && Abort(e).started == e.started
  {
  }

  /** A new epoch: close() and open() leave nothing behind. */
  lemma ClosePair(me: Endpoint, peer: Endpoint, out: seq<Flight>, inc: seq<Flight>)
    requires Pair(me, peer, out, inc) && !me.started
    ensures Pair(Close(me).(started := true), peer, out, inc)
  {
    hide DataOk, Num;
    var e := Close(me).(started := true);
    assert Dats([]) == [];
    MaxSegsBound(me.cfg);
    if !QuitDeaf(peer) {
      DataGrows(me.tx, e.tx, peer.rx, MaxSegs(peer.cfg), out);
      forall k | 0 <= k < |inc|
        ensures AckOk(e.tx, peer.rx, inc[k])
      {
        assert AckOk(me.tx, peer.rx, inc[k]);
      }
    }
    StartData(peer.tx, me.rx, e.rx, MaxSegs(me.cfg), inc);
    AcksMore(peer.tx, me.rx, e.rx, out);
  }

  lemma StartData(x: Tx, y: Rx, y': Rx, lim: nat, inc: seq<Flight>)
    requires DataOk(x, y, lim, inc) && y.got == y'.got == []
    ensures DataOk(x, y', lim, inc)
  {
  }

  lemma StartKeeps(me: Endpoint, peer: Endpoint, out: seq<Flight>, inc: seq<Flight>, isn: Byte)
    requires Pair(me, peer, out, inc) && !me.started
    ensures var me' := Start(me, isn);
            && Pair(me', peer, out, inc) && EnterReady(me') && ControlOk(me') && me'.started && me'.cfg == me.cfg
            && me'.inpQ == me'.outQ == me'.tx.taken == me'.rx.delivered == []
  {
    hide Link, RunningOk, DataOk;
    var e := Close(me).(started := true);
    ClosePair(me, peer, out, inc);
    if me.cfg.isServer {
      PairFrame(e, e.(st := LISTEN), peer, out, inc);
    } else {
      SendSynLocal(e, false, isn);
      SynPair(e, false, isn, peer, out, inc);
      SynFields(e, isn);
      hide Local, Link, SendSyn, DataOk, AcksOk;
      PairFrame(SendSyn(e, false, isn), Start(me, isn), peer, out, inc);
      RingWithinSent(Start(me, isn));
    }
  }

  lemma SynFields(e: Endpoint, isn: Byte)
    ensures var e' := SendSyn(e, false, isn);
            e'.inpQ == e.inpQ && e'.outQ == e.outQ && e'.tx.taken == e.tx.taken && e'.cfg == e.cfg
  {
  }

  lemma OpensKeeps(me: Endpoint, peer: Endpoint, out: seq<Flight>, inc: seq<Flight>)
    requires Pair(me, peer, out, inc) && me.st.PREP_OPEN? && ControlOk(me)
    ensures var me' := EnterOpen(me);
            Pair(me', peer, out, inc) && ControlOk(me') && UserSame(me, me') && (me.wire == [] ==> EnterReady(me'))
  {
    PairFrame(me, EnterOpen(me), peer, out, inc);
  }

  lemma EventKeeps(me: Endpoint, peer: Endpoint, out: seq<Flight>, inc: seq<Flight>, ev: Event)
    requires Pair(me, peer, out, inc) && ControlOk(me) && me.wire == []
    requires EventEnabled(me, ev, inc) && !Throws(me.st, ev)
    ensures var me' := Perform(me, ev, inc);
            && Pair(me', peer, out, Remaining(ev, inc))
            && EnterReady(me') && ControlOk(me') && me'.started && me'.cfg == me.cfg
            && (me.started ==> UserSame(me, me'))
            && (!me.started ==> me'.inpQ == me'.outQ == me'.tx.taken == me'.rx.delivered == [])
  {
    hide Local, Link, HandleRx, HandleUsrInput, HandleUsrOutput, RexTimeout, AckTimeout, NulTimeout, Start, EnterOpen;
    match ev
    case Starts(isn) => StartKeeps(me, peer, out, inc, isn);
    case Opens => OpensKeeps(me, peer, out, inc);
    case Arrives(isn) => RxKeeps(me, peer, out, inc, isn);
    case Input => InputKeeps(me, peer, out, inc);
    case Output => OutputKeeps(me, peer, out, inc);
    case RexExpires => RexKeeps(me, peer, out, inc);
    case AckExpires => AckKeeps(me, peer, out, inc);
    case NulExpires => NulKeeps(me, peer, out, inc);
  }

  lemma DoesKeeps(me: Side, peer: Endpoint, out: seq<Flight>, inc: seq<Flight>, ev: Event)
    requires Pair(me.e, peer, out, inc) && SideOk(me)
    requires EventEnabled(me.e, ev, inc) && !Throws(me.e.st, ev)
    ensures var me' := me.(e := Perform(me.e, ev, inc));
            && Pair(Flush(me').e, peer, out + AnnotateAll(me'.e), Remaining(ev, inc))
            && SideOk(Flush(me')) && me'.e.cfg == me.e.cfg
  {
    hide Local, Link, Pair, Perform, EventEnabled, ControlOk;
    var e' := Perform(me.e, ev, inc);
    EventKeeps(me.e, peer, out, inc, ev);
    EnterKeepsPair(e', peer, out, Remaining(ev, inc));
    ControlFlush(e');
  }

  lemma ControlFlush(e: Endpoint)
    requires ControlOk(e)
    ensures ControlOk(e.(wire := []))
  {
  }

  lemma SideKeeps(me: Side, peer: Endpoint, out: seq<Flight>, inc: seq<Flight>, act: Action)
    requires Pair(me.e, peer, out, inc) && SideOk(me)
    requires !act.Loses? && SideEnabled(me, act, inc)
    ensures var me' := SideNext(me, act, inc);
            && Pair(Flush(me').e, peer, out + AnnotateAll(me'.e), Rest(act, inc))
            && SideOk(Flush(me')) && me'.e.cfg == me.e.cfg
  {
    hide Local, Link, Perform, EventEnabled, Pair;
    var me' := SideNext(me, act, inc);
    match act {
      case Does(_, ev) =>
        DoesKeeps(me, peer, out, inc, ev);
      case Writes(_, p) =>
        WritePair(me.e, p, peer, out, inc);
        assert out + AnnotateAll(me'.e) == out;
      case Reads(_) =>
        ReadPair(me.e, peer, out, inc);
        assert out + AnnotateAll(me'.e) == out;
    }
  }

  lemma WritePair(e: Endpoint, p: Payload, peer: Endpoint, out: seq<Flight>, inc: seq<Flight>)
    requires Pair(e, peer, out, inc) && p != []
    ensures Pair(e.(inpQ := e.inpQ + [p]), peer, out, inc)
  {
  }

  lemma ReadPair(e: Endpoint, peer: Endpoint, out: seq<Flight>, inc: seq<Flight>)
    requires Pair(e, peer, out, inc) && e.outQ != []
    ensures Pair(e.(outQ := e.outQ[1..]), peer, out, inc)
  {
  }

  lemma LossKeeps(x: Endpoint, y: Endpoint, ch: seq<Flight>, rv: seq<Flight>, i: nat)
    requires Pair(x, y, ch, rv) && i < |ch|
    ensures Pair(x, y, ch[..i] + ch[i + 1..], rv)
  {
    DropAny(x.tx, y.rx, MaxSegs(y.cfg), ch, i);
    DropAny(y.tx, x.rx, MaxSegs(x.cfg), ch, i);
  }

  lemma InitInv(s: System)
    requires Init(s)
    ensures Inv(s)
  {
  }

  lemma NextInv(s: System, act: Action)
    requires Inv(s) && Enabled(s, act)
    ensures Inv(Next(s, act))
  {
    hide Local, Link, SideOk, SideNext, SideEnabled;
    if act.Loses? {
      if act.fromClient {
        LossKeeps(s.c.e, s.s.e, s.cs, s.sc, act.i);
      } else {
        LossKeeps(s.s.e, s.c.e, s.sc, s.cs, act.i);
      }
    } else if ByClient(act) {
      SideKeeps(s.c, s.s.e, s.cs, s.sc, act);
    } else {
      SideKeeps(s.s, s.c.e, s.sc, s.cs, act);
    }
  }

  // ----- over every run

  /** Every state that a run reaches satisfies the invariant. */
  lemma {:induction false} RunInv(s: System, acts: seq<Action>)
    requires Inv(s) && CanRun(s, acts)
    ensures Inv(Run(s, acts))
    decreases |acts|
  {
    if acts != [] {
      NextInv(s, acts[0]);
      RunInv(Next(s, acts[0]), acts[1..]);
    }
  }
}

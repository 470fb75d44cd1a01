/** What an RST does to the endpoint that sends it and to the one that receives it. */
module RssiResets {
  import opened Wrappers
  import opened CircularIndex
  import opened RssiSegments
  import opened RssiEndpoint
  import opened RssiInvariant
  import opened RssiLink
  import opened RssiSystem

  /** Segments that stay in the ring when `seg` arrives. */
  function Left(e: Endpoint, seg: Segment): nat {
    RingSize(e) - if seg.ack then AckCount(e.tx.ring, seg.ackNo) else 0
  }

  // ----- the endpoint that gives up

  /** A full window is released by the segment whose release of the busy flag uses up a
      retransmission limit of zero. */
  predicate Revives(e: Endpoint, ev: Event, inc: seq<Flight>) {
    && ev.Arrives? && inc != [] && e.st.OPEN_OUTWIN_FULL? && Admits(e, inc[0].seg, ev.isn)
    && e.par.rexMX == 0 && e.ctl.peerBSY && !inc[0].seg.bsy
    && 0 < Left(e, inc[0].seg) < RingSize(e)
  }

  lemma {:induction false} RetransmitFacts(e: Endpoint, k: nat)
    requires k <= RingSize(e)
    ensures var e' := RetransmitFrom(e, k);
            RingSize(e') == RingSize(e) && e'.par == e.par && e'.rstSent == e.rstSent && e'.st == e.st
    decreases RingSize(e) - k
  {
    if k < RingSize(e) {
      RetransmitFacts(ResendAt(e, k), k + 1);
    }
  }

  lemma RexFacts(e: Endpoint)
    ensures var e' := ProcessRex(e);
            && RingSize(e') == RingSize(e) && e'.par == e.par
            && e'.rstSent == (e.rstSent || e.ctl.numRex + 1 > e.par.rexMX)
            && e'.st == (if e.ctl.numRex + 1 > e.par.rexMX then CLOSED else e.st)
  {
    hide RetransmitFrom;
    RetransmitFacts(CountRex(e), 0);
  }

  lemma DataFacts(self: State, e: Endpoint, seg: Segment)
    ensures var e' := RxData(self, e, seg);
            && e'.tx == e.tx && e'.par == e.par && e'.rstSent == e.rstSent && e'.st == e.st
            && e'.ctl.numRex == e.ctl.numRex && e'.ctl.peerBSY == e.ctl.peerBSY
  {
    hide DrainLoop;
  }

  /** Giving up is the only way to send an RST once a segment has been admitted. */
  lemma ReplyFacts(self: State, e: Endpoint, seg: Segment)
    ensures var e' := Reply(self, e, seg);
            var gives := e.ctl.peerBSY && !seg.bsy && RingSize(e) > 0 && e.ctl.numRex + 1 > e.par.rexMX;
            && e'.rstSent == (e.rstSent || gives) && e'.st == (if gives then CLOSED else e.st) && e'.par == e.par
            && (gives ==> RingSize(e') == RingSize(e))
  {
    hide ProcessRex, SendDatOrAck;
    RexFacts(RxBusy(e, seg));
    PolicyFacts(self, RxBusy(e, seg));
  }

  lemma SendFacts(self: State, e: Endpoint)
    ensures var e' := SendDatOrAck(self, e); e'.rstSent == e.rstSent && e'.st == e.st && e'.par == e.par
  {
    hide Stamp;
  }

  lemma PolicyFacts(self: State, e: Endpoint)
    ensures var e' := RxAckPolicy(self, e); e'.rstSent == e.rstSent && e'.st == e.st && e'.par == e.par
  {
    hide SendDatOrAck;
    SendFacts(self, CountSegment(e));
  }

  lemma AcceptedFacts(self: State, e: Endpoint, seg: Segment)
    ensures var e' := RxAccepted(self, e, seg);
            var acked := if seg.ack then AckCount(e.tx.ring, seg.ackNo) else 0;
            var left := RingSize(e) - acked;
            var gives := e.ctl.peerBSY && !seg.bsy && left > 0 && (if acked > 0 then 0 else e.ctl.numRex) + 1 > e.par.rexMX;
            && e'.rstSent == (e.rstSent || gives) && e'.st == (if gives then CLOSED else e.st) && e'.par == e.par
            && (gives ==> RingSize(e') == left)
  {
    hide RxData, Reply, AckCount;
    var e1 := ProcessAckNumber(e, seg);
    DataFacts(self, e1, seg);
    ReplyFacts(self, RxData(self, e1, seg), seg);
  }

  lemma AdmitFacts(e: Endpoint, seg: Segment, isn: Byte)
    requires !e.rstSent
    ensures var e1 := if seg.syn then HandleSyn(e, seg, isn).0 else HandleOth(e, seg).0;
            && (e1.rstSent ==> e1.st.CLOSED? && (e.st.LISTEN? || e.st.CLNT_WAIT_SYN_ACK?))
            && (!(e.st.LISTEN? || e.st.CLNT_WAIT_SYN_ACK?) ==>
                  e1.tx == e.tx && e1.par == e.par && e1.ctl.peerBSY == e.ctl.peerBSY && e1.ctl.numRex == e.ctl.numRex)
  {
    hide ExtractParams, Seed, SendRst;
    SeedFacts(e, seg);
    SendRstFacts(e);
    SendRstFacts(ExtractParams(e, seg.params));
  }

  lemma SeedFacts(e: Endpoint, seg: Segment)
    ensures ExtractParams(e, seg.params).rstSent == e.rstSent
    ensures Seed(ExtractParams(e, seg.params), seg).rstSent == e.rstSent
  {
  }

  lemma SendRstFacts(e: Endpoint)
    ensures SendRst(e).rstSent
  {
  }

  lemma ArrivalRevives(e: Endpoint, inc: seq<Flight>, isn: Byte)
    requires Waiting(e.st) && inc != [] && !e.rstSent
    requires e.st.OPEN_OUTWIN_FULL? ==> RingSize(e) == e.par.peerOssMX
    ensures var e' := HandleRx(e, inc[0].seg, isn);
            e'.rstSent && !e'.st.CLOSED? <==> Revives(e, Arrives(isn), inc)
  {
    hide HandleSyn, HandleOth, RxAccepted, AckCount;
    var seg := inc[0].seg;
    AdmitFacts(e, seg, isn);
    var e1 := if seg.syn then HandleSyn(e, seg, isn).0 else HandleOth(e, seg).0;
    AcceptedFacts(e.st, e1, seg);
  }

  /** An endpoint sends an RST and is not closed afterwards if and only if this happens, in a state
      in which no other event does. Hence never with a retransmission limit of at least one. */
  lemma RevivesExactly(e: Endpoint, ev: Event, inc: seq<Flight>)
    requires EventEnabled(e, ev, inc) && !e.rstSent
    requires e.st.OPEN_OUTWIN_FULL? ==> RingSize(e) == e.par.peerOssMX
    ensures var e' := Perform(e, ev, inc);
            e'.rstSent && !e'.st.CLOSED? <==> Revives(e, ev, inc)
  {
    hide HandleRx, HandleUsrInput, HandleUsrOutput, RexTimeout, AckTimeout, NulTimeout, Start, Revives;
    NoArrival(e, ev, inc);
    match ev
    case Starts(isn) => StartFacts(e, isn);
    case Opens =>
    case Arrives(isn) => ArrivalRevives(e, inc, isn);
    case Input => InputFacts(e);
    case Output => OutputFacts(e);
    case RexExpires => RexTimeoutFacts(e);
    case AckExpires => AckFacts(e);
    case NulExpires => NulFacts(e);
  }

  lemma NoArrival(e: Endpoint, ev: Event, inc: seq<Flight>)
    ensures !ev.Arrives? ==> !Revives(e, ev, inc)
  {
  }

  lemma StartFacts(e: Endpoint, isn: Byte)
    ensures Start(e, isn).rstSent == e.rstSent
  {
  }

  lemma {:induction false} InputLoopFacts(e: Endpoint)
    ensures InputLoop(e).rstSent == e.rstSent
    decreases |e.inpQ|
  {
    if WindowOpen(e) && e.inpQ != [] {
      InputLoopFacts(TakeInput(e));
    }
  }

  lemma InputFacts(e: Endpoint)
    ensures HandleUsrInput(e).rstSent == e.rstSent
  {
    hide InputLoop;
    InputLoopFacts(e);
  }

  lemma OutputFacts(e: Endpoint)
    ensures HandleUsrOutput(e).rstSent == e.rstSent
  {
    hide DrainLoop;
  }

  lemma RexTimeoutFacts(e: Endpoint)
    ensures RexTimeout(e).rstSent && !e.rstSent ==> RexTimeout(e).st.CLOSED?
  {
    hide ProcessRex;
    RexFacts(e.(ctl := e.ctl.(rexT := false)));
  }

  lemma AckFacts(e: Endpoint)
    ensures AckTimeout(e).rstSent == e.rstSent
  {
  }

  lemma NulFacts(e: Endpoint)
    ensures NulTimeout(e).rstSent && !e.rstSent ==> NulTimeout(e).st.CLOSED?
  {
  }

  // ----- the endpoint that receives an RST

  /** Is a user payload sent in place of the acknowledgement of `seg`? */
  predicate SendsInReply(e: Endpoint, seg: Segment) {
    && !(e.ctl.peerBSY && !seg.bsy && Left(e, seg) > 0)
    && e.ctl.numCak + 1 > e.par.cakMX && e.inpQ != [] && Left(e, seg) < e.par.peerOssMX
  }

  /** A received RST does not always close: the state's own handler may move on afterwards. */
  predicate SurvivesReset(e: Endpoint, seg: Segment) {
    match e.st
    case SERV_WAIT_SYN_ACK => Left(e, seg) == 0
    case OPEN_OUTWIN_FULL => Left(e, seg) + (if SendsInReply(e, seg) then 1 else 0) < e.par.peerOssMX
    case _ => false
  }

  lemma ResetOutcome(e: Endpoint, seg: Segment, isn: Byte)
    requires Local(e) && ControlOk(e) && e.wire == []
    requires (e.st.SERV_WAIT_SYN_ACK? || IsOpen(e.st)) && IsRst(seg)
    ensures HandleRx(e, seg, isn).st.CLOSED? <==> !SurvivesReset(e, seg)
  {
    hide Local, Reply, HandleSyn, Base;
    var e1 := e.(st := CLOSED);
    LocalFrame(e, e1);
    AckLocal(e1, seg);
    var e2 := ProcessAckNumber(e1, seg);
    assert RingSize(e2) == Left(e, seg);
    assert RxData(e.st, e2, seg) == e2;
    ReplyToReset(e.st, e2, seg);
  }

  lemma ReplyToReset(self: State, e: Endpoint, seg: Segment)
    requires e.started && Local(e) && e.st.CLOSED?
    requires IsOpen(self) ==> Established(e) && !e.rstSent
    ensures var e' := Reply(self, e, seg);
            && e'.st.CLOSED? && e'.par == e.par
            && RingSize(e') == RingSize(e) + if IsOpen(self) && SendsInReply(e, seg.(ack := false)) then 1 else 0
  {
    var e1 := RxBusy(e, seg);
    LocalFrame(e, e1);
    hide Local, ProcessRex, RxAckPolicy;
    if e.ctl.peerBSY && !seg.bsy && RingSize(e1) > 0 {
      ProcessRexLocal(e1);
    } else {
      DueAfterReset(self, e1);
    }
  }

  lemma DueAfterReset(self: State, e: Endpoint)
    requires e.started && Local(e) && e.st.CLOSED?
    requires IsOpen(self) ==> Established(e) && !e.rstSent
    ensures var e' := RxAckPolicy(self, e);
            && e'.st.CLOSED? && e'.par == e.par
            && RingSize(e') == RingSize(e) +
                 if IsOpen(self) && e.ctl.numCak + 1 > e.par.cakMX && WindowOpen(e) && e.inpQ != [] then 1 else 0
  {
    LocalFrame(e, CountSegment(e));
    hide Local, SendDatOrAck;
    PolicyAfterReset(self, CountSegment(e));
  }

  lemma PolicyAfterReset(self: State, e: Endpoint)
    requires e.started && Local(e) && e.st.CLOSED?
    requires IsOpen(self) ==> Established(e) && !e.rstSent
    ensures var e' := SendDatOrAck(self, e);
            && e'.st.CLOSED? && e'.par == e.par
            && RingSize(e') == RingSize(e) + if IsOpen(self) && WindowOpen(e) && e.inpQ != [] then 1 else 0
  {
    hide Local, TakeInput;
    if IsOpen(self) && WindowOpen(e) && e.inpQ != [] {
      TakeInputLocal(e);
    }
  }
}

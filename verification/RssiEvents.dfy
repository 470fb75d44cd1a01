/** What each event of an endpoint puts on the wire, segment by segment. */
module RssiEvents {
  import opened Wrappers
  import opened CircularIndex
  import opened RssiSegments
  import opened RssiEndpoint
  import opened RssiInvariant
  import opened RssiLink
  import opened RssiSystem
  import opened RssiArrivals

  // ----- retransmission

  /** Kept segments as they go out again: only the acknowledgement number and the busy flag are new. */
  function Again(kept: seq<Segment>, lastSeqRecv: Byte, full: bool): (segs: seq<Segment>)
    ensures |segs| == |kept|
  {
    seq(|kept|, j requires 0 <= j < |kept| => kept[j].(ackNo := lastSeqRecv, bsy := kept[j].bsy || full))
  }

  lemma AgainFirst(kept: seq<Segment>, lastSeqRecv: Byte, full: bool)
    requires kept != []
    ensures Again(kept, lastSeqRecv, full)
         == [kept[0].(ackNo := lastSeqRecv, bsy := kept[0].bsy || full)] + Again(kept[1..], lastSeqRecv, full)
  {
  }

  lemma {:induction false} RetransmitSends(e: Endpoint, k: nat)
    requires k <= RingSize(e)
    ensures var e' := RetransmitFrom(e, k);
            && e'.wire == e.wire + Again(e.tx.ring.segs[k..], e.rx.lastSeqRecv, OutFull(e))
            && SameReceiver(e, e') && e'.st == e.st && e'.inpQ == e.inpQ && e'.par == e.par
            && e'.tx.lastSeqSent == e.tx.lastSeqSent && e'.ctl.rexT == e.ctl.rexT && e'.ctl.peerBSY == e.ctl.peerBSY && e'.ctl.numRex == e.ctl.numRex
    decreases RingSize(e) - k
  {
    hide Again;
    if k < RingSize(e) {
      var e1 := ResendAt(e, k);
      RetransmitSends(e1, k + 1);
      AgainFirst(e.tx.ring.segs[k..], e.rx.lastSeqRecv, OutFull(e));
      assert e1.tx.ring.segs[k + 1..] == e.tx.ring.segs[k..][1..];
    } else {
      assert e.wire + Again([], e.rx.lastSeqRecv, OutFull(e)) == e.wire;
    }
  }

  /** The whole ring goes out, oldest first, with the current acknowledgement number, and the timer
      runs unless the peer is busy; with nothing kept nothing happens. */
  ghost predicate RepeatsAll(e: Endpoint, e': Endpoint) {
    && e'.wire == e.wire + Again(e.tx.ring.segs, e.rx.lastSeqRecv, OutFull(e))
    && SameReceiver(e, e') && e'.st == e.st && e'.ctl.numRex == e.ctl.numRex + 1
    && e'.inpQ == e.inpQ && e'.par == e.par && e'.ctl.peerBSY == e.ctl.peerBSY && e'.tx.lastSeqSent == e.tx.lastSeqSent
    && (RingSize(e) > 0 ==> (e'.ctl.rexT <==> e.ctl.rexT || !e.ctl.peerBSY))
  }

  /** One RST, under the next number. */
  ghost predicate GivesUp(e: Endpoint, e': Endpoint) {
    && e'.wire == e.wire + [Segment(false, true, true, false, OutFull(e), Nxt(e.tx.lastSeqSent), e.rx.lastSeqRecv, [], NO_PARAMS)]
    && e'.st.CLOSED? && e'.rstSent && SameReceiver(e, e') && e'.inpQ == e.inpQ && e'.par == e.par && e'.ctl.peerBSY == e.ctl.peerBSY
    && e'.tx.lastSeqSent == Nxt(e.tx.lastSeqSent)
  }

  lemma RexSends(e: Endpoint)
    ensures if e.ctl.numRex < e.par.rexMX then RepeatsAll(e, ProcessRex(e)) else GivesUp(e, ProcessRex(e))
  {
    hide RetransmitFrom, Again;
    if e.ctl.numRex < e.par.rexMX {
      assert e.tx.ring.segs[0..] == e.tx.ring.segs;
      RetransmitSends(CountRex(e), 0);
    }
  }

  /** A retransmission time-out repeats everything that is kept, or gives up at the limit. */
  lemma RexTimeoutSends(e: Endpoint)
    ensures var e0 := e.(ctl := e.ctl.(rexT := false));
            if e.ctl.numRex < e.par.rexMX then RepeatsAll(e0, RexTimeout(e)) else GivesUp(e0, RexTimeout(e))
  {
    hide ProcessRex, RepeatsAll, GivesUp;
    RexSends(e.(ctl := e.ctl.(rexT := false)));
  }

  /** The j-th repeated segment carries the j-th item that is not acknowledged, under its number. */
  lemma RepeatedItems(e: Endpoint, e': Endpoint, j: nat)
    requires Local(e) && e.started && RepeatsAll(e, e') && j < RingSize(e)
    ensures |e'.wire| == |e.wire| + RingSize(e) && Base(e.tx) + RingSize(e) == |e.tx.sent|
    ensures Carries(e'.wire[|e.wire| + j], e.tx.sent[Base(e.tx) + j], Num(e.tx.isn, Base(e.tx) + j))
    ensures e'.wire[|e.wire| + j].ackNo == e.rx.lastSeqRecv
  {
    hide Num, WireOk, RxOk, InputOk;
    assert Carries(e.tx.ring.segs[j], e.tx.sent[Base(e.tx) + j], Num(e.tx.isn, Base(e.tx) + j));
  }

  // ----- one acknowledgement, with data if there is any to send

  /** Is there a payload that may be sent? */
  ghost predicate MaySend(st: State, e: Endpoint) {
    IsOpen(st) && RingSize(e) < e.par.peerOssMX && e.inpQ != []
  }

  /** A segment that acknowledges what has been taken in, under the next number. */
  function Plain(e: Endpoint, p: Payload): Segment {
    Segment(false, true, false, false, OutFull(e), Nxt(e.tx.lastSeqSent), e.rx.lastSeqRecv, p, NO_PARAMS)
  }

  /** One segment with the current acknowledgement number: the next payload if it may be sent, and then
      it is kept; a bare acknowledgement otherwise. */
  ghost predicate Answers(st: State, e: Endpoint, e': Endpoint) {
    && (if MaySend(st, e) then
          && e'.wire == e.wire + [Plain(e, e.inpQ[0])] && e'.inpQ == e.inpQ[1..]
          && e'.tx.ring.segs == e.tx.ring.segs + [Plain(e, e.inpQ[0])] && e'.tx.lastSeqSent == Nxt(e.tx.lastSeqSent)
          && (e'.ctl.rexT <==> e.ctl.rexT || !e.ctl.peerBSY)
        else e'.wire == e.wire + [Plain(e, [])] && e'.inpQ == e.inpQ && e'.tx == e.tx && e'.ctl.rexT == e.ctl.rexT)
    && e'.ctl.numCak == 0 && !e'.ctl.ackT && e'.st == e.st && SameReceiver(e, e')
    && e'.par == e.par && e'.ctl.peerBSY == e.ctl.peerBSY && e'.ctl.numRex == e.ctl.numRex && e'.ctl.usrI == e.ctl.usrI
  }

  lemma SendAnswers(st: State, e: Endpoint)
    ensures Answers(st, e, SendDatOrAck(st, e))
  {
    hide Nxt;
  }

  /** An acknowledge time-out is answered with exactly one segment. */
  lemma AckTimeoutSends(e: Endpoint)
    ensures Answers(e.st, e.(ctl := e.ctl.(ackT := false)), AckTimeout(e))
  {
    hide SendDatOrAck, Answers;
    SendAnswers(e.st, e.(ctl := e.ctl.(ackT := false)));
  }

  // ----- the user's side

  /** Draining loses nothing, stops only where it must, and is acknowledged unless it stopped for
      lack of room. */
  lemma OutputSends(e: Endpoint)
    requires IsOpen(e.st)
    ensures var e' := HandleUsrOutput(e);
            && SameItems(e.rx, e'.rx) && HandedOn(e') && e'.rx.lastSeqRecv == (e'.rx.oldest - 1) % 256
            && e'.wire == if e'.ctl.usrO then e.wire else e.wire + [Plain(e', [])]
  {
    hide DrainLoop, ItemAt, Num;
    var e0 := e.(ctl := e.ctl.(usrO := false));
    DrainSame(e0.rx, e0.outQ, OutDepth(e.cfg));
    SameWindow(DrainLoop(e0.rx, e0.outQ, OutDepth(e.cfg)).rx, HandleUsrOutput(e).rx);
  }

  lemma SameWindow(r: Rx, r': Rx)
    requires r' == r.(lastSeqRecv := r'.lastSeqRecv)
    ensures forall i: nat :: ItemAt(r', i) == ItemAt(r, i)
  {
  }

  /** How many payloads fit the window. */
  function Sendable(e: Endpoint): nat {
    var room := e.par.peerOssMX - RingSize(e);
    if room <= 0 then 0 else if room < |e.inpQ| then room else |e.inpQ|
  }

  /** The first k payloads of the input queue, as segments under the next k numbers. */
  function Batch(e: Endpoint, k: nat): (segs: seq<Segment>)
    requires k <= |e.inpQ|
    ensures |segs| == k
  {
    seq(k, j requires 0 <= j < k =>
      Segment(false, true, false, false, OutFull(e), Num(e.tx.lastSeqSent, j + 1), e.rx.lastSeqRecv, e.inpQ[j], NO_PARAMS))
  }

  lemma BatchFirst(e: Endpoint, k: nat)
    requires 0 < k <= |e.inpQ|
    ensures Batch(e, k) == [Plain(e, e.inpQ[0])] + Batch(TakeInput(e), k - 1)
  {
    var e1 := TakeInput(e);
    hide Num, Nxt;
    NumNext(e.tx.lastSeqSent, 0);
    NumZero(e.tx.lastSeqSent);
    assert OutFull(e1) == OutFull(e);
    forall j | 0 < j < k ensures Batch(e, k)[j] == Batch(e1, k - 1)[j - 1] {
      NumAdd(e.tx.lastSeqSent, 1, j);
      assert e1.inpQ[j - 1] == e.inpQ[j];
    }
  }

  ghost predicate SendsInput(e: Endpoint, e': Endpoint, k: nat) {
    && k <= |e.inpQ| && e'.inpQ == e.inpQ[k..]
    && e'.wire == e.wire + Batch(e, k) && e'.tx.ring.segs == e.tx.ring.segs + Batch(e, k)
    && e'.tx.lastSeqSent == Num(e.tx.lastSeqSent, k) && SameReceiver(e, e')
  }

  lemma TakeInputAnswers(e: Endpoint)
    requires e.inpQ != [] && WindowOpen(e)
    ensures Answers(OPEN, e, TakeInput(e)) && TakeInput(e).par == e.par && TakeInput(e).ctl.usrI == e.ctl.usrI
  {
    hide Nxt;
  }

  lemma SendsOneMore(e: Endpoint, e': Endpoint, k: nat)
    requires e.inpQ != [] && WindowOpen(e) && SendsInput(TakeInput(e), e', k)
    ensures SendsInput(e, e', k + 1)
  {
    hide TakeInput, Batch, Num, Nxt;
    TakeInputAnswers(e);
    BatchFirst(e, k + 1);
    NumNext(e.tx.lastSeqSent, 0);
    NumZero(e.tx.lastSeqSent);
    NumAdd(e.tx.lastSeqSent, 1, k);
  }

  lemma NothingMore(e: Endpoint)
    ensures SendsInput(e, e, 0)
  {
    hide Num;
    NumZero(e.tx.lastSeqSent);
  }

  lemma {:induction false} InputLoopSends(e: Endpoint)
    ensures SendsInput(e, InputLoop(e), Sendable(e))
    ensures InputLoop(e).st == e.st && InputLoop(e).par == e.par && InputLoop(e).ctl.usrI == e.ctl.usrI
    decreases |e.inpQ|
  {
    hide TakeInput, SendsInput, Plain;
    if WindowOpen(e) && e.inpQ != [] {
      TakeInputAnswers(e);
      InputLoopSends(TakeInput(e));
      SendsOneMore(e, InputLoop(e), Sendable(TakeInput(e)));
    } else {
      NothingMore(e);
    }
  }

  /** User input is sent as far as the window allows, in order, and kept; a window that is full
      afterwards stops the input handler. */
  lemma InputSends(e: Endpoint)
    ensures var e' := HandleUsrInput(e);
            && SendsInput(e, e', Sendable(e))
            && if RingSize(e) + Sendable(e) < e.par.peerOssMX then e'.st == e.st && e'.ctl.usrI == e.ctl.usrI
               else e'.st.OPEN_OUTWIN_FULL? && !e'.ctl.usrI
  {
    hide InputLoop, Num, Batch;
    InputLoopSends(e);
  }

  /** A NUL time-out: a server gives up; a client sends a NUL and keeps it, or with a full window
      acknowledges and stops its input. */
  lemma NulTimeoutSends(e: Endpoint)
    ensures var e', n := NulTimeout(e), Plain(e, []).(nul := true);
            if e.cfg.isServer then GivesUp(e, e')
            else
              && e'.ctl.nulT
              && if RingSize(e) < e.par.peerOssMX then
                   && e'.wire == e.wire + [n] && e'.tx.ring.segs == e.tx.ring.segs + [n]
                   && e'.tx.lastSeqSent == Nxt(e.tx.lastSeqSent) && e'.st == e.st
                 else e'.wire == e.wire + [Plain(e, [])] && e'.tx == e.tx && e'.st.OPEN_OUTWIN_FULL? && !e'.ctl.usrI
  {
    hide Nxt;
  }

  // ----- acknowledgements

  /** Naming the k-th kept number removes k segments from the front. */
  lemma AckNames(r: Ring, k: nat)
    requires 1 <= k <= |r.segs| <= 255
    ensures RingAck(r, Num(r.oldest, k - 1)) == r.(segs := r.segs[k..], oldest := Num(r.oldest, k))
  {
    var e: int := r.oldest + k - 1;
    assert e % 256 - r.oldest + 1 == 256 * (-(e / 256)) + k;
    Wrapped(-(e / 256), k);
  }

  /** A number that no kept segment carries removes nothing. */
  lemma AckNamesNone(r: Ring, ackNo: Byte)
    requires |r.segs| <= 255 && forall j :: 0 <= j < |r.segs| ==> ackNo != Num(r.oldest, j)
    ensures RingAck(r, ackNo) == r
  {
    var n := AckCount(r, ackNo);
    if n > 0 {
      BackAgain(r.oldest, ackNo, n);
      assert false;
    }
    NumZero(r.oldest);
  }

  lemma BackAgain(oldest: Byte, ackNo: Byte, n: nat)
    requires n == (ackNo - oldest + 1) % 256 && n > 0
    ensures ackNo == Num(oldest, n - 1)
  {
  }

  // ----- the answer to a segment

  /** How many segments count as unacknowledged once `seg` has been taken in. A bare acknowledgement is
      not counted; a repeated SYN, and a NUL, call for an acknowledgement at once. */
  function Counted(e: Endpoint, seg: Segment): int {
    if seg.syn || seg.nul then e.par.cakMX + 1
    else if IsPureAck(seg) && seg.payload == [] then e.ctl.numCak
    else e.ctl.numCak + 1
  }

  function Acked(e: Endpoint, seg: Segment): (n: nat)
    ensures n <= RingSize(e)
  {
    if seg.ack then AckCount(e.tx.ring, seg.ackNo) else 0
  }

  /** What is left in the ring once `seg` has acknowledged its part. */
  function StillKept(e: Endpoint, seg: Segment): seq<Segment> {
    e.tx.ring.segs[Acked(e, seg)..]
  }

  /** Progress, or having nothing to wait for, starts the retransmission count again. */
  function RexCount(e: Endpoint, seg: Segment): nat {
    if seg.ack && (Acked(e, seg) > 0 || StillKept(e, seg) == []) then 0 else e.ctl.numRex
  }

  /** The retransmission timer is stopped by a last acknowledgement and by a peer that becomes busy. */
  predicate RexRuns(e: Endpoint, seg: Segment) {
    e.ctl.rexT && !(seg.ack && StillKept(e, seg) == []) && !(seg.bsy && !e.ctl.peerBSY)
  }

  /** The peer is busy no longer, and segments wait for it. */
  predicate Released(e: Endpoint, seg: Segment) {
    e.ctl.peerBSY && !seg.bsy && StillKept(e, seg) != []
  }

  predicate LimitReached(e: Endpoint, seg: Segment) {
    RexCount(e, seg) >= e.par.rexMX
  }

  /** The next payload goes with the acknowledgement, if it may be sent behind what is left. */
  ghost function SentAlong(st: State, e: Endpoint, seg: Segment, count: int): (r: seq<Payload>)
    ensures r <= e.inpQ
  {
    if !Released(e, seg) && count > e.par.cakMX && IsOpen(st) && |StillKept(e, seg)| < e.par.peerOssMX && e.inpQ != [] then [e.inpQ[0]] else []
  }

  /** The answer to an admitted segment, `count` of them being unacknowledged: a release of the busy
      flag repeats what is left or, at the limit, gives up; too many unacknowledged segments are
      answered with exactly one; otherwise nothing is sent, and the first of them starts the timer. */
  ghost predicate Reacts(st: State, e: Endpoint, seg: Segment, count: int, e': Endpoint) {
    var left, rider := StillKept(e, seg), SentAlong(st, e, seg, count);
    var plain := Segment(false, true, false, false, OutFull(e'), Nxt(e.tx.lastSeqSent), e'.rx.lastSeqRecv, [], NO_PARAMS);
    && e'.ctl.peerBSY == seg.bsy && e'.par == e.par && e'.inpQ == e.inpQ[|SentAlong(st, e, seg, count)|..]
    && if Released(e, seg) then
         if LimitReached(e, seg) then
           e'.wire == e.wire + [plain.(rst := true)] && e'.rstSent && e'.tx.lastSeqSent == plain.seqNo
         else
           && e'.wire == e.wire + Again(left, e'.rx.lastSeqRecv, OutFull(e')) && e'.tx.lastSeqSent == e.tx.lastSeqSent
           && e'.ctl.rexT && e'.ctl.numRex == RexCount(e, seg) + 1
       else
         && e'.ctl.numRex == RexCount(e, seg) && (e.cfg.isServer ==> e'.ctl.nulT)
         && if count <= e.par.cakMX then
              && e'.wire == e.wire && e'.tx.ring.segs == left && e'.tx.lastSeqSent == e.tx.lastSeqSent
              && e'.ctl.numCak == count && (e'.ctl.ackT <==> e.ctl.ackT || count == 1) && (e'.ctl.rexT <==> RexRuns(e, seg))
            else
              && e'.ctl.numCak == 0 && !e'.ctl.ackT
              && if rider == [] then
                   && e'.wire == e.wire + [plain] && e'.tx.ring.segs == left && e'.tx.lastSeqSent == e.tx.lastSeqSent
                   && (e'.ctl.rexT <==> RexRuns(e, seg))
                 else
                   && e'.wire == e.wire + [plain.(payload := rider[0])] && e'.tx.ring.segs == left + [plain.(payload := rider[0])]
                   && e'.tx.lastSeqSent == plain.seqNo && (e'.ctl.rexT <==> RexRuns(e, seg) || !seg.bsy)
  }

  /** Just before the answer: acknowledged, and taken in. */
  ghost predicate Settled(e: Endpoint, seg: Segment, e': Endpoint) {
    && e'.wire == e.wire && e'.tx.ring.segs == StillKept(e, seg) && e'.tx.lastSeqSent == e.tx.lastSeqSent
    && e'.inpQ == e.inpQ && e'.par == e.par && e'.cfg == e.cfg
    && e'.ctl.numRex == RexCount(e, seg) && e'.ctl.numCak == e.ctl.numCak
    && e'.ctl.ackT == e.ctl.ackT && e'.ctl.nulT == e.ctl.nulT
  }

  lemma AckTakes(e: Endpoint, seg: Segment)
    ensures var e' := ProcessAckNumber(e, seg);
            Settled(e, seg, e') && e'.ctl.peerBSY == e.ctl.peerBSY && e'.ctl.rexT == (e.ctl.rexT && !(seg.ack && StillKept(e, seg) == []))
  {
    hide AckCount;
  }

  /** Only what belongs to the receiving side differs. */
  ghost predicate RxOnly(e: Endpoint, e': Endpoint) {
    e' == e.(rx := e'.rx, outQ := e'.outQ, ctl := e.ctl.(usrO := e'.ctl.usrO))
  }

  lemma HandOnTakes(e: Endpoint)
    ensures RxOnly(e, HandOn(e))
  {
    hide DrainLoop, OutDepth;
  }

  lemma NoteTakes(e: Endpoint, e': Endpoint)
    requires RxOnly(e, e')
    ensures RxOnly(e, NoteReceived(e'))
  {
  }

  lemma StoreTakes(e: Endpoint, r: Rx, e': Endpoint)
    requires RxOnly(e.(rx := r), e')
    ensures RxOnly(e, e')
  {
  }

  lemma DataTakes(self: State, e: Endpoint, seg: Segment)
    ensures RxOnly(e, RxData(self, e, seg))
  {
    hide HandOn, NoteReceived, Store, CanAccept, RxOnly;
    if (seg.payload != [] || seg.nul) && CanAccept(e.rx, seg.seqNo) {
      var r := Store(e.rx, seg);
      var e1 := e.(rx := r);
      SameOnly(e1);
      HandOnTakes(e1);
      NoteTakes(e1, HandOn(e1));
      StoreTakes(e, r, Drain(self, e1));
    } else {
      SameOnly(e);
    }
  }

  lemma SameOnly(e: Endpoint)
    ensures RxOnly(e, e)
  {
  }

  lemma BusyTakes(self: State, e: Endpoint, seg: Segment)
    ensures var e' := RxBusy(RxData(self, ProcessAckNumber(e, seg), seg), seg);
            Settled(e, seg, e') && e'.ctl.peerBSY == seg.bsy && e'.ctl.rexT == RexRuns(e, seg)
  {
    hide RxData, ProcessAckNumber, StillKept, RexCount;
    AckTakes(e, seg);
    DataTakes(self, ProcessAckNumber(e, seg), seg);
  }

  lemma PolicySends(self: State, e: Endpoint)
    ensures var e' := RxAckPolicy(self, e);
            if e.ctl.numCak + 1 > e.par.cakMX then
              exists f {:trigger Answers(self, CountSegment(e), f)} :: Answers(self, CountSegment(e), f) && e' == KeepAlive(f)
            else e' == e.(ctl := e.ctl.(numCak := e.ctl.numCak + 1, ackT := e.ctl.ackT || e.ctl.numCak == 0,
                                        nulT := e.ctl.nulT || e.cfg.isServer))
  {
    hide SendDatOrAck, Answers;
    SendAnswers(self, CountSegment(e));
  }

  lemma ReleaseReacts(self: State, e: Endpoint, e4: Endpoint, seg: Segment)
    requires Settled(e, seg, e4) && e4.ctl.peerBSY == seg.bsy && Released(e, seg)
    ensures Reacts(self, e, seg, e.ctl.numCak + 1, ProcessRex(e4))
  {
    hide ProcessRex, Acked, StillKept, RexCount, Again, OutDepth, Nxt;
    RexSends(e4);
  }

  lemma PolicyReacts(self: State, e: Endpoint, e4: Endpoint, seg: Segment)
    requires Settled(e, seg, e4) && e4.ctl.peerBSY == seg.bsy && e4.ctl.rexT == RexRuns(e, seg) && !Released(e, seg)
    ensures Reacts(self, e, seg, e.ctl.numCak + 1, RxAckPolicy(self, e4))
  {
    hide RxAckPolicy, Acked, StillKept, RexCount, Again, OutDepth, Nxt, RexRuns, Released;
    PolicySends(self, e4);
  }

  lemma AcceptedReacts(self: State, e: Endpoint, seg: Segment)
    ensures Reacts(self, e, seg, e.ctl.numCak + 1, RxAccepted(self, e, seg))
  {
    hide RxData, ProcessAckNumber, RxAckPolicy, ProcessRex, Reacts, StillKept, RexCount, RexRuns;
    var e3 := RxData(self, ProcessAckNumber(e, seg), seg);
    BusyTakes(self, e, seg);
    BusyBefore(self, e, seg);
    if Released(e, seg) {
      ReleaseReacts(self, e, RxBusy(e3, seg), seg);
    } else {
      PolicyReacts(self, e, RxBusy(e3, seg), seg);
    }
  }

  lemma BusyBefore(self: State, e: Endpoint, seg: Segment)
    ensures RxData(self, ProcessAckNumber(e, seg), seg).ctl.peerBSY == e.ctl.peerBSY
  {
    hide RxData, ProcessAckNumber;
    AckTakes(e, seg);
    DataTakes(self, ProcessAckNumber(e, seg), seg);
  }

  /** The state and the number of unacknowledged segments as handleOTH or handleSYN leave them. */
  lemma Recounted(e: Endpoint, seg: Segment, isn: Byte)
    requires Connected(e.st) && Admits(e, seg, isn)
    ensures var e1 := if seg.syn then HandleSyn(e, seg, isn).0 else HandleOth(e, seg).0;
            e1 == e.(st := e1.st, ctl := e.ctl.(numCak := Counted(e, seg) - 1))
  {
    hide HandleSyn, HandleOth;
    if seg.syn {
      SynRecounted(e, seg, isn);
    } else {
      OthRecounted(e, seg);
    }
  }

  lemma SynRecounted(e: Endpoint, seg: Segment, isn: Byte)
    requires Connected(e.st)
    ensures HandleSyn(e, seg, isn).0 == e.(ctl := e.ctl.(numCak := e.par.cakMX))
  {
  }

  lemma OthRecounted(e: Endpoint, seg: Segment)
    requires Connected(e.st) && !seg.syn && HandleOth(e, seg).1
    ensures var e1 := HandleOth(e, seg).0; e1 == e.(st := e1.st, ctl := e.ctl.(numCak := Counted(e, seg) - 1))
  {
    if IsPureAck(seg) && seg.payload == [] {
      assert HandleOth(e, seg).0 == e.(ctl := e.ctl.(numCak := e.ctl.numCak - 1));
    } else if seg.nul {
      assert HandleOth(e, seg).0 == ForceAck(e);
    } else if seg.rst {
      assert HandleOth(e, seg).0 == e.(st := CLOSED);
    } else {
      assert HandleOth(e, seg).0 == e;
    }
  }

  lemma ReactsRecounted(st: State, e: Endpoint, e1: Endpoint, seg: Segment, e': Endpoint)
    requires e1 == e.(st := e1.st, ctl := e.ctl.(numCak := e1.ctl.numCak)) && Reacts(st, e1, seg, e1.ctl.numCak + 1, e')
    ensures Reacts(st, e, seg, e1.ctl.numCak + 1, e')
  {
    hide Again, OutDepth, Nxt, AckCount;
  }

  lemma AfterReacts(self: State, e: Endpoint, seg: Segment, count: int, e': Endpoint)
    requires Reacts(self, e, seg, count, e')
    ensures Reacts(self, e, seg, count, AfterRx(self, e'))
  {
    hide Again, OutDepth, Nxt, StillKept, SentAlong, RexCount, RexRuns, Released;
  }

  /** What an admitted segment is answered with once the handshake is over. */
  lemma ArrivalSends(e: Endpoint, seg: Segment, isn: Byte)
    requires Connected(e.st) && Admits(e, seg, isn)
    ensures Reacts(e.st, e, seg, Counted(e, seg), HandleRx(e, seg, isn))
  {
    hide HandleSyn, HandleOth, Reacts, AfterRx, RxAccepted, Counted;
    Recounted(e, seg, isn);
    var e1 := if seg.syn then HandleSyn(e, seg, isn).0 else HandleOth(e, seg).0;
    AcceptedReacts(e.st, e1, seg);
    ReactsRecounted(e.st, e, e1, seg, RxAccepted(e.st, e1, seg));
    AfterReacts(e.st, e, seg, Counted(e, seg), RxAccepted(e.st, e1, seg));
  }

  /** The state in which an arrival leaves a connected endpoint: a window that opens again starts the
      input handler, an acknowledged SYN completes the server's handshake, an RST or reaching the
      retransmission limit closes, unless one of the former comes on top. */
  ghost predicate Moves(e: Endpoint, seg: Segment, admitted: bool, e': Endpoint) {
    var closes := admitted && ((seg.rst && !seg.nul && !seg.syn) || (Released(e, seg) && LimitReached(e, seg)));
    if e.st.OPEN_OUTWIN_FULL? && RingSize(e') < e.par.peerOssMX then e'.st.OPEN? && e'.ctl.usrI
    else if e.st.SERV_WAIT_SYN_ACK? && RingSize(e') == 0 then e'.st.PREP_OPEN? && e'.ctl.nulT
    else e'.st == (if closes then CLOSED else e.st) && e'.ctl.usrI == e.ctl.usrI
  }

  /** Before the additions of the two states that have any. */
  ghost predicate Closes(e: Endpoint, closes: bool, e': Endpoint) {
    e'.st == (if closes then CLOSED else e.st) && e'.ctl.usrI == e.ctl.usrI && e'.par == e.par
  }

  lemma PolicyMoves(self: State, e: Endpoint)
    ensures Closes(e, false, RxAckPolicy(self, e))
  {
    hide RxAckPolicy, Nxt, OutFull, SameReceiver;
    PolicySends(self, e);
  }

  lemma RexMoves(e: Endpoint)
    ensures Closes(e, e.ctl.numRex >= e.par.rexMX, ProcessRex(e))
  {
    hide RetransmitFrom;
    RetransmitMoves(CountRex(e), 0);
  }

  lemma {:induction false} RetransmitMoves(e: Endpoint, k: nat)
    requires k <= RingSize(e)
    ensures Closes(e, false, RetransmitFrom(e, k))
    decreases RingSize(e) - k
  {
    if k < RingSize(e) {
      RetransmitMoves(ResendAt(e, k), k + 1);
    }
  }

  lemma BusyMoves(self: State, e: Endpoint, seg: Segment)
    ensures Closes(e, false, RxBusy(RxData(self, ProcessAckNumber(e, seg), seg), seg))
  {
    hide RxData, RingAck;
    DataTakes(self, ProcessAckNumber(e, seg), seg);
  }

  lemma AcceptedMoves(self: State, e: Endpoint, seg: Segment)
    ensures Closes(e, Released(e, seg) && LimitReached(e, seg), RxAccepted(self, e, seg))
  {
    hide RxData, ProcessAckNumber, RxAckPolicy, ProcessRex, StillKept, RexCount, RexRuns, RxBusy;
    var e3 := RxData(self, ProcessAckNumber(e, seg), seg);
    BusyTakes(self, e, seg);
    BusyBefore(self, e, seg);
    BusyMoves(self, e, seg);
    RexMoves(RxBusy(e3, seg));
    PolicyMoves(self, RxBusy(e3, seg));
  }

  lemma MovesRecounted(e: Endpoint, e1: Endpoint, seg: Segment)
    requires e1 == e.(st := e1.st, ctl := e.ctl.(numCak := e1.ctl.numCak))
    ensures (Released(e1, seg) && LimitReached(e1, seg)) == (Released(e, seg) && LimitReached(e, seg))
  {
  }

  lemma AdmittedState(e: Endpoint, seg: Segment, isn: Byte)
    requires Connected(e.st)
    ensures var e1 := if seg.syn then HandleSyn(e, seg, isn).0 else HandleOth(e, seg).0;
            if Admits(e, seg, isn) then e1.st == if seg.rst && !seg.nul && !seg.syn then CLOSED else e.st
            else e1 == e
  {
  }

  lemma AfterMoves(e: Endpoint, seg: Segment, admitted: bool, e': Endpoint)
    requires Closes(e, admitted && ((seg.rst && !seg.nul && !seg.syn) || (Released(e, seg) && LimitReached(e, seg))), e')
    ensures Moves(e, seg, admitted, AfterRx(e.st, e'))
  {
    hide Released, LimitReached;
  }

  lemma ArrivalMoves(e: Endpoint, seg: Segment, isn: Byte)
    requires Connected(e.st)
    ensures Moves(e, seg, Admits(e, seg, isn), HandleRx(e, seg, isn))
  {
    AdmittedState(e, seg, isn);
    hide HandleSyn, HandleOth, RxAccepted, Released, LimitReached, AfterRx, Moves, Counted;
    var e1 := if seg.syn then HandleSyn(e, seg, isn).0 else HandleOth(e, seg).0;
    if Admits(e, seg, isn) {
      Recounted(e, seg, isn);
      AcceptedMoves(e.st, e1, seg);
      MovesRecounted(e, e1, seg);
      AfterMoves(e, seg, true, RxAccepted(e.st, e1, seg));
    } else {
      AfterMoves(e, seg, false, e1);
    }
  }

  /** What is not admitted goes unanswered and changes no more than the state. */
  lemma UnadmittedIgnored(e: Endpoint, seg: Segment, isn: Byte)
    requires Connected(e.st) && !Admits(e, seg, isn)
    ensures Untouched(e, HandleRx(e, seg, isn))
  {
    AdmittedState(e, seg, isn);
    hide HandleSyn, HandleOth, Untouched, AfterRx;
    AfterUntouched(e.st, e);
  }

  ghost predicate Untouched(e: Endpoint, e': Endpoint) {
    e' == e.(st := e'.st, ctl := e.ctl.(usrI := e'.ctl.usrI, nulT := e'.ctl.nulT))
  }

  lemma AfterUntouched(self: State, e: Endpoint)
    ensures Untouched(e, AfterRx(self, e))
  {
  }

  // ----- the handshake

  /** A SYN that announces what this endpoint has been configured for or, in a server, has been told. */
  function SynOf(e: Endpoint, ack: bool, isn: Byte, lastSeqRecv: Byte): Segment {
    Segment(true, ack, false, false, OutFull(e), isn, lastSeqRecv, [], SynParams(MaxSegs(e.cfg), e.par.rexMX, e.par.cakMX))
  }

  /** The parameters and timers of a new connection. */
  ghost predicate Anew(e: Endpoint, e': Endpoint) {
    && e'.cfg == e.cfg && e'.started && e'.inpQ == [] && e'.outQ == []
    && e'.par == Params(e.cfg.rexMax, e.cfg.cumAckMax, MaxSegs(e.cfg))
    && !e'.ctl.peerBSY && e'.ctl.numRex == 0 && e'.ctl.numCak == 0 && !e'.ctl.ackT && !e'.ctl.usrI && !e'.ctl.usrO
    && |e'.rx.window| == |e.rx.window| && WindowEmpty(e'.rx.window)
  }

  /** A server listens in silence; a client sends and keeps its SYN, with all it is configured for. */
  lemma StartSends(e: Endpoint, isn: Byte)
    ensures var e' := Start(e, isn);
            && Anew(e, e')
            && if e.cfg.isServer then
                 e'.st.LISTEN? && e'.wire == e.wire && e'.tx.ring.segs == [] && !e'.ctl.rexT && !e'.ctl.nulT
               else
                 var syn := Segment(true, false, false, false, OutFull(e'), isn, e.rx.lastSeqRecv, [],
                                    SynParams(MaxSegs(e.cfg), e.cfg.rexMax, e.cfg.cumAckMax));
                 && e'.st.CLNT_WAIT_SYN_ACK? && e'.wire == e.wire + [syn]
                 && e'.tx.ring.oldest == e'.tx.lastSeqSent == isn && e'.tx.ring.segs == [syn] && e'.ctl.rexT && e'.ctl.nulT
  {
    hide MaxSegs;
  }

  /** A listening server that gets a SYN: it takes over the window and the number of the client, and
      answers with one SYN that announces its own limits and acknowledges the client's. */
  ghost predicate Welcomes(e: Endpoint, seg: Segment, isn: Byte, e': Endpoint) {
    var syn := Segment(true, true, false, false, OutFull(e), isn, seg.seqNo, [], SynParams(MaxSegs(e.cfg), e.par.rexMX, e.par.cakMX));
    && e'.st.SERV_WAIT_SYN_ACK? && e'.wire == e.wire + [syn] && e'.par == e.par.(peerOssMX := seg.params.ossMX)
    && e'.tx.lastSeqSent == isn && e'.tx.ring.segs == (if seg.ack && seg.ackNo == isn then [] else [syn])
    && e'.rx.lastSeqRecv == seg.seqNo && e'.rx.oldest == Nxt(seg.seqNo) && e'.rx.window == e.rx.window
    && e'.ctl.nulT && e'.outQ == e.outQ && e'.inpQ == e.inpQ
  }

  lemma SynHandled(e: Endpoint, seg: Segment, isn: Byte)
    requires e.st.LISTEN? && e.cfg.isServer && seg.syn && e.tx.ring.segs == []
    ensures var (s, ok) := HandleSyn(e, seg, isn);
            var syn := Segment(true, true, false, false, OutFull(e), isn, seg.seqNo, [], SynParams(MaxSegs(e.cfg), e.par.rexMX, e.par.cakMX));
            && ok && s.st.SERV_WAIT_SYN_ACK? && s.wire == e.wire + [syn] && s.par == e.par.(peerOssMX := seg.params.ossMX)
            && s.tx.lastSeqSent == isn && s.tx.ring.oldest == isn && s.tx.ring.segs == [syn]
            && s.rx == e.rx.(lastSeqRecv := seg.seqNo, oldest := Nxt(seg.seqNo), got := [ItemOf(seg)])
            && s.inpQ == e.inpQ && s.outQ == e.outQ && s.ctl.numCak == -1 && s.ctl.peerBSY == e.ctl.peerBSY && s.cfg == e.cfg
  {
    hide GrowTo, MaxSegs, Nxt;
  }

  lemma NotReleased(e: Endpoint, seg: Segment)
    requires !e.ctl.peerBSY
    ensures !Released(e, seg)
  {
  }

  /** A segment that carries nothing for the window leaves the receiving half alone. */
  lemma AcceptedKeepsRx(self: State, e: Endpoint, seg: Segment)
    requires !((seg.payload != [] || seg.nul) && Sub(seg.seqNo, e.rx.oldest) < |e.rx.window|)
    ensures SameReceiver(e, RxAccepted(self, e, seg))
  {
    hide RxData, ProcessAckNumber, Reply, SameReceiver;
    var e2 := ProcessAckNumber(e, seg);
    BusyKeepsRx(e, seg);
    assert e2.rx == e.rx by { SameRx(e, e2); }
    DataArrives(self, e2, seg);
    ReplyKeepsRx(self, e2, seg);
    SameReceiverTwice(e, e2, Reply(self, e2, seg));
  }

  lemma SameRx(e: Endpoint, e': Endpoint)
    requires SameReceiver(e, e')
    ensures e'.rx == e.rx
  {
  }

  /** A SYN is not behind itself. */
  lemma OwnNumber(n: Byte)
    ensures Sub(n, Nxt(n)) == 255
  {
  }

  /** With nothing to acknowledge and nothing released, an arrival is not answered. */
  lemma NoAnswer(st: State, e: Endpoint, seg: Segment, count: int, e': Endpoint)
    requires Reacts(st, e, seg, count, e') && !Released(e, seg) && count <= e.par.cakMX
    ensures e'.wire == e.wire && e'.tx.ring.segs == StillKept(e, seg) && e'.tx.lastSeqSent == e.tx.lastSeqSent
    ensures e'.inpQ == e.inpQ && e'.par == e.par && (e.cfg.isServer ==> e'.ctl.nulT)
  {
    hide Again, OutFull, Nxt, StillKept, RexCount, RexRuns, Released;
  }

  lemma OneLeft(e: Endpoint, seg: Segment)
    requires |e.tx.ring.segs| == 1
    ensures StillKept(e, seg) == if seg.ack && seg.ackNo == e.tx.ring.oldest then [] else e.tx.ring.segs
  {
  }

  lemma Welcomed(e: Endpoint, s: Endpoint, seg: Segment, isn: Byte, e': Endpoint)
    requires e.cfg.isServer && s.tx.ring.oldest == s.tx.lastSeqSent == isn && s.st.SERV_WAIT_SYN_ACK? && s.cfg == e.cfg && !s.ctl.peerBSY
    requires s.ctl.numCak == -1 && s.inpQ == e.inpQ && s.outQ == e.outQ && s.par == e.par.(peerOssMX := seg.params.ossMX)
    requires s.rx.lastSeqRecv == seg.seqNo && s.rx.oldest == Nxt(seg.seqNo) && s.rx.window == e.rx.window
    requires s.tx.ring.segs == [Segment(true, true, false, false, OutFull(e), isn, seg.seqNo, [], SynParams(MaxSegs(e.cfg), e.par.rexMX, e.par.cakMX))]
    requires s.wire == e.wire + s.tx.ring.segs
    requires SameReceiver(s, e') && Reacts(LISTEN, s, seg, 0, e') && Closes(s, false, e')
    ensures Welcomes(e, seg, isn, e')
  {
    hide MaxSegs, OutFull, Nxt, Reacts, StillKept, Released;
    NotReleased(s, seg);
    NoAnswer(LISTEN, s, seg, 0, e');
    OneLeft(s, seg);
  }

  /** An RST inside the window is answered with an RST, and closes; anything else is ignored. */
  ghost predicate Unwelcome(e: Endpoint, seg: Segment, e': Endpoint) {
    if seg.rst && seg.payload == [] && Sub(seg.seqNo, e.rx.oldest) < |e.rx.window| then
      && e.wire + [Plain(e, []).(rst := true)] <= e'.wire && e'.st.CLOSED?
    else e' == e
  }

  lemma UnwelcomeSends(e: Endpoint, seg: Segment, isn: Byte)
    requires (e.st.LISTEN? || e.st.CLNT_WAIT_SYN_ACK?) && !seg.syn
    ensures Unwelcome(e, seg, HandleRx(e, seg, isn))
  {
    hide RxAccepted, Abort, Sub, Released, LimitReached;
    if seg.rst && CanAccept(e.rx, seg.seqNo) && seg.payload == [] {
      var f := Abort(e);
      AbortGivesUp(e);
      AcceptedReacts(e.st, f, seg);
      AcceptedMoves(e.st, f, seg);
      Grows(e.st, f, seg, f.ctl.numCak + 1, RxAccepted(e.st, f, seg));
    }
  }

  lemma AbortGivesUp(e: Endpoint)
    ensures GivesUp(e, Abort(e)) && Plain(e, []).(rst := true) == Segment(false, true, true, false, OutFull(e), Nxt(e.tx.lastSeqSent), e.rx.lastSeqRecv, [], NO_PARAMS)
  {
  }

  lemma Grows(st: State, e: Endpoint, seg: Segment, count: int, e': Endpoint)
    requires Reacts(st, e, seg, count, e')
    ensures e.wire <= e'.wire
  {
    hide StillKept, RexCount, RexRuns, Released, OutFull, Nxt, Again;
  }

  lemma ListenSends(e: Endpoint, seg: Segment, isn: Byte)
    requires e.st.LISTEN? && e.cfg.isServer && e.tx.ring.segs == [] && !e.ctl.peerBSY && |e.rx.window| <= 128
    ensures var e' := HandleRx(e, seg, isn);
            if seg.syn then Welcomes(e, seg, isn, e') else Unwelcome(e, seg, e')
  {
    hide HandleSyn, RxAccepted, Reacts, SameReceiver, Nxt, Sub, MaxSegs, OutFull;
    if seg.syn {
      SynHandled(e, seg, isn);
      var s := HandleSyn(e, seg, isn).0;
      OwnNumber(seg.seqNo);
      AcceptedKeepsRx(LISTEN, s, seg);
      SameRx(s, RxAccepted(LISTEN, s, seg));
      AcceptedReacts(LISTEN, s, seg);
      AcceptedMoves(LISTEN, s, seg);
      NotReleased(s, seg);
      Welcomed(e, s, seg, isn, RxAccepted(LISTEN, s, seg));
    } else {
      UnwelcomeSends(e, seg, isn);
    }
  }

  /** A client that gets a SYN. Without an acknowledgement it gives up. Otherwise it takes over the
      server's window, limits and number, acknowledges at once, and is through if its own SYN is what
      has been acknowledged. */
  ghost predicate Greets(e: Endpoint, seg: Segment, e': Endpoint) {
    var told := e.(par := Params(seg.params.rexMX, seg.params.cakMX, seg.params.ossMX));
    if !seg.ack then GivesUp(told, e')
    else
      && e'.rx == e.rx.(lastSeqRecv := seg.seqNo, oldest := Nxt(seg.seqNo), got := [ItemOf(seg)])
      && Reacts(CLNT_WAIT_SYN_ACK, told, seg, told.par.cakMX + 1, e')
      && e'.st == if Released(e, seg) && LimitReached(told, seg) then CLOSED
                  else if seg.ackNo == e.tx.lastSeqSent then PREP_OPEN else CLNT_WAIT_SYN_ACK
  }

  /** How handleSYN leaves a client that has got a SYN with an acknowledgement. */
  ghost predicate Told(e: Endpoint, seg: Segment, s: Endpoint) {
    && s.par == Params(seg.params.rexMX, seg.params.cakMX, seg.params.ossMX)
    && s.rx == e.rx.(lastSeqRecv := seg.seqNo, oldest := Nxt(seg.seqNo), got := [ItemOf(seg)])
    && s == e.(par := s.par, rx := s.rx, st := s.st, tx := e.tx.(ring := e.tx.ring.(capa := s.tx.ring.capa)),
               ctl := e.ctl.(numCak := s.par.cakMX))
  }

  lemma SynTold(e: Endpoint, seg: Segment, isn: Byte)
    requires e.st.CLNT_WAIT_SYN_ACK? && !e.cfg.isServer && seg.syn && seg.ack
    ensures var (s, ok) := HandleSyn(e, seg, isn);
            ok && Told(e, seg, s) && s.st == if seg.ackNo == e.tx.lastSeqSent then PREP_OPEN else CLNT_WAIT_SYN_ACK
  {
    hide GrowTo, Nxt;
  }

  lemma SynRefused(e: Endpoint, seg: Segment, isn: Byte)
    requires e.st.CLNT_WAIT_SYN_ACK? && !e.cfg.isServer && seg.syn && !seg.ack
    ensures var (s, ok) := HandleSyn(e, seg, isn);
            !ok && GivesUp(e.(par := Params(seg.params.rexMX, seg.params.cakMX, seg.params.ossMX)), s)
  {
    hide GrowTo, Nxt;
  }

  lemma SameLeft(e: Endpoint, s: Endpoint, seg: Segment)
    requires Told(e, seg, s)
    ensures Acked(s, seg) == Acked(e, seg) && StillKept(s, seg) == StillKept(e, seg)
    ensures RexCount(s, seg) == RexCount(e, seg) && RexRuns(s, seg) == RexRuns(e, seg) && Released(s, seg) == Released(e, seg)
  {
  }

  lemma SameAlone(e: Endpoint, p: Params, seg: Segment)
    ensures var f := e.(par := p);
            && StillKept(f, seg) == StillKept(e, seg) && RexCount(f, seg) == RexCount(e, seg)
            && RexRuns(f, seg) == RexRuns(e, seg) && Released(f, seg) == Released(e, seg)
  {
  }

  lemma ReactsTold(e: Endpoint, s: Endpoint, seg: Segment, e': Endpoint)
    requires Told(e, seg, s) && Reacts(CLNT_WAIT_SYN_ACK, s, seg, s.par.cakMX + 1, e')
    ensures Reacts(CLNT_WAIT_SYN_ACK, e.(par := s.par), seg, s.par.cakMX + 1, e')
  {
    hide Again, OutDepth, Nxt, StillKept, RexCount, RexRuns, Released;
    SameLeft(e, s, seg);
    SameAlone(e, s.par, seg);
  }

  lemma GreetSends(e: Endpoint, seg: Segment, isn: Byte)
    requires e.st.CLNT_WAIT_SYN_ACK? && !e.cfg.isServer && |e.rx.window| <= 128
    ensures var e' := HandleRx(e, seg, isn);
            if seg.syn then Greets(e, seg, e') else Unwelcome(e, seg, e')
  {
    hide HandleSyn, RxAccepted, Reacts, SameReceiver, Nxt, Sub, GivesUp;
    if !seg.syn {
      UnwelcomeSends(e, seg, isn);
    } else if !seg.ack {
      SynRefused(e, seg, isn);
    } else {
      SynTold(e, seg, isn);
      OwnNumber(seg.seqNo);
      Greeted(e, HandleSyn(e, seg, isn).0, seg);
    }
  }

  lemma Greeted(e: Endpoint, s: Endpoint, seg: Segment)
    requires Told(e, seg, s) && seg.ack && |e.rx.window| <= 128 && Sub(seg.seqNo, Nxt(seg.seqNo)) == 255
    requires s.st == if seg.ackNo == e.tx.lastSeqSent then PREP_OPEN else CLNT_WAIT_SYN_ACK
    ensures Greets(e, seg, RxAccepted(CLNT_WAIT_SYN_ACK, s, seg))
  {
    hide RxAccepted, Reacts, SameReceiver, Nxt, Sub;
    var e' := RxAccepted(CLNT_WAIT_SYN_ACK, s, seg);
    AcceptedKeepsRx(CLNT_WAIT_SYN_ACK, s, seg);
    SameRx(s, e');
    AcceptedReacts(CLNT_WAIT_SYN_ACK, s, seg);
    ReactsTold(e, s, seg, e');
    AcceptedMoves(CLNT_WAIT_SYN_ACK, s, seg);
  }
}

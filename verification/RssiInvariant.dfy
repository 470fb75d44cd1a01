/** The invariant of a single endpoint, and what every handler does to it, whatever segment
    arrives. */
module RssiInvariant {
  import opened Wrappers
  import opened CircularIndex
  import opened RssiSegments
  import opened RssiEndpoint

  // ----- sending half

  /** Index of the oldest unacknowledged item. */
  function Base(t: Tx): int {
    |t.sent| - |t.ring.segs|
  }

  /** The ring holds exactly the items Base.. of the history, numbered consecutively from
      `oldest`. */
  ghost predicate RingOk(t: Tx) {
    && |t.ring.segs| <= |t.sent|
    && (t.sent != [] ==> t.ring.oldest == Num(t.isn, Base(t)))
    && forall j :: 0 <= j < |t.ring.segs| ==> Carries(t.ring.segs[j], t.sent[Base(t) + j], Num(t.isn, Base(t) + j))
  }

  /** The SYN, and only the SYN, comes first. */
  ghost predicate SynFirst(items: seq<Item>) {
    forall i :: 0 <= i < |items| ==> (items[i].Syn? <==> i == 0)
  }

  ghost predicate SynItemOk(cfg: Config, item: Item) {
    item.Syn? && item.ack == cfg.isServer && item.params.ossMX == MaxSegs(cfg) && item.params.rexMX >= 1
  }

  ghost predicate TxOk(cfg: Config, rstSent: bool, t: Tx) {
    && RingOk(t)
    && SynFirst(t.sent)
    && t.taken == Dats(t.sent)
    && (!rstSent && t.sent != [] ==> t.lastSeqSent == Num(t.isn, |t.sent| - 1))
    && (t.sent != [] ==> SynItemOk(cfg, t.sent[0]))
  }

  /** Index of the item that a segment of the ring's window carries. */
  function DataIdx(t: Tx, seg: Segment): int {
    Base(t) + Sub(seg.seqNo, t.ring.oldest)
  }

  predicate IsAckOnly(seg: Segment) {
    IsPureAck(seg) && seg.payload == []
  }

  predicate IsRst(seg: Segment) {
    seg.rst && !seg.syn && !seg.nul && seg.payload == []
  }

  /** `seg` carries an item that the ring still keeps. */
  ghost predicate CarriesRing(t: Tx, seg: Segment) {
    var i := DataIdx(t, seg);
    && 0 <= Base(t) <= i < |t.sent|
    && Carries(seg, t.sent[i], Num(t.isn, i))
  }

  /** A segment that has just been sent. */
  ghost predicate WireSegOk(t: Tx, lastSeqRecv: Byte, rstSent: bool, seg: Segment) {
    && seg.ackNo == lastSeqRecv
    && (IsAckOnly(seg) || (IsRst(seg) && rstSent) || CarriesRing(t, seg))
  }

  ghost predicate WireOk(t: Tx, lastSeqRecv: Byte, rstSent: bool, wire: seq<Segment>) {
    forall k :: 0 <= k < |wire| ==> WireSegOk(t, lastSeqRecv, rstSent, wire[k])
  }

  // ----- receiving half

  ghost predicate WindowEmpty(w: seq<Option<Segment>>) {
    forall o :: 0 <= o < |w| ==> w[o].None?
  }

  ghost predicate WindowOk(w: seq<Option<Segment>>) {
    forall o :: 0 <= o < |w| && w[o].Some? ==> IsData(w[o].value)
  }

  ghost predicate RxOk(r: Rx) {
    && r.delivered == Dats(r.got)
    && SynFirst(r.got)
    && (r.got == [] ==> WindowEmpty(r.window))
    && (r.got != [] ==> r.lastSeqRecv == (r.oldest - 1) % 256)
    && WindowOk(r.window)
  }

  // ----- the endpoint

  /** Before the handshake only the SYN may be outstanding. */
  function Limit(e: Endpoint): nat {
    if e.rx.got == [] then 1 else e.par.peerOssMX
  }

  ghost predicate Fresh(e: Endpoint) {
    && e.st == CLOSED && !e.rstSent
    && e.tx.sent == [] && e.tx.taken == [] && e.rx.got == [] && e.rx.delivered == []
    && e.wire == []
  }

  ghost predicate RunningOk(e: Endpoint) {
    && TxOk(e.cfg, e.rstSent, e.tx)
    && RxOk(e.rx)
    && RingSize(e) <= Limit(e) && 1 <= e.par.peerOssMX <= e.tx.ring.capa
    && e.par.peerOssMX <= 128
    && (e.rx.got == [] ==> |e.tx.sent| <= 1)
    && e.par.rexMX >= 1
    && WireOk(e.tx, e.rx.lastSeqRecv, e.rstSent, e.wire)
  }

  ghost predicate InputOk(q: seq<Payload>) {
    forall k :: 0 <= k < |q| ==> q[k] != []
  }

  ghost predicate Local(e: Endpoint) {
    && ValidConfig(e.cfg)
    && |e.rx.window| == MaxSegs(e.cfg) <= e.tx.ring.capa
    && InputOk(e.inpQ)
    && if e.started then RunningOk(e) else Fresh(e)
  }

  /** Nothing a later acknowledgement could invalidate has been sent. */
  ghost predicate NoDataOnWire(e: Endpoint) {
    forall k :: 0 <= k < |e.wire| ==> IsAckOnly(e.wire[k]) || (IsRst(e.wire[k]) && e.rstSent)
  }

  /** How sending changes an endpoint: the history and the wire grow, nothing is acknowledged,
      and the receiving half is left alone. */
  ghost predicate SendsOnly(e: Endpoint, e': Endpoint) {
    && e'.cfg == e.cfg && e'.started == e.started
    && e'.rx == e.rx && e'.par == e.par && e'.outQ == e.outQ && e'.ctl.usrO == e.ctl.usrO
    && e'.tx.isn == e.tx.isn && e'.tx.ring.capa == e.tx.ring.capa
    && Base(e'.tx) == Base(e.tx) && e.tx.sent <= e'.tx.sent
    && e.wire <= e'.wire
    && (e.rstSent ==> e'.rstSent)
    && (e.ctl.nulT ==> e'.ctl.nulT)
    && e'.tx.taken + e'.inpQ == e.tx.taken + e.inpQ
    && e'.ctl.usrI == e.ctl.usrI
  }

  /** State, counters and timers take no part in the local invariant. */
  lemma LocalFrame(e: Endpoint, e': Endpoint)
    requires e.started && Local(e) && e' == e.(st := e'.st, ctl := e'.ctl)
    ensures Local(e')
  {
  }

  lemma SendsFrame(e: Endpoint, e1: Endpoint, s: Endpoint, e': Endpoint)
    requires SendsOnly(e1, s)
    requires e1 == e.(st := e1.st, ctl := e1.ctl) && e' == s.(st := e'.st, ctl := e'.ctl)
    requires e1.ctl.nulT == e.ctl.nulT && e1.ctl.usrI == e.ctl.usrI && e1.ctl.usrO == e.ctl.usrO
    requires (s.ctl.nulT ==> e'.ctl.nulT) && e'.ctl.usrI == s.ctl.usrI && e'.ctl.usrO == s.ctl.usrO
    ensures SendsOnly(e, e')
  {
  }

  // ----- sending

  lemma SendBufLocal(e: Endpoint, seg: Segment)
    requires e.started && Local(e)
    requires IsAckOnly(seg) || (IsRst(seg) && e.rstSent) || CarriesRing(e.tx, seg)
    ensures Local(SendBuf(e, seg)) && SendsOnly(e, SendBuf(e, seg))
  {
    var s := Stamp(e, seg);
    assert CarriesRing(e.tx, seg) ==> CarriesRing(e.tx, s);
    assert WireSegOk(e.tx, e.rx.lastSeqRecv, e.rstSent, s);
  }

  /** Appending the next item to ring and history keeps both consistent. */
  lemma TxPush(cfg: Config, t: Tx, seg: Segment, t': Tx)
    requires TxOk(cfg, false, t) && t.sent != [] && |t.ring.segs| < 128
    requires Carries(seg, ItemOf(seg), Nxt(t.lastSeqSent)) && !seg.syn
    requires t' == t.(lastSeqSent := Nxt(t.lastSeqSent),
                      ring := t.ring.(segs := t.ring.segs + [seg]),
                      sent := t.sent + [ItemOf(seg)],
                      taken := t.taken + if seg.nul then [] else [seg.payload])
    ensures TxOk(cfg, false, t') && Base(t') == Base(t) && CarriesRing(t', seg)
  {
    hide Num, Nxt, Sub, Dats;
    var n := |t.sent|;
    NumNext(t.isn, n - 1);
    DatsSnoc(t.sent, ItemOf(seg));
    SubNum(t.isn, n, Base(t));
    assert t'.lastSeqSent == Num(t'.isn, n);
    forall j | 0 <= j < |t'.ring.segs|
      ensures Carries(t'.ring.segs[j], t'.sent[Base(t') + j], Num(t'.isn, Base(t') + j))
    {
      if j < |t.ring.segs| {
        assert Carries(t.ring.segs[j], t.sent[Base(t) + j], Num(t.isn, Base(t) + j));
      }
    }
  }

  /** Segments on the wire stay valid when the history grows. */
  lemma WireGrows(t: Tx, t': Tx, lastSeqRecv: Byte, wire: seq<Segment>)
    requires WireOk(t, lastSeqRecv, false, wire)
    requires t.sent <= t'.sent && Base(t') == Base(t) && t'.isn == t.isn && t'.ring.oldest == t.ring.oldest
    ensures WireOk(t', lastSeqRecv, false, wire)
  {
    forall k | 0 <= k < |wire|
      ensures WireSegOk(t', lastSeqRecv, false, wire[k])
    {
      assert WireSegOk(t, lastSeqRecv, false, wire[k]);
    }
  }

  lemma SendKeepLocal(e0: Endpoint, e: Endpoint, seg: Segment)
    requires e0.started && Local(e0) && !e0.rstSent
    requires RingSize(e0) < e0.par.peerOssMX && e0.tx.sent != [] && e0.rx.got != []
    requires e == e0.(inpQ := e.inpQ, tx := e0.tx.(lastSeqSent := NextSeq(e0), taken := e.tx.taken))
    requires InputOk(e.inpQ)
    requires Carries(seg, ItemOf(seg), NextSeq(e0)) && !seg.syn
    requires e.tx.taken == e0.tx.taken + if seg.nul then [] else [seg.payload]
    requires e.tx.taken + e.inpQ == e0.tx.taken + e0.inpQ
    ensures Local(SendKeep(e, seg)) && SendsOnly(e0, SendKeep(e, seg))
    ensures RingSize(SendKeep(e, seg)) == RingSize(e0) + 1
    ensures SendKeep(e, seg).st == e0.st && !SendKeep(e, seg).rstSent
  {
    var s := Stamp(e, seg);
    var e' := SendKeep(e, seg);
    TxPush(e0.cfg, e0.tx, s, e'.tx);
    WireGrows(e0.tx, e'.tx, e0.rx.lastSeqRecv, e0.wire);
  }

  lemma SendAckLocal(e: Endpoint)
    requires e.started && Local(e)
    ensures Local(SendAck(e)) && SendsOnly(e, SendAck(e))
  {
    SendBufLocal(e, AckSegment(NextSeq(e)));
  }

  lemma SendRstLocal(e: Endpoint)
    requires e.started && Local(e)
    ensures Local(Abort(e)) && SendsOnly(e, Abort(e)) && Abort(e).rstSent
    ensures Abort(e).tx.sent == e.tx.sent && Abort(e).tx.ring == e.tx.ring
    ensures Abort(e).wire == e.wire + [Stamp(e, RstSegment(NextSeq(e)))]
  {
    var t' := e.tx.(lastSeqSent := NextSeq(e));
    assert WireOk(t', e.rx.lastSeqRecv, true, e.wire) by {
      forall k | 0 <= k < |e.wire|
        ensures WireSegOk(t', e.rx.lastSeqRecv, true, e.wire[k])
      {
        assert WireSegOk(e.tx, e.rx.lastSeqRecv, e.rstSent, e.wire[k]);
      }
    }
    assert TxOk(e.cfg, true, t');
  }

  lemma TakeInputLocal(e: Endpoint)
    requires e.started && Local(e) && !e.rstSent && e.tx.sent != [] && e.rx.got != []
    requires WindowOpen(e) && e.inpQ != []
    ensures Local(TakeInput(e)) && SendsOnly(e, TakeInput(e)) && !TakeInput(e).rstSent
    ensures TakeInput(e).st == e.st && RingSize(TakeInput(e)) == RingSize(e) + 1
  {
    var n := NextSeq(e);
    var e1 := e.(inpQ := e.inpQ[1..], tx := e.tx.(lastSeqSent := n, taken := e.tx.taken + [e.inpQ[0]]));
    SendKeepLocal(e, e1, DatSegment(n, e.inpQ[0]));
  }

  /** Both SYNs are known. */
  ghost predicate Established(e: Endpoint) {
    e.started && e.tx.sent != [] && e.rx.got != []
  }

  ghost predicate IsOpen(st: State) {
    st.OPEN? || st.OPEN_OUTWIN_FULL?
  }

  lemma SendDatOrAckLocal(self: State, e: Endpoint)
    requires e.started && Local(e)
    requires IsOpen(self) ==> Established(e) && !e.rstSent
    ensures Local(SendDatOrAck(self, e)) && SendsOnly(e, SendDatOrAck(self, e))
    ensures SendDatOrAck(self, e).rstSent == e.rstSent && SendDatOrAck(self, e).st == e.st
    ensures !IsOpen(self) ==> SendDatOrAck(self, e).tx.sent == e.tx.sent
  {
    if IsOpen(self) && WindowOpen(e) && e.inpQ != [] {
      TakeInputLocal(e);
    } else {
      SendAckLocal(e);
    }
  }

  lemma {:induction false} InputLoopLocal(e: Endpoint)
    requires Local(e) && Established(e) && !e.rstSent
    ensures var s := InputLoop(e);
            Local(s) && SendsOnly(e, s) && !s.rstSent && s.st == e.st && Established(s)
    decreases |e.inpQ|
  {
    if WindowOpen(e) && e.inpQ != [] {
      hide TxOk, RxOk, WireOk, InputOk;
      TakeInputLocal(e);
      InputLoopLocal(TakeInput(e));
    } else {
      SendsRefl(e);
    }
  }

  lemma SendNulLocal(e: Endpoint)
    requires Local(e) && Established(e) && !e.rstSent && !e.cfg.isServer
    ensures var s := SendNul(e);
            && Local(s) && SendsOnly(e, s) && !s.rstSent && s.st == e.st && Established(s)
            && s.ctl.nulT && RingSize(s) >= RingSize(e)
  {
    hide TxOk, RxOk, WireOk, InputOk, Stamp;
    if !WindowOpen(e) {
      var e1 := e.(ctl := e.ctl.(nulT := true));
      SendAckLocal(e1);
    } else {
      var n := NextSeq(e);
      SendKeepLocal(e, e.(tx := e.tx.(lastSeqSent := n)), NulSegment(n));
    }
  }

  /** Rewriting the acknowledgement number and the busy flag of one kept segment in place. */
  lemma TxRestamp(cfg: Config, rstSent: bool, t: Tx, k: nat, s: Segment)
    requires TxOk(cfg, rstSent, t) && k < |t.ring.segs| <= 128
    requires s == t.ring.segs[k].(bsy := s.bsy, ackNo := s.ackNo)
    ensures CarriesRing(t, s)
    ensures TxOk(cfg, rstSent, t.(ring := t.ring.(segs := t.ring.segs[k := s])))
  {
    hide Num, Sub, Dats;
    var t' := t.(ring := t.ring.(segs := t.ring.segs[k := s]));
    assert Carries(t.ring.segs[k], t.sent[Base(t) + k], Num(t.isn, Base(t) + k));
    SubNum(t.isn, Base(t) + k, Base(t));
    forall j | 0 <= j < |t'.ring.segs|
      ensures Carries(t'.ring.segs[j], t'.sent[Base(t') + j], Num(t'.isn, Base(t') + j))
    {
      assert Carries(t.ring.segs[j], t.sent[Base(t) + j], Num(t.isn, Base(t) + j));
    }
  }

  lemma Resend(e: Endpoint, k: nat)
    requires e.started && Local(e) && k < RingSize(e)
    ensures Local(ResendAt(e, k)) && SendsOnly(e, ResendAt(e, k))
  {
    hide TxOk, Num, RxOk;
    var s := Stamp(e, e.tx.ring.segs[k]);
    var e' := ResendAt(e, k);
    TxRestamp(e.cfg, e.rstSent, e.tx, k, s);
    assert WireOk(e'.tx, e.rx.lastSeqRecv, e.rstSent, e'.wire) by {
      forall i | 0 <= i < |e'.wire|
        ensures WireSegOk(e'.tx, e.rx.lastSeqRecv, e.rstSent, e'.wire[i])
      {
        assert i < |e.wire| ==> WireSegOk(e.tx, e.rx.lastSeqRecv, e.rstSent, e.wire[i]);
      }
    }
  }

  lemma {:induction false} RetransmitLocal(e: Endpoint, k: nat)
    requires e.started && Local(e) && k <= RingSize(e)
    ensures Local(RetransmitFrom(e, k)) && SendsOnly(e, RetransmitFrom(e, k))
    ensures var e' := RetransmitFrom(e, k);
            e'.rstSent == e.rstSent && e'.st == e.st && e'.tx.sent == e.tx.sent && RingSize(e') == RingSize(e)
            && e'.inpQ == e.inpQ && e'.ctl.usrI == e.ctl.usrI && e'.ctl.peerBSY == e.ctl.peerBSY
    decreases RingSize(e) - k
  {
    if k < RingSize(e) {
      Resend(e, k);
      RetransmitLocal(ResendAt(e, k), k + 1);
    }
  }

  lemma ProcessRexLocal(e: Endpoint)
    requires e.started && Local(e)
    ensures Local(ProcessRex(e)) && SendsOnly(e, ProcessRex(e))
    ensures var e' := ProcessRex(e);
            && e'.rstSent == (e.rstSent || e.ctl.numRex + 1 > e.par.rexMX)
            && e'.st == (if e.ctl.numRex + 1 > e.par.rexMX then CLOSED else e.st)
            && e'.tx.sent == e.tx.sent && RingSize(e') == RingSize(e) && e'.inpQ == e.inpQ && e'.ctl.usrI == e.ctl.usrI
            && e'.ctl.peerBSY == e.ctl.peerBSY
  {
    hide RunningOk, RetransmitFrom, TxOk;
    var e1 := CountRex(e);
    LocalFrame(e, e1);
    SendsRefl(e1);
    var e' := ProcessRex(e);
    hide Local, RetransmitFrom, Abort;
    if e1.ctl.numRex > e1.par.rexMX {
      SendRstLocal(e1);
      SendsFrame(e, e1, e', e');
      AbortFields(e1);
    } else if RingSize(e1) > 0 {
      RetransmitLocal(e1, 0);
      var s := RetransmitFrom(e1, 0);
      LocalFrame(s, e');
      SendsFrame(e, e1, s, e');
    }
  }

  lemma AbortFields(e: Endpoint)
    ensures Abort(e).st == CLOSED && Abort(e).inpQ == e.inpQ && Abort(e).ctl.peerBSY == e.ctl.peerBSY
  {
  }

  // ----- receiving

  /** What any well-formed segment satisfies. */
  ghost predicate SegOk(seg: Segment) {
    && (seg.syn || seg.rst ==> seg.payload == [] && !seg.nul && !(seg.syn && seg.rst))
    && (seg.syn ==> 1 <= seg.params.ossMX <= 128 && seg.params.rexMX >= 1)
  }

  /** Everything but the sending half, and only the front of the ring there, is untouched. */
  ghost predicate AcksOnly(e: Endpoint, e': Endpoint) {
    && e'.cfg == e.cfg && e'.st == e.st && e'.started == e.started && e'.rstSent == e.rstSent
    && e'.par == e.par
    && e'.ctl.numCak == e.ctl.numCak && e'.ctl.peerBSY == e.ctl.peerBSY && e'.rx == e.rx
    && e'.ctl.ackT == e.ctl.ackT && e'.ctl.nulT == e.ctl.nulT && e'.ctl.usrI == e.ctl.usrI && e'.ctl.usrO == e.ctl.usrO
    && e'.inpQ == e.inpQ && e'.outQ == e.outQ && e'.wire == e.wire
    && e'.tx.sent == e.tx.sent && e'.tx.isn == e.tx.isn && e'.tx.taken == e.tx.taken && e'.tx.lastSeqSent == e.tx.lastSeqSent
    && Base(e.tx) <= Base(e'.tx)
    && e'.tx.ring.capa == e.tx.ring.capa
  }

  lemma TxAck(cfg: Config, rstSent: bool, t: Tx, ackNo: Byte)
    requires TxOk(cfg, rstSent, t)
    ensures TxOk(cfg, rstSent, t.(ring := RingAck(t.ring, ackNo)))
  {
    hide Num, AckCount, SynFirst;
    var t' := t.(ring := RingAck(t.ring, ackNo));
    var n := AckCount(t.ring, ackNo);
    NumAdd(t.isn, Base(t), n);
    assert t'.ring.segs == t.ring.segs[n..];
    forall j | 0 <= j < |t'.ring.segs|
      ensures Carries(t'.ring.segs[j], t'.sent[Base(t') + j], Num(t'.isn, Base(t') + j))
    {
      assert Carries(t.ring.segs[j + n], t.sent[Base(t) + (j + n)], Num(t.isn, Base(t) + (j + n)));
    }
  }

  lemma WireNoData(e: Endpoint, t': Tx)
    requires NoDataOnWire(e) && WireOk(e.tx, e.rx.lastSeqRecv, e.rstSent, e.wire)
    ensures WireOk(t', e.rx.lastSeqRecv, e.rstSent, e.wire)
  {
    forall k | 0 <= k < |e.wire|
      ensures WireSegOk(t', e.rx.lastSeqRecv, e.rstSent, e.wire[k])
    {
      assert WireSegOk(e.tx, e.rx.lastSeqRecv, e.rstSent, e.wire[k]);
    }
  }

  /** An acknowledgement, even a stray one, only ever removes a prefix of the ring. */
  lemma AckLocal(e: Endpoint, seg: Segment)
    requires e.started && Local(e)
    requires seg.ack ==> NoDataOnWire(e)
    ensures var e' := ProcessAckNumber(e, seg);
            && Local(e') && AcksOnly(e, e')
            && Base(e'.tx) == Base(e.tx) + (if seg.ack then AckCount(e.tx.ring, seg.ackNo) else 0)
            && (RingSize(e') < RingSize(e) ==> e'.ctl.numRex == 0)
            && (!seg.ack ==> e' == e)
  {
    hide TxOk, RxOk, WireOk, NoDataOnWire, InputOk, RingAck, AckCount;
    if seg.ack {
      TxAck(e.cfg, e.rstSent, e.tx, seg.ackNo);
      WireNoData(e, e.tx.(ring := RingAck(e.tx.ring, seg.ackNo)));
    }
  }

  lemma StoreOk(r: Rx, seg: Segment)
    requires RxOk(r) && r.got != [] && IsData(seg) && CanAccept(r, seg.seqNo)
    ensures RxOk(Store(r, seg))
  {
  }

  ghost predicate DrainOk(r: Rx) {
    r.delivered == Dats(r.got) && SynFirst(r.got) && r.got != [] && WindowOk(r.window)
  }

  lemma PopFrontOk(r: Rx, r': Rx)
    requires DrainOk(r)
    requires r.window != [] && r.window[0].Some?
    requires r' == PopFront(r).(delivered := r.delivered + if r.window[0].value.nul then [] else [r.window[0].value.payload])
    ensures DrainOk(r') && |r'.window| == |r.window|
  {
    DatsSnoc(r.got, ItemOf(r.window[0].value));
  }

  lemma SuffixSnoc(q: seq<Payload>, x: Payload, a: seq<Payload>, c: seq<Payload>)
    requires a + [x] <= c
    ensures a <= c && (q + [x]) + c[|a + [x]|..] == q + c[|a|..]
  {
    assert c[|a|..] == [x] + c[|a| + 1..];
  }

  lemma {:induction false} DrainLoopOk(r: Rx, outQ: seq<Payload>, depth: nat)
    requires DrainOk(r)
    ensures var d := DrainLoop(r, outQ, depth);
            && DrainOk(d.rx) && |d.rx.window| == |r.window| && r.got <= d.rx.got
            && r.delivered <= d.rx.delivered && d.outQ == outQ + d.rx.delivered[|r.delivered|..]
    decreases Ready(r.window)
  {
    hide DrainOk;
    if r.window != [] && r.window[0].Some? {
      var seg := r.window[0].value;
      var r' := PopFront(r);
      if seg.nul {
        PopFrontOk(r, r');
        DrainLoopOk(r', outQ, depth);
      } else if |outQ| < depth {
        var r1 := r'.(delivered := r'.delivered + [seg.payload]);
        PopFrontOk(r, r1);
        DrainLoopOk(r1, outQ + [seg.payload], depth);
        SuffixSnoc(outQ, seg.payload, r.delivered, DrainLoop(r1, outQ + [seg.payload], depth).rx.delivered);
      }
    }
  }

  /** How handing on data changes an endpoint. */
  ghost predicate DrainsOnly(e: Endpoint, e': Endpoint) {
    && e'.cfg == e.cfg && e'.st == e.st && e'.started == e.started && e'.rstSent == e.rstSent
    && e'.par == e.par
    && e'.ctl.numRex == e.ctl.numRex && e'.ctl.peerBSY == e.ctl.peerBSY && e'.tx == e.tx
    && e'.ctl.nulT == e.ctl.nulT && e'.ctl.usrI == e.ctl.usrI && e'.inpQ == e.inpQ && e'.wire == e.wire
    && |e'.rx.window| == |e.rx.window|
    && e.rx.got <= e'.rx.got
    && (e.ctl.usrO ==> e'.ctl.usrO)
    && e.rx.delivered <= e'.rx.delivered
    && e'.outQ == e.outQ + e'.rx.delivered[|e.rx.delivered|..]
  }

  lemma DrainLocal(self: State, e: Endpoint)
    requires e.started && Local(e) && e.rx.got != [] && e.wire == []
    ensures Local(Drain(self, e)) && DrainsOnly(e, Drain(self, e))
    ensures !IsOpen(self) ==> Drain(self, e) == e
  {
    if IsOpen(self) {
      DrainLoopOk(e.rx, e.outQ, OutDepth(e.cfg));
      var d := DrainLoop(e.rx, e.outQ, OutDepth(e.cfg));
      assert RxOk(d.rx.(lastSeqRecv := (d.rx.oldest - 1) % 256));
    }
  }

  lemma RxDataLocal(self: State, e: Endpoint, seg: Segment)
    requires e.started && Local(e) && SegOk(seg)
    requires seg.payload != [] || seg.nul ==> e.rx.got != [] && e.wire == []
    ensures Local(RxData(self, e, seg)) && DrainsOnly(e, RxData(self, e, seg))
    ensures !IsOpen(self) ==> RxData(self, e, seg).ctl.usrO == e.ctl.usrO
  {
    hide TxOk, RxOk, WireOk, InputOk, Drain;
    if (seg.payload != [] || seg.nul) && CanAccept(e.rx, seg.seqNo) {
      StoreOk(e.rx, seg);
      var e1 := e.(rx := Store(e.rx, seg));
      assert Local(e1);
      DrainLocal(self, e1);
    }
  }

  /** What the reply to a segment may do. */
  ghost predicate Replies(self: State, e: Endpoint, e': Endpoint) {
    && Local(e') && SendsOnly(e, e')
    && (e'.rstSent && !e.rstSent ==> e'.st == CLOSED && 0 < RingSize(e) == RingSize(e') && e.ctl.numRex + 1 > e.par.rexMX)
    && (e'.rstSent == e.rstSent ==> e'.st == e.st)
    && (e.cfg.isServer ==> e'.ctl.nulT || e.ctl.peerBSY)
    && (!IsOpen(self) ==> e'.tx.sent == e.tx.sent)
  }

  /** Only counters and timers differ, and none that matters is switched off. */
  ghost predicate Retimed(e: Endpoint, e': Endpoint) {
    && e' == e.(ctl := e'.ctl)
    && e'.ctl.usrI == e.ctl.usrI && e'.ctl.usrO == e.ctl.usrO && (e.ctl.nulT ==> e'.ctl.nulT)
  }

  lemma PolicyTimers(e: Endpoint)
    ensures Retimed(e, CountSegment(e)) && CountSegment(e).ctl.nulT == e.ctl.nulT
    ensures Retimed(e, ArmAck(e)) && Retimed(e, KeepAlive(e)) && (e.cfg.isServer ==> KeepAlive(e).ctl.nulT)
  {
  }

  lemma RetimedSends(e: Endpoint, e1: Endpoint, s: Endpoint, e': Endpoint)
    requires e.started && Local(e) && Retimed(e, e1) && e1.ctl.nulT == e.ctl.nulT
    requires Local(s) && s.started && SendsOnly(e1, s) && Retimed(s, e')
    ensures Local(e') && SendsOnly(e, e') && e'.rstSent == s.rstSent && e'.st == s.st && e'.tx == s.tx
  {
    LocalFrame(s, e');
    hide Local;
    SendsFrame(e, e1, s, e');
  }

  lemma PolicyLocal(self: State, e: Endpoint)
    requires e.started && Local(e)
    requires IsOpen(self) ==> Established(e) && !e.rstSent
    ensures var e' := RxAckPolicy(self, e);
            Local(e') && SendsOnly(e, e') && e'.rstSent == e.rstSent && e'.st == e.st && (e.cfg.isServer ==> e'.ctl.nulT)
            && (!IsOpen(self) ==> e'.tx.sent == e.tx.sent)
  {
    hide Local, SendsOnly, SendDatOrAck, CountSegment, ArmAck, KeepAlive, Retimed, Established;
    var e1 := CountSegment(e);
    PolicyTimers(e);
    Same(e, e1);
    assert Local(e1) by { RetimedLocal(e, e1); }
    if e1.ctl.numCak > e1.par.cakMX {
      var s := SendDatOrAck(self, e1);
      SendDatOrAckLocal(self, e1);
      PolicyTimers(s);
      Sender(e1, s);
      RetimedSends(e, e1, s, KeepAlive(s));
    } else {
      SendsRefl(e1);
      PolicyTimers(e1);
      var a := ArmAck(e1);
      PolicyTimers(a);
      Same(e1, a);
      RetimedTwice(e1, a, KeepAlive(a));
      RetimedSends(e, e1, e1, KeepAlive(a));
    }
  }

  lemma Same(e: Endpoint, e1: Endpoint)
    requires Retimed(e, e1)
    ensures e1.st == e.st && e1.started == e.started && e1.rstSent == e.rstSent && e1.cfg == e.cfg && e1.tx == e.tx
    ensures Established(e1) == Established(e)
  {
  }

  lemma RetimedLocal(e: Endpoint, e1: Endpoint)
    requires Retimed(e, e1) && e.started && Local(e)
    ensures Local(e1)
  {
    LocalFrame(e, e1);
  }

  lemma RetimedTwice(e: Endpoint, e1: Endpoint, e2: Endpoint)
    requires Retimed(e, e1) && Retimed(e1, e2)
    ensures Retimed(e, e2)
  {
  }

  lemma Sender(e: Endpoint, s: Endpoint)
    requires SendsOnly(e, s)
    ensures s.cfg == e.cfg && s.started == e.started
  {
  }

  lemma SendsRefl(e: Endpoint)
    ensures SendsOnly(e, e)
  {
  }

  lemma ReplyLocal(self: State, e: Endpoint, seg: Segment)
    requires e.started && Local(e)
    requires IsOpen(self) ==> Established(e) && !e.rstSent
    requires e.rstSent ==> e.st == CLOSED
    ensures Replies(self, e, Reply(self, e, seg))
  {
    var e1 := RxBusy(e, seg);
    if e.ctl.peerBSY && !seg.bsy && RingSize(e1) > 0 {
      ProcessRexLocal(e1);
    } else {
      PolicyLocal(self, e1);
    }
  }

  // ----- handshake

  /** The peer's SYN has been taken in: numbering and window follow it. */
  function Greeted(e: Endpoint, seg: Segment): Endpoint {
    Seed(ExtractParams(e, seg.params), seg)
  }

  ghost predicate NothingReceived(e: Endpoint) {
    && WindowEmpty(e.rx.window) && |e.rx.got| <= 1 && RingSize(e) <= 1 && |e.tx.sent| <= 1
  }

  lemma GreetedLocal(e: Endpoint, seg: Segment)
    requires e.started && Local(e) && NothingReceived(e) && e.wire == [] && SegOk(seg) && seg.syn
    ensures Local(Greeted(e, seg)) && Established(Greeted(e, seg)) == (e.tx.sent != [])
  {
    hide Dats, Num, TxOk, RxOk, WireOk, WindowEmpty, InputOk;
    NoSegments(e, Greeted(e, seg).tx);
    GreetedRx(e, seg);
    GreetedTx(e, seg);
  }

  /** At most a SYN has been received, so there are no payloads. */
  lemma OnlySyn(items: seq<Item>)
    requires |items| <= 1 && SynFirst(items)
    ensures Dats(items) == []
  {
    assert items != [] ==> items[..|items| - 1] == [];
  }

  lemma GreetedRx(e: Endpoint, seg: Segment)
    requires RxOk(e.rx) && WindowEmpty(e.rx.window) && |e.rx.got| <= 1 && seg.syn
    ensures RxOk(Greeted(e, seg).rx)
  {
    hide Dats;
    OnlySyn(e.rx.got);
    OnlySyn([ItemOf(seg)]);
  }

  lemma GreetedTx(e: Endpoint, seg: Segment)
    requires TxOk(e.cfg, e.rstSent, e.tx)
    ensures TxOk(e.cfg, e.rstSent, Greeted(e, seg).tx)
  {
    hide Dats, Num, Carries;
    assert Greeted(e, seg).tx.ring.segs == e.tx.ring.segs;
  }

  lemma NoSegments(e: Endpoint, t: Tx)
    requires e.wire == []
    ensures forall n: Byte, r: bool :: WireOk(t, n, r, e.wire)
  {
  }

  /** The first segment of this side. */
  lemma SendSynLocal(e: Endpoint, doAck: bool, isn: Byte)
    requires e.started && Local(e) && !e.rstSent && e.tx.sent == [] && e.wire == [] && doAck == e.cfg.isServer
    ensures var e' := SendSyn(e, doAck, isn);
            && Local(e') && e'.tx.sent == [Syn(doAck, SynParams(MaxSegs(e.cfg), e.par.rexMX, e.par.cakMX))]
            && Base(e'.tx) == 0 && e'.tx.isn == isn && |e'.wire| == 1 && e'.wire[0].ack == doAck
            && e'.rx == e.rx && e'.par == e.par && e'.cfg == e.cfg && e'.started && !e'.rstSent && e'.st == e.st
            && e'.ctl.usrI == e.ctl.usrI && e'.ctl.usrO == e.ctl.usrO && (!e.cfg.isServer ==> e'.ctl.nulT)
            && e'.ctl.peerBSY == e.ctl.peerBSY && e'.tx.lastSeqSent == isn
  {
    hide RxOk, Num;
    var seg := SynSegment(isn, doAck, SynParams(MaxSegs(e.cfg), e.par.rexMX, e.par.cakMX));
    var s := Stamp(e, seg);
    var e' := SendSyn(e, doAck, isn);
    var t := e'.tx;
    assert t.sent == [ItemOf(seg)] && t.ring.segs == [s] && t.ring.oldest == isn;
    NumZero(isn);
    assert Dats([ItemOf(seg)]) == [];
    assert Sub(isn, isn) == 0;
    assert CarriesRing(t, s);
    assert RingOk(t);
  }
}

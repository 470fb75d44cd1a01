/** One RSSI endpoint as a value, and every handler of src/cpsw_rssi_states.cc and
    src/cpsw_rssi.cc as a function on that value.

    Class `RssiContext.CRssi` runs the same handlers step by step on mutable buffers; these
    functions are its specification, and the invariants and the end-to-end theorems are proved
    about them. */
module RssiEndpoint {
  import opened Wrappers
  import opened CircularIndex
  import opened RssiSegments

  datatype State =
    | CLOSED
    | LISTEN
    | CLNT_WAIT_SYN_ACK
    | SERV_WAIT_SYN_ACK
    | PREP_OPEN
    | OPEN
    | OPEN_OUTWIN_FULL

  /** CRssiConfigParams (plus the role).  Queue depth 0 selects the default depth. */
  datatype Config = Config(isServer: bool, ldMaxUnackedSegs: nat, outQueueDepth: nat, inpQueueDepth: nat,
                           rexMax: nat, cumAckMax: nat)

  /** RingBuf: the segments kept for retransmission, oldest first. */
  datatype Ring = Ring(oldest: Byte, segs: seq<Segment>, capa: nat)

  /** Sending half.  `sent` (everything ever put into the ring) and `taken` (the user payloads
      popped from inpQ_) are history: no handler reads them. */
  datatype Tx = Tx(ring: Ring, lastSeqSent: Byte, isn: Byte, sent: seq<Item>, taken: seq<Payload>)

  /** Receiving half.  `window[o]` is the slot of the segment numbered oldest + o.  `got`
      (everything that left the buffer in order) and `delivered` (the payloads pushed into
      outQ_) are history. */
  datatype Rx = Rx(lastSeqRecv: Byte, oldest: Byte, window: seq<Option<Segment>>,
                   got: seq<Item>, delivered: seq<Payload>)

  /** Negotiated parameters. */
  datatype Params = Params(rexMX: nat, cakMX: nat, peerOssMX: nat)

  /** Counters, armed timers (retransmission, acknowledge, NUL) and enabled event handlers (user
      input, user output). */
  datatype Control = Control(numRex: nat, numCak: int, peerBSY: bool,
                             rexT: bool, ackT: bool, nulT: bool, usrI: bool, usrO: bool)

  /** `wire` collects the segments handed to tryPushUpstream by the handler being run;
      `started` and `rstSent` are history. */
  datatype Endpoint = Endpoint(
    cfg: Config, st: State, started: bool, rstSent: bool,
    par: Params, ctl: Control, tx: Tx, rx: Rx,
    inpQ: seq<Payload>, outQ: seq<Payload>,
    wire: seq<Segment>)

  // ----- configuration

  function MaxSegs(cfg: Config): nat {
    Pow2(cfg.ldMaxUnackedSegs)
  }

  /** mkQ */
  function OutDepth(cfg: Config): nat {
    if cfg.outQueueDepth == 0 then MaxSegs(cfg) + 4 else cfg.outQueueDepth
  }

  function InpDepth(cfg: Config): nat {
    if cfg.inpQueueDepth == 0 then MaxSegs(cfg) + 4 else cfg.inpQueueDepth
  }

  /** assertValid, and a retransmission limit of at least one. */
  predicate ValidConfig(cfg: Config) {
    cfg.ldMaxUnackedSegs < 8 && cfg.rexMax >= 1
  }

  lemma MaxSegsBound(cfg: Config)
    requires ValidConfig(cfg)
    ensures 1 <= MaxSegs(cfg) <= 128
  {
    assert Pow2(7) == 128;
    Pow2Mono(cfg.ldMaxUnackedSegs, 7);
  }

  // ----- buffers

  function RingSize(e: Endpoint): nat {
    |e.tx.ring.segs|
  }

  /** Number of segments that acknowledgement `ackNo` removes; 0 when it is out of range. */
  function AckCount(r: Ring, ackNo: Byte): (n: nat)
    ensures n <= |r.segs|
  {
    var cumAck := (ackNo - r.oldest + 1) % 256;
    if cumAck > |r.segs| then 0 else cumAck
  }

  function RingAck(r: Ring, ackNo: Byte): (r': Ring)
    ensures |r'.segs| == |r.segs| - AckCount(r, ackNo) && r'.capa == r.capa
  {
    var n := AckCount(r, ackNo);
    r.(oldest := Num(r.oldest, n), segs := r.segs[n..])
  }

  /** resize only ever grows the ring, to a power of two. */
  function GrowTo(c: nat, want: nat): (r: nat)
    requires c >= 1
    ensures r >= want
    decreases want - c
  {
    if c < want then GrowTo(2 * c, want) else c
  }

  function RingReserve(r: Ring, want: nat): (r': Ring)
    ensures r'.capa >= r.capa && r'.capa >= want && r' == r.(capa := r'.capa)
  {
    if want > r.capa then r.(capa := GrowTo(1, want)) else r
  }

  predicate CanAccept(r: Rx, seqNo: Byte) {
    Sub(seqNo, r.oldest) < |r.window|
  }

  function Store(r: Rx, seg: Segment): Rx
    requires CanAccept(r, seg.seqNo)
  {
    r.(window := r.window[Sub(seg.seqNo, r.oldest) := Some(seg)])
  }

  function ItemOf(seg: Segment): Item {
    if seg.syn then Syn(seg.ack, seg.params) else if seg.nul then Nul else Dat(seg.payload)
  }

  /** Number of segments at the front of the window that are in sequence. */
  function Ready(w: seq<Option<Segment>>): nat {
    if w == [] || w[0].None? then 0 else 1 + Ready(w[1..])
  }

  lemma {:induction false} ReadySnoc(w: seq<Option<Segment>>)
    ensures Ready(w + [None]) == Ready(w)
  {
    if w != [] && w[0].Some? {
      assert (w + [None])[1..] == w[1..] + [None];
      ReadySnoc(w[1..]);
    }
  }

  /** BufBase::pop of a filled slot. */
  function PopFront(r: Rx): (r': Rx)
    requires r.window != [] && r.window[0].Some?
    ensures Ready(r'.window) < Ready(r.window)
  {
    ReadySnoc(r.window[1..]);
    r.(oldest := Nxt(r.oldest), window := r.window[1..] + [None],
       got := r.got + [ItemOf(r.window[0].value)])
  }

  predicate OutFull(e: Endpoint) {
    |e.outQ| >= OutDepth(e.cfg)
  }

  /** The loop of OPEN::drainReassembleBuffer; `blocked` says that it stopped at a segment for
      which outQ_ has no room. */
  datatype Drained = Drained(rx: Rx, outQ: seq<Payload>, blocked: bool)

  function DrainLoop(r: Rx, outQ: seq<Payload>, depth: nat): Drained
    decreases Ready(r.window)
  {
    if r.window == [] || r.window[0].None? then Drained(r, outQ, false)
    else
      var seg := r.window[0].value;
      var r' := PopFront(r);
      if seg.nul then
        DrainLoop(r', outQ, depth)
      else if |outQ| < depth then
        DrainLoop(r'.(delivered := r'.delivered + [seg.payload]), outQ + [seg.payload], depth)
      else
        Drained(r, outQ, true)
  }

  function HandOn(e: Endpoint): Endpoint {
    var d := DrainLoop(e.rx, e.outQ, OutDepth(e.cfg));
    e.(rx := d.rx, outQ := d.outQ, ctl := e.ctl.(usrO := e.ctl.usrO || d.blocked))
  }

  function NoteReceived(e: Endpoint): Endpoint {
    e.(rx := e.rx.(lastSeqRecv := (e.rx.oldest - 1) % 256))
  }

  /** drainReassembleBuffer: only the OPEN states drain. */
  function Drain(self: State, e: Endpoint): Endpoint {
    if self.OPEN? || self.OPEN_OUTWIN_FULL? then NoteReceived(HandOn(e)) else e
  }

  // ----- sending

  /** The header fields that sendBuf rewrites, in place, at every (re-)transmission. */
  function Stamp(e: Endpoint, seg: Segment): Segment {
    seg.(bsy := seg.bsy || OutFull(e), ackNo := e.rx.lastSeqRecv)
  }

  function SendBuf(e: Endpoint, seg: Segment): Endpoint {
    e.(wire := e.wire + [Stamp(e, seg)], ctl := e.ctl.(numCak := 0, ackT := false))
  }

  function ArmRexAndNul(e: Endpoint): Endpoint {
    e.(ctl := e.ctl.(rexT := e.ctl.rexT || !e.ctl.peerBSY, nulT := e.ctl.nulT || !e.cfg.isServer))
  }

  /** sendBufAndKeepForRetransmission */
  function SendKeep(e: Endpoint, seg: Segment): Endpoint {
    ArmRexAndNul(SendBuf(e, seg).(tx := e.tx.(ring := e.tx.ring.(segs := e.tx.ring.segs + [Stamp(e, seg)]),
                                              sent := e.tx.sent + [ItemOf(seg)])))
  }

  function NextSeq(e: Endpoint): Byte {
    Nxt(e.tx.lastSeqSent)
  }

  /** sendDAT of a payload that has just been popped from inpQ_. */
  function SendDat(e: Endpoint, p: Payload): Endpoint {
    var n := NextSeq(e);
    SendKeep(e.(tx := e.tx.(lastSeqSent := n, taken := e.tx.taken + [p])), DatSegment(n, p))
  }

  function SendAck(e: Endpoint): Endpoint {
    SendBuf(e, AckSegment(NextSeq(e)))
  }

  function SendRst(e: Endpoint): Endpoint {
    var n := NextSeq(e);
    SendBuf(e.(tx := e.tx.(lastSeqSent := n), rstSent := true), RstSegment(n))
  }

  /** sendRST followed by changeState(CLOSED). */
  function Abort(e: Endpoint): Endpoint {
    SendRst(e).(st := CLOSED)
  }

  predicate WindowOpen(e: Endpoint) {
    RingSize(e) < e.par.peerOssMX
  }

  function SendNul(e: Endpoint): Endpoint {
    if !WindowOpen(e) then
      SendAck(e.(ctl := e.ctl.(nulT := true)))
    else
      var n := NextSeq(e);
      SendKeep(e.(tx := e.tx.(lastSeqSent := n)), NulSegment(n))
  }

  /** The sending half starts to count at `isn`. */
  function Renumber(e: Endpoint, isn: Byte): Endpoint {
    e.(tx := e.tx.(lastSeqSent := isn, isn := isn, ring := e.tx.ring.(oldest := isn)))
  }

  /** sendSYN; `isn` is the number derived from the clock. */
  function SendSyn(e: Endpoint, doAck: bool, isn: Byte): Endpoint {
    SendKeep(Renumber(e, isn), SynSegment(isn, doAck, SynParams(MaxSegs(e.cfg), e.par.rexMX, e.par.cakMX)))
  }

  function TakeInput(e: Endpoint): Endpoint
    requires e.inpQ != []
  {
    SendDat(e.(inpQ := e.inpQ[1..]), e.inpQ[0])
  }

  /** hasBufToSend, then sendDAT or sendACK. */
  function SendDatOrAck(self: State, e: Endpoint): Endpoint {
    if (self.OPEN? || self.OPEN_OUTWIN_FULL?) && WindowOpen(e) && e.inpQ != [] then TakeInput(e) else SendAck(e)
  }

  /** Send the k-th kept segment again; the header of the kept copy is rewritten. */
  function ResendAt(e: Endpoint, k: nat): Endpoint
    requires k < RingSize(e)
  {
    var seg := e.tx.ring.segs[k];
    SendBuf(e, seg).(tx := e.tx.(ring := e.tx.ring.(segs := e.tx.ring.segs[k := Stamp(e, seg)])))
  }

  function RetransmitFrom(e: Endpoint, k: nat): Endpoint
    requires k <= RingSize(e)
    decreases RingSize(e) - k
  {
    if k == RingSize(e) then e else RetransmitFrom(ResendAt(e, k), k + 1)
  }

  function CountRex(e: Endpoint): Endpoint {
    e.(ctl := e.ctl.(numRex := e.ctl.numRex + 1))
  }

  /** NOTCLOSED::processRetransmissionTimeout */
  function ProcessRex(e: Endpoint): Endpoint {
    var e1 := CountRex(e);
    if e1.ctl.numRex > e1.par.rexMX then Abort(e1)
    else if RingSize(e1) > 0 then ArmRexAndNul(RetransmitFrom(e1, 0))
    else e1
  }

  // ----- receiving

  /** extractConnectionParams */
  function ExtractParams(e: Endpoint, p: SynParams): Endpoint {
    e.(par := if e.cfg.isServer then e.par.(peerOssMX := p.ossMX) else Params(p.rexMX, p.cakMX, p.ossMX),
       tx := e.tx.(ring := RingReserve(e.tx.ring, p.ossMX)))
  }

  /** lastSeqRecv_ and the reassembly buffer follow the peer's SYN. */
  function Seed(e: Endpoint, seg: Segment): Endpoint {
    e.(rx := e.rx.(lastSeqRecv := seg.seqNo, oldest := Nxt(seg.seqNo), got := [ItemOf(seg)]))
  }

  function ForceAck(e: Endpoint): Endpoint {
    e.(ctl := e.ctl.(numCak := e.par.cakMX))
  }

  /** The SYN that has just been sent carried an acknowledgement. */
  function SynSent(e: Endpoint): Endpoint {
    e.(ctl := e.ctl.(numCak := e.ctl.numCak - 1), st := SERV_WAIT_SYN_ACK)
  }

  /** handleSYN; the flag says whether the segment is processed further. */
  function HandleSyn(e: Endpoint, seg: Segment, isn: Byte): (Endpoint, bool) {
    match e.st
    case LISTEN =>
      var e1 := SendSyn(Seed(ExtractParams(e, seg.params), seg), true, isn);
      (SynSent(e1), true)
    case CLNT_WAIT_SYN_ACK =>
      var e1 := ExtractParams(e, seg.params);
      if !seg.ack then (Abort(e1), false)
      else
        var e2 := ForceAck(Seed(e1, seg));
        (if seg.ackNo == e2.tx.lastSeqSent then e2.(st := PREP_OPEN) else e2, true)
    case _ => (ForceAck(e), true)
  }

  /** handleOTH */
  function HandleOth(e: Endpoint, seg: Segment): (Endpoint, bool) {
    match e.st
    case LISTEN => WaitSynHandleOth(e, seg)
    case CLNT_WAIT_SYN_ACK => WaitSynHandleOth(e, seg)
    case _ =>
      if IsPureAck(seg) && seg.payload == [] then (e.(ctl := e.ctl.(numCak := e.ctl.numCak - 1)), true)
      else if seg.nul then
        if e.cfg.isServer && seg.payload == [] then (ForceAck(e), true) else (e, false)
      else if seg.rst then (e.(st := CLOSED), true)
      else (e, seg.payload != [])
  }

  function WaitSynHandleOth(e: Endpoint, seg: Segment): (Endpoint, bool) {
    if seg.rst && CanAccept(e.rx, seg.seqNo) && seg.payload == [] then (Abort(e), true) else (e, false)
  }

  /** An acknowledgement restarts the retransmission count; the last one stops the timer. */
  function AckControl(c: Control, acked: nat, left: nat): Control {
    c.(numRex := if acked > 0 || left == 0 then 0 else c.numRex, rexT := c.rexT && left > 0)
  }

  function ProcessAckNumber(e: Endpoint, seg: Segment): Endpoint {
    if !seg.ack then e
    else
      var acked := AckCount(e.tx.ring, seg.ackNo);
      e.(tx := e.tx.(ring := RingAck(e.tx.ring, seg.ackNo)),
         ctl := AckControl(e.ctl, acked, RingSize(e) - acked))
  }

  /** Store the segment if it is inside the window and hand on what is in sequence. */
  function RxData(self: State, e: Endpoint, seg: Segment): Endpoint {
    if (seg.payload != [] || seg.nul) && CanAccept(e.rx, seg.seqNo) then
      Drain(self, e.(rx := Store(e.rx, seg)))
    else e
  }

  function RxBusy(e: Endpoint, seg: Segment): Endpoint {
    e.(ctl := e.ctl.(peerBSY := seg.bsy, rexT := e.ctl.rexT && !(seg.bsy && !e.ctl.peerBSY)))
  }

  function CountSegment(e: Endpoint): Endpoint {
    e.(ctl := e.ctl.(numCak := e.ctl.numCak + 1))
  }

  /** The first unacknowledged segment starts the acknowledge timer. */
  function ArmAck(e: Endpoint): Endpoint {
    if e.ctl.numCak == 1 then e.(ctl := e.ctl.(ackT := true)) else e
  }

  /** Anything acceptable shows a server that its peer is alive. */
  function KeepAlive(e: Endpoint): Endpoint {
    e.(ctl := e.ctl.(nulT := e.ctl.nulT || e.cfg.isServer))
  }

  /** Does this segment have to be acknowledged now? */
  function RxAckPolicy(self: State, e: Endpoint): Endpoint {
    var e1 := CountSegment(e);
    KeepAlive(if e1.ctl.numCak > e1.par.cakMX then SendDatOrAck(self, e1) else ArmAck(e1))
  }

  /** Retransmit when the peer is no longer busy, otherwise follow the acknowledgement policy. */
  function Reply(self: State, e: Endpoint, seg: Segment): Endpoint {
    var e1 := RxBusy(e, seg);
    if e.ctl.peerBSY && !seg.bsy && RingSize(e1) > 0 then ProcessRex(e1) else RxAckPolicy(self, e1)
  }

  /** The rest of NOTCLOSED::handleRxEvent; `self` is the state whose handler runs, whatever
      state has been entered meanwhile. */
  function RxAccepted(self: State, e: Endpoint, seg: Segment): Endpoint {
    Reply(self, RxData(self, ProcessAckNumber(e, seg), seg), seg)
  }

  function RxCommon(e: Endpoint, seg: Segment, isn: Byte): Endpoint {
    var (e1, ok) := if seg.syn then HandleSyn(e, seg, isn) else HandleOth(e, seg);
    if ok then RxAccepted(e.st, e1, seg) else e1
  }

  /** Is the segment processed beyond handleSYN or handleOTH? */
  predicate Admits(e: Endpoint, seg: Segment, isn: Byte) {
    if seg.syn then HandleSyn(e, seg, isn).1 else HandleOth(e, seg).1
  }

  /** What SERV_WAIT_SYN_ACK and OPEN_OUTWIN_FULL add to NOTCLOSED::handleRxEvent. */
  function AfterRx(self: State, e: Endpoint): Endpoint {
    match self
    case SERV_WAIT_SYN_ACK => if RingSize(e) == 0 then e.(st := PREP_OPEN, ctl := e.ctl.(nulT := true)) else e
    case OPEN_OUTWIN_FULL => if WindowOpen(e) then e.(st := OPEN, ctl := e.ctl.(usrI := true)) else e
    case _ => e
  }

  /** handleRxEvent as the states override it. */
  function HandleRx(e: Endpoint, seg: Segment, isn: Byte): Endpoint {
    AfterRx(e.st, RxCommon(e, seg, isn))
  }

  // ----- the other events

  /** Send as long as the window and the input queue allow. */
  function InputLoop(e: Endpoint): Endpoint
    decreases |e.inpQ|
  {
    if WindowOpen(e) && e.inpQ != [] then InputLoop(TakeInput(e)) else e
  }

  function StopInput(e: Endpoint): Endpoint {
    e.(st := OPEN_OUTWIN_FULL, ctl := e.ctl.(usrI := false))
  }

  function HandleUsrInput(e: Endpoint): Endpoint {
    var s := InputLoop(e);
    if WindowOpen(s) then s else StopInput(s)
  }

  function HandleUsrOutput(e: Endpoint): Endpoint {
    var e1 := Drain(e.st, e.(ctl := e.ctl.(usrO := false)));
    if !e1.ctl.usrO then SendAck(e1) else e1
  }

  function RexTimeout(e: Endpoint): Endpoint {
    ProcessRex(e.(ctl := e.ctl.(rexT := false)))
  }

  function AckTimeout(e: Endpoint): Endpoint {
    SendDatOrAck(e.st, e.(ctl := e.ctl.(ackT := false)))
  }

  function NulTimeout(e: Endpoint): Endpoint {
    var e1 := e.(ctl := e.ctl.(nulT := false));
    if e.cfg.isServer then Abort(e1)
    else
      var e2 := SendNul(e1);
      if !WindowOpen(e1) then StopInput(e2) else e2
  }

  /** Queues, counters, timers and negotiated parameters start again. */
  function ClearQueues(e: Endpoint): Endpoint {
    e.(inpQ := [], outQ := [],
       par := Params(e.cfg.rexMax, e.cfg.cumAckMax, MaxSegs(e.cfg)),
       ctl := Control(0, 0, false, false, false, false, false, false))
  }

  function ClearBuffers(e: Endpoint): Endpoint {
    e.(tx := e.tx.(ring := e.tx.ring.(oldest := Num(e.tx.ring.oldest, RingSize(e)), segs := [])),
       rx := e.rx.(window := seq(|e.rx.window|, _ => None)))
  }

  /** close() and open() */
  function Close(e: Endpoint): Endpoint {
    ClearBuffers(ClearQueues(e))
  }

  /** CLOSED::advance: a new connection epoch. */
  function Start(e: Endpoint, isn: Byte): Endpoint {
    var e1 := Close(e).(started := true);
    if e.cfg.isServer then e1.(st := LISTEN)
    else SendSyn(e1, false, isn).(st := CLNT_WAIT_SYN_ACK)
  }

  /** PREP_OPEN::advance */
  function EnterOpen(e: Endpoint): Endpoint {
    e.(st := OPEN, ctl := e.ctl.(usrI := true))
  }
}

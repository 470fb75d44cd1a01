/** CRssi: the endpoint as an object whose handlers update it in place (src/cpsw_rssi.cc,
    src/cpsw_rssi_states.cc).

    `View` is the endpoint as a value.  Every method is proved to do to the view what the
    function of the same name in RssiEndpoint does. */
module RssiContext {
  import opened Wrappers
  import opened CircularIndex
  import opened RssiSegments
  import opened RssiEndpoint
  import opened RssiBuffers

  class CRssi {
    const cfg: Config
    const unAckedSegs: RingBuf
    const unOrderedSegs: ReassembleBuf

    var st: State
    var par: Params
    var ctl: Control
    var lastSeqSent: Byte
    var lastSeqRecv: Byte
    var inpQ: seq<Payload>
    var outQ: seq<Payload>
    /** Segments handed to the upstream module by the running handler. */
    var wire: seq<Segment>

    ghost var started: bool
    ghost var rstSent: bool
    ghost var isn: Byte
    ghost var sent: seq<Item>
    ghost var taken: seq<Payload>
    ghost var got: seq<Item>
    ghost var delivered: seq<Payload>

    ghost function Repr(): set<object>
      reads this, unAckedSegs
    {
      {this, unAckedSegs, unAckedSegs.buf, unOrderedSegs, unOrderedSegs.buf}
    }

    ghost predicate Valid()
      reads `par, unAckedSegs, unAckedSegs.buf, unOrderedSegs, unOrderedSegs.buf
    {
      && cfg.ldMaxUnackedSegs < 8
      && unAckedSegs.Valid() && unOrderedSegs.Valid()
      && unAckedSegs.buf != unOrderedSegs.buf
      && unOrderedSegs.lim == MaxSegs(cfg) <= unAckedSegs.buf.Length
      && par.peerOssMX <= unAckedSegs.buf.Length
    }

    ghost function ViewTx(): Tx
      reads `lastSeqSent, `isn, `sent, `taken, unAckedSegs, unAckedSegs.buf
      requires unAckedSegs.Valid()
    {
      Tx(unAckedSegs.View(), lastSeqSent, isn, sent, taken)
    }

    ghost function ViewRx(): Rx
      reads `lastSeqRecv, `got, `delivered, unOrderedSegs, unOrderedSegs.buf
      requires unOrderedSegs.Valid()
    {
      Rx(lastSeqRecv, unOrderedSegs.oldest, unOrderedSegs.Window(), got, delivered)
    }

    ghost function View(): Endpoint
      requires Valid()
      reads this, unAckedSegs, unAckedSegs.buf, unOrderedSegs, unOrderedSegs.buf
    {
      Endpoint(cfg, st, started, rstSent, par, ctl, ViewTx(), ViewRx(),
               inpQ, outQ, wire)
    }

    /** outQ_->isFull() */
    predicate OutQFull()
      reads this
    {
      |outQ| >= OutDepth(cfg)
    }

    constructor (config: Config, ringOldest: Byte, reassembleOldest: Byte, recv: Byte)
      requires config.ldMaxUnackedSegs < 8
      ensures Valid() && fresh(Repr()) && View().st == CLOSED && !View().started && View().wire == []
      ensures View().tx.sent == [] && View().tx.taken == [] && View().rx.got == [] && View().rx.delivered == []
    {
      cfg := config;
      unAckedSegs := new RingBuf(config.ldMaxUnackedSegs, ringOldest);
      unOrderedSegs := new ReassembleBuf(config.ldMaxUnackedSegs, reassembleOldest);
      st := CLOSED;
      par := Params(0, 0, 0);
      ctl := Control(0, 0, false, false, false, false, true, true);
      lastSeqSent, lastSeqRecv := 0, recv;
      inpQ, outQ, wire := [], [], [];
      started, rstSent, isn := false, false, 0;
      sent, taken, got, delivered := [], [], [], [];
    }

    method ChangeState(newState: State)
      requires Valid()
      modifies `st
      ensures Valid() && View() == old(View()).(st := newState)
    {
      hide CRssi.ViewTx, CRssi.ViewRx;
      st := newState;
    }

    // ----- sending

    method SendBuf(seg: Segment) returns (s: Segment)
      requires Valid()
      modifies `wire, `ctl
      ensures Valid() && View() == RssiEndpoint.SendBuf(old(View()), seg) && s == Stamp(old(View()), seg)
    {
      hide CRssi.ViewTx, RingBuf.Valid, RingBuf.View, ReassembleBuf.Valid, ReassembleBuf.Window;
      s := seg;
      if OutQFull() {
        s := s.(bsy := true);
      }
      s := s.(ackNo := lastSeqRecv);
      ctl := ctl.(numCak := 0, ackT := false);
      wire := wire + [s];
    }

    method ArmRexAndNulTimer()
      requires Valid()
      modifies `ctl
      ensures Valid() && View() == ArmRexAndNul(old(View()))
    {
      hide RingBuf.Valid, RingBuf.View, ReassembleBuf.Valid, ReassembleBuf.Window;
      if !ctl.peerBSY || !cfg.isServer {
        if !ctl.peerBSY {
          ctl := ctl.(rexT := true);
        }
        if !cfg.isServer {
          ctl := ctl.(nulT := true);
        }
      }
    }

    method SendBufAndKeepForRetransmission(seg: Segment)
      requires Valid() && |unAckedSegs.View().segs| < unAckedSegs.buf.Length
      modifies `wire, `ctl, `sent, unAckedSegs, unAckedSegs.buf
      ensures Valid() && View() == SendKeep(old(View()), seg) && unAckedSegs.buf == old(unAckedSegs.buf)
    {
      hide RingBuf.Valid, RingBuf.View, ReassembleBuf.Valid, ReassembleBuf.Window;
      var s := SendBuf(seg);
      var _ := unAckedSegs.Push(s);
      sent := sent + [ItemOf(seg)];
      ArmRexAndNulTimer();
    }

    method SendDAT(p: Payload)
      requires Valid() && |unAckedSegs.View().segs| < unAckedSegs.buf.Length
      modifies `lastSeqSent, `taken
      modifies `wire, `ctl, `sent, unAckedSegs, unAckedSegs.buf
      ensures Valid() && View() == SendDat(old(View()), p) && unAckedSegs.buf == old(unAckedSegs.buf)
    {
      hide RingBuf.Valid, RingBuf.View, ReassembleBuf.Valid, ReassembleBuf.Window;
      lastSeqSent := Nxt(lastSeqSent);
      taken := taken + [p];
      SendBufAndKeepForRetransmission(DatSegment(lastSeqSent, p));
    }

    method SendACK()
      requires Valid()
      modifies `wire, `ctl
      ensures Valid() && View() == SendAck(old(View()))
    {
      hide RingBuf.Valid, RingBuf.View, ReassembleBuf.Valid, ReassembleBuf.Window;
      var _ := SendBuf(AckSegment(Nxt(lastSeqSent)));
    }

    method SendRST()
      requires Valid()
      modifies `lastSeqSent, `rstSent, `wire, `ctl
      ensures Valid() && View() == SendRst(old(View()))
    {
      hide RingBuf.Valid, RingBuf.View, ReassembleBuf.Valid, ReassembleBuf.Window;
      lastSeqSent := Nxt(lastSeqSent);
      rstSent := true;
      var _ := SendBuf(RstSegment(lastSeqSent));
    }

    /** sendRST followed by changeState(CLOSED). */
    method AbortConnection()
      requires Valid()
      modifies `st, `lastSeqSent, `rstSent, `wire, `ctl
      ensures Valid() && View() == Abort(old(View()))
    {
      hide RingBuf.Valid, RingBuf.View, ReassembleBuf.Valid, ReassembleBuf.Window;
      SendRST();
      ChangeState(CLOSED);
    }

    method SendNUL() returns (ok: bool)
      requires Valid()
      modifies `lastSeqSent, `taken
      modifies `wire, `ctl, `sent, unAckedSegs, unAckedSegs.buf
      ensures Valid() && View() == SendNul(old(View())) && unAckedSegs.buf == old(unAckedSegs.buf)
      ensures ok == WindowOpen(old(View()))
    {
      hide RingBuf.Valid, RingBuf.View, ReassembleBuf.Valid, ReassembleBuf.Window;
      if unAckedSegs.GetSize() >= par.peerOssMX {
        ctl := ctl.(nulT := true);
        SendACK();
        return false;
      }
      lastSeqSent := Nxt(lastSeqSent);
      SendBufAndKeepForRetransmission(NulSegment(lastSeqSent));
      return true;
    }

    method Renumber(now: Byte)
      requires Valid() && unAckedSegs.View().segs == []
      modifies `lastSeqSent, `isn, unAckedSegs
      ensures Valid() && View() == RssiEndpoint.Renumber(old(View()), now) && unAckedSegs.buf == old(unAckedSegs.buf)
      ensures unAckedSegs.View().segs == []
    {
      hide RingBuf.Valid, RingBuf.View, ReassembleBuf.Valid, ReassembleBuf.Window;
      lastSeqSent := now;
      isn := now;
      unAckedSegs.Seed(now);
    }

    method SendSYN(doAck: bool, now: Byte)
      requires Valid() && unAckedSegs.View().segs == []
      modifies `lastSeqSent, `isn
      modifies `wire, `ctl, `sent, unAckedSegs, unAckedSegs.buf
      ensures Valid() && View() == SendSyn(old(View()), doAck, now) && unAckedSegs.buf == old(unAckedSegs.buf)
    {
      hide CRssi.ViewRx;
      hide RingBuf.Valid, RingBuf.View, ReassembleBuf.Valid, ReassembleBuf.Window, CRssi.ViewTx, CRssi.ViewRx, SendKeep, RssiEndpoint.Renumber;
      Renumber(now);
      SendBufAndKeepForRetransmission(SynSegment(now, doAck, SynParams(MaxSegs(cfg), par.rexMX, par.cakMX)));
    }

    /** inpQ_->tryPop(), then sendDAT. */
    method SendFromInput()
      requires Valid() && |unAckedSegs.View().segs| < unAckedSegs.buf.Length && inpQ != []
      modifies `lastSeqSent, `taken, `inpQ
      modifies `wire, `ctl, `sent, unAckedSegs, unAckedSegs.buf
      ensures Valid() && View() == TakeInput(old(View())) && unAckedSegs.buf == old(unAckedSegs.buf)
      ensures |inpQ| < |old(inpQ)|
    {
      hide RingBuf.Valid, RingBuf.View, ReassembleBuf.Valid, ReassembleBuf.Window, CRssi.ViewTx, CRssi.ViewRx;
      hide RssiEndpoint.SendDat;
      var b := inpQ[0];
      inpQ := inpQ[1..];
      SendDAT(b);
    }

    /** hasBufToSend, then sendDAT or sendACK. */
    method SendDatOrAck(self: State)
      requires Valid()
      modifies `lastSeqSent, `taken, `inpQ
      modifies `wire, `ctl, `sent, unAckedSegs, unAckedSegs.buf
      ensures Valid() && View() == RssiEndpoint.SendDatOrAck(self, old(View())) && unAckedSegs.buf == old(unAckedSegs.buf)
    {
      hide RingBuf.Valid, RingBuf.View, ReassembleBuf.Valid, ReassembleBuf.Window, TakeInput, CRssi.ViewRx;
      if (self.OPEN? || self.OPEN_OUTWIN_FULL?) && unAckedSegs.GetSize() < par.peerOssMX && inpQ != [] {
        SendFromInput();
      } else {
        SendACK();
      }
    }

    /** Send a kept segment again; the kept copy is the buffer that sendBuf writes into. */
    method Resend(it: Word, ghost k: nat, bc: Segment)
      requires Valid() && k < RingSize(View()) && it == Advance(unAckedSegs.rp, k) && bc == View().tx.ring.segs[k]
      modifies `wire, `ctl, unAckedSegs.buf
      ensures Valid() && View() == ResendAt(old(View()), k)
    {
      hide RingBuf.Valid, RingBuf.View, ReassembleBuf.Valid, ReassembleBuf.Window;
      var s := SendBuf(bc);
      unAckedSegs.Rewrite(it, k, s);
    }

    /** One round: send again, then advance the iterator and look at what is there. */
    method ResendAndAdvance(it: Word, ghost k: nat, bc: Segment) returns (it': Word, bc': Option<Segment>)
      requires Valid() && k < RingSize(View()) && it == Advance(unAckedSegs.rp, k) && bc == View().tx.ring.segs[k]
      modifies `wire, `ctl, unAckedSegs.buf
      ensures Valid() && View() == ResendAt(old(View()), k) && RingSize(View()) == old(RingSize(View()))
      ensures it' == Advance(unAckedSegs.rp, k + 1)
      ensures bc' == if k + 1 == RingSize(View()) then None else Some(View().tx.ring.segs[k + 1])
    {
      hide RingBuf.Valid, RingBuf.View, ReassembleBuf.Valid, ReassembleBuf.Window, ResendAt, CRssi.ViewRx;
      ghost var u := View();
      Resend(it, k, bc);
      ResendSize(u, k);
      it' := it;
      if it' != unAckedSegs.wp {
        it' := Inc(it');
      }
      bc' := unAckedSegs.Deref(it', k + 1);
    }

    /** The loop of processRetransmissionTimeout over the ring. */
    method RetransmitAll(first: Segment)
      requires Valid() && RingSize(View()) > 0 && first == View().tx.ring.segs[0]
      modifies `wire, `ctl, unAckedSegs.buf
      ensures Valid() && View() == RetransmitFrom(old(View()), 0)
    {
      hide RingBuf.Valid, RingBuf.View, ReassembleBuf.Valid, ReassembleBuf.Window, ResendAt, CRssi.ViewRx;
      var it := unAckedSegs.rp;
      ghost var k := 0;
      ghost var v := View();
      var bc := Option.Some(first);
      while bc.Some?
        invariant Valid() && k <= RingSize(View()) == RingSize(v) && it == Advance(unAckedSegs.rp, k)
        invariant bc == if k == RingSize(v) then None else Some(View().tx.ring.segs[k])
        invariant RetransmitFrom(View(), k) == RetransmitFrom(v, 0)
        decreases RingSize(v) - k
      {
        it, bc := ResendAndAdvance(it, k, bc.value);
        k := k + 1;
      }
    }

    lemma ResendSize(e: Endpoint, k: nat)
      requires k < RingSize(e)
      ensures RingSize(ResendAt(e, k)) == RingSize(e)
    {
    }

    method ProcessRetransmissionTimeout()
      requires Valid()
      modifies `st, `lastSeqSent, `rstSent, `wire, `ctl, unAckedSegs.buf
      ensures Valid() && View() == ProcessRex(old(View()))
    {
      hide RingBuf.Valid, RingBuf.View, ReassembleBuf.Valid, ReassembleBuf.Window, Abort, RetransmitFrom, ArmRexAndNul;
      ctl := ctl.(numRex := ctl.numRex + 1);
      if ctl.numRex > par.rexMX {
        AbortConnection();
        return;
      }
      var bc := unAckedSegs.Deref(unAckedSegs.rp, 0);
      if bc.Some? {
        RetransmitAll(bc.value);
        ArmRexAndNulTimer();
      }
    }

    /** The timer is cancelled, then processed. */
    method ProcessRexTimeout()
      requires Valid()
      modifies `st, `lastSeqSent, `rstSent, `wire, `ctl, unAckedSegs.buf
      ensures Valid() && View() == RexTimeout(old(View()))
    {
      hide RingBuf.Valid, RingBuf.View, ReassembleBuf.Valid, ReassembleBuf.Window, ProcessRex;
      ctl := ctl.(rexT := false);
      ProcessRetransmissionTimeout();
    }

    // ----- receiving

    /** extractConnectionParams; a server keeps its own retransmission and acknowledge limits. */
    method ExtractConnectionParams(p: SynParams)
      requires Valid() && p.ossMX < 256
      modifies `par, unAckedSegs, unAckedSegs.buf
      ensures Valid() && View() == ExtractParams(old(View()), p)
      ensures unAckedSegs.buf == old(unAckedSegs.buf) || fresh(unAckedSegs.buf)
    {
      hide RingBuf.Valid, RingBuf.View, ReassembleBuf.Valid, ReassembleBuf.Window;
      if p.ossMX > unAckedSegs.buf.Length {
        unAckedSegs.Resize(p.ossMX);
      }
      par := par.(peerOssMX := p.ossMX);
      if !cfg.isServer {
        par := par.(rexMX := p.rexMX, cakMX := p.cakMX);
      }
    }

    method SeedReceiver(seg: Segment)
      requires Valid()
      modifies `lastSeqRecv, `got, unOrderedSegs`oldest
      ensures Valid() && View() == Seed(old(View()), seg)
    {
      hide RingBuf.Valid, RingBuf.View, ReassembleBuf.Valid, ReassembleBuf.Window;
      lastSeqRecv := seg.seqNo;
      got := [ItemOf(seg)];
      unOrderedSegs.Seed(Nxt(lastSeqRecv));
    }

    lemma GreetKeepsRing(e: Endpoint, seg: Segment)
      ensures Seed(ExtractParams(e, seg.params), seg).tx.ring.segs == e.tx.ring.segs
    {
    }

    method ForceACK()
      requires Valid()
      modifies `ctl
      ensures Valid() && View() == ForceAck(old(View()))
    {
      hide CRssi.ViewTx, CRssi.ViewRx;
      ctl := ctl.(numCak := par.cakMX);
    }

    method SynHasBeenSent()
      requires Valid()
      modifies `ctl, `st
      ensures Valid() && View() == SynSent(old(View()))
    {
      ctl := ctl.(numCak := ctl.numCak - 1);
      st := SERV_WAIT_SYN_ACK;
    }

    method ListenHandleSYN(seg: Segment, now: Byte)
      requires Valid() && seg.params.ossMX < 256 && st.LISTEN? && RingSize(View()) == 0
      modifies this, unAckedSegs, unAckedSegs.buf, unOrderedSegs`oldest
      ensures Valid() && (View(), true) == HandleSyn(old(View()), seg, now)
      ensures unAckedSegs.buf == old(unAckedSegs.buf) || fresh(unAckedSegs.buf)
    {
      hide RingBuf.Valid, RingBuf.View, ReassembleBuf.Valid, ReassembleBuf.Window;
      ExtractConnectionParams(seg.params);
      SeedReceiver(seg);
      GreetKeepsRing(old(View()), seg);
      hide ExtractParams, Seed, SendSyn, SynSent;
      SendSYN(true, now);
      SynHasBeenSent();
    }

    method ClientHandleSYN(seg: Segment, now: Byte) returns (ok: bool)
      requires Valid() && seg.params.ossMX < 256 && st.CLNT_WAIT_SYN_ACK?
      modifies this, unAckedSegs, unAckedSegs.buf, unOrderedSegs`oldest
      ensures Valid() && (View(), ok) == HandleSyn(old(View()), seg, now)
      ensures unAckedSegs.buf == old(unAckedSegs.buf) || fresh(unAckedSegs.buf)
    {
      hide RingBuf.Valid, RingBuf.View, ReassembleBuf.Valid, ReassembleBuf.Window;
      ExtractConnectionParams(seg.params);
      hide ExtractParams, Abort, Seed, ForceAck;
      if !seg.ack {
        AbortConnection();
        return false;
      }
      SeedReceiver(seg);
      ForceACK();
      if seg.ackNo == lastSeqSent {
        ChangeState(PREP_OPEN);
      }
      return true;
    }

    method HandleSYN(seg: Segment, now: Byte) returns (ok: bool)
      requires Valid() && seg.params.ossMX < 256 && (st.LISTEN? ==> RingSize(View()) == 0)
      modifies this, unAckedSegs, unAckedSegs.buf, unOrderedSegs`oldest
      ensures Valid() && (View(), ok) == HandleSyn(old(View()), seg, now)
      ensures unAckedSegs.buf == old(unAckedSegs.buf) || fresh(unAckedSegs.buf)
    {
      hide RingBuf.Valid, RingBuf.View, ReassembleBuf.Valid, ReassembleBuf.Window, Abort, Seed, ExtractParams, SendSyn;
      match st {
        case LISTEN =>
          ListenHandleSYN(seg, now);
          return true;
        case CLNT_WAIT_SYN_ACK =>
          ok := ClientHandleSYN(seg, now);
        case _ =>
          ForceACK();
          return true;
      }
    }

    method HandleOTH(seg: Segment) returns (ok: bool)
      requires Valid()
      modifies `st, `lastSeqSent, `rstSent, `wire, `ctl
      ensures Valid() && (View(), ok) == HandleOth(old(View()), seg)
    {
      hide RingBuf.Valid, RingBuf.View, ReassembleBuf.Valid, ReassembleBuf.Window;
      if st.LISTEN? || st.CLNT_WAIT_SYN_ACK? {
        var acceptable := unOrderedSegs.CanAccept(seg.seqNo);
        if seg.rst && acceptable && seg.payload == [] {
          AbortConnection();
          return true;
        }
        return false;
      }
      if IsPureAck(seg) && seg.payload == [] {
        ctl := ctl.(numCak := ctl.numCak - 1);
        return true;
      }
      if seg.nul {
        if cfg.isServer && seg.payload == [] {
          ForceACK();
          return true;
        }
      } else if seg.rst {
        ChangeState(CLOSED);
        return true;
      } else if seg.payload != [] {
        return true;
      }
      return false;
    }

    method NoteAcked(acked: int, ghost n: nat)
      requires Valid() && acked <= n && (acked == n || n == 0)
      modifies `ctl
      ensures Valid() && ctl == AckControl(old(ctl), n, unAckedSegs.GetSize())
    {
      if acked > 0 {
        ctl := ctl.(numRex := 0);
      }
      if unAckedSegs.GetSize() == 0 {
        ctl := ctl.(rexT := false, numRex := 0);
      }
    }

    method ProcessAck(seg: Segment)
      requires Valid()
      modifies `ctl, unAckedSegs, unAckedSegs.buf
      ensures Valid() && View() == ProcessAckNumber(old(View()), seg) && unAckedSegs.buf == old(unAckedSegs.buf)
    {
      hide RingBuf.Valid, RingBuf.View, ReassembleBuf.Valid, ReassembleBuf.Window, AckCount, AckControl;
      if seg.ack {
        ghost var e := View();
        var acked := unAckedSegs.Ack(seg.ackNo);
        NoteAcked(acked, AckCount(e.tx.ring, seg.ackNo));
        assert ViewTx() == e.tx.(ring := RingAck(e.tx.ring, seg.ackNo));
      }
    }

    /** The loop of OPEN::drainReassembleBuffer. */
    method DrainReassembleBuffer(self: State)
      requires Valid()
      modifies `ctl, `outQ, `got, `delivered, `lastSeqRecv, unOrderedSegs, unOrderedSegs.buf
      ensures Valid() && View() == Drain(self, old(View()))
    {
      hide RingBuf.Valid, RingBuf.View, ReassembleBuf.Valid, ReassembleBuf.Window;
      if !(self.OPEN? || self.OPEN_OUTWIN_FULL?) {
        return;
      }
      hide HandOn;
      DrainAll();
      lastSeqRecv := unOrderedSegs.GetLastInOrder();
    }

    /** One segment leaves the front of the reassembly buffer. */
    method PopInOrder(seg: Segment)
      requires Valid() && unOrderedSegs.Window()[0] == Some(seg)
      modifies `got, unOrderedSegs, unOrderedSegs.buf
      ensures Valid() && ViewRx() == PopFront(old(ViewRx()))
    {
      hide RingBuf.Valid, RingBuf.View, ReassembleBuf.Valid, ReassembleBuf.Window;
      var _ := unOrderedSegs.Pop();
      got := got + [ItemOf(seg)];
    }

    /** The loop; returns whether it stopped at a full output queue. */
    method DrainSteps() returns (blocked: bool)
      requires Valid()
      modifies `outQ, `got, `delivered, unOrderedSegs, unOrderedSegs.buf
      ensures Valid() && Drained(ViewRx(), outQ, blocked) == DrainLoop(old(ViewRx()), old(outQ), OutDepth(cfg))
    {
      hide RingBuf.Valid, RingBuf.View, ReassembleBuf.Valid, ReassembleBuf.Window, PopFront;
      ghost var goal := DrainLoop(ViewRx(), outQ, OutDepth(cfg));
      var bc := unOrderedSegs.Peek();
      blocked := false;
      while bc.Some? && !blocked
        invariant Valid() && bc == unOrderedSegs.Window()[0]
        invariant goal == if blocked then Drained(ViewRx(), outQ, true) else DrainLoop(ViewRx(), outQ, OutDepth(cfg))
        decreases Ready(unOrderedSegs.Window()), !blocked
      {
        var seg := bc.value;
        if seg.nul {
          PopInOrder(seg);
          bc := unOrderedSegs.Peek();
        } else if !OutQFull() {
          PopInOrder(seg);
          delivered := delivered + [seg.payload];
          outQ := outQ + [seg.payload];
          bc := unOrderedSegs.Peek();
        } else {
          blocked := true;
        }
      }
    }

    method DrainAll()
      requires Valid()
      modifies `ctl, `outQ, `got, `delivered, unOrderedSegs, unOrderedSegs.buf
      ensures Valid() && View() == HandOn(old(View()))
    {
      hide RingBuf.Valid, RingBuf.View, ReassembleBuf.Valid, ReassembleBuf.Window, DrainLoop;
      var blocked := DrainSteps();
      if blocked {
        ctl := ctl.(usrO := true);
      }
    }

    /** Store the segment if it is inside the window and hand on what is in sequence. */
    method ReceiveData(self: State, seg: Segment)
      requires Valid()
      modifies `ctl, `outQ, `got, `delivered, `lastSeqRecv, unOrderedSegs, unOrderedSegs.buf
      ensures Valid() && View() == RxData(self, old(View()), seg)
    {
      hide RingBuf.Valid, RingBuf.View, ReassembleBuf.Valid, ReassembleBuf.Window, Drain;
      if seg.payload != [] || seg.nul {
        var acceptable := unOrderedSegs.CanAccept(seg.seqNo);
        if acceptable {
          var _ := unOrderedSegs.Store(seg.seqNo, seg);
          assert ViewRx() == RssiEndpoint.Store(old(ViewRx()), seg);
          DrainReassembleBuffer(self);
        }
      }
    }

    method KeepConnectionAlive()
      requires Valid()
      modifies `ctl
      ensures Valid() && View() == KeepAlive(old(View()))
    {
      if cfg.isServer {
        ctl := ctl.(nulT := true);
      }
    }

    method ArmAckTimer()
      requires Valid()
      modifies `ctl
      ensures Valid() && View() == ArmAck(old(View()))
    {
      if ctl.numCak == 1 {
        ctl := ctl.(ackT := true);
      }
    }

    method AcknowledgeIfDue(self: State)
      requires Valid()
      modifies `lastSeqSent, `taken, `inpQ, `wire, `ctl, `sent, unAckedSegs, unAckedSegs.buf
      ensures Valid() && View() == RxAckPolicy(self, old(View())) && unAckedSegs.buf == old(unAckedSegs.buf)
    {
      hide CRssi.ViewRx, CRssi.ViewTx, RingBuf.Valid, RingBuf.View, ReassembleBuf.Valid, ReassembleBuf.Window;
      hide RssiEndpoint.SendDatOrAck, ArmAck, KeepAlive;
      ctl := ctl.(numCak := ctl.numCak + 1);
      if ctl.numCak > par.cakMX {
        SendDatOrAck(self);
      } else {
        ArmAckTimer();
      }
      KeepConnectionAlive();
    }

    method NoteBusy(seg: Segment)
      requires Valid()
      modifies `ctl
      ensures Valid() && View() == RxBusy(old(View()), seg)
    {
      hide RingBuf.Valid, RingBuf.View, ReassembleBuf.Valid, ReassembleBuf.Window, CRssi.ViewTx, CRssi.ViewRx;
      var peerWasBSY := ctl.peerBSY;
      ctl := ctl.(peerBSY := seg.bsy);
      if seg.bsy && !peerWasBSY {
        ctl := ctl.(rexT := false);
      }
    }

    /** The tail of handleRxEvent: busy flag, retransmission on its release, acknowledgement. */
    method ReplyTo(self: State, seg: Segment)
      requires Valid()
      modifies `st, `rstSent, `lastSeqSent, `taken, `inpQ, `wire, `ctl, `sent, unAckedSegs, unAckedSegs.buf
      ensures Valid() && View() == Reply(self, old(View()), seg) && unAckedSegs.buf == old(unAckedSegs.buf)
    {
      hide RingBuf.Valid, RingBuf.View, ReassembleBuf.Valid, ReassembleBuf.Window, ProcessRex, RxAckPolicy;
      var peerWasBSY := ctl.peerBSY;
      NoteBusy(seg);
      if peerWasBSY && !seg.bsy && unAckedSegs.GetSize() > 0 {
        ProcessRetransmissionTimeout();
      } else {
        AcknowledgeIfDue(self);
      }
    }

    /** NOTCLOSED::handleRxEvent */
    method HandleRxCommon(seg: Segment, now: Byte)
      requires Valid() && (seg.syn ==> seg.params.ossMX < 256) && (st.LISTEN? ==> RingSize(View()) == 0)
      modifies this, unAckedSegs, unAckedSegs.buf, unOrderedSegs, unOrderedSegs.buf
      ensures Valid() && View() == RxCommon(old(View()), seg, now)
      ensures unAckedSegs.buf == old(unAckedSegs.buf) || fresh(unAckedSegs.buf)
    {
      hide RingBuf.Valid, RingBuf.View, ReassembleBuf.Valid, ReassembleBuf.Window;
      hide HandleSyn, HandleOth, ProcessAckNumber, RxData, Reply;
      var self := st;
      var ok;
      if seg.syn {
        ok := HandleSYN(seg, now);
      } else {
        ok := HandleOTH(seg);
      }
      if ok {
        ProcessAck(seg);
        ReceiveData(self, seg);
        ReplyTo(self, seg);
      }
    }

    method HandleRxEvent(seg: Segment, now: Byte)
      requires Valid() && (seg.syn ==> seg.params.ossMX < 256) && (st.LISTEN? ==> RingSize(View()) == 0)
      modifies this, unAckedSegs, unAckedSegs.buf, unOrderedSegs, unOrderedSegs.buf
      ensures Valid() && View() == HandleRx(old(View()), seg, now)
      ensures unAckedSegs.buf == old(unAckedSegs.buf) || fresh(unAckedSegs.buf)
    {
      hide RingBuf.Valid, RingBuf.View, ReassembleBuf.Valid, ReassembleBuf.Window, RxCommon;
      hide CRssi.ViewTx, CRssi.ViewRx, RssiEndpoint.AfterRx;
      var self := st;
      HandleRxCommon(seg, now);
      AfterRx(self);
    }

    /** What SERV_WAIT_SYN_ACK and OPEN_OUTWIN_FULL do after NOTCLOSED::handleRxEvent. */
    method AfterRx(self: State)
      requires Valid()
      modifies `st, `ctl
      ensures Valid() && View() == RssiEndpoint.AfterRx(self, old(View()))
    {
      hide RingBuf.Valid, RingBuf.View, ReassembleBuf.Valid, ReassembleBuf.Window, CRssi.ViewRx;
      if self.SERV_WAIT_SYN_ACK? && unAckedSegs.GetSize() == 0 {
        st := PREP_OPEN;
        ctl := ctl.(nulT := true);
      }
      if self.OPEN_OUTWIN_FULL? && unAckedSegs.GetSize() < par.peerOssMX {
        ctl := ctl.(usrI := true);
        st := OPEN;
      }
    }

    // ----- the other events

    method DisableInput()
      requires Valid()
      modifies `st, `ctl
      ensures Valid() && View() == StopInput(old(View()))
    {
      ctl := ctl.(usrI := false);
      st := OPEN_OUTWIN_FULL;
    }

    method HandleUsrInputEvent()
      requires Valid()
      modifies `st, `lastSeqSent, `taken, `inpQ, `wire, `ctl, `sent, unAckedSegs, unAckedSegs.buf
      ensures Valid() && View() == HandleUsrInput(old(View())) && unAckedSegs.buf == old(unAckedSegs.buf)
    {
      hide CRssi.ViewRx, RingBuf.Valid, RingBuf.View, ReassembleBuf.Valid, ReassembleBuf.Window, TakeInput, StopInput;
      ghost var v := View();
      while unAckedSegs.GetSize() < par.peerOssMX
        invariant Valid() && unAckedSegs.buf == old(unAckedSegs.buf) && InputLoop(View()) == InputLoop(v)
        decreases |inpQ|
      {
        if inpQ == [] {
          return;
        }
        SendFromInput();
      }
      DisableInput();
    }

    method HandleUsrOutputEvent()
      requires Valid()
      modifies `ctl, `outQ, `got, `delivered, `lastSeqRecv, `wire, unOrderedSegs, unOrderedSegs.buf
      ensures Valid() && View() == HandleUsrOutput(old(View()))
    {
      hide RingBuf.Valid, RingBuf.View, ReassembleBuf.Valid, ReassembleBuf.Window, Drain, RssiEndpoint.SendAck;
      ctl := ctl.(usrO := false);
      DrainReassembleBuffer(st);
      if !ctl.usrO {
        SendACK();
      }
    }

    method ProcessAckTimeout()
      requires Valid()
      modifies `lastSeqSent, `taken, `inpQ, `wire, `ctl, `sent, unAckedSegs, unAckedSegs.buf
      ensures Valid() && View() == AckTimeout(old(View())) && unAckedSegs.buf == old(unAckedSegs.buf)
    {
      hide RingBuf.Valid, RingBuf.View, ReassembleBuf.Valid, ReassembleBuf.Window, RssiEndpoint.SendDatOrAck;
      ctl := ctl.(ackT := false);
      SendDatOrAck(st);
    }

    method ProcessNulTimeout()
      requires Valid()
      modifies `st, `rstSent, `lastSeqSent, `taken, `wire, `ctl, `sent, unAckedSegs, unAckedSegs.buf
      ensures Valid() && View() == NulTimeout(old(View())) && unAckedSegs.buf == old(unAckedSegs.buf)
    {
      hide RingBuf.Valid, RingBuf.View, ReassembleBuf.Valid, ReassembleBuf.Window, RssiEndpoint.SendNul, Abort, StopInput;
      ctl := ctl.(nulT := false);
      if cfg.isServer {
        AbortConnection();
      } else {
        var ok := SendNUL();
        if !ok {
          DisableInput();
        }
      }
    }

    method ResetQueues()
      requires Valid()
      modifies `inpQ, `outQ, `par, `ctl
      ensures Valid() && View() == ClearQueues(old(View()))
    {
      hide RingBuf.Valid, RingBuf.View, ReassembleBuf.Valid, ReassembleBuf.Window, CRssi.ViewTx, CRssi.ViewRx;
      outQ := [];
      inpQ := [];
      ctl := Control(0, 0, false, false, false, false, false, false);
      par := Params(cfg.rexMax, cfg.cumAckMax, MaxSegs(cfg));
    }

    method PurgeBuffers()
      requires Valid()
      modifies unAckedSegs, unAckedSegs.buf, unOrderedSegs.buf
      ensures Valid() && View() == ClearBuffers(old(View())) && unAckedSegs.buf == old(unAckedSegs.buf)
    {
      hide RingBuf.Valid, RingBuf.View, ReassembleBuf.Valid, ReassembleBuf.Window;
      unAckedSegs.Purge();
      unOrderedSegs.Purge();
    }

    /** close(), then open(): the queues are drained and up again. */
    method CloseAndOpen()
      requires Valid()
      modifies `inpQ, `outQ, `par, `ctl, unAckedSegs, unAckedSegs.buf, unOrderedSegs.buf
      ensures Valid() && View() == Close(old(View())) && unAckedSegs.buf == old(unAckedSegs.buf)
    {
      hide RingBuf.Valid, RingBuf.View, ReassembleBuf.Valid, ReassembleBuf.Window, CRssi.View, CRssi.Valid;
      hide ClearQueues, ClearBuffers;
      ResetQueues();
      PurgeBuffers();
    }

    method MarkStarted()
      requires Valid()
      modifies `started
      ensures Valid() && View() == old(View()).(started := true)
    {
      hide CRssi.ViewTx, CRssi.ViewRx;
      started := true;
    }

    /** The client's first SYN. */
    method CallServer(now: Byte)
      requires Valid() && unAckedSegs.View().segs == []
      modifies `st, `lastSeqSent, `isn, `wire, `ctl, `sent, unAckedSegs, unAckedSegs.buf
      ensures Valid() && View() == RssiEndpoint.SendSyn(old(View()), false, now).(st := CLNT_WAIT_SYN_ACK)
      ensures unAckedSegs.buf == old(unAckedSegs.buf)
    {
      hide RingBuf.Valid, RingBuf.View, ReassembleBuf.Valid, ReassembleBuf.Window, CRssi.View, CRssi.Valid, RssiEndpoint.SendSyn;
      SendSYN(false, now);
      ChangeState(CLNT_WAIT_SYN_ACK);
    }

    /** CLOSED::advance */
    method AdvanceClosed(now: Byte)
      requires Valid()
      modifies this, unAckedSegs, unAckedSegs.buf, unOrderedSegs.buf
      ensures Valid() && View() == Start(old(View()), now) && unAckedSegs.buf == old(unAckedSegs.buf)
    {
      hide RingBuf.Valid, RingBuf.View, ReassembleBuf.Valid, ReassembleBuf.Window, Close, RssiEndpoint.SendSyn;
      CloseAndOpen();
      CloseEmpties(old(View()));
      MarkStarted();
      if cfg.isServer {
        ChangeState(LISTEN);
      } else {
        CallServer(now);
      }
    }

    lemma CloseEmpties(e: Endpoint)
      ensures Close(e).tx.ring.segs == []
    {
    }

    /** PREP_OPEN::advance */
    method AdvancePrepOpen()
      requires Valid()
      modifies `ctl, `st
      ensures Valid() && View() == EnterOpen(old(View()))
    {
      ctl := ctl.(usrI := true);
      st := OPEN;
    }
  }
}

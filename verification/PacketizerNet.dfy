/** Runs of the packetizer over a wire that may lose any fragment: any number of ports share it, as in
    `PacketizerRuns`, and every delivery is accounted for. */
module PacketizerNet {
  import opened Wrappers
  import opened CircularIndex
  import opened Octets
  import opened PackHeader
  import opened Packetizer
  import opened PacketizerRuns
  import opened PacketizerLoss

  /** A fragment under way. Whose it is, and at which place in the stream, no port ever sees. */
  datatype Packet = Packet(f: seq<Octet>, slot: nat, pos: nat)

  /** sent[i]: the pieces that slot i has put on the wire; got[i]: places of those that have arrived. */
  datatype Net = Net(slots: seq<Slot>, ports: seq<Port>, wire: seq<Packet>, sent: seq<seq<Piece>>, got: seq<seq<nat>>)

  ghost predicate Shaped(m: Net) {
    && |m.ports| == |m.sent| == |m.got| == |m.slots|
    && forall i, j :: 0 <= i < j < |m.slots| ==> m.slots[i].dest != m.slots[j].dest
  }

  ghost predicate FreshPort(p: Port) {
    p.out == [] && p.rejected == 0 && p.rx.assembled.None?
  }

  ghost predicate NetInit(m: Net) {
    && Shaped(m) && m.wire == []
    && (forall i :: 0 <= i < |m.slots| ==> m.slots[i].taken == [] && m.slots[i].rest.None?)
    && (forall i :: 0 <= i < |m.slots| ==> FreshPort(m.ports[i]) && m.sent[i] == [] && m.got[i] == [])
  }

  /** One call of sendFrag by slot i. */
  ghost predicate NetSend(m: Net, m': Net, i: nat, f: seq<Octet>) {
    && Shaped(m) && i < |m.slots| == |m'.slots|
    && var s, s' := m.slots[i], m'.slots[i];
       && Works(s, s', f) && s'.taken != [] && s'.fragNo >= 1 && |Left(s')| <= |Source(s, s')|
       && m' == Net(m.slots[i := s'], m.ports, m.wire + [Packet(f, i, |m.sent[i]|)],
                    m.sent[i := m.sent[i] + [PieceSent(s, s')]], m.got)
  }

  /** The first fragment on the wire goes to the port that its third octet names. */
  ghost predicate NetArrive(m: Net, m': Net) {
    && Shaped(m) && m.wire != [] && m.wire[0].slot < |m.slots|
    && var w := m.wire[0];
       m' == Net(m.slots, seq(|m.ports|, i requires 0 <= i < |m.ports| => Demux(m.ports[i], w.f, m.slots[i].dest)), m.wire[1..],
                 m.sent, m.got[w.slot := m.got[w.slot] + [w.pos]])
  }

  ghost predicate NetLose(m: Net, m': Net, k: nat) {
    k < |m.wire| && m' == m.(wire := m.wire[..k] + m.wire[k + 1..])
  }

  ghost predicate NetNext(m: Net, m': Net) {
    NetArrive(m, m') || (exists k: nat :: NetLose(m, m', k)) || exists i: nat, f: seq<Octet> :: NetSend(m, m', i, f)
  }

  ghost predicate LossyRun(ms: seq<Net>) {
    ms != [] && NetInit(ms[0]) && forall k :: 0 <= k < |ms| - 1 ==> NetNext(ms[k], ms[k + 1])
  }

  // ----- invariant

  /** One sender and its receiver. */
  ghost predicate LineOk(s: Slot, p: Port, ps: seq<Piece>, ks: seq<nat>) {
    Sender(s, ps) && Ascending(ks, |ps|) && After(p, Picked(ps, ks))
  }

  ghost predicate PacketOk(m: Net, w: Packet)
    requires Shaped(m)
  {
    w.slot < |m.slots| && w.pos < |m.sent[w.slot]| && IsPiece(w.f, m.sent[w.slot][w.pos], m.slots[w.slot].dest)
  }

  /** Nothing that has arrived was sent later. */
  ghost predicate Ahead(ks: seq<nat>, pos: nat) {
    forall j :: 0 <= j < |ks| ==> ks[j] < pos
  }

  ghost predicate NetInv(m: Net) {
    && Shaped(m)
    && (forall i :: 0 <= i < |m.slots| ==> LineOk(m.slots[i], m.ports[i], m.sent[i], m.got[i]))
    && (forall k :: 0 <= k < |m.wire| ==> PacketOk(m, m.wire[k]) && Ahead(m.got[m.wire[k].slot], m.wire[k].pos))
    && forall k, l :: 0 <= k < l < |m.wire| && m.wire[k].slot == m.wire[l].slot ==> m.wire[k].pos < m.wire[l].pos
  }

  lemma StartInv(m: Net)
    requires NetInit(m)
    ensures NetInv(m)
  {
    hide Unbroken, Data;
    forall i | 0 <= i < |m.slots| ensures LineOk(m.slots[i], m.ports[i], m.sent[i], m.got[i]) {
      assert Picked(m.sent[i], m.got[i]) == [];
    }
  }

  lemma LosesInv(m: Net, m': Net, k: nat)
    requires NetInv(m) && NetLose(m, m', k)
    ensures NetInv(m')
  {
    hide LineOk, Ahead, IsPiece;
    forall j | 0 <= j < |m'.wire| ensures PacketOk(m', m'.wire[j]) && Ahead(m'.got[m'.wire[j].slot], m'.wire[j].pos) {
      var w := m.wire[if j < k then j else j + 1];
      assert PacketOk(m, w) && m'.wire[j] == w;
    }
  }

  lemma SendsLine(s: Slot, s': Slot, f: seq<Octet>, p: Port, ps: seq<Piece>, ks: seq<nat>)
    requires LineOk(s, p, ps, ks) && Works(s, s', f)
    ensures s'.taken != [] && s'.dest == s.dest && s'.fragNo >= 1 && |Left(s')| <= |Source(s, s')|
    ensures var q := ps + [PieceSent(s, s')]; LineOk(s', p, q, ks) && IsPiece(f, q[|ps|], s'.dest) && Ahead(ks, |ps|)
  {
    hide Sender, Works, After, IsPiece, PieceSent;
    WorksPiece(s, s', f, ps);
    assert Picked(ps + [PieceSent(s, s')], ks) == Picked(ps, ks);
  }

  lemma SendsInv(m: Net, m': Net, i: nat, f: seq<Octet>)
    requires NetInv(m) && NetSend(m, m', i, f)
    ensures NetInv(m')
  {
    hide LineOk, Ahead, IsPiece, Works, PieceSent, Source, Left;
    assert LineOk(m.slots[i], m.ports[i], m.sent[i], m.got[i]);
    SendsLine(m.slots[i], m'.slots[i], f, m.ports[i], m.sent[i], m.got[i]);
    forall k | 0 <= k < |m'.wire| ensures PacketOk(m', m'.wire[k]) && Ahead(m'.got[m'.wire[k].slot], m'.wire[k].pos) {
      if k < |m.wire| {
        assert PacketOk(m, m.wire[k]);
      }
    }
    assert forall k :: 0 <= k < |m.wire| ==> PacketOk(m, m.wire[k]);
  }

  lemma ArrivesLine(s: Slot, p: Port, ps: seq<Piece>, ks: seq<nat>, f: seq<Octet>, pos: nat)
    requires LineOk(s, p, ps, ks) && pos < |ps| && IsPiece(f, ps[pos], s.dest) && Ahead(ks, pos)
    ensures For(f, s.dest) && LineOk(s, Deliver(p, f), ps, ks + [pos])
  {
    hide Sender, Deliver, After, IsPiece, For, Picked;
    PieceDest(f, ps[pos], s.dest);
    AfterOne(p, Picked(ps, ks), f, ps[pos], s.dest);
    PickedSnoc(ps, ks, pos);
  }

  lemma PickedSnoc(ps: seq<Piece>, ks: seq<nat>, pos: nat)
    requires Ascending(ks, |ps|) && pos < |ps| && Ahead(ks, pos)
    ensures Ascending(ks + [pos], |ps|) && Picked(ps, ks + [pos]) == Picked(ps, ks) + [ps[pos]]
  {
  }

  lemma PieceDest(f: seq<Octet>, p: Piece, dest: Octet)
    requires IsPiece(f, p, dest)
    ensures For(f, dest)
  {
    hide IsFragment;
    var crc: bv32, crc': bv32 :| IsFragment(f, p.data, p.no, dest, p.last, crc, crc');
    FragmentDest(f, p.data, p.no, dest, p.last, crc, crc');
  }

  lemma ArrivesInv(m: Net, m': Net)
    requires NetInv(m) && NetArrive(m, m')
    ensures NetInv(m')
  {
    hide LineOk, Ahead, IsPiece, Deliver, For;
    var w := m.wire[0];
    assert PacketOk(m, w);
    ArrivesLine(m.slots[w.slot], m.ports[w.slot], m.sent[w.slot], m.got[w.slot], w.f, w.pos);
    forall i | 0 <= i < |m'.slots| ensures LineOk(m'.slots[i], m'.ports[i], m'.sent[i], m'.got[i]) {
      assert LineOk(m.slots[i], m.ports[i], m.sent[i], m.got[i]);
      if i != w.slot {
        OtherDest(w.f, m.slots[w.slot].dest, m.slots[i].dest);
      }
    }
    forall k | 0 <= k < |m'.wire| ensures PacketOk(m', m'.wire[k]) && Ahead(m'.got[m'.wire[k].slot], m'.wire[k].pos) {
      assert PacketOk(m, m.wire[k + 1]) && m'.wire[k] == m.wire[k + 1];
      AheadSnoc(m.got[w.slot], w.pos, m.wire[k + 1].pos);
    }
  }

  lemma AheadSnoc(ks: seq<nat>, k: nat, pos: nat)
    ensures Ahead(ks, pos) && k < pos ==> Ahead(ks + [k], pos)
  {
  }

  lemma {:induction false} LossyInv(ms: seq<Net>)
    requires LossyRun(ms)
    ensures NetInv(ms[|ms| - 1])
    decreases |ms|
  {
    hide NetInv, NetArrive, NetSend, NetLose, NetInit;
    var n := |ms| - 1;
    if n == 0 {
      StartInv(ms[0]);
    } else {
      LossyInv(ms[..n]);
      assert NetNext(ms[n - 1], ms[n - 1 + 1]);
      StepInv(ms[n - 1], ms[n]);
    }
  }

  lemma StepInv(m: Net, m': Net)
    requires NetInv(m) && NetNext(m, m')
    ensures NetInv(m')
  {
    hide NetInv, NetArrive, NetSend, NetLose;
    if NetArrive(m, m') {
      ArrivesInv(m, m');
    } else if k: nat :| NetLose(m, m', k) {
      LosesInv(m, m', k);
    } else {
      var i: nat, f: seq<Octet> :| NetSend(m, m', i, f);
      SendsInv(m, m', i, f);
    }
  }

  // ----- main result

  /** All pieces of the frame that ends at e have arrived. */
  ghost predicate AllThere(ps: seq<Piece>, ks: seq<nat>, e: nat)
    requires e < |ps|
  {
    ps[e].last && ps[e].no <= e && forall q :: e - ps[e].no <= q <= e ==> q in ks
  }

  /** Whatever is lost: a port has delivered exactly what looked like a whole frame, and rejected every
      piece that did not continue one. These deliveries are frames that were taken, in order, unless
      the port has been fooled; and a frame whose pieces have all arrived has been delivered. */
  lemma LossyFrames(ms: seq<Net>, i: nat)
    requires LossyRun(ms) && i < |ms[|ms| - 1].slots|
    ensures var m := ms[|ms| - 1];
            && Shaped(m)
            && var taken, ps, ks, p := m.slots[i].taken, m.sent[i], m.got[i], m.ports[i];
               && Stream(taken, ps) && Ascending(ks, |ps|)
               && p.out == Deliveries(Picked(ps, ks)) && p.rejected == Rejections(Picked(ps, ks))
               && (!Fooled(ps, ks) ==> InOrder(taken, Selected(Picked(ps, ks)), p.out))
               && forall e :: 0 <= e < |ps| && AllThere(ps, ks, e) ==> ps[e].frame < |taken| && taken[ps[e].frame] in p.out
  {
    LossyInv(ms);
    var m := ms[|ms| - 1];
    assert LineOk(m.slots[i], m.ports[i], m.sent[i], m.got[i]);
    LineResult(m.slots[i], m.ports[i], m.sent[i], m.got[i]);
  }

  lemma LineResult(s: Slot, p: Port, ps: seq<Piece>, ks: seq<nat>)
    requires LineOk(s, p, ps, ks)
    ensures Stream(s.taken, ps) && Ascending(ks, |ps|)
    ensures p.out == Deliveries(Picked(ps, ks)) && p.rejected == Rejections(Picked(ps, ks))
    ensures !Fooled(ps, ks) ==> InOrder(s.taken, Selected(Picked(ps, ks)), p.out)
    ensures forall e :: 0 <= e < |ps| && AllThere(ps, ks, e) ==> ps[e].frame < |s.taken| && s.taken[ps[e].frame] in p.out
  {
    hide Unbroken, Data, Stream, Fooled, InOrder, Deliveries, Rejections, Selected, Picked, Low;
    if !Fooled(ps, ks) {
      InOrderUnlessFooled(s.taken, ps, ks);
    }
    forall e | 0 <= e < |ps| && AllThere(ps, ks, e) ensures ps[e].frame < |s.taken| && s.taken[ps[e].frame] in p.out {
      FrameStart(s.taken, ps, e);
      WholeArrives(s.taken, ps, ks, e - ps[e].no, e);
    }
  }

  /** A piece lies its number behind the first one of its frame. */
  lemma {:induction false} FrameStart(taken: seq<seq<Octet>>, ps: seq<Piece>, e: nat)
    requires Stream(taken, ps) && e < |ps|
    ensures ps[e].no <= e && ps[e - ps[e].no].no == 0 && ps[e - ps[e].no].frame == ps[e].frame
    decreases e
  {
    hide Data;
    assert Placed(taken, ps, e);
    if ps[e].no > 0 {
      FrameStart(taken, ps, e - 1);
    }
  }
}

/** Runs of the packetizer multiplexer: any number of ports take frames in any order, their
    fragments share one reliable FIFO wire, and each receiving port reassembles its own
    (CProtoModTDestMux2::process and CTDestPort2::pushDownstream). */
module PacketizerRuns {
  import opened Wrappers
  import opened CircularIndex
  import opened Octets
  import opened Crc32
  import opened PackHeader
  import opened Packetizer

  /** One entry of the work list. `taken` is the history of frames from the input queue, `rest`
      what is still to be sent of the last one. */
  datatype Slot = Slot(dest: Octet, taken: seq<seq<Octet>>, rest: Option<seq<Octet>>, fragNo: nat, crc: bv32)

  const CRC_START: bv32 := 0xffff_ffff

  function Left(s: Slot): seq<Octet> {
    if s.rest.None? then [] else s.rest.value
  }

  /** One call of sendFrag; a frame has fewer than 2^32 fragments. */
  ghost predicate Emits(s: Slot, s': Slot, f: seq<Octet>) {
    && s.rest.Some? && s.fragNo + 1 < WORD
    && |Left(s')| < |Left(s)|
    && Left(s)[|Left(s)| - |Left(s')|..] == Left(s')
    && (s'.rest.Some? <==> Left(s') != [])
    && IsFragment(f, Left(s)[..|Left(s)| - |Left(s')|], s.fragNo, s.dest, s'.rest.None?, s.crc, s'.crc)
    && s'.fragNo == s.fragNo + 1 && s'.dest == s.dest && s'.taken == s.taken
  }

  /** Work::reset with the next frame of the input queue. */
  function Take(s: Slot, frame: seq<Octet>): Slot {
    Slot(s.dest, s.taken + [frame], Some(frame), 0, CRC_START)
  }

  ghost predicate Works(s: Slot, s': Slot, f: seq<Octet>) {
    || Emits(s, s', f)
    || (s.rest.None? && exists frame: seq<Octet> :: frame != [] && Emits(Take(s, frame), s', f))
  }

  /** A receiving port, the frames it has delivered and the fragments it has rejected. */
  datatype Port = Port(rx: RxState, out: seq<seq<Octet>>, rejected: nat)

  function Deliver(p: Port, f: seq<Octet>): Port {
    var (rx, o) := Receive(p.rx, f);
    match o
    case Absorbed => p.(rx := rx)
    case Frame(data) => p.(rx := rx, out := p.out + [data])
    case _ => p.(rx := rx, rejected := p.rejected + 1)
  }

  predicate For(f: seq<Octet>, dest: Octet) {
    |f| > 2 && f[2] == dest
  }

  function Demux(p: Port, f: seq<Octet>, dest: Octet): Port {
    if For(f, dest) then Deliver(p, f) else p
  }

  /** The port after everything on the wire has arrived. */
  function Drained(p: Port, wire: seq<seq<Octet>>, dest: Octet): Port
    decreases |wire|
  {
    if wire == [] then p else Drained(Demux(p, wire[0], dest), wire[1..], dest)
  }

  datatype Mux = Mux(slots: seq<Slot>, ports: seq<Port>, wire: seq<seq<Octet>>)

  ghost predicate Formed(m: Mux) {
    && |m.ports| == |m.slots|
    && forall i, j :: 0 <= i < j < |m.slots| ==> m.slots[i].dest != m.slots[j].dest
  }

  ghost predicate Init(m: Mux) {
    && Formed(m) && m.wire == []
    && (forall i :: 0 <= i < |m.slots| ==> m.slots[i].taken == [] && m.slots[i].rest.None?)
    && forall i :: 0 <= i < |m.ports| ==> m.ports[i].out == [] && m.ports[i].rejected == 0
  }

  ghost predicate Send(m: Mux, m': Mux, i: nat, f: seq<Octet>) {
    && i < |m.slots| == |m'.slots| && Works(m.slots[i], m'.slots[i], f)
    && m' == Mux(m.slots[i := m'.slots[i]], m.ports, m.wire + [f])
  }

  ghost predicate Arrive(m: Mux, m': Mux) {
    && m.wire != [] && |m.slots| == |m.ports|
    && m' == Mux(m.slots, seq(|m.ports|, i requires 0 <= i < |m.ports| => Demux(m.ports[i], m.wire[0], m.slots[i].dest)), m.wire[1..])
  }

  ghost predicate Next(m: Mux, m': Mux) {
    Arrive(m, m') || exists i: nat, f: seq<Octet> :: Send(m, m', i, f)
  }

  ghost predicate Run(ms: seq<Mux>) {
    ms != [] && Init(ms[0]) && forall k :: 0 <= k < |ms| - 1 ==> Next(ms[k], ms[k + 1])
  }

  // ----- invariant

  /** Sender and receiver agree once the wire has been emptied. */
  ghost predicate InStep(s: Slot, p: Port) {
    && p.rejected == 0
    && match s.rest
       case None => p.out == s.taken
       case Some(r) =>
         && r != [] && s.fragNo >= 1
         && s.taken != [] && p.out == s.taken[..|s.taken| - 1]
         && p.rx.assembled.Some? && p.rx.fragNo == s.fragNo - 1
         && p.rx.assembled.value + r == s.taken[|s.taken| - 1]
  }

  ghost predicate Inv(m: Mux) {
    && Formed(m)
    && forall i :: 0 <= i < |m.slots| ==> InStep(m.slots[i], Drained(m.ports[i], m.wire, m.slots[i].dest))
  }

  lemma {:induction false} DrainedSnoc(p: Port, wire: seq<seq<Octet>>, f: seq<Octet>, dest: Octet)
    ensures Drained(p, wire + [f], dest) == Demux(Drained(p, wire, dest), f, dest)
    decreases |wire|
  {
    hide Demux;
    if wire == [] {
      assert wire + [f] == [f];
    } else {
      assert (wire + [f])[1..] == wire[1..] + [f];
      DrainedSnoc(Demux(p, wire[0], dest), wire[1..], f, dest);
    }
  }

  lemma EmitsFor(s: Slot, s': Slot, f: seq<Octet>)
    requires Emits(s, s', f)
    ensures For(f, s.dest)
  {
    FragmentDest(f, Left(s)[..|Left(s)| - |Left(s')|], s.fragNo, s.dest, s'.rest.None?, s.crc, s'.crc);
  }

  /** A fragment of a frame that is under way. */
  lemma EmitsInStep(s: Slot, s': Slot, f: seq<Octet>, p: Port)
    requires Emits(s, s', f) && p.rejected == 0
    requires s.fragNo == 0 ==> s.taken != [] && p.out == s.taken[..|s.taken| - 1] && s.rest == Some(s.taken[|s.taken| - 1])
    requires s.fragNo != 0 ==> InStep(s, p)
    ensures InStep(s', Deliver(p, f))
  {
    hide Receive, IsFragment;
    var data := Left(s)[..|Left(s)| - |Left(s')|];
    assert data + Left(s') == Left(s);
    ReceiveFragment(p.rx, f, data, s.fragNo, s.dest, s'.rest.None?, s.crc, s'.crc);
    if s.fragNo != 0 {
      assert p.rx.assembled.value + Left(s) == p.rx.assembled.value + data + Left(s');
    }
    if s'.rest.None? {
      assert data == Left(s);
      assert s.taken == s.taken[..|s.taken| - 1] + [s.taken[|s.taken| - 1]];
    }
  }

  lemma WorksInStep(s: Slot, s': Slot, f: seq<Octet>, p: Port)
    requires Works(s, s', f) && InStep(s, p)
    ensures For(f, s.dest) && s'.dest == s.dest && InStep(s', Deliver(p, f))
  {
    hide Emits, Deliver, InStep;
    if Emits(s, s', f) {
      EmitsFor(s, s', f);
      EmitsSame(s, s', f);
      InStepBusy(s, p);
      EmitsInStep(s, s', f, p);
    } else {
      var frame: seq<Octet> :| frame != [] && Emits(Take(s, frame), s', f);
      EmitsFor(Take(s, frame), s', f);
      EmitsSame(Take(s, frame), s', f);
      InStepIdle(s, p);
      assert Take(s, frame).taken[..|s.taken|] == s.taken;
      EmitsInStep(Take(s, frame), s', f, p);
    }
  }

  lemma EmitsSame(s: Slot, s': Slot, f: seq<Octet>)
    requires Emits(s, s', f)
    ensures s'.dest == s.dest && s.rest.Some?
  {
  }

  lemma InStepBusy(s: Slot, p: Port)
    requires InStep(s, p) && s.rest.Some?
    ensures s.fragNo != 0 && p.rejected == 0
  {
  }

  lemma InStepIdle(s: Slot, p: Port)
    requires InStep(s, p) && s.rest.None?
    ensures p.out == s.taken && p.rejected == 0
  {
  }

  lemma SendInv(m: Mux, m': Mux, i: nat, f: seq<Octet>)
    requires Inv(m) && Send(m, m', i, f)
    ensures Inv(m')
  {
    hide InStep, Works, Drained, For, Deliver;
    var s := m.slots[i];
    WorksInStep(s, m'.slots[i], f, Drained(m.ports[i], m.wire, s.dest));
    forall j | 0 <= j < |m'.slots|
      ensures InStep(m'.slots[j], Drained(m'.ports[j], m'.wire, m'.slots[j].dest))
    {
      DrainedSnoc(m.ports[j], m.wire, f, m.slots[j].dest);
      if j != i {
        OtherDest(f, s.dest, m.slots[j].dest);
      }
    }
  }

  lemma OtherDest(f: seq<Octet>, d: Octet, e: Octet)
    requires For(f, d) && d != e
    ensures !For(f, e)
  {
  }

  lemma ArriveInv(m: Mux, m': Mux)
    requires Inv(m) && Arrive(m, m')
    ensures Inv(m')
  {
    hide InStep, Demux;
    forall j | 0 <= j < |m'.slots|
      ensures InStep(m'.slots[j], Drained(m'.ports[j], m'.wire, m'.slots[j].dest))
    {
      assert InStep(m.slots[j], Drained(m.ports[j], m.wire, m.slots[j].dest));
    }
  }

  lemma {:induction false} RunInv(ms: seq<Mux>)
    requires Run(ms)
    ensures Inv(ms[|ms| - 1])
    decreases |ms|
  {
    var n := |ms| - 1;
    if n > 0 {
      hide Inv, Arrive, Send, Init;
      RunInv(ms[..n]);
      assert Next(ms[n - 1], ms[n - 1 + 1]);
      if Arrive(ms[n - 1], ms[n]) {
        ArriveInv(ms[n - 1], ms[n]);
      } else {
        var i: nat, f: seq<Octet> :| Send(ms[n - 1], ms[n], i, f);
        SendInv(ms[n - 1], ms[n], i, f);
      }
    }
  }

  // ----- main result

  lemma {:induction false} DrainedGrows(p: Port, wire: seq<seq<Octet>>, dest: Octet)
    ensures p.out <= Drained(p, wire, dest).out && p.rejected <= Drained(p, wire, dest).rejected
    decreases |wire|
  {
    hide Receive;
    if wire != [] {
      DrainedGrows(Demux(p, wire[0], dest), wire[1..], dest);
    }
  }

  /** In every run, every port has delivered a prefix of the frames that its peer has taken, each
      one whole and unchanged, and no fragment was rejected. With nothing under way it has
      delivered all of them. */
  lemma FramesArrive(ms: seq<Mux>, i: nat)
    requires Run(ms) && i < |ms[|ms| - 1].slots|
    ensures var m := ms[|ms| - 1];
            && i < |m.ports|
            && m.ports[i].out <= m.slots[i].taken
            && m.ports[i].rejected == 0
            && (m.wire == [] && m.slots[i].rest.None? ==> m.ports[i].out == m.slots[i].taken)
  {
    RunInv(ms);
    var m := ms[|ms| - 1];
    var s := m.slots[i];
    DrainedGrows(m.ports[i], m.wire, s.dest);
    assert InStep(s, Drained(m.ports[i], m.wire, s.dest));
  }

  // ----- the checksum over a frame

  ghost predicate Tailed(fs: seq<seq<Octet>>) {
    forall k :: 0 <= k < |fs| ==> |fs[k]| >= 4
  }

  /** What the checksum of one fragment covers: all of it without its last four octets. */
  function CoveredOf(f: seq<Octet>): seq<Octet>
    requires |f| >= 4
  {
    f[..|f| - 4]
  }

  function Covered(fs: seq<seq<Octet>>): seq<Octet>
    requires Tailed(fs)
    decreases |fs|
  {
    if fs == [] then [] else Covered(fs[..|fs| - 1]) + CoveredOf(fs[|fs| - 1])
  }

  /** Consecutive calls of sendFrag for one frame. */
  ghost predicate Sends(ss: seq<Slot>, fs: seq<seq<Octet>>) {
    |ss| == |fs| + 1 && forall k :: 0 <= k < |fs| ==> Emits(ss[k], ss[k + 1], fs[k])
  }

  lemma FragmentCrc(s: Slot, s': Slot, f: seq<Octet>)
    requires Emits(s, s', f)
    ensures |f| >= HEADER_SIZE + TAIL_SIZE
    ensures s'.crc == Bitwise(s.crc, CoveredOf(f)) && f[|f| - 4..] == BigEndianOctets(!s'.crc)
  {
    hide Bitwise, WithCrc, BigEndianOctets, TailStart, HeaderOctets;
    var n := |Left(s)| - |Left(s')|;
    CrcOctets(TailStart(Lanes(n), 0, s'.rest.None?), !s'.crc);
    assert f[|f| - 4..] == TailOf(f)[4..];
  }

  lemma SendsTailed(ss: seq<Slot>, fs: seq<seq<Octet>>)
    requires Sends(ss, fs)
    ensures Tailed(fs)
  {
    hide Emits, Bitwise, CoveredOf, BigEndianOctets;
    forall k | 0 <= k < |fs| ensures |fs[k]| >= 4 {
      FragmentCrc(ss[k], ss[k + 1], fs[k]);
    }
  }

  lemma SendsPrefix(ss: seq<Slot>, fs: seq<seq<Octet>>)
    requires Sends(ss, fs) && fs != []
    ensures Sends(ss[..|fs|], fs[..|fs| - 1]) && Emits(ss[|fs| - 1], ss[|fs|], fs[|fs| - 1])
  {
    hide Emits;
    var n := |fs| - 1;
    assert Emits(ss[n], ss[n + 1], fs[n]);
  }

  /** The bitwise CRC of everything a frame's fragments carry, started from the register that the
      frame began with, is the register that its last fragment leaves. */
  lemma {:induction false} CrcRegister(ss: seq<Slot>, fs: seq<seq<Octet>>)
    requires Sends(ss, fs)
    ensures Tailed(fs) && ss[|fs|].crc == Bitwise(ss[0].crc, Covered(fs))
    decreases |fs|
  {
    hide Bitwise, Emits, BigEndianOctets, CoveredOf;
    SendsTailed(ss, fs);
    if fs == [] {
      BitwiseNone(ss[0].crc);
    } else {
      var n := |fs| - 1;
      SendsPrefix(ss, fs);
      CrcRegister(ss[..n + 1], fs[..n]);
      FragmentCrc(ss[n], ss[n + 1], fs[n]);
      BitwiseAppend(ss[0].crc, Covered(fs[..n]), CoveredOf(fs[n]));
    }
  }

  /** That register, inverted and most significant octet first, is what the last fragment ends with. */
  lemma CrcCarried(ss: seq<Slot>, fs: seq<seq<Octet>>)
    requires Sends(ss, fs) && fs != []
    ensures Tailed(fs)
    ensures var f := fs[|fs| - 1]; f[|f| - 4..] == BigEndianOctets(!Bitwise(ss[0].crc, Covered(fs)))
  {
    hide Bitwise, Emits, BigEndianOctets, CoveredOf, Covered;
    CrcRegister(ss, fs);
    SendsPrefix(ss, fs);
    var n := |fs| - 1;
    FragmentCrc(ss[n], ss[n + 1], fs[n]);
  }

  /** Every call makes progress: a frame has no more fragments than octets. */
  lemma {:induction false} FragmentCount(ss: seq<Slot>, fs: seq<seq<Octet>>)
    requires Sends(ss, fs)
    ensures |fs| + |Left(ss[|fs|])| <= |Left(ss[0])|
    decreases |fs|
  {
    hide IsFragment;
    if fs != [] {
      var n := |fs| - 1;
      FragmentCount(ss[..n + 1], fs[..n]);
      assert Emits(ss[n], ss[n + 1], fs[n]);
    }
  }
}

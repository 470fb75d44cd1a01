/** A lossy run in which a port delivers something that was never sent. */
module PacketizerWitness {
  import opened Wrappers
  import opened CircularIndex
  import opened Octets
  import opened Bits
  import opened Crc32
  import opened PackHeader
  import opened Packetizer
  import opened PacketizerRuns
  import opened PacketizerLoss
  import opened PacketizerNet

  // ----- there are fragments of every kind

  lemma Parts(h: seq<Octet>, d: seq<Octet>, z: seq<Octet>, t: seq<Octet>, c: seq<Octet>)
    requires |h| == HEADER_SIZE && |t| == |c| == 4
    ensures var f := h + d + z + t + c;
            && |f| == HEADER_SIZE + |d| + |z| + TAIL_SIZE
            && f[..HEADER_SIZE] == h && f[HEADER_SIZE..HEADER_SIZE + |d|] == d
            && f[..|f| - 4] == h + d + z + t && TailOf(f) == t + c
  {
  }

  lemma EndsWithCrc(t: seq<Octet>, crc: bv32, r: seq<Octet>)
    requires |t| == TAIL_SIZE && r == t[..4] + BigEndianOctets(crc)
    ensures r == WithCrc(t, crc)
  {
    CrcOctets(t, crc);
  }

  lemma Concludes(f: seq<Octet>, c: seq<Octet>, data: seq<Octet>, fragNo: Word, tDest: Octet, eof: bool, crc: bv32, crc': bv32)
    requires |f| == HEADER_SIZE + |data| + Padding(|data|) + TAIL_SIZE
    requires f[..HEADER_SIZE] == HeaderOctets(fragNo, tDest) && f[HEADER_SIZE..HEADER_SIZE + |data|] == data
    requires f[..|f| - 4] == c && crc' == Bitwise(crc, c)
    requires TailOf(f) == TailStart(Lanes(|data|), 0, eof)[..4] + BigEndianOctets(!crc')
    ensures IsFragment(f, data, fragNo, tDest, eof, crc, crc')
  {
    hide HeaderOctets, TailStart, WithCrc, BigEndianOctets, Bitwise, Lanes, Padding, TailOf;
    EndsWithCrc(TailStart(Lanes(|data|), 0, eof), !crc', TailOf(f));
  }

  /** A fragment for any data, number, destination and checksum so far. */
  lemma FragmentExists(data: seq<Octet>, fragNo: Word, tDest: Octet, eof: bool, crc: bv32) returns (f: seq<Octet>, crc': bv32)
    ensures IsFragment(f, data, fragNo, tDest, eof, crc, crc')
  {
    hide HeaderOctets, TailStart, WithCrc, BigEndianOctets, Bitwise, Lanes, Padding, TailOf, IsFragment;
    var h, z, t := HeaderOctets(fragNo, tDest), seq(Padding(|data|), _ => 0 as Octet), TailStart(Lanes(|data|), 0, eof)[..4];
    var c := h + data + z + t;
    crc' := Bitwise(crc, c);
    f := c + BigEndianOctets(!crc');
    Parts(h, data, z, t, BigEndianOctets(!crc'));
    Concludes(f, c, data, fragNo, tDest, eof, crc, crc');
  }

  // ----- two frames of two fragments each

  const D: Octet := 7

  /** Slot states and fragments: [1, 2] goes out octet by octet, then [3, 4]. */
  datatype Script = Script(ss: seq<Slot>, fs: seq<seq<Octet>>)

  ghost predicate Plays(w: Script) {
    && |w.ss| == 5 && |w.fs| == 4
    && (forall k :: 0 <= k < 4 ==> Works(w.ss[k], w.ss[k + 1], w.fs[k]))
    && w.ss[0].taken == [] && w.ss[0].rest.None?
    && w.ss[1].taken == [[1, 2]] && w.ss[1].rest == Some([2]) && w.ss[1].fragNo == 1
    && w.ss[2].taken == [[1, 2]] && w.ss[2].rest.None? && w.ss[2].fragNo == 2
    && w.ss[3].taken == [[1, 2], [3, 4]] && w.ss[3].rest == Some([4]) && w.ss[3].fragNo == 1
    && w.ss[4].taken == [[1, 2], [3, 4]] && w.ss[4].rest.None? && w.ss[4].fragNo == 2
  }

  lemma OneFragment(s: Slot, data: seq<Octet>, left: seq<Octet>) returns (s': Slot, f: seq<Octet>)
    requires s.rest == Some(data + left) && data != [] && s.fragNo + 1 < WORD
    ensures Emits(s, s', f) && s'.rest == (if left == [] then None else Some(left)) && s'.fragNo == s.fragNo + 1
    ensures s'.taken == s.taken && s'.dest == s.dest
  {
    hide IsFragment;
    var crc';
    f, crc' := FragmentExists(data, s.fragNo, s.dest, left == [], s.crc);
    s' := Slot(s.dest, s.taken, if left == [] then None else Some(left), s.fragNo + 1, crc');
    assert Left(s)[..|Left(s)| - |Left(s')|] == data;
  }

  lemma ScriptExists() returns (w: Script)
    ensures Plays(w)
  {
    hide Emits;
    var s0 := Slot(D, [], None, 0, CRC_START);
    var frame: seq<Octet>, next: seq<Octet> := [1, 2], [3, 4];
    var a: seq<Octet>, b: seq<Octet> := [2], [4];
    assert [1] + [2] == frame && [3] + [4] == next && a + [] == a && b + [] == b;
    var s1, f0 := OneFragment(Take(s0, frame), [1], a);
    assert Works(s0, s1, f0);
    var s2, f1 := OneFragment(s1, a, []);
    var s3, f2 := OneFragment(Take(s2, next), [3], b);
    assert Works(s2, s3, f2);
    var s4, f3 := OneFragment(s3, b, []);
    w := Script([s0, s1, s2, s3, s4], [f0, f1, f2, f3]);
  }

  // ----- the run

  const PS: seq<Piece> := [Piece(0, 0, [1], false), Piece(0, 1, [2], true), Piece(1, 0, [3], false), Piece(1, 1, [4], true)]

  /** The k-th fragment has been sent. */
  function AfterSend(m: Net, w: Script, k: nat): Net
    requires k < 4 && |w.ss| == 5 && |w.fs| == 4
  {
    Net([w.ss[k + 1]], m.ports, m.wire + [Packet(w.fs[k], 0, k)], [PS[..k + 1]], m.got)
  }

  function AfterLoss(m: Net, k: nat): Net
    requires k < |m.wire|
  {
    m.(wire := m.wire[..k] + m.wire[k + 1..])
  }

  function AfterArrival(m: Net): Net
    requires m.wire != [] && |m.ports| == |m.slots| == |m.got| == 1
  {
    Net(m.slots, [Demux(m.ports[0], m.wire[0].f, m.slots[0].dest)], m.wire[1..], m.sent, [m.got[0] + [m.wire[0].pos]])
  }

  lemma Extend(ms: seq<Net>, m: Net)
    requires LossyRun(ms) && NetNext(ms[|ms| - 1], m)
    ensures LossyRun(ms + [m]) && (ms + [m])[|ms + [m]| - 1] == m
  {
    hide NetNext, NetInit;
    var ns := ms + [m];
    forall k | 0 <= k < |ns| - 1 ensures NetNext(ns[k], ns[k + 1]) {
      if k < |ms| - 1 {
        assert NetNext(ms[k], ms[k + 1]);
      }
    }
  }

  /** A net with one port, and k fragments sent so far. */
  ghost predicate One(m: Net, w: Script, k: nat) {
    k <= 4 && |w.ss| == 5 && |w.fs| == 4 && |m.ports| == |m.got| == 1 && m.slots == [w.ss[k]] && m.sent == [PS[..k]]
  }

  lemma ExtendSend(ms: seq<Net>, m: Net, w: Script, k: nat)
    requires Plays(w) && LossyRun(ms) && m == ms[|ms| - 1] && k < 4 && One(m, w, k)
    ensures One(AfterSend(m, w, k), w, k + 1) && LossyRun(ms + [AfterSend(m, w, k)])
  {
    hide Works, LossyRun;
    var m' := AfterSend(m, w, k);
    assert Works(w.ss[k], w.ss[k + 1], w.fs[k]);
    assert m'.slots == m.slots[0 := m'.slots[0]];
    Told(w, k);
    assert PS[..k] + [PS[k]] == PS[..k + 1];
    assert m'.sent == m.sent[0 := m.sent[0] + [PieceSent(m.slots[0], m'.slots[0])]];
    assert NetSend(m, m', 0, w.fs[k]);
    Extend(ms, m');
  }

  lemma Told(w: Script, k: nat)
    requires Plays(w) && k < 4
    ensures var s, s' := w.ss[k], w.ss[k + 1];
            s'.taken != [] && s'.fragNo >= 1 && |Left(s')| <= |Source(s, s')| && PieceSent(s, s') == PS[k]
  {
    hide Works;
  }

  lemma ExtendLoss(ms: seq<Net>, m: Net, w: Script, k: nat, i: nat)
    requires LossyRun(ms) && m == ms[|ms| - 1] && One(m, w, k) && i < |m.wire|
    ensures One(AfterLoss(m, i), w, k) && LossyRun(ms + [AfterLoss(m, i)])
  {
    hide LossyRun;
    assert NetLose(m, AfterLoss(m, i), i);
    Extend(ms, AfterLoss(m, i));
  }

  lemma ExtendArrival(ms: seq<Net>, m: Net, w: Script, k: nat)
    requires LossyRun(ms) && m == ms[|ms| - 1] && One(m, w, k) && m.wire != [] && m.wire[0].slot == 0
    ensures One(AfterArrival(m), w, k) && LossyRun(ms + [AfterArrival(m)])
  {
    hide LossyRun, Demux;
    var m' := AfterArrival(m);
    assert m'.ports == seq(|m.ports|, i requires 0 <= i < |m.ports| => Demux(m.ports[i], m.wire[0].f, m.slots[i].dest));
    assert NetArrive(m, m');
    Extend(ms, m');
  }

  /** The frames [1, 2] and [3, 4] are sent as two fragments each; the second and the third are lost,
      and the port delivers [1, 4]. */
  lemma JoinHappens() returns (ms: seq<Net>)
    ensures LossyRun(ms)
    ensures var m := ms[|ms| - 1];
            |m.slots| == |m.ports| == 1 && m.slots[0].taken == [[1, 2], [3, 4]] && m.ports[0].out == [[1, 4]]
  {
    var w := ScriptExists();
    var m0 := Net([w.ss[0]], [Port(RxState(None, 0), [], 0)], [], [[]], [[]]);
    FirstNet(m0, w);
    hide *;
    ms := Played([m0], m0, w);
    LossyFrames(ms, 0);
    Ending(ms[|ms| - 1], w);
  }

  lemma FirstNet(m: Net, w: Script)
    requires Plays(w) && m == Net([w.ss[0]], [Port(RxState(None, 0), [], 0)], [], [[]], [[]])
    ensures LossyRun([m]) && One(m, w, 0)
  {
    hide Works;
  }

  lemma Ending(m: Net, w: Script)
    requires Plays(w) && One(m, w, 4) && m.got == [[0, 3]] && Ascending(m.got[0], |m.sent[0]|)
    requires |m.ports| == 1 && m.ports[0].out == Deliveries(Picked(m.sent[0], m.got[0]))
    ensures |m.slots| == |m.ports| == 1 && m.slots[0].taken == [[1, 2], [3, 4]] && m.ports[0].out == [[1, 4]]
  {
    hide Works, Deliveries;
    JoinedData();
    assert Picked(m.sent[0], m.got[0]) == [PS[0], PS[3]];
  }

  lemma Played(ms0: seq<Net>, m0: Net, w: Script) returns (ms: seq<Net>)
    requires Plays(w) && LossyRun(ms0) && m0 == ms0[|ms0| - 1] && One(m0, w, 0) && m0.wire == [] && m0.got == [[]]
    ensures LossyRun(ms) && One(ms[|ms| - 1], w, 4) && ms[|ms| - 1].got == [[0, 3]]
  {
    hide Plays, Demux, LossyRun, PS;
    ExtendSend(ms0, m0, w, 0);
    var m1 := AfterSend(m0, w, 0);
    ExtendSend(ms0 + [m1], m1, w, 1);
    var m2 := AfterSend(m1, w, 1);
    ms := ms0 + [m1] + [m2];
    ExtendLoss(ms, m2, w, 2, 1);
    var m3 := AfterLoss(m2, 1);
    ms := ms + [m3];
    ExtendSend(ms, m3, w, 2);
    var m4 := AfterSend(m3, w, 2);
    ms := ms + [m4];
    ExtendLoss(ms, m4, w, 3, 1);
    var m5 := AfterLoss(m4, 1);
    ms := ms + [m5];
    ExtendSend(ms, m5, w, 3);
    var m6 := AfterSend(m5, w, 3);
    ms := ms + [m6];
    assert m6.wire == [Packet(w.fs[0], 0, 0), Packet(w.fs[3], 0, 3)];
    ExtendArrival(ms, m6, w, 4);
    var m7 := AfterArrival(m6);
    ms := ms + [m7];
    ExtendArrival(ms, m7, w, 4);
    var m8 := AfterArrival(m7);
    ms := ms + [m8];
    assert m8.got[0] == [] + [0] + [3] == [0, 3];
  }

  /** What looks like a whole frame here. */
  lemma JoinedData()
    ensures Deliveries([PS[0], PS[3]]) == [[1, 4]]
  {
    var rs := [PS[0], PS[3]];
    assert Unbroken(rs, 0, 0) && Unbroken(rs, 0, 1);
    StartUnique(rs, 0, 1);
    assert rs[..1] == [PS[0]] && [PS[0]][..0] == [] && rs[0..] == rs;
    DataSnoc([], PS[0]);
    DataSnoc([PS[0]], PS[3]);
    hide Unbroken;
    assert Deliveries(rs[..1]) == [];
    assert Data(rs) == [1, 4];
  }
}

/** Reassembly of packetizer fragments when fragments are lost: what a port delivers, which of the
    deliveries are frames that were sent, and exactly when one is not. */
module PacketizerLoss {
  import opened Wrappers
  import opened CircularIndex
  import opened Octets
  import opened Crc32
  import opened PackHeader
  import opened Packetizer
  import opened PacketizerRuns

  /** Fragment `no` of frame `frame`. */
  datatype Piece = Piece(frame: nat, no: nat, data: seq<Octet>, last: bool)

  ghost predicate IsPiece(f: seq<Octet>, p: Piece, dest: Octet) {
    p.data != [] && p.no < WORD && exists crc: bv32, crc': bv32 :: IsFragment(f, p.data, p.no, dest, p.last, crc, crc')
  }

  /** The wire carries the number modulo 2^16. */
  function Low(n: nat): nat {
    n % 0x1_0000
  }

  // ----- one fragment

  /** What becomes of a well-formed fragment that is not a first one. */
  lemma NotFirst(st: RxState, f: seq<Octet>, h: Header2, data: seq<Octet>)
    requires |f| >= HEADER_SIZE + TAIL_SIZE && Parse2(f) == Some(h) && !IsFirst(f) && Trimmed(f) == Some(data)
    ensures Receive(st, f) ==
              if st.assembled.None? then (st, NonSequential)
              else if Inc(st.fragNo) % 0x1_0000 != h.fragNo then (RxState(None, Inc(st.fragNo)), NonSequential)
              else Assembled(st.assembled.value + data, Inc(st.fragNo), TailEOF(TailOf(f)))
  {
    hide Parse2, IsFirst, Trimmed, TailEOF, TailOf, Inc, Assembled;
  }

  /** A fragment that is not the first one is taken in exactly if something has been assembled and its
      number follows that of the last one, modulo 2^16; otherwise nothing is left assembled. */
  lemma NumberTest(st: RxState, f: seq<Octet>, p: Piece, dest: Octet)
    requires IsPiece(f, p, dest) && p.no != 0
    ensures var r := Receive(st, f);
            if st.assembled.Some? && Low(st.fragNo + 1) == Low(p.no) then
              r == Assembled(st.assembled.value + p.data, Inc(st.fragNo), p.last)
            else r.0.assembled == None && r.1 == NonSequential
  {
    hide IsPiece, Parse2, IsFirst, Trimmed, TailEOF, TailOf, Receive, Inc, Assembled, Low;
    PieceParses(f, p, dest);
    NotFirst(st, f, Parse2(f).value, p.data);
    LowInc(st.fragNo);
  }

  /** What the receiver reads. */
  lemma PieceParses(f: seq<Octet>, p: Piece, dest: Octet)
    requires IsPiece(f, p, dest)
    ensures |f| >= HEADER_SIZE + TAIL_SIZE && Parse2(f).Some? && Parse2(f).value.fragNo == Low(p.no)
    ensures IsFirst(f) == (p.no == 0) && TailEOF(TailOf(f)) == p.last && Trimmed(f) == Some(p.data)
  {
    hide IsFragment, Parse2, IsFirst, Trimmed, TailEOF, TailOf;
    var crc: bv32, crc': bv32 :| IsFragment(f, p.data, p.no, dest, p.last, crc, crc');
    FragmentSize(f, p.data, p.no, dest, p.last, crc, crc');
    FragmentParses(f, p.data, p.no, dest, p.last, crc, crc');
  }

  lemma LowInc(n: Word)
    ensures Inc(n) % 0x1_0000 == Low(n + 1)
  {
  }

  /** A first fragment starts anew, whatever was assembled before. */
  lemma FirstStarts(st: RxState, f: seq<Octet>, p: Piece, dest: Octet)
    requires IsPiece(f, p, dest) && p.no == 0
    ensures Receive(st, f) == Assembled(p.data, 0, p.last)
  {
    var crc: bv32, crc': bv32 :| IsFragment(f, p.data, p.no, dest, p.last, crc, crc');
    hide IsFragment;
    ReceiveFragment(st, f, p.data, 0, dest, p.last, crc, crc');
  }

  // ----- any sequence of fragments

  function Data(ps: seq<Piece>): seq<Octet> {
    if ps == [] then [] else Data(ps[..|ps| - 1]) + ps[|ps| - 1].data
  }

  /** The pieces rs[a..b + 1] look like consecutive ones from the start of a frame. */
  ghost predicate Unbroken(rs: seq<Piece>, a: nat, b: nat) {
    && a <= b < |rs| && rs[a].no == 0
    && (forall j :: a < j <= b ==> rs[j].no != 0 && Low(rs[j].no) == Low(j - a))
    && (forall j :: a <= j < b ==> !rs[j].last)
  }

  /** They look like a whole frame. */
  ghost predicate Complete(rs: seq<Piece>, a: nat, b: nat) {
    Unbroken(rs, a, b) && rs[b].last
  }

  ghost predicate Continued(rs: seq<Piece>, b: nat) {
    exists a: nat :: Unbroken(rs, a, b)
  }

  /** Where the frame begins that the piece rs[b] continues. */
  ghost function Start(rs: seq<Piece>, b: nat): (a: nat)
    requires Continued(rs, b)
    ensures Unbroken(rs, a, b)
  {
    var a: nat :| Unbroken(rs, a, b);
    a
  }

  lemma StartUnique(rs: seq<Piece>, a: nat, b: nat)
    requires Unbroken(rs, a, b)
    ensures Start(rs, b) == a
  {
    var c := Start(rs, b);
    assert rs[a].no == rs[c].no == 0;
  }

  /** What is delivered: the data of everything that looks like a whole frame. */
  ghost function Deliveries(rs: seq<Piece>): (out: seq<seq<Octet>>) {
    if rs == [] then []
    else
      var n := |rs| - 1;
      Deliveries(rs[..n]) + if rs[n].last && Continued(rs, n) then [Data(rs[Start(rs, n)..])] else []
  }

  /** What is rejected: every piece that continues nothing. */
  ghost function Rejections(rs: seq<Piece>): nat {
    if rs == [] then 0
    else Rejections(rs[..|rs| - 1]) + if Continued(rs, |rs| - 1) then 0 else 1
  }

  /** What is assembled once the pieces `rs` have arrived. */
  ghost function Assembly(rs: seq<Piece>): Option<seq<Octet>> {
    var n := |rs| - 1;
    if rs != [] && !rs[n].last && Continued(rs, n) then Some(Data(rs[Start(rs, n)..])) else None
  }

  /** The number of the last piece taken in, as the port counts. */
  ghost predicate Numbered(rs: seq<Piece>, fragNo: Word) {
    rs != [] && Continued(rs, |rs| - 1) ==> fragNo == (|rs| - 1 - Start(rs, |rs| - 1)) % WORD
  }

  /** The port after the pieces `rs`. */
  ghost predicate After(p: Port, rs: seq<Piece>) {
    && p.out == Deliveries(rs) && p.rejected == Rejections(rs)
    && p.rx.assembled == Assembly(rs) && Numbered(rs, p.rx.fragNo)
  }

  lemma UnbrokenFirst(rs: seq<Piece>, p: Piece)
    requires p.no == 0
    ensures Unbroken(rs + [p], |rs|, |rs|)
  {
  }

  lemma UnbrokenNext(rs: seq<Piece>, p: Piece, a: nat)
    requires p.no != 0
    ensures Unbroken(rs + [p], a, |rs|) <==>
              rs != [] && Unbroken(rs, a, |rs| - 1) && !rs[|rs| - 1].last && Low(p.no) == Low(|rs| - a)
  {
    var q := rs + [p];
    if Unbroken(q, a, |rs|) {
      assert q[|rs|] == p && q[a].no == 0;
      assert forall j :: 0 <= j < |rs| ==> q[j] == rs[j];
      assert !q[|rs| - 1].last;
    } else if rs != [] && Unbroken(rs, a, |rs| - 1) && !rs[|rs| - 1].last && Low(p.no) == Low(|rs| - a) {
      assert forall j :: 0 <= j < |rs| ==> q[j] == rs[j];
      assert Unbroken(q, a, |rs|);
    }
  }

  lemma DataSnoc(ps: seq<Piece>, p: Piece)
    ensures Data(ps + [p]) == Data(ps) + p.data
  {
    assert (ps + [p])[..|ps|] == ps;
  }

  /** The answer of a port that has all pieces from a on together. */
  ghost predicate Took(rs: seq<Piece>, a: nat, r: (RxState, Outcome)) {
    a < |rs| && r == Assembled(Data(rs[a..]), (|rs| - 1 - a) % WORD, rs[|rs| - 1].last)
  }

  /** One more piece that starts or continues something. */
  lemma TakenIn(port: Port, rs: seq<Piece>, f: seq<Octet>, p: Piece, a: nat)
    requires After(port, rs) && Unbroken(rs + [p], a, |rs|) && Took(rs + [p], a, Receive(port.rx, f))
    ensures After(Deliver(port, f), rs + [p])
  {
    hide Receive, Data;
    var q := rs + [p];
    StartUnique(q, a, |rs|);
    hide Unbroken;
    assert q[..|rs|] == rs && q[|rs|] == p && Continued(q, |rs|);
  }

  /** One more piece that does neither. */
  lemma Dropped(port: Port, rs: seq<Piece>, f: seq<Octet>, p: Piece)
    requires After(port, rs) && !Continued(rs + [p], |rs|)
    requires Receive(port.rx, f).0.assembled == None && Receive(port.rx, f).1 == NonSequential
    ensures After(Deliver(port, f), rs + [p])
  {
    hide Receive, Data, Unbroken;
    var q := rs + [p];
    assert q[..|rs|] == rs && q[|rs|] == p;
  }

  lemma CountsOn(n: nat)
    ensures Low(n % WORD + 1) == Low(n + 1) && Inc(n % WORD) == (n + 1) % WORD
  {
  }

  lemma NextData(rs: seq<Piece>, p: Piece, a: nat)
    requires a <= |rs|
    ensures Data((rs + [p])[a..]) == Data(rs[a..]) + p.data
  {
    hide Data;
    assert (rs + [p])[a..] == rs[a..] + [p];
    DataSnoc(rs[a..], p);
  }

  /** A port that waits for this piece. */
  lemma Waits(port: Port, rs: seq<Piece>, a: nat)
    requires After(port, rs) && rs != [] && Unbroken(rs, a, |rs| - 1) && !rs[|rs| - 1].last
    ensures a < |rs| && port.rx == RxState(Some(Data(rs[a..])), (|rs| - 1 - a) % WORD)
  {
    StartUnique(rs, a, |rs| - 1);
    hide Data, Deliveries, Rejections, Low;
    assert Continued(rs, |rs| - 1);
  }

  lemma TookNext(rx: RxState, rs: seq<Piece>, p: Piece, a: nat)
    requires a < |rs| && rx == RxState(Some(Data(rs[a..])), (|rs| - 1 - a) % WORD)
    ensures Took(rs + [p], a, Assembled(rx.assembled.value + p.data, Inc(rx.fragNo), p.last))
  {
    hide Data, Assembled, Inc;
    CountsOn(|rs| - 1 - a);
    NextData(rs, p, a);
  }

  /** A piece that continues what has been assembled. */
  lemma AfterNext(port: Port, rs: seq<Piece>, f: seq<Octet>, p: Piece, dest: Octet, a: nat)
    requires After(port, rs) && IsPiece(f, p, dest) && p.no != 0 && a < |rs| && Unbroken(rs + [p], a, |rs|)
    ensures Took(rs + [p], a, Receive(port.rx, f))
  {
    hide *;
    UnbrokenNext(rs, p, a);
    Waits(port, rs, a);
    NumberTest(port.rx, f, p, dest);
    CountsOn(|rs| - 1 - a);
    assert port.rx.assembled.Some? && Low(port.rx.fragNo + 1) == Low(p.no);
    TookNext(port.rx, rs, p, a);
  }

  /** A piece that continues nothing. */
  lemma AfterGap(port: Port, rs: seq<Piece>, f: seq<Octet>, p: Piece, dest: Octet)
    requires After(port, rs) && IsPiece(f, p, dest) && p.no != 0 && !Continued(rs + [p], |rs|)
    ensures Receive(port.rx, f).0.assembled == None && Receive(port.rx, f).1 == NonSequential
  {
    hide Receive, IsPiece, Unbroken, Low, Data, Deliveries, Rejections;
    NumberTest(port.rx, f, p, dest);
    if port.rx.assembled.Some? {
      var a := Start(rs, |rs| - 1);
      StartBound(rs, |rs| - 1);
      UnbrokenNext(rs, p, a);
      CountsOn(|rs| - 1 - a);
      assert !Unbroken(rs + [p], a, |rs|);
    }
  }

  /** Whatever arrives, in whatever order, a port delivers and rejects just this. */
  lemma AfterOne(port: Port, rs: seq<Piece>, f: seq<Octet>, p: Piece, dest: Octet)
    requires After(port, rs) && IsPiece(f, p, dest)
    ensures After(Deliver(port, f), rs + [p])
  {
    hide After, Deliver, Unbroken, IsPiece, Receive, Data, Assembled, Continued;
    if p.no == 0 {
      FirstStarts(port.rx, f, p, dest);
      UnbrokenFirst(rs, p);
      FirstData(rs, p);
      TakenIn(port, rs, f, p, |rs|);
    } else if Continued(rs + [p], |rs|) {
      var a := Start(rs + [p], |rs|);
      StartBound(rs + [p], |rs|);
      NotItsOwnStart(rs, p);
      AfterNext(port, rs, f, p, dest, a);
      TakenIn(port, rs, f, p, a);
    } else {
      AfterGap(port, rs, f, p, dest);
      Dropped(port, rs, f, p);
    }
  }

  lemma NotItsOwnStart(rs: seq<Piece>, p: Piece)
    requires p.no != 0 && Continued(rs + [p], |rs|)
    ensures Start(rs + [p], |rs|) != |rs|
  {
    assert Unbroken(rs + [p], Start(rs + [p], |rs|), |rs|);
  }

  lemma FirstData(rs: seq<Piece>, p: Piece)
    ensures Data((rs + [p])[|rs|..]) == p.data
  {
    assert (rs + [p])[|rs|..] == [] + [p];
    DataSnoc([], p);
  }

  lemma StartBound(rs: seq<Piece>, b: nat)
    requires Continued(rs, b)
    ensures Start(rs, b) <= b
  {
    assert Unbroken(rs, Start(rs, b), b);
  }

  // ----- what a sender puts on the wire

  /** q is the piece sent after p. */
  predicate Follows(p: Piece, q: Piece) {
    if p.last then q.frame == p.frame + 1 && q.no == 0 else q.frame == p.frame && q.no == p.no + 1
  }

  /** The i-th piece has its place in its frame, and is the last one if that completes the frame. */
  ghost predicate Placed(taken: seq<seq<Octet>>, ps: seq<Piece>, i: nat)
    requires i < |ps|
  {
    var p := ps[i];
    && (if i == 0 then p.frame == 0 && p.no == 0 else Follows(ps[i - 1], p))
    && p.no <= i && p.frame < |taken|
    && Data(ps[i - p.no..i + 1]) <= taken[p.frame]
    && (p.last <==> Data(ps[i - p.no..i + 1]) == taken[p.frame])
  }

  /** The pieces of the frames taken, one after the other. */
  ghost predicate Stream(taken: seq<seq<Octet>>, ps: seq<Piece>) {
    forall i :: 0 <= i < |ps| ==> Placed(taken, ps, i)
  }

  /** Later pieces belong to the same frame, behind, or to later frames. */
  lemma {:induction false} StreamOrder(taken: seq<seq<Octet>>, ps: seq<Piece>, i: nat, j: nat)
    requires Stream(taken, ps) && i < j < |ps|
    ensures ps[i].frame <= ps[j].frame
    ensures ps[i].frame == ps[j].frame ==> !ps[i].last && ps[j].no == ps[i].no + (j - i)
    ensures ps[i].last ==> ps[i].frame < ps[j].frame
    decreases j
  {
    hide Data;
    assert Placed(taken, ps, j);
    if i < j - 1 {
      StreamOrder(taken, ps, i, j - 1);
    }
  }

  // ----- some of the pieces arrive

  /** Positions of the pieces that arrive, in order. */
  predicate Ascending(ks: seq<nat>, n: nat) {
    && (forall j, k :: 0 <= j < k < |ks| ==> ks[j] < ks[k])
    && forall j :: 0 <= j < |ks| ==> ks[j] < n
  }

  function Picked(ps: seq<Piece>, ks: seq<nat>): (rs: seq<Piece>)
    requires forall j :: 0 <= j < |ks| ==> ks[j] < |ps|
    ensures |rs| == |ks|
  {
    seq(|ks|, j requires 0 <= j < |ks| => ps[ks[j]])
  }

  /** A positive multiple of 2^16 pieces of one frame is missing before the j-th arrival. */
  predicate Skips(ps: seq<Piece>, ks: seq<nat>, j: nat)
    requires 0 < j < |ks| && Ascending(ks, |ps|)
  {
    ps[ks[j]].frame == ps[ks[j - 1]].frame && ks[j] - ks[j - 1] > 1 && Low(ks[j] - ks[j - 1] - 1) == 0
  }

  /** The end of a frame and the beginning of a later one are missing, and the numbers on both sides
      match. */
  predicate Joins(ps: seq<Piece>, ks: seq<nat>, j: nat)
    requires 0 < j < |ks| && Ascending(ks, |ps|)
  {
    ps[ks[j]].frame != ps[ks[j - 1]].frame && ps[ks[j]].no != 0 && Low(ps[ks[j]].no) == Low(ps[ks[j - 1]].no + 1)
  }

  /** The j-th arrival is the piece after the one before. */
  predicate NextOne(ks: seq<nat>, j: nat)
    requires 0 < j < |ks|
  {
    ks[j] == ks[j - 1] + 1
  }

  ghost predicate Passes(ps: seq<Piece>, ks: seq<nat>, j: nat)
    requires 0 < j < |ks| && Ascending(ks, |ps|)
  {
    !ps[ks[j - 1]].last && (NextOne(ks, j) || Skips(ps, ks, j) || Joins(ps, ks, j))
  }

  lemma LowSum(a: nat, b: nat, c: nat)
    ensures Low(a) == Low(b) ==> Low(a + c) == Low(b + c)
    ensures Low(a + c) == Low(b + c) ==> Low(a) == Low(b)
  {
    var d: int := (a % 0x1_0000) - (b % 0x1_0000);
    assert (a + c) % 0x1_0000 == (a % 0x1_0000 + c) % 0x1_0000;
    assert (b + c) % 0x1_0000 == (b % 0x1_0000 + c) % 0x1_0000;
  }

  /** The number test between two neighbouring arrivals. */
  lemma PassesTest(taken: seq<seq<Octet>>, ps: seq<Piece>, ks: seq<nat>, j: nat)
    requires Stream(taken, ps) && Ascending(ks, |ps|) && 0 < j < |ks| && !ps[ks[j - 1]].last
    ensures Passes(ps, ks, j) <==> ps[ks[j]].no != 0 && Low(ps[ks[j]].no) == Low(ps[ks[j - 1]].no + 1)
  {
    StreamOrder(taken, ps, ks[j - 1], ks[j]);
    hide Stream, Data;
    var lost := ks[j] - ks[j - 1] - 1;
    if ps[ks[j]].frame == ps[ks[j - 1]].frame {
      LowSum(lost, 0, ps[ks[j - 1]].no + 1);
    } else if NextOne(ks, j) {
      NextFrame(taken, ps, ks[j]);
    }
  }

  lemma NextFrame(taken: seq<seq<Octet>>, ps: seq<Piece>, i: nat)
    requires Stream(taken, ps) && 0 < i < |ps| && ps[i].frame != ps[i - 1].frame
    ensures ps[i - 1].last
  {
    hide Data;
    assert Placed(taken, ps, i);
  }

  // ----- what passes for a frame

  /** Numbers that follow one another from 0 on count the arrivals. */
  lemma {:induction false} PassesCount(taken: seq<seq<Octet>>, ps: seq<Piece>, ks: seq<nat>, a: nat, b: nat)
    requires Stream(taken, ps) && Ascending(ks, |ps|) && a <= b < |ks| && ps[ks[a]].no == 0
    requires forall j :: a < j <= b ==> Passes(ps, ks, j)
    ensures Low(ps[ks[b]].no) == Low(b - a)
    decreases b
  {
    hide Stream, Low;
    if a < b {
      PassesCount(taken, ps, ks, a, b - 1);
      assert Passes(ps, ks, b);
      PassesTest(taken, ps, ks, b);
      LowSum(ps[ks[b - 1]].no, b - 1 - a, 1);
    }
  }

  /** Arrivals pass for a whole frame if and only if they start and end like one and each of them is
      the next piece, or skips a multiple of 2^16, or joins a later frame at a matching number. */
  lemma CompleteExactly(taken: seq<seq<Octet>>, ps: seq<Piece>, ks: seq<nat>, a: nat, b: nat)
    requires Stream(taken, ps) && Ascending(ks, |ps|) && a <= b < |ks|
    ensures Complete(Picked(ps, ks), a, b) <==>
              ps[ks[a]].no == 0 && ps[ks[b]].last && forall j :: a < j <= b ==> Passes(ps, ks, j)
  {
    hide Stream, Passes, Low;
    var rs := Picked(ps, ks);
    if Complete(rs, a, b) {
      forall j | a < j <= b ensures Passes(ps, ks, j) {
        assert !rs[j - 1].last;
        PassesTest(taken, ps, ks, j);
        assert Low(rs[j].no) == Low(j - a) && rs[j].no != 0;
        Before(rs, a, b, j);
        LowSum(rs[j - 1].no, j - 1 - a, 1);
      }
    } else if ps[ks[a]].no == 0 && ps[ks[b]].last && forall j :: a < j <= b ==> Passes(ps, ks, j) {
      forall j | a <= j < b ensures !rs[j].last {
        assert Passes(ps, ks, j + 1);
        NotLast(ps, ks, j + 1);
      }
      forall j | a < j <= b ensures rs[j].no != 0 && Low(rs[j].no) == Low(j - a) {
        assert Passes(ps, ks, j) && !rs[j - 1].last;
        PassesTest(taken, ps, ks, j);
        PassesCount(taken, ps, ks, a, j);
      }
      LooksComplete(rs, a, b);
    }
  }

  lemma Before(rs: seq<Piece>, a: nat, b: nat, j: nat)
    requires Unbroken(rs, a, b) && a < j <= b
    ensures Low(rs[j - 1].no) == Low(j - 1 - a)
  {
    hide Low;
    if j - 1 > a {
      assert rs[j - 1].no != 0;
    }
  }

  lemma NotLast(ps: seq<Piece>, ks: seq<nat>, j: nat)
    requires 0 < j < |ks| && Ascending(ks, |ps|) && Passes(ps, ks, j)
    ensures !ps[ks[j - 1]].last
  {
  }

  lemma LooksComplete(rs: seq<Piece>, a: nat, b: nat)
    requires a <= b < |rs| && rs[a].no == 0 && rs[b].last
    requires forall j :: a < j <= b ==> rs[j].no != 0 && Low(rs[j].no) == Low(j - a)
    requires forall j :: a <= j < b ==> !rs[j].last
    ensures Complete(rs, a, b)
  {
  }

  /** Nothing is missing in between. */
  ghost predicate Gapless(ks: seq<nat>, a: nat, b: nat)
    requires a <= b < |ks|
  {
    forall j :: a < j <= b ==> NextOne(ks, j)
  }

  /** A completed run misses something in between if and only if it skips or joins somewhere. */
  lemma GaplessExactly(taken: seq<seq<Octet>>, ps: seq<Piece>, ks: seq<nat>, a: nat, b: nat)
    requires Stream(taken, ps) && Ascending(ks, |ps|) && Complete(Picked(ps, ks), a, b)
    ensures Gapless(ks, a, b) <==> forall j :: a < j <= b ==> !Skips(ps, ks, j) && !Joins(ps, ks, j)
  {
    CompleteExactly(taken, ps, ks, a, b);
    hide Complete, Picked, Low;
    forall j | a < j <= b ensures NextOne(ks, j) <==> !Skips(ps, ks, j) && !Joins(ps, ks, j) {
      assert Passes(ps, ks, j);
      if NextOne(ks, j) && ps[ks[j]].frame != ps[ks[j - 1]].frame {
        NextFrame(taken, ps, ks[j]);
      }
    }
  }

  lemma {:induction false} GaplessRun(ps: seq<Piece>, ks: seq<nat>, a: nat, b: nat)
    requires Ascending(ks, |ps|) && a <= b < |ks| && Gapless(ks, a, b)
    ensures ks[b] == ks[a] + (b - a) && Picked(ps, ks)[a..b + 1] == ps[ks[a]..ks[b] + 1]
    decreases b
  {
    var rs := Picked(ps, ks);
    if a == b {
      assert rs[a..b + 1] == [ps[ks[a]]] == ps[ks[a]..ks[b] + 1];
    } else {
      GaplessRun(ps, ks, a, b - 1);
      assert NextOne(ks, b);
      assert rs[a..b + 1] == rs[a..b] + [rs[b]];
      assert ps[ks[a]..ks[b] + 1] == ps[ks[a]..ks[b]] + [ps[ks[b]]];
    }
  }

  /** A run without a gap is a frame that was sent, from its first piece to its last. */
  lemma GaplessIsFrame(taken: seq<seq<Octet>>, ps: seq<Piece>, ks: seq<nat>, a: nat, b: nat)
    requires Stream(taken, ps) && Ascending(ks, |ps|) && Complete(Picked(ps, ks), a, b) && Gapless(ks, a, b)
    ensures ps[ks[b]].frame == ps[ks[a]].frame < |taken| && ps[ks[b]].no == b - a
    ensures Data(Picked(ps, ks)[a..b + 1]) == taken[ps[ks[b]].frame]
  {
    GaplessRun(ps, ks, a, b);
    assert Placed(taken, ps, ks[b]);
    hide Data, Low;
    if a < b {
      forall j | a <= j < b ensures !ps[ks[j]].last {
        assert !Picked(ps, ks)[j].last;
      }
      SameFrame(taken, ps, ks, a, b);
      StreamOrder(taken, ps, ks[a], ks[b]);
    }
  }

  lemma {:induction false} SameFrame(taken: seq<seq<Octet>>, ps: seq<Piece>, ks: seq<nat>, a: nat, b: nat)
    requires Stream(taken, ps) && Ascending(ks, |ps|) && a <= b < |ks| && Gapless(ks, a, b)
    requires forall j :: a <= j < b ==> !ps[ks[j]].last
    ensures ps[ks[b]].frame == ps[ks[a]].frame
    decreases b
  {
    hide Data;
    if a < b {
      forall j | a <= j < b ensures !ps[ks[j]].last {
        assert !Picked(ps, ks)[j].last;
      }
      SameFrame(taken, ps, ks, a, b - 1);
      assert NextOne(ks, b) && !ps[ks[b - 1]].last;
      assert Placed(taken, ps, ks[b]);
    }
  }

  // ----- main results

  /** Something passed for a frame although pieces are missing from it. */
  ghost predicate Fooled(ps: seq<Piece>, ks: seq<nat>)
    requires Ascending(ks, |ps|)
  {
    exists a: nat, b: nat :: Complete(Picked(ps, ks), a, b) && !Gapless(ks, a, b)
  }

  lemma BoundedRuns(rs: seq<Piece>)
    ensures forall a: nat, b: nat :: Complete(rs, a, b) ==> a <= b < |rs|
  {
  }

  /** This happens if and only if a completed run skips a multiple of 2^16 or joins two frames. */
  lemma FooledExactly(taken: seq<seq<Octet>>, ps: seq<Piece>, ks: seq<nat>)
    requires Stream(taken, ps) && Ascending(ks, |ps|)
    ensures Fooled(ps, ks) <==>
              exists a: nat, b: nat, j: nat :: Complete(Picked(ps, ks), a, b) && a < j <= b && (Skips(ps, ks, j) || Joins(ps, ks, j))
  {
    hide Stream, Unbroken, Skips, Joins;
    BoundedRuns(Picked(ps, ks));
    if Fooled(ps, ks) {
      var a: nat, b: nat :| Complete(Picked(ps, ks), a, b) && !Gapless(ks, a, b);
      GaplessExactly(taken, ps, ks, a, b);
    }
    forall a: nat, b: nat, j: nat | Complete(Picked(ps, ks), a, b) && a < j <= b && (Skips(ps, ks, j) || Joins(ps, ks, j))
      ensures Fooled(ps, ks)
    {
      GaplessExactly(taken, ps, ks, a, b);
    }
  }

  /** The frames that the deliveries belong to. */
  ghost function Selected(rs: seq<Piece>): (sel: seq<nat>)
    ensures |sel| == |Deliveries(rs)|
  {
    if rs == [] then []
    else
      var n := |rs| - 1;
      Selected(rs[..n]) + if rs[n].last && Continued(rs, n) then [rs[n].frame] else []
  }

  /** The deliveries are the frames `sel` in the order in which they were taken. */
  ghost predicate InOrder(taken: seq<seq<Octet>>, sel: seq<nat>, out: seq<seq<Octet>>) {
    && |out| == |sel| && (forall i :: 0 <= i < |sel| ==> sel[i] < |taken| && out[i] == taken[sel[i]])
    && forall i, j :: 0 <= i < j < |sel| ==> sel[i] < sel[j]
  }

  lemma PickedPrefix(ps: seq<Piece>, ks: seq<nat>, n: nat)
    requires Ascending(ks, |ps|) && n <= |ks|
    ensures Ascending(ks[..n], |ps|) && Picked(ps, ks[..n]) == Picked(ps, ks)[..n]
  {
  }

  lemma CompletePrefix(rs: seq<Piece>, n: nat, a: nat, b: nat)
    requires b < n <= |rs|
    ensures Complete(rs[..n], a, b) <==> Complete(rs, a, b)
  {
    hide Low;
    var q := rs[..n];
    assert forall j :: 0 <= j < n ==> q[j] == rs[j];
    if Complete(rs, a, b) {
      assert forall j :: a <= j < b ==> !q[j].last;
    }
    if Complete(q, a, b) {
      assert forall j :: a <= j < b ==> !rs[j].last;
      assert forall j :: a < j <= b ==> rs[j].no != 0 && Low(rs[j].no) == Low(j - a);
    }
  }

  lemma GapsLater(ks: seq<nat>, n: nat, a: nat, b: nat)
    requires a <= b < n <= |ks|
    ensures Gapless(ks, a, b) ==> Gapless(ks[..n], a, b)
  {
    if Gapless(ks, a, b) {
      forall j | a < j <= b ensures NextOne(ks[..n], j) {
        assert NextOne(ks, j);
      }
    }
  }

  lemma FooledPrefix(ps: seq<Piece>, ks: seq<nat>, n: nat)
    requires Ascending(ks, |ps|) && n <= |ks|
    ensures Ascending(ks[..n], |ps|) && (Fooled(ps, ks[..n]) ==> Fooled(ps, ks))
  {
    PickedPrefix(ps, ks, n);
    BoundedRuns(Picked(ps, ks[..n]));
    hide Unbroken, Ascending;
    var rs := Picked(ps, ks);
    if Fooled(ps, ks[..n]) {
      var a: nat, b: nat :| Complete(Picked(ps, ks[..n]), a, b) && !Gapless(ks[..n], a, b);
      CompletePrefix(rs, n, a, b);
      GapsLater(ks, n, a, b);
    }
  }

  /** Deliveries made so far belong to frames before the present one. */
  lemma {:induction false} SelectedBefore(taken: seq<seq<Octet>>, ps: seq<Piece>, ks: seq<nat>, k: nat)
    requires Stream(taken, ps) && Ascending(ks, |ps|) && k < |ps| && forall j :: 0 <= j < |ks| ==> ks[j] < k
    ensures forall i :: 0 <= i < |Selected(Picked(ps, ks))| ==> Selected(Picked(ps, ks))[i] < ps[k].frame
    decreases |ks|
  {
    hide Stream, Unbroken, Deliveries, Continued;
    if ks != [] {
      var n := |ks| - 1;
      PickedPrefix(ps, ks, n);
      SelectedBefore(taken, ps, ks[..n], k);
      StreamOrder(taken, ps, ks[n], k);
    }
  }

  lemma InOrderSnoc(taken: seq<seq<Octet>>, sel: seq<nat>, out: seq<seq<Octet>>, frame: nat)
    requires InOrder(taken, sel, out) && frame < |taken| && forall i :: 0 <= i < |sel| ==> sel[i] < frame
    ensures InOrder(taken, sel + [frame], out + [taken[frame]])
  {
  }

  /** Unless the port is fooled, everything it delivers is a frame that was sent, and in order. */
  lemma {:induction false} InOrderUnlessFooled(taken: seq<seq<Octet>>, ps: seq<Piece>, ks: seq<nat>)
    requires Stream(taken, ps) && Ascending(ks, |ps|) && !Fooled(ps, ks)
    ensures InOrder(taken, Selected(Picked(ps, ks)), Deliveries(Picked(ps, ks)))
    decreases |ks|
  {
    hide Stream, Unbroken, Data, InOrder, Gapless;
    var rs := Picked(ps, ks);
    if ks == [] {
      assert rs == [] && Selected(rs) == [] && Deliveries(rs) == [];
      NothingInOrder(taken);
    } else {
      var n := |ks| - 1;
      FooledPrefix(ps, ks, n);
      PickedPrefix(ps, ks, n);
      InOrderUnlessFooled(taken, ps, ks[..n]);
      if rs[n].last && Continued(rs, n) {
        var a := Start(rs, n);
        StartBound(rs, n);
        assert Complete(rs, a, n);
        GaplessIsFrame(taken, ps, ks, a, n);
        assert Picked(ps, ks) == rs && rs[a..n + 1] == rs[a..];
        SelectedBefore(taken, ps, ks[..n], ks[n]);
        InOrderSnoc(taken, Selected(rs[..n]), Deliveries(rs[..n]), rs[n].frame);
      } else {
        assert Selected(rs) == Selected(rs[..n]) && Deliveries(rs) == Deliveries(rs[..n]);
      }
    }
  }

  lemma NothingInOrder(taken: seq<seq<Octet>>)
    ensures InOrder(taken, [], [])
  {
  }

  lemma DeliveredLast(rs: seq<Piece>, a: nat)
    requires rs != [] && Complete(rs, a, |rs| - 1)
    ensures Data(rs[a..]) in Deliveries(rs) && rs[|rs| - 1].frame in Selected(rs)
  {
    StartUnique(rs, a, |rs| - 1);
    hide Data, Unbroken, Low;
    assert Continued(rs, |rs| - 1);
  }

  lemma DeliveriesGrow(rs: seq<Piece>)
    requires rs != []
    ensures Deliveries(rs[..|rs| - 1]) <= Deliveries(rs) && Selected(rs[..|rs| - 1]) <= Selected(rs)
  {
    hide Data, Unbroken, Low;
  }

  /** What looks like a whole frame is delivered. */
  lemma {:induction false} CompleteDelivered(rs: seq<Piece>, a: nat, b: nat)
    requires Complete(rs, a, b)
    ensures a <= b < |rs| && Data(rs[a..b + 1]) in Deliveries(rs) && rs[b].frame in Selected(rs)
    decreases |rs|
  {
    BoundedRuns(rs);
    var n := |rs| - 1;
    hide Data, Deliveries, Selected, Complete, Low;
    if b == n {
      DeliveredLast(rs, a);
      assert rs[a..b + 1] == rs[a..];
    } else {
      CompletePrefix(rs, n, a, b);
      CompleteDelivered(rs[..n], a, b);
      assert rs[..n][a..b + 1] == rs[a..b + 1];
      DeliveriesGrow(rs);
    }
  }

  /** Consecutive positions that all arrive do so one after the other. */
  lemma {:induction false} Consecutive(ks: seq<nat>, m: nat, c: nat, t: nat)
    requires Ascending(ks, m) && c < |ks| && forall q :: ks[c] <= q <= ks[c] + t ==> q in ks
    ensures c + t < |ks| && ks[c + t] == ks[c] + t
    decreases t
  {
    if t > 0 {
      Consecutive(ks, m, c, t - 1);
      assert ks[c] + t in ks;
      var j :| 0 <= j < |ks| && ks[j] == ks[c] + t;
      assert j > c + (t - 1);
    }
  }

  /** A frame whose pieces all arrive is delivered, whatever happens to the others. */
  lemma WholeArrives(taken: seq<seq<Octet>>, ps: seq<Piece>, ks: seq<nat>, s: nat, e: nat)
    requires Stream(taken, ps) && Ascending(ks, |ps|) && s <= e < |ps|
    requires ps[s].no == 0 && ps[e].last && ps[e].frame == ps[s].frame
    requires forall q :: s <= q <= e ==> q in ks
    ensures ps[e].frame < |taken| && taken[ps[e].frame] in Deliveries(Picked(ps, ks)) && ps[e].frame in Selected(Picked(ps, ks))
  {
    hide Data, Unbroken, Deliveries, Selected, Low;
    assert s in ks;
    var c :| 0 <= c < |ks| && ks[c] == s;
    var b := c + (e - s);
    Consecutive(ks, |ps|, c, e - s);
    forall j | c < j <= b ensures NextOne(ks, j) && Passes(ps, ks, j) {
      Consecutive(ks, |ps|, c, j - c);
      Consecutive(ks, |ps|, c, j - c - 1);
      OneFrame(taken, ps, s, e, ks[j - 1]);
    }
    CompleteExactly(taken, ps, ks, c, b);
    CompleteDelivered(Picked(ps, ks), c, b);
    GaplessIsFrame(taken, ps, ks, c, b);
  }

  lemma OneFrame(taken: seq<seq<Octet>>, ps: seq<Piece>, s: nat, e: nat, i: nat)
    requires Stream(taken, ps) && s <= i < e < |ps| && ps[s].frame == ps[e].frame
    ensures !ps[i].last
  {
    StreamOrder(taken, ps, i, e);
    if s < i {
      StreamOrder(taken, ps, s, i);
    }
  }

  // ----- the sender

  /** The piece that one call of sendFrag has put on the wire. */
  function PieceSent(s: Slot, s': Slot): Piece
    requires s'.taken != [] && s'.fragNo >= 1 && |Left(s')| <= |Source(s, s')|
  {
    var r := Source(s, s');
    Piece(|s'.taken| - 1, s'.fragNo - 1, r[..|r| - |Left(s')|], s'.rest.None?)
  }

  /** What it took them from: the rest of a frame, or the next one. */
  function Source(s: Slot, s': Slot): seq<Octet>
    requires s'.taken != []
  {
    if s.rest.Some? then s.rest.value else s'.taken[|s'.taken| - 1]
  }

  /** The sender after the pieces `ps`. */
  ghost predicate Sender(s: Slot, ps: seq<Piece>) {
    && Stream(s.taken, ps)
    && (ps == [] ==> s.taken == [] && s.rest.None?)
    && (ps != [] ==>
          var p := ps[|ps| - 1];
          && p.frame == |s.taken| - 1 && p.last == s.rest.None?
          && (s.rest.Some? ==> s.fragNo == p.no + 1 <= |ps| && s.rest.value != []
                               && Data(ps[|ps| - 1 - p.no..]) + s.rest.value == s.taken[p.frame]))
  }

  /** The sender with the rest of a frame in hand, first piece or not. */
  ghost predicate Sending(s: Slot, ps: seq<Piece>) {
    && Stream(s.taken, ps) && s.rest.Some? && s.rest.value != [] && s.taken != []
    && s.fragNo <= |ps| && Data(ps[|ps| - s.fragNo..]) + s.rest.value == s.taken[|s.taken| - 1]
    && if ps == [] then s.fragNo == 0 && |s.taken| == 1
       else
         var p := ps[|ps| - 1];
         if s.fragNo == 0 then p.last && p.frame == |s.taken| - 2
         else !p.last && p.frame == |s.taken| - 1 && s.fragNo == p.no + 1
  }

  lemma StreamGrows(taken: seq<seq<Octet>>, taken': seq<seq<Octet>>, ps: seq<Piece>)
    requires Stream(taken, ps) && taken <= taken'
    ensures Stream(taken', ps)
  {
    hide Data;
    forall i | 0 <= i < |ps| ensures Placed(taken', ps, i) {
      assert Placed(taken, ps, i);
    }
  }

  lemma StreamSnoc(taken: seq<seq<Octet>>, ps: seq<Piece>, p: Piece)
    requires Stream(taken, ps) && Placed(taken, ps + [p], |ps|)
    ensures Stream(taken, ps + [p])
  {
    hide Data;
    var q := ps + [p];
    forall i | 0 <= i < |ps| ensures Placed(taken, q, i) {
      assert Placed(taken, ps, i);
      assert q[i - ps[i].no..i + 1] == ps[i - ps[i].no..i + 1];
    }
  }

  lemma BeginsSending(s: Slot, ps: seq<Piece>, frame: seq<Octet>)
    requires Sender(s, ps) && s.rest.None? && frame != []
    ensures Sending(Take(s, frame), ps)
  {
    hide Stream;
    StreamGrows(s.taken, s.taken + [frame], ps);
    assert ps[|ps| - 0..] == [];
    assert [] + frame == frame;
  }

  lemma GoesOnSending(s: Slot, ps: seq<Piece>)
    requires Sender(s, ps) && s.rest.Some?
    ensures Sending(s, ps)
  {
    hide Data;
    if ps != [] {
      assert Placed(s.taken, ps, |ps| - 1);
    }
  }

  lemma EmitsIsPiece(s: Slot, s': Slot, f: seq<Octet>)
    requires Emits(s, s', f) && s.taken != []
    ensures s'.taken == s.taken && s'.dest == s.dest && s'.fragNo == s.fragNo + 1 && |Left(s')| < |s.rest.value|
    ensures var p := PieceSent(s, s');
            && IsPiece(f, p, s.dest) && p.frame == |s.taken| - 1 && p.no == s.fragNo
            && p.data + Left(s') == s.rest.value && (p.last <==> Left(s') == []) && p.last == s'.rest.None?
  {
    hide IsFragment;
    var n := |Left(s)| - |Left(s')|;
    assert Left(s)[..n] + Left(s)[n..] == Left(s);
  }

  /** One fragment of the frame in hand. */
  lemma EmitsPiece(s: Slot, s': Slot, f: seq<Octet>, ps: seq<Piece>)
    requires Sending(s, ps) && Emits(s, s', f)
    ensures s'.taken == s.taken != [] && s'.dest == s.dest && s'.fragNo >= 1 && |Left(s')| <= |s.rest.value|
    ensures var p := PieceSent(s, s'); IsPiece(f, p, s.dest) && Sender(s', ps + [p])
  {
    hide IsPiece, Emits, PieceSent, Left, Stream, Data, Sending, Sender, Placed;
    SendingFacts(s, ps);
    EmitsIsPiece(s, s', f);
    NextPlaced(s, ps, PieceSent(s, s'), Left(s'));
    StreamSnoc(s.taken, ps, PieceSent(s, s'));
    SenderAfter(s, s', ps, PieceSent(s, s'));
  }

  lemma SendingFacts(s: Slot, ps: seq<Piece>)
    requires Sending(s, ps)
    ensures Stream(s.taken, ps) && s.taken != [] && s.rest.Some? && s.fragNo <= |ps|
  {
    hide Stream, Data;
  }

  /** The next piece has its place in the stream. */
  lemma NextPlaced(s: Slot, ps: seq<Piece>, p: Piece, left: seq<Octet>)
    requires Sending(s, ps) && p.frame == |s.taken| - 1 && p.no == s.fragNo
    requires p.data + left == s.rest.value && (p.last <==> left == [])
    ensures Placed(s.taken, ps + [p], |ps|) && Data((ps + [p])[|ps| - p.no..]) + left == s.taken[p.frame]
  {
    hide Stream, Data;
    var q := ps + [p];
    assert q[|ps| - p.no..|ps| + 1] == q[|ps| - p.no..] == ps[|ps| - p.no..] + [p];
    DataSnoc(ps[|ps| - p.no..], p);
    SplitFrame(Data(ps[|ps| - p.no..]), p.data, left, s.taken[p.frame]);
  }

  lemma SenderAfter(s: Slot, s': Slot, ps: seq<Piece>, p: Piece)
    requires Stream(s.taken, ps + [p]) && s'.taken == s.taken && p.frame == |s.taken| - 1 && p.no == s.fragNo <= |ps|
    requires s'.fragNo == s.fragNo + 1 && p.last == s'.rest.None? && (p.last <==> Left(s') == [])
    requires Data((ps + [p])[|ps| - p.no..]) + Left(s') == s.taken[p.frame]
    ensures Sender(s', ps + [p])
  {
    hide Stream, Data;
  }

  lemma SplitFrame(a: seq<Octet>, d: seq<Octet>, r: seq<Octet>, frame: seq<Octet>)
    requires a + (d + r) == frame
    ensures a + d <= frame && (a + d == frame <==> r == []) && (a + d) + r == frame
  {
    assert a + (d + r) == (a + d) + r;
  }

  /** Every fragment that is sent is the next piece of the stream. */
  lemma WorksPiece(s: Slot, s': Slot, f: seq<Octet>, ps: seq<Piece>)
    requires Sender(s, ps) && Works(s, s', f)
    ensures s.taken <= s'.taken != [] && s'.dest == s.dest && s'.fragNo >= 1 && |Left(s')| <= |Source(s, s')|
    ensures var p := PieceSent(s, s'); IsPiece(f, p, s.dest) && Sender(s', ps + [p])
  {
    hide Emits, Sender, Sending, IsPiece;
    if Emits(s, s', f) {
      EmitsSame(s, s', f);
      GoesOnSending(s, ps);
      EmitsPiece(s, s', f, ps);
    } else {
      var frame: seq<Octet> :| frame != [] && Emits(Take(s, frame), s', f);
      BeginsSending(s, ps, frame);
      EmitsPiece(Take(s, frame), s', f, ps);
      assert PieceSent(s, s') == PieceSent(Take(s, frame), s');
    }
  }
}

/** The two buffers of an RSSI endpoint as the program keeps them: circular arrays addressed by
    free-running 32-bit indices (src/cpsw_rssi.h).

    `RingBuf.View` and `ReassembleBuf.Window` are the values that the specification works with;
    the methods are proved against `RssiEndpoint.RingAck`, `RssiEndpoint.RingReserve`,
    `RssiEndpoint.Store` and `RssiEndpoint.PopFront`. */
module RssiBuffers {
  import opened Wrappers
  import opened CircularIndex
  import opened RssiSegments
  import opened RssiEndpoint

  type Slots = seq<Option<Segment>>

  /** The first n slots are filled and the others are empty. */
  predicate FilledUpTo(s: Slots, n: nat) {
    && n <= |s|
    && (forall k :: 0 <= k < n ==> s[k].Some?)
    && (forall k :: n <= k < |s| ==> s[k].None?)
  }

  function Values(s: Slots, n: nat): (r: seq<Segment>)
    requires FilledUpTo(s, n)
    ensures |r| == n
  {
    seq(n, k requires 0 <= k < n => s[k].value)
  }

  /** Emptying the front slot and advancing the read index drops the first value. */
  lemma PopSlots(s: Slots, rp: Word, ld: nat, n: nat)
    requires |s| == Pow2(ld) && ld < 32 && FilledUpTo(Rot(s, rp), n)
    ensures var s' := s[Slot(rp, 0, |s|) := None];
            && (n == 0 ==> s' == s)
            && (n > 0 ==> FilledUpTo(Rot(s', Inc(rp)), n - 1))
            && (n > 0 ==> Values(Rot(s', Inc(rp)), n - 1) == Values(Rot(s, rp), n)[1..])
            && (s[Slot(rp, 0, |s|)] == if n == 0 then None else Some(Values(Rot(s, rp), n)[0]))
  {
    var i := Slot(rp, 0, |s|);
    var s' := s[i := None];
    assert Rot(s, rp)[0] == s[i];
    if n > 0 {
      RotSet(s, rp, 0, None);
      RotNext(s', rp, ld);
      assert Rot(s', Inc(rp)) == Rot(s, rp)[1..] + [None];
    }
  }

  /** Rewriting slot k rewrites the k-th value. */
  lemma RewriteSlots(s: Slots, rp: nat, n: nat, k: nat, x: Segment)
    requires k < n <= |s| && FilledUpTo(Rot(s, rp), n)
    ensures var s' := s[Slot(rp, k, |s|) := Some(x)];
            && FilledUpTo(Rot(s', rp), n)
            && Values(Rot(s', rp), n) == Values(Rot(s, rp), n)[k := x]
  {
    RotSet(s, rp, k, Some(x));
  }

  /** Filling slot n appends a value. */
  lemma PushSlots(s: Slots, rp: nat, n: nat, x: Segment)
    requires n < |s| && FilledUpTo(Rot(s, rp), n)
    ensures var s' := s[Slot(rp, n, |s|) := Some(x)];
            && FilledUpTo(Rot(s', rp), n + 1)
            && Values(Rot(s', rp), n + 1) == Values(Rot(s, rp), n) + [x]
  {
    RotSet(s, rp, n, Some(x));
  }

  lemma TakeSnoc<T>(s: seq<T>, i: nat)
    requires i < |s|
    ensures s[..i + 1] == s[..i] + [s[i]]
  {
  }

  /** The smallest power of two that is at least `want`. */
  method RoundUp(want: nat) returns (capa: nat, ghost ld: nat)
    requires want < 0x1_0000
    ensures capa == Pow2(ld) == GrowTo(1, want) && ld < 32
  {
    assert Pow2(8) == 256;
    Pow2Add(8, 8);
    capa, ld := 1, 0;
    while capa < want
      invariant capa == Pow2(ld) && GrowTo(capa, want) == GrowTo(1, want) && ld <= 16
      decreases want - capa
    {
      Pow2Mono(16, if ld < 16 then 16 else ld);
      capa := 2 * capa;
      ld := ld + 1;
    }
  }

  class RingBuf {
    var buf: array<Option<Segment>>
    ghost var ld: nat
    var rp: Word
    var wp: Word
    var oldest: Byte

    /** (unsigned)(wp_ - rp_) */
    function GetSize(): Word
      reads this
    {
      Minus(wp, rp)
    }

    ghost function Live(): Slots
      reads this, buf
    {
      if buf.Length == 0 then [] else Rot(buf[..], rp)
    }

    ghost predicate Valid()
      reads this, buf
    {
      && ld < 32 && buf.Length == Pow2(ld)
      && FilledUpTo(Live(), GetSize())
    }

    ghost function View(): (r: Ring)
      requires Valid()
      reads this, buf
      ensures |r.segs| == GetSize() <= r.capa == buf.Length && r.oldest == oldest
    {
      Ring(oldest, Values(Live(), GetSize()), buf.Length)
    }

    constructor (ldsz: nat, garbage: Byte)
      requires ldsz < 32
      ensures Valid() && fresh(buf)
      ensures View() == Ring(garbage, [], Pow2(ldsz))
    {
      buf := new Option<Segment>[Pow2(ldsz)](_ => None);
      ld := ldsz;
      rp := 0;
      wp := 0;
      oldest := garbage;
    }

    /** BufBase::pop */
    method Pop() returns (r: Option<Segment>)
      requires Valid()
      modifies this, buf
      ensures Valid() && buf == old(buf) && wp == old(wp)
      ensures old(View()).segs == [] ==> r == None && View() == old(View())
      ensures old(View()).segs != [] ==>
        && r == Some(old(View()).segs[0])
        && View() == old(View()).(oldest := Nxt(old(oldest)), segs := old(View()).segs[1..])
    {
      ghost var n := GetSize();
      ghost var b := buf[..];
      PopSlots(b, rp, ld, n);
      hide Rot, Values, FilledUpTo;
      var i := Slot(rp, 0, buf.Length);
      r := buf[i];
      buf[i] := None;
      assert buf[..] == b[i := None];
      if r.Some? {
        rp := Inc(rp);
        oldest := Nxt(oldest);
        assert GetSize() == n - 1;
      }
    }

    /** Returns the number of segments removed, or -1 for a number outside the window. */
    method Ack(ackNo: Byte) returns (r: int)
      requires Valid()
      modifies this, buf
      ensures Valid() && buf == old(buf) && wp == old(wp)
      ensures View() == RingAck(old(View()), ackNo)
      ensures r == -1 || r == AckCount(old(View()), ackNo)
      ensures r == -1 ==> AckCount(old(View()), ackNo) == 0
    {
      var cumAck := (ackNo - oldest + 1) % 256;
      if cumAck > GetSize() {
        return -1;
      }
      var i := 0;
      ghost var v := View();
      NumZero(v.oldest);
      assert v.segs[0..] == v.segs;
      hide Num, Nxt;
      while i < cumAck
        invariant 0 <= i <= cumAck <= |v.segs|
        invariant Valid() && buf == old(buf) && wp == old(wp)
        invariant View() == Ring(Num(v.oldest, i), v.segs[i..], v.capa)
      {
        NumNext(v.oldest, i);
        var _ := Pop();
        i := i + 1;
      }
      return cumAck;
    }

    /** The guard only rules out a ring that is already beyond its capacity.  A ring that is
        exactly full loses its oldest segment; below that the segment is appended. */
    method Push(b: Segment) returns (overflow: bool)
      requires Valid()
      modifies this, buf
      ensures buf == old(buf) && rp == old(rp) && oldest == old(oldest) && !overflow
      ensures old(GetSize()) < buf.Length ==> Valid() && View() == old(View()).(segs := old(View()).segs + [b])
      ensures old(GetSize()) == buf.Length ==> GetSize() == buf.Length + 1 && buf[Slot(rp, 0, buf.Length)] == Some(b)
    {
      hide Values;
      Pow2Below(ld);
      ghost var n := GetSize();
      if GetSize() > buf.Length {
        return true;
      }
      ghost var s := buf[..];
      SlotAdvance(rp, n, ld);
      if n < |s| {
        PushSlots(s, rp, n, b);
      } else {
        ModShift(rp, 1, |s|);
      }
      hide Rot, Values, FilledUpTo;
      assert wp == Advance(rp, n);
      buf[Slot(wp, 0, buf.Length)] := Some(b);
      assert buf[..] == s[Slot(rp, n, |s|) := Some(b)];
      wp := Inc(wp);
      return false;
    }

    /** All segments, popped in order. */
    method PopAll() returns (tmp: seq<Segment>)
      requires Valid()
      modifies this, buf
      ensures Valid() && buf == old(buf) && tmp == old(View()).segs && View().segs == []
    {
      ghost var v := View();
      var sz := GetSize();
      tmp := [];
      while |tmp| < sz
        invariant |tmp| <= sz == |v.segs| && tmp == v.segs[..|tmp|]
        invariant Valid() && buf == old(buf) && View().segs == v.segs[|tmp|..]
      {
        var b := Pop();
        tmp := tmp + [b.value];
      }
    }

    /** An empty array of another size. */
    method Restart(capa: nat, ghost l: nat)
      requires l < 32 && capa == Pow2(l)
      modifies this
      ensures Valid() && fresh(buf) && View() == Ring(oldest, [], capa)
    {
      buf := new Option<Segment>[capa](_ => None);
      ld := l;
      rp := 0;
      wp := 0;
    }

    /** Resizing to a larger power of two keeps the contents; the indices restart at zero. */
    method Resize(newCapa: nat)
      requires Valid() && buf.Length < newCapa < 0x1_0000
      modifies this, buf
      ensures Valid() && fresh(buf)
      ensures View() == RingReserve(old(View()), newCapa)
    {
      var tmpo := oldest;
      var tmp := PopAll();
      var capa, l := RoundUp(newCapa);
      Restart(capa, l);
      Seed(tmpo);
      hide Rot, Values, FilledUpTo;
      var i := 0;
      while i < |tmp|
        invariant 0 <= i <= |tmp| < capa
        invariant Valid() && fresh(buf) && View() == Ring(tmpo, tmp[..i], capa)
      {
        TakeSnoc(tmp, i);
        var _ := Push(tmp[i]);
        i := i + 1;
      }
      assert tmp[..i] == tmp;
    }

    method Seed(seqNo: Byte)
      requires Valid()
      modifies this`oldest
      ensures Valid() && View() == old(View()).(oldest := seqNo)
    {
      oldest := seqNo;
    }

    method Purge()
      requires Valid()
      modifies this, buf
      ensures Valid() && buf == old(buf)
      ensures View() == Ring(Num(old(oldest), |old(View()).segs|), [], buf.Length)
    {
      ghost var v := View();
      ghost var i := 0;
      NumZero(v.oldest);
      assert v.segs[0..] == v.segs;
      hide Num, Nxt, Rot, Values, FilledUpTo;
      var more := true;
      while more
        invariant Valid() && buf == old(buf) && 0 <= i <= |v.segs|
        invariant View() == Ring(Num(v.oldest, i), v.segs[i..], v.capa)
        invariant !more ==> i == |v.segs|
        decreases |v.segs| - i, more
      {
        NumNext(v.oldest, i);
        var r := Pop();
        more := r.Some?;
        i := if more then i + 1 else i;
      }
    }

    /** The k-th kept segment, through an iterator that has been advanced k times. */
    method Deref(idx: Word, ghost k: nat) returns (r: Option<Segment>)
      requires Valid() && k <= GetSize() && idx == Advance(rp, k)
      ensures r == if k == GetSize() then None else Some(View().segs[k])
    {
      Pow2Below(ld);
      if idx == wp {
        return None;
      }
      SlotAdvance(rp, k, ld);
      assert Live()[k] == buf[Slot(idx, 0, buf.Length)];
      return buf[Slot(idx, 0, buf.Length)];
    }

    /** Rewriting the header of a kept segment through the iterator. */
    method Rewrite(idx: Word, ghost k: nat, x: Segment)
      requires Valid() && k < GetSize() && idx == Advance(rp, k)
      modifies buf
      ensures Valid() && View() == old(View()).(segs := old(View()).segs[k := x])
    {
      Pow2Below(ld);
      SlotAdvance(rp, k, ld);
      RewriteSlots(buf[..], rp, GetSize(), k, x);
      ghost var s := buf[..];
      hide Rot, Values, FilledUpTo;
      buf[Slot(idx, 0, buf.Length)] := Some(x);
      assert buf[..] == s[Slot(rp, k, |s|) := Some(x)];
    }
  }

  class ReassembleBuf {
    const buf: array<Option<Segment>>
    ghost const ld: nat
    const lim: nat
    var rp: Word
    var oldest: Byte

    ghost predicate Valid()
      reads this, buf
    {
      ld < 8 && buf.Length == lim == Pow2(ld)
    }

    /** The slots in the order of the numbers oldest, oldest + 1, ... */
    ghost function Window(): (w: Slots)
      requires Valid()
      reads this, buf
      ensures |w| == lim
    {
      Rot(buf[..], rp)
    }

    constructor (ldCapa: nat, garbage: Byte)
      requires ldCapa < 8
      ensures Valid() && fresh(buf) && lim == Pow2(ldCapa) && oldest == garbage
      ensures Window() == seq(lim, _ => None)
    {
      buf := new Option<Segment>[Pow2(ldCapa)](_ => None);
      ld := ldCapa;
      lim := Pow2(ldCapa);
      rp := 0;
      oldest := garbage;
    }

    method CanAccept(seqNo: Byte) returns (ok: bool)
      requires Valid()
      ensures ok == (Sub(seqNo, oldest) < |Window()|)
    {
      return Sub(seqNo, oldest) < lim;
    }

    /** Throws (returns false) outside the acceptance window. */
    method Store(seqNo: Byte, b: Segment) returns (ok: bool)
      requires Valid()
      modifies buf
      ensures Valid()
      ensures ok == (Sub(seqNo, oldest) < lim)
      ensures Window() == if ok then old(Window())[Sub(seqNo, oldest) := Some(b)] else old(Window())
    {
      var off := Sub(seqNo, oldest);
      if off < lim {
        RotSet(buf[..], rp, off, Some(b));
        ghost var s := buf[..];
        buf[Slot(rp, off, buf.Length)] := Some(b);
        assert buf[..] == s[Slot(rp, off, |s|) := Some(b)];
        return true;
      }
      return false;
    }

    method Peek() returns (r: Option<Segment>)
      requires Valid()
      ensures r == Window()[0]
    {
      r := buf[Slot(rp, 0, buf.Length)];
    }

    method Pop() returns (r: Option<Segment>)
      requires Valid()
      modifies this, buf
      ensures Valid() && r == old(Window())[0]
      ensures r.Some? ==> Window() == old(Window())[1..] + [None] && oldest == Nxt(old(oldest))
      ensures r.None? ==> Window() == old(Window()) && oldest == old(oldest)
    {
      ghost var s := buf[..];
      RotSet(s, rp, 0, None);
      var i := Slot(rp, 0, buf.Length);
      RotNext(s[i := None], rp, ld);
      assert Rot(s, rp)[0] == s[i];
      r := buf[i];
      buf[i] := None;
      assert buf[..] == s[i := None];
      if r.Some? {
        rp := Inc(rp);
        oldest := Nxt(oldest);
        assert Window() == old(Window())[1..] + [None];
      } else {
        assert buf[..] == s;
      }
    }

    method Seed(seqNo: Byte)
      requires Valid()
      modifies this`oldest
      ensures Valid() && oldest == seqNo && Window() == old(Window())
    {
      oldest := seqNo;
    }

    /** Unlike the ring's, this purge keeps the indices. */
    method Purge()
      requires Valid()
      modifies buf
      ensures Valid() && Window() == seq(lim, _ => None)
    {
      var i := 0;
      while i < buf.Length
        invariant 0 <= i <= buf.Length && forall k :: 0 <= k < i ==> buf[k].None?
      {
        buf[i] := None;
        i := i + 1;
      }
      assert Window() == seq(lim, _ => None);
    }

    function GetLastInOrder(): Byte
      reads this
    {
      (oldest - 1) % 256
    }
  }
}

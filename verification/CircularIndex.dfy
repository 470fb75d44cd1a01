/** Indices into circular buffers.

    The program keeps free-running unsigned indices into buffers whose capacity is a power of
    two and masks them on access; `i & (capa - 1)` is written `i % capa`. */
module CircularIndex {
  function Pow2(n: nat): (r: nat)
    ensures r >= 1
  {
    if n == 0 then 1 else 2 * Pow2(n - 1)
  }

  lemma {:induction false} Pow2Mono(a: nat, b: nat)
    requires a <= b
    ensures Pow2(a) <= Pow2(b)
    decreases b
  {
    if a < b {
      Pow2Mono(a, b - 1);
    }
  }

  /** Number of values of an unsigned int. */
  const WORD: nat := 0x1_0000_0000

  /** unsigned int */
  type Word = i: nat | i < WORD

  /** ++ and - on unsigned int. */
  function Inc(i: Word): Word {
    if i + 1 == WORD then 0 else i + 1
  }

  function Minus(a: Word, b: Word): Word {
    if a >= b then a - b else a + WORD - b
  }

  /** i + k on unsigned int, for k below the wrap-around. */
  function Advance(i: Word, k: Word): Word {
    if i + k >= WORD then i + k - WORD else i + k
  }

  lemma {:induction false} Pow2Add(a: nat, b: nat)
    ensures Pow2(a + b) == Pow2(a) * Pow2(b)
  {
    if a > 0 {
      Pow2Add(a - 1, b);
    }
  }

  /** A power of two up to 2^32 divides the index range, so wrapping does not disturb a slot. */
  lemma WrapSlot(i: nat, ld: nat)
    requires ld <= 32
    ensures (i % WORD) % Pow2(ld) == i % Pow2(ld)
  {
    Pow2Add(ld, 32 - ld);
    Pow2Word();
    ModMod(i, Pow2(ld), Pow2(32 - ld));
  }

  lemma Pow2Word()
    ensures Pow2(32) == WORD
  {
    assert Pow2(8) == 256;
    Pow2Add(8, 8);
    Pow2Add(16, 16);
  }

  /** Quotient and remainder are unique. */
  lemma DivModUnique(x: int, c: int, q: int, r: int)
    requires c > 0 && 0 <= r < c && x == c * q + r
    ensures x / c == q && x % c == r
  {
    var d := q - x / c;
    assert c * d == x % c - r by {
      assert x == c * (x / c) + x % c;
      assert c * d == c * q - c * (x / c);
    }
    if d >= 1 {
      MulAtLeast(c, d);
    } else if d <= -1 {
      MulAtLeast(c, -d);
    }
  }

  lemma {:induction false} MulAtLeast(c: int, d: int)
    requires c > 0 && d >= 1
    ensures c * d >= c
    decreases d
  {
    if d > 1 {
      MulAtLeast(c, d - 1);
      assert c * d == c * (d - 1) + c;
    }
  }

  lemma ModShift(r: nat, q: int, c: nat)
    requires c > 0 && c * q + r >= 0
    ensures (c * q + r) % c == r % c
  {
    assert c * q + r == c * (q + r / c) + r % c by {
      assert r == c * (r / c) + r % c;
      assert c * (q + r / c) == c * q + c * (r / c);
    }
    DivModUnique(c * q + r, c, q + r / c, r % c);
  }

  lemma ModMod(i: nat, c: nat, m: nat)
    requires c > 0 && m > 0
    ensures c * m > 0 && (i % (c * m)) % c == i % c
  {
    MulAtLeast(c, m);
    var q := i / (c * m);
    var r := i % (c * m);
    assert i == c * (m * q) + r by {
      assert i == (c * m) * q + r;
      assert (c * m) * q == c * (m * q);
    }
    ModShift(r, m * q, c);
  }

  /** Indices less than one capacity apart occupy different slots. */
  lemma SlotsDiffer(i: nat, j: nat, c: nat)
    requires 0 < c && i < j < i + c
    ensures i % c != j % c
  {
    var d := j / c - i / c;
    assert j - i == c * d + (j % c - i % c) by {
      assert j == c * (j / c) + j % c && i == c * (i / c) + i % c;
      assert c * d == c * (j / c) - c * (i / c);
    }
    if d >= 1 {
      MulAtLeast(c, d);
    } else if d <= -1 {
      MulAtLeast(c, -d);
    }
  }

  function Slot(rp: nat, k: nat, capa: nat): (s: nat)
    requires capa > 0
    ensures s < capa
  {
    (rp + k) % capa
  }

  /** Moving the read index by one, with wrap-around, shifts every slot by one. */
  lemma SlotNext(rp: Word, k: nat, ld: nat)
    requires ld <= 32
    ensures Slot(Inc(rp), k, Pow2(ld)) == Slot(rp, k + 1, Pow2(ld))
  {
    SlotAdd(rp, 1, k, ld);
    assert (rp + 1) % WORD == Inc(rp);
  }

  lemma SlotAdd(rp: nat, n: nat, k: nat, ld: nat)
    requires ld <= 32
    ensures Slot((rp + n) % WORD, k, Pow2(ld)) == Slot(rp, n + k, Pow2(ld))
  {
    WrapSlot(rp + n, ld);
    var c := Pow2(ld);
    ModAdd((rp + n) % WORD, rp + n, k, c);
  }

  lemma ModAdd(a: nat, b: nat, k: nat, c: nat)
    requires c > 0 && a % c == b % c
    ensures (a + k) % c == (b + k) % c
  {
    assert a + k == c * (a / c) + (a % c + k);
    assert b + k == c * (b / c) + (b % c + k);
    ModShift(a % c + k, a / c, c);
    ModShift(b % c + k, b / c, c);
  }

  // ----- a circular array read from an index

  /** The elements of s in order, starting at slot `rp`. */
  function Rot<T>(s: seq<T>, rp: nat): (r: seq<T>)
    requires s != []
    ensures |r| == |s|
    ensures forall k :: 0 <= k < |r| ==> r[k] == s[Slot(rp, k, |s|)]
  {
    seq(|s|, k requires 0 <= k => s[Slot(rp, k, |s|)])
  }

  /** Writing the k-th slot counted from `rp` changes the k-th element and no other. */
  lemma RotSet<T>(s: seq<T>, rp: nat, k: nat, x: T)
    requires k < |s|
    ensures Rot(s[Slot(rp, k, |s|) := x], rp) == Rot(s, rp)[k := x]
  {
    var s' := s[Slot(rp, k, |s|) := x];
    forall j | 0 <= j < |s|
      ensures Rot(s', rp)[j] == Rot(s, rp)[k := x][j]
    {
      if j < k {
        SlotsDiffer(rp + j, rp + k, |s|);
      } else if k < j {
        SlotsDiffer(rp + k, rp + j, |s|);
      }
    }
  }

  /** Advancing the read index, with wrap-around, moves the first element to the end. */
  lemma RotNext<T>(s: seq<T>, rp: Word, ld: nat)
    requires |s| == Pow2(ld) && ld <= 32
    ensures Rot(s, Inc(rp)) == Rot(s, rp)[1..] + Rot(s, rp)[..1]
  {
    forall j | 0 <= j < |s|
      ensures Rot(s, Inc(rp))[j] == (Rot(s, rp)[1..] + Rot(s, rp)[..1])[j]
    {
      SlotNext(rp, j, ld);
      if j == |s| - 1 {
        ModShift(rp, 1, |s|);
      }
    }
  }

  lemma SlotAdvance(rp: Word, k: Word, ld: nat)
    requires ld <= 32
    ensures Slot(Advance(rp, k), 0, Pow2(ld)) == Slot(rp, k, Pow2(ld))
  {
    SlotAdd(rp, k, 0, ld);
    assert (rp + k) % WORD == Advance(rp, k);
  }

  lemma {:induction false} Pow2Below(ld: nat)
    requires ld < 32
    ensures Pow2(ld) < WORD
  {
    Pow2Word();
    Pow2Mono(ld, 31);
    assert Pow2(32) == 2 * Pow2(31);
  }
}

/** Octets and their bits. */
module Octets {

  type Octet = bv8

  /** Bit j of b, least significant first. */
  predicate Bit(b: Octet, j: nat)
    requires j < 8
  {
    b & (1 << j) != 0
  }

  function BitVal(x: bool, j: nat): Octet
    requires j < 8
  {
    if x then 1 << j else 0
  }

  /** The octet with the given bits. */
  function MkOctet(s: seq<bool>): (b: Octet)
    requires |s| == 8
  {
    BitVal(s[0], 0) | BitVal(s[1], 1) | BitVal(s[2], 2) | BitVal(s[3], 3)
    | BitVal(s[4], 4) | BitVal(s[5], 5) | BitVal(s[6], 6) | BitVal(s[7], 7)
  }

  lemma BitMk(s: seq<bool>, j: nat)
    requires |s| == 8 && j < 8
    ensures Bit(MkOctet(s), j) == s[j]
  {
    var b := MkOctet(s);
    assert Bit(b, 0) == s[0] && Bit(b, 1) == s[1] && Bit(b, 2) == s[2] && Bit(b, 3) == s[3];
    assert Bit(b, 4) == s[4] && Bit(b, 5) == s[5] && Bit(b, 6) == s[6] && Bit(b, 7) == s[7];
  }

  /** Octets with the same bits are equal. */
  lemma BitExt(a: Octet, b: Octet)
    requires forall j :: 0 <= j < 8 ==> Bit(a, j) == Bit(b, j)
    ensures a == b
  {
    assert Bit(a, 0) == Bit(b, 0) && Bit(a, 1) == Bit(b, 1) && Bit(a, 2) == Bit(b, 2) && Bit(a, 3) == Bit(b, 3);
    assert Bit(a, 4) == Bit(b, 4) && Bit(a, 5) == Bit(b, 5) && Bit(a, 6) == Bit(b, 6) && Bit(a, 7) == Bit(b, 7);
  }

  /** (old & m) | (new & ~m) takes the bits of m from old and the others from new. */
  function Merge(old_: Octet, new_: Octet, m: Octet): Octet {
    (old_ & m) | (new_ & !m)
  }

  lemma MergeNone(o: Octet, n: Octet)
    ensures Merge(o, n, 0) == n
  {
  }

  lemma BitMerge(o: Octet, n: Octet, m: Octet, j: nat)
    requires j < 8
    ensures Bit(Merge(o, n, m), j) == if Bit(m, j) then Bit(o, j) else Bit(n, j)
  {
    match j
    case 0 =>
    case 1 =>
    case 2 =>
    case 3 =>
    case 4 =>
    case 5 =>
    case 6 =>
    case 7 =>
  }

  /** (1 << k) - 1 */
  function LowMask(k: nat): Octet
    requires k < 8
  {
    (1 << k) - 1
  }

  lemma BitLowMask(k: nat, j: nat)
    requires k < 8 && j < 8
    ensures Bit(LowMask(k), j) == (j < k)
    ensures Bit(!LowMask(k), j) == (j >= k)
  {
  }

  lemma NoBits(j: nat)
    requires j < 8
    ensures !Bit(0, j)
  {
    match j
    case 0 => case 1 => case 2 => case 3 => case 4 => case 5 => case 6 => case 7 =>
  }

  lemma BitOr(a: Octet, b: Octet, j: nat)
    requires j < 8
    ensures Bit(a | b, j) == (Bit(a, j) || Bit(b, j))
  {
    match j
    case 0 => case 1 => case 2 => case 3 => case 4 => case 5 => case 6 => case 7 =>
  }

  lemma BitAndNot(a: Octet, b: Octet, j: nat)
    requires j < 8
    ensures Bit(a & !b, j) == (Bit(a, j) && !Bit(b, j))
  {
    match j
    case 0 => case 1 => case 2 => case 3 => case 4 => case 5 => case 6 => case 7 =>
  }

  /** Shifts; k may be 8. */
  function Shr(b: Octet, k: nat): Octet
    requires k <= 8
  {
    b >> k
  }

  function Shl(b: Octet, k: nat): Octet
    requires k <= 8
  {
    b << k
  }

  lemma BitHalf(b: Octet, j: nat)
    requires j < 8
    ensures Bit(Shr(b, 1), j) == (j + 1 < 8 && Bit(b, j + 1))
  {
    match j
    case 0 => case 1 => case 2 => case 3 => case 4 => case 5 => case 6 => case 7 =>
  }

  lemma ShrAgain(b: Octet, k: nat)
    requires 1 <= k <= 8
    ensures Shr(b, k) == Shr(Shr(b, k - 1), 1)
  {
    match k
    case 1 => case 2 => case 3 => case 4 => case 5 => case 6 => case 7 => case 8 =>
  }

  lemma ShrNone(b: Octet)
    ensures Shr(b, 0) == b
  {
  }

  lemma {:induction false} BitShr(b: Octet, k: nat, j: nat)
    requires k <= 8 && j < 8
    ensures Bit(Shr(b, k), j) == (j + k < 8 && Bit(b, j + k))
    decreases k
  {
    hide Bit, Shr;
    if k == 0 {
      ShrNone(b);
    } else {
      ShrAgain(b, k);
      BitHalf(Shr(b, k - 1), j);
      if j + 1 < 8 {
        BitShr(b, k - 1, j + 1);
      }
    }
  }

  lemma BitShl(b: Octet, k: nat, j: nat)
    requires k <= 8 && j < 8
    ensures Bit(Shl(b, k), j) == (j >= k && Bit(b, j - k))
  {
    match k
    case 0 => case 1 => case 2 => case 3 => case 4 => case 5 => case 6 => case 7 => case 8 =>
  }
}

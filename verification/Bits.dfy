/** Numbers as bit strings, least significant bit first, and the bit strings of octet sequences. */
module Bits {
  import opened CircularIndex
  import opened Octets

  function ToBits(n: nat, w: nat): (s: seq<bool>)
    ensures |s| == w
    decreases w
  {
    if w == 0 then [] else [n % 2 == 1] + ToBits(n / 2, w - 1)
  }

  function FromBits(s: seq<bool>): nat
    decreases |s|
  {
    if s == [] then 0 else (if s[0] then 1 else 0) + 2 * FromBits(s[1..])
  }

  lemma {:induction false} FromBitsBound(s: seq<bool>)
    ensures FromBits(s) < Pow2(|s|)
    decreases |s|
  {
    if s != [] {
      FromBitsBound(s[1..]);
    }
  }

  /** Writing a number into w bits reduces it modulo 2^w. */
  lemma {:induction false} FromToBits(n: nat, w: nat)
    ensures FromBits(ToBits(n, w)) == n % Pow2(w)
    decreases w
  {
    if w > 0 {
      FromToBits(n / 2, w - 1);
      assert ToBits(n, w)[1..] == ToBits(n / 2, w - 1);
      HalfMod(n, Pow2(w - 1));
    }
  }

  lemma HalfMod(n: nat, p: nat)
    requires p > 0
    ensures n % (2 * p) == n % 2 + 2 * ((n / 2) % p)
  {
    var q, r := (n / 2) / p, (n / 2) % p;
    assert n / 2 == p * q + r;
    assert (2 * p) * q == 2 * (p * q);
    assert n == (2 * p) * q + (n % 2 + 2 * r);
    DivModUnique(n, 2 * p, q, n % 2 + 2 * r);
  }

  lemma {:induction false} ToFromBits(s: seq<bool>)
    ensures ToBits(FromBits(s), |s|) == s
    decreases |s|
  {
    if s != [] {
      ToFromBits(s[1..]);
      var n := FromBits(s);
      assert n / 2 == FromBits(s[1..]) && (n % 2 == 1) == s[0];
    }
  }

  /** The low bits do not depend on how many are written. */
  lemma {:induction false} ToBitsTake(n: nat, k: nat, w: nat)
    requires k <= w
    ensures ToBits(n, w)[..k] == ToBits(n, k)
    decreases k
  {
    if k > 0 {
      ToBitsTake(n / 2, k - 1, w - 1);
      assert ToBits(n, w)[..k] == [n % 2 == 1] + ToBits(n / 2, w - 1)[..k - 1];
    }
  }

  /** Bit i of an octet sequence; octet 0 holds the least significant bits. */
  predicate BitAt(p: seq<Octet>, i: nat)
    requires i < 8 * |p|
  {
    Bit(p[i / 8], i % 8)
  }

  lemma OctetBit(p: seq<Octet>, k: nat, j: nat)
    requires k < |p| && j < 8
    ensures BitAt(p, 8 * k + j) == Bit(p[k], j)
  {
    assert (8 * k + j) / 8 == k && (8 * k + j) % 8 == j;
  }

  /** Octet sequences with the same bits are equal. */
  lemma SameBits(a: seq<Octet>, b: seq<Octet>)
    requires |a| == |b| && forall i :: 0 <= i < 8 * |a| ==> BitAt(a, i) == BitAt(b, i)
    ensures a == b
  {
    forall k | 0 <= k < |a|
      ensures a[k] == b[k]
    {
      forall j | 0 <= j < 8
        ensures Bit(a[k], j) == Bit(b[k], j)
      {
        assert BitAt(a, 8 * k + j) == BitAt(b, 8 * k + j);
      }
      BitExt(a[k], b[k]);
    }
  }

  /** The octets with the given bits. */
  function Pack(n: nat, f: seq<bool>): (p: seq<Octet>)
    requires |f| == 8 * n
    ensures |p| == n
  {
    seq(n, k requires 0 <= k < n => MkOctet(f[8 * k..8 * k + 8]))
  }

  lemma PackBit(n: nat, f: seq<bool>, i: nat)
    requires |f| == 8 * n && i < 8 * n
    ensures BitAt(Pack(n, f), i) == f[i]
  {
    BitMk(f[8 * (i / 8)..8 * (i / 8) + 8], i % 8);
  }
}

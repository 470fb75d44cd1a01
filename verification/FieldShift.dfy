/** The octet loops of Swapper, BitShifter and SignExtender (src/cpsw_sval.cc), in place on part
    of an array. */
module FieldShift {
  import opened CircularIndex
  import opened Octets
  import opened Bits
  import opened FieldCodec

  // ----- octets

  /** Bits come in from the next higher octet. */
  function ShrOctet(b: Octet, hi: Octet, k: nat): Octet
    requires k < 8
  {
    Shr(b, k) | Shl(hi, 8 - k)
  }

  /** Bits come in from the next lower octet. */
  function ShlOctet(b: Octet, lo: Octet, k: nat): Octet
    requires k < 8
  {
    Shl(b, k) | Shr(lo, 8 - k)
  }

  lemma BitShrOctet(b: Octet, hi: Octet, k: nat, j: nat)
    requires k < 8 && j < 8
    ensures Bit(ShrOctet(b, hi, k), j) == if j + k < 8 then Bit(b, j + k) else Bit(hi, j + k - 8)
  {
    hide Bit, Shr, Shl;
    BitOr(Shr(b, k), Shl(hi, 8 - k), j);
    BitShr(b, k, j);
    BitShl(hi, 8 - k, j);
  }

  lemma BitShlOctet(b: Octet, lo: Octet, k: nat, j: nat)
    requires k < 8 && j < 8
    ensures Bit(ShlOctet(b, lo, k), j) == if j >= k then Bit(b, j - k) else Bit(lo, j - k + 8)
  {
    hide Bit, Shr, Shl;
    BitOr(Shl(b, k), Shr(lo, 8 - k), j);
    BitShl(b, k, j);
    BitShr(lo, 8 - k, j);
  }

  /** The 16-bit accumulators. */
  function Low16(t: bv16): Octet {
    (t & 0xff) as Octet
  }

  function High16(t: bv16): Octet {
    (t >> 8) as Octet
  }

  function FeedHigh(t: bv16, b: Octet): bv16 {
    (t << 8) | (b as bv16)
  }

  function Shr16(t: bv16, k: nat): bv16
    requires k < 8
  {
    t >> k
  }

  function FeedLow(t: bv16, b: Octet, k: nat): bv16
    requires k < 8
  {
    (t >> 8) | ((b as bv16) << k)
  }

  lemma Accumulate(t: bv16, b: Octet, k: nat)
    requires k < 8
    ensures Low16(Shr16(FeedHigh(t, b), k)) == ShrOctet(b, Low16(t), k)
    ensures Low16(FeedHigh(t, b)) == b
  {
    match k
    case 0 => case 1 => case 2 => case 3 => case 4 => case 5 => case 6 => case 7 =>
  }

  lemma Carry(t: bv16, b: Octet, k: nat)
    requires k < 8
    ensures Low16(FeedLow(t, b, k)) == Shl(b, k) | High16(t)
    ensures High16(FeedLow(t, b, k)) == Shr(b, 8 - k)
  {
    match k
    case 0 => case 1 => case 2 => case 3 => case 4 => case 5 => case 6 => case 7 =>
  }

  // ----- sequences

  function ShiftedRight(s: seq<Octet>, k: nat): (r: seq<Octet>)
    requires k < 8
    ensures |r| == |s|
  {
    seq(|s|, j requires 0 <= j < |s| => ShrOctet(s[j], if j + 1 < |s| then s[j + 1] else 0, k))
  }

  function ShiftedLeft(s: seq<Octet>, k: nat): (r: seq<Octet>)
    requires k < 8
    ensures |r| == |s|
  {
    seq(|s|, j requires 0 <= j < |s| => ShlOctet(s[j], if j > 0 then s[j - 1] else 0, k))
  }

  lemma ShiftedRightAt(s: seq<Octet>, k: nat, j: nat)
    requires k < 8 && j < |s|
    ensures ShiftedRight(s, k)[j] == ShrOctet(s[j], if j + 1 < |s| then s[j + 1] else 0, k)
  {
  }

  lemma ShiftedLeftAt(s: seq<Octet>, k: nat, j: nat)
    requires k < 8 && j < |s|
    ensures ShiftedLeft(s, k)[j] == ShlOctet(s[j], if j > 0 then s[j - 1] else 0, k)
  {
  }

  lemma ShiftedRightBit(s: seq<Octet>, k: nat, i: nat)
    requires k < 8 && i < 8 * |s|
    ensures BitAt(ShiftedRight(s, k), i) == (i + k < 8 * |s| && BitAt(s, i + k))
  {
    hide Bit, ShrOctet;
    var j, l := i / 8, i % 8;
    BitShrOctet(s[j], if j + 1 < |s| then s[j + 1] else 0, k, l);
    if l + k < 8 {
      OctetBit(s, j, l + k);
    } else {
      NoBits(l + k - 8);
      if j + 1 < |s| {
        OctetBit(s, j + 1, l + k - 8);
      }
    }
  }

  lemma ShiftedLeftBit(s: seq<Octet>, k: nat, i: nat)
    requires k < 8 && i < 8 * |s|
    ensures BitAt(ShiftedLeft(s, k), i) == (i >= k && BitAt(s, i - k))
  {
    hide Bit, ShlOctet, ShiftedLeft;
    var j, l := i / 8, i % 8;
    ShiftedLeftAt(s, k, j);
    BitShlOctet(s[j], if j > 0 then s[j - 1] else 0, k, l);
    if l >= k {
      assert i - k == 8 * j + (l - k);
      OctetBit(s, j, l - k);
    } else if j > 0 {
      assert i - k == 8 * (j - 1) + (l - k + 8);
      OctetBit(s, j - 1, l - k + 8);
    } else {
      NoBits(l - k + 8);
    }
  }

  // ----- in place

  /** Octets off .. off + n of the array. */
  function Region(a: array<Octet>, off: nat, n: nat): (s: seq<Octet>)
    requires off + n <= a.Length
    reads a
    ensures |s| == n
  {
    a[off..off + n]
  }

  lemma ShlParts(b: Octet, lo: Octet, k: nat)
    requires k < 8
    ensures ShlOctet(b, lo, k) == Shl(b, k) | Shr(lo, 8 - k)
  {
  }

  /** BitShifter::shiftRight */
  method ShiftRight(a: array<Octet>, off: nat, n: nat, shift: nat)
    requires off + n <= a.Length && shift < 8
    modifies a
    ensures Region(a, off, n) == ShiftedRight(old(Region(a, off, n)), shift)
    ensures forall k :: 0 <= k < a.Length && !(off <= k < off + n) ==> a[k] == old(a[k])
  {
    hide ShrOctet, Low16, Shr16, FeedHigh, ShiftedRight;
    ghost var s := Region(a, off, n);
    var tmp: bv16 := 0;
    assert Low16(0) == 0 by { LowZero(); }
    var j := n - 1;
    while j >= 0
      invariant -1 <= j < n
      invariant Low16(tmp) == if j + 1 < n then s[j + 1] else 0
      invariant forall k :: off <= k <= off + j ==> a[k] == s[k - off]
      invariant forall k :: off + j < k < off + n ==> a[k] == ShiftedRight(s, shift)[k - off]
      invariant forall k :: 0 <= k < a.Length && !(off <= k < off + n) ==> a[k] == old(a[k])
    {
      ShiftedRightAt(s, shift, j);
      Accumulate(tmp, a[off + j], shift);
      tmp := FeedHigh(tmp, a[off + j]);
      a[off + j] := Low16(Shr16(tmp, shift));
      j := j - 1;
    }
  }

  lemma LowZero()
    ensures Low16(0) == 0 && High16(0) == 0
  {
  }

  /** BitShifter::shiftLeft */
  method ShiftLeft(a: array<Octet>, off: nat, n: nat, shift: nat)
    requires off + n <= a.Length && shift < 8
    modifies a
    ensures Region(a, off, n) == ShiftedLeft(old(Region(a, off, n)), shift)
    ensures forall k :: 0 <= k < a.Length && !(off <= k < off + n) ==> a[k] == old(a[k])
  {
    hide ShlOctet, High16, Low16, FeedLow, Shr, Shl, ShiftedLeft;
    ghost var s := Region(a, off, n);
    var tmp: bv16 := 0;
    assert High16(0) == Shr(0, 8 - shift) by { LowZero(); ShrZero(8 - shift); }
    var j := 0;
    while j < n
      invariant 0 <= j <= n
      invariant High16(tmp) == Shr(if j > 0 then s[j - 1] else 0, 8 - shift)
      invariant forall k :: off + j <= k < off + n ==> a[k] == s[k - off]
      invariant forall k :: off <= k < off + j ==> a[k] == ShiftedLeft(s, shift)[k - off]
      invariant forall k :: 0 <= k < a.Length && !(off <= k < off + n) ==> a[k] == old(a[k])
    {
      ShiftedLeftAt(s, shift, j);
      ShlParts(s[j], if j > 0 then s[j - 1] else 0, shift);
      Carry(tmp, a[off + j], shift);
      tmp := FeedLow(tmp, a[off + j], shift);
      a[off + j] := Low16(tmp);
      j := j + 1;
    }
  }

  lemma ShrZero(k: nat)
    requires k <= 8
    ensures Shr(0, k) == 0
  {
  }

  /** memcpy of two words through a temporary. */
  method Exchange(a: array<Octet>, p: nat, q: nat, w: nat)
    requires p + w <= q && q + w <= a.Length
    modifies a
    ensures forall k :: p <= k < p + w ==> a[k] == old(a[k + (q - p)])
    ensures forall k :: q <= k < q + w ==> a[k] == old(a[k - (q - p)])
    ensures forall k :: 0 <= k < a.Length && !(p <= k < p + w) && !(q <= k < q + w) ==> a[k] == old(a[k])
  {
    var tmp := a[p..p + w];
    forall k | p <= k < p + w {
      a[k] := a[k + (q - p)];
    }
    forall k | q <= k < q + w {
      a[k] := tmp[k - q];
    }
  }

  lemma TwoWords(n: nat, w: nat, j: nat)
    requires w > 0 && n % w == 0 && j < n / w / 2
    ensures j * w + w <= n - w - j * w
  {
    var k := n / w;
    assert n == w * k;
    assert w * k == w * (2 * j + 2) + w * (k - 2 * j - 2);
    assert w * (2 * j + 2) == 2 * (j * w) + 2 * w;
    if k - 2 * j - 2 > 0 {
      MulAtLeast(w, k - 2 * j - 2);
    }
  }

  /** Word j and its mirror image, octet by octet. */
  lemma MirrorWords(s: seq<Octet>, n: nat, w: nat, j: nat)
    requires w > 0 && n % w == 0 && |s| == n && j < n / w / 2
    ensures j * w + w <= n - w - j * w
    ensures forall k :: j * w <= k < j * w + w ==> Swapped(s, n, w)[k] == s[k + (n - w - 2 * (j * w))]
    ensures forall k :: n - w - j * w <= k < n - j * w ==> Swapped(s, n, w)[k] == s[k - (n - w - 2 * (j * w))]
  {
    TwoWords(n, w, j);
    hide SwapByte;
    var p := j * w;
    var t := Swapped(s, n, w);
    forall k | p <= k < p + w
      ensures t[k] == s[k + (n - w - 2 * p)]
    {
      SwapByteAt(n, w, j, k - p);
    }
    forall k | n - w - p <= k < n - p
      ensures t[k] == s[k - (n - w - 2 * p)]
    {
      SwapByteAt(n, w, j, k - (n - w - p));
    }
  }

  lemma MiddleLength(n: nat, w: nat)
    requires w > 0 && n % w == 0
    ensures var p := (n / w / 2) * w; p >= 0 && (n == 2 * p || n == 2 * p + w)
  {
    var h, m := n / w / 2, n / w % 2;
    assert n == w * (2 * h + m);
    assert w * (2 * h + m) == 2 * (h * w) + w * m;
    if m == 0 {
      assert w * m == 0;
    } else {
      assert w * m == w;
    }
  }

  /** A word in the middle stays. */
  lemma MiddleWord(s: seq<Octet>, n: nat, w: nat)
    requires w > 0 && n % w == 0 && |s| == n
    ensures var p := (n / w / 2) * w; forall k :: p <= k < n - p ==> Swapped(s, n, w)[k] == s[k]
  {
    hide SwapByte;
    var h := n / w / 2;
    var p := h * w;
    MiddleLength(n, w);
    var t := Swapped(s, n, w);
    forall k | p <= k < n - p
      ensures t[k] == s[k]
    {
      SwapByteAt(n, w, h, k - p);
    }
  }

  /** Swapper::work: whole words trade places from both ends. */
  method Swap(a: array<Octet>, off: nat, n: nat, w: nat)
    requires off + n <= a.Length && w > 0 && n % w == 0
    modifies a
    ensures Region(a, off, n) == Swapped(old(Region(a, off, n)), n, w)
    ensures forall k :: 0 <= k < a.Length && !(off <= k < off + n) ==> a[k] == old(a[k])
  {
    hide Swapped, SwappedSoFar, Region;
    ghost var s := Region(a, off, n);
    var half := n / w / 2;
    var j, jinc := 0, 0;
    NoneSwapped(s, n, w);
    while j < half
      invariant 0 <= j <= half && jinc == j * w && 0 <= jinc
      invariant SwappedSoFar(Region(a, off, n), s, n, w, jinc)
      invariant forall k :: 0 <= k < a.Length && !(off <= k < off + n) ==> a[k] == old(a[k])
    {
      SwapPair(a, off, n, w, j, jinc, s);
      j := j + 1;
      jinc := jinc + w;
    }
    AllSwapped(Region(a, off, n), s, n, w, jinc);
  }

  /** The outer words are in place, those between are not touched yet. */
  ghost predicate SwappedSoFar(r: seq<Octet>, s: seq<Octet>, n: nat, w: nat, jinc: nat)
    requires w > 0 && n % w == 0 && |s| == n
  {
    && |r| == n
    && (forall k :: 0 <= k < n && (k < jinc || k >= n - jinc) ==> r[k] == Swapped(s, n, w)[k])
    && forall k :: jinc <= k < n - jinc ==> r[k] == s[k]
  }

  lemma NoneSwapped(s: seq<Octet>, n: nat, w: nat)
    requires w > 0 && n % w == 0 && |s| == n
    ensures SwappedSoFar(s, s, n, w, 0)
  {
    hide Swapped;
  }

  lemma AllSwapped(r: seq<Octet>, s: seq<Octet>, n: nat, w: nat, jinc: nat)
    requires w > 0 && n % w == 0 && |s| == n && jinc == (n / w / 2) * w && SwappedSoFar(r, s, n, w, jinc)
    ensures r == Swapped(s, n, w)
  {
    hide Swapped;
    MiddleWord(s, n, w);
  }

  /** Words j from either end trade places. */
  method SwapPair(a: array<Octet>, off: nat, n: nat, w: nat, j: nat, jinc: nat, ghost s: seq<Octet>)
    requires off + n <= a.Length && w > 0 && n % w == 0 && |s| == n && j < n / w / 2 && jinc == j * w
    requires SwappedSoFar(Region(a, off, n), s, n, w, jinc)
    modifies a
    ensures SwappedSoFar(Region(a, off, n), s, n, w, jinc + w) && jinc + w == (j + 1) * w
    ensures forall k :: 0 <= k < a.Length && !(off <= k < off + n) ==> a[k] == old(a[k])
  {
    hide Swapped, SwappedSoFar;
    TwoWords(n, w, j);
    ghost var r := Region(a, off, n);
    Exchange(a, off + jinc, off + n - w - jinc, w);
    ghost var r', d := Region(a, off, n), n - w - 2 * jinc;
    forall k | jinc <= k < jinc + w ensures r'[k] == r[k + d] {
      assert r'[k] == a[off + k] && r[k + d] == old(a[off + k + d]);
    }
    forall k | n - w - jinc <= k < n - jinc ensures r'[k] == r[k - d] {
      assert r'[k] == a[off + k] && r[k - d] == old(a[off + k - d]);
    }
    forall k | 0 <= k < n && !(jinc <= k < jinc + w) && !(n - w - jinc <= k < n - jinc) ensures r'[k] == r[k] {
      assert r'[k] == a[off + k] && r[k] == old(a[off + k]);
    }
    PairSwapped(r, r', s, n, w, j, jinc);
  }

  lemma PairSwapped(r: seq<Octet>, r': seq<Octet>, s: seq<Octet>, n: nat, w: nat, j: nat, jinc: nat)
    requires w > 0 && n % w == 0 && |s| == n == |r'| && j < n / w / 2 && jinc == j * w && jinc + w <= n - w - jinc
    requires SwappedSoFar(r, s, n, w, jinc)
    requires forall k :: jinc <= k < jinc + w ==> r'[k] == r[k + (n - w - 2 * jinc)]
    requires forall k :: n - w - jinc <= k < n - jinc ==> r'[k] == r[k - (n - w - 2 * jinc)]
    requires forall k :: 0 <= k < n && !(jinc <= k < jinc + w) && !(n - w - jinc <= k < n - jinc) ==> r'[k] == r[k]
    ensures SwappedSoFar(r', s, n, w, jinc + w) && jinc + w == (j + 1) * w
  {
    MirrorWords(s, n, w, j);
    hide Swapped;
    var t, d := Swapped(s, n, w), n - w - 2 * jinc;
    forall k | 0 <= k < n && (k < jinc + w || k >= n - jinc - w) ensures r'[k] == t[k] {
      if jinc <= k < jinc + w {
        assert r'[k] == r[k + d] == s[k + d];
      } else if n - w - jinc <= k < n - jinc {
        assert r'[k] == r[k - d] == s[k - d];
      }
    }
  }

  lemma ExtendedAt(s: seq<Octet>, sizeBits: nat, signed: bool)
    requires 1 <= sizeBits <= 8 * |s|
    ensures var signByte := (sizeBits - 1) / 8;
            && signByte < |s|
            && var negative := signed && Bit(s[signByte], (sizeBits - 1) % 8);
               forall j :: 0 <= j < |s| ==>
                 Extended(s, sizeBits, signed)[j] ==
                   if j < signByte then s[j] else if j == signByte then EdgeOctet(s[j], (sizeBits - 1) % 8, negative) else Filling(negative)
  {
    hide Bit, EdgeOctet, Filling;
  }

  /** SignExtender: `signed` numbers of sizeBits bits are continued to n octets. */
  method SignExtend(a: array<Octet>, off: nat, n: nat, sizeBits: nat, signed: bool)
    requires off + n <= a.Length && 1 <= sizeBits <= 8 * n
    modifies a
    ensures Region(a, off, n) == Extended(old(Region(a, off, n)), sizeBits, signed)
    ensures forall k :: 0 <= k < a.Length && !(off <= k < off + n) ==> a[k] == old(a[k])
  {
    hide Bit, EdgeOctet, Filling, Extended;
    ghost var s := Region(a, off, n);
    assert forall k :: 0 <= k < n ==> s[k] == a[off + k];
    ExtendedAt(s, sizeBits, signed);
    var signByte := (sizeBits - 1) / 8;
    var j := signByte;
    var negative := signed && Bit(a[off + j], (sizeBits - 1) % 8);
    a[off + j] := EdgeOctet(a[off + j], (sizeBits - 1) % 8, negative);
    j := j + 1;
    while j < n
      invariant signByte < j <= n
      invariant forall k :: off <= k < off + j ==> a[k] == Extended(s, sizeBits, signed)[k - off]
      invariant forall k :: off + j <= k < off + n ==> a[k] == s[k - off]
      invariant forall k :: 0 <= k < a.Length && !(off <= k < off + n) ==> a[k] == old(a[k])
    {
      a[off + j] := Filling(negative);
      j := j + 1;
    }
  }

  function Filling(x: bool): Octet {
    if x then 0xff else 0
  }

  /** signMsk: the bits up to and including the sign bit. */
  function SignMask(k: nat): Octet
    requires k < 8
  {
    var bit: Octet := 1 << k;
    bit | (bit - 1)
  }

  function EdgeOctet(b: Octet, k: nat, negative: bool): Octet
    requires k < 8
  {
    if negative then b | !SignMask(k) else b & SignMask(k)
  }

  function Extended(s: seq<Octet>, sizeBits: nat, signed: bool): (r: seq<Octet>)
    requires 1 <= sizeBits <= 8 * |s|
    ensures |r| == |s|
  {
    var signByte := (sizeBits - 1) / 8;
    var negative := signed && Bit(s[signByte], (sizeBits - 1) % 8);
    seq(|s|, j requires 0 <= j < |s| =>
      if j < signByte then s[j]
      else if j == signByte then EdgeOctet(s[j], (sizeBits - 1) % 8, negative)
      else Filling(negative))
  }

  lemma BitEdge(b: Octet, k: nat, negative: bool)
    requires k < 8
    ensures forall j {:trigger Bit(EdgeOctet(b, k, negative), j)} :: 0 <= j < 8 ==>
              Bit(EdgeOctet(b, k, negative), j) == if j <= k then Bit(b, j) else negative
  {
    match k
    case 0 => case 1 => case 2 => case 3 => case 4 => case 5 => case 6 => case 7 =>
  }

  lemma BitFilling(x: bool, j: nat)
    requires j < 8
    ensures Bit(Filling(x), j) == x
  {
    match j
    case 0 => case 1 => case 2 => case 3 => case 4 => case 5 => case 6 => case 7 =>
  }

  /** The lowest sizeBits bits are kept and then continued. */
  lemma ExtendedBit(s: seq<Octet>, sizeBits: nat, signed: bool, i: nat)
    requires 1 <= sizeBits <= 8 * |s| && i < 8 * |s|
    ensures BitAt(Extended(s, sizeBits, signed), i) ==
              if i < sizeBits then BitAt(s, i) else signed && BitAt(s, sizeBits - 1)
  {
    hide Bit, EdgeOctet, Filling;
    var k := (sizeBits - 1) / 8;
    var negative := signed && Bit(s[k], (sizeBits - 1) % 8);
    BitEdge(s[k], (sizeBits - 1) % 8, negative);
    BitFilling(negative, i % 8);
    if i / 8 == k {
      assert i == 8 * k + i % 8;
    }
  }
}

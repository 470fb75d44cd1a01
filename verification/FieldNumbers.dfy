/** The value of an integer field as a number, computed from the memory octets with division and
    remainder. */
module FieldNumbers {
  import opened CircularIndex
  import opened Octets
  import opened Bits
  import opened FieldCodec

  /** The octets of an element with the least significant first: as they lie in memory, or backwards. */
  function LowFirst(f: IntField, m: seq<Octet>): (r: seq<Octet>)
    ensures |r| == |m|
  {
    seq(|m|, k requires 0 <= k < |m| => if f.bigEndian then m[|m| - 1 - k] else m[k])
  }

  /** The number that these octets spell. */
  function MemNumber(f: IntField, m: seq<Octet>): nat {
    FromBits(BitsOf(LowFirst(f, m)))
  }

  lemma LowFirstIsNormal(f: IntField, m: seq<Octet>)
    ensures Normal(f, m) == LowFirst(f, m)
  {
    forall b | 0 <= b < |m| ensures Normal(f, m)[b] == LowFirst(f, m)[b] {
      if f.bigEndian {
        SwapByteOne(|m|, b);
      }
    }
  }

  lemma SwapByteOne(n: nat, b: nat)
    requires b < n
    ensures SwapByte(n, 1, b) == n - 1 - b
  {
  }

  lemma {:induction false} DropBits(s: seq<bool>, k: nat)
    requires k <= |s|
    ensures FromBits(s[k..]) == FromBits(s) / Pow2(k)
    decreases k
  {
    if k == 0 {
      assert s[0..] == s;
    } else {
      DropBits(s[1..], k - 1);
      assert s[1..][k - 1..] == s[k..];
      HalfDiv(FromBits(s), if s[0] then 1 else 0, FromBits(s[1..]), Pow2(k - 1));
    }
  }

  lemma HalfDiv(n: nat, b: nat, h: nat, p: nat)
    requires n == b + 2 * h && b <= 1 && p > 0
    ensures n / (2 * p) == h / p
  {
    var q, r := h / p, h % p;
    assert h == p * q + r;
    assert (2 * p) * q == 2 * (p * q);
    DivModUnique(n, 2 * p, q, b + 2 * r);
  }

  /** Without a word swap, an unsigned field is the number in memory shifted right by lsb and reduced to
      its width; a signed one the same number in two's complement. */
  lemma ValueIs(f: IntField, m: seq<Octet>)
    requires Valid(f) && |m| == SizeOf(f) && f.wlen == 0
    ensures FromBits(FieldValue(f, m)) == (MemNumber(f, m) / Pow2(f.lsb)) % Pow2(f.sizeBits)
  {
    hide FromBits, Pow2, BitAt, Normal, LowFirst;
    LowFirstIsNormal(f, m);
    ValidSize(f);
    var s := BitsOf(LowFirst(f, m));
    assert FieldValue(f, m) == s[f.lsb..][..f.sizeBits];
    DropBits(s, f.lsb);
    TruncateNumber(s[f.lsb..], f.sizeBits);
  }

  /** Two's complement of a number reduced to w bits. */
  function Wrapped(n: int, w: nat): int
    requires w >= 1
  {
    var r := n % Pow2(w);
    if r >= Pow2(w - 1) then r - Pow2(w) else r
  }

  lemma TopBitIsHalf(s: seq<bool>)
    requires s != []
    ensures s[|s| - 1] <==> FromBits(s) >= Pow2(|s| - 1)
    ensures FromBits(s) % Pow2(|s|) == FromBits(s)
  {
    hide FromBits, Pow2;
    FromBitsBound(s);
    var t := s[..|s| - 1];
    assert t + [s[|s| - 1]] == s;
    FromBitsSnoc(t, s[|s| - 1]);
    FromBitsBound(t);
    SmallMod(FromBits(s), Pow2(|s|));
  }

  lemma SmallMod(x: nat, p: nat)
    requires x < p
    ensures x % p == x
  {
  }

  /** The number that a field holds. */
  function FieldNumber(f: IntField, m: seq<Octet>): int
    requires f.sizeBits >= 1
  {
    var x: int := MemNumber(f, m) / Pow2(f.lsb);
    if f.signed then Wrapped(x, f.sizeBits) else x % Pow2(f.sizeBits)
  }

  /** What getVal delivers, as a number. */
  lemma DecodedIs(f: IntField, m: seq<Octet>, elsz: nat)
    requires Valid(f) && |m| == SizeOf(f) && f.wlen == 0 && f.sizeBits <= 8 * elsz
    ensures Number(BitsOf(Decoded(f, m, elsz)), f.signed) == FieldNumber(f, m)
  {
    hide FromBits, Pow2, BitAt, Decoded, FieldValue, MemNumber, Resized;
    var s := FieldValue(f, m);
    forall i | 0 <= i < 8 * elsz ensures BitsOf(Decoded(f, m, elsz))[i] == Resized(s, f.signed, 8 * elsz)[i] {
      DecodedBit(f, m, elsz, i);
    }
    assert BitsOf(Decoded(f, m, elsz)) == Resized(s, f.signed, 8 * elsz);
    ExtendKeepsNumber(s, f.signed, 8 * elsz);
    ValueIs(f, m);
    TopBitIsHalf(s);
  }

  /** Read with fewer octets than the field has, its low bits are delivered. */
  lemma DecodedTruncated(f: IntField, m: seq<Octet>, elsz: nat)
    requires Valid(f) && |m| == SizeOf(f) && f.wlen == 0 && 8 * elsz <= f.sizeBits
    ensures FromBits(BitsOf(Decoded(f, m, elsz))) == (MemNumber(f, m) / Pow2(f.lsb)) % Pow2(8 * elsz)
  {
    hide FromBits, Pow2, BitAt, Decoded, Normal, LowFirst;
    LowFirstIsNormal(f, m);
    ValidSize(f);
    var s, d := BitsOf(LowFirst(f, m)), BitsOf(Decoded(f, m, elsz));
    forall i | 0 <= i < 8 * elsz ensures d[i] == s[f.lsb..][..8 * elsz][i] {
      DecodedBit(f, m, elsz, i);
    }
    assert d == s[f.lsb..][..8 * elsz];
    DropBits(s, f.lsb);
    TruncateNumber(s[f.lsb..], 8 * elsz);
  }

  /** With a word swap, bit b of octet r in word j of the value lies in the mirrored word, k words
      making up the field. */
  lemma WordOrder(f: IntField, m: seq<Octet>, k: nat, j: nat, r: nat, b: nat)
    requires Valid(f) && |m| == SizeOf(f) && f.wlen > 0 && NBytes(f) == k * f.wlen
    requires j < k && r < f.wlen && b < 8 && 8 * (j * f.wlen + r) + b < f.sizeBits
    ensures 0 <= 8 * ((k - 1 - j) * f.wlen + r) + b + f.lsb < 8 * |m|
    ensures FieldValue(f, m)[8 * (j * f.wlen + r) + b] == BitsOf(LowFirst(f, m))[8 * ((k - 1 - j) * f.wlen + r) + b + f.lsb]
  {
    hide BitAt, Normal, LowFirst;
    LowFirstIsNormal(f, m);
    ValidSize(f);
    var w, i := f.wlen, 8 * (j * f.wlen + r) + b;
    WordFits(k, j, w);
    SwapByteAt(NBytes(f), w, j, r);
    assert i / 8 == j * w + r && i % 8 == b;
    assert (k - 1 - j) * w == k * w - w - j * w;
    PlaceInSize(f, i);
    assert Place(f, i) == 8 * ((k - 1 - j) * w + r) + b;
  }

  lemma WordFits(k: nat, j: nat, w: nat)
    requires j < k
    ensures j * w + w <= k * w && 0 <= j * w
  {
    assert k * w == j * w + w + (k - j - 1) * w;
  }

  /** What a write leaves in memory: the field is the number written, reduced to its width, and the
      other bits of the number in memory are what they were. */
  lemma WrittenIs(f: IntField, m: seq<Octet>, v: seq<Octet>)
    requires Writable(f) && |m| == SizeOf(f) && f.wlen == 0 && v != [] && f.sizeBits <= 8 * |v|
    ensures (MemNumber(f, Written(f, m, v)) / Pow2(f.lsb)) % Pow2(f.sizeBits) == FromBits(BitsOf(v)) % Pow2(f.sizeBits)
    ensures MemNumber(f, Written(f, m, v)) % Pow2(f.lsb) == MemNumber(f, m) % Pow2(f.lsb)
    ensures MemNumber(f, Written(f, m, v)) / Pow2(f.lsb + f.sizeBits) == MemNumber(f, m) / Pow2(f.lsb + f.sizeBits)
  {
    hide FromBits, Pow2, BitAt, Written, Resized, LowFirst, Normal, FieldValue;
    var r := Written(f, m, v);
    ReadBack(f, m, v);
    ValueIs(f, r);
    Truncated(BitsOf(v), f.signed, f.sizeBits);
    OutsideSame(f, m, v);
  }

  lemma Truncated(s: seq<bool>, signed: bool, w: nat)
    requires s != [] && w <= |s|
    ensures FromBits(Resized(s, signed, w)) == FromBits(s) % Pow2(w)
  {
    assert Resized(s, signed, w) == s[..w];
    TruncateNumber(s, w);
  }

  lemma OutsideSame(f: IntField, m: seq<Octet>, v: seq<Octet>)
    requires Writable(f) && |m| == SizeOf(f) && v != []
    ensures MemNumber(f, Written(f, m, v)) % Pow2(f.lsb) == MemNumber(f, m) % Pow2(f.lsb)
    ensures MemNumber(f, Written(f, m, v)) / Pow2(f.lsb + f.sizeBits) == MemNumber(f, m) / Pow2(f.lsb + f.sizeBits)
  {
    hide FromBits, Pow2, BitAt, Written, LowFirst, Normal;
    var r := Written(f, m, v);
    LowFirstIsNormal(f, m);
    LowFirstIsNormal(f, r);
    WritableSize(f);
    var s, t := BitsOf(LowFirst(f, m)), BitsOf(LowFirst(f, r));
    forall i | 0 <= i < |s| && !(f.lsb <= i < f.lsb + f.sizeBits) ensures t[i] == s[i] {
      Untouched(f, m, v, i);
    }
    assert t[..f.lsb] == s[..f.lsb] && t[f.lsb + f.sizeBits..] == s[f.lsb + f.sizeBits..];
    TruncateNumber(s, f.lsb);
    TruncateNumber(t, f.lsb);
    DropBits(s, f.lsb + f.sizeBits);
    DropBits(t, f.lsb + f.sizeBits);
  }
}

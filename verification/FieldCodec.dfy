/** Integer fields in memory: bit shift, word swap, byte order, truncation and sign extension
    (src/cpsw_sval.cc), on a little-endian host.

    `Decoded` and `Encoded` say bit by bit which memory bits are the value of a field. The
    in-place loops of the program are proved against them in FieldCodecOps. */
module FieldCodec {
  import opened Wrappers
  import opened CircularIndex
  import opened Octets
  import opened Bits

  datatype IntField = IntField(sizeBits: nat, lsb: nat, wlen: nat, signed: bool, bigEndian: bool)

  /** b2B */
  function BitsToBytes(bits: nat): nat {
    (bits + 7) / 8
  }

  function NBytes(f: IntField): nat {
    BitsToBytes(f.sizeBits)
  }

  /** computeSize: octets that the field touches in memory. */
  function SizeOf(f: IntField): nat {
    if f.wlen > 0 && f.wlen != NBytes(f) then NBytes(f) + (if f.lsb != 0 then 1 else 0)
    else BitsToBytes(f.sizeBits + f.lsb)
  }

  predicate Valid(f: IntField) {
    && f.sizeBits >= 1 && f.lsb <= 7
    && (f.wlen > 0 ==> NBytes(f) % f.wlen == 0 && f.wlen != NBytes(f))
  }

  predicate Writable(f: IntField) {
    Valid(f) && (f.wlen > 0 ==> f.sizeBits % 8 == 0)
  }

  /** CIntEntryImpl::checkArgs; None is the exception. */
  function CheckArgs(f: IntField, readOnly: bool): (r: Option<IntField>)
    ensures r.Some? && f.sizeBits >= 1 ==> Valid(r.value) && (!readOnly ==> Writable(r.value))
  {
    if f.lsb > 7 then None
    else
      var g := if f.wlen == NBytes(f) then f.(wlen := 0) else f;
      if g.wlen > 0 && NBytes(g) % g.wlen != 0 then None
      else if g.sizeBits % 8 != 0 && g.wlen != 0 && !readOnly then None
      else Some(g)
  }

  /** A writable field spans just enough octets. */
  lemma WritableSize(f: IntField)
    requires Writable(f)
    ensures SizeOf(f) == BitsToBytes(f.sizeBits + f.lsb)
    ensures f.sizeBits + f.lsb <= 8 * SizeOf(f) < f.sizeBits + f.lsb + 8
  {
  }

  lemma ValidSize(f: IntField)
    requires Valid(f)
    ensures NBytes(f) <= SizeOf(f) && f.sizeBits <= 8 * NBytes(f) && 8 * NBytes(f) < f.sizeBits + 8
    ensures f.sizeBits + f.lsb <= 8 * SizeOf(f)
    ensures f.wlen > 0 ==> 8 * NBytes(f) + f.lsb <= 8 * SizeOf(f)
  {
  }

  // ----- octet permutations

  /** Where octet b comes from when the words of w octets among n are reversed. */
  function SwapByte(n: nat, w: nat, b: nat): (r: int)
    requires w > 0
  {
    (n / w - 1 - b / w) * w + b % w
  }

  /** Octet r of word j trades places with octet r of the mirrored word. */
  lemma SwapByteAt(n: nat, w: nat, j: nat, r: nat)
    requires w > 0 && n % w == 0 && r < w && j * w + w <= n
    ensures SwapByte(n, w, j * w + r) == n - w - j * w + r
    ensures SwapByte(n, w, n - w - j * w + r) == j * w + r
  {
    DivModUnique(j * w + r, w, j, r);
    var k := n / w;
    assert n == w * k;
    var q := k - 1 - j;
    assert q * w == n - w - j * w by {
      assert (k - 1 - j) * w == k * w - w - j * w;
    }
    assert w * (-q) == -(q * w);
    if q < 0 {
      MulAtLeast(w, -q);
    }
    DivModUnique(n - w - j * w + r, w, q, r);
  }

  lemma SwapByteTwice(n: nat, w: nat, b: nat)
    requires w > 0 && n % w == 0 && b < n
    ensures 0 <= SwapByte(n, w, b) < n && SwapByte(n, w, SwapByte(n, w, b)) == b
  {
    hide SwapByte;
    WordAndRest(b, w);
    WordEnd(n, w, b);
    SwapByteAt(n, w, b / w, b % w);
  }

  lemma WordAndRest(b: nat, w: nat)
    requires w > 0
    ensures b == (b / w) * w + b % w && b % w < w && 0 <= (b / w) * w
  {
  }

  /** The word of an octet ends within the whole words. */
  lemma WordEnd(n: nat, w: nat, b: nat)
    requires w > 0 && n % w == 0 && b < n
    ensures (b / w) * w + w <= n
  {
    var j, k := b / w, n / w;
    assert n == w * k && b == w * j + b % w;
    assert w * j == w * k + w * (j - k) && w * k == w * (j + 1) + w * (k - j - 1);
    if j > k {
      MulAtLeast(w, j - k);
    } else if j + 1 < k {
      MulAtLeast(w, k - j - 1);
    }
  }

  /** Words reversed in the first n octets. */
  function Swapped(s: seq<Octet>, n: nat, w: nat): (r: seq<Octet>)
    requires w > 0 && n % w == 0 && n <= |s|
    ensures |r| == |s|
  {
    seq(|s|, b requires 0 <= b < |s| => if b < n then s[InRange(n, w, b)] else s[b])
  }

  function InRange(n: nat, w: nat, b: nat): (r: nat)
    requires w > 0 && n % w == 0 && b < n
    ensures r == SwapByte(n, w, b) && r < n
  {
    SwapByteTwice(n, w, b);
    SwapByte(n, w, b)
  }

  /** The octets of one element, least significant first. */
  function Normal(f: IntField, m: seq<Octet>): (r: seq<Octet>)
    ensures |r| == |m|
  {
    if f.bigEndian then Swapped(m, |m|, 1) else m
  }

  lemma NormalTwice(f: IntField, m: seq<Octet>)
    ensures Normal(f, Normal(f, m)) == m
  {
    if f.bigEndian {
      var r := Normal(f, m);
      forall b | 0 <= b < |m| ensures Normal(f, r)[b] == m[b] {
        SwapByteTwice(|m|, 1, b);
      }
    }
  }

  /** Where bit i of the value is stored, relative to the lowest bit of the field. */
  function Place(f: IntField, i: nat): (r: nat)
    requires Valid(f) && i < 8 * NBytes(f)
    ensures r < 8 * NBytes(f)
    ensures f.wlen == 0 ==> r == i
  {
    if f.wlen == 0 then i else 8 * InRange(NBytes(f), f.wlen, i / 8) + i % 8
  }

  lemma PlaceTwice(f: IntField, i: nat)
    requires Valid(f) && i < 8 * NBytes(f)
    ensures Place(f, Place(f, i)) == i
  {
    if f.wlen > 0 {
      SwapByteTwice(NBytes(f), f.wlen, i / 8);
      var p := Place(f, i);
      assert p / 8 == InRange(NBytes(f), f.wlen, i / 8) && p % 8 == i % 8;
    }
  }

  /** For a writable field the places are the bits of the field. */
  lemma PlaceWritable(f: IntField, i: nat)
    requires Writable(f) && i < f.sizeBits
    ensures Place(f, i) < f.sizeBits
  {
    hide InRange;
    if f.wlen > 0 {
      assert 8 * NBytes(f) == f.sizeBits;
      var b := InRange(NBytes(f), f.wlen, i / 8);
      assert b < NBytes(f);
    }
  }

  lemma PlaceInSize(f: IntField, i: nat)
    requires Valid(f) && i < f.sizeBits
    ensures f.lsb + Place(f, i) < 8 * SizeOf(f)
  {
    ValidSize(f);
  }

  // ----- reading

  /** Bit i of the value held by the memory octets `m`. */
  predicate ValueBit(f: IntField, m: seq<Octet>, i: nat)
    requires Valid(f) && |m| == SizeOf(f) && i < f.sizeBits
  {
    PlaceInSize(f, i);
    BitAt(Normal(f, m), f.lsb + Place(f, i))
  }

  /** Truncated to w bits, or continued with zeros or the sign. */
  function Resized(s: seq<bool>, signed: bool, w: nat): (r: seq<bool>)
    requires s != []
    ensures |r| == w
  {
    seq(w, i requires 0 <= i < w => if i < |s| then s[i] else signed && s[|s| - 1])
  }

  function FieldValue(f: IntField, m: seq<Octet>): (s: seq<bool>)
    requires Valid(f) && |m| == SizeOf(f)
    ensures |s| == f.sizeBits
  {
    seq(f.sizeBits, i requires 0 <= i < f.sizeBits => ValueBit(f, m, i))
  }

  /** What getVal delivers for one element of elsz octets. */
  function Decoded(f: IntField, m: seq<Octet>, elsz: nat): (r: seq<Octet>)
    requires Valid(f) && |m| == SizeOf(f)
    ensures |r| == elsz
  {
    Pack(elsz, Resized(FieldValue(f, m), f.signed, 8 * elsz))
  }

  // ----- writing

  function BitsOf(p: seq<Octet>): (s: seq<bool>)
    ensures |s| == 8 * |p|
  {
    seq(8 * |p|, i requires 0 <= i < 8 * |p| => BitAt(p, i))
  }

  /** Memory after the value `v` was written into the field: bit by bit, nothing else changes. */
  function Written(f: IntField, m: seq<Octet>, v: seq<Octet>): (r: seq<Octet>)
    requires Writable(f) && |m| == SizeOf(f) && v != []
    ensures |r| == |m|
  {
    Normal(f, Pack(|m|, WrittenBits(f, m, v)))
  }

  function WrittenBits(f: IntField, m: seq<Octet>, v: seq<Octet>): (s: seq<bool>)
    requires Writable(f) && |m| == SizeOf(f) && v != []
    ensures |s| == 8 * |m|
  {
    var x := Resized(BitsOf(v), f.signed, f.sizeBits);
    seq(8 * |m|, i requires 0 <= i < 8 * |m| =>
      if f.lsb <= i < f.lsb + f.sizeBits then x[PlaceIn(f, i - f.lsb)] else BitAt(Normal(f, m), i))
  }

  function PlaceIn(f: IntField, i: nat): (r: nat)
    requires Writable(f) && i < f.sizeBits
    ensures r < f.sizeBits && r == Place(f, i)
  {
    PlaceWritable(f, i);
    Place(f, i)
  }

  // ----- laws

  lemma WrittenBit(f: IntField, m: seq<Octet>, v: seq<Octet>, i: nat)
    requires Writable(f) && |m| == SizeOf(f) && v != [] && i < 8 * |m|
    ensures BitAt(Normal(f, Written(f, m, v)), i) == WrittenBits(f, m, v)[i]
  {
    hide Bit, WrittenBits, Normal;
    var b := WrittenBits(f, m, v);
    NormalTwice(f, Pack(|m|, b));
    PackBit(|m|, b, i);
  }

  /** Reading back gives the value, truncated to the field and extended again. */
  lemma ReadBack(f: IntField, m: seq<Octet>, v: seq<Octet>)
    requires Writable(f) && |m| == SizeOf(f) && v != []
    ensures FieldValue(f, Written(f, m, v)) == Resized(BitsOf(v), f.signed, f.sizeBits)
  {
    hide Written, ValueBit, Valid, SizeOf, Resized;
    var x := Resized(BitsOf(v), f.signed, f.sizeBits);
    var r := Written(f, m, v);
    forall i | 0 <= i < f.sizeBits
      ensures ValueBit(f, r, i) == x[i]
    {
      ReadBackBit(f, m, v, i);
    }
  }

  lemma ReadBackBit(f: IntField, m: seq<Octet>, v: seq<Octet>, i: nat)
    requires Writable(f) && |m| == SizeOf(f) && v != [] && i < f.sizeBits
    ensures ValueBit(f, Written(f, m, v), i) == Resized(BitsOf(v), f.signed, f.sizeBits)[i]
  {
    hide Written, BitAt, Normal, Resized, SizeOf, Place;
    PlaceInSize(f, i);
    PlaceWritable(f, i);
    ValidSize(f);
    PlaceTwice(f, i);
    var p := Place(f, i);
    WrittenBit(f, m, v, f.lsb + p);
    assert PlaceIn(f, p) == i;
    assert WrittenBits(f, m, v)[f.lsb + p] == Resized(BitsOf(v), f.signed, f.sizeBits)[i];
  }

  lemma DecodedBit(f: IntField, m: seq<Octet>, elsz: nat, i: nat)
    requires Valid(f) && |m| == SizeOf(f) && i < 8 * elsz
    ensures BitAt(Decoded(f, m, elsz), i) == Resized(FieldValue(f, m), f.signed, 8 * elsz)[i]
  {
    hide Bit;
    PackBit(elsz, Resized(FieldValue(f, m), f.signed, 8 * elsz), i);
  }

  /** setVal and a masked write followed by getVal: a value is truncated to the field and sign- or
      zero-extended to the size it is read with. */
  lemma RoundTrip(f: IntField, m: seq<Octet>, v: seq<Octet>, elsz: nat)
    requires Writable(f) && |m| == SizeOf(f) && v != []
    ensures BitsOf(Decoded(f, Written(f, m, v), elsz)) ==
              Resized(Resized(BitsOf(v), f.signed, f.sizeBits), f.signed, 8 * elsz)
  {
    hide BitAt, Written, FieldValue, Decoded;
    ReadBack(f, m, v);
    forall i | 0 <= i < 8 * elsz
      ensures BitsOf(Decoded(f, Written(f, m, v), elsz))[i] ==
                Resized(Resized(BitsOf(v), f.signed, f.sizeBits), f.signed, 8 * elsz)[i]
    {
      DecodedBit(f, Written(f, m, v), elsz, i);
    }
  }

  /** Bits outside the field keep their values. */
  lemma Untouched(f: IntField, m: seq<Octet>, v: seq<Octet>, i: nat)
    requires Writable(f) && |m| == SizeOf(f) && v != [] && i < 8 * |m|
    requires !(f.lsb <= i < f.lsb + f.sizeBits)
    ensures BitAt(Normal(f, Written(f, m, v)), i) == BitAt(Normal(f, m), i)
  {
    hide BitAt, Normal, Written;
    WrittenBit(f, m, v, i);
  }

  // ----- the same as numbers

  /** Two's complement or plain binary. */
  function Number(s: seq<bool>, signed: bool): int {
    FromBits(s) - (if signed && s != [] && s[|s| - 1] then Pow2(|s|) else 0)
  }

  lemma {:induction false} FromBitsSnoc(s: seq<bool>, b: bool)
    ensures FromBits(s + [b]) == FromBits(s) + (if b then Pow2(|s|) else 0)
    decreases |s|
  {
    if s != [] {
      assert (s + [b])[1..] == s[1..] + [b];
      FromBitsSnoc(s[1..], b);
    }
  }

  lemma {:induction false} ExtendKeepsNumber(s: seq<bool>, signed: bool, w: nat)
    requires s != [] && |s| <= w
    ensures Number(Resized(s, signed, w), signed) == Number(s, signed)
    decreases w
  {
    var r := Resized(s, signed, w);
    if w == |s| {
      assert r == s;
    } else {
      var q := Resized(s, signed, w - 1);
      assert r == q + [signed && s[|s| - 1]];
      FromBitsSnoc(q, signed && s[|s| - 1]);
      ExtendKeepsNumber(s, signed, w - 1);
      assert q[|q| - 1] == r[w - 1] || !signed;
    }
  }

  lemma {:induction false} TruncateNumber(s: seq<bool>, w: nat)
    requires w <= |s|
    ensures FromBits(s[..w]) == FromBits(s) % Pow2(w)
    decreases |s|
  {
    ToFromBits(s);
    ToBitsTake(FromBits(s), w, |s|);
    FromToBits(FromBits(s), w);
  }

  /** A number in the range of the field survives. */
  lemma NumberRoundTrip(f: IntField, m: seq<Octet>, v: seq<Octet>, elsz: nat)
    requires Writable(f) && |m| == SizeOf(f) && v != [] && f.sizeBits <= 8 * elsz
    ensures Number(BitsOf(Decoded(f, Written(f, m, v), elsz)), f.signed) ==
              Number(Resized(BitsOf(v), f.signed, f.sizeBits), f.signed)
    ensures !f.signed && f.sizeBits <= 8 * |v| ==>
              Number(BitsOf(Decoded(f, Written(f, m, v), elsz)), false) == FromBits(BitsOf(v)) % Pow2(f.sizeBits)
    ensures 8 * |v| <= f.sizeBits ==>
              Number(BitsOf(Decoded(f, Written(f, m, v), elsz)), f.signed) == Number(BitsOf(v), f.signed)
  {
    hide BitAt, Written, Decoded, FromBits, Pow2, Writable;
    var x := Resized(BitsOf(v), f.signed, f.sizeBits);
    RoundTrip(f, m, v, elsz);
    assert f.sizeBits >= 1 by { WritableBits(f); }
    ExtendKeepsNumber(x, f.signed, 8 * elsz);
    if f.sizeBits <= 8 * |v| {
      assert x == BitsOf(v)[..f.sizeBits];
      TruncateNumber(BitsOf(v), f.sizeBits);
    }
    if 8 * |v| <= f.sizeBits {
      ExtendKeepsNumber(BitsOf(v), f.signed, f.sizeBits);
    }
  }

  lemma WritableBits(f: IntField)
    requires Writable(f)
    ensures f.sizeBits >= 1
  {
  }
}

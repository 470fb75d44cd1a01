/** Bit fields of packet headers (src/cpsw_proto_depack.cc).

    `SetField` and `GetField` say bit by bit what setNum and getNum do; the methods are the
    program's octet loops. */
module BitField {
  import opened CircularIndex
  import opened Octets
  import opened Bits

  // ----- specification

  function NewBits(p: seq<Octet>, off: nat, v: seq<bool>): (f: seq<bool>)
    requires off + |v| <= 8 * |p|
    ensures |f| == 8 * |p|
  {
    seq(8 * |p|, i requires 0 <= i < 8 * |p| => if off <= i < off + |v| then v[i - off] else BitAt(p, i))
  }

  /** Bits off .. off + size become those of `val`; all others stay. */
  function SetField(p: seq<Octet>, off: nat, size: nat, val: nat): (r: seq<Octet>)
    requires off + size <= 8 * |p|
    ensures |r| == |p|
  {
    Pack(|p|, NewBits(p, off, ToBits(val, size)))
  }

  function FieldBits(p: seq<Octet>, off: nat, size: nat): (s: seq<bool>)
    requires off + size <= 8 * |p|
    ensures |s| == size
  {
    seq(size, j requires 0 <= j < size => BitAt(p, off + j))
  }

  function GetField(p: seq<Octet>, off: nat, size: nat): nat
    requires off + size <= 8 * |p|
  {
    FromBits(FieldBits(p, off, size))
  }

  lemma SetFieldBit(p: seq<Octet>, off: nat, size: nat, val: nat, i: nat)
    requires off + size <= 8 * |p| && i < 8 * |p|
    ensures BitAt(SetField(p, off, size, val), i) ==
              if off <= i < off + size then ToBits(val, size)[i - off] else BitAt(p, i)
  {
    hide Bit, ToBits, BitAt, Pack;
    PackBit(|p|, NewBits(p, off, ToBits(val, size)), i);
  }

  /** Reading a field back gives the value modulo 2^size. */
  lemma GetAfterSet(p: seq<Octet>, off: nat, size: nat, val: nat)
    requires off + size <= 8 * |p|
    ensures GetField(SetField(p, off, size, val), off, size) == val % Pow2(size)
  {
    hide BitAt, SetField, ToBits, Pow2, FromBits;
    var r := SetField(p, off, size, val);
    forall j | 0 <= j < size
      ensures FieldBits(r, off, size)[j] == ToBits(val, size)[j]
    {
      SetFieldBit(p, off, size, val, off + j);
    }
    assert FieldBits(r, off, size) == ToBits(val, size);
    FromToBits(val, size);
  }

  /** Other fields are not disturbed. */
  lemma GetAfterSetElsewhere(p: seq<Octet>, off: nat, size: nat, val: nat, off': nat, size': nat)
    requires off + size <= 8 * |p| && off' + size' <= 8 * |p|
    requires off + size <= off' || off' + size' <= off
    ensures GetField(SetField(p, off, size, val), off', size') == GetField(p, off', size')
  {
    hide BitAt, SetField, ToBits;
    var r := SetField(p, off, size, val);
    forall j | 0 <= j < size'
      ensures FieldBits(r, off', size')[j] == FieldBits(p, off', size')[j]
    {
      SetFieldBit(p, off, size, val, off' + j);
    }
    assert FieldBits(r, off', size') == FieldBits(p, off', size');
  }

  // ----- the program

  /** uint64_t and unsigned, as bit strings. */
  type Word64 = s: seq<bool> | |s| == 64 witness seq(64, _ => false)
  type Word32 = s: seq<bool> | |s| == 32 witness seq(32, _ => false)

  function Shl64(v: Word64, k: nat): Word64 {
    seq(64, i requires 0 <= i < 64 => i >= k && v[i - k])
  }

  function Shr64(v: Word64, k: nat): Word64 {
    seq(64, i requires 0 <= i < 64 => i + k < 64 && v[i + k])
  }

  /** (uint8_t)v */
  function LowOctet(v: Word64): Octet {
    MkOctet(v[..8])
  }

  /** Mask of the bits to keep in the last octet. */
  function LastMask(end: nat): Octet {
    if end % 8 == 0 then 0 else !LowMask(end % 8)
  }

  lemma BitLastMask(end: nat, j: nat)
    requires j < 8
    ensures Bit(LastMask(end), j) == (end % 8 != 0 && j >= end % 8)
  {
    BitLowMask(end % 8, j);
    assert Bit(0, j) == false by {
      match j
      case 0 => case 1 => case 2 => case 3 => case 4 => case 5 => case 6 => case 7 =>
    }
  }

  /** Octet k of p holds bits 8k .. 8k + 7 of f. */
  ghost predicate OctetIs(b: Octet, f: seq<bool>, k: nat)
    requires 8 * k + 8 <= |f|
  {
    forall j :: 0 <= j < 8 ==> Bit(b, j) == f[8 * k + j]
  }

  /** The value, aligned to the first octet and moved down by i octets. */
  ghost predicate Aligned(v: Word64, val: nat, shift: nat, i: nat) {
    forall j :: 0 <= j < 8 ==> v[j] == (shift <= 8 * i + j < 64 && ToBits(val, 64)[8 * i + j - shift])
  }

  /** The mask keeps what lies outside the field. */
  ghost predicate KeepsOutside(keep: Octet, shift: nat, size: nat, i: nat) {
    forall j :: 0 <= j < 8 ==> Bit(keep, j) == !(shift <= 8 * i + j < shift + size)
  }

  lemma WrittenBit(p: seq<Octet>, base: nat, shift: nat, val: nat, size: nat, i: nat, v: Word64, keep: Octet, j: nat)
    requires 8 * base + shift + size <= 8 * |p| && shift < 8 && size > 0 && shift + size <= 64 && base + i < |p|
    requires Aligned(v, val, shift, i) && KeepsOutside(keep, shift, size, i) && j < 8
    ensures Bit(Merge(p[base + i], LowOctet(v), keep), j) ==
              NewBits(p, 8 * base + shift, ToBits(val, size))[8 * (base + i) + j]
  {
    hide Bit, BitAt, Merge, MkOctet, ToBits;
    BitMerge(p[base + i], LowOctet(v), keep, j);
    BitMk(v[..8], j);
    OctetBit(p, base + i, j);
    var a := 8 * i + j - shift;
    if 0 <= a < size {
      ToBitsTake(val, size, 64);
      assert ToBits(val, 64)[a] == ToBits(val, 64)[..size][a];
    }
  }

  /** The octet written at distance i from the first one. */
  lemma WrittenOctet(p: seq<Octet>, base: nat, shift: nat, val: nat, size: nat, i: nat, v: Word64, keep: Octet)
    requires 8 * base + shift + size <= 8 * |p| && shift < 8 && size > 0 && shift + size <= 64 && base + i < |p|
    requires Aligned(v, val, shift, i) && KeepsOutside(keep, shift, size, i)
    ensures OctetIs(Merge(p[base + i], LowOctet(v), keep), NewBits(p, 8 * base + shift, ToBits(val, size)), base + i)
  {
    hide Bit, BitAt, Merge, ToBits, NewBits, LowOctet, Aligned, KeepsOutside;
    var b := Merge(p[base + i], LowOctet(v), keep);
    var f := NewBits(p, 8 * base + shift, ToBits(val, size));
    forall j | 0 <= j < 8
      ensures Bit(b, j) == f[8 * (base + i) + j]
    {
      WrittenBit(p, base, shift, val, size, i, v, keep, j);
    }
  }

  lemma KeepsNone(shift: nat, size: nat, i: nat)
    requires 1 <= i && 8 * i + 8 <= shift + size && shift < 8
    ensures KeepsOutside(0, shift, size, i)
  {
    assert forall j :: 0 <= j < 8 ==> !Bit(0, j) by {
      NoBits(0); NoBits(1); NoBits(2); NoBits(3); NoBits(4); NoBits(5); NoBits(6); NoBits(7);
    }
  }

  /** Which bits the masks of the first and the last octet keep. */
  lemma FirstMaskBits(shift: nat, size: nat, j: nat)
    requires shift < 8 && size > 0 && j < 8
    ensures shift + size <= 8 ==> Bit(LowMask(shift) | LastMask(shift + size), j) == !(shift <= j < shift + size)
    ensures shift + size > 8 ==> Bit(LowMask(shift), j) == !(shift <= j < shift + size)
  {
    hide Bit, LastMask;
    BitLowMask(shift, j);
    BitLastMask(shift + size, j);
    BitOr(LowMask(shift), LastMask(shift + size), j);
  }

  lemma LastMaskBits(end: nat, l: nat, j: nat)
    requires end > 8 && l == (end + 7) / 8 && j < 8
    ensures Bit(LastMask(end), j) == !(8 * (l - 1) + j < end)
  {
    BitLastMask(end, j);
  }

  lemma FirstKeeps(shift: nat, size: nat, mask: Octet)
    requires shift < 8 && size > 0
    requires mask == if shift + size <= 8 then LowMask(shift) | LastMask(shift + size) else LowMask(shift)
    ensures KeepsOutside(mask, shift, size, 0)
  {
    hide Bit, LowMask, LastMask;
    forall j | 0 <= j < 8
      ensures Bit(mask, j) == !(shift <= 8 * 0 + j < shift + size)
    {
      FirstMaskBits(shift, size, j);
    }
  }

  lemma EmptyField(p: seq<Octet>, off: nat, val: nat)
    requires off <= 8 * |p|
    ensures p == SetField(p, off, 0, val)
  {
    SameField(p, p, off, 0, val);
  }

  /** CPackHeaderUtil::setNum */
  method SetNum(p: array<Octet>, bitOffset: nat, bitSize: nat, val: nat)
    requires bitOffset + bitSize <= 8 * p.Length && bitOffset % 8 + bitSize <= 64
    modifies p
    ensures p[..] == SetField(old(p[..]), bitOffset, bitSize, val)
  {
    hide Bit, Merge, LowOctet, LowMask, LastMask, ToBits, NewBits, SetField, KeepsOutside, OctetIs;
    ghost var old_ := p[..];
    if bitSize == 0 {
      EmptyField(old_, bitOffset, val);
      return;
    }
    var shift := bitOffset % 8;
    var base := bitOffset / 8;
    var l := (shift + bitSize + 7) / 8;
    var msk1 := LowMask(shift);
    var mskn := LastMask(shift + bitSize);
    if l == 1 {
      msk1 := msk1 | mskn;
    }
    FirstKeeps(shift, bitSize, msk1);
    SetOctets(p, base, shift, bitSize, val, l, msk1, mskn);
    FieldDone(p[..], old_, bitOffset, bitSize, val, l);
  }

  /** The octets of one field, first to last. */
  method SetOctets(p: array<Octet>, base: nat, shift: nat, size: nat, val: nat, l: nat, msk1: Octet, mskn: Octet)
    requires 8 * base + shift + size <= 8 * p.Length && shift < 8 && size > 0 && shift + size <= 64
    requires l == (shift + size + 7) / 8 && KeepsOutside(msk1, shift, size, 0) && mskn == LastMask(shift + size)
    modifies p
    ensures forall k :: base <= k < base + l ==> OctetIs(p[k], NewBits(old(p[..]), 8 * base + shift, ToBits(val, size)), k)
    ensures forall k :: 0 <= k < p.Length && !(base <= k < base + l) ==> p[k] == old(p[..])[k]
  {
    hide Bit, Merge, LowOctet, LastMask, ToBits, NewBits, OctetIs, KeepsOutside;
    ghost var q := p[..];
    ghost var f := NewBits(q, 8 * base + shift, ToBits(val, size));
    var v0 := Shl64(ToBits(val, 64), shift);
    var v := v0;
    assert Aligned(v, val, shift, 0);
    WrittenOctet(q, base, shift, val, size, 0, v, msk1);
    p[base] := Merge(p[base], LowOctet(v), msk1);
    v := Shr64(v, 8);
    var i := 1;
    while i < l - 1
      invariant 1 <= i && (i <= l - 1 || (l == 1 && i == 1))
      invariant forall j :: 0 <= j < 64 ==> v[j] == (8 * i + j < 64 && v0[8 * i + j])
      invariant forall k :: base <= k < base + i ==> OctetIs(p[k], f, k)
      invariant forall k :: 0 <= k < p.Length && !(base <= k < base + i) ==> p[k] == q[k]
    {
      assert Aligned(v, val, shift, i);
      WrittenWhole(q, base, shift, val, size, i, v);
      p[base + i] := LowOctet(v);
      v := Shr64(v, 8);
      i := i + 1;
    }
    if i < l {
      assert Aligned(v, val, shift, i);
      LastKeeps(shift, size, l);
      WrittenOctet(q, base, shift, val, size, i, v, mskn);
      p[base + i] := Merge(p[base + i], LowOctet(v), mskn);
    }
  }

  lemma LastKeeps(shift: nat, size: nat, l: nat)
    requires shift < 8 && size > 0 && l == (shift + size + 7) / 8 && l > 1
    ensures KeepsOutside(LastMask(shift + size), shift, size, l - 1)
  {
    var m := LastMask(shift + size);
    forall j | 0 <= j < 8
      ensures Bit(m, j) == !(shift <= 8 * (l - 1) + j < shift + size)
    {
      LastMaskBits(shift + size, l, j);
    }
  }

  lemma WrittenWhole(p: seq<Octet>, base: nat, shift: nat, val: nat, size: nat, i: nat, v: Word64)
    requires 8 * base + shift + size <= 8 * |p| && shift < 8 && shift + size <= 64
    requires 1 <= i && 8 * i + 8 <= shift + size && Aligned(v, val, shift, i)
    ensures base + i < |p|
    ensures OctetIs(LowOctet(v), NewBits(p, 8 * base + shift, ToBits(val, size)), base + i)
  {
    KeepsNone(shift, size, i);
    WrittenOctet(p, base, shift, val, size, i, v, 0);
    MergeNone(p[base + i], LowOctet(v));
  }

  lemma SameField(q: seq<Octet>, p: seq<Octet>, off: nat, size: nat, val: nat)
    requires off + size <= 8 * |p| && |q| == |p|
    requires forall i :: 0 <= i < 8 * |p| ==> BitAt(q, i) == NewBits(p, off, ToBits(val, size))[i]
    ensures q == SetField(p, off, size, val)
  {
    hide BitAt, SetField, ToBits;
    forall i | 0 <= i < 8 * |p|
      ensures BitAt(q, i) == BitAt(SetField(p, off, size, val), i)
    {
      SetFieldBit(p, off, size, val, i);
    }
    SameBits(q, SetField(p, off, size, val));
  }

  /** All octets of the field are written and the others are untouched. */
  lemma FieldDone(q: seq<Octet>, p: seq<Octet>, off: nat, size: nat, val: nat, l: nat)
    requires off + size <= 8 * |p| && |q| == |p| && size > 0 && l == (off % 8 + size + 7) / 8
    requires forall k :: off / 8 <= k < off / 8 + l && k < |p| ==> OctetIs(q[k], NewBits(p, off, ToBits(val, size)), k)
    requires forall k :: 0 <= k < |p| && !(off / 8 <= k < off / 8 + l) ==> q[k] == p[k]
    ensures q == SetField(p, off, size, val)
  {
    var f := NewBits(p, off, ToBits(val, size));
    hide ToBits, Bit;
    forall i | 0 <= i < 8 * |p|
      ensures BitAt(q, i) == f[i]
    {
      var k := i / 8;
      assert i == 8 * k + i % 8;
      if off / 8 <= k < off / 8 + l {
        assert OctetIs(q[k], f, k);
      }
    }
    SameField(q, p, off, size, val);
  }

  /** CPackHeaderUtil::getNum, which works in 32 bits and shifts a 1 by the size. */
  method GetNum(p: array<Octet>, bitOffset: nat, bitSize: nat) returns (r: nat)
    requires bitOffset + bitSize <= 8 * p.Length && bitOffset % 8 + bitSize <= 32 && bitSize <= 30
    ensures r == GetField(p[..], bitOffset, bitSize)
  {
    if bitSize == 0 {
      assert FieldBits(p[..], bitOffset, 0) == [];
      return 0;
    }
    var shift := bitOffset % 8;
    var base := bitOffset / 8;
    var l := (shift + bitSize + 7) / 8;
    var rval := LoadOctets(p, base, l);
    rval := Shr32(rval, shift);
    rval := MaskLow32(rval, bitSize);
    assert rval == FieldBits(p[..], bitOffset, bitSize) + seq(32 - bitSize, _ => false);
    FromBitsPad(FieldBits(p[..], bitOffset, bitSize), 32 - bitSize);
    return FromBits(rval);
  }

  function Shr32(v: Word32, k: nat): Word32 {
    seq(32, i requires 0 <= i < 32 => i + k < 32 && v[i + k])
  }

  /** v & ((1 << size) - 1) */
  function MaskLow32(v: Word32, size: nat): Word32 {
    seq(32, i requires 0 <= i < 32 => i < size && v[i])
  }

  /** (v << 8) + b: the low octet of the shifted value is empty. */
  function ShiftIn(v: Word32, b: Octet): Word32 {
    seq(32, j requires 0 <= j < 32 => if j < 8 then Bit(b, j) else v[j - 8])
  }

  lemma {:induction false} FromBitsPad(s: seq<bool>, n: nat)
    ensures FromBits(s + seq(n, _ => false)) == FromBits(s)
    decreases |s| + n
  {
    var t := s + seq(n, _ => false);
    if s != [] {
      assert t[1..] == s[1..] + seq(n, _ => false);
      FromBitsPad(s[1..], n);
    } else if n > 0 {
      assert t[1..] == [] + seq(n - 1, _ => false);
      FromBitsPad([], n - 1);
    }
  }

  /** Up to four octets as one little-endian number. */
  method LoadOctets(p: array<Octet>, base: nat, l: nat) returns (rval: Word32)
    requires 1 <= l <= 4 && base + l <= p.Length
    ensures forall j :: 0 <= j < 32 ==> rval[j] == (j < 8 * l && BitAt(p[..], 8 * base + j))
  {
    rval := seq(32, _ => false);
    var i := l - 1;
    while i >= 0
      invariant -1 <= i < l
      invariant forall j :: 0 <= j < 32 ==> rval[j] == (8 * (i + 1) + j < 8 * l && BitAt(p[..], 8 * (base + i + 1) + j))
    {
      ghost var was := rval;
      LoadStep(p[..], base + i, was);
      hide Bit, BitAt;
      rval := ShiftIn(rval, p[base + i]);
      i := i - 1;
    }
  }

  lemma LoadStep(p: seq<Octet>, k: nat, v: Word32)
    requires k < |p|
    ensures forall j :: 0 <= j < 8 ==> ShiftIn(v, p[k])[j] == BitAt(p, 8 * k + j)
    ensures forall j :: 8 <= j < 32 ==> ShiftIn(v, p[k])[j] == v[j - 8]
  {
    hide Bit;
    forall j | 0 <= j < 8
      ensures ShiftIn(v, p[k])[j] == BitAt(p, 8 * k + j)
    {
      OctetBit(p, k, j);
    }
  }
}

/** IIntEntryAdapt::setVal and the masked write of its result (src/cpsw_sval.cc). */
module FieldWrite {
  import opened CircularIndex
  import opened Octets
  import opened Bits
  import opened BitField
  import opened ByteMemory
  import opened FieldCodec
  import opened FieldShift
  import opened FieldCodecOps

  /** The bits of the field in an encoded element; what surrounds them does not matter. */
  ghost predicate Encodes(f: IntField, v: seq<Octet>, o: seq<Octet>)
    requires Writable(f) && v != []
  {
    WritableSize(f);
    && |o| == SizeOf(f)
    && forall i :: 0 <= i < f.sizeBits ==>
         BitAt(Normal(f, o), f.lsb + i) == Resized(BitsOf(v), f.signed, f.sizeBits)[PlaceIn(f, i)]
  }

  // ----- stages

  /** The value, as wide as the field, in the low bits of `r`. */
  ghost predicate HoldsValue(f: IntField, v: seq<Octet>, r: seq<Octet>)
    requires v != []
  {
    f.sizeBits <= 8 * |r| && forall i :: 0 <= i < f.sizeBits ==> BitAt(r, i) == Resized(BitsOf(v), f.signed, f.sizeBits)[i]
  }

  lemma CopiedHolds(f: IntField, v: seq<Octet>, r: seq<Octet>)
    requires v != [] && f.sizeBits <= 8 * |v| && f.sizeBits <= 8 * |r| && r[..Min(|r|, |v|)] == v[..Min(|r|, |v|)]
    ensures HoldsValue(f, v, r)
  {
    hide Bit;
    forall i | 0 <= i < f.sizeBits
      ensures BitAt(r, i) == Resized(BitsOf(v), f.signed, f.sizeBits)[i]
    {
      assert r[i / 8] == r[..Min(|r|, |v|)][i / 8] == v[i / 8];
    }
  }

  lemma ExtendedHolds(f: IntField, v: seq<Octet>, r: seq<Octet>)
    requires v != [] && 8 * |v| < f.sizeBits <= 8 * |r| && r[..|v|] == v
    ensures HoldsValue(f, v, Extended(r, 8 * |v|, f.signed))
  {
    hide Bit, Extended;
    var q := Extended(r, 8 * |v|, f.signed);
    forall i | 0 <= i < f.sizeBits
      ensures BitAt(q, i) == Resized(BitsOf(v), f.signed, f.sizeBits)[i]
    {
      ExtendedBit(r, 8 * |v|, f.signed, i);
      var k := if i < 8 * |v| then i else 8 * |v| - 1;
      assert r[k / 8] == r[..|v|][k / 8] == v[k / 8];
      assert BitAt(r, k) == BitAt(v, k);
    }
  }

  /** Word order, shift and byte order put every bit in its place. */
  lemma PlacedEncodes(f: IntField, v: seq<Octet>, r: seq<Octet>, s: seq<Octet>)
    requires Writable(f) && v != [] && |r| == |s| == SizeOf(f) && HoldsValue(f, v, r)
    requires NBytes(f) <= |r|
    requires s == Normal(f, ShiftedLeft(if f.wlen > 0 then Swapped(r, NBytes(f), f.wlen) else r, f.lsb))
    ensures Encodes(f, v, s)
  {
    hide Bit, BitAt, Normal, ShiftedLeft, Swapped, Resized, BitsOf;
    WritableSize(f);
    var w := if f.wlen > 0 then Swapped(r, NBytes(f), f.wlen) else r;
    NormalTwice(f, ShiftedLeft(w, f.lsb));
    forall i | 0 <= i < f.sizeBits
      ensures BitAt(Normal(f, s), f.lsb + i) == Resized(BitsOf(v), f.signed, f.sizeBits)[PlaceIn(f, i)]
    {
      ShiftedLeftBit(w, f.lsb, f.lsb + i);
      SwappedBit(f, r, i);
    }
  }

  lemma SwappedBit(f: IntField, r: seq<Octet>, i: nat)
    requires Writable(f) && |r| == SizeOf(f) && i < f.sizeBits && NBytes(f) <= |r|
    ensures i < 8 * |r| && Place(f, i) < 8 * |r|
    ensures BitAt(if f.wlen > 0 then Swapped(r, NBytes(f), f.wlen) else r, i) == BitAt(r, Place(f, i))
  {
    hide Bit, SwapByte;
    if f.wlen > 0 {
      var p := Place(f, i);
      assert p / 8 == InRange(NBytes(f), f.wlen, i / 8) && p % 8 == i % 8;
    }
  }

  // ----- encoding

  /** One round of the loop; the rest of the temporary buffer has any content. */
  method EncodeElement(obuf: array<Octet>, ooff: nat, v: seq<Octet>, f: IntField)
    requires Writable(f) && v != [] && ooff + SizeOf(f) <= obuf.Length
    modifies obuf
    ensures Encodes(f, v, Region(obuf, ooff, SizeOf(f)))
    ensures forall k :: 0 <= k < obuf.Length && !(ooff <= k < ooff + SizeOf(f)) ==> obuf[k] == old(obuf[k])
  {
    hide SizeOf, Swapped, ShiftedLeft, Extended, HoldsValue, Encodes, Region;
    var d, e := SizeOf(f), |v|;
    ValidSize(f);
    var len := Min(d, e);
    Copy(obuf, ooff, v[..len]);
    ghost var r0 := obuf[ooff..ooff + d];
    RegionIs(obuf, ooff, d);
    assert r0[..len] == v[..len];
    if f.sizeBits > 8 * e {
      SignExtend(obuf, ooff, d, 8 * e, f.signed);
      ExtendedHolds(f, v, r0);
    } else {
      CopiedHolds(f, v, r0);
    }
    ghost var r := Region(obuf, ooff, d);
    PlaceBits(obuf, ooff, f);
    PlacedEncodes(f, v, r, Region(obuf, ooff, d));
  }

  lemma RegionIs(a: array<Octet>, off: nat, n: nat)
    requires off + n <= a.Length
    ensures Region(a, off, n) == a[off..off + n]
  {
  }

  method PlaceBits(obuf: array<Octet>, ooff: nat, f: IntField)
    requires Writable(f) && ooff + SizeOf(f) <= obuf.Length && NBytes(f) <= SizeOf(f)
    modifies obuf
    ensures var r := old(Region(obuf, ooff, SizeOf(f)));
            Region(obuf, ooff, SizeOf(f)) ==
              Normal(f, ShiftedLeft(if f.wlen > 0 then Swapped(r, NBytes(f), f.wlen) else r, f.lsb))
    ensures forall k :: 0 <= k < obuf.Length && !(ooff <= k < ooff + SizeOf(f)) ==> obuf[k] == old(obuf[k])
  {
    hide SizeOf, Swapped, ShiftedLeft, Region;
    var d := SizeOf(f);
    ghost var r := Region(obuf, ooff, d);
    if f.wlen > 0 {
      SwapWords(obuf, ooff, d, NBytes(f), f.wlen);
    }
    ghost var w := Region(obuf, ooff, d);
    NoShift(w);
    if f.lsb != 0 {
      ShiftLeft(obuf, ooff, d, f.lsb);
    }
    if f.bigEndian {
      Swap(obuf, ooff, d, 1);
    }
  }

  // ----- masks

  /** msk1 and mskn: the bits to keep in the first and the last octet in memory. */
  function FirstMask(f: IntField): Octet
    requires f.lsb < 8
  {
    if f.bigEndian then LastMask(f.lsb + f.sizeBits) else LowMask(f.lsb)
  }

  function FinalMask(f: IntField): Octet
    requires f.lsb < 8
  {
    if f.bigEndian then LowMask(f.lsb) else LastMask(f.lsb + f.sizeBits)
  }

  /** Position in memory of the k-th octet in order of significance. */
  function MemIndex(f: IntField, n: nat, k: nat): (r: nat)
    requires k < n
    ensures r < n
  {
    if f.bigEndian then n - 1 - k else k
  }

  /** The masks keep exactly what is not part of the field. */
  lemma MaskBits(f: IntField, k: nat, j: nat)
    requires Writable(f) && k < SizeOf(f) && j < 8
    ensures var d := SizeOf(f);
            Bit(EdgeMask(MemIndex(f, d, k), d, FirstMask(f), FinalMask(f)), j) ==
              !(f.lsb <= 8 * k + j < f.lsb + f.sizeBits)
  {
    hide Bit, LowMask, LastMask;
    WritableSize(f);
    var d := SizeOf(f);
    if d == 1 {
      BitOr(LowMask(f.lsb), LastMask(f.lsb + f.sizeBits), j);
      BitOr(LastMask(f.lsb + f.sizeBits), LowMask(f.lsb), j);
      FirstMaskBits(f.lsb, f.sizeBits, j);
    } else if k == 0 {
      FirstMaskBits(f.lsb, f.sizeBits, j);
    } else if k == d - 1 {
      LastMaskBits(f.lsb + f.sizeBits, d, j);
    } else {
      NoBits(j);
    }
  }

  lemma NormalAt(f: IntField, m: seq<Octet>, k: nat)
    requires k < |m|
    ensures Normal(f, m)[k] == m[MemIndex(f, |m|, k)]
  {
    if f.bigEndian {
      SwapByteAt(|m|, 1, k, 0);
    }
  }

  /** A masked write of an encoded value changes the field and nothing else. */
  lemma MaskedIsWritten(f: IntField, v: seq<Octet>, m: seq<Octet>, o: seq<Octet>)
    requires Writable(f) && v != [] && |m| == SizeOf(f) && Encodes(f, v, o)
    ensures MaskedCopy(m, o, FirstMask(f), FinalMask(f)) == Written(f, m, v)
  {
    hide Bit, Normal, MaskedCopy, SizeOf, WrittenBits, Resized, BitsOf;
    var c := MaskedCopy(m, o, FirstMask(f), FinalMask(f));
    var b := WrittenBits(f, m, v);
    forall i | 0 <= i < 8 * |m|
      ensures BitAt(Normal(f, c), i) == BitAt(Pack(|m|, b), i)
    {
      PackBit(|m|, b, i);
      MaskedBit(f, v, m, o, i);
    }
    SameBits(Normal(f, c), Pack(|m|, b));
    NormalTwice(f, c);
  }

  lemma MaskedBit(f: IntField, v: seq<Octet>, m: seq<Octet>, o: seq<Octet>, i: nat)
    requires Writable(f) && v != [] && |m| == SizeOf(f) && Encodes(f, v, o) && i < 8 * |m|
    ensures BitAt(Normal(f, MaskedCopy(m, o, FirstMask(f), FinalMask(f))), i) == WrittenBits(f, m, v)[i]
  {
    hide Bit, Normal, MaskedCopy, SizeOf, EdgeMask, FirstMask, FinalMask, Resized, BitsOf;
    var c := MaskedCopy(m, o, FirstMask(f), FinalMask(f));
    var k, j := i / 8, i % 8;
    assert i == 8 * k + j;
    NormalAt(f, c, k);
    NormalAt(f, m, k);
    NormalAt(f, o, k);
    MaskBits(f, k, j);
    MaskedCopyBit(m, o, FirstMask(f), FinalMask(f), MemIndex(f, |m|, k), j);
    if f.lsb <= i < f.lsb + f.sizeBits {
      assert i == f.lsb + (i - f.lsb);
      assert BitAt(Normal(f, o), f.lsb + (i - f.lsb)) ==
             Resized(BitsOf(v), f.signed, f.sizeBits)[PlaceIn(f, i - f.lsb)];
    }
  }

  // ----- arrays of elements, written

  /** A value that needs no transformation is written as it is. */
  lemma PlainEncodes(f: IntField, v: seq<Octet>)
    requires Writable(f) && v != [] && !f.bigEndian && f.lsb == 0 && f.sizeBits == 8 * |v| && f.wlen == 0
    ensures Encodes(f, v, v)
  {
    hide Bit;
  }

  /** The elements from n on are encoded. */
  ghost predicate Encoded(o: seq<Octet>, vals: seq<Octet>, n: nat, nelms: nat, f: IntField, e: nat)
    requires Writable(f)
  {
    forall m :: n <= m < nelms ==> Elem(vals, m, e) != [] && Encodes(f, Elem(vals, m, e), Elem(o, m, SizeOf(f)))
  }

  method EncodeStep(obuf: array<Octet>, oidx: nat, vals: seq<Octet>, iidx: nat, n: nat, f: IntField, e: nat,
                    ghost nelms: nat)
    requires Writable(f) && e > 0 && iidx == n * e && oidx == n * SizeOf(f)
    requires iidx + e <= |vals| && oidx + SizeOf(f) <= obuf.Length
    requires Encoded(obuf[..], vals, n + 1, nelms, f, e)
    modifies obuf
    ensures Encoded(obuf[..], vals, n, nelms, f, e)
  {
    hide SizeOf, Encodes, Elem, Writable, Region;
    var d := SizeOf(f);
    ghost var ob := obuf[..];
    ElemIs(vals, n, e);
    EncodeElement(obuf, oidx, vals[iidx..iidx + e], f);
    RegionIs(obuf, oidx, d);
    ElemIs(obuf[..], n, d);
    assert obuf[..][oidx..oidx + d] == obuf[oidx..oidx + d];
    forall m | n < m < nelms ensures Elem(obuf[..], m, d) == Elem(ob, m, d) {
      ElemAfter(obuf[..], ob, m, n, d);
    }
  }

  /** The loop of setVal over a temporary buffer, last element first. */
  method Encode(vals: seq<Octet>, nelms: nat, f: IntField, e: nat) returns (o: seq<Octet>)
    requires Writable(f) && e > 0 && |vals| == nelms * e
    ensures |o| == nelms * SizeOf(f) && Encoded(o, vals, 0, nelms, f, e)
  {
    hide SizeOf, Encodes, Elem, Writable, Encoded;
    var d := SizeOf(f);
    if !f.bigEndian && f.lsb == 0 && f.sizeBits == 8 * e && f.wlen == 0 {
      PlainEncoded(vals, nelms, f, e);
      return vals;
    }
    assert nelms * d >= 0;
    var obuf := new Octet[nelms * d];
    var n, iidx, oidx := nelms, nelms * e, nelms * d;
    NothingEncoded(obuf[..], vals, nelms, f, e);
    while n > 0
      invariant 0 <= n <= nelms && iidx == n * e && oidx == n * d
      invariant 0 <= iidx <= |vals| && 0 <= oidx <= obuf.Length
      invariant Encoded(obuf[..], vals, n, nelms, f, e)
    {
      OneLess(n, d);
      OneLess(n, e);
      n, iidx, oidx := n - 1, iidx - e, oidx - d;
      EncodeStep(obuf, oidx, vals, iidx, n, f, e, nelms);
    }
    return obuf[..];
  }

  lemma NothingEncoded(o: seq<Octet>, vals: seq<Octet>, nelms: nat, f: IntField, e: nat)
    requires Writable(f)
    ensures Encoded(o, vals, nelms, nelms, f, e)
  {
  }

  lemma PlainEncoded(vals: seq<Octet>, nelms: nat, f: IntField, e: nat)
    requires Writable(f) && !f.bigEndian && f.lsb == 0 && f.sizeBits == 8 * e && f.wlen == 0 && e > 0 && nelms * e <= |vals|
    ensures SizeOf(f) == e && Encoded(vals, vals, 0, nelms, f, e)
  {
    hide Encodes, Elem;
    NothingToDo(f, e);
    ElemsWhole(vals, nelms, e);
    forall n | 0 <= n < nelms ensures Encodes(f, Elem(vals, n, e), Elem(vals, n, e)) {
      PlainEncodes(f, Elem(vals, n, e));
    }
  }

  /** The device memory that one element occupies. */
  function At(mem: seq<Octet>, addr: nat, d: nat): (m: seq<Octet>)
    requires addr + d <= |mem|
    ensures |m| == d
  {
    mem[addr..addr + d]
  }

  /** Elements below n have been written. */
  ghost predicate Stored(mem: seq<Octet>, was: seq<Octet>, vals: seq<Octet>, base: nat, stride: nat, n: nat,
                         nelms: nat, f: IntField, e: nat)
    requires Writable(f) && |mem| == |was|
  {
    forall m :: 0 <= m < nelms ==>
      && 0 <= base + m * stride && base + m * stride + SizeOf(f) <= |mem| && Elem(vals, m, e) != []
      && At(mem, base + m * stride, SizeOf(f)) ==
           if m < n then Written(f, At(was, base + m * stride, SizeOf(f)), Elem(vals, m, e))
           else At(was, base + m * stride, SizeOf(f))
  }

  /** Octets that belong to no element. */
  ghost predicate Between(k: nat, base: nat, stride: nat, nelms: nat, d: nat) {
    forall m :: 0 <= m < nelms ==> !(base + m * stride <= k < base + m * stride + d)
  }

  lemma NothingStored(was: seq<Octet>, vals: seq<Octet>, base: nat, stride: nat, nelms: nat, f: IntField, e: nat)
    requires Writable(f) && e > 0 && |vals| == nelms * e
    requires nelms > 0 ==> base + (nelms - 1) * stride + SizeOf(f) <= |was|
    ensures Stored(was, was, vals, base, stride, 0, nelms, f, e)
  {
    hide SizeOf, Elem, Writable;
    ElemsWhole(vals, nelms, e);
    forall m | 0 <= m < nelms
      ensures 0 <= base + m * stride && base + m * stride + SizeOf(f) <= |was| && Elem(vals, m, e) != []
    {
      StrideStep(m, nelms, stride);
    }
  }

  lemma StrideStep(m: nat, nelms: nat, stride: nat)
    requires m < nelms
    ensures 0 <= m * stride <= (nelms - 1) * stride && (m + 1) * stride == m * stride + stride
  {
    var d := nelms - 1 - m;
    Distribute(m, d, stride);
    Distribute(m, 1, stride);
    assert 0 <= m * stride && 0 <= d * stride;
  }

  lemma Distribute(a: nat, b: nat, c: nat)
    ensures (a + b) * c == a * c + b * c
  {
  }

  lemma ApartElems(m: nat, n: nat, stride: nat, d: nat)
    requires m != n && d <= stride
    ensures m * stride + d <= n * stride || n * stride + d <= m * stride
  {
    if m < n {
      ElemStep(m, n, stride);
    } else {
      ElemStep(n, m, stride);
    }
  }

  /** One element is written to the device. */
  method StoreStep(mem: array<Octet>, addr: nat, o: seq<Octet>, src: nat, ghost was: seq<Octet>, ghost vals: seq<Octet>,
                   ghost base: nat, ghost stride: nat, ghost n: nat, ghost nelms: nat, f: IntField, ghost e: nat)
    requires Writable(f) && n < nelms && stride >= SizeOf(f)
    requires addr == base + n * stride && src == n * SizeOf(f) && src + SizeOf(f) <= |o| && |was| == mem.Length
    requires Encoded(o, vals, 0, nelms, f, e) && Stored(mem[..], was, vals, base, stride, n, nelms, f, e)
    modifies mem
    ensures Stored(mem[..], was, vals, base, stride, n + 1, nelms, f, e)
    ensures addr + SizeOf(f) <= mem.Length
    ensures forall k :: 0 <= k < mem.Length && !(addr <= k < addr + SizeOf(f)) ==> mem[k] == old(mem[k])
  {
    hide SizeOf, Encodes, Elem, Written, FirstMask, FinalMask, MaskedCopy;
    var d := SizeOf(f);
    ghost var mm := mem[..];
    SizePositive(f);
    assert Elem(vals, n, e) != [] && addr + d <= mem.Length;
    ElemIs(o, n, d);
    WriteFunc8(mem, addr, o[src..src + d], FirstMask(f), FinalMask(f));
    MaskedIsWritten(f, Elem(vals, n, e), At(was, addr, d), o[src..src + d]);
    forall m | 0 <= m < nelms && m != n
      ensures At(mem[..], base + m * stride, d) == At(mm, base + m * stride, d)
    {
      ApartElems(m, n, stride, d);
    }
  }

  lemma SizePositive(f: IntField)
    requires Writable(f)
    ensures SizeOf(f) > 0
  {
  }

  /** IIntEntryAdapt::setVal: each element of the memory takes its value and nothing else changes. */
  method SetVal(mem: array<Octet>, base: nat, stride: nat, vals: seq<Octet>, nelms: nat, f: IntField, e: nat)
    requires Writable(f) && e > 0 && |vals| == nelms * e && stride >= SizeOf(f)
    requires nelms > 0 ==> base + (nelms - 1) * stride + SizeOf(f) <= mem.Length
    modifies mem
    ensures Stored(mem[..], old(mem[..]), vals, base, stride, nelms, nelms, f, e)
    ensures forall k :: 0 <= k < mem.Length && Between(k, base, stride, nelms, SizeOf(f)) ==> mem[k] == old(mem[k])
  {
    hide SizeOf, Encodes, Elem, Writable, Encoded, Written, Stored;
    ghost var was := mem[..];
    var d := SizeOf(f);
    var o := Encode(vals, nelms, f, e);
    NothingStored(was, vals, base, stride, nelms, f, e);
    var n, addr, src := 0, base, 0;
    while n < nelms
      invariant 0 <= n <= nelms && addr == base + n * stride && src == n * d
      invariant Stored(mem[..], was, vals, base, stride, n, nelms, f, e)
      invariant forall k :: 0 <= k < mem.Length && Between(k, base, stride, nelms, d) ==> mem[k] == was[k]
    {
      StrideStep(n, nelms, stride);
      ElemStep(n, nelms, d);
      StoreStep(mem, addr, o, src, was, vals, base, stride, n, nelms, f, e);
      n, addr, src := n + 1, addr + stride, src + d;
    }
  }
}

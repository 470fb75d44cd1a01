/** getVal and setVal element loops (src/cpsw_sval.cc): CGetIntValContext::doComplete decodes in
    place when the caller's elements are at least as large as those in memory. */
module FieldCodecOps {
  import opened CircularIndex
  import opened Octets
  import opened Bits
  import opened BitField
  import opened ByteMemory
  import opened FieldCodec
  import opened FieldShift

  // ----- one element, read

  function Shifted(f: IntField, m: seq<Octet>): (r: seq<Octet>)
    requires Valid(f)
    ensures |r| == |m|
  {
    ShiftedRight(Normal(f, m), f.lsb)
  }

  /** The element with byte order, bit shift and word order undone. */
  function Aligned(f: IntField, m: seq<Octet>): (r: seq<Octet>)
    requires Valid(f) && |m| == SizeOf(f)
    ensures |r| == |m|
  {
    ValidSize(f);
    if f.wlen > 0 then Swapped(Shifted(f, m), NBytes(f), f.wlen) else Shifted(f, m)
  }

  lemma AlignedBit(f: IntField, m: seq<Octet>, i: nat)
    requires Valid(f) && |m| == SizeOf(f) && i < f.sizeBits
    ensures i < 8 * |m| && BitAt(Aligned(f, m), i) == ValueBit(f, m, i)
  {
    hide Bit, Normal, ShiftedRight, SwapByte;
    ValidSize(f);
    PlaceInSize(f, i);
    var p := Place(f, i);
    var s := Shifted(f, m);
    ShiftedRightBit(Normal(f, m), f.lsb, p);
    if f.wlen > 0 {
      assert p / 8 == InRange(NBytes(f), f.wlen, i / 8) && p % 8 == i % 8;
      assert Aligned(f, m)[i / 8] == s[p / 8];
    }
  }

  lemma NoShift(s: seq<Octet>)
    ensures ShiftedRight(s, 0) == s && ShiftedLeft(s, 0) == s
  {
    hide ShiftedRight, ShiftedLeft, Bit;
    forall i | 0 <= i < 8 * |s| ensures BitAt(ShiftedRight(s, 0), i) == BitAt(s, i) {
      ShiftedRightBit(s, 0, i);
    }
    SameBits(ShiftedRight(s, 0), s);
    forall i | 0 <= i < 8 * |s| ensures BitAt(ShiftedLeft(s, 0), i) == BitAt(s, i) {
      ShiftedLeftBit(s, 0, i);
    }
    SameBits(ShiftedLeft(s, 0), s);
  }

  /** Words are swapped in the first n of d octets. */
  method SwapWords(a: array<Octet>, off: nat, d: nat, n: nat, w: nat)
    requires off + d <= a.Length && n <= d && w > 0 && n % w == 0
    modifies a
    ensures Region(a, off, d) == Swapped(old(Region(a, off, d)), n, w)
    ensures forall k :: 0 <= k < a.Length && !(off <= k < off + d) ==> a[k] == old(a[k])
  {
    hide Swapped;
    ghost var s := Region(a, off, d);
    Swap(a, off, n, w);
    SwappedPrefix(s, n, w);
    assert forall k :: off + n <= k < off + d ==> a[k] == s[k - off];
    ghost var r := Region(a, off, d);
    assert r[..n] == Region(a, off, n);
    assert s[..n] == old(Region(a, off, n));
    assert r == r[..n] + s[n..];
  }

  lemma SwappedPrefix(s: seq<Octet>, n: nat, w: nat)
    requires w > 0 && n % w == 0 && n <= |s|
    ensures Swapped(s, n, w) == Swapped(s[..n], n, w) + s[n..]
  {
    hide SwapByte;
  }

  method Align(a: array<Octet>, off: nat, f: IntField)
    requires Valid(f) && off + SizeOf(f) <= a.Length
    modifies a
    ensures Region(a, off, SizeOf(f)) == Aligned(f, old(Region(a, off, SizeOf(f))))
    ensures forall k :: 0 <= k < a.Length && !(off <= k < off + SizeOf(f)) ==> a[k] == old(a[k])
  {
    hide Swapped, ShiftedRight, SizeOf, Region;
    ValidSize(f);
    var d := SizeOf(f);
    ghost var m := Region(a, off, d);
    if f.bigEndian {
      Swap(a, off, d, 1);
    }
    assert Region(a, off, d) == Normal(f, m);
    if f.lsb != 0 {
      ShiftRight(a, off, d, f.lsb);
    }
    NoShift(Normal(f, m));
    assert Region(a, off, d) == Shifted(f, m);
    if f.wlen > 0 {
      SwapWords(a, off, d, NBytes(f), f.wlen);
    }
  }

  /** memmove */
  method Move(dst: array<Octet>, doff: nat, src: array<Octet>, soff: nat, n: nat)
    requires doff + n <= dst.Length && soff + n <= src.Length
    modifies dst
    ensures Region(dst, doff, n) == old(Region(src, soff, n))
    ensures forall k :: 0 <= k < dst.Length && !(doff <= k < doff + n) ==> dst[k] == old(dst[k])
  {
    var tmp := src[soff..soff + n];
    forall k | doff <= k < doff + n {
      dst[k] := tmp[k - doff];
    }
  }

  function Min(a: nat, b: nat): nat {
    if a < b then a else b
  }

  /** The first octets of `r` hold the aligned element; after sign extension, if it is needed, the
      result is the decoded value. */
  lemma ExtendedIsDecoded(f: IntField, m: seq<Octet>, r: seq<Octet>, q: seq<Octet>)
    requires Valid(f) && |m| == SizeOf(f) && |r| == |q|
    requires r[..Min(|m|, |r|)] == Aligned(f, m)[..Min(|m|, |r|)]
    requires q == if f.sizeBits < 8 * |r| then Extended(r, f.sizeBits, f.signed) else r
    ensures q == Decoded(f, m, |r|)
  {
    hide Bit, BitAt, Extended, Aligned, Decoded, ValueBit;
    forall i | 0 <= i < 8 * |r|
      ensures BitAt(q, i) == BitAt(Decoded(f, m, |r|), i)
    {
      DecodedBit(f, m, |r|, i);
      if f.sizeBits < 8 * |r| {
        ExtendedBit(r, f.sizeBits, f.signed, i);
        ExtendedSource(f, m, r, f.sizeBits - 1);
      }
      if i < f.sizeBits {
        ExtendedSource(f, m, r, i);
      }
    }
    SameBits(q, Decoded(f, m, |r|));
  }

  lemma ExtendedSource(f: IntField, m: seq<Octet>, r: seq<Octet>, i: nat)
    requires Valid(f) && |m| == SizeOf(f) && i < f.sizeBits && i < 8 * |r|
    requires r[..Min(|m|, |r|)] == Aligned(f, m)[..Min(|m|, |r|)]
    ensures BitAt(r, i) == ValueBit(f, m, i)
  {
    hide Bit, Aligned, ValueBit;
    AlignedBit(f, m, i);
    assert r[i / 8] == r[..Min(|m|, |r|)][i / 8] == Aligned(f, m)[i / 8];
  }

  /** One round of the loop. Input and output may be parts of the same array. */
  method DecodeElement(ibuf: array<Octet>, ioff: nat, obuf: array<Octet>, ooff: nat, f: IntField, e: nat)
    requires Valid(f) && ioff + SizeOf(f) <= ibuf.Length && ooff + e <= obuf.Length
    modifies ibuf, obuf
    ensures Region(obuf, ooff, e) == Decoded(f, old(Region(ibuf, ioff, SizeOf(f))), e)
    ensures forall k :: 0 <= k < obuf.Length && !(ooff <= k < ooff + e) && !(ioff <= k < ioff + SizeOf(f)) ==>
              obuf[k] == old(obuf[k])
    ensures forall k :: 0 <= k < ibuf.Length && !(ooff <= k < ooff + e) && !(ioff <= k < ioff + SizeOf(f)) ==>
              ibuf[k] == old(ibuf[k])
    ensures ibuf != obuf ==>
              && (forall k :: 0 <= k < obuf.Length && !(ooff <= k < ooff + e) ==> obuf[k] == old(obuf[k]))
              && (forall k :: 0 <= k < ibuf.Length && !(ioff <= k < ioff + SizeOf(f)) ==> ibuf[k] == old(ibuf[k]))
  {
    hide Aligned, Decoded, SizeOf, Extended, Valid;
    var d := SizeOf(f);
    ghost var m := Region(ibuf, ioff, d);
    Align(ibuf, ioff, f);
    ghost var al := Region(ibuf, ioff, d);
    var len := Min(d, e);
    assert Region(ibuf, ioff, len) == al[..len];
    Move(obuf, ooff, ibuf, ioff, len);
    ghost var r := Region(obuf, ooff, e);
    assert r[..len] == Region(obuf, ooff, len);
    if f.sizeBits < 8 * e {
      assert f.sizeBits >= 1 by { ValidBits(f); }
      SignExtend(obuf, ooff, e, f.sizeBits, f.signed);
    }
    ExtendedIsDecoded(f, m, r, Region(obuf, ooff, e));
  }

  lemma ValidBits(f: IntField)
    requires Valid(f)
    ensures f.sizeBits >= 1
  {
  }

  // ----- arrays of elements, read

  /** Element n of k octets. */
  function Elem(s: seq<Octet>, n: nat, k: nat): seq<Octet> {
    if n * k + k <= |s| then s[n * k..n * k + k] else []
  }

  lemma MulNat(a: nat, b: nat)
    ensures a * b >= 0
  {
  }

  lemma ElemStep(n: nat, m: nat, k: nat)
    requires n < m
    ensures 0 <= n * k && n * k + k <= m * k
  {
    var x: nat := m - n - 1;
    MulNat(n, k);
    MulNat(x, k);
    assert (n + 1 + x) * k == n * k + k + x * k;
  }

  lemma OneLess(n: nat, k: nat)
    requires n > 0
    ensures 0 <= (n - 1) * k == n * k - k
  {
  }

  lemma ElemBefore(s: seq<Octet>, t: seq<Octet>, m: nat, n: nat, k: nat)
    requires m < n && n * k <= |s| && |s| == |t| && s[..n * k] == t[..n * k]
    ensures Elem(s, m, k) == Elem(t, m, k)
  {
    ElemStep(m, n, k);
    SameInFront(s, t, n * k, m * k, m * k + k);
  }

  lemma ElemAfter(s: seq<Octet>, t: seq<Octet>, m: nat, n: nat, k: nat)
    requires n < m && n * k + k <= |s| && |s| == |t| && s[n * k + k..] == t[n * k + k..]
    ensures Elem(s, m, k) == Elem(t, m, k)
  {
    ElemStep(n, m, k);
    if m * k + k <= |s| {
      SameBehind(s, t, n * k + k, m * k, m * k + k);
    }
  }

  lemma SameBehind(s: seq<Octet>, t: seq<Octet>, o: nat, a: nat, b: nat)
    requires o <= a <= b <= |s| == |t| && s[o..] == t[o..]
    ensures s[a..b] == t[a..b]
  {
    forall k | a <= k < b ensures s[k] == t[k] {
      assert s[k] == s[o..][k - o] && t[k] == t[o..][k - o];
    }
  }

  lemma SameInFront(s: seq<Octet>, t: seq<Octet>, o: nat, a: nat, b: nat)
    requires a <= b <= o <= |s| == |t| && s[..o] == t[..o]
    ensures s[a..b] == t[a..b]
  {
    forall k | a <= k < b ensures s[k] == t[k] {
      assert s[k] == s[..o][k] && t[k] == t[..o][k];
    }
  }

  lemma WiderElem(n: nat, d: nat, e: nat)
    requires d <= e
    ensures n * d <= n * e && n * d + d <= n * e + e
  {
    assert n * e == n * d + n * (e - d);
    assert n * (e - d) >= 0;
  }

  /** An element decoded from the back: what lies before its input and behind its output stays. */
  method DecodeBackward(ibuf: array<Octet>, ioff: nat, obuf: array<Octet>, ooff: nat, f: IntField, e: nat)
    requires Valid(f) && ioff + SizeOf(f) <= ibuf.Length && ooff + e <= obuf.Length
    requires ibuf == obuf ==> ioff <= ooff && ioff + SizeOf(f) <= ooff + e
    modifies ibuf, obuf
    ensures obuf[ooff..ooff + e] == Decoded(f, old(ibuf[ioff..ioff + SizeOf(f)]), e)
    ensures ibuf[..ioff] == old(ibuf[..ioff])
    ensures obuf[ooff + e..] == old(obuf[ooff + e..])
  {
    hide Decoded, SizeOf, Valid;
    ghost var d := SizeOf(f);
    DecodeElement(ibuf, ioff, obuf, ooff, f, e);
    assert forall k :: 0 <= k < ioff ==> ibuf[k] == old(ibuf[k]);
    assert forall k :: ooff + e <= k < obuf.Length ==> obuf[k] == old(obuf[k]);
  }

  /** The first n raw elements are still in place. */
  ghost predicate Unread(s: seq<Octet>, raw: seq<Octet>, n: nat, d: nat) {
    forall m :: 0 <= m < n ==> Elem(s, m, d) == Elem(raw, m, d)
  }

  /** The elements from n on are decoded. */
  ghost predicate Finished(s: seq<Octet>, raw: seq<Octet>, n: nat, nelms: nat, f: IntField, e: nat)
    requires Valid(f)
  {
    forall m :: n <= m < nelms ==>
      |Elem(raw, m, SizeOf(f))| == SizeOf(f) && Elem(s, m, e) == Decoded(f, Elem(raw, m, SizeOf(f)), e)
  }

  /** One round at the indices of element n. */
  method DecodeStep(ibuf: array<Octet>, obuf: array<Octet>, n: nat, iidx: nat, oidx: nat, f: IntField, e: nat,
                    ghost raw: seq<Octet>, ghost nelms: nat)
    requires Valid(f) && iidx == n * SizeOf(f) && oidx == n * e
    requires iidx + SizeOf(f) <= ibuf.Length && oidx + e <= obuf.Length
    requires ibuf == obuf ==> SizeOf(f) <= e
    requires Unread(ibuf[..], raw, n + 1, SizeOf(f)) && Finished(obuf[..], raw, n + 1, nelms, f, e)
    modifies ibuf, obuf
    ensures Unread(ibuf[..], raw, n, SizeOf(f)) && Finished(obuf[..], raw, n, nelms, f, e)
  {
    hide Decoded, SizeOf, Valid, Elem;
    var d := SizeOf(f);
    if d <= e {
      WiderElem(n, d, e);
    }
    ghost var ib, ob := ibuf[..], obuf[..];
    ElemIs(ib, n, d);
    DecodeBackward(ibuf, iidx, obuf, oidx, f, e);
    ElemIs(obuf[..], n, e);
    forall m | 0 <= m < n ensures Elem(ibuf[..], m, d) == Elem(raw, m, d) {
      ElemBefore(ibuf[..], ib, m, n, d);
    }
    forall m | n < m < nelms ensures Elem(obuf[..], m, e) == Elem(ob, m, e) {
      ElemAfter(obuf[..], ob, m, n, e);
    }
  }

  lemma StepBack(n: nat, k: nat, idx: nat)
    requires n > 0 && idx == n * k
    ensures k <= idx && idx - k == (n - 1) * k
  {
    OneLess(n, k);
  }

  /** CGetIntValContext::doComplete. The caller's buffer also takes the raw elements when they are
      not larger than the ones it wants; decoding from the last to the first never overwrites an
      element that is still to be read. */
  method Decode(ibuf: array<Octet>, obuf: array<Octet>, nelms: nat, f: IntField, e: nat)
    requires Valid(f) && nelms * SizeOf(f) <= ibuf.Length && nelms * e <= obuf.Length
    requires ibuf == obuf <==> SizeOf(f) <= e
    modifies ibuf, obuf
    ensures Finished(obuf[..], old(ibuf[..]), 0, nelms, f, e)
  {
    hide Decoded, SizeOf, Valid, Elem, Unread, Finished;
    var d := SizeOf(f);
    ghost var raw := ibuf[..];
    if !f.bigEndian && f.lsb == 0 && f.sizeBits == 8 * e && f.wlen == 0 {
      PlainElements(raw, nelms, f, e);
      return;
    }
    var n, iidx, oidx := nelms, nelms * d, nelms * e;
    NoneDone(raw, obuf[..], nelms, f, e);
    while n > 0
      invariant 0 <= n <= nelms && iidx == n * d && oidx == n * e
      invariant 0 <= iidx <= ibuf.Length && 0 <= oidx <= obuf.Length
      invariant Unread(ibuf[..], raw, n, d) && Finished(obuf[..], raw, n, nelms, f, e)
    {
      StepBack(n, d, iidx);
      StepBack(n, e, oidx);
      n, iidx, oidx := n - 1, iidx - d, oidx - e;
      DecodeStep(ibuf, obuf, n, iidx, oidx, f, e, raw, nelms);
    }
  }

  lemma NoneDone(raw: seq<Octet>, s: seq<Octet>, nelms: nat, f: IntField, e: nat)
    requires Valid(f)
    ensures Unread(raw, raw, nelms, SizeOf(f)) && Finished(s, raw, nelms, nelms, f, e)
  {
  }

  lemma PlainElements(raw: seq<Octet>, nelms: nat, f: IntField, e: nat)
    requires Valid(f) && !f.bigEndian && f.lsb == 0 && f.sizeBits == 8 * e && f.wlen == 0 && nelms * e <= |raw|
    ensures SizeOf(f) == e && Finished(raw, raw, 0, nelms, f, e)
  {
    hide Decoded, Elem;
    NothingToDo(f, e);
    ElemsWhole(raw, nelms, e);
    forall n | 0 <= n < nelms ensures Elem(raw, n, e) == Decoded(f, Elem(raw, n, e), e) {
      PlainElement(f, Elem(raw, n, e), e);
    }
  }

  lemma ElemIs(s: seq<Octet>, n: nat, k: nat)
    requires n * k + k <= |s|
    ensures Elem(s, n, k) == s[n * k..n * k + k]
  {
  }

  lemma ElemsWhole(s: seq<Octet>, nelms: nat, k: nat)
    requires nelms * k <= |s|
    ensures forall n :: 0 <= n < nelms ==> |Elem(s, n, k)| == k
  {
    forall n | 0 <= n < nelms ensures |Elem(s, n, k)| == k {
      ElemStep(n, nelms, k);
    }
  }

  lemma NothingToDo(f: IntField, e: nat)
    requires Valid(f) && !f.bigEndian && f.lsb == 0 && f.sizeBits == 8 * e && f.wlen == 0
    ensures SizeOf(f) == e
  {
  }

  /** A plain little-endian number needs no work. */
  lemma PlainElement(f: IntField, m: seq<Octet>, e: nat)
    requires Valid(f) && !f.bigEndian && f.lsb == 0 && f.sizeBits == 8 * e && f.wlen == 0 && |m| == e == SizeOf(f)
    ensures m == Decoded(f, m, e)
  {
    hide BitAt, Decoded;
    forall i | 0 <= i < 8 * e ensures BitAt(m, i) == BitAt(Decoded(f, m, e), i) {
      DecodedBit(f, m, e, i);
    }
    SameBits(m, Decoded(f, m, e));
  }
}

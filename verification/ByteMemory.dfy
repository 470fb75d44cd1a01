/** Byte-wise memory access with edge masks (src/cpsw_mem_dev.cc). */
module ByteMemory {
  import opened Octets

  /** Bits to keep in octet k of n. */
  function EdgeMask(k: nat, n: nat, msk1: Octet, mskn: Octet): Octet {
    if n == 1 then msk1 | mskn else if k == 0 then msk1 else if k == n - 1 then mskn else 0
  }

  /** Memory `m` after `src` was written over it, apart from the masked bits at both ends. */
  function MaskedCopy(m: seq<Octet>, src: seq<Octet>, msk1: Octet, mskn: Octet): (r: seq<Octet>)
    requires |src| == |m|
    ensures |r| == |m|
  {
    seq(|m|, k requires 0 <= k < |m| => Merge(m[k], src[k], EdgeMask(k, |m|, msk1, mskn)))
  }

  /** The octets of a masked copy, edge by edge. */
  lemma MaskedCopyAt(m: seq<Octet>, src: seq<Octet>, msk1: Octet, mskn: Octet, k: nat)
    requires |src| == |m| && k < |m|
    ensures |m| == 1 ==> MaskedCopy(m, src, msk1, mskn)[k] == Merge(m[k], src[k], msk1 | mskn)
    ensures |m| > 1 && k == 0 ==> MaskedCopy(m, src, msk1, mskn)[k] == Merge(m[k], src[k], msk1)
    ensures |m| > 1 && k == |m| - 1 ==> MaskedCopy(m, src, msk1, mskn)[k] == Merge(m[k], src[k], mskn)
    ensures 0 < k < |m| - 1 ==> MaskedCopy(m, src, msk1, mskn)[k] == src[k]
  {
    hide Merge;
    MergeNone(m[k], src[k]);
  }

  /** memcpy */
  method Copy(buf: array<Octet>, off: nat, src: seq<Octet>)
    requires off + |src| <= buf.Length
    modifies buf
    ensures forall k :: off <= k < off + |src| ==> buf[k] == src[k - off]
    ensures forall k :: 0 <= k < buf.Length && !(off <= k < off + |src|) ==> buf[k] == old(buf[k])
  {
    forall k | off <= k < off + |src| {
      buf[k] := src[k - off];
    }
  }

  /** The octets at the edges are merged if there is something to keep. */
  function Edges(m: seq<Octet>, src: seq<Octet>, first: bool, last: bool, msk1: Octet, mskn: Octet): (r: seq<Octet>)
    requires |src| == |m|
    ensures |r| == |m|
  {
    seq(|m|, k requires 0 <= k < |m| =>
      if k == 0 && first then Merge(m[k], src[k], msk1)
      else if k == |m| - 1 && last then Merge(m[k], src[k], mskn)
      else src[k])
  }

  method WriteEdges(buf: array<Octet>, off: nat, src: seq<Octet>, first: bool, last: bool, msk1: Octet, mskn: Octet)
    requires src != [] && off + |src| <= buf.Length && (|src| == 1 ==> !(first && last))
    modifies buf
    ensures buf[off..off + |src|] == Edges(old(buf[off..off + |src|]), src, first, last, msk1, mskn)
    ensures forall k :: 0 <= k < buf.Length && !(off <= k < off + |src|) ==> buf[k] == old(buf[k])
  {
    hide Merge;
    ghost var was := buf[off..off + |src|];
    var put, s := |src|, 0;
    if first {
      buf[off] := Merge(buf[off], src[0], msk1);
      put, s := put - 1, 1;
    }
    if last {
      put := put - 1;
    }
    Copy(buf, off + s, src[s..s + put]);
    if last {
      buf[off + s + put] := Merge(buf[off + s + put], src[s + put], mskn);
    }
    ghost var want := Edges(was, src, first, last, msk1, mskn);
    assert forall k :: off <= k < off + |src| ==> buf[k] == want[k - off];
  }

  /** write_func8 */
  method WriteFunc8(buf: array<Octet>, off: nat, src: seq<Octet>, m1: Octet, mn: Octet)
    requires src != [] && off + |src| <= buf.Length
    modifies buf
    ensures buf[off..off + |src|] == MaskedCopy(old(buf[off..off + |src|]), src, m1, mn)
    ensures forall k :: 0 <= k < buf.Length && !(off <= k < off + |src|) ==> buf[k] == old(buf[k])
  {
    hide MaskedCopy, Edges;
    var msk1, mskn := m1, mn;
    if (msk1 != 0 || mskn != 0) && |src| == 1 {
      msk1 := msk1 | mskn;
      mskn := 0;
    }
    EdgesDone(buf[off..off + |src|], src, m1, mn);
    WriteEdges(buf, off, src, msk1 != 0, mskn != 0, msk1, mskn);
  }

  lemma EdgesDone(was: seq<Octet>, src: seq<Octet>, m1: Octet, mn: Octet)
    requires |was| == |src| > 0
    ensures |was| > 1 || (m1 == 0 && mn == 0) ==>
              Edges(was, src, m1 != 0, mn != 0, m1, mn) == MaskedCopy(was, src, m1, mn)
    ensures |was| == 1 && (m1 != 0 || mn != 0) ==>
              Edges(was, src, m1 | mn != 0, false, m1 | mn, 0) == MaskedCopy(was, src, m1, mn)
  {
    hide Merge, MaskedCopy;
    BothNone(m1, mn);
    forall k | 0 <= k < |was|
      ensures |was| > 1 || (m1 == 0 && mn == 0) ==>
                Edges(was, src, m1 != 0, mn != 0, m1, mn)[k] == MaskedCopy(was, src, m1, mn)[k]
      ensures |was| == 1 ==> Edges(was, src, m1 | mn != 0, false, m1 | mn, 0)[k] == MaskedCopy(was, src, m1, mn)[k]
    {
      MaskedCopyAt(was, src, m1, mn, k);
      MergeNone(was[k], src[k]);
    }
  }

  lemma BothNone(a: Octet, b: Octet)
    ensures a | b == 0 <==> a == 0 && b == 0
  {
  }

  /** A masked copy keeps the masked bits of memory and takes the others from the source. */
  lemma MaskedCopyBit(m: seq<Octet>, src: seq<Octet>, msk1: Octet, mskn: Octet, k: nat, j: nat)
    requires |src| == |m| && k < |m| && j < 8
    ensures Bit(MaskedCopy(m, src, msk1, mskn)[k], j) ==
              if Bit(EdgeMask(k, |m|, msk1, mskn), j) then Bit(m[k], j) else Bit(src[k], j)
  {
    hide Merge, EdgeMask, Bit;
    BitMerge(m[k], src[k], EdgeMask(k, |m|, msk1, mskn), j);
  }
}

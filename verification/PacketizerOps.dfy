/** sendFrag and pushDownstream, which move buffers between chains
    (src/cpsw_proto_mod_tdestmux2.cc). */
module PacketizerOps {
  import opened Wrappers
  import opened CircularIndex
  import opened Octets
  import opened BitField
  import opened Crc32
  import opened PackHeader
  import opened PackHeaderOps
  import opened BufChain
  import opened Packetizer
  import opened PacketizerRuns

  lemma NoneTaken(c: Chain)
    requires ValidChain(c)
    ensures ValidChain([]) && Flat([]) == [] && c == [] + c
    ensures c != [] ==> c[0].Valid()
  {
    assert c != [] ==> c[0] in c;
  }

  /** The head buffer goes from one chain to the end of the other. */
  lemma Moved(a: Chain, b: Chain)
    requires ValidChain(a) && ValidChain(b) && b != []
    ensures b[0].Valid() && ValidChain(a + [b[0]]) && ValidChain(b[1..]) && a + b == (a + [b[0]]) + b[1..]
    ensures |Flat(a + [b[0]])| == |Flat(a)| + b[0].Size()
    ensures Flat(a) + Flat(b) == Flat(a + [b[0]]) + Flat(b[1..])
    ensures |b| > 1 ==> b[1].Valid()
  {
    assert b[0] in b && (|b| > 1 ==> b[1] in b);
    FlatAppend(a, [b[0]]);
    FlatOne(b[0]);
    assert Flat(a) + (b[0].Payload() + Flat(b[1..])) == (Flat(a) + b[0].Payload()) + Flat(b[1..]);
  }

  /** Head buffers move to the new chain while they fit. */
  method TakeFitting(c: Chain, mtu: nat) returns (frag: Chain, rest: Chain)
    requires ValidChain(c) && |Flat(c)| > mtu
    ensures c == frag + rest && ValidChain(frag) && ValidChain(rest) && Flat(c) == Flat(frag) + Flat(rest)
    ensures rest != [] && |Flat(frag)| <= mtu < |Flat(frag)| + rest[0].Size()
  {
    hide Flat, ValidChain, Buf.Payload;
    frag, rest := [], c;
    var size := 0;
    NoneTaken(c);
    while rest != [] && size + rest[0].Size() <= mtu
      invariant c == frag + rest && ValidChain(frag) && ValidChain(rest) && size == |Flat(frag)| <= mtu
      invariant Flat(c) == Flat(frag) + Flat(rest) && (rest != [] ==> rest[0].Valid())
      decreases |rest|
    {
      Moved(frag, rest);
      size := size + rest[0].Size();
      frag, rest := frag + [rest[0]], rest[1..];
    }
  }

  /** adjPayload makes room and the header is put there. */
  method Prepend(b: Buf, h: Header2) returns (r: Buf)
    requires b.Valid() && b.beg >= HEADER_SIZE
    ensures r.Valid() && |r.store| == |b.store| && r.beg == b.beg - HEADER_SIZE && r.end == b.end
    ensures r.Payload() == Insert2(seq(HEADER_SIZE, _ => 0), h) + b.Payload()
  {
    hide Insert2;
    var a := new Octet[HEADER_SIZE];
    ghost var q := a[..];
    var ok := InsertV2(a, h);
    assert a[..] == Insert2(seq(HEADER_SIZE, _ => 0), h) by { InsertAnywhere(q, h); }
    r := Buf(b.store[..b.beg - HEADER_SIZE] + a[..] + b.store[b.beg..], b.beg - HEADER_SIZE, b.end);
  }

  lemma InsertAnywhere(q: seq<Octet>, h: Header2)
    requires |q| == HEADER_SIZE
    ensures Insert2(q, h) == Insert2(seq(HEADER_SIZE, _ => 0), h)
  {
    assert Cleared(q, HEADER_SIZE) == Cleared(seq(HEADER_SIZE, _ => 0), HEADER_SIZE);
  }

  /** The last octets of the payload are overwritten. */
  function PutEnd(b: Buf, t: seq<Octet>): (r: Buf)
    requires b.Valid() && b.Size() >= |t|
    ensures r.Valid() && r.beg == b.beg && r.end == b.end
    ensures r.Payload() == b.Payload()[..b.Size() - |t|] + t
  {
    var s := b.store[..b.end - |t|] + t + b.store[b.end..];
    EndReplaced(b.store, t, b.beg, b.end);
    Buf(s, b.beg, b.end)
  }

  lemma EndReplaced(store: seq<Octet>, t: seq<Octet>, beg: nat, end: nat)
    requires beg + |t| <= end <= |store|
    ensures (store[..end - |t|] + t + store[end..])[beg..end] == store[beg..end][..end - beg - |t|] + t
  {
    var s := store[..end - |t|] + t + store[end..];
    assert |s| == |store| && |s[beg..end]| == end - beg;
    forall k | 0 <= k < end - beg
      ensures s[beg..end][k] == (store[beg..end][..end - beg - |t|] + t)[k]
    {
      assert s[beg..end][k] == s[beg + k];
    }
  }

  /** Padding and tail go into the last buffer if they fit there, otherwise into a new one. */
  method Extend(c: Chain, tailSz: nat, spare: Buf) returns (r: Chain)
    requires ValidChain(c) && c != []
    requires spare.Valid() && spare.beg == spare.end && spare.Avail() >= tailSz
    ensures ValidChain(r) && |c| <= |r| <= |c| + 1 && r[|r| - 1].Size() >= tailSz
    ensures |Flat(r)| == |Flat(c)| + tailSz && Flat(r)[..|Flat(c)|] == Flat(c)
    ensures r[..|r| - 1] == c[..|r| - 1]
    ensures |r| == |c| ==> r[|r| - 1].beg == c[|r| - 1].beg && r[|r| - 1].Size() == c[|r| - 1].Size() + tailSz
  {
    var t := c[|c| - 1];
    if t.Avail() >= tailSz {
      var t' := t.(end := t.end + tailSz);
      r := c[|c| - 1 := t'];
      FlatUpdate(c, |c| - 1, t');
      assert t'.Payload()[..t.Size()] == t.Payload();
    } else {
      var n := spare.(end := spare.beg + tailSz);
      r := c + [n];
      FlatAppend(c, [n]);
      FlatOne(n);
      assert r[..|r| - 1] == c;
    }
  }

  /** The tail helpers write into the end of the last buffer. */
  method WriteTail(c: Chain, t: seq<Octet>) returns (r: Chain)
    requires ValidChain(c) && c != [] && c[|c| - 1].Size() >= |t|
    ensures ValidChain(r) && |r| == |c| && r[..|r| - 1] == c[..|c| - 1]
    ensures r[|r| - 1].Size() == c[|c| - 1].Size() && r[|r| - 1].beg == c[|c| - 1].beg
    ensures |Flat(r)| == |Flat(c)| >= |t|
    ensures Flat(r) == Flat(c)[..|Flat(c)| - |t|] + t
  {
    var k := |c| - 1;
    var b := PutEnd(c[k], t);
    r := c[k := b];
    FlatUpdate(c, k, b);
    assert c[k + 1..] == [];
  }

  /** The checksum loop: `total` octets, buffer by buffer. */
  method CrcOver(tbl: CpswCrc32Tbl, crc0: bv32, c: Chain, total: nat) returns (crc: bv32)
    requires tbl.Valid() && ValidChain(c) && total <= |Flat(c)|
    ensures crc == Bitwise(crc0, Flat(c)[..total])
  {
    hide Bitwise;
    crc := crc0;
    var left, i := total, 0;
    assert Bitwise(crc0, []) == crc0 by { BitwiseNone(crc0); }
    while left > 0
      invariant 0 <= i <= |c| && 0 <= left <= total
      invariant left > 0 ==> |Flat(c[..i])| == total - left
      invariant crc == Bitwise(crc0, Flat(c)[..total - left])
      decreases left, |c| - i
    {
      FlatSplit(c, i);
      FlatSplit(c, i + 1);
      NextFlat(c, i);
      ghost var done := Flat(c[..i]);
      var p := c[i].Payload();
      var l := if |p| > left then left else |p|;
      crc := tbl.Crc(crc, p[..l]);
      BitwiseAppend(crc0, done, p[..l]);
      assert Flat(c)[..total - left + l] == done + p[..l];
      left := left - l;
      i := i + 1;
    }
  }

  lemma HeaderFirst(c: Chain, h: Buf, hdr: seq<Octet>)
    requires ValidChain(c) && c != [] && h.Valid() && h.Payload() == hdr + c[0].Payload()
    ensures ValidChain(c[0 := h]) && Flat(c[0 := h]) == hdr + Flat(c)
  {
    assert c[0 := h][1..] == c[1..];
  }

  /** The octets at each stage of building a fragment. */
  lemma Finished(d: seq<Octet>, f1: seq<Octet>, f2: seq<Octet>, f3: seq<Octet>, f: seq<Octet>, t: seq<Octet>,
                 n: Word, tDest: Octet, eof: bool, crc0: bv32, crc1: bv32)
    requires f1 == HeaderOctets(n, tDest) + d
    requires |f2| == |f1| + Padding(|d|) + TAIL_SIZE && f2[..|f1|] == f1
    requires t == TailStart(Lanes(|d|), 0, eof)
    requires f3 == f2[..|f2| - TAIL_SIZE] + t
    requires crc1 == Bitwise(crc0, f3[..|f3| - 4])
    requires f == f3[..|f3| - TAIL_SIZE] + WithCrc(t, !crc1)
    ensures IsFragment(f, d, n, tDest, eof, crc0, crc1)
  {
    hide HeaderOctets, Padding, TailStart, WithCrc, Bitwise, Lanes;
    CrcOctets(t, !crc1);
    assert f[..|f| - 4] == f3[..|f3| - 4];
    assert f[..|f1|] == f1;
    assert f[..HEADER_SIZE] == f1[..HEADER_SIZE];
    assert f[HEADER_SIZE..HEADER_SIZE + |d|] == f1[HEADER_SIZE..HEADER_SIZE + |d|];
    assert TailOf(f) == WithCrc(t, !crc1);
  }

  /** CProtoModTDestMux2::getMTU: header, tail and a word of padding are reserved. */
  function GetMTU(upstream: nat): nat {
    var mtu := upstream - (HEADER_SIZE + 2 * TAIL_SIZE);
    if mtu < 0 then 0 else mtu
  }

  /** A fragment with data fits the MTU below. */
  lemma FragmentFits(upstream: nat, f: seq<Octet>, data: seq<Octet>, n: Word, tDest: Octet, eof: bool,
                     crc: bv32, crc': bv32)
    requires IsFragment(f, data, n, tDest, eof, crc, crc') && 0 < |data| <= GetMTU(upstream)
    ensures |f| <= upstream
  {
    FragmentSize(f, data, n, tDest, eof, crc, crc');
  }

  /** The fragment, and what becomes of the work item. */
  datatype Sent = Pushed(frag: Chain, eof: bool) | Unfragmentable

  /** A payload that can be sent whatever its length. */
  predicate Fragmentable(c: Chain, mtu: nat) {
    ValidChain(c) && Flat(c) != [] && forall b <- c :: b.Size() <= mtu && b.beg >= HEADER_SIZE
  }

  /** CProtoModTDestMux2::Work with the multiplexer's MTU; headers are stripped for this port. */
  class Work {
    var bc: Option<Chain>
    var fragNo: Word
    var crc: bv32
    /** History of the frames that were taken. */
    ghost var taken: seq<seq<Octet>>
    const tdest: Octet
    const mtu: nat
    const tbl: CpswCrc32Tbl

    ghost predicate Valid()
      reads `bc, tbl, tbl.t
    {
      tbl.Valid() && (bc.Some? ==> ValidChain(bc.value) && bc.value != [])
    }

    /** Octets that are still to be sent. */
    ghost function Left(): seq<Octet>
      requires bc.Some? ==> ValidChain(bc.value)
      reads `bc
    {
      if bc.None? then [] else Flat(bc.value)
    }

    ghost function View(): Slot
      requires Valid()
      reads this, tbl, tbl.t
    {
      Slot(tdest, taken, if bc.None? then None else Some(Flat(bc.value)), fragNo, crc)
    }

    constructor (dest: Octet, limit: nat)
      ensures Valid() && bc == None && taken == [] && tdest == dest && mtu == limit && fresh(tbl) && fresh(tbl.t)
    {
      bc, fragNo, crc, tdest, mtu, taken := None, 0, 0, dest, limit, [];
      tbl := new CpswCrc32Tbl();
    }

    method Reset(c: Chain)
      requires Valid() && ValidChain(c) && c != []
      modifies this
      ensures Valid() && bc == Some(c) && View() == Take(old(View()), Flat(c))
    {
      bc, fragNo, crc := Some(c), 0, CRC_START;
      taken := taken + [Flat(c)];
    }

    /** The chain that goes out next and whether it is the last one; None if the head buffer
        alone exceeds the MTU. */
    method Cut() returns (r: Option<Chain>, eof: bool)
      requires Valid() && bc.Some?
      modifies `bc
      ensures Valid() && eof == (|old(Left())| <= mtu)
      ensures r.None? <==> old(bc).value[0].Size() > mtu && !eof
      ensures r.None? ==> bc == old(bc)
      ensures r.Some? ==>
                && ValidChain(r.value) && r.value != [] && |Flat(r.value)| <= mtu
                && old(Left()) == Flat(r.value) + Left()
                && old(bc).value == r.value + (if eof then [] else bc.value)
                && (eof <==> bc.None?)
      ensures r.Some? && !eof ==> |Flat(r.value)| + bc.value[0].Size() > mtu
    {
      var c := bc.value;
      var size := SizeOf(c);
      eof := size <= mtu;
      if eof {
        bc := None;
        return Some(c), true;
      }
      var frag, rest := TakeFitting(c, mtu);
      if frag == [] {
        return None, false;
      }
      bc := Some(rest);
      return Some(frag), false;
    }

    /** Header, padding, tail and checksum are put around the data of one fragment. */
    method Finish(c: Chain, spare: Buf, eof: bool, n: Word, crc0: bv32) returns (frag: Chain, crc1: bv32)
      requires tbl.Valid() && ValidChain(c) && c != [] && c[0].beg >= HEADER_SIZE
      requires spare.Valid() && spare.beg == spare.end && spare.Avail() >= 2 * TAIL_SIZE
      ensures ValidChain(frag) && frag != [] && frag[0].Size() >= HEADER_SIZE && frag[|frag| - 1].Size() >= TAIL_SIZE
      ensures IsFragment(Flat(frag), Flat(c), n, tdest, eof, crc0, crc1)
    {
      hide Buf.Payload, TailOf, Insert2, LittleEndian, TailStart, WithCrc, Bitwise, Flat;
      var h := Prepend(c[0], Header2(n, LittleEndian([tdest]), 0, if n == 0 then 2 else 0, CRC_FULL));
      var c1 := c[0 := h];
      HeaderFirst(c, h, HeaderOctets(n, tdest));
      var newSz := SizeOf(c1);
      var algn := Padding(newSz);
      var tailSz := algn + TAIL_SIZE;
      var numLanes := if newSz + tailSz <= HEADER_SIZE + TAIL_SIZE then 0 else ALIGNMENT - algn;
      assert algn == Padding(|Flat(c)|) && numLanes == Lanes(|Flat(c)|);
      var c2 := Extend(c1, tailSz, spare);
      var tail := new Octet[TAIL_SIZE];
      StartTail(tail, numLanes, 0, eof);
      ghost var t := tail[..];
      var c3 := WriteTail(c2, tail[..]);
      crc1 := CrcOver(tbl, crc0, c3, newSz + tailSz - 4);
      InsertCrc(tail, !crc1);
      frag := WriteTail(c3, tail[..]);
      Finished(Flat(c), Flat(c1), Flat(c2), Flat(c3), Flat(frag), t, n, tdest, eof, crc0, crc1);
    }

    /** CProtoModTDestMux2::sendFrag up to the push upstream. */
    method SendFrag(spare: Buf) returns (r: Sent)
      requires Valid() && bc.Some? && bc.value[0].beg >= HEADER_SIZE
      requires spare.Valid() && spare.beg == spare.end && spare.Avail() >= 2 * TAIL_SIZE
      modifies `bc, `fragNo, `crc
      ensures Valid()
      ensures r.Unfragmentable? <==> |old(Left())| > mtu && old(bc).value[0].Size() > mtu
      ensures r.Unfragmentable? ==> bc == old(bc) && fragNo == old(fragNo) && crc == old(crc)
      ensures r.Pushed? ==>
                && fragNo == Inc(old(fragNo)) && r.eof == (|old(Left())| <= mtu)
                && (r.eof <==> bc.None?)
                && (!r.eof ==> |bc.value| < |old(bc).value| && bc.value == old(bc).value[|old(bc).value| - |bc.value|..])
                && |Left()| <= |old(Left())|
                && old(Left())[|old(Left())| - |Left()|..] == Left()
      ensures r.Pushed? ==>
                && ValidChain(r.frag) && r.frag != [] && r.frag[0].Size() >= HEADER_SIZE
                && r.frag[|r.frag| - 1].Size() >= TAIL_SIZE
                && IsFragment(Flat(r.frag), old(Left())[..|old(Left())| - |Left()|], old(fragNo), tdest, r.eof, old(crc), crc)
                && |Flat(r.frag)| < mtu + HEADER_SIZE + 2 * TAIL_SIZE
      ensures r.Pushed? && Fragmentable(old(bc).value, mtu) && old(fragNo) + 1 < WORD ==>
                && Emits(old(View()), View(), Flat(r.frag))
                && (!r.eof ==> Fragmentable(bc.value, mtu))
    {
      hide IsFragment, Flat;
      ghost var was := Left();
      var c, eof := Cut();
      if c.None? {
        return Unfragmentable;
      }
      var n := fragNo;
      fragNo := Inc(fragNo);
      var frag;
      ghost var crc0 := crc;
      frag, crc := Finish(c.value, spare, eof, n, crc);
      assert was[..|was| - |Left()|] == Flat(c.value);
      FragmentSize(Flat(frag), Flat(c.value), n, tdest, eof, crc0, crc);
      return Pushed(frag, eof);
    }
  }
}

/** insert, parse and the tail helpers of src/cpsw_proto_depack.h, which change octets in place. */
module PackHeaderOps {
  import opened Wrappers
  import opened Octets
  import opened Bits
  import opened BitField
  import opened PackHeader

  function OneHot(j: nat): Octet
    requires j < 8
  {
    1 << j
  }

  lemma BitPut(o: Octet, j: nat, i: nat)
    requires j < 8 && i < 8
    ensures Bit(o | OneHot(j), i) == (i == j || Bit(o, i))
    ensures Bit(o & !OneHot(j), i) == (i != j && Bit(o, i))
  {
    hide Bit, OneHot;
    BitOneHot(j, i);
    BitOr(o, OneHot(j), i);
    BitAndNot(o, OneHot(j), i);
  }

  lemma BitOneHot(j: nat, i: nat)
    requires j < 8 && i < 8
    ensures Bit(OneHot(j), i) == (i == j)
  {
  }

  /** A single bit, set or cleared with a mask. */
  function PutBit(p: seq<Octet>, k: nat, j: nat, x: bool): (r: seq<Octet>)
    requires k < |p| && j < 8
    ensures |r| == |p|
  {
    p[k := if x then p[k] | OneHot(j) else p[k] & !OneHot(j)]
  }

  lemma PutBitAt(p: seq<Octet>, k: nat, j: nat, x: bool, i: nat)
    requires k < |p| && j < 8 && i < 8 * |p|
    ensures BitAt(PutBit(p, k, j, x), i) == if i == 8 * k + j then x else BitAt(p, i)
  {
    hide Bit, OneHot;
    BitPut(p[k], j, i % 8);
    assert i == 8 * (i / 8) + i % 8;
  }

  lemma PutBitIsField(p: seq<Octet>, k: nat, j: nat, x: bool)
    requires k < |p| && j < 8
    ensures PutBit(p, k, j, x) == SetField(p, 8 * k + j, 1, if x then 1 else 0)
  {
    hide BitAt, PutBit, SetField;
    var r, n: nat := PutBit(p, k, j, x), if x then 1 else 0;
    assert ToBits(n, 1) == [x];
    forall i | 0 <= i < 8 * |p|
      ensures BitAt(r, i) == NewBits(p, 8 * k + j, ToBits(n, 1))[i]
    {
      PutBitAt(p, k, j, x, i);
    }
    SameField(r, p, 8 * k + j, 1, n);
  }

  /** Clearing a bit that is clear changes nothing. */
  lemma ClearField(p: seq<Octet>, i: nat)
    requires i < 8 * |p| && GetField(p, i, 1) == 0
    ensures SetField(p, i, 1, 0) == p
  {
    hide Bit, SetField;
    OneBit(p, i);
    assert ToBits(0, 1) == [false];
    SameField(p, p, i, 1, 0);
  }

  method Clear(p: array<Octet>, n: nat)
    requires n <= p.Length
    modifies p
    ensures p[..] == Cleared(old(p[..]), n)
  {
    var i := 0;
    while i < n
      invariant 0 <= i <= n
      invariant forall k :: 0 <= k < i ==> p[k] == 0
      invariant forall k :: i <= k < p.Length ==> p[k] == old(p[k])
    {
      p[i] := 0;
      i := i + 1;
    }
  }

  /** Field k of a layout is set; the ones before it are. */
  method Put(p: array<Octet>, f: Field, ghost z: seq<Octet>, ghost fs: seq<Field>, ghost k: nat)
    requires |z| == p.Length && Fit(fs, |z|) && k < |fs| && fs[k] == f && p[..] == Fill(z, fs[..k])
    requires f.off % 8 + f.size <= 64
    modifies p
    ensures p[..] == Fill(z, fs[..k + 1])
  {
    assert fs[..k + 1] == fs[..k] + [f];
    FillSnoc(z, fs[..k], f);
    SetNum(p, f.off, f.size, f.val);
  }

  /** The start-of-frame bit is still clear before it is set. */
  lemma NotYetFirst(z: seq<Octet>, q: seq<Octet>, h: Header2)
    requires |q| >= HEADER_SIZE && z == Cleared(q, HEADER_SIZE)
    ensures GetField(Fill(z, Layout2(h)[..5]), 63, 1) == 0
  {
    hide Fill, GetField, Bit;
    FillElsewhere(z, Layout2(h)[..5], 63, 1);
    OneBit(z, 63);
    OctetBit(z, 7, 7);
    NoBits(7);
  }

  /** CDepack2Header::insert */
  method InsertV2(p: array<Octet>, h: Header2) returns (ok: bool)
    modifies p
    ensures ok == (p.Length >= HEADER_SIZE)
    ensures p[..] == if ok then Insert2(old(p[..]), h) else old(p[..])
  {
    hide Fill, SetField, GetField, PutBit;
    if p.Length < HEADER_SIZE {
      return false;
    }
    ghost var q := p[..];
    ghost var z, fs := Cleared(q, HEADER_SIZE), Layout2(h);
    Clear(p, HEADER_SIZE);
    FillNone(z);
    assert fs[..0] == [];
    Put(p, Field(0, 4, VERSION_2), z, fs, 0);
    Put(p, Field(32, 16, h.fragNo), z, fs, 1);
    Put(p, Field(16, 8, h.tDest), z, fs, 2);
    Put(p, Field(24, 8, h.tId), z, fs, 3);
    Put(p, Field(8, 8, h.tUsr1), z, fs, 4);
    MarkFirst(p, h, z, q);
    assert fs[..6] == fs[..5] + [fs[5]];
    Put(p, Field(4, 4, h.crcMode), z, fs, 6);
    assert fs[..7] == fs;
    return true;
  }

  lemma FillNone(z: seq<Octet>)
    ensures Fill(z, []) == z
  {
  }

  method MarkFirst(p: array<Octet>, h: Header2, ghost z: seq<Octet>, ghost q: seq<Octet>)
    requires |q| == p.Length >= HEADER_SIZE && z == Cleared(q, HEADER_SIZE) && p[..] == Fill(z, Layout2(h)[..5])
    modifies p
    ensures p[..] == Fill(z, Layout2(h)[..5] + [Layout2(h)[5]])
  {
    hide Fill, SetField, GetField;
    ghost var was := p[..];
    FillSnoc(z, Layout2(h)[..5], Layout2(h)[5]);
    if h.fragNo == 0 {
      p[7] := p[7] | OneHot(7);
      assert p[..] == PutBit(was, 7, 7, true);
      PutBitIsField(was, 7, 7, true);
    } else {
      NotYetFirst(z, q, h);
      ClearField(was, 63);
    }
  }

  /** CDepack2Header::parse */
  method ParseV2(p: array<Octet>) returns (r: Option<Header2>)
    ensures r == Parse2(p[..])
  {
    hide GetField;
    if p.Length < 1 {
      return None;
    }
    var vers := GetNum(p, 0, 4);
    if vers != VERSION_2 || p.Length < HEADER_SIZE {
      return None;
    }
    var fragNo := GetNum(p, 32, 16);
    var tDest := GetNum(p, 16, 8);
    var tId := GetNum(p, 24, 8);
    var tUsr1 := GetNum(p, 8, 8);
    var crcMode := GetNum(p, 4, 4);
    return Some(Header2(fragNo, tDest, tId, tUsr1, crcMode));
  }

  /** CAxisFrameHeader::insert */
  method InsertV0(p: array<Octet>, h: Header0) returns (ok: bool)
    modifies p
    ensures ok == (p.Length >= HEADER_SIZE)
    ensures p[..] == if ok then Insert0(old(p[..]), h) else old(p[..])
  {
    hide Fill, SetField;
    if p.Length < HEADER_SIZE {
      return false;
    }
    ghost var z, fs := Cleared(p[..], HEADER_SIZE), Layout0(h);
    Clear(p, HEADER_SIZE);
    FillNone(z);
    assert fs[..0] == [];
    Put(p, Field(0, 4, VERSION_0), z, fs, 0);
    Put(p, Field(16, 24, h.fragNo), z, fs, 1);
    Put(p, Field(40, 8, h.tDest), z, fs, 2);
    Put(p, Field(48, 8, h.tId), z, fs, 3);
    Put(p, Field(56, 8, h.tUsr1), z, fs, 4);
    Put(p, Field(4, 12, h.frameNo), z, fs, 5);
    assert fs[..6] == fs;
    return true;
  }

  /** CAxisFrameHeader::parse */
  method ParseV0(p: array<Octet>) returns (r: Option<Header0>)
    ensures r == Parse0(p[..])
  {
    hide GetField;
    if p.Length < 1 {
      return None;
    }
    var vers := GetNum(p, 0, 4);
    if vers != VERSION_0 || p.Length < HEADER_SIZE {
      return None;
    }
    var fragNo := GetNum(p, 16, 24);
    var tDest := GetNum(p, 40, 8);
    var tId := GetNum(p, 48, 8);
    var tUsr1 := GetNum(p, 56, 8);
    var frameNo := GetNum(p, 4, 12);
    return Some(Header0(frameNo, fragNo, tDest, tId, tUsr1));
  }

  /** iniTail, insertNumLanes, insertTUsr2 and insertTailEOF */
  method StartTail(t: array<Octet>, numLanes: nat, tUsr2: nat, eof: bool)
    requires t.Length == TAIL_SIZE
    modifies t
    ensures t[..] == TailStart(numLanes, tUsr2, eof)
  {
    hide Fill, SetField, PutBit;
    ghost var z, fs := seq(TAIL_SIZE, _ => 0 as Octet), TailLayout(numLanes, tUsr2, eof);
    Clear(t, TAIL_SIZE);
    assert t[..] == z;
    FillNone(z);
    assert fs[..0] == [];
    Put(t, Field(16, 4, numLanes), z, fs, 0);
    Put(t, Field(0, 8, tUsr2), z, fs, 1);
    ghost var was := t[..];
    FillSnoc(z, fs[..2], fs[2]);
    t[1] := if eof then t[1] | OneHot(0) else t[1] & !OneHot(0);
    assert t[..] == PutBit(was, 1, 0, eof) by { PutBitDef(was, 1, 0, eof); }
    PutBitIsField(was, 1, 0, eof);
    assert fs == fs[..2] + [fs[2]];
  }

  lemma PutBitDef(p: seq<Octet>, k: nat, j: nat, x: bool)
    requires k < |p| && j < 8
    ensures PutBit(p, k, j, x) == p[k := if x then p[k] | OneHot(j) else p[k] & !OneHot(j)]
  {
  }

  method InsertCrc(t: array<Octet>, crc: bv32)
    requires t.Length == TAIL_SIZE
    modifies t
    ensures t[..] == WithCrc(old(t[..]), crc)
  {
    SetNum(t, 32, 32, Bswap32(crc));
  }
}

/** Headers and tails of the packetizer protocol, versions 0 and 2 (src/cpsw_proto_depack.h).

    A layout is a list of bit fields. Writing disjoint fields one after the other loses none of
    them, so parse recovers what insert has written. */
module PackHeader {
  import opened CircularIndex
  import opened Octets
  import opened Bits
  import opened BitField
  import opened Wrappers

  // ----- layouts

  datatype Field = Field(off: nat, size: nat, val: nat)

  predicate Fit(fs: seq<Field>, n: nat) {
    forall f <- fs :: f.off + f.size <= 8 * n
  }

  predicate Apart(f: Field, g: Field) {
    f.off + f.size <= g.off || g.off + g.size <= f.off
  }

  predicate Disjoint(fs: seq<Field>) {
    forall i, j :: 0 <= i < j < |fs| ==> Apart(fs[i], fs[j])
  }

  /** The fields of `fs`, written in order. */
  function Fill(p: seq<Octet>, fs: seq<Field>): (r: seq<Octet>)
    requires Fit(fs, |p|)
    ensures |r| == |p|
    decreases |fs|
  {
    if fs == [] then p
    else
      var f := fs[|fs| - 1];
      SetField(Fill(p, fs[..|fs| - 1]), f.off, f.size, f.val)
  }

  lemma FillSnoc(p: seq<Octet>, fs: seq<Field>, f: Field)
    requires Fit(fs + [f], |p|)
    ensures Fit(fs, |p|)
    ensures Fill(p, fs + [f]) == SetField(Fill(p, fs), f.off, f.size, f.val)
  {
    assert (fs + [f])[..|fs|] == fs;
    forall g <- fs ensures g.off + g.size <= 8 * |p| {
      assert g in fs + [f];
    }
  }

  /** What lies outside all fields keeps its bits. */
  lemma {:induction false} FillElsewhere(p: seq<Octet>, fs: seq<Field>, off: nat, size: nat)
    requires Fit(fs, |p|) && off + size <= 8 * |p|
    requires forall f <- fs :: Apart(f, Field(off, size, 0))
    ensures GetField(Fill(p, fs), off, size) == GetField(p, off, size)
    decreases |fs|
  {
    hide SetField, GetField;
    if fs != [] {
      var f := fs[|fs| - 1];
      FillElsewhere(p, fs[..|fs| - 1], off, size);
      GetAfterSetElsewhere(Fill(p, fs[..|fs| - 1]), f.off, f.size, f.val, off, size);
    }
  }

  /** Every field can be read back. */
  lemma {:induction false} FillGet(p: seq<Octet>, fs: seq<Field>, i: nat)
    requires Fit(fs, |p|) && Disjoint(fs) && i < |fs|
    ensures GetField(Fill(p, fs), fs[i].off, fs[i].size) == fs[i].val % Pow2(fs[i].size)
    decreases |fs|
  {
    hide SetField, GetField, Pow2;
    var n := |fs| - 1;
    var q := Fill(p, fs[..n]);
    if i == n {
      GetAfterSet(q, fs[n].off, fs[n].size, fs[n].val);
    } else {
      FillGet(p, fs[..n], i);
      assert Apart(fs[i], fs[n]);
      GetAfterSetElsewhere(q, fs[n].off, fs[n].size, fs[n].val, fs[i].off, fs[i].size);
    }
  }

  const HEADER_SIZE := 8

  /** Octets cleared by memset before the fields are set. */
  function Cleared(p: seq<Octet>, n: nat): (r: seq<Octet>)
    requires n <= |p|
    ensures |r| == |p|
  {
    seq(n, _ => 0) + p[n..]
  }

  // ----- version 2

  const VERSION_2 := 2
  const CRC_FULL := 2

  datatype Header2 = Header2(fragNo: nat, tDest: nat, tId: nat, tUsr1: nat, crcMode: nat)

  /** The start-of-frame bit is set in addition for fragment 0. */
  function Layout2(h: Header2): seq<Field> {
    [Field(0, 4, VERSION_2), Field(32, 16, h.fragNo), Field(16, 8, h.tDest), Field(24, 8, h.tId),
     Field(8, 8, h.tUsr1), Field(63, 1, if h.fragNo == 0 then 1 else 0), Field(4, 4, h.crcMode)]
  }

  function Insert2(p: seq<Octet>, h: Header2): (r: seq<Octet>)
    requires |p| >= HEADER_SIZE
    ensures |r| == |p|
  {
    Fill(Cleared(p, HEADER_SIZE), Layout2(h))
  }

  function Parse2(p: seq<Octet>): Option<Header2> {
    if |p| < 1 || GetField(p, 0, 4) != VERSION_2 || |p| < HEADER_SIZE then None
    else Some(Header2(GetField(p, 32, 16), GetField(p, 16, 8), GetField(p, 24, 8), GetField(p, 8, 8), GetField(p, 4, 4)))
  }

  /** CDepack2Header::isFirst */
  predicate IsFirst(p: seq<Octet>)
    requires |p| >= HEADER_SIZE
  {
    Bit(p[7], 7)
  }

  /** What is inserted is parsed again, each field modulo its width; only fragment 0 of the
      unreduced count is marked as the first one. */
  lemma RoundTrip2(p: seq<Octet>, h: Header2)
    requires |p| >= HEADER_SIZE
    ensures Parse2(Insert2(p, h)) ==
              Some(Header2(h.fragNo % 0x1_0000, h.tDest % 0x100, h.tId % 0x100, h.tUsr1 % 0x100, h.crcMode % 0x10))
    ensures IsFirst(Insert2(p, h)) == (h.fragNo == 0)
  {
    hide GetField, Fill, Bit, Pow2, Insert2;
    var fs := Layout2(h);
    var z := Cleared(p, HEADER_SIZE);
    assert Insert2(p, h) == Fill(z, fs) by { Insert2Fill(p, h); }
    Powers();
    assert Fit(fs, |z|) && Disjoint(fs);
    FillGet(z, fs, 0);
    FillGet(z, fs, 1);
    FillGet(z, fs, 2);
    FillGet(z, fs, 3);
    FillGet(z, fs, 4);
    FillGet(z, fs, 5);
    FillGet(z, fs, 6);
    TopBit(Insert2(p, h));
  }

  lemma Insert2Fill(p: seq<Octet>, h: Header2)
    requires |p| >= HEADER_SIZE
    ensures Insert2(p, h) == Fill(Cleared(p, HEADER_SIZE), Layout2(h))
  {
  }

  lemma Powers()
    ensures Pow2(1) == 2 && Pow2(4) == 0x10 && Pow2(8) == 0x100 && Pow2(12) == 0x1000
    ensures Pow2(16) == 0x1_0000 && Pow2(24) == 0x100_0000
  {
    assert Pow2(8) == 0x100;
    Pow2Add(4, 8);
    Pow2Add(8, 8);
    Pow2Add(8, 16);
  }

  lemma OneBit(p: seq<Octet>, i: nat)
    requires i < 8 * |p|
    ensures GetField(p, i, 1) == if BitAt(p, i) then 1 else 0
  {
    hide BitAt;
    var s := FieldBits(p, i, 1);
    assert s == [BitAt(p, i)];
    assert FromBits(s[1..]) == 0;
  }

  lemma TopBit(p: seq<Octet>)
    requires |p| >= HEADER_SIZE
    ensures IsFirst(p) == (GetField(p, 63, 1) == 1)
  {
    hide Bit;
    OneBit(p, 63);
    OctetBit(p, 7, 7);
  }

  // ----- version 0

  const VERSION_0 := 0

  datatype Header0 = Header0(frameNo: nat, fragNo: nat, tDest: nat, tId: nat, tUsr1: nat)

  function Layout0(h: Header0): seq<Field> {
    [Field(0, 4, VERSION_0), Field(16, 24, h.fragNo), Field(40, 8, h.tDest), Field(48, 8, h.tId),
     Field(56, 8, h.tUsr1), Field(4, 12, h.frameNo)]
  }

  function Insert0(p: seq<Octet>, h: Header0): (r: seq<Octet>)
    requires |p| >= HEADER_SIZE
    ensures |r| == |p|
  {
    Fill(Cleared(p, HEADER_SIZE), Layout0(h))
  }

  function Parse0(p: seq<Octet>): Option<Header0> {
    if |p| < 1 || GetField(p, 0, 4) != VERSION_0 || |p| < HEADER_SIZE then None
    else Some(Header0(GetField(p, 4, 12), GetField(p, 16, 24), GetField(p, 40, 8), GetField(p, 48, 8), GetField(p, 56, 8)))
  }

  lemma RoundTrip0(p: seq<Octet>, h: Header0)
    requires |p| >= HEADER_SIZE
    ensures Parse0(Insert0(p, h)) ==
              Some(Header0(h.frameNo % 0x1000, h.fragNo % 0x100_0000, h.tDest % 0x100, h.tId % 0x100, h.tUsr1 % 0x100))
  {
    hide GetField, Fill, Bit, Pow2;
    var fs := Layout0(h);
    var z := Cleared(p, HEADER_SIZE);
    Powers();
    assert Fit(fs, |z|) && Disjoint(fs);
    FillGet(z, fs, 0);
    FillGet(z, fs, 1);
    FillGet(z, fs, 2);
    FillGet(z, fs, 3);
    FillGet(z, fs, 4);
    FillGet(z, fs, 5);
  }

  // ----- tail of version 2

  const TAIL_SIZE := 8
  const ALIGNMENT := 8

  function LittleEndian(s: seq<Octet>): nat {
    FromBits(seq(8 * |s|, i requires 0 <= i < 8 * |s| => BitAt(s, i)))
  }

  function BigEndianOctets(c: bv32): (s: seq<Octet>)
    ensures |s| == 4
  {
    [(c >> 24) as Octet, ((c >> 16) & 0xff) as Octet, ((c >> 8) & 0xff) as Octet, (c & 0xff) as Octet]
  }

  /** __builtin_bswap32 on a little-endian host: the number whose octets are those of c, most
      significant first. */
  function Bswap32(c: bv32): nat {
    LittleEndian(BigEndianOctets(c))
  }

  function TailLayout(numLanes: nat, tUsr2: nat, eof: bool): seq<Field> {
    [Field(16, 4, numLanes), Field(0, 8, tUsr2), Field(8, 1, if eof then 1 else 0)]
  }

  /** The tail before the checksum is added. */
  function TailStart(numLanes: nat, tUsr2: nat, eof: bool): (t: seq<Octet>)
    ensures |t| == TAIL_SIZE
  {
    Fill(seq(TAIL_SIZE, _ => 0), TailLayout(numLanes, tUsr2, eof))
  }

  function WithCrc(t: seq<Octet>, crc: bv32): (r: seq<Octet>)
    requires |t| == TAIL_SIZE
    ensures |r| == TAIL_SIZE
  {
    SetField(t, 32, 32, Bswap32(crc))
  }

  predicate TailEOF(t: seq<Octet>)
    requires |t| == TAIL_SIZE
  {
    Bit(t[1], 0)
  }

  /** parseNumLanes; None is the InvalidHeaderException. */
  function NumLanes(t: seq<Octet>): Option<nat>
    requires |t| == TAIL_SIZE
  {
    var n := GetField(t, 16, 4);
    if n > ALIGNMENT then None else Some(n)
  }

  lemma TailRoundTrip(numLanes: nat, tUsr2: nat, eof: bool, crc: bv32)
    requires numLanes <= ALIGNMENT
    ensures var t := WithCrc(TailStart(numLanes, tUsr2, eof), crc);
            && TailEOF(t) == eof && NumLanes(t) == Some(numLanes) && GetField(t, 0, 8) == tUsr2 % 0x100
  {
    hide GetField, Fill, Bit, Pow2, SetField, Bswap32;
    var fs := TailLayout(numLanes, tUsr2, eof);
    var z := seq(TAIL_SIZE, _ => 0 as Octet);
    var t := TailStart(numLanes, tUsr2, eof);
    Powers();
    assert Fit(fs, |z|) && Disjoint(fs);
    FillGet(z, fs, 0);
    FillGet(z, fs, 1);
    FillGet(z, fs, 2);
    GetAfterSetElsewhere(t, 32, 32, Bswap32(crc), 16, 4);
    GetAfterSetElsewhere(t, 32, 32, Bswap32(crc), 0, 8);
    GetAfterSetElsewhere(t, 32, 32, Bswap32(crc), 8, 1);
    OneBit(WithCrc(t, crc), 8);
    OctetBit(WithCrc(t, crc), 1, 0);
  }

  /** The checksum travels most significant octet first and leaves the rest of the tail alone. */
  lemma CrcOctets(t: seq<Octet>, crc: bv32)
    requires |t| == TAIL_SIZE
    ensures WithCrc(t, crc) == t[..4] + BigEndianOctets(crc)
  {
    SetAligned(t, 4, BigEndianOctets(crc));
  }

  /** Setting an octet-aligned field stores the octets of the number. */
  lemma SetAligned(p: seq<Octet>, k: nat, s: seq<Octet>)
    requires k + |s| <= |p|
    ensures SetField(p, 8 * k, 8 * |s|, LittleEndian(s)) == p[..k] + s + p[k + |s|..]
  {
    hide Bit, ToBits, FromBits, SetField;
    var r := p[..k] + s + p[k + |s|..];
    var v := seq(8 * |s|, i requires 0 <= i < 8 * |s| => BitAt(s, i));
    ToFromBits(v);
    forall i | 0 <= i < 8 * |p|
      ensures BitAt(r, i) == NewBits(p, 8 * k, ToBits(LittleEndian(s), 8 * |s|))[i]
    {
      if 8 * k <= i < 8 * k + 8 * |s| {
        assert r[i / 8] == s[(i - 8 * k) / 8];
      }
    }
    SameField(r, p, 8 * k, 8 * |s|, LittleEndian(s));
  }
}

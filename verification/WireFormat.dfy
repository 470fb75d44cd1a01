/** Which octet of a packetizer header or tail holds which field, bit by bit. */
module WireFormat {
  import opened CircularIndex
  import opened Octets
  import opened Bits
  import opened BitField
  import opened PackHeader
  import opened Packetizer

  /** Bit j of a number. */
  predicate NatBit(n: nat, j: nat) {
    (n / Pow2(j)) % 2 == 1
  }

  /** Bits lo .. lo + 8 of the number, as an octet. */
  ghost predicate Holds(b: Octet, n: nat, lo: nat) {
    forall j :: 0 <= j < 8 ==> Bit(b, j) == NatBit(n, lo + j)
  }

  lemma DivTwice(n: nat, p: nat)
    requires p > 0
    ensures (n / 2) / p == n / (2 * p)
  {
    var q, r := (n / 2) / p, (n / 2) % p;
    assert n / 2 == p * q + r;
    assert (2 * p) * q == 2 * (p * q);
    DivModUnique(n, 2 * p, q, n % 2 + 2 * r);
  }

  lemma {:induction false} ToBitsAt(n: nat, w: nat, j: nat)
    requires j < w
    ensures ToBits(n, w)[j] == NatBit(n, j)
    decreases w
  {
    if j > 0 {
      ToBitsAt(n / 2, w - 1, j - 1);
      DivTwice(n, Pow2(j - 1));
    }
  }

  /** A field that reads back holds the bits of its value. */
  lemma FieldHolds(p: seq<Octet>, off: nat, size: nat, v: nat, j: nat)
    requires off + size <= 8 * |p| && GetField(p, off, size) == v % Pow2(size) && j < size
    ensures BitAt(p, off + j) == NatBit(v, j)
  {
    hide BitAt, NatBit, Pow2;
    ToFromBits(FieldBits(p, off, size));
    FromToBits(v, size);
    ToFromBits(ToBits(v, size));
    ToBitsAt(v, size, j);
  }

  /** Eight bits of a field that fill octet k. */
  lemma OctetHolds(p: seq<Octet>, off: nat, size: nat, v: nat, k: nat, lo: nat)
    requires off + size <= 8 * |p| && GetField(p, off, size) == v % Pow2(size)
    requires off + lo == 8 * k && lo + 8 <= size
    ensures Holds(p[k], v, lo)
  {
    hide NatBit, Pow2, Bit, GetField;
    forall j | 0 <= j < 8 ensures Bit(p[k], j) == NatBit(v, lo + j) {
      FieldHolds(p, off, size, v, lo + j);
      OctetBit(p, k, j);
    }
  }

  /** Some bits of octet k, from bit b on, hold a field from its bit lo on. */
  lemma BitHolds(p: seq<Octet>, off: nat, size: nat, v: nat, k: nat, j: nat)
    requires off + size <= 8 * |p| && GetField(p, off, size) == v % Pow2(size)
    requires off <= 8 * k + j < off + size && j < 8
    ensures Bit(p[k], j) == NatBit(v, 8 * k + j - off)
  {
    hide NatBit, Pow2, Bit, GetField;
    FieldHolds(p, off, size, v, 8 * k + j - off);
    OctetBit(p, k, j);
  }

  lemma NoBit(j: nat)
    ensures !NatBit(0, j)
  {
  }

  // ----- version 2

  /** A bit that no field covers stays as it was. */
  lemma Uncovered(p: seq<Octet>, fs: seq<Field>, i: nat)
    requires Fit(fs, |p|) && i < 8 * |p| && forall f <- fs :: Apart(f, Field(i, 1, 0))
    ensures BitAt(Fill(p, fs), i) == BitAt(p, i)
  {
    hide BitAt, Fill;
    FillElsewhere(p, fs, i, 1);
    OneBit(p, i);
    OneBit(Fill(p, fs), i);
  }

  /** Octets of a version 2 header: version and checksum mode, user octet, destination, identifier,
      fragment number with its low octet first, a reserved octet, and the start-of-frame bit on top. */
  lemma Header2Octets(p: seq<Octet>, h: Header2)
    requires |p| == HEADER_SIZE
    ensures var q := Insert2(p, h);
            && |q| == 8
            && (forall j :: 0 <= j < 4 ==> Bit(q[0], j) == (j == 1) && Bit(q[0], 4 + j) == NatBit(h.crcMode, j))
            && Holds(q[1], h.tUsr1, 0) && Holds(q[2], h.tDest, 0) && Holds(q[3], h.tId, 0)
            && Holds(q[4], h.fragNo, 0) && Holds(q[5], h.fragNo, 8)
            && q[6] == 0 && forall j :: 0 <= j < 8 ==> Bit(q[7], j) == (j == 7 && h.fragNo == 0)
  {
    hide GetField, Fill, Bit, Pow2, Insert2, NatBit, Holds;
    var fs, z, q := Layout2(h), Cleared(p, HEADER_SIZE), Insert2(p, h);
    Insert2Fill(p, h);
    Fields2(p, h);
    forall j | 0 <= j < 4 ensures Bit(q[0], j) == (j == 1) && Bit(q[0], 4 + j) == NatBit(h.crcMode, j) {
      BitHolds(q, 0, 4, VERSION_2, 0, j);
      Two(j);
      BitHolds(q, 4, 4, h.crcMode, 0, 4 + j);
    }
    OctetHolds(q, 8, 8, h.tUsr1, 1, 0);
    OctetHolds(q, 16, 8, h.tDest, 2, 0);
    OctetHolds(q, 24, 8, h.tId, 3, 0);
    OctetHolds(q, 32, 16, h.fragNo, 4, 0);
    OctetHolds(q, 32, 16, h.fragNo, 5, 8);
    Reserved2(p, h);
  }

  lemma Two(j: nat)
    requires j < 4
    ensures NatBit(2, j) == (j == 1)
  {
    assert Pow2(0) == 1 && Pow2(1) == 2 && Pow2(2) == 4 && Pow2(3) == 8;
  }

  lemma Fields2(p: seq<Octet>, h: Header2)
    requires |p| == HEADER_SIZE
    ensures var q := Insert2(p, h);
            && GetField(q, 0, 4) == VERSION_2 % Pow2(4) && GetField(q, 4, 4) == h.crcMode % Pow2(4)
            && GetField(q, 8, 8) == h.tUsr1 % Pow2(8) && GetField(q, 16, 8) == h.tDest % Pow2(8)
            && GetField(q, 24, 8) == h.tId % Pow2(8) && GetField(q, 32, 16) == h.fragNo % Pow2(16)
  {
    hide GetField, Fill, Bit, Pow2, Insert2;
    Insert2Fill(p, h);
    var fs, z := Layout2(h), Cleared(p, HEADER_SIZE);
    assert Fit(fs, |z|) && Disjoint(fs);
    FillGet(z, fs, 0);
    FillGet(z, fs, 1);
    FillGet(z, fs, 2);
    FillGet(z, fs, 3);
    FillGet(z, fs, 4);
    FillGet(z, fs, 6);
  }

  lemma ReservedBit(p: seq<Octet>, h: Header2, i: nat)
    requires |p| == HEADER_SIZE && 48 <= i < 63
    ensures !BitAt(Insert2(p, h), i)
  {
    hide GetField, Fill, Insert2, Pow2;
    Insert2Fill(p, h);
    var fs, z := Layout2(h), Cleared(p, HEADER_SIZE);
    Uncovered(z, fs, i);
    NoBits(i % 8);
  }

  lemma Reserved2(p: seq<Octet>, h: Header2)
    requires |p| == HEADER_SIZE
    ensures var q := Insert2(p, h);
            q[6] == 0 && forall j :: 0 <= j < 8 ==> Bit(q[7], j) == (j == 7 && h.fragNo == 0)
  {
    hide Insert2, Bit;
    var q := Insert2(p, h);
    forall j | 0 <= j < 8 ensures Bit(q[6], j) == Bit(0, j) {
      ReservedBit(p, h, 48 + j);
      OctetBit(q, 6, j);
      NoBits(j);
    }
    BitExt(q[6], 0);
    forall j | 0 <= j < 8 ensures Bit(q[7], j) == (j == 7 && h.fragNo == 0) {
      if j == 7 {
        RoundTrip2(p, h);
      } else {
        ReservedBit(p, h, 56 + j);
        OctetBit(q, 7, j);
      }
    }
  }

  // ----- version 0

  lemma Fields0(p: seq<Octet>, h: Header0)
    requires |p| == HEADER_SIZE
    ensures var q := Insert0(p, h);
            && GetField(q, 0, 4) == VERSION_0 % Pow2(4) && GetField(q, 4, 12) == h.frameNo % Pow2(12)
            && GetField(q, 16, 24) == h.fragNo % Pow2(24) && GetField(q, 40, 8) == h.tDest % Pow2(8)
            && GetField(q, 48, 8) == h.tId % Pow2(8) && GetField(q, 56, 8) == h.tUsr1 % Pow2(8)
  {
    hide GetField, Fill, Bit, Pow2;
    var fs, z := Layout0(h), Cleared(p, HEADER_SIZE);
    assert Fit(fs, |z|) && Disjoint(fs);
    FillGet(z, fs, 0);
    FillGet(z, fs, 1);
    FillGet(z, fs, 2);
    FillGet(z, fs, 3);
    FillGet(z, fs, 4);
    FillGet(z, fs, 5);
  }

  /** Octets of a version 0 header: version 0 below the low four bits of the frame number, its other
      eight bits, fragment number with its low octet first, destination, identifier, user octet. */
  lemma Header0Octets(p: seq<Octet>, h: Header0)
    requires |p| == HEADER_SIZE
    ensures var q := Insert0(p, h);
            && |q| == 8
            && (forall j :: 0 <= j < 4 ==> !Bit(q[0], j) && Bit(q[0], 4 + j) == NatBit(h.frameNo, j))
            && Holds(q[1], h.frameNo, 4)
            && Holds(q[2], h.fragNo, 0) && Holds(q[3], h.fragNo, 8) && Holds(q[4], h.fragNo, 16)
            && Holds(q[5], h.tDest, 0) && Holds(q[6], h.tId, 0) && Holds(q[7], h.tUsr1, 0)
  {
    hide GetField, Fill, Bit, Pow2, Insert0, NatBit, Holds;
    var q := Insert0(p, h);
    Fields0(p, h);
    forall j | 0 <= j < 4 ensures !Bit(q[0], j) && Bit(q[0], 4 + j) == NatBit(h.frameNo, j) {
      BitHolds(q, 0, 4, VERSION_0, 0, j);
      NoBit(j);
      BitHolds(q, 4, 12, h.frameNo, 0, 4 + j);
    }
    OctetHolds(q, 4, 12, h.frameNo, 1, 4);
    OctetHolds(q, 16, 24, h.fragNo, 2, 0);
    OctetHolds(q, 16, 24, h.fragNo, 3, 8);
    OctetHolds(q, 16, 24, h.fragNo, 4, 16);
    OctetHolds(q, 40, 8, h.tDest, 5, 0);
    OctetHolds(q, 48, 8, h.tId, 6, 0);
    OctetHolds(q, 56, 8, h.tUsr1, 7, 0);
  }

  // ----- tail of version 2

  lemma FieldsTail(lanes: nat, tUsr2: nat, eof: bool)
    ensures var t := TailStart(lanes, tUsr2, eof);
            && GetField(t, 16, 4) == lanes % Pow2(4) && GetField(t, 0, 8) == tUsr2 % Pow2(8)
            && GetField(t, 8, 1) == (if eof then 1 else 0) % Pow2(1)
  {
    hide GetField, Fill, Bit, Pow2;
    var fs, z := TailLayout(lanes, tUsr2, eof), seq(TAIL_SIZE, _ => 0 as Octet);
    assert Fit(fs, |z|) && Disjoint(fs);
    FillGet(z, fs, 0);
    FillGet(z, fs, 1);
    FillGet(z, fs, 2);
  }

  lemma ClearTailBit(lanes: nat, tUsr2: nat, eof: bool, i: nat)
    requires 9 <= i < 16 || 20 <= i < 32
    ensures !BitAt(TailStart(lanes, tUsr2, eof), i)
  {
    hide GetField, Fill;
    Uncovered(seq(TAIL_SIZE, _ => 0), TailLayout(lanes, tUsr2, eof), i);
    NoBits(i % 8);
  }

  /** Octets of a tail: user octet, end-of-frame bit at the bottom of the next, number of lanes in the
      low half of the third, a reserved octet, checksum with its high octet first. */
  lemma TailOctets(lanes: nat, tUsr2: nat, eof: bool, crc: bv32)
    ensures var t := WithCrc(TailStart(lanes, tUsr2, eof), crc);
            && |t| == 8 && Holds(t[0], tUsr2, 0)
            && (forall j :: 0 <= j < 8 ==> Bit(t[1], j) == (j == 0 && eof))
            && (forall j :: 0 <= j < 8 ==> Bit(t[2], j) == (j < 4 && NatBit(lanes, j)))
            && t[3] == 0
            && t[4] == (crc >> 24) as Octet && t[5] == ((crc >> 16) & 0xff) as Octet
            && t[6] == ((crc >> 8) & 0xff) as Octet && t[7] == (crc & 0xff) as Octet
  {
    hide GetField, Fill, Bit, Pow2, NatBit, Holds, TailStart, WithCrc;
    var s := TailStart(lanes, tUsr2, eof);
    CrcOctets(s, crc);
    FieldsTail(lanes, tUsr2, eof);
    OctetHolds(s, 0, 8, tUsr2, 0, 0);
    forall j | 0 <= j < 8 ensures Bit(s[1], j) == (j == 0 && eof) {
      if j == 0 {
        BitHolds(s, 8, 1, if eof then 1 else 0, 1, 0);
        LowBit();
      } else {
        ClearTailBit(lanes, tUsr2, eof, 8 + j);
        OctetBit(s, 1, j);
      }
    }
    forall j | 0 <= j < 8 ensures Bit(s[2], j) == (j < 4 && NatBit(lanes, j)) {
      if j < 4 {
        BitHolds(s, 16, 4, lanes, 2, j);
      } else {
        ClearTailBit(lanes, tUsr2, eof, 16 + j);
        OctetBit(s, 2, j);
      }
    }
    forall j | 0 <= j < 8 ensures Bit(s[3], j) == Bit(0, j) {
      ClearTailBit(lanes, tUsr2, eof, 24 + j);
      OctetBit(s, 3, j);
      NoBits(j);
    }
    BitExt(s[3], 0);
  }

  lemma LowBit()
    ensures NatBit(1, 0) && !NatBit(0, 0)
  {
  }

  // ----- fragments

  /** The octet whose value is a number below 256. */
  lemma HoldsDest(b: Octet, tDest: Octet)
    requires Holds(b, LittleEndian([tDest]), 0)
    ensures b == tDest
  {
    hide Bit, NatBit;
    var s := seq(8 * 1, i requires 0 <= i < 8 * 1 => BitAt([tDest], i));
    assert LittleEndian([tDest]) == FromBits(s);
    ToFromBits(s);
    forall j | 0 <= j < 8 ensures Bit(b, j) == Bit(tDest, j) {
      ToBitsAt(FromBits(s), 8, j);
      OctetBit([tDest], 0, j);
      assert s[j] == BitAt([tDest], 8 * 0 + j);
    }
    BitExt(b, tDest);
  }

  lemma HoldsZero(b: Octet)
    requires Holds(b, 0, 0)
    ensures b == 0
  {
    forall j | 0 <= j < 8 ensures Bit(b, j) == Bit(0, j) {
      NoBits(j);
      NoBit(j);
    }
    BitExt(b, 0);
  }

  lemma HoldsTwo(b: Octet)
    requires Holds(b, 2, 0)
    ensures b == 2
  {
    forall j | 0 <= j < 8 ensures Bit(b, j) == Bit(2, j) {
      TwoBits(j);
    }
    BitExt(b, 2);
  }

  lemma TwoBits(j: nat)
    requires j < 8
    ensures NatBit(2, j) == (j == 1) && Bit(2, j) == (j == 1)
  {
    assert Pow2(0) == 1 && Pow2(1) == 2 && Pow2(2) == 4 && Pow2(3) == 8 && Pow2(4) == 16;
    assert Pow2(5) == 32 && Pow2(6) == 64 && Pow2(7) == 128;
    match j
    case 0 => case 1 => case 2 => case 3 => case 4 => case 5 => case 6 => case 7 =>
  }

  lemma VersionAndMode(b: Octet)
    requires forall j :: 0 <= j < 4 ==> Bit(b, j) == (j == 1) && Bit(b, 4 + j) == NatBit(CRC_FULL, j)
    ensures b == 0x22
  {
    hide NatBit, Bit;
    forall j | 0 <= j < 8 ensures Bit(b, j) == Bit(0x22, j) {
      if j < 4 {
        Nibbles(j);
      } else {
        Nibbles(j - 4);
        assert Bit(b, 4 + (j - 4)) == NatBit(CRC_FULL, j - 4);
      }
    }
    BitExt(b, 0x22);
  }

  lemma Nibbles(j: nat)
    requires j < 4
    ensures Bit(0x22, j) == (j == 1) && Bit(0x22, 4 + j) == NatBit(CRC_FULL, j)
  {
    Two(j);
    match j
    case 0 => case 1 => case 2 => case 3 =>
  }

  lemma TopOnly(b: Octet, top: bool)
    requires forall j :: 0 <= j < 8 ==> Bit(b, j) == (j == 7 && top)
    ensures b == if top then 0x80 else 0
  {
    forall j | 0 <= j < 8 ensures Bit(b, j) == Bit(if top then 0x80 else 0, j) {
      TopBits(j);
    }
    BitExt(b, if top then 0x80 else 0);
  }

  lemma TopBits(j: nat)
    requires j < 8
    ensures Bit(0x80, j) == (j == 7) && !Bit(0, j)
  {
    match j
    case 0 => case 1 => case 2 => case 3 => case 4 => case 5 => case 6 => case 7 =>
  }

  /** Every fragment begins like this: version 2 with a full checksum, 2 in the user octet of the first
      fragment, the destination, no identifier, the number with its low octet first, and the
      start-of-frame bit on the first fragment only. */
  lemma FragmentHeader(fragNo: Word, tDest: Octet)
    ensures var q := HeaderOctets(fragNo, tDest);
            && q[0] == 0x22 && q[1] == (if fragNo == 0 then 2 else 0) && q[2] == tDest && q[3] == 0
            && Holds(q[4], fragNo, 0) && Holds(q[5], fragNo, 8) && q[6] == 0 && q[7] == (if fragNo == 0 then 0x80 else 0)
  {
    hide Holds, Insert2, NatBit, Bit, LittleEndian;
    var h := Header2(fragNo, LittleEndian([tDest]), 0, if fragNo == 0 then 2 else 0, CRC_FULL);
    Header2Octets(seq(HEADER_SIZE, _ => 0), h);
    var q := HeaderOctets(fragNo, tDest);
    VersionAndMode(q[0]);
    if fragNo == 0 {
      HoldsTwo(q[1]);
    } else {
      HoldsZero(q[1]);
    }
    HoldsDest(q[2], tDest);
    HoldsZero(q[3]);
    TopOnly(q[7], fragNo == 0);
  }

  /** The lanes of a tail count the octets of data in the last eight before it. */
  lemma LaneCount(size: nat)
    ensures Lanes(size) == (if size == 0 then 0 else (size - 1) % 8 + 1) && Padding(size) < 8
    ensures (size + Padding(size)) % 8 == 0
  {
  }
}

/** Fragmentation and reassembly of the packetizer protocol, version 2, with headers stripped for
    the user (src/cpsw_proto_mod_tdestmux2.cc).

    `IsFragment` says what a fragment looks like on the wire, `Receive` what a port does with
    one. Muxer runs interleave the fragments of any number of ports. */
module Packetizer {
  import opened Wrappers
  import opened CircularIndex
  import opened Octets
  import opened Bits
  import opened BitField
  import opened Crc32
  import opened PackHeader

  // ----- the wire

  /** getTailPadding */
  function Padding(size: nat): nat {
    (ALIGNMENT - size) % ALIGNMENT
  }

  function HeaderOctets(fragNo: Word, tDest: Octet): (h: seq<Octet>)
    ensures |h| == HEADER_SIZE
  {
    Insert2(seq(HEADER_SIZE, _ => 0), Header2(fragNo, LittleEndian([tDest]), 0, if fragNo == 0 then 2 else 0, CRC_FULL))
  }

  function Lanes(size: nat): nat {
    if size == 0 then 0 else ALIGNMENT - Padding(size)
  }

  function TailOf(f: seq<Octet>): (t: seq<Octet>)
    requires |f| >= HEADER_SIZE + TAIL_SIZE
    ensures |t| == TAIL_SIZE
  {
    f[|f| - TAIL_SIZE..]
  }

  /** Header, data, padding of any content, tail; the checksum continues over all fragments of a
      frame and leaves out only its own four octets. */
  ghost predicate IsFragment(f: seq<Octet>, data: seq<Octet>, fragNo: Word, tDest: Octet, eof: bool,
                             crc: bv32, crc': bv32)
  {
    && |f| == HEADER_SIZE + |data| + Padding(|data|) + TAIL_SIZE
    && f[..HEADER_SIZE] == HeaderOctets(fragNo, tDest)
    && f[HEADER_SIZE..HEADER_SIZE + |data|] == data
    && crc' == Bitwise(crc, f[..|f| - 4])
    && TailOf(f) == WithCrc(TailStart(Lanes(|data|), 0, eof), !crc')
  }

  // ----- the receiver

  datatype RxState = RxState(assembled: Option<seq<Octet>>, fragNo: Word)

  datatype Outcome = Absorbed | Frame(data: seq<Octet>) | BadHeader | NonSequential

  /** The octets between header and padding; None if the tail makes no sense. */
  function Trimmed(f: seq<Octet>): Option<seq<Octet>>
    requires |f| >= HEADER_SIZE + TAIL_SIZE
  {
    match NumLanes(TailOf(f))
    case None => None
    case Some(n) =>
      var strip := 2 * TAIL_SIZE - n;
      if |f| - HEADER_SIZE < strip then None else Some(f[HEADER_SIZE..|f| - strip])
  }

  /** CTDestPort2::pushDownstream */
  function Receive(st: RxState, f: seq<Octet>): (RxState, Outcome) {
    var h := Parse2(f);
    if h.None? || |f| < HEADER_SIZE + TAIL_SIZE then (st, BadHeader)
    else
      var data := Trimmed(f);
      if data.None? then (st, BadHeader)
      else if IsFirst(f) then Assembled(data.value, 0, TailEOF(TailOf(f)))
      else if st.assembled.None? then (st, NonSequential)
      else if Inc(st.fragNo) % 0x1_0000 != h.value.fragNo then (RxState(None, Inc(st.fragNo)), NonSequential)
      else Assembled(st.assembled.value + data.value, Inc(st.fragNo), TailEOF(TailOf(f)))
  }

  function Assembled(a: seq<Octet>, fragNo: Word, eof: bool): (RxState, Outcome) {
    if eof then (RxState(None, fragNo), Frame(a)) else (RxState(Some(a), fragNo), Absorbed)
  }

  // ----- one fragment there and back

  /** Fields lie where they are even if more octets follow. */
  lemma FieldOfPrefix(p: seq<Octet>, n: nat, off: nat, size: nat)
    requires n <= |p| && off + size <= 8 * n
    ensures GetField(p, off, size) == GetField(p[..n], off, size)
  {
    hide Bit;
    forall j | 0 <= j < size
      ensures FieldBits(p, off, size)[j] == FieldBits(p[..n], off, size)[j]
    {
      var k := (off + j) / 8;
      assert k < n && p[..n][k] == p[k];
      assert BitAt(p, off + j) == BitAt(p[..n], off + j);
    }
    assert FieldBits(p, off, size) == FieldBits(p[..n], off, size);
  }

  lemma ParsePrefix(p: seq<Octet>)
    requires |p| >= HEADER_SIZE
    ensures Parse2(p) == Parse2(p[..HEADER_SIZE]) && IsFirst(p) == IsFirst(p[..HEADER_SIZE])
  {
    hide GetField;
    FieldOfPrefix(p, HEADER_SIZE, 0, 4);
    FieldOfPrefix(p, HEADER_SIZE, 32, 16);
    FieldOfPrefix(p, HEADER_SIZE, 16, 8);
    FieldOfPrefix(p, HEADER_SIZE, 24, 8);
    FieldOfPrefix(p, HEADER_SIZE, 8, 8);
    FieldOfPrefix(p, HEADER_SIZE, 4, 4);
  }

  /** What the receiver reads from a fragment. */
  lemma FragmentParses(f: seq<Octet>, data: seq<Octet>, fragNo: Word, tDest: Octet, eof: bool, crc: bv32, crc': bv32)
    requires IsFragment(f, data, fragNo, tDest, eof, crc, crc') && data != []
    ensures Parse2(f).Some? && Parse2(f).value.fragNo == fragNo % 0x1_0000
    ensures IsFirst(f) == (fragNo == 0)
    ensures TailEOF(TailOf(f)) == eof
    ensures Trimmed(f) == Some(data)
  {
    hide Parse2, IsFirst, Insert2, WithCrc, TailStart, LittleEndian, NumLanes, TailEOF, Bitwise;
    ParsePrefix(f);
    RoundTrip2(seq(HEADER_SIZE, _ => 0), Header2(fragNo, LittleEndian([tDest]), 0, if fragNo == 0 then 2 else 0, CRC_FULL));
    TailRoundTrip(Lanes(|data|), 0, eof, !crc');
    assert |f| - (2 * TAIL_SIZE - Lanes(|data|)) == HEADER_SIZE + |data|;
  }

  /** A port in step with the sender absorbs the data; the last fragment completes the frame. */
  lemma ReceiveFragment(st: RxState, f: seq<Octet>, data: seq<Octet>, fragNo: Word, tDest: Octet, eof: bool,
                        crc: bv32, crc': bv32)
    requires IsFragment(f, data, fragNo, tDest, eof, crc, crc') && data != []
    requires fragNo != 0 ==> st.assembled.Some? && Inc(st.fragNo) == fragNo
    ensures Receive(st, f) == Assembled(if fragNo == 0 then data else st.assembled.value + data, fragNo, eof)
  {
    hide Parse2, IsFirst, TailEOF, Trimmed, TailOf, IsFragment;
    FragmentParses(f, data, fragNo, tDest, eof, crc, crc');
    assert |f| >= HEADER_SIZE + TAIL_SIZE by { FragmentSize(f, data, fragNo, tDest, eof, crc, crc'); }
  }

  /** A port in step with the sender takes a fragment in exactly if it carries data; a fragment
      without any, which sendFrag makes of a frame without any, counts as malformed. */
  lemma ReceiveExactly(st: RxState, f: seq<Octet>, data: seq<Octet>, fragNo: Word, tDest: Octet, eof: bool,
                       crc: bv32, crc': bv32)
    requires IsFragment(f, data, fragNo, tDest, eof, crc, crc')
    requires fragNo != 0 ==> st.assembled.Some? && Inc(st.fragNo) == fragNo
    ensures data != [] <==> Receive(st, f) == Assembled(if fragNo == 0 then data else st.assembled.value + data, fragNo, eof)
    ensures data == [] ==> Receive(st, f) == (st, BadHeader)
  {
    hide Parse2, IsFirst, TailOf, WithCrc, TailStart, NumLanes, TailEOF, HeaderOctets, Bitwise;
    if data != [] {
      ReceiveFragment(st, f, data, fragNo, tDest, eof, crc, crc');
    } else {
      TailRoundTrip(0, 0, eof, !crc');
    }
  }

  lemma FragmentSize(f: seq<Octet>, data: seq<Octet>, fragNo: Word, tDest: Octet, eof: bool, crc: bv32, crc': bv32)
    requires IsFragment(f, data, fragNo, tDest, eof, crc, crc')
    ensures |f| == HEADER_SIZE + |data| + Padding(|data|) + TAIL_SIZE && |f| % ALIGNMENT == 0
    ensures |f| <= |data| + HEADER_SIZE + 2 * TAIL_SIZE - 1
  {
    hide HeaderOctets, TailStart, WithCrc, Bitwise, Lanes;
    PaddingAligns(|data|);
  }

  lemma PaddingAligns(n: nat)
    ensures Padding(n) <= 7 && (n + Padding(n)) % ALIGNMENT == 0
  {
  }

  /** extractDest: the multiplexer picks the port by octet 2. */
  lemma FragmentDest(f: seq<Octet>, data: seq<Octet>, fragNo: Word, tDest: Octet, eof: bool, crc: bv32, crc': bv32)
    requires IsFragment(f, data, fragNo, tDest, eof, crc, crc')
    ensures |f| > 2 && f[2] == tDest
  {
    hide Bitwise, Fill, GetField, Pow2, LittleEndian, Bit, WithCrc, TailStart;
    var h := Header2(fragNo, LittleEndian([tDest]), 0, if fragNo == 0 then 2 else 0, CRC_FULL);
    var z := seq(HEADER_SIZE, _ => 0 as Octet);
    RoundTrip2(z, h);
    var p := Insert2(z, h);
    assert p == f[..8];
    OneOctet(tDest);
    OneOctetField(p, 2);
    SameOctet(p[2], tDest);
  }

  lemma OneOctet(b: Octet)
    ensures LittleEndian([b]) < 0x100
  {
    FromBitsBound(seq(8, i requires 0 <= i < 8 => BitAt([b], i)));
  }

  lemma OneOctetField(p: seq<Octet>, k: nat)
    requires k < |p|
    ensures GetField(p, 8 * k, 8) == LittleEndian([p[k]])
  {
    hide Bit;
    var s := FieldBits(p, 8 * k, 8);
    var t := seq(8 * 1, i requires 0 <= i < 8 * 1 => BitAt([p[k]], i));
    forall i | 0 <= i < 8 ensures s[i] == t[i] {
      OctetBit(p, k, i);
    }
    assert s == t;
  }

  lemma SameOctet(a: Octet, b: Octet)
    requires LittleEndian([a]) == LittleEndian([b])
    ensures a == b
  {
    hide Bit;
    var s := seq(8 * 1, i requires 0 <= i < 8 * 1 => BitAt([a], i));
    var t := seq(8 * 1, i requires 0 <= i < 8 * 1 => BitAt([b], i));
    ToFromBits(s);
    ToFromBits(t);
    forall i | 0 <= i < 8 ensures BitAt([a], i) == BitAt([b], i) {
      assert s[i] == t[i];
    }
    SameBits([a], [b]);
  }
}

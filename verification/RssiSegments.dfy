/** Sequence numbers and segments of the RSSI transport (src/cpsw_rssi_proto.h, src/cpsw_rssi.h).

    A `Segment` is a parsed header plus its payload.  Sequence and acknowledgement numbers are
    8 bits wide and wrap; `Num(isn, i)` is the number that the i-th segment of a connection
    carries when the first one (the SYN) carried `isn`. */
module RssiSegments {

  /** uint8_t */
  type Byte = n: nat | n < 256

  type Payload = seq<Byte>

  /** What a SYN announces: window, retransmission limit, cumulative-acknowledge limit. */
  datatype SynParams = SynParams(ossMX: nat, rexMX: nat, cakMX: nat)

  datatype Segment = Segment(syn: bool, ack: bool, rst: bool, nul: bool, bsy: bool,
                             seqNo: Byte, ackNo: Byte, payload: Payload, params: SynParams)

  const NO_PARAMS := SynParams(0, 0, 0)

  /** nxtSeqNo */
  function Nxt(s: Byte): Byte {
    (s + 1) % 256
  }

  /** a - b in uint8_t arithmetic */
  function Sub(a: Byte, b: Byte): Byte {
    (a - b) % 256
  }

  function Num(isn: Byte, i: nat): Byte {
    (isn + i) % 256
  }

  /** `(flags & ~BSY) == ACK` */
  predicate IsPureAck(seg: Segment) {
    seg.ack && !seg.syn && !seg.rst && !seg.nul
  }

  /** Segments that occupy a slot of the reassembly buffer. */
  predicate IsData(seg: Segment) {
    !seg.syn && (seg.payload != [] || seg.nul)
  }

  function AckSegment(seqNo: Byte): Segment {
    Segment(false, true, false, false, false, seqNo, 0, [], NO_PARAMS)
  }

  function RstSegment(seqNo: Byte): Segment {
    Segment(false, true, true, false, false, seqNo, 0, [], NO_PARAMS)
  }

  function NulSegment(seqNo: Byte): Segment {
    Segment(false, true, false, true, false, seqNo, 0, [], NO_PARAMS)
  }

  function DatSegment(seqNo: Byte, p: Payload): Segment {
    Segment(false, true, false, false, false, seqNo, 0, p, NO_PARAMS)
  }

  function SynSegment(seqNo: Byte, ack: bool, params: SynParams): Segment {
    Segment(true, ack, false, false, false, seqNo, 0, [], params)
  }

  // ----- what a connection's segments mean, independently of their numbers

  /** One unit of a connection: everything that consumes a sequence number and is kept for
      retransmission. */
  datatype Item = Syn(ack: bool, params: SynParams) | Dat(p: Payload) | Nul

  /** `seg` transports `item` under number `n`; the acknowledgement number and the busy flag are
      rewritten at every transmission and are not constrained. */
  predicate Carries(seg: Segment, item: Item, n: Byte) {
    && seg.seqNo == n
    && !seg.rst
    && match item
       case Syn(ack, params) => seg.syn && seg.ack == ack && !seg.nul && seg.payload == [] && seg.params == params
       case Dat(p) => !seg.syn && seg.ack && !seg.nul && seg.payload == p && p != []
       case Nul => !seg.syn && seg.ack && seg.nul && seg.payload == []
  }

  /** The user payloads among `items`, in order. */
  function Dats(items: seq<Item>): seq<Payload> {
    if items == [] then []
    else
      var last := items[|items| - 1];
      Dats(items[..|items| - 1]) + if last.Dat? then [last.p] else []
  }

  lemma DatsSnoc(items: seq<Item>, item: Item)
    ensures Dats(items + [item]) == Dats(items) + if item.Dat? then [item.p] else []
  {
    assert (items + [item])[..|items|] == items;
  }

  /** A prefix of the items has a prefix of the payloads. */
  lemma {:induction false} DatsPrefix(a: seq<Item>, b: seq<Item>)
    requires a <= b
    ensures Dats(a) <= Dats(b)
    decreases |b|
  {
    if |a| < |b| {
      assert a <= b[..|b| - 1];
      DatsPrefix(a, b[..|b| - 1]);
    } else {
      assert a == b;
    }
  }

  // ----- arithmetic of the numbers

  lemma NumNext(isn: Byte, i: nat)
    ensures Num(isn, i + 1) == Nxt(Num(isn, i))
  {
  }

  lemma NumAdd(isn: Byte, i: nat, n: nat)
    ensures Num(Num(isn, i), n) == Num(isn, i + n)
  {
  }

  lemma NumZero(isn: Byte)
    ensures Num(isn, 0) == isn
  {
  }

  /** The 8-bit distance of two numbers is the distance of their indices modulo 256. */
  lemma SubNum(isn: Byte, i: nat, j: nat)
    ensures i >= j ==> Sub(Num(isn, i), Num(isn, j)) == (i - j) % 256
    ensures i < j <= i + 256 ==> Sub(Num(isn, i), Num(isn, j)) == 256 - (j - i) || (j == i + 256 && Sub(Num(isn, i), Num(isn, j)) == 0)
  {
    var a: int, b: int := Num(isn, i), Num(isn, j);
    var x: int, y: int := isn as int + i, isn as int + j;
    var d: int := x / 256 - y / 256;
    assert i - j == 256 * d + (a - b);
    Wrapped(d, a - b);
    Wrapped(0, a - b);
  }

  lemma Wrapped(d: int, r: int)
    requires -256 < r < 256
    ensures (256 * d + r) % 256 == if r >= 0 then r else r + 256
  {
    if r >= 0 {
      assert (256 * d + r) / 256 == d;
    } else {
      assert (256 * d + r) / 256 == d - 1;
    }
  }

  /** Window soundness: when the window is at most half the number space and index `i` is less
      than one window away from `g` on either side, an 8-bit offset inside the window determines
      the index. */
  lemma WindowSound(isn: Byte, i: nat, g: nat, w: nat)
    requires w <= 128
    requires g <= i + w
    requires i < g + w
    ensures Sub(Num(isn, i), Num(isn, g)) < w ==> i == g + Sub(Num(isn, i), Num(isn, g))
    ensures g <= i ==> Sub(Num(isn, i), Num(isn, g)) == i - g
  {
    SubNum(isn, i, g);
  }
}

/** What ties the two ends of one direction together: a sending half, the receiving half at the
    other end, the channel that carries the data and the channel that carries the
    acknowledgements back.

    Channels are FIFO and may lose any segment.  A `Flight` is a segment under way, annotated
    with unbounded indices that no endpoint ever sees. */
module RssiLink {
  import opened Wrappers
  import opened CircularIndex
  import opened RssiSegments
  import opened RssiEndpoint
  import opened RssiInvariant

  /** idx: index of the item carried (if any); top: number of items its sender had sent so far;
      ack: number of items its sender had taken in so far. */
  datatype Flight = Flight(seg: Segment, idx: nat, top: nat, ack: nat)

  predicate NoData(seg: Segment) {
    IsAckOnly(seg) || IsRst(seg)
  }

  /** A segment on its way from x to a receiver with a window of `lim`. */
  ghost predicate FlightOk(x: Tx, lim: nat, f: Flight) {
    && f.top <= |x.sent|
    && (NoData(f.seg) ||
        (f.idx < f.top <= f.idx + lim && Carries(f.seg, x.sent[f.idx], Num(x.isn, f.idx))))
  }

  /** Slot o of y's window holds item |got| + o of x. */
  ghost predicate SlotOk(x: Tx, y: Rx, o: nat)
    requires o < |y.window| && y.window[o].Some?
  {
    |y.got| + o < |x.sent| && Carries(y.window[o].value, x.sent[|y.got| + o], Num(x.isn, |y.got| + o))
  }

  /** y has seen nothing that was sent after `f`. */
  ghost predicate NotPast(y: Rx, f: Flight) {
    && |y.got| <= f.top
    && forall o :: 0 <= o < |y.window| && y.window[o].Some? && y.got != [] ==> |y.got| + o < f.top
  }

  ghost predicate TopsAscend(ch: seq<Flight>) {
    forall j, k :: 0 <= j < k < |ch| ==> ch[j].top <= ch[k].top
  }

  ghost predicate AcksAscend(ch: seq<Flight>) {
    forall j, k :: 0 <= j < k < |ch| ==> ch[j].ack <= ch[k].ack
  }

  /** The data direction: what y took in is what x sent, and so is everything still under way. */
  ghost predicate DataOk(x: Tx, y: Rx, lim: nat, ch: seq<Flight>) {
    && (y.got != [] ==> y.oldest == Num(x.isn, |y.got|))
    && (forall o :: 0 <= o < |y.window| && y.window[o].Some? && y.got != [] ==> SlotOk(x, y, o))
    && (forall k :: 0 <= k < |ch| ==> FlightOk(x, lim, ch[k]))
    && (forall k :: 0 <= k < |ch| ==> NotPast(y, ch[k]))
    && TopsAscend(ch)
  }

  /** An acknowledgement on its way back to x: it covers what y had taken in, no more, and at
      least what x has discarded already. */
  ghost predicate AckOk(x: Tx, y: Rx, f: Flight) {
    && Base(x) <= f.ack <= |y.got|
    && (f.seg.ack ==> f.ack >= 1 && f.seg.ackNo == Num(x.isn, f.ack - 1))
  }

  ghost predicate AcksOk(x: Tx, y: Rx, rv: seq<Flight>) {
    && Base(x) <= |y.got|
    && (forall k :: 0 <= k < |rv| ==> AckOk(x, y, rv[k]))
    && AcksAscend(rv)
  }

  // ----- x acts

  lemma DataGrows(x: Tx, x': Tx, y: Rx, lim: nat, ch: seq<Flight>)
    requires DataOk(x, y, lim, ch)
    requires x.sent <= x'.sent && x'.isn == x.isn
    ensures DataOk(x', y, lim, ch)
  {
    forall o | 0 <= o < |y.window| && y.window[o].Some? && y.got != []
      ensures SlotOk(x', y, o)
    {
      assert SlotOk(x, y, o);
    }
    forall k | 0 <= k < |ch|
      ensures FlightOk(x', lim, ch[k])
    {
      assert FlightOk(x, lim, ch[k]);
    }
  }

  lemma AcksKeep(x: Tx, x': Tx, y: Rx, rv: seq<Flight>)
    requires AcksOk(x, y, rv)
    requires Base(x') == Base(x) && x'.isn == x.isn
    ensures AcksOk(x', y, rv)
  {
    forall k | 0 <= k < |rv|
      ensures AckOk(x', y, rv[k])
    {
      assert AckOk(x, y, rv[k]);
    }
  }

  /** The acknowledgement at the head of the channel removes exactly the items it covers: all of
      them have been taken in by y. */
  lemma AckExact(x: Tx, y: Rx, rv: seq<Flight>)
    requires AcksOk(x, y, rv) && rv != [] && rv[0].seg.ack
    requires RingOk(x) && x.sent != [] && |x.ring.segs| <= 128 && y.got <= x.sent
    ensures Base(x) + AckCount(x.ring, rv[0].seg.ackNo) == rv[0].ack <= |y.got|
    ensures AcksOk(x.(ring := RingAck(x.ring, rv[0].seg.ackNo)), y, rv[1..])
  {
    var f := rv[0];
    assert AckOk(x, y, f);
    var x' := x.(ring := RingAck(x.ring, f.seg.ackNo));
    AckCountExact(x.isn, Base(x), f.ack, x.ring);
    forall k | 0 <= k < |rv[1..]|
      ensures AckOk(x', y, rv[1..][k])
    {
      assert AckOk(x, y, rv[k + 1]);
      assert rv[0].ack <= rv[k + 1].ack;
    }
  }

  lemma AckCountExact(isn: Byte, base: nat, upTo: nat, r: Ring)
    requires r.oldest == Num(isn, base) && 1 <= upTo && base <= upTo <= base + |r.segs| && |r.segs| <= 128
    ensures AckCount(r, Num(isn, upTo - 1)) == upTo - base
  {
    Distance(isn + upTo - 1, isn + base);
    assert Num(isn, upTo - 1) - Num(isn, base) + 1 == (isn + upTo - 1) % 256 - (isn + base) % 256 + 1;
  }

  /** The distance of two numbers, both reduced. */
  lemma Distance(x: nat, y: nat)
    ensures (x % 256 - y % 256 + 1) % 256 == (x - y + 1) % 256
  {
    var q: int, r: int := x / 256 - y / 256, x % 256 - y % 256 + 1;
    assert x - y + 1 == 256 * q + r;
    var m := r / 256;
    assert (256 * q + r) / 256 == q + m;
  }

  lemma DropHead(x: Tx, y: Rx, lim: nat, ch: seq<Flight>)
    requires DataOk(x, y, lim, ch) && ch != []
    ensures DataOk(x, y, lim, ch[1..])
  {
  }

  lemma DropHeadAck(x: Tx, y: Rx, rv: seq<Flight>)
    requires AcksOk(x, y, rv) && rv != []
    ensures AcksOk(x, y, rv[1..])
  {
  }

  /** The network may lose any segment. */
  lemma DropAny(x: Tx, y: Rx, lim: nat, ch: seq<Flight>, i: nat)
    requires i < |ch|
    ensures DataOk(x, y, lim, ch) ==> DataOk(x, y, lim, ch[..i] + ch[i + 1..])
    ensures AcksOk(x, y, ch) ==> AcksOk(x, y, ch[..i] + ch[i + 1..])
  {
    var ch' := ch[..i] + ch[i + 1..];
    assert forall k :: 0 <= k < |ch'| ==> ch'[k] == ch[if k < i then k else k + 1];
  }

  // ----- y acts

  lemma AcksMore(x: Tx, y: Rx, y': Rx, rv: seq<Flight>)
    requires AcksOk(x, y, rv) && |y.got| <= |y'.got|
    ensures AcksOk(x, y', rv)
  {
    forall k | 0 <= k < |rv|
      ensures AckOk(x, y', rv[k])
    {
      assert AckOk(x, y, rv[k]);
    }
  }

  /** Storing the head of the channel: an offset inside the window identifies the item. */
  lemma StoreData(x: Tx, y: Rx, lim: nat, ch: seq<Flight>)
    requires DataOk(x, y, lim, ch) && ch != [] && y.got != []
    requires |y.window| == lim <= 128 && |x.sent| <= |y.got| + lim
    requires !NoData(ch[0].seg) && CanAccept(y, ch[0].seg.seqNo)
    ensures DataOk(x, Store(y, ch[0].seg), lim, ch[1..])
  {
    hide Num, NoData, Sub;
    var f := ch[0];
    assert FlightOk(x, lim, f) && NotPast(y, f);
    var off := Sub(f.seg.seqNo, y.oldest);
    WindowSound(x.isn, f.idx, |y.got|, lim);
    assert f.idx == |y.got| + off;
    var y' := Store(y, f.seg);
    forall o | 0 <= o < |y'.window| && y'.window[o].Some?
      ensures SlotOk(x, y', o)
    {
      if o != off {
        assert SlotOk(x, y, o);
      }
    }
    forall k | 0 <= k < |ch[1..]|
      ensures NotPast(y', ch[1..][k])
    {
      assert NotPast(y, ch[k + 1]);
      assert ch[0].top <= ch[k + 1].top;
    }
  }

  lemma PopData(x: Tx, y: Rx, y': Rx, lim: nat, ch: seq<Flight>)
    requires DataOk(x, y, lim, ch) && y.got != [] && y.got <= x.sent
    requires y.window != [] && y.window[0].Some? && y' == PopFront(y).(delivered := y'.delivered)
    ensures DataOk(x, y', lim, ch) && y'.got <= x.sent && |y'.got| == |y.got| + 1
  {
    assert SlotOk(x, y, 0);
    assert ItemOf(y.window[0].value) == x.sent[|y.got|];
    assert y'.got == x.sent[..|y.got| + 1];
    NumNext(x.isn, |y.got|);
    forall o | 0 <= o < |y'.window| && y'.window[o].Some?
      ensures SlotOk(x, y', o) && y.window[o + 1].Some?
    {
      assert SlotOk(x, y, o + 1);
    }
    forall k | 0 <= k < |ch|
      ensures NotPast(y', ch[k])
    {
      assert NotPast(y, ch[k]);
    }
  }

  /** Handing on keeps to what was sent: nothing is skipped, repeated or invented. */
  lemma {:induction false} DrainData(x: Tx, y: Rx, outQ: seq<Payload>, depth: nat, lim: nat, ch: seq<Flight>)
    requires DataOk(x, y, lim, ch) && y.got != [] && y.got <= x.sent
    ensures var d := DrainLoop(y, outQ, depth);
            DataOk(x, d.rx, lim, ch) && d.rx.got <= x.sent && |y.got| <= |d.rx.got|
    decreases Ready(y.window)
  {
    if y.window != [] && y.window[0].Some? {
      var seg := y.window[0].value;
      var y' := PopFront(y);
      if seg.nul {
        PopData(x, y, y', lim, ch);
        DrainData(x, y', outQ, depth, lim, ch);
      } else if |outQ| < depth {
        var y1 := y'.(delivered := y'.delivered + [seg.payload]);
        PopData(x, y, y1, lim, ch);
        DrainData(x, y1, outQ + [seg.payload], depth, lim, ch);
      }
    }
  }

  // ----- what has just been sent enters a channel

  function Annotate(e: Endpoint, seg: Segment): Flight {
    var i := DataIdx(e.tx, seg);
    Flight(seg, if i < 0 then 0 else i, |e.tx.sent|, |e.rx.got|)
  }

  function AnnotateAll(e: Endpoint): seq<Flight> {
    seq(|e.wire|, k requires 0 <= k < |e.wire| => Annotate(e, e.wire[k]))
  }

  lemma EnterData(e: Endpoint, y: Rx, lim: nat, ch: seq<Flight>)
    requires e.started && Local(e) && DataOk(e.tx, y, lim, ch) && y.got <= e.tx.sent
    requires RingSize(e) <= lim
    ensures DataOk(e.tx, y, lim, ch + AnnotateAll(e))
  {
    var ch' := ch + AnnotateAll(e);
    forall k | 0 <= k < |ch'|
      ensures FlightOk(e.tx, lim, ch'[k]) && NotPast(y, ch'[k])
    {
      if k < |ch| {
        assert FlightOk(e.tx, lim, ch[k]) && NotPast(y, ch[k]);
      } else {
        assert WireSegOk(e.tx, e.rx.lastSeqRecv, e.rstSent, e.wire[k - |ch|]);
        assert forall o :: 0 <= o < |y.window| && y.window[o].Some? && y.got != [] ==> SlotOk(e.tx, y, o);
      }
    }
    assert forall k :: 0 <= k < |ch| ==> FlightOk(e.tx, lim, ch[k]);
    assert TopsAscend(ch');
  }

  lemma EnterAcks(e: Endpoint, x: Tx, rv: seq<Flight>)
    requires e.started && Local(e) && AcksOk(x, e.rx, rv)
    requires e.rx.got != [] ==> e.rx.oldest == Num(x.isn, |e.rx.got|)
    requires e.rx.got == [] ==> forall k :: 0 <= k < |e.wire| ==> !e.wire[k].ack
    ensures AcksOk(x, e.rx, rv + AnnotateAll(e))
  {
    hide Num, Dats;
    var rv' := rv + AnnotateAll(e);
    forall k | 0 <= k < |rv'|
      ensures AckOk(x, e.rx, rv'[k])
    {
      if k < |rv| {
        assert AckOk(x, e.rx, rv[k]);
      } else {
        assert WireSegOk(e.tx, e.rx.lastSeqRecv, e.rstSent, e.wire[k - |rv|]);
        if e.rx.got != [] {
          NumNext(x.isn, |e.rx.got| - 1);
        }
      }
    }
    assert forall k :: 0 <= k < |rv| ==> AckOk(x, e.rx, rv[k]);
    assert AcksAscend(rv');
  }
}

/** What becomes of an arriving segment: selective repeat, stated on what the receiver holds. */
module RssiArrivals {
  import opened Wrappers
  import opened CircularIndex
  import opened RssiSegments
  import opened RssiEndpoint
  import opened RssiInvariant
  import opened RssiLink
  import opened RssiSystem

  /** The item that the receiver holds under index i of the peer's items: taken in already, or
      waiting in the window. */
  function ItemAt(r: Rx, i: nat): Option<Item> {
    if i < |r.got| then Some(r.got[i])
    else if i - |r.got| < |r.window| && r.window[i - |r.got|].Some? then Some(ItemOf(r.window[i - |r.got|].value))
    else None
  }

  /** Handing on moves the front of the window and loses nothing. */
  ghost predicate SameItems(r: Rx, r': Rx) {
    && (forall i: nat :: ItemAt(r', i) == ItemAt(r, i))
    && r.got <= r'.got && |r'.window| == |r.window| && r'.oldest == Num(r.oldest, |r'.got| - |r.got|)
  }

  lemma PopSame(r: Rx, d: seq<Payload>)
    requires r.window != [] && r.window[0].Some?
    ensures SameItems(r, PopFront(r).(delivered := d))
  {
    hide Num;
    NumNext(r.oldest, 0);
    NumZero(r.oldest);
  }

  lemma SameTwice(a: Rx, b: Rx, c: Rx)
    requires SameItems(a, b) && SameItems(b, c)
    ensures SameItems(a, c)
  {
    hide ItemAt, Num;
    NumAdd(a.oldest, |b.got| - |a.got|, |c.got| - |b.got|);
    forall i: nat ensures ItemAt(c, i) == ItemAt(a, i) {
      assert ItemAt(b, i) == ItemAt(a, i);
    }
  }

  lemma {:induction false} DrainSame(r: Rx, outQ: seq<Payload>, depth: nat)
    ensures var d := DrainLoop(r, outQ, depth);
            && SameItems(r, d.rx)
            && (d.rx.window == [] || d.rx.window[0].None? || (d.blocked && |d.outQ| >= depth))
    decreases Ready(r.window)
  {
    hide SameItems;
    SameItself(r);
    if r.window != [] && r.window[0].Some? {
      var seg := r.window[0].value;
      if seg.nul {
        PopSame(r, r.delivered);
        DrainSame(PopFront(r), outQ, depth);
        SameTwice(r, PopFront(r), DrainLoop(PopFront(r), outQ, depth).rx);
      } else if |outQ| < depth {
        var r' := PopFront(r).(delivered := r.delivered + [seg.payload]);
        PopSame(r, r.delivered + [seg.payload]);
        DrainSame(r', outQ + [seg.payload], depth);
        SameTwice(r, r', DrainLoop(r', outQ + [seg.payload], depth).rx);
      }
    }
  }

  lemma SameItself(r: Rx)
    ensures SameItems(r, r)
  {
    NumZero(r.oldest);
  }

  // ----- one arrival

  /** The segment carries an item for a slot of the window. */
  predicate Brings(e: Endpoint, seg: Segment, isn: Byte) {
    Admits(e, seg, isn) && (seg.payload != [] || seg.nul) && Sub(seg.seqNo, e.rx.oldest) < |e.rx.window|
  }

  predicate Connected(st: State) {
    st.SERV_WAIT_SYN_ACK? || st.OPEN? || st.OPEN_OUTWIN_FULL?
  }

  /** Nothing but the item that has arrived is added to what the receiver holds, at its own index. */
  ghost predicate Added(r: Rx, r': Rx, o: nat, item: Item) {
    && (forall i: nat :: ItemAt(r', i) == if i == |r.got| + o then Some(item) else ItemAt(r, i))
    && r.got <= r'.got && |r'.window| == |r.window| && r'.oldest == Num(r.oldest, |r'.got| - |r.got|)
  }

  lemma StoreAdds(r: Rx, seg: Segment)
    requires CanAccept(r, seg.seqNo)
    ensures Added(r, Store(r, seg), Sub(seg.seqNo, r.oldest), ItemOf(seg))
  {
    NumZero(r.oldest);
  }

  lemma AddedThenSame(a: Rx, b: Rx, c: Rx, o: nat, item: Item)
    requires Added(a, b, o, item) && |b.got| == |a.got| && b.oldest == a.oldest && SameItems(b, c)
    ensures Added(a, c, o, item)
  {
    hide ItemAt, Num;
    forall i: nat ensures ItemAt(c, i) == if i == |a.got| + o then Some(item) else ItemAt(a, i) {
      assert ItemAt(c, i) == ItemAt(b, i);
    }
  }

  /** All that can be handed on has been: the next item is missing, or the output queue is full and
      its handler waits for room. */
  predicate HandedOn(e: Endpoint) {
    e.rx.window == [] || e.rx.window[0].None? || (OutFull(e) && e.ctl.usrO)
  }

  lemma DataArrives(self: State, e: Endpoint, seg: Segment)
    ensures var e' := RxData(self, e, seg);
            if (seg.payload != [] || seg.nul) && Sub(seg.seqNo, e.rx.oldest) < |e.rx.window| then
              && Added(e.rx, e'.rx, Sub(seg.seqNo, e.rx.oldest), ItemOf(seg))
              && (IsOpen(self) ==> HandedOn(e'))
            else e' == e
  {
    hide SameItems, Added, ItemAt;
    if (seg.payload != [] || seg.nul) && CanAccept(e.rx, seg.seqNo) {
      var r := Store(e.rx, seg);
      StoreAdds(e.rx, seg);
      if IsOpen(self) {
        DrainSame(r, e.outQ, OutDepth(e.cfg));
        var d := DrainLoop(r, e.outQ, OutDepth(e.cfg)).rx;
        AddedThenSame(e.rx, r, d, Sub(seg.seqNo, e.rx.oldest), ItemOf(seg));
        Renamed(e.rx, d, RxData(self, e, seg).rx, Sub(seg.seqNo, e.rx.oldest), ItemOf(seg));
      }
    }
  }

  lemma Renamed(a: Rx, b: Rx, c: Rx, o: nat, item: Item)
    requires Added(a, b, o, item) && c == b.(lastSeqRecv := c.lastSeqRecv)
    ensures Added(a, c, o, item)
  {
    forall i: nat ensures ItemAt(c, i) == ItemAt(b, i) {
    }
  }

  /** The receiving half is left alone. */
  ghost predicate SameReceiver(e: Endpoint, e': Endpoint) {
    e'.rx == e.rx && e'.outQ == e.outQ && e'.ctl.usrO == e.ctl.usrO && e'.cfg == e.cfg
  }

  lemma SameReceiverTwice(a: Endpoint, b: Endpoint, c: Endpoint)
    requires SameReceiver(a, b) && SameReceiver(b, c)
    ensures SameReceiver(a, c)
  {
  }

  lemma {:induction false} RetransmitKeepsRx(e: Endpoint, k: nat)
    requires k <= RingSize(e)
    ensures SameReceiver(e, RetransmitFrom(e, k))
    decreases RingSize(e) - k
  {
    if k < RingSize(e) {
      RetransmitKeepsRx(ResendAt(e, k), k + 1);
    }
  }

  lemma RexKeepsRx(e: Endpoint)
    ensures SameReceiver(e, ProcessRex(e))
  {
    hide RetransmitFrom;
    RetransmitKeepsRx(CountRex(e), 0);
  }

  lemma SendKeepsRx(self: State, e: Endpoint)
    ensures SameReceiver(e, SendDatOrAck(self, e))
  {
    hide Stamp;
  }

  lemma PolicyKeepsRx(self: State, e: Endpoint)
    ensures SameReceiver(e, RxAckPolicy(self, e))
  {
    hide SendDatOrAck;
    SendKeepsRx(self, CountSegment(e));
  }

  lemma BusyKeepsRx(e: Endpoint, seg: Segment)
    ensures SameReceiver(e, RxBusy(e, seg)) && SameReceiver(e, ProcessAckNumber(e, seg))
  {
    hide RingAck, AckCount;
  }

  lemma ReplyKeepsRx(self: State, e: Endpoint, seg: Segment)
    ensures SameReceiver(e, Reply(self, e, seg))
  {
    hide SameReceiver, ProcessRex, RxAckPolicy, RxBusy;
    var e1 := RxBusy(e, seg);
    BusyKeepsRx(e, seg);
    RexKeepsRx(e1);
    PolicyKeepsRx(self, e1);
    SameReceiverTwice(e, e1, Reply(self, e, seg));
  }

  lemma AfterKeepsRx(self: State, e: Endpoint)
    ensures SameReceiver(e, AfterRx(self, e))
  {
  }

  /** Once the handshake is over: acknowledgement, data, reply. */
  lemma HandleRxParts(e: Endpoint, seg: Segment, isn: Byte)
    requires Connected(e.st)
    ensures var e' := HandleRx(e, seg, isn);
            if Admits(e, seg, isn) then
              exists e1 {:trigger RxData(e.st, e1, seg)} :: SameReceiver(e, e1) && SameReceiver(RxData(e.st, e1, seg), e')
            else SameReceiver(e, e')
  {
    AdmitConnected(e, seg, isn);
    var (e1, ok) := if seg.syn then HandleSyn(e, seg, isn) else HandleOth(e, seg);
    assert SameReceiver(e, e1);
    hide HandleSyn, HandleOth, RxData, ProcessAckNumber, Reply, AfterRx, SameReceiver;
    if ok {
      var e2 := ProcessAckNumber(e1, seg);
      var e3 := RxData(e.st, e2, seg);
      BusyKeepsRx(e1, seg);
      SameReceiverTwice(e, e1, e2);
      ReplyKeepsRx(e.st, e3, seg);
      AfterKeepsRx(e.st, Reply(e.st, e3, seg));
      SameReceiverTwice(e3, Reply(e.st, e3, seg), AfterRx(e.st, Reply(e.st, e3, seg)));
    } else {
      AfterKeepsRx(e.st, e1);
      SameReceiverTwice(e, e1, AfterRx(e.st, e1));
    }
  }

  /** Selective repeat: an admitted item inside the window, next in line or not, is kept or handed
      on under its own index; whatever else arrives changes nothing that the receiver holds. */
  lemma ArrivalKept(e: Endpoint, seg: Segment, isn: Byte)
    requires Connected(e.st)
    ensures var e' := HandleRx(e, seg, isn);
            if Brings(e, seg, isn) then
              && Added(e.rx, e'.rx, Sub(seg.seqNo, e.rx.oldest), ItemOf(seg))
              && (IsOpen(e.st) ==> HandedOn(e'))
            else e'.rx == e.rx && e'.outQ == e.outQ
  {
    hide HandleRx, RxData, Added, Admits;
    HandleRxParts(e, seg, isn);
    if Admits(e, seg, isn) {
      var e1 :| SameReceiver(e, e1) && SameReceiver(RxData(e.st, e1, seg), HandleRx(e, seg, isn));
      DataArrives(e.st, e1, seg);
    }
  }

  /** What is handed on goes to the output queue, payloads only and in order. */
  ghost predicate Delivers(e: Endpoint, e': Endpoint) {
    && RxOk(e'.rx) && e'.rx.got != []
    && e.rx.delivered <= e'.rx.delivered && e'.outQ == e.outQ + e'.rx.delivered[|e.rx.delivered|..]
  }

  lemma DataDelivers(self: State, e: Endpoint, seg: Segment)
    requires RxOk(e.rx) && e.rx.got != [] && (seg.syn ==> seg.payload == [] && !seg.nul)
    ensures Delivers(e, RxData(self, e, seg))
  {
    hide RxOk, DrainLoop;
    if (seg.payload != [] || seg.nul) && CanAccept(e.rx, seg.seqNo) {
      var r := Store(e.rx, seg);
      StoreOk(e.rx, seg);
      if IsOpen(self) {
        assert DrainOk(r) by { Drainable(r); }
        DrainLoopOk(r, e.outQ, OutDepth(e.cfg));
        var d := DrainLoop(r, e.outQ, OutDepth(e.cfg));
        DrainedOk(d.rx);
      }
    }
  }

  lemma Drainable(r: Rx)
    requires RxOk(r) && r.got != []
    ensures DrainOk(r)
  {
  }

  lemma DrainedOk(r: Rx)
    requires DrainOk(r)
    ensures RxOk(r.(lastSeqRecv := (r.oldest - 1) % 256))
  {
  }

  lemma ArrivalDelivers(e: Endpoint, seg: Segment, isn: Byte)
    requires Connected(e.st) && RxOk(e.rx) && e.rx.got != [] && (seg.syn ==> seg.payload == [] && !seg.nul)
    ensures Delivers(e, HandleRx(e, seg, isn)) && HandleRx(e, seg, isn).cfg == e.cfg
  {
    hide HandleRx, RxData, Admits, RxOk;
    HandleRxParts(e, seg, isn);
    if Admits(e, seg, isn) {
      var e1 :| SameReceiver(e, e1) && SameReceiver(RxData(e.st, e1, seg), HandleRx(e, seg, isn));
      DataDelivers(e.st, e1, seg);
      DataKeepsConfig(e.st, e1, seg);
    }
  }

  lemma DataKeepsConfig(self: State, e: Endpoint, seg: Segment)
    ensures RxData(self, e, seg).cfg == e.cfg
  {
  }

  // ----- any order of arrival

  /** One arrival after the other; what is sent in reply has left. */
  function Takes(e: Endpoint, segs: seq<Segment>): Endpoint
    decreases |segs|
  {
    if segs == [] then e
    else HandleRx(Takes(e, segs[..|segs| - 1]).(wire := []), segs[|segs| - 1], 0)
  }

  /** The connection is not given up meanwhile. */
  ghost predicate StaysOpen(e: Endpoint, segs: seq<Segment>)
    decreases |segs|
  {
    IsOpen(Takes(e, segs).st) && (segs != [] ==> StaysOpen(e, segs[..|segs| - 1]))
  }

  /** Distance of a segment's number from the number that `e` waits for. */
  function OffsetFrom(e: Endpoint, seg: Segment): nat {
    Sub(seg.seqNo, e.rx.oldest)
  }

  /** A payload, or a NUL for a server, that carries the item of its number among `items`. */
  predicate CarriesOne(e: Endpoint, seg: Segment, items: seq<Item>) {
    && OffsetFrom(e, seg) < |items| && ItemOf(seg) == items[OffsetFrom(e, seg)]
    && !seg.syn && seg.ack && !seg.rst
    && if seg.nul then e.cfg.isServer && seg.payload == [] else seg.payload != []
  }

  predicate Arrived(e: Endpoint, segs: seq<Segment>, o: nat) {
    exists j :: 0 <= j < |segs| && OffsetFrom(e, segs[j]) == o
  }

  /** What is held after the arrivals: what has arrived, and what was held before. */
  ghost function Expected(e: Endpoint, segs: seq<Segment>, items: seq<Item>, i: nat): Option<Item> {
    if |e.rx.got| <= i < |e.rx.got| + |items| && Arrived(e, segs, i - |e.rx.got|) then Some(items[i - |e.rx.got|])
    else ItemAt(e.rx, i)
  }

  ghost predicate Collected(e: Endpoint, segs: seq<Segment>, items: seq<Item>, r: Rx) {
    && (forall i: nat :: ItemAt(r, i) == Expected(e, segs, items, i))
    && e.rx.got <= r.got && |r.window| == |e.rx.window| && r.oldest == Num(e.rx.oldest, |r.got| - |e.rx.got|)
  }

  /** Nothing that the receiver held before contradicts the items. */
  ghost predicate Agrees(e: Endpoint, items: seq<Item>) {
    forall o :: 0 <= o < |items| ==> Agree(ItemAt(e.rx, |e.rx.got| + o), items[o])
  }

  predicate Agree(held: Option<Item>, item: Item) {
    held.Some? ==> held.value == item
  }

  /** The receiver takes nothing from beyond its first window. */
  lemma WithinWindow(e: Endpoint, segs: seq<Segment>, items: seq<Item>, r: Rx)
    requires Collected(e, segs, items, r) && |items| <= |e.rx.window|
    ensures |r.got| <= |e.rx.got| + |e.rx.window|
  {
    var i := |e.rx.got| + |e.rx.window|;
    assert ItemAt(r, i) == Expected(e, segs, items, i) == None;
  }

  lemma ArrivedSnoc(e: Endpoint, segs: seq<Segment>, o: nat)
    requires segs != []
    ensures Arrived(e, segs, o) <==> Arrived(e, segs[..|segs| - 1], o) || OffsetFrom(e, segs[|segs| - 1]) == o
  {
    var n := |segs| - 1;
    if Arrived(e, segs[..n], o) {
      var j :| 0 <= j < n && OffsetFrom(e, segs[..n][j]) == o;
      assert OffsetFrom(e, segs[j]) == o;
    }
    if Arrived(e, segs, o) && OffsetFrom(e, segs[n]) != o {
      var j :| 0 <= j < |segs| && OffsetFrom(e, segs[j]) == o;
      assert OffsetFrom(e, segs[..n][j]) == o;
    }
  }

  /** A number below the window's front is out of the window, the others keep their place. */
  lemma OffsetMoves(old_: Byte, seqNo: Byte, g: nat, w: nat)
    requires g <= w <= 128 && Sub(seqNo, old_) < w
    ensures var o, p := Sub(seqNo, old_), Sub(seqNo, Num(old_, g));
            if o >= g then p == o - g else p >= w
  {
    var d: int, e: int := seqNo - old_, old_ + g;
    var o: int := d % 256;
    assert seqNo - e % 256 == 256 * (d / 256 + e / 256) + (o - g);
    Wrapped(d / 256 + e / 256, o - g);
  }

  lemma ExpectedSnoc(e: Endpoint, segs: seq<Segment>, items: seq<Item>, i: nat)
    requires segs != [] && OffsetFrom(e, segs[|segs| - 1]) < |items|
    ensures var o := OffsetFrom(e, segs[|segs| - 1]);
            Expected(e, segs, items, i) == if i == |e.rx.got| + o then Some(items[o]) else Expected(e, segs[..|segs| - 1], items, i)
  {
    if i >= |e.rx.got| {
      ArrivedSnoc(e, segs, i - |e.rx.got|);
    }
  }

  /** The next arrival, seen from the start, if it is inside the window. */
  lemma CollectNext(e: Endpoint, segs: seq<Segment>, items: seq<Item>, r: Rx, r': Rx, p: nat)
    requires segs != [] && Collected(e, segs[..|segs| - 1], items, r) && OffsetFrom(e, segs[|segs| - 1]) < |items|
    requires var o := OffsetFrom(e, segs[|segs| - 1]);
             |r.got| + p == |e.rx.got| + o && Added(r, r', p, items[o])
    ensures Collected(e, segs, items, r')
  {
    MoveOn(e.rx, r, r');
    hide ItemAt, Expected, Num, OffsetFrom;
    forall i: nat ensures ItemAt(r', i) == Expected(e, segs, items, i) {
      ExpectedSnoc(e, segs, items, i);
      assert ItemAt(r, i) == Expected(e, segs[..|segs| - 1], items, i);
    }
  }

  /** If it has been taken in already. */
  lemma CollectAgain(e: Endpoint, segs: seq<Segment>, items: seq<Item>, r: Rx)
    requires segs != [] && Collected(e, segs[..|segs| - 1], items, r) && OffsetFrom(e, segs[|segs| - 1]) < |items|
    requires |e.rx.got| + OffsetFrom(e, segs[|segs| - 1]) < |r.got| && Agrees(e, items)
    ensures Collected(e, segs, items, r)
  {
    var o := OffsetFrom(e, segs[|segs| - 1]);
    TakenIn(e, segs[..|segs| - 1], items, r, o);
    hide ItemAt, Expected, Num, OffsetFrom;
    forall i: nat ensures ItemAt(r, i) == Expected(e, segs, items, i) {
      ExpectedSnoc(e, segs, items, i);
      assert ItemAt(r, i) == Expected(e, segs[..|segs| - 1], items, i);
    }
  }

  lemma TakenIn(e: Endpoint, segs: seq<Segment>, items: seq<Item>, r: Rx, o: nat)
    requires Collected(e, segs, items, r) && o < |items| && |e.rx.got| + o < |r.got| && Agrees(e, items)
    ensures ItemAt(r, |e.rx.got| + o) == Some(items[o])
  {
    var i := |e.rx.got| + o;
    assert ItemAt(r, i) == Expected(e, segs, items, i) && ItemAt(r, i).Some?;
    assert Agree(ItemAt(e.rx, i), items[o]);
  }

  lemma MoveOn(a: Rx, r: Rx, r': Rx)
    requires a.got <= r.got <= r'.got && r.oldest == Num(a.oldest, |r.got| - |a.got|)
    requires r'.oldest == Num(r.oldest, |r'.got| - |r.got|)
    ensures r'.oldest == Num(a.oldest, |r'.got| - |a.got|)
  {
    NumAdd(a.oldest, |r.got| - |a.got|, |r'.got| - |r.got|);
  }

  /** One arrival, inside the window or taken in before. */
  lemma CollectsOne(e: Endpoint, segs: seq<Segment>, items: seq<Item>, q: Endpoint)
    requires |items| <= |e.rx.window| <= 128 && segs != [] && CarriesOne(e, segs[|segs| - 1], items) && Agrees(e, items)
    requires IsOpen(q.st) && q.cfg == e.cfg && Collected(e, segs[..|segs| - 1], items, q.rx)
    ensures Collected(e, segs, items, HandleRx(q, segs[|segs| - 1], 0).rx)
    ensures var e' := HandleRx(q, segs[|segs| - 1], 0);
            HandedOn(e') || (e'.rx == q.rx && e'.outQ == q.outQ && |e.rx.got| + OffsetFrom(e, segs[|segs| - 1]) < |q.rx.got|)
  {
    hide HandleRx, HandedOn, Brings, ItemAt, Added, Expected, Agrees;
    var seg := segs[|segs| - 1];
    ArrivalKept(q, seg, 0);
    BringsIfWithin(e, q, seg, items);
    WithinWindow(e, segs[..|segs| - 1], items, q.rx);
    OffsetMoves(e.rx.oldest, seg.seqNo, |q.rx.got| - |e.rx.got|, |q.rx.window|);
    hide Sub, Num;
    if Brings(q, seg, 0) {
      CollectNext(e, segs, items, q.rx, HandleRx(q, seg, 0).rx, Sub(seg.seqNo, q.rx.oldest));
    } else {
      CollectAgain(e, segs, items, q.rx);
    }
  }

  lemma DeliversTwice(a: Endpoint, b: Endpoint, c: Endpoint)
    requires Delivers(a, b) && Delivers(b, c)
    ensures Delivers(a, c)
  {
    hide RxOk;
    assert c.rx.delivered[|a.rx.delivered|..] == b.rx.delivered[|a.rx.delivered|..] + c.rx.delivered[|b.rx.delivered|..];
  }

  /** Nothing is lost on the way: after any arrivals, in any order and with any repetition. */
  lemma {:induction false} Collects(e: Endpoint, segs: seq<Segment>, items: seq<Item>)
    requires RxOk(e.rx) && e.rx.got != [] && |items| <= |e.rx.window| <= 128 && StaysOpen(e, segs)
    requires (forall seg <- segs :: CarriesOne(e, seg, items)) && Agrees(e, items)
    ensures var e' := Takes(e, segs);
            Collected(e, segs, items, e'.rx) && Delivers(e, e') && e'.cfg == e.cfg && (segs != [] ==> FrontMissing(e'))
    decreases |segs|
  {
    hide HandleRx, RxOk, CarriesOne, Collected, Delivers, Agrees;
    if segs == [] {
      NothingCollected(e, items);
    } else {
      var n := |segs| - 1;
      var q := Takes(e, segs[..n]).(wire := []);
      assert forall seg <- segs[..n] :: seg in segs;
      Collects(e, segs[..n], items);
      assert segs[n] in segs;
      CollectsOne(e, segs, items, q);
      QueueFacts(e, Takes(e, segs[..n]), q);
      assert !segs[n].syn by { NoSyn(e, segs[n], items); }
      ArrivalDelivers(q, segs[n], 0);
      DeliversTwice(e, q, HandleRx(q, segs[n], 0));
      FrontOf(e, q, HandleRx(q, segs[n], 0), segs[..n], OffsetFrom(e, segs[n]));
    }
  }

  lemma FrontOf(e: Endpoint, q: Endpoint, e': Endpoint, segs: seq<Segment>, o: nat)
    requires q.cfg == e'.cfg && (segs != [] ==> FrontMissing(q)) && (segs == [] ==> q.rx == e.rx)
    requires HandedOn(e') || (e'.rx == q.rx && e'.outQ == q.outQ && |e.rx.got| + o < |q.rx.got|)
    ensures FrontMissing(e')
  {
  }

  /** The item next in line is missing, or there is no room for it. */
  predicate FrontMissing(e: Endpoint) {
    e.rx.window == [] || e.rx.window[0].None? || OutFull(e)
  }

  lemma NothingCollected(e: Endpoint, items: seq<Item>)
    requires RxOk(e.rx) && e.rx.got != []
    ensures Collected(e, [], items, e.rx) && Delivers(e, e)
  {
    hide RxOk, ItemAt;
    NumZero(e.rx.oldest);
  }

  lemma QueueFacts(e: Endpoint, e': Endpoint, q: Endpoint)
    requires Delivers(e, e') && q == e'.(wire := [])
    ensures Delivers(e, q) && RxOk(q.rx) && q.rx.got != []
  {
  }

  lemma NoSyn(e: Endpoint, seg: Segment, items: seq<Item>)
    requires CarriesOne(e, seg, items)
    ensures !seg.syn
  {
  }

  lemma BringsIfWithin(e: Endpoint, q: Endpoint, seg: Segment, items: seq<Item>)
    requires IsOpen(q.st) && q.cfg == e.cfg && CarriesOne(e, seg, items)
    ensures Brings(q, seg, 0) <==> Sub(seg.seqNo, q.rx.oldest) < |q.rx.window|
  {
  }

  lemma {:induction false} DatsAtMost(items: seq<Item>)
    ensures |Dats(items)| <= |items|
    decreases |items|
  {
    if items != [] {
      DatsAtMost(items[..|items| - 1]);
    }
  }

  lemma {:induction false} DatsJoin(a: seq<Item>, b: seq<Item>)
    ensures Dats(a + b) == Dats(a) + Dats(b)
    decreases |b|
  {
    if b == [] {
      assert a + b == a;
    } else {
      assert (a + b)[..|a + b| - 1] == a + b[..|b| - 1];
      DatsJoin(a, b[..|b| - 1]);
    }
  }

  /** As long as the output queue has had room, an arrived item next in line has been handed on. */
  lemma FrontReached(e: Endpoint, e': Endpoint, segs: seq<Segment>, items: seq<Item>)
    requires RxOk(e.rx) && Collected(e, segs, items, e'.rx) && Delivers(e, e') && e'.cfg == e.cfg && FrontMissing(e')
    requires |items| <= |e.rx.window| && |e.outQ| + |items| <= OutDepth(e.cfg)
    requires forall o :: 0 <= o < |items| ==> Arrived(e, segs, o)
    ensures |e'.rx.got| >= |e.rx.got| + |items|
  {
    var g, g' := |e.rx.got|, |e'.rx.got|;
    assert e'.rx.got == e.rx.got + e'.rx.got[g..];
    DatsJoin(e.rx.got, e'.rx.got[g..]);
    DatsAtMost(e'.rx.got[g..]);
    assert |e'.outQ| <= |e.outQ| + (g' - g);
    if !OutFull(e') {
      assert ItemAt(e'.rx, g') == Expected(e, segs, items, g') == None;
      NotThere(e, segs, items, g' - g);
    }
  }

  lemma NotThere(e: Endpoint, segs: seq<Segment>, items: seq<Item>, o: nat)
    requires Expected(e, segs, items, |e.rx.got| + o) == None
    requires forall p :: 0 <= p < |items| ==> Arrived(e, segs, p)
    ensures o >= |items|
  {
    assert o < |items| ==> Arrived(e, segs, o);
  }

  /** The next items, each arrived at least once, in whatever order: all of them have been taken in,
      and their payloads have been handed on in order, if the output queue had room. */
  lemma AnyOrder(e: Endpoint, segs: seq<Segment>, items: seq<Item>)
    requires RxOk(e.rx) && e.rx.got != [] && |items| <= |e.rx.window| <= 128 && StaysOpen(e, segs)
    requires (forall seg <- segs :: CarriesOne(e, seg, items)) && Agrees(e, items)
    requires forall o :: 0 <= o < |items| ==> Arrived(e, segs, o)
    requires |e.outQ| + |items| <= OutDepth(e.cfg)
    ensures var e' := Takes(e, segs);
            && e.rx.got + items <= e'.rx.got && e.rx.delivered + Dats(items) <= e'.rx.delivered
            && e'.outQ == e.outQ + e'.rx.delivered[|e.rx.delivered|..]
  {
    hide CarriesOne, Agrees, StaysOpen, Takes, RxOk;
    Collects(e, segs, items);
    var e' := Takes(e, segs);
    if items == [] {
      assert e.rx.got + items == e.rx.got;
    } else {
      assert Arrived(e, segs, 0);
      FrontReached(e, e', segs, items);
      AllTaken(e, segs, items, e'.rx);
    }
    InOrder(e, e', items);
  }

  lemma AllTaken(e: Endpoint, segs: seq<Segment>, items: seq<Item>, r: Rx)
    requires Collected(e, segs, items, r) && |r.got| >= |e.rx.got| + |items|
    requires forall o :: 0 <= o < |items| ==> Arrived(e, segs, o)
    ensures e.rx.got + items <= r.got
  {
    forall o | 0 <= o < |items| ensures r.got[|e.rx.got| + o] == items[o] {
      var i := |e.rx.got| + o;
      assert Arrived(e, segs, o);
      assert ItemAt(r, i) == Expected(e, segs, items, i) == Some(items[o]);
    }
  }

  lemma InOrder(e: Endpoint, e': Endpoint, items: seq<Item>)
    requires RxOk(e.rx) && Delivers(e, e') && e.rx.got + items <= e'.rx.got
    ensures e.rx.delivered + Dats(items) <= e'.rx.delivered
  {
    hide Dats;
    DatsJoin(e.rx.got, items);
    DatsPrefix(e.rx.got + items, e'.rx.got);
  }
}

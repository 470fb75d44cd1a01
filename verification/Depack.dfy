/** Reassembly of one frame of the version 0 protocol from fragments that arrive in any order
    (src/cpsw_proto_mod_depack.cc). */
module Depack {
  import opened CircularIndex
  import opened Wrappers
  import opened Octets
  import opened PackHeader

  const NO_FRAME: nat := 0x100_0000
  const NO_FRAG: Word := WORD - 2
  const FRAG_MAX := 0xff_ffff
  const TAIL0_SIZE := 1

  /** CFrame. `prod` is what has been put in order so far, `win` the fragments that wait. */
  datatype Frame = Frame(id: nat, prod: seq<Octet>, nFrags: Word, oldest: Word, last: Word,
                         win: seq<Option<seq<Octet>>>, complete: bool, running: bool)

  /** CFrame::release */
  function Released(f: Frame): Frame {
    Frame(NO_FRAME, [], 0, 0, NO_FRAG, seq(|f.win|, _ => None), false, false)
  }

  function Occupied(win: seq<Option<seq<Octet>>>): nat
    decreases |win|
  {
    if win == [] then 0 else (if win[0].Some? then 1 else 0) + Occupied(win[1..])
  }

  lemma {:induction false} OccupiedClear(win: seq<Option<seq<Octet>>>, i: nat)
    requires i < |win| && win[i].Some?
    ensures Occupied(win[i := None]) == Occupied(win) - 1
    decreases |win|
  {
    if i > 0 {
      assert win[i := None][1..] == win[1..][i - 1 := None];
      OccupiedClear(win[1..], i - 1);
    } else {
      assert win[0 := None][1..] == win[1..];
    }
  }

  /** One round of the loop in updateChain. */
  function Consume(f: Frame): Frame
    requires f.win != [] && f.win[f.oldest % |f.win|].Some?
  {
    var idx := f.oldest % |f.win|;
    f.(prod := f.prod + f.win[idx].value, nFrags := Inc(f.nFrags), oldest := Inc(f.oldest), win := f.win[idx := None])
  }

  /** The loop of updateChain; it ends because every round empties a slot. */
  function Consumed(f: Frame): (r: Frame)
    requires f.win != []
    decreases Occupied(f.win)
  {
    if f.win[f.oldest % |f.win|].None? then f
    else
      OccupiedClear(f.win, f.oldest % |f.win|);
      Consumed(Consume(f))
  }

  /** CFrame::updateChain */
  function UpdateChain(f: Frame): Frame
    requires f.win != []
  {
    var g := Consumed(f);
    if g.nFrags == Inc(g.last) || g.nFrags == FRAG_MAX then g.(complete := true) else g
  }

  predicate Eof(r: seq<Octet>)
    requires r != []
  {
    Bit(r[|r| - 1], 7)
  }

  /** Only the first fragment keeps its header and only the last one its tail. */
  function Body(r: seq<Octet>, fragNo: nat, last: nat): seq<Octet>
    requires |r| >= HEADER_SIZE + TAIL0_SIZE
  {
    r[if fragNo != 0 then HEADER_SIZE else 0..|r| - if fragNo != last then TAIL0_SIZE else 0]
  }

  datatype Outcome = Stored | OldFrag | NewFrag | Duplicate | PastLast | Inconsistent

  /** The last fragment, once it is known. */
  function LastFrag(last: Word, fragNo: Word, eof: bool): Word {
    if (eof || fragNo == FRAG_MAX) && last == NO_FRAG then fragNo else last
  }

  /** The fragment part of processBuffer for the slot that a frame number selects. */
  function Accept(f: Frame, frameNo: nat, fragNo: Word, r: seq<Octet>): (Frame, Outcome)
    requires f.win != [] && |r| >= HEADER_SIZE + TAIL0_SIZE
  {
    var idx := fragNo % |f.win|;
    if fragNo < f.oldest then (f, OldFrag)
    else if fragNo >= f.oldest + |f.win| then (f, NewFrag)
    else if f.id != NO_FRAME && f.id != frameNo then (f, Inconsistent)
    else if f.id != NO_FRAME && f.win[idx].Some? then (f, Duplicate)
    else if f.id != NO_FRAME && f.last != NO_FRAG && fragNo > f.last then (f, PastLast)
    else
      var g := if f.id == NO_FRAME then f.(id := frameNo, prod := [], running := true) else f;
      var last := LastFrag(g.last, fragNo, Eof(r));
      (UpdateChain(g.(last := last, win := g.win[idx := Some(Body(r, fragNo, last))])), Stored)
  }

  // ----- which fragment is where

  /** The octets of fragments 0 .. n - 1, in order. */
  function Concat(got: map<nat, seq<Octet>>, n: nat): seq<Octet>
    requires forall k: nat :: k < n ==> k in got
  {
    if n == 0 then [] else Concat(got, n - 1) + got[n - 1]
  }

  /** Every fragment that was accepted has been put in order or waits in its slot, and nothing
      else does. `got` maps the number of each accepted fragment to its octets. */
  ghost predicate Holds(f: Frame, got: map<nat, seq<Octet>>) {
    && f.win != []
    && f.nFrags == f.oldest <= FRAG_MAX + 1
    && (forall k: nat :: k < f.oldest ==> k in got)
    && f.prod == Concat(got, f.oldest)
    && (forall k :: k in got ==> k <= FRAG_MAX && k < f.oldest + |f.win|)
    && (forall k :: f.oldest <= k < f.oldest + |f.win| ==>
          && (f.win[k % |f.win|].Some? <==> k in got)
          && (k in got ==> f.win[k % |f.win|] == Some(got[k])))
  }

  /** The last fragment is one of those accepted, and a frame is complete when everything up to it
      is in order, or at the limit of the fragment number. */
  ghost predicate Ends(f: Frame, got: map<nat, seq<Octet>>) {
    && (f.last != NO_FRAG ==> f.last in got)
    && (f.complete ==> f.nFrags == Inc(f.last) || f.nFrags >= FRAG_MAX)
  }

  ghost predicate Inv(f: Frame, got: map<nat, seq<Octet>>) {
    && Holds(f, got) && Ends(f, got)
    && (f.id == NO_FRAME ==> got == map[] && f.last == NO_FRAG && !f.complete && f.oldest == 0 && f.prod == [])
    && f.oldest !in got
  }

  lemma ReleasedInv(f: Frame)
    requires f.win != []
    ensures Inv(Released(f), map[])
  {
  }

  /** Numbers less than a window apart have different slots. */
  lemma OneSlot(o: nat, w: nat, j: nat, k: nat)
    requires w > 0 && o <= j < o + w && o <= k < o + w && j % w == k % w
    ensures j == k
  {
    if j < k {
      SlotsDiffer(j, k, w);
    } else if k < j {
      SlotsDiffer(k, j, w);
    }
  }

  lemma ConcatSame(a: map<nat, seq<Octet>>, b: map<nat, seq<Octet>>, n: nat)
    requires forall k: nat :: k < n ==> k in a && k in b && a[k] == b[k]
    ensures Concat(a, n) == Concat(b, n)
  {
  }

  lemma SlotWraps(o: nat, w: nat)
    requires w > 0
    ensures (o + w) % w == o % w
  {
    ModShift(o, 1, w);
  }

  lemma ConsumeHolds(f: Frame, got: map<nat, seq<Octet>>)
    requires Holds(f, got) && f.win[f.oldest % |f.win|].Some?
    ensures Holds(Consume(f), got)
  {
    var g, w, o := Consume(f), |f.win|, f.oldest;
    assert o in got;
    SlotWraps(o, w);
    forall k | g.oldest <= k < g.oldest + w
      ensures g.win[k % w].Some? <==> k in got
      ensures k in got ==> g.win[k % w] == Some(got[k])
    {
      if k < o + w {
        if k % w == o % w {
          OneSlot(o, w, k, o);
        }
      } else {
        assert k == o + w;
      }
    }
  }

  lemma {:induction false} ConsumedHolds(f: Frame, got: map<nat, seq<Octet>>)
    requires Holds(f, got)
    ensures Holds(Consumed(f), got) && Consumed(f).oldest !in got
    ensures var g := Consumed(f);
            g.last == f.last && g.id == f.id && g.complete == f.complete && g.nFrags >= f.nFrags && |g.win| == |f.win|
    decreases Occupied(f.win)
  {
    hide Holds;
    if f.win != [] && f.win[f.oldest % |f.win|].Some? {
      OccupiedClear(f.win, f.oldest % |f.win|);
      StillHolds(f, got);
      ConsumeHolds(f, got);
      ConsumedHolds(Consume(f), got);
    } else {
      Stuck(f, got);
    }
  }

  lemma Stuck(f: Frame, got: map<nat, seq<Octet>>)
    requires Holds(f, got)
    ensures f.win != [] && (f.win[f.oldest % |f.win|].None? ==> f.oldest !in got)
  {
  }

  // ----- one arrival

  /** The frame with a new fragment in its slot, before updateChain. */
  function Put(f: Frame, frameNo: nat, fragNo: Word, r: seq<Octet>): Frame
    requires f.win != [] && |r| >= HEADER_SIZE + TAIL0_SIZE
  {
    var g := if f.id == NO_FRAME then f.(id := frameNo, prod := [], running := true) else f;
    var last := LastFrag(g.last, fragNo, Eof(r));
    g.(last := last, win := g.win[fragNo % |f.win| := Some(Body(r, fragNo, last))])
  }

  lemma PutHolds(f: Frame, got: map<nat, seq<Octet>>, frameNo: nat, fragNo: Word, r: seq<Octet>)
    requires Inv(f, got) && |r| >= HEADER_SIZE + TAIL0_SIZE
    requires f.oldest <= fragNo < f.oldest + |f.win| && fragNo <= FRAG_MAX && fragNo !in got
    ensures Holds(Put(f, frameNo, fragNo, r), got[fragNo := Body(r, fragNo, LastFrag(f.last, fragNo, Eof(r)))])
  {
    hide Body, Eof, LastFrag;
    var last := LastFrag(f.last, fragNo, Eof(r));
    var b := Body(r, fragNo, last);
    var g, now := Put(f, frameNo, fragNo, r), got[fragNo := b];
    ConcatSame(got, now, f.oldest);
    var w := |f.win|;
    forall k | g.oldest <= k < g.oldest + w
      ensures g.win[k % w].Some? <==> k in now
      ensures k in now ==> g.win[k % w] == Some(now[k])
    {
      if k % w == fragNo % w {
        OneSlot(f.oldest, w, k, fragNo);
      }
    }
  }

  lemma AcceptStored(f: Frame, frameNo: nat, fragNo: Word, r: seq<Octet>)
    requires f.win != [] && |r| >= HEADER_SIZE + TAIL0_SIZE
    ensures var (g, o) := Accept(f, frameNo, fragNo, r);
            && (o.Stored? ==>
                 && f.oldest <= fragNo < f.oldest + |f.win| && (f.id == NO_FRAME || f.win[fragNo % |f.win|].None?)
                 && (f.id == NO_FRAME || f.id == frameNo)
                 && (f.id == NO_FRAME || f.last == NO_FRAG || fragNo <= f.last)
                 && g == UpdateChain(Put(f, frameNo, fragNo, r)))
            && (!o.Stored? ==> g == f)
  {
    hide UpdateChain;
  }

  /** updateChain restores the invariant. */
  lemma UpdateInv(h: Frame, got: map<nat, seq<Octet>>)
    requires h.win != [] && Holds(h, got) && h.id != NO_FRAME
    requires h.last != NO_FRAG ==> h.last in got
    requires h.complete ==> h.nFrags >= FRAG_MAX
    ensures Inv(UpdateChain(h), got) && UpdateChain(h).last == h.last && UpdateChain(h).id == h.id
  {
    hide Holds, Consumed;
    ConsumedHolds(h, got);
    StillHolds(Consumed(h), got);
  }

  /** Nothing more is stored once all fragments up to the last one are in order. */
  lemma StoredUnfinished(f: Frame, got: map<nat, seq<Octet>>, fragNo: Word)
    requires Inv(f, got) && f.oldest <= fragNo && (f.id == NO_FRAME || f.last == NO_FRAG || fragNo <= f.last)
    ensures f.complete ==> f.nFrags >= FRAG_MAX
    ensures f.last != NO_FRAG ==> f.last in got
  {
  }

  /** An accepted fragment joins `got` under its own number; a rejected one changes nothing. */
  lemma AcceptInv(f: Frame, got: map<nat, seq<Octet>>, frameNo: nat, fragNo: Word, r: seq<Octet>)
    requires Inv(f, got) && |r| >= HEADER_SIZE + TAIL0_SIZE && fragNo <= FRAG_MAX && frameNo < NO_FRAME
    ensures var (g, o) := Accept(f, frameNo, fragNo, r);
            if o.Stored? then
              && fragNo !in got && g.id == frameNo
              && Inv(g, got[fragNo := Body(r, fragNo, LastFrag(f.last, fragNo, Eof(r)))])
              && g.last == LastFrag(f.last, fragNo, Eof(r))
            else g == f
  {
    hide Body, Eof, Accept, Inv, UpdateChain;
    NotEmpty(f, got);
    AcceptStored(f, frameNo, fragNo, r);
    if Accept(f, frameNo, fragNo, r).1.Stored? {
      NewNumber(f, got, fragNo);
      PutHolds(f, got, frameNo, fragNo, r);
      StoredUnfinished(f, got, fragNo);
      UpdateInv(Put(f, frameNo, fragNo, r), got[fragNo := Body(r, fragNo, LastFrag(f.last, fragNo, Eof(r)))]);
    }
  }

  lemma NotEmpty(f: Frame, got: map<nat, seq<Octet>>)
    requires Inv(f, got)
    ensures f.win != []
  {
  }

  lemma NewNumber(f: Frame, got: map<nat, seq<Octet>>, fragNo: Word)
    requires Inv(f, got) && f.oldest <= fragNo < f.oldest + |f.win|
    requires f.id == NO_FRAME || f.win[fragNo % |f.win|].None?
    ensures fragNo !in got
  {
  }

  /** The flags play no part in where fragments are. */
  lemma StillHolds(f: Frame, got: map<nat, seq<Octet>>)
    requires Holds(f, got)
    ensures Holds(f.(complete := true), got) && f.win != []
    ensures f.nFrags == f.oldest <= FRAG_MAX + 1
  {
  }

  // ----- any order of arrival

  datatype Arrival = Arrival(fragNo: Word, r: seq<Octet>)

  predicate Sane(arr: seq<Arrival>) {
    forall a <- arr :: a.fragNo <= FRAG_MAX && |a.r| >= HEADER_SIZE + TAIL0_SIZE
  }

  function Arrive(f: Frame, frameNo: nat, arr: seq<Arrival>): (g: Frame)
    requires f.win != [] && Sane(arr)
    ensures g.win != []
    decreases |arr|
  {
    if arr == [] then f
    else
      var a := arr[|arr| - 1];
      var g := Arrive(f, frameNo, arr[..|arr| - 1]);
      AcceptWin(g, frameNo, a.fragNo, a.r);
      Accept(g, frameNo, a.fragNo, a.r).0
  }

  lemma {:induction false} ConsumedWin(f: Frame)
    requires f.win != []
    ensures |Consumed(f).win| == |f.win|
    decreases Occupied(f.win)
  {
    if f.win[f.oldest % |f.win|].Some? {
      OccupiedClear(f.win, f.oldest % |f.win|);
      ConsumedWin(Consume(f));
    }
  }

  lemma AcceptWin(f: Frame, frameNo: nat, fragNo: Word, r: seq<Octet>)
    requires f.win != [] && |r| >= HEADER_SIZE + TAIL0_SIZE
    ensures |Accept(f, frameNo, fragNo, r).0.win| == |f.win|
  {
    hide Consumed, Body, Eof, Accept;
    AcceptStored(f, frameNo, fragNo, r);
    ConsumedWin(Put(f, frameNo, fragNo, r));
  }

  /** The fragments of one frame as they were sent, at most as many as there are numbers. */
  predicate Sent(src: seq<seq<Octet>>) {
    && 0 < |src| <= FRAG_MAX + 1
    && forall k :: 0 <= k < |src| ==> |src[k]| >= HEADER_SIZE + TAIL0_SIZE && (Eof(src[k]) <==> k == |src| - 1)
  }

  /** Fragments of `src` in any order, some lost, some repeated. */
  predicate Delivery(arr: seq<Arrival>, src: seq<seq<Octet>>) {
    forall a <- arr :: a.fragNo < |src| && a.r == src[a.fragNo]
  }

  /** The first n fragments put together: header of the first, tail of the last. */
  function Whole(src: seq<seq<Octet>>, n: nat): seq<Octet>
    requires Sent(src) && n <= |src|
  {
    if n == 0 then [] else Whole(src, n - 1) + Body(src[n - 1], n - 1, |src| - 1)
  }

  /** Everything accepted is a fragment of the frame, trimmed as its place requires. */
  ghost predicate From(f: Frame, got: map<nat, seq<Octet>>, src: seq<seq<Octet>>)
    requires Sent(src)
  {
    && Inv(f, got)
    && (f.last == NO_FRAG || f.last == |src| - 1)
    && (f.last == NO_FRAG ==> |src| - 1 !in got)
    && forall k :: k in got ==> k < |src| && got[k] == Body(src[k], k, |src| - 1)
  }

  lemma FromAccept(f: Frame, got: map<nat, seq<Octet>>, src: seq<seq<Octet>>, frameNo: nat, k: Word)
    requires Sent(src) && From(f, got, src) && k < |src| && frameNo < NO_FRAME
    ensures var (g, o) := Accept(f, frameNo, k, src[k]);
            if o.Stored? then g.id == frameNo && From(g, got[k := Body(src[k], k, |src| - 1)], src) else g == f
  {
    hide Accept, Inv, Eof;
    AcceptInv(f, got, frameNo, k, src[k]);
    NotEmpty(f, got);
    if Accept(f, frameNo, k, src[k]).1.Stored? {
      assert Body(src[k], k, LastFrag(f.last, k, Eof(src[k]))) == Body(src[k], k, |src| - 1);
    }
  }

  lemma {:induction false} DeliveryFrom(f: Frame, frameNo: nat, arr: seq<Arrival>, src: seq<seq<Octet>>)
    requires f.win != [] && Sent(src) && Delivery(arr, src) && Sane(arr) && frameNo < NO_FRAME
    ensures exists got :: From(Arrive(Released(f), frameNo, arr), got, src)
    decreases |arr|
  {
    hide Accept, From;
    if arr == [] {
      ReleasedFrom(f, src);
      assert Arrive(Released(f), frameNo, arr) == Released(f);
    } else {
      var n := |arr| - 1;
      DeliveryFrom(f, frameNo, arr[..n], src);
      var g := Arrive(Released(f), frameNo, arr[..n]);
      var got :| From(g, got, src);
      var a := arr[n];
      assert a in arr;
      FromAccept(g, got, src, frameNo, a.fragNo);
      var now := if Accept(g, frameNo, a.fragNo, a.r).1.Stored? then got[a.fragNo := Body(a.r, a.fragNo, |src| - 1)] else got;
      assert From(Accept(g, frameNo, a.fragNo, a.r).0, now, src);
      assert Arrive(Released(f), frameNo, arr) == Accept(g, frameNo, a.fragNo, a.r).0;
    }
  }

  lemma ReleasedFrom(f: Frame, src: seq<seq<Octet>>)
    requires f.win != [] && Sent(src)
    ensures From(Released(f), map[], src)
  {
    ReleasedInv(f);
  }

  lemma {:induction false} ConcatWhole(got: map<nat, seq<Octet>>, src: seq<seq<Octet>>, n: nat)
    requires Sent(src) && n <= |src|
    requires forall k: nat :: k < n ==> k in got && got[k] == Body(src[k], k, |src| - 1)
    ensures Concat(got, n) == Whole(src, n)
    decreases n
  {
    hide Body;
    if n > 0 {
      ConcatWhole(got, src, n - 1);
    }
  }

  ghost predicate IsWhole(g: Frame, src: seq<seq<Octet>>)
    requires Sent(src)
  {
    g.prod == Whole(src, |src|) && g.nFrags == |src|
  }

  /** Whatever the order, loss and duplication of its fragments, a frame that is marked complete
      holds all of them once, in ascending order, and is the frame that was sent. */
  lemma CompleteIsWhole(f: Frame, frameNo: nat, arr: seq<Arrival>, src: seq<seq<Octet>>)
    requires f.win != [] && Sent(src) && Delivery(arr, src) && Sane(arr) && frameNo < NO_FRAME
    requires |src| <= FRAG_MAX
    ensures var g := Arrive(Released(f), frameNo, arr);
            g.complete ==> IsWhole(g, src)
  {
    hide Body, Arrive, Accept;
    DeliveryFrom(f, frameNo, arr, src);
    var g := Arrive(Released(f), frameNo, arr);
    var got :| From(g, got, src);
    if g.complete {
      assert |src| !in got;
      ConcatWhole(got, src, |src|);
    }
  }

  /** Fragments taken apart: eight octets of header, data, one octet of tail whose top bit marks the
      last fragment. */
  predicate Framed(src: seq<seq<Octet>>, h: seq<seq<Octet>>, d: seq<seq<Octet>>, t: seq<seq<Octet>>) {
    && |h| == |d| == |t| == |src| && 0 < |src| <= FRAG_MAX
    && forall k :: 0 <= k < |src| ==>
         && src[k] == h[k] + d[k] + t[k] && |h[k]| == 8 && |t[k]| == 1
         && (t[k][0] & 0x80 != 0 <==> k == |src| - 1)
  }

  function Joined(d: seq<seq<Octet>>): seq<Octet> {
    if d == [] then [] else Joined(d[..|d| - 1]) + d[|d| - 1]
  }

  lemma FramedSent(src: seq<seq<Octet>>, h: seq<seq<Octet>>, d: seq<seq<Octet>>, t: seq<seq<Octet>>)
    requires Framed(src, h, d, t)
    ensures Sent(src)
  {
    forall k | 0 <= k < |src| ensures |src[k]| >= HEADER_SIZE + TAIL0_SIZE && (Eof(src[k]) <==> k == |src| - 1) {
      assert src[k][|src[k]| - 1] == t[k][0];
      assert Bit(t[k][0], 7) == (t[k][0] & 0x80 != 0);
    }
  }

  lemma BodyOf(h: seq<Octet>, d: seq<Octet>, t: seq<Octet>, fragNo: nat, last: nat)
    requires |h| == HEADER_SIZE && |t| == TAIL0_SIZE
    ensures Body(h + d + t, fragNo, last) == (if fragNo == 0 then h else []) + d + (if fragNo == last then t else [])
  {
  }

  lemma {:induction false} WholeJoined(src: seq<seq<Octet>>, h: seq<seq<Octet>>, d: seq<seq<Octet>>, t: seq<seq<Octet>>, n: nat)
    requires Framed(src, h, d, t) && Sent(src) && 1 <= n <= |src|
    ensures Whole(src, n) == h[0] + Joined(d[..n]) + if n == |src| then t[n - 1] else []
    decreases n
  {
    hide Body, Eof;
    BodyOf(h[n - 1], d[n - 1], t[n - 1], n - 1, |src| - 1);
    assert d[..n][..n - 1] == d[..n - 1];
    if n > 1 {
      WholeJoined(src, h, d, t, n - 1);
    }
  }

  /** The product of a complete frame is the header of its first fragment, the data of all in ascending
      order, and the tail of the last, whatever their order of arrival, loss and duplication. */
  lemma CompleteProduct(f: Frame, frameNo: nat, arr: seq<Arrival>, src: seq<seq<Octet>>,
                        h: seq<seq<Octet>>, d: seq<seq<Octet>>, t: seq<seq<Octet>>)
    requires f.win != [] && Framed(src, h, d, t) && Delivery(arr, src) && frameNo < NO_FRAME
    ensures Sane(arr)
    ensures var g := Arrive(Released(f), frameNo, arr);
            g.complete ==> g.nFrags == |src| && g.prod == h[0] + Joined(d) + t[|src| - 1]
  {
    hide Arrive, Joined, Eof;
    FramedSent(src, h, d, t);
    forall a <- arr ensures a.fragNo <= FRAG_MAX && |a.r| >= HEADER_SIZE + TAIL0_SIZE {
      assert |src[a.fragNo]| >= HEADER_SIZE + TAIL0_SIZE;
    }
    CompleteIsWhole(f, frameNo, arr, src);
    WholeJoined(src, h, d, t, |src|);
    assert d[..|src|] == d;
  }

  /** A frame that uses every fragment number is the only exception: it is marked complete before
      its last fragment. */
  lemma WholeExactly(f: Frame, frameNo: nat, src: seq<seq<Octet>>)
    requires f.win != [] && Sent(src) && frameNo < NO_FRAME
    ensures (forall arr :: Delivery(arr, src) && Sane(arr) && Arrive(Released(f), frameNo, arr).complete ==>
                             IsWhole(Arrive(Released(f), frameNo, arr), src))
            <==> |src| <= FRAG_MAX
  {
    hide Arrive, IsWhole;
    if |src| <= FRAG_MAX {
      forall arr | Delivery(arr, src) && Sane(arr) && Arrive(Released(f), frameNo, arr).complete
        ensures IsWhole(Arrive(Released(f), frameNo, arr), src)
      {
        CompleteIsWhole(f, frameNo, arr, src);
      }
    } else {
      var arr := InOrder(src, FRAG_MAX);
      InOrderCompletes(f, frameNo, src, FRAG_MAX);
      Cut(Arrive(Released(f), frameNo, arr), frameNo, src);
      assert Delivery(arr, src);
    }
  }

  lemma Cut(g: Frame, frameNo: nat, src: seq<seq<Octet>>)
    requires Sent(src) && |src| > FRAG_MAX && InSequence(g, frameNo, src, FRAG_MAX)
    ensures g.complete && !IsWhole(g, src)
  {
    hide Whole;
  }

  /** Two deliveries of the same frame that are both complete give the same octets. */
  lemma OrderDoesNotMatter(f: Frame, f': Frame, frameNo: nat, arr: seq<Arrival>, arr': seq<Arrival>, src: seq<seq<Octet>>)
    requires f.win != [] && f'.win != [] && Sent(src) && frameNo < NO_FRAME
    requires Delivery(arr, src) && Sane(arr) && Delivery(arr', src) && Sane(arr')
    requires |src| <= FRAG_MAX
    requires Arrive(Released(f), frameNo, arr).complete && Arrive(Released(f'), frameNo, arr').complete
    ensures Arrive(Released(f), frameNo, arr).prod == Arrive(Released(f'), frameNo, arr').prod
  {
    hide Arrive;
    CompleteIsWhole(f, frameNo, arr, src);
    CompleteIsWhole(f', frameNo, arr', src);
  }

  // ----- which deliveries complete a frame

  predicate Occurs(arr: seq<Arrival>, k: nat) {
    exists i :: 0 <= i < |arr| && arr[i].fragNo == k
  }

  /** Exactly what has arrived was accepted, and completeness was noticed. */
  ghost predicate Seen(g: Frame, got: map<nat, seq<Octet>>, frameNo: nat, arr: seq<Arrival>) {
    && (g.id == NO_FRAME || g.id == frameNo)
    && (g.nFrags == Inc(g.last) ==> g.complete)
    && forall k: nat :: k in got <==> Occurs(arr, k)
  }

  /** In a window that holds the whole frame nothing is rejected but what has been accepted. */
  lemma NothingLost(f: Frame, got: map<nat, seq<Octet>>, src: seq<seq<Octet>>, frameNo: nat, k: Word)
    requires Sent(src) && From(f, got, src) && k < |src| <= |f.win| && (f.id == NO_FRAME || f.id == frameNo)
    ensures Accept(f, frameNo, k, src[k]).1.Stored? || k in got
  {
    hide UpdateChain, Eof, Body;
  }

  lemma OccursSnoc(arr: seq<Arrival>, k: nat)
    requires arr != []
    ensures Occurs(arr, k) <==> Occurs(arr[..|arr| - 1], k) || arr[|arr| - 1].fragNo == k
  {
    var n := |arr| - 1;
    if Occurs(arr[..n], k) {
      var i :| 0 <= i < n && arr[..n][i].fragNo == k;
      assert arr[i].fragNo == k;
    }
    if Occurs(arr, k) && arr[n].fragNo != k {
      var i :| 0 <= i < |arr| && arr[i].fragNo == k;
      assert arr[..n][i].fragNo == k;
    }
  }

  /** updateChain marks what is complete. */
  lemma Marked(f: Frame, frameNo: nat, k: Word, r: seq<Octet>)
    requires f.win != [] && |r| >= HEADER_SIZE + TAIL0_SIZE && (f.nFrags == Inc(f.last) ==> f.complete)
    ensures var g := Accept(f, frameNo, k, r).0; g.nFrags == Inc(g.last) ==> g.complete
  {
    hide Consumed, Body, Eof, Accept;
    AcceptStored(f, frameNo, k, r);
  }

  lemma SeenAccept(f: Frame, got: map<nat, seq<Octet>>, src: seq<seq<Octet>>, frameNo: nat, arr: seq<Arrival>)
    requires Sent(src) && Delivery(arr, src) && arr != [] && frameNo < NO_FRAME && |src| <= |f.win|
    requires From(f, got, src) && Seen(f, got, frameNo, arr[..|arr| - 1])
    ensures var a := arr[|arr| - 1];
            && a.fragNo < |src|
            && exists now :: From(Accept(f, frameNo, a.fragNo, src[a.fragNo]).0, now, src)
                             && Seen(Accept(f, frameNo, a.fragNo, src[a.fragNo]).0, now, frameNo, arr)
  {
    hide Accept, From, Eof, Body, Occurs;
    var a := arr[|arr| - 1];
    assert a in arr;
    var k := a.fragNo;
    FromAccept(f, got, src, frameNo, k);
    Marked(f, frameNo, k, src[k]);
    NothingLost(f, got, src, frameNo, k);
    var (g, o) := Accept(f, frameNo, k, src[k]);
    forall j: nat ensures Occurs(arr, j) <==> Occurs(arr[..|arr| - 1], j) || j == k {
      OccursSnoc(arr, j);
    }
    if o.Stored? {
      var now := got[k := Body(src[k], k, |src| - 1)];
      assert From(g, now, src) && Seen(g, now, frameNo, arr);
    } else {
      assert From(g, got, src) && Seen(g, got, frameNo, arr);
    }
  }

  lemma {:induction false} DeliverySeen(f: Frame, frameNo: nat, arr: seq<Arrival>, src: seq<seq<Octet>>)
    requires f.win != [] && Sent(src) && Delivery(arr, src) && Sane(arr) && frameNo < NO_FRAME && |src| <= |f.win|
    ensures var g := Arrive(Released(f), frameNo, arr);
            && |g.win| == |f.win|
            && exists got :: From(g, got, src) && Seen(g, got, frameNo, arr)
    decreases |arr|
  {
    hide Accept, From, Seen;
    if arr == [] {
      ReleasedFrom(f, src);
      assert Arrive(Released(f), frameNo, arr) == Released(f);
      SeenNone(f, frameNo);
    } else {
      var n := |arr| - 1;
      DeliverySeen(f, frameNo, arr[..n], src);
      var g := Arrive(Released(f), frameNo, arr[..n]);
      var got :| From(g, got, src) && Seen(g, got, frameNo, arr[..n]);
      var a := arr[n];
      assert a in arr;
      SeenAccept(g, got, src, frameNo, arr);
      AcceptWin(g, frameNo, a.fragNo, a.r);
      var now :| From(Accept(g, frameNo, a.fragNo, src[a.fragNo]).0, now, src)
                 && Seen(Accept(g, frameNo, a.fragNo, src[a.fragNo]).0, now, frameNo, arr);
      assert Arrive(Released(f), frameNo, arr) == Accept(g, frameNo, a.fragNo, a.r).0;
    }
  }

  lemma SeenNone(f: Frame, frameNo: nat)
    ensures Seen(Released(f), map[], frameNo, [])
  {
  }

  /** If the window is as long as the frame, then a frame is complete exactly when each of its
      fragments has arrived at least once, in whatever order. */
  lemma CompleteExactly(f: Frame, frameNo: nat, arr: seq<Arrival>, src: seq<seq<Octet>>)
    requires f.win != [] && Sent(src) && Delivery(arr, src) && Sane(arr) && frameNo < NO_FRAME
    requires |src| <= FRAG_MAX && |src| <= |f.win|
    ensures Arrive(Released(f), frameNo, arr).complete <==> forall k: nat :: k < |src| ==> Occurs(arr, k)
  {
    hide Body, Arrive, Accept, Occurs;
    DeliverySeen(f, frameNo, arr, src);
    var g := Arrive(Released(f), frameNo, arr);
    var got :| From(g, got, src) && Seen(g, got, frameNo, arr);
    if g.complete {
      assert |src| !in got;
    }
    if forall k: nat :: k < |src| ==> Occurs(arr, k) {
      assert |src| - 1 in got && g.last == |src| - 1;
      assert |src| !in got;
    }
  }

  // ----- fragments in order

  function InOrder(src: seq<seq<Octet>>, n: nat): (arr: seq<Arrival>)
    requires n <= |src| < WORD
    ensures |arr| == n
  {
    seq(n, k requires 0 <= k < n => Arrival(k, src[k]))
  }

  /** After n fragments in order nothing waits. */
  ghost predicate InSequence(g: Frame, frameNo: nat, src: seq<seq<Octet>>, n: nat) {
    && g.win != [] && (forall i :: 0 <= i < |g.win| ==> g.win[i].None?)
    && g.nFrags == g.oldest == n
    && g.id == (if n == 0 then NO_FRAME else frameNo)
    && g.last == (if n == |src| then |src| - 1 else NO_FRAG)
    && (g.complete <==> n == |src| || n >= FRAG_MAX)
  }

  lemma NextInOrder(g: Frame, frameNo: nat, src: seq<seq<Octet>>, k: Word)
    requires Sent(src) && frameNo < NO_FRAME && k < |src| && InSequence(g, frameNo, src, k)
    ensures InSequence(Accept(g, frameNo, k, src[k]).0, frameNo, src, k + 1)
  {
    hide Body, Eof, Consumed;
    AcceptStored(g, frameNo, k, src[k]);
    var h := Put(g, frameNo, k, src[k]);
    assert Accept(g, frameNo, k, src[k]).0 == UpdateChain(h);
    ConsumedOne(h, k);
  }

  lemma ConsumedOne(h: Frame, k: Word)
    requires h.win != [] && h.oldest == k && k + 1 < WORD && h.win[k % |h.win|].Some?
    requires forall i :: 0 <= i < |h.win| && i != k % |h.win| ==> h.win[i].None?
    ensures Consumed(h) == Consume(h)
  {
    OccupiedClear(h.win, k % |h.win|);
    assert Consume(h).win[(k + 1) % |h.win|].None?;
  }

  /** A frame whose fragments arrive in order becomes complete with the last one. */
  lemma {:induction false} InOrderCompletes(f: Frame, frameNo: nat, src: seq<seq<Octet>>, n: nat)
    requires f.win != [] && Sent(src) && frameNo < NO_FRAME && n <= |src|
    ensures Sane(InOrder(src, n)) && InSequence(Arrive(Released(f), frameNo, InOrder(src, n)), frameNo, src, n)
    decreases n
  {
    hide Accept, Eof;
    var arr := InOrder(src, n);
    if n > 0 {
      InOrderCompletes(f, frameNo, src, n - 1);
      assert arr[..n - 1] == InOrder(src, n - 1);
      NextInOrder(Arrive(Released(f), frameNo, InOrder(src, n - 1)), frameNo, src, n - 1);
    }
  }
}

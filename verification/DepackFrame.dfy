/** CFrame and the fragment part of processBuffer, which move buffers between chains
    (src/cpsw_proto_mod_depack.cc). */
module DepackFrame {
  import opened CircularIndex
  import opened Wrappers
  import opened Octets
  import opened PackHeader
  import opened BufChain
  import opened Depack

  function FlatOption(c: Option<Chain>): Option<seq<Octet>>
    requires c.Some? ==> ValidChain(c.value)
  {
    if c.None? then None else Some(Flat(c.value))
  }

  predicate ValidWin(w: seq<Option<Chain>>) {
    forall i :: 0 <= i < |w| ==> w[i].Some? ==> ValidChain(w[i].value)
  }

  function FlatWin(w: seq<Option<Chain>>): (r: seq<Option<seq<Octet>>>)
    requires ValidWin(w)
    ensures |r| == |w|
  {
    seq(|w|, i requires 0 <= i < |w| => FlatOption(w[i]))
  }

  lemma FlatWinSet(w: seq<Option<Chain>>, i: nat, c: Option<Chain>)
    requires ValidWin(w) && i < |w| && (c.Some? ==> ValidChain(c.value))
    ensures ValidWin(w[i := c]) && FlatWin(w[i := c]) == FlatWin(w)[i := FlatOption(c)]
  {
  }

  /** Header and tail byte of a fragment lie within its first and its last buffer. */
  predicate Whole0(c: Chain) {
    && ValidChain(c) && c != [] && c[0].Size() >= HEADER_SIZE && c[|c| - 1].Size() >= TAIL0_SIZE
    && |Flat(c)| >= HEADER_SIZE + TAIL0_SIZE
  }

  lemma LastOctet(c: Chain)
    requires Whole0(c)
    ensures var p := c[|c| - 1].Payload(); Flat(c)[|Flat(c)| - 1] == p[|p| - 1]
  {
    var k := |c| - 1;
    FlatUpdate(c, k, c[k]);
    assert c[k + 1..] == [];
  }

  /** setPayload on the head buffer. */
  method CutHeader(c: Chain) returns (r: Chain)
    requires Whole0(c)
    ensures ValidChain(r) && |r| == |c| && r[|r| - 1].Size() >= TAIL0_SIZE && Flat(r) == Flat(c)[HEADER_SIZE..]
  {
    assert c[0] in c;
    var b := Buf(c[0].store, c[0].beg + HEADER_SIZE, c[0].end);
    r := c[0 := b];
    FlatUpdate(c, 0, b);
    assert b.Payload() == c[0].Payload()[HEADER_SIZE..];
    assert c[..0] == [];
    if |c| == 1 {
      FlatOne(c[0]);
      assert c == [c[0]];
    }
  }

  /** setSize on the tail buffer. */
  method CutTail(c: Chain) returns (r: Chain)
    requires ValidChain(c) && c != [] && c[|c| - 1].Size() >= TAIL0_SIZE
    ensures ValidChain(r) && |Flat(c)| >= TAIL0_SIZE && Flat(r) == Flat(c)[..|Flat(c)| - TAIL0_SIZE]
  {
    var k := |c| - 1;
    hide Flat, Buf.Payload;
    assert c[k] in c;
    assert c[k + 1..] == [];
    FlatNone();
    FlatShortened(c, k, TAIL0_SIZE);
    r := c[k := Buf(c[k].store, c[k].beg, c[k].end - TAIL0_SIZE)];
  }

  class CFrame {
    var prod: Chain
    var nFrags: Word
    var frameID: nat
    var oldestFrag: Word
    var lastFrag: Word
    const fragWin: array<Option<Chain>>
    var isComplete: bool
    var running: bool

    ghost predicate Valid()
      reads this, fragWin
    {
      ValidChain(prod) && fragWin.Length > 0 && ValidWin(fragWin[..])
    }

    ghost function View(): Frame
      requires Valid()
      reads this, fragWin
    {
      Frame(frameID, Flat(prod), nFrags, oldestFrag, lastFrag, FlatWin(fragWin[..]), isComplete, running)
    }

    constructor (winSize: nat)
      requires winSize > 0
      ensures Valid() && fresh(fragWin) && fragWin.Length == winSize && Inv(View(), map[])
    {
      prod, nFrags, frameID, oldestFrag, lastFrag := [], 0, NO_FRAME, 0, NO_FRAG;
      fragWin := new Option<Chain>[winSize](_ => None);
      isComplete, running := false, false;
      new;
      assert View() == Released(View());
      ReleasedInv(View());
    }

    method Release()
      requires Valid()
      modifies this, fragWin
      ensures Valid() && View() == Released(old(View()))
    {
      prod := [];
      var i := 0;
      while i < fragWin.Length
        invariant 0 <= i <= fragWin.Length && prod == [] && forall k :: 0 <= k < i ==> fragWin[k] == None
      {
        fragWin[i] := None;
        i := i + 1;
      }
      nFrags, frameID, lastFrag, oldestFrag := 0, NO_FRAME, NO_FRAG, 0;
      isComplete, running := false, false;
    }

    /** All buffers of a chain move to the end of the product. */
    method TakeOver(c: Chain)
      requires ValidChain(prod) && ValidChain(c)
      modifies `prod
      ensures ValidChain(prod) && Flat(prod) == Flat(old(prod)) + Flat(c)
    {
      var b := c;
      while b != []
        invariant ValidChain(prod) && ValidChain(b) && Flat(prod) + Flat(b) == Flat(old(prod)) + Flat(c)
        decreases |b|
      {
        FlatAppend(prod, [b[0]]);
        FlatOne(b[0]);
        assert Flat(prod) + (b[0].Payload() + Flat(b[1..])) == (Flat(prod) + b[0].Payload()) + Flat(b[1..]);
        prod := prod + [b[0]];
        b := b[1..];
      }
    }

    method TakeSlot(idx: nat)
      requires Valid() && idx == oldestFrag % fragWin.Length && fragWin[idx].Some?
      modifies `prod, `nFrags, `oldestFrag, fragWin
      ensures Valid() && View() == Consume(old(View()))
      ensures Occupied(View().win) < Occupied(old(View()).win)
    {
      ghost var v, w := View(), fragWin[..];
      TakeOver(fragWin[idx].value);
      nFrags := Inc(nFrags);
      FlatWinSet(w, idx, None);
      OccupiedClear(v.win, idx);
      fragWin[idx] := None;
      assert fragWin[..] == w[idx := None];
      oldestFrag := Inc(oldestFrag);
    }

    method UpdateChain()
      requires Valid()
      modifies `prod, `nFrags, `oldestFrag, `isComplete, fragWin
      ensures Valid() && View() == Depack.UpdateChain(old(View()))
    {
      hide Consume, FlatWin, Occupied;
      var idx := oldestFrag % fragWin.Length;
      while fragWin[idx].Some?
        invariant Valid() && idx == oldestFrag % fragWin.Length && isComplete == old(isComplete)
        invariant Consumed(View()) == Consumed(old(View()))
        decreases Occupied(View().win)
      {
        ghost var v := View();
        SlotSome(idx);
        TakeSlot(idx);
        ConsumedNext(v);
        idx := oldestFrag % fragWin.Length;
      }
      SlotSome(idx);
      if nFrags == Inc(lastFrag) || nFrags == FRAG_MAX {
        isComplete := true;
      }
    }

    /** Trimmed as the place of the fragment in its frame requires. */
    static method Trim(bc: Chain, fragNo: Word, last: Word) returns (c: Chain)
      requires Whole0(bc)
      ensures ValidChain(c) && Flat(c) == Body(Flat(bc), fragNo, last)
    {
      hide Flat;
      c := bc;
      if fragNo != 0 {
        c := CutHeader(c);
      }
      if fragNo != last {
        c := CutTail(c);
      }
    }

    /** processBuffer once the slot for the frame number has been found. */
    method ProcessFragment(frameNo: nat, fragNo: Word, bc: Chain) returns (o: Outcome)
      requires Valid() && Whole0(bc)
      modifies this, fragWin
      ensures Valid()
      ensures (View(), o) == Accept(old(View()), frameNo, fragNo, Flat(bc))
    {
      hide Flat, FlatWin, Body, Occupied, Consumed, Depack.UpdateChain;
      ghost var v := View();
      var fragIdx := fragNo % fragWin.Length;
      SlotSome(fragIdx);
      if fragNo < oldestFrag {
        return OldFrag;
      }
      if fragNo >= oldestFrag + fragWin.Length {
        return NewFrag;
      }
      if frameID == NO_FRAME {
        prod, frameID, running := [], frameNo, true;
        assert Flat([]) == [] by { FlatNone(); }
      } else {
        if frameID != frameNo {
          return Inconsistent;
        }
        if fragWin[fragIdx].Some? {
          return Duplicate;
        }
        if lastFrag != NO_FRAG && fragNo > lastFrag {
          return PastLast;
        }
      }
      StoreFragment(frameNo, fragNo, bc, v);
      UpdateChain();
      return Stored;
    }

    method StoreFragment(frameNo: nat, fragNo: Word, bc: Chain, ghost v: Frame)
      requires Valid() && Whole0(bc) && frameNo == frameID
      requires v.win != [] && View() == if v.id == NO_FRAME then v.(id := frameNo, prod := [], running := true) else v
      modifies `lastFrag, fragWin
      ensures Valid() && View() == Put(v, frameNo, fragNo, Flat(bc))
    {
      hide Flat, FlatWin, Body;
      var fragIdx := fragNo % fragWin.Length;
      var p := bc[|bc| - 1].Payload();
      LastOctet(bc);
      if Bit(p[|p| - 1], 7) || fragNo == FRAG_MAX {
        if lastFrag == NO_FRAG {
          lastFrag := fragNo;
        }
      }
      var c := Trim(bc, fragNo, lastFrag);
      ghost var w := fragWin[..];
      FlatWinSet(w, fragIdx, Some(c));
      fragWin[fragIdx] := Some(c);
      assert fragWin[..] == w[fragIdx := Some(c)];
    }

    /** releaseOldestFrame for this slot: the product of a complete frame is passed on. */
    method ReleaseOldest(onlyComplete: bool) returns (done: bool, frame: Option<Chain>)
      requires Valid()
      modifies this, fragWin
      ensures Valid()
      ensures done <==> old(running) && (onlyComplete ==> old(isComplete))
      ensures View() == if done then Released(old(View())) else old(View())
      ensures frame.Some? <==> done && old(isComplete)
      ensures frame.Some? ==> ValidChain(frame.value) && Flat(frame.value) == old(View()).prod
    {
      if (onlyComplete && !isComplete) || !running {
        return false, None;
      }
      var completeFrame, complete := prod, isComplete;
      Release();
      if complete {
        return true, Some(completeFrame);
      }
      return true, None;
    }

    lemma SlotSome(idx: nat)
      requires Valid() && idx < fragWin.Length
      ensures View().win[idx].Some? <==> fragWin[idx].Some?
    {
    }
  }

  lemma ConsumedNext(f: Frame)
    requires f.win != [] && f.win[f.oldest % |f.win|].Some?
    ensures Consume(f).win != [] && Consumed(f) == Consumed(Consume(f))
  {
  }
}

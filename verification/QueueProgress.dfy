/** When the operations of CBufQueue succeed: the exact condition among any number of threads, and what
    a thread that is alone achieves. */
module QueueProgress {
  import opened Wrappers
  import opened QueueProtocol

  /** What keeps a writer out: items, reserved and unreturned slots, those taken by shutdown, and the
      threads that have failed but not yet undone it. */
  ghost function Taken(s: State): int {
    |s.items| + Count(s.threads, SlotForPush) + Count(s.threads, UnpostedSlot) + s.eaten + Count(s.threads, OwesWr)
  }

  /** Items that no reader can have: promised to one, not announced yet, or hidden by a reader that has
      failed but not yet undone it. */
  ghost function Promised(s: State): int {
    Count(s.threads, ItemForPop) + Count(s.threads, UnpostedItem) + Count(s.threads, OwesRd)
  }

  /** In every run, an attempt to push gets a slot if and only if less than n are taken. */
  lemma PushExactly(ss: seq<State>, s': State, i: nat)
    requires Run(ss) && i < |ss[|ss| - 1].threads| && ss[|ss| - 1].threads[i].pc.PushTry? && Step(ss[|ss| - 1], s', i)
    ensures |s'.threads| == |ss[|ss| - 1].threads|
    ensures s'.threads[i].pc.PushHold? <==> Taken(ss[|ss| - 1]) < ss[|ss| - 1].n
    ensures !s'.threads[i].pc.PushHold? ==> s'.threads[i].pc.PushOwe?
  {
    hide Run, Count, Items, Fifo, AdminOk;
    RunInv(ss);
  }

  /** In every run, an attempt to pop is promised an item if and only if there are more than are
      promised already. */
  lemma PopExactly(ss: seq<State>, s': State, i: nat)
    requires Run(ss) && i < |ss[|ss| - 1].threads| && ss[|ss| - 1].threads[i].pc.PopTry? && Step(ss[|ss| - 1], s', i)
    ensures |s'.threads| == |ss[|ss| - 1].threads|
    ensures s'.threads[i].pc.PopHold? <==> Promised(ss[|ss| - 1]) < |ss[|ss| - 1].items|
    ensures !s'.threads[i].pc.PopHold? ==> s'.threads[i].pc.PopOwe?
  {
    hide Run, Count, Slots, Fifo, AdminOk;
    RunInv(ss);
  }

  // ----- one thread alone

  /** No operation is under way. */
  ghost predicate Quiet(s: State) {
    s.owner.None? && forall i :: 0 <= i < |s.threads| ==> s.threads[i] == Thread(Idle, NoAdmin)
  }

  /** Then the counters say how many items and how many free slots there are. */
  lemma QuietCounts(s: State)
    requires Inv(s) && Quiet(s)
    ensures s.rd == |s.items| && s.wr == (if s.isUp then s.n - |s.items| else 0) && (!s.isUp ==> s.items == [])
  {
    forall h ensures Count(s.threads, h) == 0 {
      CountIdle(s.threads, h);
    }
    hide Count, Fifo;
  }

  /** Thread i takes the states `ts` one after the other, all by itself. */
  ghost predicate Alone(ts: seq<State>, i: nat) {
    forall k :: 0 <= k < |ts| - 1 ==> i < |ts[k].threads| && Step(ts[k], ts[k + 1], i)
  }

  /** A push by a thread that is alone, from the call to its return: it appends the item exactly if the
      queue is up and not full, and changes nothing otherwise. */
  lemma LonePush(s: State, i: nat, p: Item, ts: seq<State>)
    requires Inv(s) && Quiet(s) && i < |s.threads|
    requires ts != [] && ts[0] == Goto(s, i, PushTry(p, false)) && Alone(ts, i)
    requires |ts| == if s.isUp && |s.items| < s.n then 4 else 3
    ensures ts[|ts| - 1] ==
              if s.isUp && |s.items| < s.n then
                s.(items := s.items + [p], pushed := s.pushed + [p], wr := s.wr - 1, rd := s.rd + 1)
              else s
  {
    QuietCounts(s);
    hide Inv, Quiet;
    assert s.threads[i] == Thread(Idle, NoAdmin) by { QuietThread(s, i); }
    assert Step(ts[0], ts[0 + 1], i) && Step(ts[1], ts[1 + 1], i);
    assert s.threads[i := s.threads[i]] == s.threads;
    if s.isUp && |s.items| < s.n {
      assert Step(ts[2], ts[2 + 1], i);
      assert ts[3].threads == s.threads;
    } else {
      assert ts[2].threads == s.threads;
    }
  }

  lemma QuietThread(s: State, i: nat)
    requires Quiet(s) && i < |s.threads|
    ensures s.threads[i] == Thread(Idle, NoAdmin)
  {
  }

  /** A pop by a thread that is alone takes the oldest item exactly if there is one. */
  lemma LonePop(s: State, i: nat, ts: seq<State>)
    requires Inv(s) && Quiet(s) && i < |s.threads|
    requires ts != [] && ts[0] == Goto(s, i, PopTry(false)) && Alone(ts, i)
    requires |ts| == if s.items != [] then 4 else 3
    ensures ts[|ts| - 1] ==
              if s.items != [] then
                s.(items := s.items[1..], popped := s.popped + [s.items[0]], wr := s.wr + 1, rd := s.rd - 1)
              else s
  {
    QuietCounts(s);
    hide Inv, Quiet;
    assert s.threads[i] == Thread(Idle, NoAdmin) by { QuietThread(s, i); }
    assert Step(ts[0], ts[0 + 1], i) && Step(ts[1], ts[1 + 1], i);
    assert s.threads[i := s.threads[i]] == s.threads;
    if s.items != [] {
      assert Step(ts[2], ts[2 + 1], i);
      assert ts[3].threads == s.threads;
    } else {
      assert ts[2].threads == s.threads;
    }
  }
}

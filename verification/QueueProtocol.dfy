/** CBufQueue: a bounded queue between two counters of free slots and of items
    (src/cpsw_bufq.cc).

    Every atomic operation on a counter and every operation on the queue is one step of one of any
    number of threads. A thread that finds a counter exhausted has already decremented it and
    restores it in a later step, so counters may be negative for a while. */
module QueueProtocol {
  import opened Wrappers

  /** A pointer to a buffer chain. */
  type Item = nat

  /** Where a thread is. `wait`: try again or time out after a failure. */
  datatype Pc =
    | Idle
    | PushTry(p: Item, wait: bool)     // before the decrement of the writers' counter
    | PushOwe(p: Item, wait: bool)     // it was exhausted; the decrement is to be undone
    | PushHold(p: Item)                // a writer slot is reserved
    | PushDone                         // the item is in; the readers' counter is to be incremented
    | PopTry(wait: bool)
    | PopOwe(wait: bool)
    | PopHold
    | PopDone                          // the item is out; the writers' counter is to be incremented
    | EatTry                           // shutdown takes a writer slot
    | EatOwe
    | OpenPut                          // startup gives one back
    | Broken                           // an inconsistency was thrown

  /** The critical section that a thread is in: eaten or restored slots so far. */
  datatype Admin = NoAdmin | Closing(wi: nat) | Opening(i: nat)

  datatype Thread = Thread(pc: Pc, admin: Admin)

  /** `eaten` counts the writer slots that shutdown has taken and startup has not given back;
      `pushed` and `popped` are histories. */
  datatype State = State(n: nat, isUp: bool, owner: Option<nat>, wr: int, rd: int, items: seq<Item>,
                         threads: seq<Thread>, eaten: int, pushed: seq<Item>, popped: seq<Item>)

  const WATERMARK := 0

  // ----- steps of one thread

  function Goto(s: State, i: nat, pc: Pc): State
    requires i < |s.threads|
  {
    s.(threads := s.threads[i := s.threads[i].(pc := pc)])
  }

  function Switch(s: State, i: nat, pc: Pc, admin: Admin): State
    requires i < |s.threads|
  {
    s.(threads := s.threads[i := Thread(pc, admin)])
  }

  /** getSlot: the decrement succeeds if the counter was above the watermark. */
  function TakeWr(s: State, i: nat, got: Pc, owe: Pc): State
    requires i < |s.threads|
  {
    Goto(s.(wr := s.wr - 1), i, if WATERMARK < s.wr then got else owe)
  }

  function TakeRd(s: State, i: nat, got: Pc, owe: Pc): State
    requires i < |s.threads|
  {
    Goto(s.(rd := s.rd - 1), i, if WATERMARK < s.rd then got else owe)
  }

  /** A failed attempt ends here, or goes round again if the caller waits. */
  ghost predicate AfterFailure(s: State, s': State, i: nat, again: Pc, wait: bool)
    requires i < |s.threads|
  {
    s' == Goto(s, i, Idle) || (wait && s' == Goto(s, i, again))
  }

  /** bounded_push, which fails only if the queue is full. */
  function Enqueue(s: State, i: nat, p: Item): State
    requires i < |s.threads|
  {
    if |s.items| < s.n then Goto(s.(items := s.items + [p], pushed := s.pushed + [p]), i, PushDone)
    else Goto(s.(wr := s.wr + 1), i, Broken)
  }

  function Dequeue(s: State, i: nat): State
    requires i < |s.threads|
  {
    if s.items == [] then Goto(s, i, Broken)
    else Goto(s.(items := s.items[1..], popped := s.popped + [s.items[0]]), i, PopDone)
  }

  /** shutdown and startup hold the mutex, and do nothing if there is nothing to do. */
  ghost predicate Enters(s: State, s': State, i: nat)
    requires i < |s.threads|
  {
    || (s.isUp && s' == Round(s.(isUp := false, owner := Some(i)), i, 0))
    || (!s.isUp && s' == Restore(s.(isUp := true, owner := Some(i)), i, 0))
    || s' == s
  }

  /** The outer loop of shutdown. */
  function Round(s: State, i: nat, wi: nat): State
    requires i < |s.threads|
  {
    if wi < s.n then Switch(s, i, EatTry, Closing(wi)) else Switch(s.(owner := None), i, Idle, NoAdmin)
  }

  /** The loop of startup. */
  function Restore(s: State, i: nat, k: nat): State
    requires i < |s.threads|
  {
    if k < s.n then Switch(s, i, OpenPut, Opening(k)) else Switch(s.(owner := None), i, Idle, NoAdmin)
  }

  ghost predicate Step(s: State, s': State, i: nat)
    requires i < |s.threads|
  {
    var t := s.threads[i];
    match t.pc
    case Idle =>
      || (exists p: Item, wait: bool :: s' == Goto(s, i, PushTry(p, wait)))
      || (exists wait: bool :: s' == Goto(s, i, PopTry(wait)))
      || (s.owner.None? && Enters(s, s', i))
    case PushTry(p, wait) => s' == TakeWr(s, i, PushHold(p), PushOwe(p, wait))
    case PushOwe(p, wait) => AfterFailure(s.(wr := s.wr + 1), s', i, PushTry(p, wait), wait)
    case PushHold(p) => s' == Enqueue(s, i, p)
    case PushDone => s' == Goto(s.(rd := s.rd + 1), i, Idle)
    case PopTry(wait) => s' == TakeRd(s, i, PopHold, PopOwe(wait))
    case PopOwe(wait) =>
      if t.admin.Closing? then s' == Round(s.(rd := s.rd + 1), i, t.admin.wi)
      else AfterFailure(s.(rd := s.rd + 1), s', i, PopTry(wait), wait)
    case PopHold => s' == Dequeue(s, i)
    case PopDone => s' == Goto(s.(wr := s.wr + 1), i, if t.admin.Closing? then PopTry(false) else Idle)
    case EatTry =>
      if WATERMARK < s.wr && t.admin.Closing?
      then s' == Switch(s.(wr := s.wr - 1, eaten := s.eaten + 1), i, EatTry, Closing(t.admin.wi + 1))
      else s' == Goto(s.(wr := s.wr - 1), i, EatOwe)
    case EatOwe => s' == Goto(s.(wr := s.wr + 1), i, PopTry(false))
    case OpenPut =>
      t.admin.Opening? && s' == Restore(s.(wr := s.wr + 1, eaten := s.eaten - 1), i, t.admin.i + 1)
    case Broken => false
  }

  ghost predicate Init(s: State) {
    && s.isUp && s.owner.None? && s.wr == s.n && s.rd == 0 && s.items == s.pushed == s.popped == [] && s.eaten == 0
    && forall i :: 0 <= i < |s.threads| ==> s.threads[i] == Thread(Idle, NoAdmin)
  }

  ghost predicate Next(s: State, s': State) {
    exists i: nat :: i < |s.threads| && Step(s, s', i)
  }

  ghost predicate Run(ss: seq<State>) {
    ss != [] && Init(ss[0]) && forall k :: 0 <= k < |ss| - 1 ==> Next(ss[k], ss[k + 1])
  }

  // ----- what the threads hold

  datatype Holding = OwesWr | OwesRd | SlotForPush | UnpostedItem | ItemForPop | UnpostedSlot

  /** What a thread at `pc` has taken from the counters or owes to them. */
  predicate Holds(pc: Pc, h: Holding) {
    match h
    case OwesWr => pc.PushOwe? || pc.EatOwe?
    case OwesRd => pc.PopOwe?
    case SlotForPush => pc.PushHold?
    case UnpostedItem => pc.PushDone?
    case ItemForPop => pc.PopHold?
    case UnpostedSlot => pc.PopDone?
  }

  function One(b: bool): nat {
    if b then 1 else 0
  }

  function Count(ts: seq<Thread>, h: Holding): nat
    decreases |ts|
  {
    if ts == [] then 0 else One(Holds(ts[0].pc, h)) + Count(ts[1..], h)
  }

  lemma {:induction false} CountSet(ts: seq<Thread>, h: Holding, i: nat, t: Thread)
    requires i < |ts|
    ensures Count(ts[i := t], h) + One(Holds(ts[i].pc, h)) == Count(ts, h) + One(Holds(t.pc, h))
    decreases |ts|
  {
    if i > 0 {
      assert ts[i := t][1..] == ts[1..][i - 1 := t];
      CountSet(ts[1..], h, i - 1, t);
    } else {
      assert ts[0 := t][1..] == ts[1..];
    }
  }

  lemma {:induction false} CountAtLeast(ts: seq<Thread>, h: Holding, i: nat)
    requires i < |ts| && Holds(ts[i].pc, h)
    ensures Count(ts, h) >= 1
    decreases |ts|
  {
    if i > 0 {
      CountAtLeast(ts[1..], h, i - 1);
    }
  }

  lemma {:induction false} CountIdle(ts: seq<Thread>, h: Holding)
    requires forall i :: 0 <= i < |ts| ==> ts[i].pc.Idle?
    ensures Count(ts, h) == 0
    decreases |ts|
  {
    if ts != [] {
      CountIdle(ts[1..], h);
    }
  }

  // ----- invariant

  /** Writer slots: free, reserved, used by an item, not yet given back, or eaten by shutdown. */
  ghost predicate Slots(s: State) {
    && s.wr + Count(s.threads, OwesWr) + Count(s.threads, SlotForPush) + |s.items|
       + Count(s.threads, UnpostedSlot) + s.eaten == s.n
    && s.wr + Count(s.threads, OwesWr) >= 0 && s.eaten >= 0
  }

  /** Items: announced to the readers, promised to one, or not announced yet. */
  ghost predicate Items(s: State) {
    && s.rd + Count(s.threads, OwesRd) + Count(s.threads, ItemForPop) + Count(s.threads, UnpostedItem) == |s.items|
    && s.rd + Count(s.threads, OwesRd) >= 0
  }

  ghost predicate Fifo(s: State) {
    s.popped + s.items == s.pushed
  }

  /** At most the owner of the mutex is inside shutdown or startup. */
  ghost predicate AdminOk(s: State, i: nat)
    requires i < |s.threads|
  {
    var t := s.threads[i];
    && t.pc != Broken
    && (t.admin.NoAdmin? <==> s.owner != Some(i))
    && (t.pc.EatTry? || t.pc.EatOwe? ==> t.admin.Closing?)
    && (t.pc.OpenPut? ==> t.admin.Opening?)
    && match t.admin
       case NoAdmin => true
       case Closing(wi) =>
         && (t.pc.EatTry? || t.pc.EatOwe? || t.pc.PopTry? || t.pc.PopOwe? || t.pc.PopHold? || t.pc.PopDone?)
         && !s.isUp && s.eaten == wi <= s.n
       case Opening(k) => t.pc.OpenPut? && s.isUp && s.eaten == s.n - k && k < s.n
  }

  ghost predicate Inv(s: State) {
    && Slots(s) && Items(s) && Fifo(s)
    && (forall i :: 0 <= i < |s.threads| ==> AdminOk(s, i))
    && (s.owner.None? ==> s.eaten == if s.isUp then 0 else s.n)
    && (s.owner.Some? ==> s.owner.value < |s.threads|)
  }

  // ----- preservation

  /** No inconsistency: a writer with a slot finds room, a reader with a slot finds an item. */
  lemma Consistent(s: State, i: nat)
    requires Slots(s) && Items(s) && i < |s.threads|
    ensures s.threads[i].pc.PushHold? ==> |s.items| < s.n
    ensures s.threads[i].pc.PopHold? ==> s.items != []
  {
    hide Count;
    if s.threads[i].pc.PushHold? {
      CountAtLeast(s.threads, SlotForPush, i);
    }
    if s.threads[i].pc.PopHold? {
      CountAtLeast(s.threads, ItemForPop, i);
    }
  }

  /** The moving thread's share of the writer slots and of the items. */
  function SlotShare(s: State, i: nat): int
    requires i < |s.threads|
  {
    var pc := s.threads[i].pc;
    s.wr + One(Holds(pc, OwesWr)) + One(Holds(pc, SlotForPush)) + |s.items| + One(Holds(pc, UnpostedSlot)) + s.eaten
  }

  function ItemShare(s: State, i: nat): int
    requires i < |s.threads|
  {
    var pc := s.threads[i].pc;
    s.rd + One(Holds(pc, OwesRd)) + One(Holds(pc, ItemForPop)) + One(Holds(pc, UnpostedItem)) - |s.items|
  }

  ghost predicate OneMoves(s: State, s': State, i: nat) {
    i < |s.threads| == |s'.threads| && s'.threads == s.threads[i := s'.threads[i]] && s'.n == s.n
  }

  /** Every step moves slots and items around without losing any. */
  ghost predicate Balanced(s: State, s': State, i: nat) {
    && OneMoves(s, s', i)
    && SlotShare(s', i) == SlotShare(s, i) && ItemShare(s', i) == ItemShare(s, i)
    && (s'.wr >= 0 || s'.wr + One(Holds(s'.threads[i].pc, OwesWr)) >= s.wr + One(Holds(s.threads[i].pc, OwesWr)))
    && (s'.rd >= 0 || s'.rd + One(Holds(s'.threads[i].pc, OwesRd)) >= s.rd + One(Holds(s.threads[i].pc, OwesRd)))
    && s'.eaten >= 0
  }

  lemma PushBalanced(s: State, s': State, i: nat)
    requires i < |s.threads| && Step(s, s', i) && s.eaten >= 0
    requires var pc := s.threads[i].pc; pc.PushTry? || pc.PushOwe? || pc.PushHold? || pc.PushDone?
    requires s.threads[i].pc.PushHold? ==> |s.items| < s.n
    ensures Balanced(s, s', i)
  {
  }

  lemma PopBalanced(s: State, s': State, i: nat)
    requires i < |s.threads| && Step(s, s', i) && s.eaten >= 0
    requires var pc := s.threads[i].pc; pc.PopTry? || pc.PopOwe? || pc.PopHold? || pc.PopDone?
    requires s.threads[i].pc.PopHold? ==> s.items != []
    ensures Balanced(s, s', i)
  {
    hide Step, Balanced;
    match s.threads[i].pc
    case PopTry(_) => PopTryBalanced(s, s', i);
    case PopOwe(_) => PopOweBalanced(s, s', i);
    case PopHold => PopHoldBalanced(s, s', i);
    case _ => PopDoneBalanced(s, s', i);
  }

  lemma PopTryBalanced(s: State, s': State, i: nat)
    requires i < |s.threads| && Step(s, s', i) && s.eaten >= 0 && s.threads[i].pc.PopTry?
    ensures Balanced(s, s', i)
  {
  }

  lemma PopOweBalanced(s: State, s': State, i: nat)
    requires i < |s.threads| && Step(s, s', i) && s.eaten >= 0 && s.threads[i].pc.PopOwe?
    ensures Balanced(s, s', i)
  {
  }

  lemma PopHoldBalanced(s: State, s': State, i: nat)
    requires i < |s.threads| && Step(s, s', i) && s.eaten >= 0 && s.threads[i].pc.PopHold? && s.items != []
    ensures Balanced(s, s', i)
  {
  }

  lemma PopDoneBalanced(s: State, s': State, i: nat)
    requires i < |s.threads| && Step(s, s', i) && s.eaten >= 0 && s.threads[i].pc.PopDone?
    ensures Balanced(s, s', i)
  {
  }

  /** Items leave at the front and enter at the end. */
  lemma StepFifo(s: State, s': State, i: nat)
    requires Fifo(s) && i < |s.threads| && Step(s, s', i)
    ensures Fifo(s')
  {
    hide Switch, Round, Restore;
    if s.threads[i].pc.PopHold? {
      if s.items != [] {
        assert s.items == [s.items[0]] + s.items[1..];
      }
    } else if s.threads[i].pc.PushHold? {
    } else {
      QueueUntouched(s, s', i);
    }
  }

  lemma QueueUntouched(s: State, s': State, i: nat)
    requires i < |s.threads| && Step(s, s', i) && !s.threads[i].pc.PopHold? && !s.threads[i].pc.PushHold?
    ensures s'.items == s.items && s'.pushed == s.pushed && s'.popped == s.popped
  {
    hide Holds;
    match s.threads[i].pc
    case Idle =>
    case PopOwe(_) =>
    case EatTry =>
    case OpenPut =>
    case _ =>
  }

  lemma OtherBalanced(s: State, s': State, i: nat)
    requires Inv(s) && i < |s.threads| && Step(s, s', i)
    requires var pc := s.threads[i].pc; pc.Idle? || pc.EatTry? || pc.EatOwe? || pc.OpenPut? || pc.Broken?
    ensures Balanced(s, s', i)
  {
    hide Step, Balanced, Slots, Items, AdminOk;
    assert AdminOk(s, i);
    EatenNat(s);
    match s.threads[i].pc
    case Idle => IdleBalanced(s, s', i);
    case Broken => BrokenRests(s, s', i);
    case _ => EatBalanced(s, s', i);
  }

  lemma IdleBalanced(s: State, s': State, i: nat)
    requires i < |s.threads| && Step(s, s', i) && s.eaten >= 0 && s.threads[i].pc.Idle?
    ensures Balanced(s, s', i)
  {
    hide Balanced;
    if s.owner.None? && Enters(s, s', i) {
      EnterBalanced(s, s', i);
    } else {
      IdleTries(s, s', i);
    }
  }

  lemma EnterBalanced(s: State, s': State, i: nat)
    requires i < |s.threads| && Enters(s, s', i) && s.eaten >= 0 && s.threads[i].pc.Idle?
    ensures Balanced(s, s', i)
  {
    assert s.threads == s.threads[i := s.threads[i]];
  }

  lemma IdleTries(s: State, s': State, i: nat)
    requires i < |s.threads| && s.eaten >= 0 && s.threads[i].pc.Idle?
    requires i < |s'.threads| && s' == Goto(s, i, s'.threads[i].pc) && (s'.threads[i].pc.PushTry? || s'.threads[i].pc.PopTry?)
    ensures Balanced(s, s', i)
  {
  }

  lemma BrokenRests(s: State, s': State, i: nat)
    requires i < |s.threads| && s.threads[i].pc.Broken?
    ensures !Step(s, s', i)
  {
  }

  lemma EatBalanced(s: State, s': State, i: nat)
    requires i < |s.threads| && Step(s, s', i) && s.eaten >= 0 && AdminOk(s, i)
    requires var pc := s.threads[i].pc; pc.EatTry? || pc.EatOwe? || pc.OpenPut?
    ensures Balanced(s, s', i)
  {
  }

  lemma EatenNat(s: State)
    requires Slots(s)
    ensures s.eaten >= 0
  {
  }

  lemma StepBalanced(s: State, s': State, i: nat)
    requires Inv(s) && i < |s.threads| && Step(s, s', i)
    ensures Balanced(s, s', i)
  {
    hide Balanced, Slots, Items, Step;
    Consistent(s, i);
    EatenNat(s);
    match s.threads[i].pc
    case PushTry(_, _) => PushBalanced(s, s', i);
    case PushOwe(_, _) => PushBalanced(s, s', i);
    case PushHold(_) => PushBalanced(s, s', i);
    case PushDone => PushBalanced(s, s', i);
    case PopTry(_) => PopBalanced(s, s', i);
    case PopOwe(_) => PopBalanced(s, s', i);
    case PopHold => PopBalanced(s, s', i);
    case PopDone => PopBalanced(s, s', i);
    case _ => OtherBalanced(s, s', i);
  }

  /** Balanced steps keep the accounts. */
  lemma AccountsKept(s: State, s': State, i: nat)
    requires Slots(s) && Items(s) && Balanced(s, s', i)
    ensures Slots(s') && Items(s')
  {
    hide Count, Holds;
    var t := s'.threads[i];
    CountSet(s.threads, OwesWr, i, t);
    CountSet(s.threads, SlotForPush, i, t);
    CountSet(s.threads, UnpostedSlot, i, t);
    CountSet(s.threads, OwesRd, i, t);
    CountSet(s.threads, ItemForPop, i, t);
    CountSet(s.threads, UnpostedItem, i, t);
  }

  lemma EatenAtMost(s: State)
    requires Slots(s)
    ensures s.eaten <= s.n
  {
    hide Count;
  }

  /** Only the owner of the mutex changes what the mutex protects. */
  lemma Protected(s: State, s': State, i: nat)
    requires i < |s.threads| && AdminOk(s, i) && Step(s, s', i)
    requires s.owner.Some? && s.owner != Some(i)
    ensures s'.owner == s.owner && s'.isUp == s.isUp && s'.eaten == s.eaten
  {
  }

  lemma OwnerStays(s: State, s': State, i: nat)
    requires i < |s.threads| && AdminOk(s, i) && Step(s, s', i) && s.eaten <= s.n
    requires s.owner.None? ==> s.eaten == if s.isUp then 0 else s.n
    ensures s'.owner in {s.owner, Some(i), None}
    ensures s'.owner.None? ==> s'.eaten == if s'.isUp then 0 else s.n
  {
  }

  lemma PushAdmin(s: State, s': State, i: nat)
    requires i < |s.threads| && AdminOk(s, i) && Step(s, s', i) && OneMoves(s, s', i)
    requires var pc := s.threads[i].pc; pc.PushTry? || pc.PushOwe? || (pc.PushHold? && |s.items| < s.n) || pc.PushDone?
    ensures AdminOk(s', i)
  {
    hide Holds;
  }

  lemma PopAdmin(s: State, s': State, i: nat)
    requires i < |s.threads| && AdminOk(s, i) && Step(s, s', i) && OneMoves(s, s', i)
    requires var pc := s.threads[i].pc; pc.PopTry? || pc.PopOwe? || (pc.PopHold? && s.items != []) || pc.PopDone?
    ensures AdminOk(s', i)
  {
    hide Holds;
  }

  lemma EatAdmin(s: State, s': State, i: nat)
    requires i < |s.threads| && AdminOk(s, i) && Step(s, s', i) && OneMoves(s, s', i) && s'.eaten <= s.n
    requires var pc := s.threads[i].pc; pc.EatTry? || pc.EatOwe? || pc.OpenPut? || pc.Broken?
    ensures AdminOk(s', i)
  {
    hide Holds;
  }

  lemma IdleAdmin(s: State, s': State, i: nat)
    requires i < |s.threads| && AdminOk(s, i) && Step(s, s', i) && OneMoves(s, s', i) && s.threads[i].pc.Idle?
    requires s.owner.None? ==> s.eaten == if s.isUp then 0 else s.n
    ensures AdminOk(s', i)
  {
    hide Holds;
  }

  lemma StepAdminSelf(s: State, s': State, i: nat)
    requires i < |s.threads| && AdminOk(s, i) && Step(s, s', i) && OneMoves(s, s', i)
    requires s.threads[i].pc.PushHold? ==> |s.items| < s.n
    requires s.threads[i].pc.PopHold? ==> s.items != []
    requires s.owner.None? ==> s.eaten == if s.isUp then 0 else s.n
    requires s.eaten <= s.n && s'.eaten <= s.n
    ensures AdminOk(s', i)
  {
    hide AdminOk, Step;
    match s.threads[i].pc
    case PushTry(_, _) => PushAdmin(s, s', i);
    case PushOwe(_, _) => PushAdmin(s, s', i);
    case PushHold(_) => PushAdmin(s, s', i);
    case PushDone => PushAdmin(s, s', i);
    case PopTry(_) => PopAdmin(s, s', i);
    case PopOwe(_) => PopAdmin(s, s', i);
    case PopHold => PopAdmin(s, s', i);
    case PopDone => PopAdmin(s, s', i);
    case Idle => IdleAdmin(s, s', i);
    case _ => EatAdmin(s, s', i);
  }

  lemma StepAdminOther(s: State, s': State, i: nat, j: nat)
    requires i < |s.threads| && AdminOk(s, i) && Step(s, s', i) && OneMoves(s, s', i)
    requires j < |s.threads| && j != i && AdminOk(s, j) && s.eaten <= s.n
    requires s.owner.None? ==> s.eaten == if s.isUp then 0 else s.n
    ensures AdminOk(s', j)
  {
    hide Step, Holds;
    assert s'.threads[j] == s.threads[j];
    OwnerStays(s, s', i);
    if s.owner == Some(j) {
      Protected(s, s', i);
    }
  }

  lemma StepInv(s: State, s': State, i: nat)
    requires Inv(s) && i < |s.threads| && Step(s, s', i)
    ensures Inv(s')
  {
    hide Step, AdminOk, Slots, Items, Fifo, SlotShare, ItemShare, Holds;
    assert AdminOk(s, i);
    StepBalanced(s, s', i);
    AccountsKept(s, s', i);
    StepFifo(s, s', i);
    Consistent(s, i);
    EatenAtMost(s);
    EatenAtMost(s');
    OwnerStays(s, s', i);
    StepAdminSelf(s, s', i);
    forall j | 0 <= j < |s'.threads| ensures AdminOk(s', j) {
      if j != i {
        StepAdminOther(s, s', i, j);
      }
    }
  }

  lemma InitInv(s: State)
    requires Init(s)
    ensures Inv(s)
  {
    forall h ensures Count(s.threads, h) == 0 {
      CountIdle(s.threads, h);
    }
  }

  lemma {:induction false} RunInv(ss: seq<State>)
    requires Run(ss)
    ensures Inv(ss[|ss| - 1])
    decreases |ss|
  {
    hide Inv, Step, Init;
    var n := |ss| - 1;
    if n == 0 {
      InitInv(ss[0]);
    } else {
      RunInv(ss[..n]);
      assert Next(ss[n - 1], ss[n - 1 + 1]);
      var i: nat :| i < |ss[n - 1].threads| && Step(ss[n - 1], ss[n], i);
      StepInv(ss[n - 1], ss[n], i);
    }
  }

  // ----- main results

  /** In every run with any number of threads: no operation finds the queue inconsistent, items
      leave in the order in which they entered and none is lost, and the queue is never
      over-full. */
  lemma QueueSafety(ss: seq<State>)
    requires Run(ss)
    ensures var s := ss[|ss| - 1];
            && (forall i :: 0 <= i < |s.threads| ==> !s.threads[i].pc.Broken?)
            && s.popped + s.items == s.pushed
            && |s.items| <= s.n
  {
    hide Init, Step, Count;
    RunInv(ss);
    var s := ss[|ss| - 1];
    assert Slots(s);
    forall i | 0 <= i < |s.threads| ensures !s.threads[i].pc.Broken? {
      assert AdminOk(s, i);
    }
  }

  /** Slots, reservations and items are conserved at every moment. */
  lemma QueueConservation(ss: seq<State>)
    requires Run(ss)
    ensures var s := ss[|ss| - 1]; Slots(s) && Items(s)
  {
    hide Step, Slots, Items;
    RunInv(ss);
  }

  /** After shutdown has returned, and until startup is called, the queue is empty, no thread is
      between taking a slot and using it, and no further push can get a slot. */
  lemma DownIsEmpty(ss: seq<State>)
    requires Run(ss)
    requires var s := ss[|ss| - 1]; !s.isUp && s.owner.None?
    ensures var s := ss[|ss| - 1];
            && s.items == [] && s.popped == s.pushed && s.wr <= WATERMARK && s.rd <= WATERMARK
            && forall i :: 0 <= i < |s.threads| ==>
                 !(s.threads[i].pc.PushHold? || s.threads[i].pc.PushDone? || s.threads[i].pc.PopHold? || s.threads[i].pc.PopDone?)
  {
    hide Step, Count;
    RunInv(ss);
    var s := ss[|ss| - 1];
    assert s.items == [];
    forall i | 0 <= i < |s.threads|
      ensures !(s.threads[i].pc.PushHold? || s.threads[i].pc.PushDone? || s.threads[i].pc.PopHold? || s.threads[i].pc.PopDone?)
    {
      NobodyHolds(s, i);
    }
  }

  lemma NobodyHolds(s: State, i: nat)
    requires Slots(s) && Items(s) && s.eaten == s.n && i < |s.threads|
    ensures !(s.threads[i].pc.PushHold? || s.threads[i].pc.PushDone? || s.threads[i].pc.PopHold? || s.threads[i].pc.PopDone?)
  {
    hide Count;
    if s.threads[i].pc.PushHold? {
      CountAtLeast(s.threads, SlotForPush, i);
    } else if s.threads[i].pc.PushDone? {
      CountAtLeast(s.threads, UnpostedItem, i);
    } else if s.threads[i].pc.PopHold? {
      CountAtLeast(s.threads, ItemForPop, i);
    } else if s.threads[i].pc.PopDone? {
      CountAtLeast(s.threads, UnpostedSlot, i);
    }
  }
}

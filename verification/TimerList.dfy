/** The list of armed timers, ordered by expiration (src/cpsw_rssi_timer.h). */
module TimerList {
  class RssiTimer {
    var next: RssiTimer?
    var prev: RssiTimer?
    var exp: int

    constructor ()
      ensures next == null && prev == null && exp == 0
    {
      next, prev, exp := null, null, 0;
    }
  }

  function Without(s: seq<RssiTimer>, t: RssiTimer): seq<RssiTimer> {
    if s == [] then [] else if s[0] == t then s[1..] else [s[0]] + Without(s[1..], t)
  }

  ghost predicate Distinct(s: seq<RssiTimer>) {
    forall i, j :: 0 <= i < j < |s| ==> s[i] != s[j]
  }

  lemma {:induction false} WithoutAt(s: seq<RssiTimer>, i: nat)
    requires Distinct(s) && i < |s|
    ensures Without(s, s[i]) == Drop(s, i)
    decreases |s|
  {
    if i > 0 {
      assert s[1..][i - 1] == s[i];
      WithoutAt(s[1..], i - 1);
      assert s[..i] == [s[0]] + s[1..][..i - 1];
    }
  }

  lemma {:induction false} WithoutAbsent(s: seq<RssiTimer>, t: RssiTimer)
    requires t !in s
    ensures Without(s, t) == s
    decreases |s|
  {
    if s != [] {
      WithoutAbsent(s[1..], t);
    }
  }

  function At(s: seq<RssiTimer>, i: int): RssiTimer? {
    if 0 <= i < |s| then s[i] else null
  }

  /** The pointers of the sequence, whose first element is the list head. */
  ghost predicate Linked(s: seq<RssiTimer>)
    reads s
  {
    forall i :: 0 <= i < |s| ==> s[i].next == At(s, i + 1) && s[i].prev == At(s, i - 1)
  }

  ghost function Exps(s: seq<RssiTimer>): (r: seq<int>)
    reads s
    ensures |r| == |s|
  {
    seq(|s|, i requires 0 <= i < |s| reads s => s[i].exp)
  }

  predicate Ascending(e: seq<int>) {
    forall i, j :: 0 <= i < j < |e| ==> e[i] <= e[j]
  }

  ghost predicate Sorted(s: seq<RssiTimer>)
    reads s
  {
    Ascending(Exps(s))
  }

  function Drop(s: seq<RssiTimer>, i: nat): seq<RssiTimer>
    requires i < |s|
  {
    s[..i] + s[i + 1..]
  }

  lemma DropKeeps(s: seq<RssiTimer>, i: nat)
    requires Distinct(s) && i < |s|
    ensures Distinct(Drop(s, i)) && s[i] !in Drop(s, i)
    ensures forall u :: u in Drop(s, i) <==> u in s && u != s[i]
  {
    var r := Drop(s, i);
    assert forall j :: 0 <= j < |r| ==> r[j] == s[if j < i then j else j + 1];
    forall u | u in s && u != s[i] ensures u in r {
      var j :| 0 <= j < |s| && s[j] == u;
      assert r[if j < i then j else j - 1] == u;
    }
  }

  lemma DropHead(h: RssiTimer, s: seq<RssiTimer>, i: nat)
    requires i < |s|
    ensures Drop([h] + s, i + 1) == [h] + Drop(s, i)
  {
  }

  lemma DropSorted(s: seq<RssiTimer>, i: nat)
    requires Sorted(s) && i < |s|
    ensures Sorted(Drop(s, i))
  {
    var r := Drop(s, i);
    assert forall j :: 0 <= j < |r| ==> r[j] == s[if j < i then j else j + 1];
    assert forall j :: 0 <= j < |r| ==> Exps(r)[j] == Exps(s)[if j < i then j else j + 1];
  }

  /** The element behind t points past it. */
  method PassBack(t: RssiTimer, ghost s: seq<RssiTimer>, ghost k: nat)
    requires Distinct(s) && k < |s| && t.next == (if k > 0 then At(s, k + 1) else null)
    modifies s`prev
    ensures forall i :: 0 <= i < |s| ==> s[i].prev == if k > 0 && i == k + 1 then old(t.prev) else old(s[i].prev)
    ensures t !in s || (k > 0 && t == s[k]) ==> t.prev == old(t.prev)
  {
    if t.next != null {
      assert k + 1 < |s| && t.next == s[k + 1];
      t.next.prev := t.prev;
    }
  }

  /** The element before t points past it. */
  method PassOn(t: RssiTimer, ghost s: seq<RssiTimer>, ghost k: nat)
    requires Distinct(s) && k < |s| && t.prev == (if k > 0 then At(s, k - 1) else null)
    modifies s`next
    ensures forall i :: 0 <= i < |s| ==> s[i].next == if k > 0 && i == k - 1 then old(t.next) else old(s[i].next)
  {
    if t.prev != null {
      assert t.prev == s[k - 1];
      t.prev.next := t.next;
    }
  }

  /** RssiTimer::cancel: the element at position k > 0 of the chain, or, with k == 0, a timer that
      is on no list. */
  method Unlink(t: RssiTimer, ghost s: seq<RssiTimer>, ghost k: nat)
    requires Linked(s) && Distinct(s) && k < |s|
    requires if k > 0 then s[k] == t else t !in s && t.next == null && t.prev == null
    modifies s`next, s`prev, t`next, t`prev
    ensures t.next == null && t.prev == null
    ensures Linked(if k > 0 then Drop(s, k) else s)
  {
    hide Drop, At;
    PassBack(t, s, k);
    PassOn(t, s, k);
    t.next, t.prev := null, null;
    if k > 0 {
      LinkedDrop(s, k);
    }
  }

  lemma DropAt(s: seq<RssiTimer>, k: nat)
    requires k < |s|
    ensures |Drop(s, k)| == |s| - 1
    ensures forall j {:trigger At(Drop(s, k), j)} :: At(Drop(s, k), j) == if j < k then At(s, j) else At(s, j + 1)
  {
  }

  /** The pointers around an element that has been taken out. */
  lemma LinkedDrop(s: seq<RssiTimer>, k: nat)
    requires 0 < k < |s|
    requires forall i :: 0 <= i < |s| && i != k ==> s[i].next == if i == k - 1 then At(s, k + 1) else At(s, i + 1)
    requires forall i :: 0 <= i < |s| && i != k ==> s[i].prev == if i == k + 1 then At(s, k - 1) else At(s, i - 1)
    ensures Linked(Drop(s, k))
  {
    hide Drop;
    var r := Drop(s, k);
    DropAt(s, k);
    forall i | 0 <= i < |r|
      ensures r[i].next == At(r, i + 1) && r[i].prev == At(r, i - 1)
    {
      assert r[i] == At(r, i);
      if i < k {
        assert At(r, i) == s[i];
      } else {
        assert At(r, i) == s[i + 1];
      }
    }
  }

  function Insert(s: seq<RssiTimer>, k: nat, t: RssiTimer): seq<RssiTimer>
    requires k <= |s|
  {
    s[..k] + [t] + s[k..]
  }

  lemma InsertAt(s: seq<RssiTimer>, k: nat, t: RssiTimer)
    requires k <= |s|
    ensures |Insert(s, k, t)| == |s| + 1
    ensures forall j {:trigger At(Insert(s, k, t), j)} ::
              At(Insert(s, k, t), j) == if j < k then At(s, j) else if j == k then t else At(s, j - 1)
  {
  }

  lemma InsertKeeps(s: seq<RssiTimer>, k: nat, t: RssiTimer)
    requires Distinct(s) && k <= |s| && t !in s
    ensures Distinct(Insert(s, k, t)) && forall u :: u in Insert(s, k, t) <==> u in s || u == t
  {
    var r := Insert(s, k, t);
    assert forall j :: 0 <= j < |r| ==> r[j] == if j < k then s[j] else if j == k then t else s[j - 1];
    assert r[k] == t;
    forall u | u in s ensures u in r {
      var j :| 0 <= j < |s| && s[j] == u;
      assert r[if j < k then j else j + 1] == u;
    }
  }

  lemma InsertWithin(s: seq<RssiTimer>, k: nat, t: RssiTimer, all: set<RssiTimer>)
    requires k <= |s| && t in all && forall u <- s :: u in all
    ensures forall u <- Insert(s, k, t) :: u in all
  {
  }

  lemma InsertHead(h: RssiTimer, s: seq<RssiTimer>, k: nat, t: RssiTimer)
    requires k <= |s|
    ensures Insert([h] + s, k + 1, t) == [h] + Insert(s, k, t)
  {
  }

  lemma InsertExps(s: seq<RssiTimer>, k: nat, t: RssiTimer)
    requires k <= |s|
    ensures Exps(Insert(s, k, t)) == Exps(s)[..k] + [t.exp] + Exps(s)[k..]
  {
    var r := Insert(s, k, t);
    assert forall j :: 0 <= j < |r| ==> r[j] == if j < k then s[j] else if j == k then t else s[j - 1];
  }

  lemma AscendingInsert(e: seq<int>, k: nat, x: int)
    requires Ascending(e) && k <= |e|
    requires forall i :: 0 <= i < k ==> e[i] <= x
    requires forall i :: k <= i < |e| ==> e[i] > x
    ensures Ascending(e[..k] + [x] + e[k..])
  {
    var r := e[..k] + [x] + e[k..];
    assert forall j :: 0 <= j < |r| ==> r[j] == if j < k then e[j] else if j == k then x else e[j - 1];
  }

  /** RssiTimer::addAfter the element at position k. */
  method AddAfter(t: RssiTimer, el: RssiTimer, ghost s: seq<RssiTimer>, ghost k: nat)
    requires Linked(s) && Distinct(s) && k < |s| && s[k] == el && t !in s
    modifies s`next, s`prev, t`next, t`prev
    ensures Linked(Insert(s, k + 1, t))
  {
    assert s[k].next == At(s, k + 1);
    t.next := el.next;
    if t.next != null {
      t.next.prev := t;
    }
    el.next := t;
    t.prev := el;
    LinkedInsert(s, k, t);
  }

  /** The pointers around a new element. */
  lemma LinkedInsert(s: seq<RssiTimer>, k: nat, t: RssiTimer)
    requires k < |s| && t.next == At(s, k + 1) && t.prev == s[k]
    requires forall i :: 0 <= i < |s| ==> s[i].next == if i == k then t else At(s, i + 1)
    requires forall i :: 0 <= i < |s| ==> s[i].prev == if i == k + 1 then t else At(s, i - 1)
    ensures Linked(Insert(s, k + 1, t))
  {
    hide Insert;
    var r := Insert(s, k + 1, t);
    InsertAt(s, k + 1, t);
    forall i | 0 <= i < |r|
      ensures r[i].next == At(r, i + 1) && r[i].prev == At(r, i - 1)
    {
      assert r[i] == At(r, i);
      if i <= k {
        assert At(r, i) == s[i];
      } else if i > k + 1 {
        assert At(r, i) == s[i - 1];
      }
    }
  }

  class RssiTimerList {
    const head: RssiTimer
    ghost var timers: set<RssiTimer>
    /** The armed timers in the order in which they expire. */
    ghost var armed: seq<RssiTimer>

    ghost function Chain(): seq<RssiTimer>
      reads `armed
    {
      [head] + armed
    }

    ghost predicate Valid()
      reads this, head, timers, armed
    {
      && head !in timers
      && (forall t <- armed :: t in timers)
      && Distinct(armed)
      && Linked(Chain())
      && Sorted(armed)
      && forall t <- timers :: t !in armed ==> t.next == null && t.prev == null
    }

    constructor ()
      ensures Valid() && timers == {} && armed == [] && fresh(head)
    {
      head := new RssiTimer();
      timers, armed := {}, [];
    }

    /** A new timer belongs to the list but is not armed. */
    method NewTimer() returns (t: RssiTimer)
      requires Valid()
      modifies `timers
      ensures Valid() && fresh(t) && timers == old(timers) + {t} && armed == old(armed)
    {
      t := new RssiTimer();
      timers := timers + {t};
    }

    /** RssiTimer::cancel */
    method Cancel(t: RssiTimer)
      requires Valid() && t in timers
      modifies `armed, head, timers
      ensures Valid() && armed == Without(old(armed), t) && t !in armed
      ensures forall u <- timers :: u.exp == old(u.exp)
    {
      hide Linked, Distinct, Ascending, Without, Drop;
      ghost var k := 0;
      if t in armed {
        ghost var i :| 0 <= i < |armed| && armed[i] == t;
        k := i + 1;
      }
      Removal(t, k);
      ghost var r, s := Without(armed, t), Chain();
      ghost var e := Exps(r);
      assert forall i :: 0 <= i < |r| ==> r[i] in s[1..];
      Unlink(t, s, k);
      armed := r;
      assert Exps(r) == e;
    }

    /** What is left when a timer is taken off the list; k == 0 if it is not armed. */
    lemma Removal(t: RssiTimer, k: nat)
      requires Valid() && t in timers && k <= |armed|
      requires if k > 0 then armed[k - 1] == t else t !in armed
      ensures var r := Without(armed, t);
              && Distinct(r) && Sorted(r) && t !in r && (forall u :: u in r <==> u in armed && u != t)
              && (k > 0 ==> Drop(Chain(), k) == [head] + r && Chain()[k] == t)
              && (k == 0 ==> r == armed && t.next == null && t.prev == null && t !in Chain())
      ensures Distinct(Chain())
    {
      hide Linked, Sorted, Without, Drop;
      if k > 0 {
        WithoutAt(armed, k - 1);
        DropKeeps(armed, k - 1);
        DropSorted(armed, k - 1);
        DropHead(head, armed, k - 1);
      } else {
        WithoutAbsent(armed, t);
      }
    }

    /** The element behind which a timer that expires at `exp` belongs. */
    method FindPlace(exp: int) returns (el: RssiTimer, ghost k: nat)
      requires Valid()
      ensures k <= |armed| && el == Chain()[k]
      ensures forall i :: 0 <= i < k ==> armed[i].exp <= exp
      ensures forall i :: k <= i < |armed| ==> armed[i].exp > exp
    {
      hide Linked, Distinct, Sorted, Ascending;
      el, k := head, 0;
      NextAt(0);
      while el.next != null && !(exp < el.next.exp)
        invariant 0 <= k <= |armed| && Chain()[k] == el && el.next == At(armed, k)
        invariant forall i :: 0 <= i < k ==> armed[i].exp <= exp
        decreases |armed| - k
      {
        el := el.next;
        k := k + 1;
        NextAt(k);
      }
      LaterExpire(k, exp);
    }

    lemma NextAt(k: nat)
      requires Valid() && k <= |armed|
      ensures Chain()[k].next == At(armed, k)
    {
      assert At(Chain(), k + 1) == At(armed, k);
    }

    lemma LaterExpire(k: nat, exp: int)
      requires Valid() && (k < |armed| ==> armed[k].exp > exp)
      ensures forall i :: k <= i < |armed| ==> armed[i].exp > exp
    {
      var e := Exps(armed);
      forall i | k <= i < |armed| ensures armed[i].exp > exp {
        assert k < i ==> e[k] <= e[i];
      }
    }

    /** RssiTimer::arm_abs: the timer goes behind all that expire no later. */
    method ArmAbs(t: RssiTimer, exp: int) returns (ghost k: nat)
      requires Valid() && t in timers
      modifies `armed, head, timers
      ensures Valid() && t.exp == exp
      ensures forall u <- timers :: u != t ==> u.exp == old(u.exp)
      ensures var rest := Without(old(armed), t);
              && k <= |rest| && armed == Insert(rest, k, t)
              && (forall i :: 0 <= i < k ==> rest[i].exp <= exp)
              && forall i :: k <= i < |rest| ==> rest[i].exp > exp
    {
      hide Linked, Distinct, Ascending, Without, Insert, Valid;
      Cancel(t);
      var el;
      el, k := FindPlace(exp);
      Place(t, el, k, exp);
    }

    method Place(t: RssiTimer, el: RssiTimer, ghost k: nat, exp: int)
      requires Valid() && t in timers && t !in armed && k <= |armed| && el == Chain()[k]
      requires forall i :: 0 <= i < k ==> armed[i].exp <= exp
      requires forall i :: k <= i < |armed| ==> armed[i].exp > exp
      modifies `armed, head, timers
      ensures Valid() && t.exp == exp && armed == Insert(old(armed), k, t)
      ensures forall u <- timers :: u != t ==> u.exp == old(u.exp)
      ensures forall i :: 0 <= i < k ==> old(armed)[i].exp <= exp
      ensures forall i :: k <= i < |old(armed)| ==> old(armed)[i].exp > exp
    {
      hide Linked, Distinct, Ascending, Insert;
      ghost var r, e, tm := armed, Exps(armed), timers;
      ChainDistinct();
      InsertKeeps(r, k, t);
      InsertWithin(r, k, t, tm);
      assert forall u <- timers :: u !in r && u != t ==> u.next == null && u.prev == null && u !in Chain();
      LinkIn(t, el, k, exp);
      InsertExps(r, k, t);
      assert Exps(r) == e;
      AscendingInsert(e, k, exp);
    }

    /** The list itself. */
    method LinkIn(t: RssiTimer, el: RssiTimer, ghost k: nat, exp: int)
      requires Linked(Chain()) && Distinct(Chain()) && t !in Chain() && k <= |armed| && el == Chain()[k]
      modifies `armed, Chain(), t
      ensures Linked(Chain()) && t.exp == exp && armed == Insert(old(armed), k, t)
      ensures forall u <- old(armed) :: u.exp == old(u.exp)
    {
      hide Linked, Distinct, Insert;
      ghost var s, r := Chain(), armed;
      assert forall i :: 0 <= i < |r| ==> r[i] in s[1..];
      InsertHead(head, r, k, t);
      t.exp := exp;
      AddAfter(t, el, s, k);
      armed := Insert(r, k, t);
    }

    lemma ChainDistinct()
      requires Valid()
      ensures Distinct(Chain())
      ensures forall t <- timers :: t in Chain() ==> t in armed
    {
    }

    /** A timer on the list is exactly one with a predecessor. */
    method IsArmed(t: RssiTimer) returns (b: bool)
      requires Valid() && t in timers
      ensures b <==> t in armed
    {
      b := t.prev != null;
      if t in armed {
        var i :| 0 <= i < |armed| && armed[i] == t;
        assert Chain()[i + 1] == t && t.prev == Chain()[i + 1 - 1];
      }
    }

    /** The timer with the least expiration time. */
    method FirstToExpire() returns (t: RssiTimer?)
      requires Valid()
      ensures t == null <==> armed == []
      ensures t != null ==> t in armed && forall u <- armed :: t.exp <= u.exp
    {
      t := head.next;
      assert Chain()[0] == head;
      if armed != [] {
        assert Chain()[1] == armed[0];
        forall u <- armed ensures armed[0].exp <= u.exp {
          var i :| 0 <= i < |armed| && armed[i] == u;
          assert Exps(armed)[0] <= Exps(armed)[i] || i == 0;
        }
      }
    }
  }
}

/** The bounded queue in a circular array (src/cpsw_queue.h). */
module BoundedQueue {
  import opened Wrappers

  /** Slot of the k-th item. */
  function Wrap(rp: nat, k: nat, sz: nat): nat {
    if rp + k < sz then rp + k else rp + k - sz
  }

  /** `n` items from slot `rp` on. */
  function Window<T>(f: seq<T>, rp: nat, n: nat): (s: seq<T>)
    requires n <= |f| && (n > 0 ==> rp < |f|)
    ensures |s| == n
  {
    seq(n, k requires 0 <= k < n => f[Wrap(rp, k, |f|)])
  }

  class CBufQueueBase<T(0)> {
    const fifo: array<T>
    var rp: nat
    var wp: nat
    var fl: nat

    ghost predicate Valid()
      reads this, fifo
    {
      var sz := fifo.Length;
      && fl <= sz
      && (if sz == 0 then rp == wp == 0 else rp < sz && wp == Wrap(rp, fl, sz))
    }

    /** First in, first out. */
    ghost function View(): seq<T>
      requires Valid()
      reads this, fifo
    {
      Window(fifo[..], rp, fl)
    }

    constructor (n: nat)
      ensures Valid() && fresh(fifo) && fifo.Length == n && View() == []
    {
      fifo := new T[n];
      rp, wp, fl := 0, 0, 0;
    }

    method BoundedPush(p: T) returns (ok: bool)
      requires Valid()
      modifies this, fifo
      ensures Valid()
      ensures ok == (|old(View())| < fifo.Length)
      ensures View() == if ok then old(View()) + [p] else old(View())
    {
      if fl == fifo.Length {
        return false;
      }
      ghost var was := View();
      fifo[wp] := p;
      wp := wp + 1;
      if wp == fifo.Length {
        wp := 0;
      }
      fl := fl + 1;
      assert View() == was + [p];
      return true;
    }

    method Pop() returns (r: Option<T>)
      requires Valid()
      modifies this
      ensures Valid()
      ensures r.None? <==> |old(View())| == 0
      ensures r.Some? ==> old(View()) == [r.value] + View()
      ensures r.None? ==> View() == old(View())
    {
      if fl == 0 {
        return None;
      }
      ghost var was := View();
      var p := fifo[rp];
      rp := rp + 1;
      if rp == fifo.Length {
        rp := 0;
      }
      fl := fl - 1;
      assert was == [p] + View();
      return Some(p);
    }
  }
}

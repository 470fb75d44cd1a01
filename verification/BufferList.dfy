/** Chains of buffers as doubly linked lists (src/cpsw_buf.cc). */
module BufferList {
  import opened Octets
  import opened BufChain
  /** CBufImpl */
  class Node {
    var buf: Buf
    var next: Node?
    var prev: Node?
    var chain: CBufChain?

    constructor (b: Buf)
      ensures buf == b && next == null && prev == null && chain == null
    {
      buf, next, prev, chain := b, null, null, null;
    }
  }

  function Front<T>(s: seq<T>): (r: seq<T>)
    requires s != []
    ensures |r| == |s| - 1
  {
    s[..|s| - 1]
  }

  function Rest<T>(s: seq<T>): (r: seq<T>)
    requires s != []
    ensures |r| == |s| - 1
  {
    s[1..]
  }

  /** Without its first or its last element. */
  function Less<T>(s: seq<T>, first: bool): (r: seq<T>)
    requires s != []
    ensures |r| == |s| - 1
  {
    if first then Rest(s) else Front(s)
  }

  function At(s: seq<Node>, i: int): Node? {
    if 0 <= i < |s| then s[i] else null
  }

  ghost predicate Distinct(s: seq<Node>) {
    forall i, j :: 0 <= i < j < |s| ==> s[i] != s[j]
  }

  ghost predicate Linked(s: seq<Node>)
    reads s
  {
    forall i :: 0 <= i < |s| ==> s[i].next == At(s, i + 1) && s[i].prev == At(s, i - 1)
  }

  ghost function Bufs(s: seq<Node>): (c: Chain)
    reads s
    ensures |c| == |s|
  {
    seq(|s|, i requires 0 <= i < |s| reads s => s[i].buf)
  }

  /** All buffers are valid and know their chain. */
  ghost predicate Sound(s: seq<Node>, c: CBufChain)
    reads s
  {
    forall n <- s :: n.buf.Valid() && n.chain == c
  }

  lemma LinkedOne(n: Node)
    requires n.next == null && n.prev == null
    ensures Linked([n])
  {
  }

  /** CBufImpl::after the last buffer. */
  method LinkAfter(t: Node, n: Node, ghost s: seq<Node>)
    requires Linked(s) && Distinct(s) && s != [] && s[|s| - 1] == t && n !in s && n.next == null && n.prev == null
    modifies t`next, n`prev, n`next
    ensures Linked(s + [n])
  {
    ghost var r, k := s + [n], |s| - 1;
    assert s[k].next == At(s, k + 1);
    n.prev := t;
    n.next := t.next;
    t.next := n;
    forall i | 0 <= i < |r|
      ensures r[i].next == At(r, i + 1) && r[i].prev == At(r, i - 1)
    {
      if i < |s| {
        assert r[i] == s[i];
      }
    }
  }

  /** CBufImpl::before the first buffer. */
  method LinkBefore(h: Node, n: Node, ghost s: seq<Node>)
    requires Linked(s) && Distinct(s) && s != [] && s[0] == h && n !in s && n.next == null && n.prev == null
    modifies h`prev, n`prev, n`next
    ensures Linked([n] + s)
  {
    ghost var r := [n] + s;
    assert s[0].prev == At(s, -1);
    n.next := h;
    n.prev := h.prev;
    h.prev := n;
    forall i | 0 <= i < |r|
      ensures r[i].next == At(r, i + 1) && r[i].prev == At(r, i - 1)
    {
      if i > 0 {
        assert r[i] == s[i - 1];
      }
    }
  }

  /** CBufImpl::unlink of the first or the last buffer. */
  method Detach(n: Node, ghost s: seq<Node>)
    requires Linked(s) && Distinct(s) && s != [] && (n == s[0] || n == s[|s| - 1])
    modifies s
    ensures n.next == null && n.prev == null
    ensures Linked(Less(s, n == s[0]))
    ensures forall i :: 0 <= i < |s| ==> s[i].buf == old(s[i].buf) && s[i].chain == old(s[i].chain)
  {
    ghost var k := if n == s[0] then 0 else |s| - 1;
    assert s[k].next == At(s, k + 1) && s[k].prev == At(s, k - 1);
    if n.next != null {
      n.next.prev := n.prev;
      n.next := null;
    }
    if n.prev != null {
      n.prev.next := n.next;
      n.prev := null;
    }
    if k == 0 {
      LinkedRest(s);
    } else {
      LinkedFront(s);
    }
  }

  lemma LinkedRest(s: seq<Node>)
    requires s != []
    requires forall i :: 1 <= i < |s| ==> s[i].next == At(s, i + 1) && s[i].prev == if i == 1 then null else At(s, i - 1)
    ensures Linked(Rest(s))
  {
    var r := Rest(s);
    forall i | 0 <= i < |r|
      ensures r[i].next == At(r, i + 1) && r[i].prev == At(r, i - 1)
    {
      assert r[i] == s[i + 1];
    }
  }

  lemma LinkedFront(s: seq<Node>)
    requires s != []
    requires forall i :: 0 <= i < |s| - 1 ==> s[i].next == (if i == |s| - 2 then null else At(s, i + 1)) && s[i].prev == At(s, i - 1)
    ensures Linked(Front(s))
  {
    var r := Front(s);
    forall i | 0 <= i < |r|
      ensures r[i].next == At(r, i + 1) && r[i].prev == At(r, i - 1)
    {
      assert r[i] == s[i];
    }
  }

  lemma EndsFlat(c: Chain, b: Buf, first: bool)
    requires ValidChain(c) && c != [] && b.Valid() && b == if first then c[0] else c[|c| - 1]
    ensures ValidChain(Less(c, first))
    ensures Flat(c) == if first then b.Payload() + Flat(Less(c, first)) else Flat(Less(c, first)) + b.Payload()
  {
    hide Flat, Buf.Payload, ValidChain;
    FlatOne(b);
    if first {
      FlatSplit(c, 1);
      assert c[..1] == [b];
    } else {
      FlatSplit(c, |c| - 1);
      assert c[|c| - 1..] == [b];
    }
  }

  /** From `was` to `c` no buffer has been filled beyond the limit, and those before the old tail are
      as they were. */
  predicate Limited(was: Chain, c: Chain, capa: nat) {
    && ValidChain(c) && ValidChain(was) && |was| <= |c|
    && (forall i :: 0 <= i < |was| - 1 ==> c[i] == was[i])
    && (was != [] ==> var k := |was| - 1; c[k].Size() <= if was[k].Size() > capa then was[k].Size() else capa)
    && forall i :: |was| <= i < |c| ==> c[i].Size() <= capa
  }

  lemma NothingAdded(c: Chain, capa: nat)
    requires ValidChain(c)
    ensures Limited(c, c, capa)
  {
  }

  /** The last buffer, old or new, is filled up to the limit. */
  lemma StillLimited(was: Chain, c0: Chain, c1: Chain, b: Buf, capa: nat)
    requires Limited(was, c0, capa) && c1 != [] && b.Valid() && b.Size() <= capa && ValidChain(c1)
    requires (c1 == c0 == was) || (|c1| == |c0| + 1 && c1[..|c0|] == c0)
    ensures Limited(was, c1[|c1| - 1 := b], capa)
  {
    var c := c1[|c1| - 1 := b];
    assert ValidChain(c);
    forall i | 0 <= i < |c1| - 1 ensures c[i] == c0[i] {
      if c1 != c0 {
        assert c1[..|c0|][i] == c0[i];
      }
    }
  }

  predicate NoEmpty(c: Chain) {
    forall i :: 0 <= i < |c| ==> c[i].Valid() && c[i].Size() > 0
  }

  const HEADROOM := 32
  const TAILROOM := 16

  class CBufChain {
    var head: Node?
    var tail: Node?
    var len: nat
    var size: nat
    ghost var nodes: seq<Node>

    /** The list is linked both ways and the counters agree with it. */
    ghost predicate Valid()
      reads this, nodes
    {
      && Distinct(nodes) && Linked(nodes) && Sound(nodes, this)
      && head == At(nodes, 0) && tail == At(nodes, |nodes| - 1)
      && len == |nodes|
      && ValidChain(Bufs(nodes)) && size == |Flat(Bufs(nodes))|
    }

    ghost function View(): Chain
      reads this, nodes
    {
      Bufs(nodes)
    }

    constructor ()
      ensures Valid() && nodes == []
    {
      head, tail, len, size, nodes := null, null, 0, 0, [];
    }

    /** addAtTail; `false` is the exception for a buffer that is on a chain already. */
    method AddAtTail(n: Node) returns (ok: bool)
      requires Valid() && n.buf.Valid() && (n.chain == null ==> n !in nodes && n.next == null && n.prev == null)
      modifies this, n, nodes
      ensures Valid()
      ensures ok == (old(n.chain) == null)
      ensures nodes == if ok then old(nodes) + [n] else old(nodes)
      ensures View() == if ok then old(View()) + [n.buf] else old(View())
      ensures n.buf == old(n.buf)
    {
      hide Buf.Payload, Distinct, Linked, Flat, ValidChain;
      if n.chain != null {
        return false;
      }
      ghost var s, c := nodes, View();
      NotNull();
      n.chain := this;
      if tail == null {
        head := n;
        LinkedOne(n);
        assert s + [n] == [n];
      } else {
        LinkAfter(tail, n, s);
      }
      tail := n;
      len := len + 1;
      size := size + n.buf.Size();
      nodes := s + [n];
      assert Bufs(s) == c;
      Appended(s, n, c);
      assert Linked(nodes) && head == At(nodes, 0) && tail == At(nodes, |nodes| - 1);
      return true;
    }

    method AddAtHead(n: Node) returns (ok: bool)
      requires Valid() && n.buf.Valid() && (n.chain == null ==> n !in nodes && n.next == null && n.prev == null)
      modifies this, n, nodes
      ensures Valid()
      ensures ok == (old(n.chain) == null)
      ensures nodes == if ok then [n] + old(nodes) else old(nodes)
      ensures View() == if ok then [n.buf] + old(View()) else old(View())
      ensures n.buf == old(n.buf)
    {
      hide Distinct, Linked, Flat, ValidChain;
      if n.chain != null {
        return false;
      }
      ghost var s, c := nodes, View();
      NotNull();
      n.chain := this;
      if head == null {
        tail := n;
        LinkedOne(n);
        assert [n] + s == [n];
      } else {
        LinkBefore(head, n, s);
      }
      head := n;
      len := len + 1;
      size := size + n.buf.Size();
      nodes := [n] + s;
      assert Bufs(s) == c;
      Prepended(s, n, c);
      assert Linked(nodes) && head == At(nodes, 0) && tail == At(nodes, |nodes| - 1);
      return true;
    }

    /** CBufImpl::unlink, as its callers use it: for a buffer at either end. */
    method Unlink(n: Node)
      requires Valid() && nodes != [] && (n == head || n == tail)
      modifies this, nodes
      ensures Valid() && n.chain == null && n.next == null && n.prev == null && n.buf == old(n.buf)
      ensures nodes == Less(old(nodes), n == old(head))
      ensures View() == Less(old(View()), n == old(head))
      ensures Flat(old(View())) ==
                if n == old(head) then n.buf.Payload() + Flat(View()) else Flat(View()) + n.buf.Payload()
    {
      hide Distinct, Linked, Flat, ValidChain, Bufs, Sound, Valid;
      if n == head {
        UnlinkFirst(n);
      } else {
        UnlinkLast(n);
      }
    }

    method UnlinkFirst(n: Node)
      requires Valid() && nodes != [] && n == head
      modifies this, nodes
      ensures Valid() && n.chain == null && n.next == null && n.prev == null && n.buf == old(n.buf)
      ensures nodes == Less(old(nodes), true) && View() == Less(old(View()), true)
      ensures Flat(old(View())) == n.buf.Payload() + Flat(View())
    {
      hide Distinct, Linked, Flat, ValidChain, Bufs, Sound, Less;
      ghost var s, r := nodes, Less(nodes, true);
      Ends(n, true);
      Uncount(n, true);
      Detach(n, s);
      n.chain := null;
      nodes := r;
      StillSound(r);
      BufsKept(r);
    }

    method UnlinkLast(n: Node)
      requires Valid() && nodes != [] && n == tail && n != head
      modifies this, nodes
      ensures Valid() && n.chain == null && n.next == null && n.prev == null && n.buf == old(n.buf)
      ensures nodes == Less(old(nodes), false) && View() == Less(old(View()), false)
      ensures Flat(old(View())) == Flat(View()) + n.buf.Payload()
    {
      hide Distinct, Linked, Flat, ValidChain, Bufs, Sound, Less;
      ghost var s, r := nodes, Less(nodes, false);
      Ends(n, false);
      Uncount(n, false);
      Detach(n, s);
      n.chain := null;
      nodes := r;
      StillSound(r);
      BufsKept(r);
    }

    /** The first part of delFromChain. */
    method Uncount(n: Node, ghost first: bool)
      requires n.buf.Valid() && nodes != [] && len == |nodes| && size >= n.buf.Size()
      requires head == nodes[0] && tail == nodes[|nodes| - 1]
      requires n == (if first then nodes[0] else nodes[|nodes| - 1]) && (first <==> n == head)
      requires |nodes| > 1 ==> nodes[0] != nodes[|nodes| - 1]
      requires n.next == (if first then At(nodes, 1) else null) && n.prev == (if first then null else At(nodes, |nodes| - 2))
      modifies `head, `tail, `len, `size
      ensures len == old(len) - 1 && size == old(size) - n.buf.Size()
      ensures var r := Less(nodes, first); head == At(r, 0) && tail == At(r, |r| - 1)
    {
      if head == n {
        head := n.next;
      }
      if tail == n {
        tail := n.prev;
      }
      len := len - 1;
      size := size - n.buf.Size();
    }

    twostate lemma StillSound(s: seq<Node>)
      requires old(Sound(s, this)) && forall i :: 0 <= i < |s| ==> s[i].buf == old(s[i].buf) && s[i].chain == old(s[i].chain)
      ensures Sound(s, this)
    {
      forall n <- s ensures n.buf.Valid() && n.chain == this {
        var i :| 0 <= i < |s| && s[i] == n;
      }
    }

    twostate lemma BufsKept(s: seq<Node>)
      requires forall i :: 0 <= i < |s| ==> s[i].buf == old(s[i].buf)
      ensures Bufs(s) == old(Bufs(s))
    {
    }

    /** What remains when the first or the last buffer goes. */
    lemma Ends(n: Node, first: bool)
      requires Valid() && nodes != [] && (if first then n == head else n == tail)
      ensures n in nodes && n.buf.Valid() && n == (if first then nodes[0] else nodes[|nodes| - 1])
      ensures n.next == (if first then At(nodes, 1) else null) && n.prev == (if first then null else At(nodes, |nodes| - 2))
      ensures var r := Less(nodes, first);
              Distinct(r) && n !in r && Sound(r, this) && (|nodes| > 1 ==> nodes[0] != nodes[|nodes| - 1])
      ensures var r := Less(nodes, first);
              Bufs(r) == Less(View(), first)
      ensures head == nodes[0] && tail == nodes[|nodes| - 1]
      ensures var c := View();
              var d := Less(c, first);
              && ValidChain(c) && ValidChain(d) && len > 0 && size >= n.buf.Size()
              && Flat(c) == (if first then n.buf.Payload() + Flat(d) else Flat(d) + n.buf.Payload())
    {
      hide Linked, Flat, Sound, Less;
      EndsList(n, first);
      EndsFlat(View(), n.buf, first);
    }

    lemma EndsList(n: Node, first: bool)
      requires Valid() && nodes != [] && (if first then n == head else n == tail)
      ensures n in nodes && n.buf.Valid() && n == (if first then nodes[0] else nodes[|nodes| - 1])
      ensures n.next == (if first then At(nodes, 1) else null) && n.prev == (if first then null else At(nodes, |nodes| - 2))
      ensures var r := Less(nodes, first);
              Distinct(r) && n !in r && Sound(r, this) && (|nodes| > 1 ==> nodes[0] != nodes[|nodes| - 1])
      ensures Bufs(Less(nodes, first)) == Less(View(), first)
      ensures n.buf == if first then View()[0] else View()[|nodes| - 1]
    {
      hide Flat, ValidChain;
      var k := if first then 0 else |nodes| - 1;
      assert nodes[k] == n && View()[k] == n.buf;
      assert nodes[k].next == At(nodes, k + 1) && nodes[k].prev == At(nodes, k - 1);
    }

    lemma Prepended(s: seq<Node>, n: Node, c: Chain)
      requires Distinct(s) && n !in s && Sound(s, this) && n.buf.Valid() && n.chain == this
      requires Bufs(s) == c && ValidChain(c)
      ensures Distinct([n] + s) && Sound([n] + s, this)
      ensures Bufs([n] + s) == [n.buf] + c && ValidChain([n.buf] + c)
      ensures Flat([n.buf] + c) == n.buf.Payload() + Flat(c)
    {
      FlatAppend([n.buf], c);
      FlatOne(n.buf);
    }

    // ----- resizing a buffer on the chain

    /** A buffer takes another window or content; the chain's size follows. */
    method Replace(n: Node, b: Buf, ghost k: nat)
      requires Valid() && k < |nodes| && nodes[k] == n && b.Valid()
      modifies n`buf, `size
      ensures Valid() && nodes == old(nodes) && View() == old(View())[k := b] && n.buf == b
    {
      hide Linked, Flat;
      ghost var s, c := nodes, View();
      assert n in s && c[k] == n.buf;
      FlatUpdate(c, k, b);
      size := size + b.Size() - n.buf.Size();
      n.buf := b;
      assert forall i :: 0 <= i < |s| && i != k ==> s[i] != n;
      assert Bufs(s) == c[k := b];
      assert Linked(s) by { StillLinked(s); }
    }

    twostate lemma StillLinked(s: seq<Node>)
      requires old(Linked(s)) && forall i :: 0 <= i < |s| ==> s[i].next == old(s[i].next) && s[i].prev == old(s[i].prev)
      ensures Linked(s)
    {
    }

    /** CBufImpl::setSize; `false` is the exception. */
    method SetSize(n: Node, s: nat, ghost k: nat) returns (ok: bool)
      requires Valid() && k < |nodes| && nodes[k] == n
      modifies n`buf, `size
      ensures Valid() && nodes == old(nodes) && ok == (n.buf.beg + s <= |n.buf.store|)
      ensures View() == if ok then old(View())[k := Buf(old(n.buf).store, old(n.buf).beg, old(n.buf).beg + s)] else old(View())
    {
      if n.buf.beg + s > |n.buf.store| {
        return false;
      }
      Replace(n, Buf(n.buf.store, n.buf.beg, n.buf.beg + s), k);
      return true;
    }

    /** CBufImpl::adjPayload */
    method AdjPayload(n: Node, delta: int, ghost k: nat) returns (ok: bool)
      requires Valid() && k < |nodes| && nodes[k] == n
      modifies n`buf, `size
      ensures Valid() && nodes == old(nodes)
      ensures ok == (old(n.buf).beg + delta >= 0 && delta <= old(n.buf).end - old(n.buf).beg)
      ensures View() == if ok then old(View())[k := Buf(old(n.buf).store, old(n.buf).beg + delta, old(n.buf).end)] else old(View())
    {
      if delta + n.buf.beg < 0 || delta > n.buf.end - n.buf.beg {
        return false;
      }
      assert n in nodes;
      Replace(n, Buf(n.buf.store, n.buf.beg + delta, n.buf.end), k);
      return true;
    }

    /** CBufImpl::setPayload with the payload at offset p; the end moves along if it has to. */
    method SetPayload(n: Node, p: nat, ghost k: nat) returns (ok: bool)
      requires Valid() && k < |nodes| && nodes[k] == n
      modifies n`buf, `size
      ensures Valid() && nodes == old(nodes) && ok == (p <= |old(n.buf).store|)
      ensures View() == if ok then old(View())[k := Buf(old(n.buf).store, p, if old(n.buf).end < p then p else old(n.buf).end)] else old(View())
    {
      if p > |n.buf.store| {
        return false;
      }
      assert n in nodes;
      Replace(n, Buf(n.buf.store, p, if n.buf.end < p then p else n.buf.end), k);
      return true;
    }

    lemma NodeAt(i: nat)
      requires Valid() && i < |nodes|
      ensures nodes[i].buf.Valid() && View()[i] == nodes[i].buf
      ensures nodes[i].next == At(nodes, i + 1)
    {
      assert nodes[i] in nodes;
    }

    // ----- extract

    /** What lies at off in the octets `f`, at most n of them. */
    static function Stretch(f: seq<Octet>, off: nat, n: nat): seq<Octet> {
      if off >= |f| then [] else if off + n <= |f| then f[off..off + n] else f[off..]
    }

    /** The copy loop, from offset o of buffer i on. */
    method CopyOut(first: Node, ghost i0: nat, o0: nat, size: nat, ghost off: nat) returns (dst: seq<Octet>)
      requires Valid() && i0 < |nodes| && first == nodes[i0] && first.buf.Valid() && o0 < first.buf.Size()
      requires ValidChain(View()[..i0]) && |Flat(View()[..i0])| + o0 == off
      ensures dst == Stretch(Flat(View()), off, size)
    {
      hide Linked, Distinct, Flat, Buf.Payload;
      ghost var c, f := View(), Flat(View());
      var b, o, left := first, o0, size;
      ghost var i := i0;
      dst := [];
      FlatSplit(c, i);
      NextFlat(c, i);
      FlatSplit(c, i + 1);
      while true
        invariant 0 <= i < |nodes| && b == nodes[i] && 0 <= left && left + |dst| == size
        invariant ValidChain(c[..i]) && |Flat(c[..i])| + o == off + |dst| && off + |dst| <= |f|
        invariant dst == f[off..off + |dst|]
        invariant b.buf.Valid() && 0 <= o <= b.buf.Size()
        decreases |nodes| - i
      {
        NodeAt(i);
        var p := b.buf.Payload();
        var l := if |p| - o > left then left else |p| - o;
        CopyStep(c, i, o, l, off, dst);
        dst := dst + p[o..o + l];
        left := left - l;
        i := i + 1;
        if b.next == null {
          assert c[..i] == c;
          return;
        }
        b := b.next;
        NodeAt(i);
        o := 0;
        if left == 0 {
          return;
        }
      }
    }

    /** Octets o .. o + l of buffer i continue what was copied from offset `off` on. */
    static lemma CopyStep(c: Chain, i: nat, o: nat, l: nat, off: nat, dst: seq<Octet>)
      requires ValidChain(c) && i < |c| && c[i].Valid() && o + l <= c[i].Size() && ValidChain(c[..i])
      requires |Flat(c[..i])| + o == off + |dst| && off + |dst| <= |Flat(c)| && dst == Flat(c)[off..off + |dst|]
      ensures ValidChain(c[..i + 1]) && |Flat(c[..i + 1])| == |Flat(c[..i])| + c[i].Size() <= |Flat(c)|
      ensures off + |dst| + l <= |Flat(c)|
      ensures dst + c[i].Payload()[o..o + l] == Flat(c)[off..off + |dst| + l]
    {
      hide Flat, Buf.Payload;
      var p := c[i].Payload();
      FlatSplit(c, i);
      NextFlat(c, i);
      FlatSplit(c, i + 1);
      assert Flat(c) == Flat(c[..i]) + p + Flat(c[i + 1..]);
      PartOf(Flat(c[..i]), p, Flat(c[i + 1..]), o, l);
    }

    static lemma PartOf(x: seq<Octet>, p: seq<Octet>, y: seq<Octet>, o: nat, l: nat)
      requires o + l <= |p|
      ensures p[o..o + l] == (x + p + y)[|x| + o..|x| + o + l]
    {
    }

    /** CBufChainImpl::extract */
    method Extract(off: nat, size: nat) returns (dst: seq<Octet>)
      requires Valid()
      ensures dst == Stretch(Flat(View()), off, size)
      ensures |dst| == if off >= this.size then 0 else if this.size - off < size then this.size - off else size
    {
      hide Linked, Distinct, Flat;
      ghost var c := View();
      dst := [];
      var b := head;
      NotNull();
      FlatNone();
      if b == null {
        assert c == [];
        return;
      }
      var o, left := off, size;
      ghost var i := 0;
      NodeAt(0);
      assert c[..0] == [];
      while b.buf.Size() <= o
        invariant 0 <= i < |nodes| && b == nodes[i] && b.buf.Valid() && c[i] == b.buf
        invariant ValidChain(c[..i]) && |Flat(c[..i])| + o == off && o >= 0
        decreases |nodes| - i
      {
        NextFlat(c, i);
        FlatSplit(c, i + 1);
        NodeAt(i);
        o := o - b.buf.Size();
        i := i + 1;
        if b.next == null {
          assert c[..i] == c;
          return;
        }
        b := b.next;
        NodeAt(i);
      }
      dst := CopyOut(b, i, o, left, off);
    }

    // ----- insert at the end

    /** Octets are copied behind the payload of the last buffer and its size is set. */
    method AppendTo(n: Node, data: seq<Octet>)
      requires Valid() && nodes != [] && n == nodes[|nodes| - 1] && n.buf.Valid() && |data| <= n.buf.Avail()
      modifies n`buf, `size
      ensures Valid() && nodes == old(nodes)
      ensures Flat(View()) == old(Flat(View())) + data
      ensures n.buf.Valid() && n.buf.Size() == old(n.buf.Size()) + |data|
      ensures View() == old(View())[|nodes| - 1 := n.buf]
    {
      hide Linked, Distinct, Flat;
      var b := n.buf;
      var b' := Buf(b.store[..b.end] + data + b.store[b.end + |data|..], b.beg, b.end + |data|);
      assert b'.Payload() == b.Payload() + data;
      ghost var c, k := View(), |nodes| - 1;
      NodeAt(k);
      FlatUpdate(c, k, b');
      assert c[k + 1..] == [];
      FlatNone();
      Replace(n, b', k);
    }

    /** createAtTail: an empty buffer with some headroom. */
    method CreateAtTail(storage: nat) returns (n: Node)
      requires Valid() && storage >= HEADROOM
      modifies this, nodes
      ensures Valid() && fresh(n) && nodes == old(nodes) + [n]
      ensures n.buf.Valid() && n.buf.Size() == 0 && n.buf.Avail() == storage - HEADROOM
      ensures View() == old(View()) + [n.buf] && Flat(View()) == old(Flat(View()))
    {
      hide Linked, Distinct, Sound, Flat;
      n := new Node(Buf(seq(storage, _ => 0), HEADROOM, HEADROOM));
      ghost var c := View();
      var ok := AddAtTail(n);
      FlatAppend(c, [n.buf]);
      FlatOne(n.buf);
      assert n.buf.Payload() == [];
    }

    /** CBufChainImpl::insert at the end of a chain without empty buffers: the last buffer and then
        new ones of at most `capa` octets take the data; room for a tail is left. */
    method Insert(src: seq<Octet>, off: nat, capa: nat, storage: nat)
      requires Valid() && off == size && capa > 0 && storage > HEADROOM + TAILROOM
      requires NoEmpty(View())
      modifies this, nodes
      ensures Valid()
      ensures Flat(View()) == old(Flat(View())) + src
      ensures Limited(old(View()), View(), capa)
    {
      hide Linked, Distinct, Sound, Flat;
      ghost var was := View();
      var b, o := FindEnd(off);
      if b != null {
        NodeAt(|nodes| - 1);
        var ok := SetSize(b, o, |nodes| - 1);
        assert View() == was;
      }
      Fill(b, src, capa, storage);
    }

    /** Skipping the existing data ends at the last buffer, all of which is kept. */
    method FindEnd(off: nat) returns (b: Node?, o: nat)
      requires Valid() && off == size && NoEmpty(View())
      ensures b == tail && (b != null ==> o == b.buf.Size())
    {
      hide Linked, Distinct, Sound, Flat;
      ghost var c := View();
      b, o := head, off;
      ghost var i := 0;
      NotNull();
      assert c[0..] == c;
      while b != null
        invariant 0 <= i <= |nodes| && b == At(nodes, i) && ValidChain(c[i..]) && o == |Flat(c[i..])|
        invariant b == null ==> nodes == []
        decreases |nodes| - i
      {
        NodeAt(i);
        FlatHead(c, i);
        var delta := b.buf.Size();
        if o <= delta {
          NoneBehind(c, i + 1);
          break;
        }
        o := o - delta;
        b := b.next;
        i := i + 1;
      }
    }

    static lemma FlatHead(c: Chain, i: nat)
      requires i < |c| && ValidChain(c[i..]) && c[i].Valid()
      ensures ValidChain(c[i + 1..]) && |Flat(c[i..])| == c[i].Size() + |Flat(c[i + 1..])|
      ensures i + 1 == |c| ==> Flat(c[i + 1..]) == []
    {
      assert c[i..][1..] == c[i + 1..];
    }

    static lemma NoneBehind(c: Chain, i: nat)
      requires i <= |c| && ValidChain(c[i..]) && Flat(c[i..]) == []
      requires NoEmpty(c)
      ensures i == |c|
    {
    }

    /** The copy loop of insert. */
    method Fill(last: Node?, src: seq<Octet>, capa: nat, storage: nat)
      requires Valid() && last == tail && capa > 0 && storage > HEADROOM + TAILROOM
      modifies this, nodes
      ensures Valid()
      ensures Flat(View()) == old(Flat(View())) + src
      ensures Limited(old(View()), View(), capa)
    {
      hide Linked, Distinct, Sound, Flat, Limited;
      ghost var was, old_ := View(), Flat(View());
      var b, left := last, src;
      NothingAdded(was, capa);
      NotNull();
      while left != []
        invariant Valid() && fresh(set n <- nodes | n !in old(nodes)) && Limited(was, View(), capa)
        invariant Flat(View()) + left == old_ + src
        invariant b != null ==> View() == was && nodes != [] && b == nodes[|nodes| - 1]
        decreases |left|
      {
        b, left := FillOne(b, left, capa, storage, was);
      }
    }

    /** One buffer is filled: the old tail if it has room, otherwise a new one. */
    method FillOne(last: Node?, src: seq<Octet>, capa: nat, storage: nat, ghost was: Chain) returns (b: Node?, left: seq<Octet>)
      requires Valid() && src != [] && capa > 0 && storage > HEADROOM + TAILROOM && Limited(was, View(), capa)
      requires last != null ==> View() == was && nodes != [] && last == nodes[|nodes| - 1]
      modifies this, nodes
      ensures Valid() && Limited(was, View(), capa) && b == null && |left| < |src|
      ensures fresh(set n <- nodes | n !in old(nodes))
      ensures Flat(View()) + left == old(Flat(View())) + src
    {
      hide Bufs, Buf.Avail, Linked, Distinct, Sound, Flat, Limited;
      var room: int;
      ghost var c0 := View();
      b := last;
      if b != null {
        NodeAt(|nodes| - 1);
      }
      if b == null || b.buf.Avail() - TAILROOM <= 0 || capa - b.buf.Size() <= 0 {
        b := CreateAtTail(storage);
        room := b.buf.Avail() - TAILROOM;
        if room > capa {
          room := capa;
        }
      } else {
        room := capa - b.buf.Size();
        if b.buf.Avail() - TAILROOM < room {
          room := b.buf.Avail() - TAILROOM;
        }
      }
      var delta := if room > |src| then |src| else room;
      ghost var c1 := View();
      AppendTo(b, src[..delta]);
      left := src[delta..];
      StillLimited(was, c0, c1, b.buf, capa);
      NodeAt(|nodes| - 1);
      b := b.next;
    }

    lemma NotNull()
      requires Valid()
      ensures head == null <==> nodes == []
      ensures tail == null <==> nodes == []
    {
    }

    /** One more buffer at the end. */
    lemma Appended(s: seq<Node>, n: Node, c: Chain)
      requires Distinct(s) && n !in s && Sound(s, this) && n.buf.Valid() && n.chain == this
      requires Bufs(s) == c && ValidChain(c)
      ensures Distinct(s + [n]) && Sound(s + [n], this)
      ensures Bufs(s + [n]) == c + [n.buf] && ValidChain(c + [n.buf])
      ensures Flat(c + [n.buf]) == Flat(c) + n.buf.Payload()
    {
      FlatAppend(c, [n.buf]);
      FlatOne(n.buf);
    }
  }
}

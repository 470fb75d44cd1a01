/** Buffers as values: storage with a payload window, and chains of them read as flat octets
    (src/cpsw_buf.cc). */
module BufChain {
  import opened Octets

  /** The payload is store[beg..end]. */
  datatype Buf = Buf(store: seq<Octet>, beg: nat, end: nat) {
    predicate Valid() {
      beg <= end <= |store|
    }

    function Size(): nat
      requires Valid()
    {
      end - beg
    }

    function Avail(): nat
      requires Valid()
    {
      |store| - end
    }

    function Payload(): (p: seq<Octet>)
      requires Valid()
      ensures |p| == Size()
    {
      store[beg..end]
    }
  }

  type Chain = seq<Buf>

  predicate ValidChain(c: Chain) {
    forall b <- c :: b.Valid()
  }

  function Flat(c: Chain): (f: seq<Octet>)
    requires ValidChain(c)
    decreases |c|
  {
    if c == [] then [] else c[0].Payload() + Flat(c[1..])
  }

  lemma FlatNone()
    ensures Flat([]) == []
  {
  }

  lemma {:induction false} FlatAppend(a: Chain, b: Chain)
    requires ValidChain(a) && ValidChain(b)
    ensures ValidChain(a + b) && Flat(a + b) == Flat(a) + Flat(b)
    decreases |a|
  {
    if a == [] {
      assert a + b == b;
    } else {
      assert (a + b)[1..] == a[1..] + b;
      FlatAppend(a[1..], b);
    }
  }

  lemma FlatOne(b: Buf)
    requires b.Valid()
    ensures Flat([b]) == b.Payload()
  {
  }

  lemma FlatSplit(c: Chain, k: nat)
    requires ValidChain(c) && k <= |c|
    ensures ValidChain(c[..k]) && ValidChain(c[k..]) && Flat(c) == Flat(c[..k]) + Flat(c[k..])
  {
    assert c == c[..k] + c[k..];
    FlatAppend(c[..k], c[k..]);
  }

  /** A changed buffer changes its own stretch of the flat octets. */
  lemma FlatUpdate(c: Chain, k: nat, b: Buf)
    requires ValidChain(c) && k < |c| && b.Valid()
    ensures ValidChain(c[..k]) && ValidChain(c[k + 1..]) && ValidChain(c[k := b])
    ensures Flat(c) == Flat(c[..k]) + c[k].Payload() + Flat(c[k + 1..])
    ensures Flat(c[k := b]) == Flat(c[..k]) + b.Payload() + Flat(c[k + 1..])
  {
    FlatSplit(c, k);
    var d := c[k := b];
    FlatSplit(d, k);
    assert d[..k] == c[..k];
    assert d[k..][1..] == c[k + 1..] == c[k..][1..];
  }

  /** Octets taken off the end of a buffer. */
  lemma Shortened(b: Buf, n: nat)
    requires b.Valid() && n <= b.Size()
    ensures var r := Buf(b.store, b.beg, b.end - n); r.Valid() && r.Payload() == b.Payload()[..b.Size() - n]
  {
    assert b.store[b.beg..b.end][..b.end - n - b.beg] == b.store[b.beg..b.end - n];
  }

  /** Octets taken off the end of the last buffer that has any. */
  lemma FlatShortened(c: Chain, k: nat, n: nat)
    requires ValidChain(c) && k < |c| && c[k].Valid() && n <= c[k].Size()
    requires ValidChain(c[k + 1..]) && Flat(c[k + 1..]) == []
    ensures var b := Buf(c[k].store, c[k].beg, c[k].end - n);
            && b.Valid() && ValidChain(c[k := b]) && n <= |Flat(c)|
            && Flat(c[k := b]) == Flat(c)[..|Flat(c)| - n]
  {
    hide Flat, Buf.Payload;
    var b := Buf(c[k].store, c[k].beg, c[k].end - n);
    Shortened(c[k], n);
    FlatUpdate(c, k, b);
    var x, p := Flat(c[..k]), c[k].Payload();
    assert x + p + [] == x + p;
    assert (x + p)[..|x + p| - n] == x + p[..|p| - n];
    assert x + p[..|p| - n] + [] == x + p[..|p| - n];
  }

  lemma NextFlat(c: Chain, i: nat)
    requires ValidChain(c) && i < |c|
    ensures ValidChain(c[..i]) && ValidChain(c[..i + 1]) && Flat(c[..i + 1]) == Flat(c[..i]) + c[i].Payload()
  {
    assert c[..i + 1] == c[..i] + [c[i]];
    FlatAppend(c[..i], [c[i]]);
    FlatOne(c[i]);
  }

  /** CBufImpl::getSize, summed over the chain (its size_ field). */
  method SizeOf(c: Chain) returns (n: nat)
    requires ValidChain(c)
    ensures n == |Flat(c)|
  {
    n := 0;
    var i := 0;
    while i < |c|
      invariant 0 <= i <= |c| && n + |Flat(c[i..])| == |Flat(c)|
    {
      assert c[i..][1..] == c[i + 1..];
      n := n + c[i].Size();
      i := i + 1;
    }
  }
}

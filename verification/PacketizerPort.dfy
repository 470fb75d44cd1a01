/** CTDestPort2: reassembly of fragments into frames (src/cpsw_proto_mod_tdestmux2.cc). */
module PacketizerPort {
  import opened Wrappers
  import opened CircularIndex
  import opened Octets
  import opened BitField
  import opened PackHeader
  import opened PackHeaderOps
  import opened BufChain
  import opened Packetizer

  /** The trim loop: `strip` octets are removed from the tail, buffer by buffer. */
  method TrimEnd(c: Chain, strip: nat) returns (r: Chain)
    requires ValidChain(c) && strip <= |Flat(c)|
    ensures ValidChain(r) && |r| == |c| && Flat(r) == Flat(c)[..|Flat(c)| - strip]
  {
    r := c;
    var left := strip;
    var t := |c|;
    assert r[..t] == r;
    while left > 0
      invariant 0 <= t <= |c| == |r| && 0 <= left <= strip
      invariant ValidChain(r) && ValidChain(r[..t]) && left <= |Flat(r[..t])|
      invariant |Flat(r)| - left == |Flat(c)| - strip
      invariant Flat(r)[..|Flat(c)| - strip] == Flat(c)[..|Flat(c)| - strip]
      invariant left > 0 ==> Flat(r) == Flat(r[..t])
      decreases left, t
    {
      t := t - 1;
      var b := r[t];
      var l := if left > b.Size() then b.Size() else left;
      var b' := Buf(b.store, b.beg, b.end - l);
      assert b in r;
      TrimOne(r, t, b', l, left);
      r := r[t := b'];
      left := left - l;
    }
  }

  /** Everything behind buffer t is empty already. */
  lemma TrimOne(c: Chain, t: nat, b': Buf, l: nat, left: nat)
    requires ValidChain(c) && t < |c| && ValidChain(c[..t + 1]) && Flat(c) == Flat(c[..t + 1])
    requires l == (if left > c[t].Size() then c[t].Size() else left) && left <= |Flat(c)|
    requires c[t].Valid() && b' == Buf(c[t].store, c[t].beg, c[t].end - l)
    ensures b'.Valid() && ValidChain(c[t := b']) && ValidChain(c[t := b'][..t])
    ensures Flat(c[t := b']) == Flat(c)[..|Flat(c)| - l]
    ensures left > l ==> Flat(c[t := b']) == Flat(c[t := b'][..t])
    ensures left - l <= |Flat(c[t := b'][..t])|
  {
    hide Flat, Buf.Payload;
    var d := c[t := b'];
    FlatSplit(c, t);
    FlatSplit(c, t + 1);
    NextFlat(c, t);
    FlatShortened(c, t, l);
    assert d[..t] == c[..t];
    assert left > l ==> l == c[t].Size();
  }

  method CopyOut(s: seq<Octet>) returns (a: array<Octet>)
    ensures fresh(a) && a[..] == s
  {
    a := new Octet[|s|](i requires 0 <= i < |s| => s[i]);
  }

  /** Header and tail each lie within one buffer. */
  predicate Contiguous(c: Chain) {
    ValidChain(c) && c != [] && c[0].Size() >= HEADER_SIZE && c[|c| - 1].Size() >= TAIL_SIZE
  }

  /** A trimmed chain, what its header and tail said; None if they make no sense. */
  datatype Fragment = Fragment(body: Chain, fragNo: nat, sof: bool, eof: bool)

  /** adjPayload( getSize() ) on the head buffer. */
  function DropHeader(c: Chain): Chain
    requires c != []
  {
    c[0 := Buf(c[0].store, c[0].beg + HEADER_SIZE, c[0].end)]
  }

  lemma FlatDropHeader(c: Chain)
    requires Contiguous(c)
    ensures ValidChain(DropHeader(c)) && |Flat(c)| >= HEADER_SIZE && Flat(DropHeader(c)) == Flat(c)[HEADER_SIZE..]
    ensures Flat(c)[..HEADER_SIZE] == c[0].Payload()[..HEADER_SIZE]
  {
    var b := Buf(c[0].store, c[0].beg + HEADER_SIZE, c[0].end);
    var d := DropHeader(c);
    assert d[0] == b && d[1..] == c[1..];
    assert c[0] in c;
    assert b.Valid();
    PrefixOf(c[0].Payload(), Flat(c[1..]));
    assert b.Payload() == c[0].Payload()[HEADER_SIZE..];
  }

  lemma PrefixOf(p: seq<Octet>, y: seq<Octet>)
    requires |p| >= HEADER_SIZE
    ensures (p + y)[..HEADER_SIZE] == p[..HEADER_SIZE] && (p + y)[HEADER_SIZE..] == p[HEADER_SIZE..] + y
  {
  }

  lemma FlatTail(c: Chain)
    requires Contiguous(c) && |Flat(c)| >= HEADER_SIZE + TAIL_SIZE
    ensures TailOf(Flat(c)) == c[|c| - 1].Payload()[c[|c| - 1].Size() - TAIL_SIZE..]
  {
    hide Flat, Buf.Payload;
    var k := |c| - 1;
    LastFlat(c);
    SuffixOf(Flat(c[..k]), c[k].Payload());
  }

  /** The last buffer's octets come last. */
  lemma LastFlat(c: Chain)
    requires ValidChain(c) && c != []
    ensures c[|c| - 1].Valid() && Flat(c) == Flat(c[..|c| - 1]) + c[|c| - 1].Payload()
  {
    hide Flat, Buf.Payload;
    var k := |c| - 1;
    assert c[k] in c;
    assert c[..k] + [c[k]] == c;
    FlatAppend(c[..k], [c[k]]);
    FlatOne(c[k]);
  }

  lemma SuffixOf(x: seq<Octet>, p: seq<Octet>)
    requires |p| >= TAIL_SIZE
    ensures (x + p)[|x + p| - TAIL_SIZE..] == p[|p| - TAIL_SIZE..]
  {
  }

  /** The checks and the trimming of pushDownstream. */
  method Unwrap(c: Chain) returns (r: Option<Fragment>)
    requires Contiguous(c)
    ensures var f := Flat(c);
            match r
            case None => Parse2(f).None? || |f| < HEADER_SIZE + TAIL_SIZE || Trimmed(f).None?
            case Some(g) =>
              && |f| >= HEADER_SIZE + TAIL_SIZE && Parse2(f).Some? && g.fragNo == Parse2(f).value.fragNo
              && ValidChain(g.body) && g.body != [] && Trimmed(f) == Some(Flat(g.body))
              && g.sof == IsFirst(f) && g.eof == TailEOF(TailOf(f))
  {
    hide Parse2, IsFirst, GetField, TailEOF, Flat;
    ghost var f := Flat(c);
    FlatDropHeader(c);
    ParsePrefix(f);
    ParsePrefix(c[0].Payload());
    var hdr := CopyOut(c[0].Payload());
    var h := ParseV2(hdr);
    var size := SizeOf(c);
    if h.None? || size < HEADER_SIZE + TAIL_SIZE {
      return None;
    }
    FlatTail(c);
    var t := c[|c| - 1].Payload();
    var lanes := NumLanes(t[|t| - TAIL_SIZE..]);
    if lanes.None? {
      return None;
    }
    var strip := 2 * TAIL_SIZE - lanes.value;
    if size - HEADER_SIZE < strip {
      return None;
    }
    var body := TrimEnd(DropHeader(c), strip);
    assert f[HEADER_SIZE..][..|f| - HEADER_SIZE - strip] == f[HEADER_SIZE..|f| - strip];
    return Some(Fragment(body, h.value.fragNo, IsFirst(c[0].Payload()), TailEOF(t[|t| - TAIL_SIZE..])));
  }

  class Port {
    var assembleBuffer: Option<Chain>
    var fragNo: Word
    var badHeaders: nat
    var nonSequential: nat
    var goodFragments: nat
    var goodFrames: nat

    ghost predicate Valid()
      reads `assembleBuffer
    {
      assembleBuffer.Some? ==> ValidChain(assembleBuffer.value)
    }

    ghost function View(): RxState
      requires Valid()
      reads `assembleBuffer, `fragNo
    {
      RxState(if assembleBuffer.None? then None else Some(Flat(assembleBuffer.value)), fragNo)
    }

    constructor (anyFragNo: Word)
      ensures Valid() && View() == RxState(None, anyFragNo)
      ensures badHeaders == nonSequential == goodFragments == goodFrames == 0
    {
      assembleBuffer, fragNo := None, anyFragNo;
      badHeaders, nonSequential, goodFragments, goodFrames := 0, 0, 0, 0;
    }

    /** The remaining buffers follow those of the frame. */
    method Append(body: Chain)
      requires Valid() && assembleBuffer.Some? && ValidChain(body)
      modifies `assembleBuffer
      ensures Valid() && assembleBuffer.Some?
      ensures Flat(assembleBuffer.value) == Flat(old(assembleBuffer).value) + Flat(body)
    {
      var a, b := assembleBuffer.value, body;
      while b != []
        invariant ValidChain(a) && ValidChain(b)
        invariant Flat(a) + Flat(b) == Flat(old(assembleBuffer).value) + Flat(body)
        decreases |b|
      {
        FlatAppend(a, [b[0]]);
        FlatOne(b[0]);
        assert Flat(a) + (b[0].Payload() + Flat(b[1..])) == (Flat(a) + b[0].Payload()) + Flat(b[1..]);
        a, b := a + [b[0]], b[1..];
      }
      assembleBuffer := Some(a);
    }

    /** A complete frame leaves the port. */
    method PushDownstream(c: Chain) returns (frame: Option<Chain>)
      requires Valid() && Contiguous(c)
      modifies this
      ensures Valid()
      ensures View() == Receive(old(View()), Flat(c)).0
      ensures match Receive(old(View()), Flat(c)).1
              case Absorbed => frame.None? && Counts(1, 0, 0, 0)
              case Frame(data) => frame.Some? && ValidChain(frame.value) && Flat(frame.value) == data && Counts(1, 1, 0, 0)
              case BadHeader => frame.None? && Counts(0, 0, 1, 0)
              case NonSequential => frame.None? && Counts(0, 0, 0, 1)
    {
      hide Parse2, IsFirst, TailEOF, Trimmed, Flat, Contiguous;
      var u := Unwrap(c);
      if u.None? {
        badHeaders := badHeaders + 1;
        return None;
      }
      var g := u.value;
      if g.sof {
        assembleBuffer := Some(g.body);
        fragNo := 0;
      } else {
        var gap := assembleBuffer.None?;
        if !gap {
          fragNo := Inc(fragNo);
          gap := fragNo % 0x1_0000 != g.fragNo;
        }
        if gap {
          nonSequential := nonSequential + 1;
          assembleBuffer := None;
          return None;
        }
        Append(g.body);
      }
      goodFragments := goodFragments + 1;
      if g.eof {
        goodFrames := goodFrames + 1;
        frame := assembleBuffer;
        assembleBuffer := None;
        return frame;
      }
      return None;
    }

    twostate predicate Counts(fragments: nat, frames: nat, bad: nat, gaps: nat)
      reads this
    {
      && goodFragments == old(goodFragments) + fragments && goodFrames == old(goodFrames) + frames
      && badHeaders == old(badHeaders) + bad && nonSequential == old(nonSequential) + gaps
    }
  }
}

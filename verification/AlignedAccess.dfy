/** Memory that only takes whole aligned words (src/cpsw_aligned_mmio.h).

    `t` is the word size; the program uses 2, 4 and 8 octets. Words are addressed by the address of
    their first octet. */
module AlignedAccess {
  import opened CircularIndex
  import opened Octets
  import opened ByteMemory

  predicate Aligned(a: nat, t: nat)
    requires t > 0
  {
    a % t == 0
  }

  /** x & (t - 1) */
  function Offset(x: nat, t: nat): (r: nat)
    requires t > 0
    ensures r < t && r <= x && Aligned(x - r, t)
  {
    RoundDown(x, t);
    x % t
  }

  lemma RoundDown(x: nat, t: nat)
    requires t > 0
    ensures 0 <= x % t <= x && (x - x % t) % t == 0
  {
    DivModUnique(x - x % t, t, x / t, 0);
  }

  predicate IsWord(t: nat, a: nat, size: nat) {
    t > 0 && Aligned(a, t) && a + t <= size
  }

  /** The words that have been accessed so far, each an aligned one that holds an octet from `lo` up
      to `hi`. */
  ghost predicate Within(log: seq<nat>, t: nat, lo: nat, hi: nat, size: nat) {
    forall a <- log :: IsWord(t, a, size) && a < hi && lo < a + t
  }

  lemma NoneLogged(t: nat, lo: nat, hi: nat, size: nat)
    ensures Within([], t, lo, hi, size)
  {
  }

  lemma Logged(log: seq<nat>, a: nat, t: nat, lo: nat, hi: nat, size: nat)
    requires Within(log, t, lo, hi, size) && IsWord(t, a, size) && a < hi && lo < a + t
    ensures Within(log + [a], t, lo, hi, size)
  {
  }

  /** An aligned read. */
  function LoadWord(m: seq<Octet>, t: nat, a: nat): (w: seq<Octet>)
    requires IsWord(t, a, |m|)
    ensures |w| == t
  {
    m[a..a + t]
  }

  /** An aligned write. */
  method StoreWord(mem: array<Octet>, t: nat, a: nat, w: seq<Octet>, ghost log: seq<nat>) returns (ghost log': seq<nat>)
    requires IsWord(t, a, mem.Length) && |w| == t
    modifies mem
    ensures log' == log + [a]
    ensures forall k :: a <= k < a + t ==> mem[k] == w[k - a]
    ensures forall k :: 0 <= k < mem.Length && !(a <= k < a + t) ==> mem[k] == old(mem[k])
  {
    Copy(mem, a, w);
    log' := log + [a];
  }

  lemma NextWord(a: nat, t: nat)
    requires t > 0 && Aligned(a, t)
    ensures Aligned(a + t, t)
  {
    ModShift(a, 1, t);
  }

  /** Different word addresses are at least a word apart. */
  lemma WordsApart(a: nat, b: nat, t: nat)
    requires t > 0 && Aligned(a, t) && Aligned(b, t)
    ensures a < b ==> a + t <= b
  {
    var d := b / t - a / t;
    assert b - a == t * d by {
      assert b == t * (b / t) && a == t * (a / t);
    }
    if a < b && d >= 1 {
      MulAtLeast(t, d);
    }
  }

  // ----- read

  /** `dst` holds what is requested from `lo` to `hi`. */
  ghost predicate Got(dst: seq<Octet>, m: seq<Octet>, src: nat, lo: nat, hi: nat) {
    forall k :: lo <= k < hi && k < |dst| && src + k < |m| ==> dst[k] == m[src + k]
  }

  lemma AllGot(dst: seq<Octet>, m: seq<Octet>, src: nat, n: nat)
    requires Got(dst, m, src, 0, n) && n <= |dst| && src + n <= |m|
    ensures dst[..n] == m[src..src + n]
  {
  }

  /** Octets i .. j of the word at `a` arrive at their place. */
  method ReadPart(dst: array<Octet>, m: seq<Octet>, t: nat, src: nat, a: nat, i: nat, j: nat, ghost n: nat, ghost log: seq<nat>)
    returns (ghost log': seq<nat>)
    requires IsWord(t, a, |m|) && i < j <= t && src <= a + i && a + j <= src + n && n <= dst.Length
    requires Within(log, t, src, src + n, |m|)
    modifies dst
    ensures Within(log', t, src, src + n, |m|) && log' == log + [a]
    ensures Got(dst[..], m, src, a + i - src, a + j - src)
    ensures forall k :: 0 <= k < dst.Length && !(a + i - src <= k < a + j - src) ==> dst[k] == old(dst[k])
  {
    hide Aligned, Within;
    Logged(log, a, t, src, src + n, |m|);
    var w := LoadWord(m, t, a)[i..j];
    Copy(dst, a + i - src, w);
    log' := log + [a];
    forall k | a + i - src <= k < a + j - src ensures dst[..][k] == m[src + k] {
      assert dst[k] == w[k - (a + i - src)] == m[a + i + (k - (a + i - src))];
    }
  }

  /** The loop over whole words. */
  method ReadWords(dst: array<Octet>, m: seq<Octet>, t: nat, src: nat, first: nat, end: nat, ghost n: nat, ghost log: seq<nat>)
    returns (ghost log': seq<nat>)
    requires t > 0 && Aligned(first, t) && Aligned(end, t) && src <= first <= end <= src + n && end <= |m| && n <= dst.Length
    requires Within(log, t, src, src + n, |m|)
    modifies dst
    ensures Within(log', t, src, src + n, |m|)
    ensures Got(dst[..], m, src, first - src, end - src)
    ensures forall k :: 0 <= k < dst.Length && !(first - src <= k < end - src) ==> dst[k] == old(dst[k])
  {
    hide Aligned;
    var wad0 := first;
    log' := log;
    while wad0 < end
      invariant Aligned(wad0, t) && first <= wad0 <= end && Within(log', t, src, src + n, |m|)
      invariant Got(dst[..], m, src, first - src, wad0 - src)
      invariant forall k :: 0 <= k < dst.Length && !(first - src <= k < wad0 - src) ==> dst[k] == old(dst[k])
      decreases end - wad0
    {
      WordsApart(wad0, end, t);
      log' := ReadPart(dst, m, t, src, wad0, 0, t, n, log');
      NextWord(wad0, t);
      wad0 := wad0 + t;
    }
  }

  /** cpsw_read_aligned: like a byte copy, with aligned reads of only those words that hold a
      requested octet. */
  method ReadAligned(dst: array<Octet>, m: seq<Octet>, t: nat, src: nat, n: nat) returns (got: nat, ghost log: seq<nat>)
    requires t > 0 && Aligned(|m|, t) && src + n <= |m| && n <= dst.Length
    modifies dst
    ensures got == n && Within(log, t, src, src + n, |m|)
    ensures dst[..n] == m[src..src + n]
    ensures forall k :: n <= k < dst.Length ==> dst[k] == old(dst[k])
  {
    hide Aligned, Offset, Within;
    got, log := n, [];
    NoneLogged(t, src, src + n, |m|);
    if n == 0 {
      return;
    }
    var off0, offN := Offset(src, t), Offset(src + n, t);
    var wad0, wadN := src - off0, src + n - offN;
    WordsApart(wad0, |m|, t);
    WordsApart(wadN, |m|, t);
    WordsApart(wad0, wadN, t);
    WordsApart(wadN, wad0, t);
    if off0 != 0 {
      if offN != 0 {
        if wad0 == wadN {
          log := ReadPart(dst, m, t, src, wad0, off0, offN, n, log);
          AllGot(dst[..], m, src, n);
          return;
        }
        log := ReadPart(dst, m, t, src, wadN, 0, offN, n, log);
      }
      log := ReadPart(dst, m, t, src, wad0, off0, t, n, log);
      NextWord(wad0, t);
      wad0 := wad0 + t;
    } else if offN != 0 {
      log := ReadPart(dst, m, t, src, wadN, 0, offN, n, log);
    }
    log := ReadWords(dst, m, t, src, wad0, wadN, n, log);
    AllGot(dst[..], m, src, n);
  }

  // ----- write

  /** memcpy into a word. */
  function CopyInto(w: seq<Octet>, off: nat, s: seq<Octet>): (r: seq<Octet>)
    requires off + |s| <= |w|
    ensures |r| == |w|
    ensures forall k :: 0 <= k < |w| ==> r[k] == if off <= k < off + |s| then s[k - off] else w[k]
  {
    w[..off] + s + w[off + |s|..]
  }

  /** The word with the first octets of the data, merged at the first octet. */
  method FirstWord(w: seq<Octet>, off0: nat, src: seq<Octet>, m1: Octet, mN: Octet, ghost old_: seq<Octet>) returns (r: seq<Octet>)
    requires off0 < |w| && src != [] && |old_| == |src| && |w| - off0 <= |src| && |src| > 1
    requires forall k :: 0 <= k < |w| - off0 ==> w[off0 + k] == old_[k]
    requires |src| > |w| - off0
    ensures |r| == |w| && r[..off0] == w[..off0]
    ensures forall k :: off0 <= k < |w| ==> r[k] == MaskedCopy(old_, src, m1, mN)[k - off0]
  {
    hide Merge, MaskedCopy;
    var l := |w| - off0;
    r := CopyInto(w[off0 := Merge(w[off0], src[0], m1)], off0 + 1, src[1..l]);
    forall k | off0 <= k < |w|
      ensures r[k] == MaskedCopy(old_, src, m1, mN)[k - off0]
    {
      MaskedCopyAt(old_, src, m1, mN, k - off0);
    }
  }

  /** The word with the last octets, merged at the last one. */
  method LastWord(w: seq<Octet>, offN: nat, src: seq<Octet>, m1: Octet, mN: Octet, ghost old_: seq<Octet>) returns (r: seq<Octet>)
    requires offN < |w| && |old_| == |src| && offN + 1 < |src|
    requires forall k :: 0 <= k <= offN ==> w[k] == old_[|src| - 1 - offN + k]
    ensures |r| == |w| && r[offN + 1..] == w[offN + 1..]
    ensures forall k :: 0 <= k <= offN ==> r[k] == MaskedCopy(old_, src, m1, mN)[|src| - 1 - offN + k]
  {
    hide Merge, MaskedCopy;
    var n := |src|;
    r := CopyInto(w[offN := Merge(w[offN], src[n - 1], mN)], 0, src[n - 1 - offN..n - 1]);
    forall k | 0 <= k <= offN
      ensures r[k] == MaskedCopy(old_, src, m1, mN)[n - 1 - offN + k]
    {
      MaskedCopyAt(old_, src, m1, mN, n - 1 - offN + k);
    }
  }

  /** All octets in one word. */
  method OnlyWord(w: seq<Octet>, off0: nat, src: seq<Octet>, m1: Octet, mN: Octet, ghost old_: seq<Octet>) returns (r: seq<Octet>)
    requires src != [] && off0 + |src| <= |w| && |old_| == |src|
    requires forall k :: off0 <= k < off0 + |src| ==> w[k] == old_[k - off0]
    ensures |r| == |w|
    ensures forall k :: off0 <= k < off0 + |src| ==> r[k] == MaskedCopy(old_, src, m1, mN)[k - off0]
    ensures forall k :: 0 <= k < |w| && !(off0 <= k < off0 + |src|) ==> r[k] == w[k]
  {
    hide Merge, MaskedCopy;
    var n := |src|;
    var msk1 := if n == 1 then m1 | mN else m1;
    r := w[off0 := Merge(w[off0], src[0], msk1)];
    if n > 1 {
      var offN := off0 + n - 1;
      r := r[offN := Merge(r[offN], src[offN - off0], mN)];
      r := CopyInto(r, off0 + 1, src[1..n - 1]);
    }
    forall k | off0 <= k < off0 + n
      ensures r[k] == MaskedCopy(old_, src, m1, mN)[k - off0]
    {
      MaskedCopyAt(old_, src, m1, mN, k - off0);
    }
  }

  /** The loop over the words between the first and the last one. */
  method WriteWords(mem: array<Octet>, t: nat, first: nat, end: nat, src: seq<Octet>, ghost lo: nat, ghost hi: nat, ghost log: seq<nat>)
    returns (ghost log': seq<nat>)
    requires t > 0 && Aligned(first, t) && Aligned(end, t) && first <= end <= mem.Length && |src| == end - first
    requires lo < first + t && end <= hi && Within(log, t, lo, hi, mem.Length)
    modifies mem
    ensures Within(log', t, lo, hi, mem.Length)
    ensures forall k :: first <= k < end ==> mem[k] == src[k - first]
    ensures forall k :: 0 <= k < mem.Length && !(first <= k < end) ==> mem[k] == old(mem[k])
  {
    hide Aligned;
    var wad0, s := first, 0;
    log' := log;
    while wad0 < end
      invariant Aligned(wad0, t) && first <= wad0 <= end && s == wad0 - first
      invariant Within(log', t, lo, hi, mem.Length)
      invariant forall k :: first <= k < wad0 ==> mem[k] == src[k - first]
      invariant forall k :: 0 <= k < mem.Length && !(first <= k < wad0) ==> mem[k] == old(mem[k])
      decreases end - wad0
    {
      WordsApart(wad0, end, t);
      Logged(log', wad0, t, lo, hi, mem.Length);
      log' := StoreWord(mem, t, wad0, src[s..s + t], log');
      NextWord(wad0, t);
      wad0 := wad0 + t;
      s := s + t;
    }
  }

  /** cpsw_write_aligned leaves memory as the byte-wise masked write does. */
  method WriteAligned(mem: array<Octet>, t: nat, dst: nat, src: seq<Octet>, msk1: Octet, mskN: Octet)
    returns (n: nat, ghost log: seq<nat>)
    requires t > 0 && Aligned(mem.Length, t) && dst + |src| <= mem.Length
    modifies mem
    ensures n == |src| && Within(log, t, dst, dst + |src|, mem.Length)
    ensures mem[dst..dst + |src|] == MaskedCopy(old(mem[dst..dst + |src|]), src, msk1, mskN)
    ensures forall k :: 0 <= k < mem.Length && !(dst <= k < dst + |src|) ==> mem[k] == old(mem[k])
  {
    hide Aligned, Offset, MaskedCopy, Merge, Within;
    n, log := |src|, [];
    NoneLogged(t, dst, dst + n, mem.Length);
    if n == 0 {
      assert mem[dst..dst] == [];
      return;
    }
    var off0, offN := Offset(dst, t), Offset(dst + n - 1, t);
    var wad0, wadN := dst - off0, dst + n - 1 - offN;
    WordsApart(wad0, mem.Length, t);
    WordsApart(wadN, mem.Length, t);
    WordsApart(wad0, wadN, t);
    WordsApart(wadN, wad0, t);
    if wad0 == wadN {
      log := OneWord(mem, t, dst, src, msk1, mskN, wad0);
      return;
    }
    log := ManyWords(mem, t, dst, src, msk1, mskN, wad0, wadN);
  }

  method OneWord(mem: array<Octet>, t: nat, dst: nat, src: seq<Octet>, msk1: Octet, mskN: Octet, wad0: nat)
    returns (ghost log: seq<nat>)
    requires IsWord(t, wad0, mem.Length) && src != [] && wad0 <= dst && dst + |src| <= wad0 + t
    modifies mem
    ensures Within(log, t, dst, dst + |src|, mem.Length)
    ensures mem[dst..dst + |src|] == MaskedCopy(old(mem[dst..dst + |src|]), src, msk1, mskN)
    ensures forall k :: 0 <= k < mem.Length && !(dst <= k < dst + |src|) ==> mem[k] == old(mem[k])
  {
    hide Aligned, MaskedCopy, Within;
    ghost var m0, was := mem[..], mem[dst..dst + |src|];
    NoneLogged(t, dst, dst + |src|, mem.Length);
    Logged([], wad0, t, dst, dst + |src|, mem.Length);
    Logged([] + [wad0], wad0, t, dst, dst + |src|, mem.Length);
    var off0, w := dst - wad0, LoadWord(mem[..], t, wad0);
    LoadedPart(m0, w, t, wad0, off0, was);
    var buf0 := OnlyWord(w, off0, src, msk1, mskN, was);
    log := StoreWord(mem, t, wad0, buf0, [] + [wad0]);
    StoredPart(m0, mem[..], w, buf0, t, wad0, off0, MaskedCopy(was, src, msk1, mskN));
    assert mem[dst..dst + |src|] == mem[..][dst..dst + |src|];
  }

  lemma LoadedPart(m: seq<Octet>, w: seq<Octet>, t: nat, a: nat, off: nat, was: seq<Octet>)
    requires a + t <= |m| && w == m[a..a + t] && off + |was| <= t && was == m[a + off..a + off + |was|]
    ensures forall k :: off <= k < off + |was| ==> w[k] == was[k - off]
  {
    forall k | off <= k < off + |was| ensures w[k] == was[k - off] {
      assert m[a + k] == m[a + off + (k - off)];
    }
  }

  /** A word of which only a part has been changed is stored. */
  lemma StoredPart(m: seq<Octet>, m': seq<Octet>, w: seq<Octet>, b: seq<Octet>, t: nat, a: nat, off: nat, want: seq<Octet>)
    requires a + t <= |m| == |m'| && w == m[a..a + t] && |b| == t && off + |want| <= t
    requires forall k :: off <= k < off + |want| ==> b[k] == want[k - off]
    requires forall k :: 0 <= k < t && !(off <= k < off + |want|) ==> b[k] == w[k]
    requires forall k :: a <= k < a + t ==> m'[k] == b[k - a]
    requires forall k :: 0 <= k < |m| && !(a <= k < a + t) ==> m'[k] == m[k]
    ensures m'[a + off..a + off + |want|] == want
    ensures forall k :: 0 <= k < |m| && !(a + off <= k < a + off + |want|) ==> m'[k] == m[k]
  {
    forall j | 0 <= j < |want| ensures m'[a + off + j] == want[j] {
      assert b[off + j] == want[off + j - off];
    }
    forall k | 0 <= k < |m| && !(a + off <= k < a + off + |want|) ensures m'[k] == m[k] {
      if a <= k < a + t {
        assert b[k - a] == w[k - a];
      }
    }
  }

  method ManyWords(mem: array<Octet>, t: nat, dst: nat, src: seq<Octet>, msk1: Octet, mskN: Octet, wad0: nat, wadN: nat)
    returns (ghost log: seq<nat>)
    requires t > 0 && dst + |src| <= mem.Length && Aligned(wad0, t) && Aligned(wadN, t) && wad0 + t <= wadN
    requires wad0 <= dst < wad0 + t && wadN < dst + |src| <= wadN + t <= mem.Length
    modifies mem
    ensures Within(log, t, dst, dst + |src|, mem.Length)
    ensures mem[dst..dst + |src|] == MaskedCopy(old(mem[dst..dst + |src|]), src, msk1, mskN)
    ensures forall k :: 0 <= k < mem.Length && !(dst <= k < dst + |src|) ==> mem[k] == old(mem[k])
  {
    hide Aligned, MaskedCopy, Within;
    var n, off0 := |src|, dst - wad0;
    var offN := dst + n - 1 - wadN;
    ghost var m0, was := mem[..], mem[dst..dst + n];
    NoneLogged(t, wad0 + off0, dst + n, mem.Length);
    log := StoreFirst(mem, t, wad0, off0, src, msk1, mskN, was, [], dst + n);
    ghost var m1 := mem[..];
    LastPart(m0, m1, dst, n, wadN);
    log := StoreLast(mem, t, wadN, offN, src, msk1, mskN, was, log, dst);
    ghost var m2 := mem[..];
    NextWord(wad0, t);
    log := WriteWords(mem, t, wad0 + t, wadN, src[t - off0..n - 1 - offN], dst, dst + n, log);
    Middle(was, src, msk1, mskN);
    ThreeParts(m0, m1, m2, mem[..], dst, wad0 + t, wadN, src, MaskedCopy(was, src, msk1, mskN));
    assert mem[dst..dst + n] == mem[..][dst..dst + n];
  }

  lemma LastPart(m: seq<Octet>, m': seq<Octet>, dst: nat, n: nat, mid: nat)
    requires dst <= mid <= dst + n <= |m| == |m'| && forall k :: mid <= k < |m| ==> m'[k] == m[k]
    ensures m'[mid..dst + n] == m[dst..dst + n][mid - dst..]
  {
  }

  /** First word, last word, and what lies between them. */
  lemma ThreeParts(m0: seq<Octet>, m1: seq<Octet>, m2: seq<Octet>, m3: seq<Octet>, dst: nat, e: nat, b: nat, src: seq<Octet>, want: seq<Octet>)
    requires |m0| == |m1| == |m2| == |m3| && |want| == |src| && dst < e <= b < dst + |src| <= |m0|
    requires forall k :: dst <= k < e ==> m1[k] == want[k - dst]
    requires forall k :: 0 <= k < |m0| && !(dst <= k < e) ==> m1[k] == m0[k]
    requires forall k :: b <= k < dst + |src| ==> m2[k] == want[k - dst]
    requires forall k :: 0 <= k < |m0| && !(b <= k < dst + |src|) ==> m2[k] == m1[k]
    requires forall k :: e <= k < b ==> m3[k] == src[k - dst]
    requires forall k :: 0 <= k < |m0| && !(e <= k < b) ==> m3[k] == m2[k]
    requires forall k :: 0 < k < |src| - 1 ==> want[k] == src[k]
    ensures m3[dst..dst + |src|] == want
    ensures forall k :: 0 <= k < |m0| && !(dst <= k < dst + |src|) ==> m3[k] == m0[k]
  {
    forall j | 0 <= j < |want| ensures m3[dst + j] == want[j] {
      if e <= dst + j < b {
        assert m3[dst + j] == src[j] == want[j];
      } else {
        assert m3[dst + j] == m2[dst + j] == want[dst + j - dst];
      }
    }
  }

  method StoreFirst(mem: array<Octet>, t: nat, wad0: nat, off0: nat, src: seq<Octet>, msk1: Octet, mskN: Octet,
                    ghost was: seq<Octet>, ghost log: seq<nat>, ghost hi: nat)
    returns (ghost log': seq<nat>)
    requires wad0 < hi && Within(log, t, wad0 + off0, hi, mem.Length)
    requires IsWord(t, wad0, mem.Length) && off0 < t && |was| == |src| > t - off0
    requires wad0 + off0 + |src| <= mem.Length && mem[wad0 + off0..wad0 + off0 + |src|] == was
    modifies mem
    ensures Within(log', t, wad0 + off0, hi, mem.Length)
    ensures forall k :: wad0 + off0 <= k < wad0 + t ==> mem[k] == MaskedCopy(was, src, msk1, mskN)[k - wad0 - off0]
    ensures forall k :: 0 <= k < mem.Length && !(wad0 + off0 <= k < wad0 + t) ==> mem[k] == old(mem[k])
  {
    hide Aligned, MaskedCopy, Within;
    var w := LoadWord(mem[..], t, wad0);
    forall k | 0 <= k < t - off0 ensures w[off0 + k] == was[k] {
      assert was[k] == mem[wad0 + off0 + k];
    }
    var buf0 := FirstWord(w, off0, src, msk1, mskN, was);
    Logged(log, wad0, t, wad0 + off0, hi, mem.Length);
    Logged(log + [wad0], wad0, t, wad0 + off0, hi, mem.Length);
    log' := StoreWord(mem, t, wad0, buf0, log + [wad0]);
    forall k | wad0 <= k < wad0 + off0 ensures mem[k] == old(mem[k]) {
      assert buf0[..off0][k - wad0] == w[..off0][k - wad0];
    }
  }

  method StoreLast(mem: array<Octet>, t: nat, wadN: nat, offN: nat, src: seq<Octet>, msk1: Octet, mskN: Octet,
                   ghost was: seq<Octet>, ghost log: seq<nat>, ghost lo: nat)
    returns (ghost log': seq<nat>)
    requires lo < wadN && Within(log, t, lo, wadN + offN + 1, mem.Length)
    requires IsWord(t, wadN, mem.Length) && offN < t && offN + 1 < |was| == |src|
    requires mem[wadN..wadN + offN + 1] == was[|src| - 1 - offN..]
    modifies mem
    ensures Within(log', t, lo, wadN + offN + 1, mem.Length)
    ensures forall k :: wadN <= k <= wadN + offN ==> mem[k] == MaskedCopy(was, src, msk1, mskN)[|src| - 1 - offN + k - wadN]
    ensures forall k :: 0 <= k < mem.Length && !(wadN <= k <= wadN + offN) ==> mem[k] == old(mem[k])
  {
    hide Aligned, MaskedCopy, Within;
    var w := LoadWord(mem[..], t, wadN);
    forall k | 0 <= k <= offN ensures w[k] == was[|src| - 1 - offN + k] {
      assert mem[wadN..wadN + offN + 1][k] == was[|src| - 1 - offN..][k];
    }
    var bufN := LastWord(w, offN, src, msk1, mskN, was);
    Logged(log, wadN, t, lo, wadN + offN + 1, mem.Length);
    Logged(log + [wadN], wadN, t, lo, wadN + offN + 1, mem.Length);
    log' := StoreWord(mem, t, wadN, bufN, log + [wadN]);
    forall k | wadN + offN < k < wadN + t ensures mem[k] == old(mem[k]) {
      assert bufN[offN + 1..][k - wadN - offN - 1] == w[offN + 1..][k - wadN - offN - 1];
    }
  }

  /** Away from the edges the source is copied. */
  lemma Middle(was: seq<Octet>, src: seq<Octet>, msk1: Octet, mskN: Octet)
    requires |was| == |src|
    ensures forall k :: 0 < k < |src| - 1 ==> MaskedCopy(was, src, msk1, mskN)[k] == src[k]
  {
    hide Merge, MaskedCopy;
    forall k | 0 < k < |src| - 1 ensures MaskedCopy(was, src, msk1, mskN)[k] == src[k] {
      MaskedCopyAt(was, src, msk1, mskN, k);
    }
  }
}

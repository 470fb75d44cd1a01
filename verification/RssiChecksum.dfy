/** The header checksum of RSSI (src/cpsw_rssi_proto.h): the one's complement sum of 16-bit words
    of section 1 of RFC 1071. */
module RssiChecksum {
  import opened CircularIndex
  import opened RssiSegments

  type Half = n: nat | n < 0x1_0000

  /** ld16be */
  function Ld16(s: seq<Byte>, off: nat): Half
    requires off + 2 <= |s|
  {
    var hi: nat := s[off];
    hi * 256 + s[off + 1]
  }

  /** st16be */
  function St16(s: seq<Byte>, off: nat, v: Half): (r: seq<Byte>)
    requires off + 2 <= |s|
    ensures |r| == |s|
  {
    s[off := v / 256][off + 1 := v % 256]
  }

  /** The sum of the first n words. */
  function Sum(s: seq<Byte>, n: nat): (r: nat)
    requires 2 * n <= |s|
    ensures r <= n * 0xffff
  {
    if n == 0 then 0 else Sum(s, n - 1) + Ld16(s, 2 * (n - 1))
  }

  /** Carries are added back until the sum has 16 bits. */
  function Folded(c: nat): (r: nat)
    ensures r <= 0xffff
    decreases c
  {
    if c <= 0xffff then c else Folded(c % 0x1_0000 + c / 0x1_0000)
  }

  function CheckSum(s: seq<Byte>, n: nat): Half
    requires 2 * n <= |s|
  {
    0xffff - Folded(Sum(s, n))
  }

  /** Folding keeps the value modulo 2^16 - 1, and only zero folds to zero. */
  lemma {:induction false} FoldedMod(c: nat)
    ensures Folded(c) % 0xffff == c % 0xffff
    ensures Folded(c) == 0 <==> c == 0
    decreases c
  {
    if c > 0xffff {
      var hi, lo := c / 0x1_0000, c % 0x1_0000;
      assert c == 0xffff * hi + (hi + lo);
      FoldedMod(lo + hi);
      SameRemainder(hi, lo + hi);
    }
  }

  lemma SameRemainder(q: nat, r: nat)
    ensures (0xffff * q + r) % 0xffff == r % 0xffff
  {
    ModShift(r, q, 0xffff);
  }

  /** The checksum is zero exactly for non-zero multiples of 2^16 - 1. */
  lemma CsZero(s: seq<Byte>, n: nat)
    requires 2 * n <= |s|
    ensures CheckSum(s, n) == 0 <==> Sum(s, n) % 0xffff == 0 && Sum(s, n) > 0
  {
    FoldedMod(Sum(s, n));
  }

  /** One word of the sum is replaced. */
  lemma {:induction false} SumSet(s: seq<Byte>, n: nat, k: nat, v: Half)
    requires 2 * n <= |s| && 2 * k + 2 <= |s|
    ensures Sum(St16(s, 2 * k, v), n) == if k < n then Sum(s, n) - Ld16(s, 2 * k) + v else Sum(s, n)
    decreases n
  {
    if n > 0 {
      SumSet(s, n - 1, k, v);
    }
  }

  /** writeChksum */
  function Written(s: seq<Byte>, n: nat): (r: seq<Byte>)
    requires 0 < n && 2 * n <= |s|
    ensures |r| == |s|
  {
    var z := St16(s, 2 * n - 2, 0);
    St16(z, 2 * n - 2, CheckSum(z, n))
  }

  /** A header with its checksum in place checks out. */
  lemma ChecksOut(s: seq<Byte>, n: nat)
    requires 0 < n && 2 * n <= |s|
    ensures CheckSum(Written(s, n), n) == 0
  {
    hide Folded, Sum, St16, Ld16;
    var z := St16(s, 2 * n - 2, 0);
    var f := Folded(Sum(z, n));
    assert Ld16(z, 2 * (n - 1)) == 0 by { StLd(s, 2 * n - 2, 0); }
    SumSet(z, n, n - 1, 0xffff - f);
    FoldedMod(Sum(z, n));
    Complement(Sum(z, n), f);
    CsZero(Written(s, n), n);
  }

  lemma StLd(s: seq<Byte>, off: nat, v: Half)
    requires off + 2 <= |s|
    ensures Ld16(St16(s, off, v), off) == v
  {
  }

  lemma Complement(c: nat, f: Half)
    requires f % 0xffff == c % 0xffff && (f == 0 <==> c == 0)
    ensures (c + (0xffff - f)) % 0xffff == 0 && c + (0xffff - f) > 0
  {
    var q, r := c / 0xffff, c % 0xffff;
    assert c == 0xffff * q + r;
  }

  /** Octet 1 says how many octets the checksum covers. */
  predicate ValidSize(s: seq<Byte>) {
    |s| >= 4 && s[1] % 2 == 0 && 4 <= s[1] <= |s|
  }

  /** cs() of a whole header */
  function HeaderSum(s: seq<Byte>): Half
    requires ValidSize(s)
  {
    CheckSum(s, s[1] / 2)
  }

  /** Changing one word of a good header goes unnoticed exactly if the difference of the two words,
      and of what the checksum then covers, is 0 modulo 2^16 - 1 and what is covered is not all
      zero. Only the first word, which holds the size, changes how much is covered. */
  lemma ChangeNoticed(s: seq<Byte>, k: nat, v: Half)
    requires ValidSize(s) && k < s[1] / 2 && HeaderSum(s) == 0
    requires ValidSize(St16(s, 2 * k, v))
    ensures var n, r := s[1] / 2, St16(s, 2 * k, v);
            var n' := r[1] / 2;
            && (k > 0 ==> n' == n)
            && (HeaderSum(r) == 0 <==> (v - Ld16(s, 2 * k) + Sum(s, n') - Sum(s, n)) % 0xffff == 0 && Sum(r, n') > 0)
            && (n' == n ==> (HeaderSum(r) == 0 <==> v % 0xffff == Ld16(s, 2 * k) % 0xffff && Sum(r, n) > 0))
  {
    var n, r := s[1] / 2, St16(s, 2 * k, v);
    SizeKept(s, k, v);
    hide Folded, Sum, St16, Ld16;
    var n' := r[1] / 2;
    SumSet(s, n', k, v);
    CsZero(s, n);
    CsZero(r, n');
    Shifted(Sum(r, n'), Sum(s, n));
    if n' == n {
      Replaced(Sum(s, n), Ld16(s, 2 * k), v);
    }
  }

  lemma SizeKept(s: seq<Byte>, k: nat, v: Half)
    requires 2 * k + 2 <= |s| && |s| >= 4
    ensures k > 0 ==> St16(s, 2 * k, v)[1] == s[1]
  {
  }

  lemma Shifted(a: int, c: nat)
    requires c % 0xffff == 0
    ensures a % 0xffff == 0 <==> (a - c) % 0xffff == 0
  {
    var q := c / 0xffff;
    assert c == 0xffff * q;
    var m := a / 0xffff;
    assert a == 0xffff * m + a % 0xffff;
    assert (a - c) / 0xffff == m - q;
  }

  lemma Replaced(c: nat, o: Half, v: Half)
    requires c % 0xffff == 0
    ensures (c - o + v) % 0xffff == 0 <==> v % 0xffff == o % 0xffff
  {
    var q := c / 0xffff;
    assert c == 0xffff * q;
    var d := v - o;
    if d == 0xffff {
      assert c - o + v == 0xffff * (q + 1);
    } else if d == -0xffff {
      assert c - o + v == 0xffff * (q - 1);
    } else if d > 0 {
      DivModUnique(c - o + v, 0xffff, q, d);
    } else if d < 0 {
      DivModUnique(c - o + v, 0xffff, q - 1, 0xffff + d);
    }
  }

  // ----- the program

  class RssiHeader {
    const buf: array<Byte>

    constructor (b: array<Byte>)
      ensures buf == b
    {
      buf := b;
    }

    /** The size field holds an even header length that the buffer can take. */
    ghost predicate Valid()
      reads this, buf
    {
      buf.Length >= 4 && buf[1] % 2 == 0 && 4 <= buf[1] <= buf.Length
    }

    method Ld16be(off: nat) returns (v: Half)
      requires off + 2 <= buf.Length
      ensures v == Ld16(buf[..], off)
    {
      var hi: nat := buf[off];
      return hi * 256 + buf[off + 1];
    }

    method St16be(off: nat, v: Half)
      requires off + 2 <= buf.Length
      modifies buf
      ensures buf[..] == St16(old(buf[..]), off, v)
    {
      buf[off] := v / 256;
      buf[off + 1] := v % 256;
    }

    /** RssiHeader::cs; the sum does not exceed 32 bits. */
    method Cs() returns (c: Half)
      requires Valid()
      ensures c == CheckSum(buf[..], buf[1] / 2)
    {
      var csI: Word := 0;
      var i := 0;
      while i < buf[1]
        invariant i % 2 == 0 && 0 <= i <= buf[1] && csI == Sum(buf[..], i / 2)
      {
        var v := Ld16be(i);
        assert (i + 2) / 2 - 1 == i / 2 && 2 * (i / 2) == i;
        csI := csI + v;
        i := i + 2;
      }
      while csI > 0xffff
        invariant Folded(csI) == Folded(Sum(buf[..], buf[1] / 2))
        decreases csI
      {
        csI := csI % 0x1_0000 + csI / 0x1_0000;
      }
      return 0xffff - csI;
    }

    /** RssiHeader::writeChksum */
    method WriteChksum()
      requires Valid()
      modifies buf
      ensures Valid() && buf[1] == old(buf[1])
      ensures buf[..] == Written(old(buf[..]), buf[1] / 2)
      ensures CheckSum(buf[..], buf[1] / 2) == 0
    {
      ChecksOut(buf[..], buf[1] / 2);
      St16be(buf[1] - 2, 0);
      var c := Cs();
      St16be(buf[1] - 2, c);
    }
  }
}

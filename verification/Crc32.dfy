/** The table-driven CRC (src/cpsw_crc32_le.cc), against the definition of the reflected CRC-32
    of IEEE 802.3 section 3.2.9, which treats one bit at a time. */
module Crc32 {
  import opened Octets

  const POLY: bv32 := 0xedb8_8320

  function Xor(a: bv32, b: bv32): bv32 {
    a ^ b
  }

  function Half(a: bv32): bv32 {
    a >> 1
  }

  predicate Odd(a: bv32) {
    a & 1 != 0
  }

  // ----- the definition, bit by bit

  function Step(c: bv32): bv32 {
    if Odd(c) then Xor(Half(c), POLY) else Half(c)
  }

  function Steps(c: bv32, n: nat): bv32
    decreases n
  {
    if n == 0 then c else Steps(Step(c), n - 1)
  }

  /** One octet enters at the low end and eight bits are shifted out. */
  function BitwiseOctet(c: bv32, b: Octet): bv32 {
    Steps(Xor(c, Wide(b)), 8)
  }

  function Bitwise(c: bv32, s: seq<Octet>): bv32
    decreases |s|
  {
    if s == [] then c else Bitwise(BitwiseOctet(c, s[0]), s[1..])
  }

  lemma BitwiseNone(c: bv32)
    ensures Bitwise(c, []) == c
  {
  }

  /** Carrying the state from one buffer, or one fragment, to the next is the same as one pass
      over all the octets. */
  lemma {:induction false} BitwiseAppend(c: bv32, a: seq<Octet>, b: seq<Octet>)
    ensures Bitwise(c, a + b) == Bitwise(Bitwise(c, a), b)
    decreases |a|
  {
    if a == [] {
      assert a + b == b;
    } else {
      assert (a + b)[1..] == a[1..] + b;
      BitwiseAppend(BitwiseOctet(c, a[0]), a[1..], b);
    }
  }

  // ----- which CRC it is

  /** The coefficient of x^i; the reflected form holds the highest power in its lowest bit. */
  function Term(i: nat): bv32
    requires i < 32
  {
    1 << (31 - i)
  }

  /** The generating polynomial of IEEE 802.3: x^32 and these terms. */
  lemma PolyTerms()
    ensures POLY == Term(26) | Term(23) | Term(22) | Term(16) | Term(12) | Term(11) | Term(10)
                    | Term(8) | Term(7) | Term(5) | Term(4) | Term(2) | Term(1) | Term(0)
  {
  }

  lemma EightSteps(c: bv32, r: bv32)
    requires r == Step(Step(Step(Step(Step(Step(Step(Step(c))))))))
    ensures Steps(c, 8) == r
  {
    var c4 := Step(Step(Step(Step(c))));
    hide Step;
    assert Steps(c, 8) == Steps(c4, 4);
  }

  /** The digits 1 to 9 in ASCII. */
  const DIGITS: seq<Octet> := [0x31, 0x32, 0x33, 0x34, 0x35, 0x36, 0x37, 0x38, 0x39]

  /** The check value by which CRC-32 implementations are compared. */
  lemma CheckValue()
    ensures !Bitwise(0xffff_ffff, DIGITS) == 0xcbf4_3926
  {
    EightSteps(Xor(0xffff_ffff, Wide(0x31)), 0x7c23_1048);
    EightSteps(Xor(0x7c23_1048, Wide(0x32)), 0xb0ac_bb32);
    EightSteps(Xor(0xb0ac_bb32, Wide(0x33)), 0x77b7_9c2d);
    EightSteps(Xor(0x77b7_9c2d, Wide(0x34)), 0x641c_1f5c);
    EightSteps(Xor(0x641c_1f5c, Wide(0x35)), 0x340a_c5e3);
    EightSteps(Xor(0x340a_c5e3, Wide(0x36)), 0xf68d_2c9e);
    EightSteps(Xor(0xf68d_2c9e, Wide(0x37)), 0xaffc_9660);
    EightSteps(Xor(0xaffc_9660, Wide(0x38)), 0x651f_2550);
    EightSteps(Xor(0x651f_2550, Wide(0x39)), 0x340b_c6d9);
  }

  // ----- linearity: why a table works

  lemma XorHalf(a: bv32, b: bv32)
    ensures Half(Xor(a, b)) == Xor(Half(a), Half(b))
  {
  }

  lemma XorOdd(a: bv32, b: bv32)
    ensures Odd(Xor(a, b)) == (Odd(a) != Odd(b))
  {
  }

  lemma XorNone(z: bv32)
    ensures Xor(z, 0) == z
  {
  }

  lemma XorTwice(z: bv32, p: bv32)
    ensures Xor(Xor(z, p), p) == z
  {
  }

  lemma XorCancel(x: bv32, y: bv32, p: bv32)
    ensures Xor(Xor(x, p), Xor(y, p)) == Xor(x, y)
  {
    hide Xor;
    XorRight(Xor(x, p), y, p);
    XorLeft(x, y, p);
    XorTwice(Xor(x, y), p);
  }

  lemma XorComm(x: bv32, y: bv32)
    ensures Xor(x, y) == Xor(y, x)
  {
  }

  lemma XorLeft(x: bv32, y: bv32, p: bv32)
    ensures Xor(Xor(x, p), y) == Xor(Xor(x, y), p)
  {
    hide Xor;
    XorRight(x, p, y);
    XorComm(p, y);
    XorRight(x, y, p);
  }

  lemma XorRight(x: bv32, y: bv32, p: bv32)
    ensures Xor(x, Xor(y, p)) == Xor(Xor(x, y), p)
  {
  }

  lemma StepXor(a: bv32, b: bv32)
    ensures Step(Xor(a, b)) == Xor(Step(a), Step(b))
  {
    hide Xor, Half, Odd;
    XorHalf(a, b);
    XorOdd(a, b);
    XorCancel(Half(a), Half(b), POLY);
    XorLeft(Half(a), Half(b), POLY);
    XorRight(Half(a), Half(b), POLY);
  }

  lemma {:induction false} StepsXor(a: bv32, b: bv32, n: nat)
    ensures Steps(Xor(a, b), n) == Xor(Steps(a, n), Steps(b, n))
    decreases n
  {
    if n > 0 {
      hide Step, Xor;
      StepXor(a, b);
      StepsXor(Step(a), Step(b), n - 1);
    }
  }

  function High(c: bv32): bv32 {
    c & 0xffff_ff00
  }

  function Drop8(c: bv32): bv32 {
    c >> 8
  }

  /** The index into the table: the low octet of the state combined with the input. */
  function Index(c: bv32, b: Octet): Octet {
    Low(c) ^ b
  }

  function Wide(b: Octet): bv32 {
    b as bv32
  }

  function Low(c: bv32): Octet {
    (c & 0xff) as bv8
  }

  lemma HighLow(c: bv32)
    ensures c == Xor(High(c), Wide(Low(c)))
  {
    assert Wide(Low(c)) == c & 0xff;
  }

  lemma WideXor(a: Octet, b: Octet)
    ensures Wide(a ^ b) == Xor(Wide(a), Wide(b))
  {
  }

  lemma SplitLow(c: bv32, b: Octet)
    ensures Xor(c, Wide(b)) == Xor(High(c), Wide(Index(c, b)))
  {
    HighLow(c);
    WideXor(Low(c), b);
    hide Xor, High, Wide, Low;
    XorRight(High(c), Wide(Low(c)), Wide(b));
  }

  lemma HighShifts(c: bv32)
    ensures Drop8(High(c)) == Drop8(c) && High(c) & 0xff == 0
  {
  }

  lemma EvenShifts(h: bv32)
    requires h & 0xff == 0
    ensures Steps(h, 8) == Drop8(h)
  {
    var h1 := Half(h);
    var h2, h3 := h >> 2, h >> 3;
    var h4, h5, h6, h7 := h >> 4, h >> 5, h >> 6, h >> 7;
    assert Step(h) == h1;
    assert Step(h1) == h2;
    assert Step(h2) == h3;
    assert Step(h3) == h4;
    assert Step(h4) == h5;
    assert Step(h5) == h6;
    assert Step(h6) == h7;
    assert Step(h7) == h >> 8;
    hide Step;
    assert Steps(h, 8) == Steps(h1, 7) == Steps(h2, 6) == Steps(h3, 5) == Steps(h4, 4);
    assert Steps(h4, 4) == Steps(h5, 3) == Steps(h6, 2) == Steps(h7, 1) == Steps(h >> 8, 0);
  }

  /** The entry of the table for index i. */
  function Entry(i: Octet): bv32 {
    Steps(Wide(i), 8)
  }

  function EntryAt(i: nat): bv32
    requires i < 256
  {
    Entry(i as bv8)
  }

  /** One table lookup does the work of eight single-bit steps, for every state and octet. */
  lemma TableStep(c: bv32, b: Octet)
    ensures BitwiseOctet(c, b) == Xor(Drop8(c), Entry(Index(c, b)))
  {
    HighShifts(c);
    EvenShifts(High(c));
    hide Steps, Xor, High, Drop8, Index, Wide;
    SplitLow(c, b);
    StepsXor(High(c), Wide(Index(c, b)), 8);
  }

  // ----- the program

  class CpswCrc32Tbl {
    const t: array<bv32>

    ghost predicate Valid()
      reads t
    {
      t.Length == 256 && forall k: nat :: k < 256 ==> t[k] == EntryAt(k)
    }

    /** The inner loop of the table construction. */
    static method EntryOf(i: nat) returns (crc: bv32)
      requires i < 256
      ensures crc == EntryAt(i)
    {
      hide Xor, Half, Odd, Step, Wide;
      var b := i as bv8;
      crc := Wide(b);
      var j := 0;
      while j < 8
        invariant 0 <= j <= 8 && Steps(crc, 8 - j) == Entry(b)
      {
        StepBits(crc);
        crc := Xor(Half(crc), if Odd(crc) then POLY else 0);
        j := j + 1;
      }
    }

    /** The loop's expression for one bit. */
    static lemma StepBits(c: bv32)
      ensures Step(c) == Xor(Half(c), if Odd(c) then POLY else 0)
    {
      hide Xor, Half, Odd;
      XorNone(Half(c));
    }

    /** The outer loop. */
    static method Fill(a: array<bv32>)
      requires a.Length == 256
      modifies a
      ensures forall k: nat :: k < 256 ==> a[k] == EntryAt(k)
    {
      hide EntryAt;
      var i := 0;
      while i < 256
        invariant 0 <= i <= 256 && forall k: nat :: k < i ==> a[k] == EntryAt(k)
      {
        var e := EntryOf(i);
        a[i] := e;
        i := i + 1;
      }
    }

    constructor ()
      ensures Valid() && fresh(t)
    {
      t := new bv32[256];
      new;
      hide EntryAt;
      Fill(t);
    }

    method Lookup(idx: Octet) returns (e: bv32)
      requires Valid()
      ensures e == Entry(idx)
    {
      hide Entry;
      assert (idx as nat) as bv8 == idx;
      return t[idx as nat];
    }

    /** CCpswCrc32LE::operator() */
    method Crc(crcIn: bv32, buf: seq<Octet>) returns (crc: bv32)
      requires Valid()
      ensures crc == Bitwise(crcIn, buf)
    {
      crc := crcIn;
      var l := 0;
      while l < |buf|
        invariant 0 <= l <= |buf| && Bitwise(crc, buf[l..]) == Bitwise(crcIn, buf)
      {
        hide BitwiseOctet, Entry, Xor, Drop8, Index;
        TableStep(crc, buf[l]);
        var e := Lookup(Index(crc, buf[l]));
        crc := Xor(Drop8(crc), e);
        assert buf[l..][1..] == buf[l + 1..];
        l := l + 1;
      }
    }
  }
}

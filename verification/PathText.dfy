/** Paths and their text form (src/cpsw_path.cc). */
module PathText {
  import opened CircularIndex
  import opened Wrappers

  // ----- hubs, addresses, paths

  /** An entry of the hierarchy; only devices have children. */
  datatype Entry = Dev(children: map<string, Address>) | Field

  /** `nelms` instances of an entry under a name. */
  datatype Address = Address(name: string, nelms: nat, entry: Entry)

  datatype PathEntry = PathEntry(addr: Address, idxf: int, idxt: int, nelmsLeft: Word)

  datatype Path = Path(origin: Entry, entries: seq<PathEntry>)

  datatype Error = InvalidPath | NotDev | NotFound

  datatype Result<+T> = Ok(value: T) | Err(error: Error)

  const INT_MAX := 0x7fff_ffff
  const ULONG: nat := 0x1_0000_0000_0000_0000

  function Tail(p: Path): Entry {
    if p.entries == [] then p.origin else p.entries[|p.entries| - 1].addr.entry
  }

  /** getNelms: the number of elements that the path denotes. */
  function NelmsLeft(p: Path): Word {
    if p.entries == [] then 1 else p.entries[|p.entries| - 1].nelmsLeft
  }

  /** push_back of a PathEntry for elements f .. t. */
  function Push(p: Path, a: Address, f: nat, t: nat): Path
    requires f <= t
  {
    p.(entries := p.entries + [PathEntry(a, f, t, (NelmsLeft(p) * (t - f + 1)) % WORD)])
  }

  // ----- numbers

  function Digit(d: nat): char
    requires d < 10
  {
    "0123456789"[d]
  }

  function Decimal(n: nat): (s: string)
    ensures s != []
  {
    if n < 10 then [Digit(n)] else Decimal(n / 10) + [Digit(n % 10)]
  }

  /** The value of a digit, up to hexadecimal; 16 if it is none. */
  function DigitValue(c: char): nat {
    if '0' <= c <= '9' then (c as int) - ('0' as int)
    else if 'a' <= c <= 'f' then (c as int) - ('a' as int) + 10
    else if 'A' <= c <= 'F' then (c as int) - ('A' as int) + 10
    else 16
  }

  predicate AllDigits(s: string, base: nat) {
    forall c <- s :: DigitValue(c) < base
  }

  function Value(s: string, base: nat): nat {
    if s == [] then 0 else Value(s[..|s| - 1], base) * base + DigitValue(s[|s| - 1])
  }

  predicate IsSpace(c: char) {
    c == ' ' || ('\t' <= c <= '\r')
  }

  function SkipSpace(s: string): string {
    if s != [] && IsSpace(s[0]) then SkipSpace(s[1..]) else s
  }

  /** The digits of a number of any base; None if not all of the text belongs to it. */
  function Magnitude(s: string): Option<nat> {
    if |s| > 2 && s[0] == '0' && s[1] in "xX" then if AllDigits(s[2..], 16) then Some(Value(s[2..], 16)) else None
    else if s != [] && s[0] == '0' then if AllDigits(s, 8) then Some(Value(s, 8)) else None
    else if s != [] && AllDigits(s, 10) then Some(Value(s, 10))
    else None
  }

  /** strtoul over the whole text, with base 0: white space and a sign are accepted, a negative number
      wraps around and a number that is too big becomes the biggest one. */
  function StrToUL(text: string): Option<nat> {
    var s := SkipSpace(text);
    var negative := s != [] && s[0] == '-';
    match Magnitude(if s != [] && s[0] in "+-" then s[1..] else s)
    case None => None
    case Some(v) => Some(if v >= ULONG then ULONG - 1 else if negative then (ULONG - v) % ULONG else v)
  }

  /** getnum; None is the InvalidPathError. */
  function GetNum(s: string): Option<nat> {
    match StrToUL(s)
    case None => None
    case Some(v) => if v > INT_MAX then None else Some(v)
  }

  // ----- from text to path

  /** strchr from position i on; the length if there is no such character. */
  function Find(s: string, i: nat, c: char): (r: nat)
    requires i <= |s|
    ensures i <= r <= |s|
    ensures forall k :: i <= k < r ==> s[k] != c
    ensures r < |s| ==> s[r] == c
    decreases |s| - i
  {
    if i == |s| || s[i] == c then i else Find(s, i + 1, c)
  }

  /** The index range in brackets behind a name: none, one number, or two. */
  datatype Range = Whole | One(i: nat) | FromTo(f: nat, t: nat)

  /** `t` is one component and `op` the position of its bracket. */
  function BracketRange(t: string, op: nat): Option<Range>
    requires op < |t|
  {
    var cl := Find(t, op, ']');
    var mi := Find(t, op, '-');
    if cl == |t| || cl <= op + 1 || cl + 1 < |t| || (mi < |t| && (mi >= cl - 1 || mi <= op + 1)) then None
    else if mi == |t| then
      match GetNum(t[op + 1..cl])
      case None => None
      case Some(i) => Some(One(i))
    else
      match GetNum(t[op + 1..mi])
      case None => None
      case Some(f) =>
        match GetNum(t[mi + 1..cl])
        case None => None
        case Some(u) => Some(FromTo(f, u))
  }

  /** One component of the text: a step up, or to a child. */
  function Enter(p: Path, t: string): Result<Path> {
    if t == ".." then
      if p.entries == [] then Err(InvalidPath) else Ok(p.(entries := p.entries[..|p.entries| - 1]))
    else if !Tail(p).Dev? then Err(NotDev)
    else
      var op := Find(t, 0, '[');
      var range := if op == |t| then Some(Whole) else BracketRange(t, op);
      if range.None? then Err(InvalidPath)
      else if t[..op] !in Tail(p).children then Err(NotFound)
      else
        var found := Tail(p).children[t[..op]];
        var (f, u) := match range.value
                      case Whole => (0, found.nelms - 1)
                      case One(i) => (i, i)
                      case FromTo(f, u) => (f, u);
        if f > u || u >= found.nelms then Err(InvalidPath) else Ok(Push(p, found, f, u))
  }

  /** The parts between slashes, without the empty ones. */
  function Words(s: string): seq<string>
    decreases |s|
  {
    if s == [] then []
    else if s[0] == '/' then Words(s[1..])
    else
      var sl := Find(s, 0, '/');
      [s[..sl]] + Words(s[sl..])
  }

  function Resolve(p: Path, ws: seq<string>): Result<Path>
    decreases |ws|
  {
    if ws == [] then Ok(p)
    else
      match Enter(p, ws[0])
      case Err(e) => Err(e)
      case Ok(q) => Resolve(q, ws[1..])
  }

  lemma SkipSlash(s: string, i: nat)
    requires i < |s| && s[i] == '/'
    ensures Words(s[i..]) == Words(s[i + 1..])
  {
    assert s[i..][1..] == s[i + 1..];
  }

  lemma NoWords(p: Path)
    ensures Words([]) == [] && Resolve(p, []) == Ok(p)
  {
  }

  lemma ResolveFirst(p: Path, w: string, ws: seq<string>)
    ensures Enter(p, w).Err? ==> Resolve(p, [w] + ws) == Enter(p, w)
    ensures Enter(p, w).Ok? ==> Resolve(p, [w] + ws) == Resolve(Enter(p, w).value, ws)
  {
    hide Enter;
    assert ([w] + ws)[1..] == ws;
  }

  /** CPathImpl::findByName: the scanning loop. */
  method FindByName(p: Path, s: string) returns (r: Result<Path>)
    ensures r == Resolve(p, Words(s))
  {
    hide Words, Resolve, Enter;
    var cur, i := p, 0;
    NoWords(p);
    while true
      invariant 0 <= i <= |s| && Resolve(p, Words(s)) == Resolve(cur, Words(s[i..]))
      decreases |s| - i, 1
    {
      while i < |s| && s[i] == '/'
        invariant 0 <= i <= |s| && Resolve(p, Words(s)) == Resolve(cur, Words(s[i..]))
        decreases |s| - i
      {
        SkipSlash(s, i);
        i := i + 1;
      }
      NoWords(cur);
      if i == |s| {
        assert s[i..] == [];
        return Ok(cur);
      }
      var sl := Find(s, i, '/');
      FirstWord(s, i);
      ResolveFirst(cur, s[i..sl], Words(s[sl..]));
      match Enter(cur, s[i..sl]) {
        case Err(e) =>
          return Err(e);
        case Ok(q) =>
          cur := q;
      }
      NoWords(cur);
      if sl == |s| {
        assert s[sl..] == [];
        return Ok(cur);
      }
      i := sl;
    }
  }

  lemma FirstWord(s: string, i: nat)
    requires i < |s| && s[i] != '/'
    ensures var sl := Find(s, i, '/'); i < sl && Words(s[i..]) == [s[i..sl]] + Words(s[sl..])
  {
    FindShift(s, i, i, '/');
    var sl := Find(s, i, '/');
    assert s[i..][..sl - i] == s[i..sl] && s[i..][sl - i..] == s[sl..];
  }

  lemma {:induction false} FindShift(s: string, i: nat, j: nat, c: char)
    requires i <= j <= |s|
    ensures Find(s[i..], j - i, c) == Find(s, j, c) - i
    decreases |s| - j
  {
    if j < |s| && s[j] != c {
      FindShift(s, i, j + 1, c);
    }
  }

  // ----- from path to text

  /** One component of toString. */
  function Item(e: PathEntry): string
    requires 0 <= e.idxf && 0 <= e.idxt
  {
    e.addr.name +
    if e.addr.nelms > 1 then
      "[" + Decimal(e.idxf) + (if e.idxt != e.idxf then "-" + Decimal(e.idxt) else "") + "]"
    else ""
  }

  predicate Indexed(es: seq<PathEntry>) {
    forall e <- es :: 0 <= e.idxf <= e.idxt
  }

  function Text(es: seq<PathEntry>): string
    requires Indexed(es)
    decreases |es|
  {
    if es == [] then "" else Text(es[..|es| - 1]) + "/" + Item(es[|es| - 1])
  }

  /** appendNum: digits are inserted before the ones written so far. */
  method AppendNum(s: string, i: int) returns (r: string)
    ensures r == s + (if i < 0 then "-" + Decimal(-i) else Decimal(i))
  {
    r := s;
    var n: nat := if i < 0 then -i else i;
    if i < 0 {
      r := r + "-";
    }
    var here := |r|;
    ghost var start := r;
    ghost var digits := "";
    var left := n;
    while true
      invariant r == start + digits && here == |start|
      invariant Decimal(n) == Decimal(left) + digits
      decreases left
    {
      var rem := left % 10;
      r := r[..here] + [Digit(rem)] + r[here..];
      digits := [Digit(rem)] + digits;
      assert left >= 10 ==> Decimal(left) == Decimal(left / 10) + [Digit(rem)];
      left := left / 10;
      if left == 0 {
        break;
      }
    }
  }

  method AppendItem(s: string, e: PathEntry) returns (r: string)
    requires 0 <= e.idxf <= e.idxt
    ensures r == s + Item(e)
  {
    hide Decimal;
    r := s + e.addr.name;
    if e.addr.nelms > 1 {
      r := r + "[";
      r := AppendNum(r, e.idxf);
      if e.idxt != e.idxf {
        r := r + "-";
        r := AppendNum(r, e.idxt);
      }
      r := r + "]";
    }
  }

  /** CPathImpl::toString */
  method ToString(p: Path) returns (r: string)
    requires Indexed(p.entries)
    ensures r == Text(p.entries)
  {
    hide Item;
    r := "";
    var k := 0;
    while k < |p.entries|
      invariant 0 <= k <= |p.entries| && Indexed(p.entries[..k]) && r == Text(p.entries[..k])
    {
      var e := p.entries[k];
      assert e in p.entries;
      ghost var was := r;
      r := r + "/";
      r := AppendItem(r, e);
      assert r == was + "/" + Item(e);
      assert p.entries[..k + 1][..k] == p.entries[..k];
      k := k + 1;
    }
    assert p.entries[..k] == p.entries;
  }

  // ----- numbers there and back

  predicate Digits(s: string) {
    s != "" && forall k :: 0 <= k < |s| ==> '0' <= s[k] <= '9'
  }

  lemma {:induction false} DecimalDigits(n: nat)
    ensures Digits(Decimal(n))
    ensures n > 0 ==> Decimal(n)[0] != '0'
    decreases n
  {
    if n >= 10 {
      DecimalDigits(n / 10);
    }
  }

  lemma {:induction false} DecimalValue(n: nat)
    ensures Value(Decimal(n), 10) == n
    decreases n
  {
    if n >= 10 {
      DecimalValue(n / 10);
      var d := Decimal(n / 10);
      assert Decimal(n)[..|d|] == d;
    } else {
      assert Decimal(n)[..0] == [];
    }
  }

  lemma DigitsNum(s: string)
    requires Digits(s) && (s[0] == '0' ==> s == "0") && Value(s, 10) <= INT_MAX
    ensures GetNum(s) == Some(Value(s, 10))
  {
    assert SkipSpace(s) == s;
    if s == "0" {
      assert s[..0] == [];
      assert Value(s, 8) == 0 && Value(s, 10) == 0;
    }
  }

  lemma DecimalNum(n: nat)
    requires n <= INT_MAX
    ensures GetNum(Decimal(n)) == Some(n)
  {
    DecimalDigits(n);
    DecimalValue(n);
    DigitsNum(Decimal(n));
  }

  // ----- the round trip

  predicate NameChar(c: char) {
    'a' <= c <= 'z' || 'A' <= c <= 'Z' || '0' <= c <= '9' || c == '_' || c == '-'
  }

  /** CEntryImpl::checkArgs, which lets an empty name pass. */
  predicate ValidName(s: string) {
    forall c <- s :: NameChar(c)
  }

  /** Something of the entry is printed. */
  predicate Visible(e: PathEntry) {
    e.addr.name != "" || e.addr.nelms > 1
  }

  /** A path that steps from device to child with valid ranges and the product of their sizes. */
  predicate WellFormed(p: Path)
    decreases |p.entries|
  {
    p.entries == [] ||
    var n := |p.entries| - 1;
    var q, e := p.(entries := p.entries[..n]), p.entries[n];
    && WellFormed(q)
    && ValidName(e.addr.name)
    && Tail(q).Dev? && e.addr.name in Tail(q).children && Tail(q).children[e.addr.name] == e.addr
    && 0 <= e.idxf <= e.idxt < e.addr.nelms <= INT_MAX
    && p == Push(q, e.addr, e.idxf, e.idxt)
  }

  lemma FindAt(s: string, i: nat, c: char, r: nat)
    requires i <= r <= |s| && (forall k :: i <= k < r ==> s[k] != c) && (r < |s| ==> s[r] == c)
    ensures Find(s, i, c) == r
  {
  }

  lemma OneRange(name: string, d: string, v: nat)
    requires Digits(d) && GetNum(d) == Some(v)
    ensures BracketRange(name + "[" + d + "]", |name|) == Some(One(v))
  {
    hide GetNum;
    var t, op := name + "[" + d + "]", |name|;
    FindAt(t, op, ']', |t| - 1);
    FindAt(t, op, '-', |t|);
    assert t[op + 1..|t| - 1] == d;
  }

  lemma TwoRange(name: string, d: string, e: string, v: nat, w: nat)
    requires Digits(d) && GetNum(d) == Some(v) && Digits(e) && GetNum(e) == Some(w)
    ensures BracketRange(name + "[" + d + "-" + e + "]", |name|) == Some(FromTo(v, w))
  {
    hide GetNum;
    var t, op := name + "[" + d + "-" + e + "]", |name|;
    var mi := op + 1 + |d|;
    FindAt(t, op, ']', |t| - 1);
    FindAt(t, op, '-', mi);
    assert t[op + 1..mi] == d;
    assert t[mi + 1..|t| - 1] == e;
  }

  lemma NameHasNo(s: string)
    requires ValidName(s)
    ensures forall k :: 0 <= k < |s| ==> s[k] != '[' && s[k] != '/' && s[k] != '.'
  {
    forall k | 0 <= k < |s| ensures s[k] != '[' && s[k] != '/' && s[k] != '.' {
      assert s[k] in s;
    }
  }

  /** The range of an item with more than one element. */
  lemma ItemRange(e: PathEntry)
    requires 0 <= e.idxf <= e.idxt <= INT_MAX && e.addr.nelms > 1
    ensures |e.addr.name| < |Item(e)|
    ensures BracketRange(Item(e), |e.addr.name|) == Some(if e.idxf == e.idxt then One(e.idxf) else FromTo(e.idxf, e.idxt))
  {
    hide GetNum, BracketRange;
    var f, u := Decimal(e.idxf), Decimal(e.idxt);
    DecimalDigits(e.idxf);
    DecimalDigits(e.idxt);
    DecimalNum(e.idxf);
    DecimalNum(e.idxt);
    if e.idxf == e.idxt {
      OneRange(e.addr.name, f, e.idxf);
      assert Item(e) == e.addr.name + "[" + f + "]";
    } else {
      TwoRange(e.addr.name, f, u, e.idxf, e.idxt);
      assert Item(e) == e.addr.name + "[" + f + "-" + u + "]";
    }
  }

  /** Where the name ends in an item. */
  lemma ItemName(e: PathEntry)
    requires ValidName(e.addr.name) && 0 <= e.idxf && 0 <= e.idxt
    ensures Find(Item(e), 0, '[') == |e.addr.name| && Item(e)[..|e.addr.name|] == e.addr.name
    ensures Item(e) != ".." && (e.addr.nelms <= 1 ==> Item(e) == e.addr.name)
    ensures Item(e) != "" <==> Visible(e)
  {
    NameHasNo(e.addr.name);
    FindAt(Item(e), 0, '[', |e.addr.name|);
    assert Visible(e) ==> Item(e)[0] == (e.addr.name + "[")[0];
  }

  /** An item is read back as the entry it was made from. */
  lemma EnterItem(q: Path, e: PathEntry)
    requires ValidName(e.addr.name)
    requires Tail(q).Dev? && e.addr.name in Tail(q).children && Tail(q).children[e.addr.name] == e.addr
    requires 0 <= e.idxf <= e.idxt < e.addr.nelms <= INT_MAX
    ensures Enter(q, Item(e)) == Ok(Push(q, e.addr, e.idxf, e.idxt))
  {
    hide BracketRange, Item, ValidName;
    ItemName(e);
    if e.addr.nelms > 1 {
      ItemRange(e);
    }
  }

  lemma ItemNoSlash(e: PathEntry)
    requires ValidName(e.addr.name) && 0 <= e.idxf && 0 <= e.idxt
    ensures forall k :: 0 <= k < |Item(e)| ==> Item(e)[k] != '/'
  {
    NameHasNo(e.addr.name);
    DecimalDigits(e.idxf);
    DecimalDigits(e.idxt);
  }

  /** A last component is one more word. */
  lemma {:induction false} WordsSnoc(s: string, item: string)
    requires item != "" && forall k :: 0 <= k < |item| ==> item[k] != '/'
    ensures Words(s + "/" + item) == Words(s) + [item]
    decreases |s|
  {
    var t := s + "/" + item;
    if s == "" {
      assert t[1..] == item;
      FindAt(item, 0, '/', |item|);
      assert item[..|item|] == item && item[|item|..] == "";
    } else if s[0] == '/' {
      assert t[1..] == s[1..] + "/" + item;
      WordsSnoc(s[1..], item);
    } else {
      var sl := Find(s, 0, '/');
      FindAt(t, 0, '/', sl);
      assert t[..sl] == s[..sl] && t[sl..] == s[sl..] + "/" + item;
      WordsSnoc(s[sl..], item);
    }
  }

  lemma {:induction false} ResolveSnoc(p: Path, ws: seq<string>, w: string)
    ensures Resolve(p, ws + [w]) == match Resolve(p, ws)
                                    case Err(e) => Err(e)
                                    case Ok(q) => Enter(q, w)
    decreases |ws|
  {
    hide Enter;
    if ws == [] {
      assert [] + [w] == [w];
    } else {
      assert (ws + [w])[1..] == ws[1..] + [w];
      if Enter(p, ws[0]).Ok? {
        ResolveSnoc(Enter(p, ws[0]).value, ws[1..], w);
      }
    }
  }

  lemma {:induction false} WellFormedIndexed(p: Path)
    requires WellFormed(p)
    ensures Indexed(p.entries)
    decreases |p.entries|
  {
    if p.entries != [] {
      WellFormedIndexed(p.(entries := p.entries[..|p.entries| - 1]));
    }
  }

  /** Printing a path and looking the text up from the same origin gives the path again, with the
      same entries, ranges and number of elements, if every entry leaves something in the text. */
  lemma {:induction false} PrintParse(p: Path)
    requires WellFormed(p) && forall e <- p.entries :: Visible(e)
    ensures Indexed(p.entries) && Resolve(Path(p.origin, []), Words(Text(p.entries))) == Ok(p)
    decreases |p.entries|
  {
    WellFormedIndexed(p);
    if p.entries != [] {
      hide Enter, Item, Words, Resolve, ValidName;
      var n := |p.entries| - 1;
      var q, e := p.(entries := p.entries[..n]), p.entries[n];
      PrintParse(q);
      ItemNoSlash(e);
      ItemName(e);
      WordsSnoc(Text(q.entries), Item(e));
      ResolveSnoc(Path(p.origin, []), Words(Text(q.entries)), Item(e));
      EnterItem(q, e);
    }
  }

  lemma {:induction false} WordsSlash(s: string)
    ensures Words(s + "/") == Words(s)
    decreases |s|
  {
    var t := s + "/";
    if s == "" {
      assert t[1..] == "";
    } else if s[0] == '/' {
      assert t[1..] == s[1..] + "/";
      WordsSlash(s[1..]);
    } else {
      var sl := Find(s, 0, '/');
      FindAt(t, 0, '/', sl);
      assert t[..sl] == s[..sl] && t[sl..] == s[sl..] + "/";
      WordsSlash(s[sl..]);
    }
  }

  /** At most one entry for each word. */
  lemma {:induction false} ResolveLength(p: Path, ws: seq<string>)
    ensures Resolve(p, ws).Ok? ==> |Resolve(p, ws).value.entries| <= |p.entries| + |ws|
    decreases |ws|
  {
    if ws != [] {
      match Enter(p, ws[0])
      case Err(_) =>
      case Ok(q) =>
        EnterLength(p, ws[0]);
        ResolveLength(q, ws[1..]);
    }
  }

  lemma EnterLength(p: Path, t: string)
    ensures Enter(p, t).Ok? ==> |Enter(p, t).value.entries| <= |p.entries| + 1
  {
    hide BracketRange;
  }

  /** An entry that leaves nothing in the text is one word less. */
  lemma {:induction false} WordsLength(p: Path)
    requires WellFormed(p) && Indexed(p.entries)
    ensures |Words(Text(p.entries))| <= |p.entries|
    ensures (exists e <- p.entries :: !Visible(e)) ==> |Words(Text(p.entries))| < |p.entries|
    decreases |p.entries|
  {
    hide Visible;
    if p.entries != [] {
      hide Item, Words, ValidName;
      var n := |p.entries| - 1;
      var q, e := p.(entries := p.entries[..n]), p.entries[n];
      WordsLength(q);
      ItemNoSlash(e);
      ItemName(e);
      if Visible(e) {
        WordsSnoc(Text(q.entries), Item(e));
        assert forall x <- p.entries :: x in q.entries || x == e;
      } else {
        assert Text(p.entries) == Text(q.entries) + "/";
        WordsSlash(Text(q.entries));
      }
    }
  }

  /** Printer and parser undo each other exactly if no entry has an empty name and one element. */
  lemma PrintParseExactly(p: Path)
    requires WellFormed(p) && Indexed(p.entries)
    ensures Resolve(Path(p.origin, []), Words(Text(p.entries))) == Ok(p) <==> forall e <- p.entries :: Visible(e)
  {
    hide Resolve, Words, Text, WellFormed, Visible;
    if forall e <- p.entries :: Visible(e) {
      PrintParse(p);
    } else {
      WordsLength(p);
      ResolveLength(Path(p.origin, []), Words(Text(p.entries)));
    }
  }
}

/** What the text of a path means: laws of the lookup, stated on names, numbers and ranges. */
module PathLaws {
  import opened CircularIndex
  import opened Wrappers
  import opened PathText

  /** CPathImpl::findByName, as FindByName computes it. */
  function Lookup(p: Path, s: string): Result<Path> {
    Resolve(p, Words(s))
  }

  predicate Free(s: string, c: char) {
    forall k :: 0 <= k < |s| ==> s[k] != c
  }

  // ----- several components

  lemma WordsUnfold(s: string)
    ensures s == "" ==> Words(s) == []
    ensures s != "" && s[0] == '/' ==> Words(s) == Words(s[1..])
    ensures s != "" && s[0] != '/' ==> var sl := Find(s, 0, '/'); sl > 0 && Words(s) == [s[..sl]] + Words(s[sl..])
  {
  }

  /** Words on both sides of a slash. */
  lemma {:induction false} WordsJoin(s: string, t: string)
    ensures Words(s + "/" + t) == Words(s) + Words(t)
    decreases |s|
  {
    hide Words, Find;
    var u := s + "/" + t;
    WordsUnfold(s);
    WordsUnfold(u);
    if s == "" {
      assert u[1..] == t;
    } else if s[0] == '/' {
      assert u[1..] == s[1..] + "/" + t;
      WordsJoin(s[1..], t);
    } else {
      var sl := Find(s, 0, '/');
      FindAt(u, 0, '/', sl);
      assert u[..sl] == s[..sl] && u[sl..] == s[sl..] + "/" + t;
      WordsJoin(s[sl..], t);
    }
  }

  lemma {:induction false} ResolveJoin(p: Path, ws: seq<string>, vs: seq<string>)
    ensures Resolve(p, ws + vs) == match Resolve(p, ws)
                                   case Err(e) => Err(e)
                                   case Ok(q) => Resolve(q, vs)
    decreases |ws|
  {
    hide Enter;
    if ws == [] {
      assert [] + vs == vs;
    } else {
      assert (ws + vs)[1..] == ws[1..] + vs;
      if Enter(p, ws[0]).Ok? {
        ResolveJoin(Enter(p, ws[0]).value, ws[1..], vs);
      }
    }
  }

  /** Looking up "s/t" is looking up s and then, from there, t; the first error counts. */
  lemma LookupJoin(p: Path, s: string, t: string)
    ensures Lookup(p, s + "/" + t) == match Lookup(p, s)
                                      case Err(e) => Err(e)
                                      case Ok(q) => Lookup(q, t)
  {
    hide Words, Resolve;
    WordsJoin(s, t);
    ResolveJoin(p, Words(s), Words(t));
  }

  /** Leading and trailing slashes do not count, and no text leads nowhere else. */
  lemma LookupSlashes(p: Path, s: string)
    ensures Lookup(p, "/" + s) == Lookup(p, s) == Lookup(p, s + "/") && Lookup(p, "") == Ok(p)
  {
    assert ("/" + s)[1..] == s;
    WordsSlash(s);
  }

  /** One component is one word. */
  lemma OneWord(p: Path, t: string)
    requires t != "" && Free(t, '/')
    ensures Lookup(p, t) == Enter(p, t)
  {
    hide Enter;
    FindAt(t, 0, '/', |t|);
    assert t[..|t|] == t && t[|t|..] == "";
    assert Words(t) == [t] && [t][1..] == [];
    if Enter(p, t).Ok? {
      NoWords(Enter(p, t).value);
    }
  }

  // ----- a step up

  /** ".." is an error on an empty path, and takes the last entry off any other. */
  lemma Up(p: Path)
    ensures Lookup(p, "..") == if p.entries == [] then Err(InvalidPath) else Ok(Path(p.origin, p.entries[..|p.entries| - 1]))
  {
    OneWord(p, "..");
  }

  /** Whatever leads to one more entry is undone by ".." behind it. */
  lemma UpAgain(p: Path, s: string, e: PathEntry)
    requires Lookup(p, s) == Ok(p.(entries := p.entries + [e]))
    ensures Lookup(p, s + "/..") == Ok(p)
  {
    hide Lookup;
    LookupJoin(p, s, "..");
    assert s + "/" + ".." == s + "/..";
    Up(p.(entries := p.entries + [e]));
    assert (p.entries + [e])[..|p.entries|] == p.entries;
  }

  // ----- a name, with or without an index range

  /** Text that stands for the number n. */
  predicate NumText(d: string, n: nat) {
    d != "" && Free(d, ']') && GetNum(d) == Some(n)
  }

  ghost predicate OneText(t: string, name: string, i: nat) {
    exists d: string :: NumText(d, i) && Free(d, '-') && t == name + "[" + d + "]"
  }

  ghost predicate TwoText(t: string, name: string, i: nat, j: nat) {
    exists d: string, e: string :: NumText(d, i) && Free(d, '-') && NumText(e, j) && t == name + "[" + d + "-" + e + "]"
  }

  /** The component reads "name", "name[i]" or "name[i-j]". */
  ghost predicate Denotes(t: string, name: string, r: Range) {
    && Free(name, '[')
    && match r
       case Whole => t == name
       case One(i) => OneText(t, name, i)
       case FromTo(i, j) => TwoText(t, name, i, j)
  }

  lemma OneParses(t: string, name: string, d: string, i: nat)
    requires Free(name, '[') && NumText(d, i) && Free(d, '-') && t == name + "[" + d + "]"
    ensures Find(t, 0, '[') == |name| < |t| && t[..|name|] == name && BracketRange(t, |name|) == Some(One(i))
  {
    hide GetNum;
    FindAt(t, 0, '[', |name|);
    FindAt(t, |name|, ']', |t| - 1);
    FindAt(t, |name|, '-', |t|);
    assert t[|name| + 1..|t| - 1] == d;
  }

  /** The place of c behind a, if x has none. */
  lemma FindsBehind(t: string, a: string, x: string, c: char)
    requires |t| > |a| + |x| && t[|a|..|a| + |x|] == x && t[|a| + |x|] == c && Free(x, c)
    ensures Find(t, |a|, c) == |a| + |x|
  {
    forall k | |a| <= k < |a| + |x| ensures t[k] != c {
      assert t[k] == t[|a|..|a| + |x|][k - |a|];
    }
    FindAt(t, |a|, c, |a| + |x|);
  }

  lemma Middle(t: string, a: string, x: string, c: char, b: string)
    requires t == a + x + [c] + b
    ensures |t| > |a| + |x| && t[|a|..|a| + |x|] == x && t[|a| + |x|] == c
  {
  }

  lemma FreeJoin(s: string, t: string, c: char)
    requires Free(s, c) && Free(t, c)
    ensures Free(s + t, c)
  {
  }

  lemma FreeOne(c: char, d: char)
    requires c != d
    ensures Free([c], d)
  {
  }

  lemma FindsFirst(t: string, a: string, x: string, c: char, b: string)
    requires t == a + x + [c] + b && Free(x, c)
    ensures Find(t, |a|, c) == |a| + |x| < |t|
  {
    hide *;
    Middle(t, a, x, c, b);
    FindsBehind(t, a, x, c);
  }

  lemma Assoc(t: string, name: string, d: string, e: string)
    requires t == name + "[" + d + "-" + e + "]"
    ensures t == "" + name + ['['] + (d + "-" + e + "]")
    ensures t == name + (['['] + d) + ['-'] + (e + "]")
    ensures t == name + (['['] + d + ['-'] + e) + [']'] + ""
    ensures |t| == |name| + |d| + |e| + 3
  {
  }

  lemma TwoFinds(t: string, name: string, d: string, e: string)
    requires Free(name, '[') && Free(d, '-') && Free(d, ']') && Free(e, ']') && t == name + "[" + d + "-" + e + "]"
    ensures var mi := |name| + 1 + |d|;
            Find(t, 0, '[') == |name| && Find(t, |name|, ']') == |t| - 1 && Find(t, |name|, '-') == mi < |t| - 1
  {
    hide *;
    Assoc(t, name, d, e);
    FindsFirst(t, "", name, '[', d + "-" + e + "]");
    FreeOne('[', '-');
    FreeJoin(['['], d, '-');
    FindsFirst(t, name, ['['] + d, '-', e + "]");
    FreeOne('[', ']');
    FreeOne('-', ']');
    FreeJoin(['['], d, ']');
    FreeJoin(['['] + d, ['-'], ']');
    FreeJoin(['['] + d + ['-'], e, ']');
    FindsFirst(t, name, ['['] + d + ['-'] + e, ']', "");
  }

  lemma TwoSlices(t: string, name: string, d: string, e: string)
    requires t == name + "[" + d + "-" + e + "]"
    ensures var mi := |name| + 1 + |d|;
            mi < |t| - 1 && t[..|name|] == name && t[|name| + 1..mi] == d && t[mi + 1..|t| - 1] == e
  {
  }

  lemma TwoParses(t: string, name: string, d: string, e: string, i: nat, j: nat)
    requires Free(name, '[') && NumText(d, i) && Free(d, '-') && NumText(e, j) && t == name + "[" + d + "-" + e + "]"
    ensures Find(t, 0, '[') == |name| < |t| && t[..|name|] == name && BracketRange(t, |name|) == Some(FromTo(i, j))
  {
    hide GetNum, Find, Free;
    TwoFinds(t, name, d, e);
    TwoSlices(t, name, d, e);
  }

  /** The range that the scanner finds, for a component that is not a bare name. */
  lemma DenotesRange(t: string, name: string, r: Range)
    requires Denotes(t, name, r)
    ensures Find(t, 0, '[') == |name| <= |t| && t[..|name|] == name
    ensures if r.Whole? then |name| == |t| else |name| < |t| && BracketRange(t, |name|) == Some(r)
  {
    hide GetNum, BracketRange;
    match r
    case Whole =>
      FindAt(t, 0, '[', |t|);
    case One(i) =>
      var d :| NumText(d, i) && Free(d, '-') && t == name + "[" + d + "]";
      OneParses(t, name, d, i);
    case FromTo(i, j) =>
      var d, e :| NumText(d, i) && Free(d, '-') && NumText(e, j) && t == name + "[" + d + "-" + e + "]";
      TwoParses(t, name, d, e, i, j);
  }

  lemma OneDenotes(t: string, op: nat, cl: nat)
    requires op + 1 < cl == |t| - 1 && t[op] == '[' && t[cl] == ']' && Free(t[..op], '[')
    requires Free(t[op..cl], ']') && Free(t[op..], '-')
    ensures forall i :: GetNum(t[op + 1..cl]) == Some(i) ==> Denotes(t, t[..op], One(i))
  {
    hide GetNum;
    var name, d := t[..op], t[op + 1..cl];
    assert t == name + "[" + d + "]";
    assert Free(d, ']') by {
      assert forall k :: 0 <= k < |d| ==> d[k] == t[op..cl][k + 1];
    }
    assert Free(d, '-') by {
      assert forall k :: 0 <= k < |d| ==> d[k] == t[op..][k + 1];
    }
    forall i | GetNum(d) == Some(i) ensures Denotes(t, name, One(i)) {
      assert NumText(d, i);
    }
  }

  lemma TwoDenotes(t: string, op: nat, mi: nat, cl: nat)
    requires op + 1 < mi < cl - 1 && cl == |t| - 1 && t[op] == '[' && t[mi] == '-' && t[cl] == ']'
    requires Free(t[..op], '[') && Free(t[op..cl], ']') && Free(t[op..mi], '-')
    ensures forall i, j :: GetNum(t[op + 1..mi]) == Some(i) && GetNum(t[mi + 1..cl]) == Some(j) ==> Denotes(t, t[..op], FromTo(i, j))
  {
    hide GetNum;
    var name, d, e := t[..op], t[op + 1..mi], t[mi + 1..cl];
    assert t == name + "[" + d + "-" + e + "]";
    assert Free(d, ']') by {
      assert forall k :: 0 <= k < |d| ==> d[k] == t[op..cl][k + 1];
    }
    assert Free(d, '-') by {
      assert forall k :: 0 <= k < |d| ==> d[k] == t[op..mi][k + 1];
    }
    assert Free(e, ']') by {
      assert forall k :: 0 <= k < |e| ==> e[k] == t[op..cl][mi + 1 - op + k];
    }
    forall i, j | GetNum(d) == Some(i) && GetNum(e) == Some(j) ensures Denotes(t, name, FromTo(i, j)) {
      assert NumText(d, i) && NumText(e, j);
    }
  }

  /** The shape of a component with a range that the scanner accepts. */
  lemma RangeShape(t: string, op: nat)
    requires op < |t| && BracketRange(t, op).Some?
    ensures var cl, mi, r := Find(t, op, ']'), Find(t, op, '-'), BracketRange(t, op).value;
            && op + 1 < cl == |t| - 1
            && if mi == |t| then r.One? && GetNum(t[op + 1..cl]) == Some(r.i)
               else op + 1 < mi < cl - 1 && r.FromTo? && GetNum(t[op + 1..mi]) == Some(r.f) && GetNum(t[mi + 1..cl]) == Some(r.t)
  {
    hide GetNum, Find;
  }

  /** What the scanner finds is there. */
  lemma RangeDenotes(t: string, op: nat)
    requires op == Find(t, 0, '[') && op < |t| && BracketRange(t, op).Some?
    ensures Denotes(t, t[..op], BracketRange(t, op).value)
  {
    hide GetNum, Find, Denotes, BracketRange;
    RangeShape(t, op);
    var cl, mi := Find(t, op, ']'), Find(t, op, '-');
    if mi == |t| {
      OneDenotes(t, op, cl);
    } else {
      TwoDenotes(t, op, mi, cl);
    }
  }

  /** The range of elements of a child: all of them if none is given. */
  function Bounds(r: Range, a: Address): (int, int) {
    match r
    case Whole => (0, a.nelms - 1)
    case One(i) => (i, i)
    case FromTo(i, j) => (i, j)
  }

  /** A component other than a step up is understood if it reads "name", "name[i]" or "name[i-j]". */
  ghost predicate Understood(t: string) {
    exists name: string, r: Range :: Denotes(t, name, r)
  }

  lemma EnterDenotes(p: Path, t: string, name: string, r: Range)
    requires Denotes(t, name, r) && t != ".." && Tail(p).Dev?
    ensures Enter(p, t) ==
              if name !in Tail(p).children then Err(NotFound)
              else
                var a := Tail(p).children[name];
                var (f, u) := Bounds(r, a);
                if f <= u < a.nelms then Ok(Push(p, a, f, u)) else Err(InvalidPath)
  {
    hide Find, BracketRange, Denotes, Push, Tail;
    DenotesRange(t, name, r);
    assert t[..|t|] == t;
  }

  // ----- main results

  /** A bare name stands for all elements of the child, and multiplies the number of elements. */
  lemma BareName(p: Path, name: string)
    requires name != "" && name != ".." && Free(name, '/') && Free(name, '[')
    requires Tail(p).Dev? && name in Tail(p).children && Tail(p).children[name].nelms > 0
    ensures var a := Tail(p).children[name];
            Lookup(p, name) == Ok(Path(p.origin, p.entries + [PathEntry(a, 0, a.nelms - 1, (NelmsLeft(p) * a.nelms) % 0x1_0000_0000)]))
  {
    OneWord(p, name);
    EnterDenotes(p, name, name, Whole);
  }

  lemma {:induction false} DecimalText(n: nat)
    requires n <= INT_MAX
    ensures NumText(Decimal(n), n) && Free(Decimal(n), '-') && Free(Decimal(n), '/')
  {
    hide Decimal, GetNum;
    DecimalDigits(n);
    DecimalNum(n);
  }

  /** "name[i]" stands for element i alone, and is an error exactly if there is none. */
  lemma OneElement(p: Path, name: string, i: nat)
    requires Free(name, '/') && Free(name, '[') && Tail(p).Dev? && name in Tail(p).children && i <= INT_MAX
    ensures var a := Tail(p).children[name];
            Lookup(p, name + "[" + Decimal(i) + "]") ==
              if i < a.nelms then Ok(Path(p.origin, p.entries + [PathEntry(a, i, i, NelmsLeft(p))])) else Err(InvalidPath)
  {
    hide Decimal, GetNum, Enter;
    var t := name + "[" + Decimal(i) + "]";
    DecimalText(i);
    assert OneText(t, name, i);
    assert t[|t| - 1] == ']';
    OneWord(p, t);
    EnterDenotes(p, t, name, One(i));
    assert NelmsLeft(p) * (i - i + 1) == NelmsLeft(p);
  }

  /** "name[i-j]" stands for elements i to j, and is an error exactly unless i <= j < nelms. */
  lemma SomeElements(p: Path, name: string, i: nat, j: nat)
    requires Free(name, '/') && Free(name, '[') && Tail(p).Dev? && name in Tail(p).children && i <= INT_MAX && j <= INT_MAX
    ensures var a := Tail(p).children[name];
            Lookup(p, name + "[" + Decimal(i) + "-" + Decimal(j) + "]") ==
              if i <= j < a.nelms then
                Ok(Path(p.origin, p.entries + [PathEntry(a, i, j, (NelmsLeft(p) * (j - i + 1)) % 0x1_0000_0000)]))
              else Err(InvalidPath)
  {
    hide Decimal, GetNum, Enter;
    var t := name + "[" + Decimal(i) + "-" + Decimal(j) + "]";
    DecimalText(i);
    DecimalText(j);
    assert TwoText(t, name, i, j);
    assert t[|t| - 1] == ']';
    OneWord(p, t);
    EnterDenotes(p, t, name, FromTo(i, j));
  }

  /** The component is understood, but there is no such child. */
  ghost predicate NamesMissing(p: Path, t: string)
    requires Tail(p).Dev?
  {
    exists name: string, r: Range :: Denotes(t, name, r) && name !in Tail(p).children
  }

  /** There is such a child, but the range is not one of its elements. */
  ghost predicate NamesOutside(p: Path, t: string)
    requires Tail(p).Dev?
  {
    exists name: string, r: Range ::
      && Denotes(t, name, r) && name in Tail(p).children
      && var (f, u) := Bounds(r, Tail(p).children[name]); !(f <= u < Tail(p).children[name].nelms)
  }

  lemma NotUnderstood(p: Path, t: string)
    requires !Understood(t) && t != ".." && Tail(p).Dev?
    ensures Enter(p, t) == Err(InvalidPath)
  {
    hide Find, BracketRange, Denotes, Push, Tail;
    var op := Find(t, 0, '[');
    if op == |t| {
      BareDenotes(t);
    } else if BracketRange(t, op).Some? {
      RangeDenotes(t, op);
    }
  }

  lemma BareDenotes(t: string)
    requires Free(t, '[')
    ensures Denotes(t, t, Whole)
  {
  }

  /** Every error of a component other than "..", with its exact condition: not below a device, not
      understood, no such child, not a range of its elements. */
  lemma ErrorsExactly(p: Path, t: string)
    requires t != "" && t != ".." && Free(t, '/')
    ensures Lookup(p, t) == Err(NotDev) <==> !Tail(p).Dev?
    ensures Lookup(p, t) == Err(NotFound) <==> Tail(p).Dev? && NamesMissing(p, t)
    ensures Lookup(p, t) == Err(InvalidPath) <==> Tail(p).Dev? && (!Understood(t) || NamesOutside(p, t))
  {
    hide Denotes, Find, BracketRange, Push, Lookup;
    OneWord(p, t);
    if Tail(p).Dev? {
      if Understood(t) {
        var name: string, r: Range :| Denotes(t, name, r);
        EnterDenotes(p, t, name, r);
        forall m: string, q: Range | Denotes(t, m, q) ensures m == name && q == r {
          OneMeaning(t, name, r, m, q);
        }
      } else {
        NotUnderstood(p, t);
      }
    } else {
      NoDevice(p, t);
    }
  }

  lemma NoDevice(p: Path, t: string)
    requires t != ".." && !Tail(p).Dev?
    ensures Enter(p, t) == Err(NotDev)
  {
    hide Find, BracketRange;
  }

  /** A component has one meaning at most. */
  lemma OneMeaning(t: string, name: string, r: Range, m: string, q: Range)
    requires Denotes(t, name, r) && Denotes(t, m, q)
    ensures m == name && q == r
  {
    hide Find, BracketRange, Denotes;
    DenotesRange(t, name, r);
    DenotesRange(t, m, q);
  }

  // ----- how numbers may be written

  lemma {:induction false} ValueZero(d: string, base: nat)
    ensures Value("0" + d, base) == Value(d, base)
    decreases |d|
  {
    if d == "" {
      assert "0" + d == "0" && "0"[..0] == "";
    } else {
      var t := "0" + d;
      assert t[..|t| - 1] == "0" + d[..|d| - 1];
      ValueZero(d[..|d| - 1], base);
    }
  }

  /** Behind "0x", digits count 16, 1 and so on; behind "0" alone, 8; beyond INT_MAX is no number. */
  lemma OtherBases(d: string)
    ensures d != "" && AllDigits(d, 16) ==>
              GetNum("0x" + d) == if Value(d, 16) <= INT_MAX then Some(Value(d, 16)) else None
    ensures AllDigits(d, 8) ==> GetNum("0" + d) == if Value(d, 8) <= INT_MAX then Some(Value(d, 8)) else None
  {
    hide Value;
    if d != "" && AllDigits(d, 16) {
      assert ("0x" + d)[2..] == d;
    }
    if AllDigits(d, 8) {
      ValueZero(d, 8);
      assert d != "" ==> d[0] in d && ("0" + d)[1] == d[0];
      forall c <- "0" + d ensures DigitValue(c) < 8 {
        assert c == '0' || c in d;
      }
    }
  }

  // ----- the printed form

  lemma TextSnoc(es: seq<PathEntry>, e: PathEntry)
    requires Indexed(es + [e])
    ensures Indexed(es) && e in es + [e] && Text(es + [e]) == Text(es) + "/" + Item(e)
  {
    hide Item;
    forall x <- es ensures 0 <= x.idxf <= x.idxt {
      assert x in es + [e];
    }
    assert (es + [e])[..|es|] == es && (es + [e])[|es|] == e;
  }

  lemma ItemForms(e: PathEntry)
    requires 0 <= e.idxf <= e.idxt
    ensures e.addr.nelms <= 1 ==> Item(e) == e.addr.name
    ensures e.addr.nelms > 1 && e.idxf == e.idxt ==> Item(e) == e.addr.name + "[" + Decimal(e.idxf) + "]"
    ensures e.addr.nelms > 1 && e.idxf < e.idxt ==> Item(e) == e.addr.name + "[" + Decimal(e.idxf) + "-" + Decimal(e.idxt) + "]"
  {
    hide Decimal;
  }

  /** What toString prints for one more entry: the name alone if there is one element, an index if the
      entry stands for one of several, and a range otherwise. */
  lemma PrintedEntry(es: seq<PathEntry>, e: PathEntry)
    requires Indexed(es + [e])
    ensures Indexed(es) && 0 <= e.idxf <= e.idxt
    ensures var before, name := Text(es) + "/", e.addr.name;
            Text(es + [e]) ==
              if e.addr.nelms <= 1 then before + name
              else if e.idxf == e.idxt then before + (name + "[" + Decimal(e.idxf) + "]")
              else before + (name + "[" + Decimal(e.idxf) + "-" + Decimal(e.idxt) + "]")
  {
    hide Decimal, Item, Text;
    TextSnoc(es, e);
    ItemForms(e);
  }
}

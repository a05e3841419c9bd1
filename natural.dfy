/**
 * `natural_sort_key` (src/utils.py): a string is split into alternating
 * text pieces and maximal digit runs, `re.split(r"(\d+)", s)`; digit runs
 * become their integer value and text pieces are lower-cased. Python compares
 * the resulting lists element by element; comparing an int with a str would
 * raise TypeError, which the lemmas here show can never happen for two keys.
 */
module Natural {
  import opened Wrappers
  import opened Strings
  import Sorting

  // ---------------------------------------------------------------------
  // re.split(r"(\d+)", s) as an explicit scanner
  // ---------------------------------------------------------------------

  /** Length of the longest digit-free prefix. */
  function TextPrefixLength(s: string): (n: nat)
    ensures n <= |s| && NoDigits(s[..n])
    ensures n < |s| ==> IsDigit(s[n])
    ensures s != [] && !IsDigit(s[0]) ==> n > 0
  {
    if s == [] || IsDigit(s[0]) then 0
    else
      var m := TextPrefixLength(s[1..]);
      assert s[..1 + m] == [s[0]] + s[1..][..m];
      1 + m
  }

  /** Length of the longest all-digit prefix. */
  function DigitPrefixLength(s: string): (n: nat)
    ensures n <= |s| && AllDigits(s[..n])
    ensures n < |s| ==> !IsDigit(s[n])
    ensures s != [] && IsDigit(s[0]) ==> n > 0
  {
    if s == [] || !IsDigit(s[0]) then 0
    else
      var m := DigitPrefixLength(s[1..]);
      assert s[..1 + m] == [s[0]] + s[1..][..m];
      1 + m
  }

  function Concat(pieces: seq<string>): string {
    if pieces == [] then [] else pieces[0] + Concat(pieces[1..])
  }

  /**
   * The shape of `re.split(r"(\d+)", s)`: text pieces at even positions and
   * digit runs at odd ones; only the first and the last text piece may be
   * empty, so every digit run is maximal.
   */
  ghost predicate Alternates(r: seq<string>) {
    && |r| % 2 == 1
    && (forall i :: 0 <= i < |r| && i % 2 == 0 ==> NoDigits(r[i]))
    && (forall i :: 0 <= i < |r| && i % 2 == 1 ==> IsDigitString(r[i]))
    && (forall i :: 0 < i < |r| - 1 && i % 2 == 0 ==> r[i] != [])
  }

  lemma AlternatesCons(t: string, d: string, tail: seq<string>)
    requires NoDigits(t) && IsDigitString(d) && Alternates(tail)
    requires |tail| > 1 ==> tail[0] != []
    ensures Alternates([t, d] + tail)
  {
    var r := [t, d] + tail;
    forall i | 2 <= i < |r| ensures r[i] == tail[i - 2] {}
  }

  lemma ConcatCons(t: string, d: string, tail: seq<string>)
    ensures Concat([t, d] + tail) == t + (d + Concat(tail))
  {
    var r := [t, d] + tail;
    assert r[1..][1..] == tail;
  }

  /** `re.split(r"(\d+)", s)`: the pieces concatenate back to `s`. */
  function SplitDigits(s: string): (r: seq<string>)
    ensures Alternates(r)
    ensures s == [] ==> |r| == 1
    ensures r[0] == s[..TextPrefixLength(s)]
    decreases |s|
  {
    var t := TextPrefixLength(s);
    if t == |s| then
      assert s[..t] == s;
      [s]
    else
      var rest := s[t..];
      var d := DigitPrefixLength(rest);
      var tail := SplitDigits(rest[d..]);
      AlternatesCons(s[..t], rest[..d], tail);
      var r := [s[..t], rest[..d]] + tail;
      assert r[0] == s[..t];
      r
  }

  /** The pieces concatenate back to the input. */
  lemma {:induction false} SplitReconstructs(s: string)
    ensures Concat(SplitDigits(s)) == s
    decreases |s|
  {
    var t := TextPrefixLength(s);
    if t == |s| {
      assert s[..t] == s;
    } else {
      var rest := s[t..];
      var d := DigitPrefixLength(rest);
      SplitReconstructs(rest[d..]);
      ConcatCons(s[..t], rest[..d], SplitDigits(rest[d..]));
      assert s == s[..t] + (rest[..d] + rest[d..]);
    }
  }

  lemma {:induction false} TextPrefixOf(t: string, x: string)
    requires NoDigits(t) && (x == [] || IsDigit(x[0]))
    ensures TextPrefixLength(t + x) == |t|
  {
    if t != [] {
      assert (t + x)[1..] == t[1..] + x;
      TextPrefixOf(t[1..], x);
    } else {
      assert t + x == x;
    }
  }

  lemma {:induction false} DigitPrefixOf(d: string, x: string)
    requires AllDigits(d) && (x == [] || !IsDigit(x[0]))
    ensures DigitPrefixLength(d + x) == |d|
  {
    if d != [] {
      assert (d + x)[1..] == d[1..] + x;
      DigitPrefixOf(d[1..], x);
    } else {
      assert d + x == x;
    }
  }

  /** A text piece, then a maximal digit run, then the rest. */
  lemma SplitCons(t: string, d: string, x: string)
    requires NoDigits(t) && IsDigitString(d) && (x == [] || !IsDigit(x[0]))
    ensures SplitDigits(t + d + x) == [t, d] + SplitDigits(x)
  {
    var s := t + d + x;
    TextPrefixOf(t, d + x);
    assert s == t + (d + x);
    assert s[..|t|] == t && s[|t|..] == d + x;
    DigitPrefixOf(d, x);
    assert (d + x)[..|d|] == d && (d + x)[|d|..] == x;
  }

  /** A string without digits splits into itself. */
  lemma SplitText(t: string)
    requires NoDigits(t)
    ensures SplitDigits(t) == [t]
  {
    TextPrefixOf(t, []);
    assert t + [] == t;
  }

  // ---------------------------------------------------------------------
  // The key
  // ---------------------------------------------------------------------

  datatype KeyPart = Text(text: string) | Num(value: nat)

  /** `int(text) if text.isdigit() else text.lower()` */
  function PieceKey(p: string): KeyPart {
    if IsDigitString(p) then Num(DigitsValue(p)) else Text(Lower(p))
  }

  /** The key of each piece, in order. */
  function PieceKeys(pieces: seq<string>): (k: seq<KeyPart>)
    ensures |k| == |pieces|
    ensures forall i :: 0 <= i < |pieces| ==> k[i] == PieceKey(pieces[i])
  {
    seq(|pieces|, i requires 0 <= i < |pieces| => PieceKey(pieces[i]))
  }

  lemma PieceKeysCons(t: string, d: string, tail: seq<string>)
    ensures PieceKeys([t, d] + tail) == [PieceKey(t), PieceKey(d)] + PieceKeys(tail)
  {
    var r := [t, d] + tail;
    assert forall i :: 2 <= i < |r| ==> r[i] == tail[i - 2];
  }

  /**
   * `natural_sort_key(s)`: an odd-length list whose even positions hold the
   * lower-cased text pieces and whose odd positions hold the values of the
   * digit runs.
   */
  function NaturalSortKey(s: string): (k: seq<KeyPart>)
    ensures |k| % 2 == 1
    ensures forall i :: 0 <= i < |k| ==> (k[i].Text? <==> i % 2 == 0)
    ensures forall i :: 0 <= i < |k| && k[i].Text? ==> NoDigits(k[i].text)
  {
    PieceKeys(SplitDigits(s))
  }

  // ---------------------------------------------------------------------
  // Python's comparison of two keys
  // ---------------------------------------------------------------------

  /** Comparing two list elements; `None` stands for the TypeError of `int < str`. */
  function ComparePart(a: KeyPart, b: KeyPart): Option<Ordering> {
    match (a, b)
    case (Text(x), Text(y)) => Some(CompareStrings(x, y))
    case (Num(m), Num(n)) => Some(CompareInts(m, n))
    case _ => None
  }

  /** Python's lexicographic comparison of two lists. */
  function CompareKeys(a: seq<KeyPart>, b: seq<KeyPart>): Option<Ordering> {
    if a == [] then Some(if b == [] then Equal else Less)
    else if b == [] then Some(Greater)
    else match ComparePart(a[0], b[0])
      case Some(Equal) => CompareKeys(a[1..], b[1..])
      case other => other
  }

  /** `natural_sort_key(x) <= natural_sort_key(y)`: the order `sorted(..., key=natural_sort_key)` uses. */
  predicate NaturalLe(x: string, y: string) {
    var c := CompareKeys(NaturalSortKey(x), NaturalSortKey(y));
    c == Some(Less) || c == Some(Equal)
  }

  /** Same kind of element at every common position. */
  ghost predicate SameShape(a: seq<KeyPart>, b: seq<KeyPart>) {
    forall i :: 0 <= i < |a| && i < |b| ==> (a[i].Text? <==> b[i].Text?)
  }

  lemma {:induction false} CompareShaped(a: seq<KeyPart>, b: seq<KeyPart>)
    requires SameShape(a, b)
    ensures CompareKeys(a, b).Some?
    ensures CompareKeys(b, a) == Some(Flip(CompareKeys(a, b).value))
    ensures CompareKeys(a, b) == Some(Equal) <==> a == b
  {
    if a != [] && b != [] {
      assert SameShape(a[1..], b[1..]);
      CompareShaped(a[1..], b[1..]);
      if a[0].Text? {
        CompareStringsFlip(a[0].text, b[0].text);
        CompareStringsEqual(a[0].text, b[0].text);
      }
      assert a == [a[0]] + a[1..] && b == [b[0]] + b[1..];
    }
  }

  lemma CompareCons(p: KeyPart, q: KeyPart, a: seq<KeyPart>, b: seq<KeyPart>)
    ensures CompareKeys([p] + a, [q] + b)
            == if ComparePart(p, q) == Some(Equal) then CompareKeys(a, b) else ComparePart(p, q)
  {
    assert ([p] + a)[1..] == a && ([q] + b)[1..] == b;
  }

  /** Two keys never compare an int against a str, so sorting by the key never raises. */
  lemma NaturalKeysComparable(x: string, y: string)
    ensures CompareKeys(NaturalSortKey(x), NaturalSortKey(y)).Some?
  {
    CompareShaped(NaturalSortKey(x), NaturalSortKey(y));
  }

  lemma {:induction false} CompareTransitive(a: seq<KeyPart>, b: seq<KeyPart>, c: seq<KeyPart>)
    requires SameShape(a, b) && SameShape(b, c) && SameShape(a, c)
    requires CompareKeys(a, b) == Some(Less) || CompareKeys(a, b) == Some(Equal)
    requires CompareKeys(b, c) == Some(Less) || CompareKeys(b, c) == Some(Equal)
    ensures CompareKeys(a, c) == Some(Less) || CompareKeys(a, c) == Some(Equal)
  {
    if a != [] && b != [] && c != [] {
      if a[0].Text? {
        CompareStringsEqual(a[0].text, b[0].text);
        CompareStringsEqual(b[0].text, c[0].text);
        CompareStringsTransitive(a[0].text, b[0].text, c[0].text);
      }
      if ComparePart(a[0], b[0]) == Some(Equal) && ComparePart(b[0], c[0]) == Some(Equal) {
        assert SameShape(a[1..], b[1..]) && SameShape(b[1..], c[1..]) && SameShape(a[1..], c[1..]);
        CompareTransitive(a[1..], b[1..], c[1..]);
      }
    }
  }

  /** The natural order is total and transitive, so `sorted` by it is well defined. */
  lemma NaturalLeTotalPreorder()
    ensures Sorting.TotalPreorder(NaturalLe)
  {
    forall x, y ensures NaturalLe(x, y) || NaturalLe(y, x) {
      CompareShaped(NaturalSortKey(x), NaturalSortKey(y));
    }
    forall x, y, z | NaturalLe(x, y) && NaturalLe(y, z) ensures NaturalLe(x, z) {
      CompareTransitive(NaturalSortKey(x), NaturalSortKey(y), NaturalSortKey(z));
    }
  }

  /** Names tied in the natural order have equal keys. */
  lemma NaturalTiedKeys(x: string, y: string)
    requires NaturalLe(x, y) && NaturalLe(y, x)
    ensures NaturalSortKey(x) == NaturalSortKey(y)
  {
    CompareShaped(NaturalSortKey(x), NaturalSortKey(y));
  }

  /** `sorted(names, key=natural_sort_key)`: ordered, and a permutation of `names`. */
  function NaturalSorted(names: seq<string>): (r: seq<string>)
    ensures multiset(r) == multiset(names)
    ensures Sorting.Sorted(r, NaturalLe)
  {
    NaturalLeTotalPreorder();
    Sorting.SortBySorted(names, NaturalLe);
    Sorting.SortBy(names, NaturalLe)
  }

  // ---------------------------------------------------------------------
  // Properties of the key
  // ---------------------------------------------------------------------

  lemma KeyCons(t: string, d: string, x: string)
    requires NoDigits(t) && IsDigitString(d) && (x == [] || !IsDigit(x[0]))
    ensures NaturalSortKey(t + d + x) == [Text(Lower(t)), Num(DigitsValue(d))] + NaturalSortKey(x)
  {
    SplitCons(t, d, x);
    PieceKeysCons(t, d, SplitDigits(x));
  }

  /** Keys that agree up to two different numbers compare by those numbers, whatever follows. */
  lemma CompareAtNumber(text: string, m: nat, n: nat, rest: seq<KeyPart>, rest': seq<KeyPart>)
    requires m != n
    ensures CompareKeys([Text(text), Num(m)] + rest, [Text(text), Num(n)] + rest') == Some(CompareInts(m, n))
  {
    CompareStringsEqual(text, text);
    assert [Text(text), Num(m)] + rest == [Text(text)] + ([Num(m)] + rest);
    assert [Text(text), Num(n)] + rest' == [Text(text)] + ([Num(n)] + rest');
    CompareCons(Text(text), Text(text), [Num(m)] + rest, [Num(n)] + rest');
    CompareCons(Num(m), Num(n), rest, rest');
  }

  /** Names that differ only in one digit run compare by the runs' values. */
  lemma DigitRunsByValue(t: string, d: string, e: string, x: string)
    requires NoDigits(t) && IsDigitString(d) && IsDigitString(e) && (x == [] || !IsDigit(x[0]))
    requires DigitsValue(d) < DigitsValue(e)
    ensures CompareKeys(NaturalSortKey(t + d + x), NaturalSortKey(t + e + x)) == Some(Less)
  {
    KeyCons(t, d, x);
    KeyCons(t, e, x);
    CompareAtNumber(Lower(t), DigitsValue(d), DigitsValue(e), NaturalSortKey(x), NaturalSortKey(x));
  }

  /**
   * Digit runs compare by value: two names that differ only in one number
   * (`img2.png`, `img10.png`) are ordered by that number.
   */
  lemma NumericRunsByValue(t: string, m: nat, n: nat, x: string)
    requires NoDigits(t) && (x == [] || !IsDigit(x[0]))
    requires m < n
    ensures NaturalLe(t + NatToString(m) + x, t + NatToString(n) + x)
    ensures !NaturalLe(t + NatToString(n) + x, t + NatToString(m) + x)
  {
    NatToStringValue(m);
    NatToStringValue(n);
    var a, b := t + NatToString(m) + x, t + NatToString(n) + x;
    DigitRunsByValue(t, NatToString(m), NatToString(n), x);
    CompareShaped(NaturalSortKey(a), NaturalSortKey(b));
  }

  /** Leading zeros do not matter: `007` and `7` give the same key. */
  lemma LeadingZerosIgnored(t: string, k: nat, d: string, x: string)
    requires NoDigits(t) && IsDigitString(d) && (x == [] || !IsDigit(x[0]))
    ensures NaturalSortKey(t + Zeros(k) + d + x) == NaturalSortKey(t + d + x)
  {
    LeadingZerosValue(k, d);
    assert t + Zeros(k) + d + x == t + (Zeros(k) + d) + x;
    KeyCons(t, Zeros(k) + d, x);
    KeyCons(t, d, x);
  }

  /** Lower-casing keeps every character's digit class. */
  lemma LowerKeepsClasses(p: string)
    ensures NoDigits(p) ==> NoDigits(Lower(p))
    ensures AllDigits(p) ==> Lower(p) == p
    ensures p != [] && !IsDigit(p[0]) ==> !IsDigit(Lower(p)[0])
  {
  }

  lemma LowerConcat3(a: string, b: string, c: string)
    ensures Lower(a + b + c) == Lower(a) + Lower(b) + Lower(c)
  {
  }

  function LowerEach(pieces: seq<string>): (r: seq<string>)
    ensures |r| == |pieces|
    ensures forall i :: 0 <= i < |pieces| ==> r[i] == Lower(pieces[i])
  {
    seq(|pieces|, i requires 0 <= i < |pieces| => Lower(pieces[i]))
  }

  lemma LowerEachCons(t: string, d: string, tail: seq<string>)
    ensures LowerEach([t, d] + tail) == [Lower(t), Lower(d)] + LowerEach(tail)
  {
    var r := [t, d] + tail;
    assert forall i :: 2 <= i < |r| ==> r[i] == tail[i - 2];
  }

  /** Splitting the lower-cased string gives the lower-cased pieces. */
  lemma {:induction false} SplitLower(s: string)
    ensures SplitDigits(Lower(s)) == LowerEach(SplitDigits(s))
    decreases |s|
  {
    var t := TextPrefixLength(s);
    if t == |s| {
      assert s[..t] == s;
      LowerKeepsClasses(s);
      SplitText(s);
      SplitText(Lower(s));
    } else {
      var rest := s[t..];
      var d := DigitPrefixLength(rest);
      var x := rest[d..];
      var pt, pd := s[..t], rest[..d];
      assert s == pt + pd + x;
      LowerKeepsClasses(pt);
      LowerKeepsClasses(pd);
      LowerKeepsClasses(x);
      LowerConcat3(pt, pd, x);
      SplitCons(pt, pd, x);
      SplitCons(Lower(pt), Lower(pd), Lower(x));
      SplitLower(x);
      LowerEachCons(pt, pd, SplitDigits(x));
    }
  }

  lemma PieceKeyLower(p: string)
    ensures PieceKey(Lower(p)) == PieceKey(p)
  {
    LowerKeepsClasses(p);
    LowerIdempotent(p);
    if !IsDigitString(p) && p != [] {
      var k :| 0 <= k < |p| && !IsDigit(p[k]);
      assert !IsDigit(Lower(p)[k]);
    }
  }

  /** The key ignores case: `natural_sort_key(s.lower()) == natural_sort_key(s)`. */
  lemma KeyIgnoresCase(s: string)
    ensures NaturalSortKey(Lower(s)) == NaturalSortKey(s)
  {
    SplitLower(s);
    var p, q := SplitDigits(s), SplitDigits(Lower(s));
    forall i | 0 <= i < |p| ensures PieceKey(q[i]) == PieceKey(p[i]) {
      PieceKeyLower(p[i]);
    }
  }
}

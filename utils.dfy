/**
 * The chapter-range label that names a part, and the natural-order listing
 * of a folder's chapter archives.
 *
 * Chapter numbers are exact reals (see the Parser module); `int()` of a
 * number truncates toward zero.
 */
module Utils {
  import opened Strings
  import Sorting
  import Natural

  // ---------------------------------------------------------------------
  // int(), min() and max() on chapter numbers
  // ---------------------------------------------------------------------

  /** Python's `int(x)` for a number: truncation toward zero. */
  function Trunc(x: real): int {
    if x >= 0.0 then x.Floor else -((-x).Floor)
  }

  /** The truncation is the integer next to `x` on the side of zero. */
  lemma TruncBounds(x: real)
    ensures x >= 0.0 ==> Trunc(x) >= 0 && Trunc(x) as real <= x < Trunc(x) as real + 1.0
    ensures x < 0.0 ==> Trunc(x) <= 0 && Trunc(x) as real - 1.0 < x <= Trunc(x) as real
  {
  }

  lemma TruncMonotone(x: real, y: real)
    requires x <= y
    ensures Trunc(x) <= Trunc(y)
  {
    TruncBounds(x);
    TruncBounds(y);
  }

  /** `min(s)` */
  function Min(s: seq<real>): real
    requires s != []
  {
    if |s| == 1 then s[0]
    else
      var rest := Min(s[1..]);
      if rest < s[0] then rest else s[0]
  }

  /** `max(s)` */
  function Max(s: seq<real>): real
    requires s != []
  {
    if |s| == 1 then s[0]
    else
      var rest := Max(s[1..]);
      if s[0] < rest then rest else s[0]
  }

  /** `min(s)` is an element of `s` no greater than any other. */
  lemma {:induction false} MinIsLeast(s: seq<real>)
    requires s != []
    ensures Min(s) in s
    ensures forall i :: 0 <= i < |s| ==> Min(s) <= s[i]
  {
    if |s| > 1 {
      MinIsLeast(s[1..]);
      forall i | 1 <= i < |s| ensures Min(s) <= s[i] {
        assert s[i] == s[1..][i - 1];
      }
    }
  }

  /** `max(s)` is an element of `s` no smaller than any other. */
  lemma {:induction false} MaxIsGreatest(s: seq<real>)
    requires s != []
    ensures Max(s) in s
    ensures forall i :: 0 <= i < |s| ==> s[i] <= Max(s)
  {
    if |s| > 1 {
      MaxIsGreatest(s[1..]);
      forall i | 1 <= i < |s| ensures s[i] <= Max(s) {
        assert s[i] == s[1..][i - 1];
      }
    }
  }

  /** The value that is in `s` and bounds it from below is `min(s)`. */
  lemma MinUnique(s: seq<real>, m: real)
    requires m in s && forall i :: 0 <= i < |s| ==> m <= s[i]
    ensures Min(s) == m
  {
    MinIsLeast(s);
  }

  lemma MaxUnique(s: seq<real>, m: real)
    requires m in s && forall i :: 0 <= i < |s| ==> s[i] <= m
    ensures Max(s) == m
  {
    MaxIsGreatest(s);
  }

  // ---------------------------------------------------------------------
  // generate_chapter_range
  // ---------------------------------------------------------------------

  const UnknownChapters := "Unknown Chapters"

  /** The label `"<low> - <high>"`. */
  function RangeLabel(low: int, high: int): string {
    IntToString(low) + " - " + IntToString(high)
  }

  /**
   * `generate_chapter_range(numbers)`: the truncated minimum and maximum as
   * `"<low> - <high>"`, or `"Unknown Chapters"` for an empty list.
   */
  function ChapterRange(numbers: seq<real>): string {
    if numbers == [] then UnknownChapters
    else RangeLabel(Trunc(Min(numbers)), Trunc(Max(numbers)))
  }

  /** Only the empty list is labelled `"Unknown Chapters"`: every other label starts with a digit or a minus sign. */
  lemma ChapterRangeUnknown(numbers: seq<real>)
    ensures ChapterRange(numbers) == UnknownChapters <==> numbers == []
  {
    if numbers != [] {
      var r := ChapterRange(numbers);
      assert r[0] == IntToString(Trunc(Min(numbers)))[0];
      assert r[0] != UnknownChapters[0];
    }
  }

  /**
   * A non-empty list is labelled by the smallest and the largest of its
   * truncated numbers.
   */
  lemma ChapterRangeBounds(numbers: seq<real>)
    requires numbers != []
    ensures exists low, high ::
              (&& ChapterRange(numbers) == RangeLabel(low, high)
               && (exists i :: 0 <= i < |numbers| && Trunc(numbers[i]) == low)
               && (exists i :: 0 <= i < |numbers| && Trunc(numbers[i]) == high)
               && (forall i :: 0 <= i < |numbers| ==> low <= Trunc(numbers[i]) <= high))
  {
    var lo, hi := Min(numbers), Max(numbers);
    MinIsLeast(numbers);
    MaxIsGreatest(numbers);
    forall i | 0 <= i < |numbers|
      ensures Trunc(lo) <= Trunc(numbers[i]) <= Trunc(hi)
    {
      TruncMonotone(lo, numbers[i]);
      TruncMonotone(numbers[i], hi);
    }
    var a :| 0 <= a < |numbers| && numbers[a] == lo;
    var b :| 0 <= b < |numbers| && numbers[b] == hi;
    assert Trunc(numbers[a]) == Trunc(lo) && Trunc(numbers[b]) == Trunc(hi);
    assert ChapterRange(numbers) == RangeLabel(Trunc(lo), Trunc(hi));
  }

  /** The label does not depend on the order of the list. */
  lemma ChapterRangeOrderFree(a: seq<real>, b: seq<real>)
    requires multiset(a) == multiset(b)
    ensures ChapterRange(a) == ChapterRange(b)
  {
    if a != [] {
      assert b != [] by { assert |multiset(b)| == |multiset(a)|; }
      MinIsLeast(a);
      MaxIsGreatest(a);
      forall i | 0 <= i < |b| ensures Min(a) <= b[i] <= Max(a) {
        assert b[i] in multiset(a);
        var k :| 0 <= k < |a| && a[k] == b[i];
      }
      assert Min(a) in multiset(b) && Max(a) in multiset(b);
      MinUnique(b, Min(a));
      MaxUnique(b, Max(a));
    }
  }

  lemma ChapterRangeExamples()
    ensures ChapterRange([1.0, 2.0, 3.0, 4.0]) == "1 - 4"
    ensures ChapterRange([7.0]) == "7 - 7"
  {
    var s := [1.0, 2.0, 3.0, 4.0];
    MinUnique(s, 1.0);
    MaxUnique(s, 4.0);
    assert ChapterRange(s) == RangeLabel(1, 4);
    assert ChapterRange([7.0]) == RangeLabel(7, 7);
    DigitLabel(1, 4);
    DigitLabel(7, 7);
  }

  lemma DigitLabel(m: nat, n: nat)
    requires m < 10 && n < 10
    ensures RangeLabel(m, n) == [DigitChar(m), ' ', '-', ' ', DigitChar(n)]
  {
  }

  // ---------------------------------------------------------------------
  // The label as a key: it determines the truncated bounds
  // ---------------------------------------------------------------------

  lemma IntToStringChars(i: int, k: nat)
    requires k < |IntToString(i)|
    ensures IntToString(i)[k] == '-' || IsDigit(IntToString(i)[k])
    ensures k > 0 ==> IsDigit(IntToString(i)[k])
  {
    if i < 0 {
      assert IntToString(i)[1..] == NatToString(-i);
      if k > 0 {
        assert IntToString(i)[k] == NatToString(-i)[k - 1];
      }
    }
  }

  predicate NoSpaceChar(s: string) {
    forall k :: 0 <= k < |s| ==> s[k] != ' '
  }

  lemma IntToStringNoSpace(i: int)
    ensures NoSpaceChar(IntToString(i))
  {
    forall k | 0 <= k < |IntToString(i)| ensures IntToString(i)[k] != ' ' {
      IntToStringChars(i, k);
    }
  }

  /** The position of the first space in `l` (`|l|` if there is none). */
  function SpaceIndex(l: string): (n: nat)
    ensures n <= |l|
  {
    if l == [] || l[0] == ' ' then 0 else 1 + SpaceIndex(l[1..])
  }

  lemma {:induction false} SpaceIndexAfter(x: string, r: string)
    requires NoSpaceChar(x) && r != [] && r[0] == ' '
    ensures SpaceIndex(x + r) == |x|
  {
    if x != [] {
      assert (x + r)[1..] == x[1..] + r;
      SpaceIndexAfter(x[1..], r);
    }
  }

  /** `x - u` splits at its first space: the parts are determined. */
  lemma SplitAtSeparator(x: string, u: string, y: string, v: string)
    requires NoSpaceChar(x) && NoSpaceChar(y)
    requires x + " - " + u == y + " - " + v
    ensures x == y && u == v
  {
    var l := x + " - " + u;
    assert l == x + (" - " + u) && l == y + (" - " + v);
    SpaceIndexAfter(x, " - " + u);
    SpaceIndexAfter(y, " - " + v);
    assert x == l[..|x|] && y == l[..|y|];
    assert u == l[|x| + 3..] && v == l[|y| + 3..];
  }

  /** Two labels are equal only when their bounds are. */
  lemma RangeLabelInjective(low: int, high: int, low': int, high': int)
    requires RangeLabel(low, high) == RangeLabel(low', high')
    ensures low == low' && high == high'
  {
    IntToStringNoSpace(low);
    IntToStringNoSpace(low');
    SplitAtSeparator(IntToString(low), IntToString(high), IntToString(low'), IntToString(high'));
    IntToStringRoundTrip(low);
    IntToStringRoundTrip(low');
    IntToStringRoundTrip(high);
    IntToStringRoundTrip(high');
  }

  // ---------------------------------------------------------------------
  // get_sorted_cbz_files
  // ---------------------------------------------------------------------

  /** What the pattern `*.cbz` of `Path.glob` accepts (case-sensitively). */
  predicate IsCbzName(name: string) {
    EndsWith(name, ".cbz")
  }

  /**
   * `get_sorted_cbz_files(directory)` over the names of the directory's
   * entries: the `.cbz` names in natural order.
   */
  function GetSortedCbzFiles(entries: seq<string>): (r: seq<string>)
    ensures forall name :: multiset(r)[name] == if IsCbzName(name) then multiset(entries)[name] else 0
    ensures Sorting.Sorted(r, Natural.NaturalLe)
  {
    var cbz := Sorting.Filter(entries, IsCbzName);
    forall name ensures multiset(cbz)[name] == if IsCbzName(name) then multiset(entries)[name] else 0 {
      Sorting.FilterMultiset(entries, IsCbzName, name);
    }
    Natural.NaturalSorted(cbz)
  }
}

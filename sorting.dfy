/**
 * Filtering and stable sorting of sequences.
 *
 * Python's `sorted(xs, key=k)` and `list.sort()` are stable sorts: the result
 * is ordered by the key and elements with equal keys keep their input order.
 * `SortBy` is a stable insertion sort; `le(x, y)` means "x may come before y"
 * (for a key function, `not k(y) < k(x)`). The lemmas state that its result is
 * ordered, a permutation of its input, and stable; `SortedUnique` shows that
 * these three properties determine the result, so any stable sort (Timsort
 * included) returns exactly `SortBy`'s result.
 */
module Sorting {

  /** `[x for x in s if p(x)]` */
  function Filter<T>(s: seq<T>, p: T -> bool): (r: seq<T>)
    ensures |r| <= |s|
    ensures forall i :: 0 <= i < |r| ==> r[i] in s
    ensures forall i :: 0 <= i < |r| ==> p(r[i])
  {
    if s == [] then [] else (if p(s[0]) then [s[0]] else []) + Filter(s[1..], p)
  }

  lemma FilterConcat<T>(a: seq<T>, b: seq<T>, p: T -> bool)
    ensures Filter(a + b, p) == Filter(a, p) + Filter(b, p)
  {
    if a == [] {
      assert a + b == b;
    } else {
      assert (a + b)[1..] == a[1..] + b;
      FilterConcat(a[1..], b, p);
    }
  }

  lemma {:induction false} FilterAll<T>(s: seq<T>, p: T -> bool)
    requires forall i :: 0 <= i < |s| ==> p(s[i])
    ensures Filter(s, p) == s
  {
    if s != [] {
      FilterAll(s[1..], p);
      assert s == [s[0]] + s[1..];
    }
  }

  lemma {:induction false} FilterMultiset<T>(s: seq<T>, p: T -> bool, x: T)
    ensures multiset(Filter(s, p))[x] == if p(x) then multiset(s)[x] else 0
  {
    if s != [] {
      FilterMultiset(s[1..], p, x);
      assert s == [s[0]] + s[1..];
    }
  }

  /** The elements of `s` at the positions `keep` accepts, in order. */
  function Keep<T>(s: seq<T>, keep: nat -> bool): (r: seq<T>)
    ensures |r| <= |s|
  {
    if s == [] then [] else Keep(s[..|s| - 1], keep) + (if keep(|s| - 1) then [s[|s| - 1]] else [])
  }

  lemma KeepAppend<T>(s: seq<T>, x: T, keep: nat -> bool)
    ensures Keep(s + [x], keep) == Keep(s, keep) + (if keep(|s|) then [x] else [])
  {
    assert (s + [x])[..|s|] == s;
  }

  lemma {:induction false} KeepMembers<T>(s: seq<T>, keep: nat -> bool, x: T)
    ensures x in Keep(s, keep) <==> exists i :: 0 <= i < |s| && keep(i) && s[i] == x
  {
    if s != [] {
      var n := |s| - 1;
      KeepMembers(s[..n], keep, x);
      if x in Keep(s[..n], keep) {
        var i :| 0 <= i < n && keep(i) && s[..n][i] == x;
        assert s[i] == x;
      }
      if exists i :: 0 <= i < |s| && keep(i) && s[i] == x {
        var i :| 0 <= i < |s| && keep(i) && s[i] == x;
        if i < n {
          assert s[..n][i] == x;
        }
      }
    }
  }

  /** `le` orders `s` strictly: no later element may precede an earlier one. */
  ghost predicate StrictlySorted<T>(s: seq<T>, le: (T, T) -> bool) {
    forall i, j :: 0 <= i < j < |s| ==> le(s[i], s[j]) && !le(s[j], s[i])
  }

  lemma {:induction false} KeepStrictlySorted<T>(s: seq<T>, keep: nat -> bool, le: (T, T) -> bool)
    requires StrictlySorted(s, le)
    ensures StrictlySorted(Keep(s, keep), le)
  {
    if s != [] {
      var n := |s| - 1;
      KeepStrictlySorted(s[..n], keep, le);
      var p := Keep(s[..n], keep);
      forall x | x in p ensures le(x, s[n]) && !le(s[n], x) {
        KeepMembers(s[..n], keep, x);
        var i :| 0 <= i < n && keep(i) && s[..n][i] == x;
        assert s[i] == x;
      }
    }
  }

  ghost predicate Distinct<T>(s: seq<T>) {
    forall i, j :: 0 <= i < j < |s| ==> s[i] != s[j]
  }

  /**
   * A sequence whose `i`-th element is `name(i + 1, src[i])` is strictly
   * sorted when `name` orders its results by their first argument alone.
   */
  lemma StrictlySortedByRank<T, U>(r: seq<T>, src: seq<U>, name: (nat, U) -> T, le: (T, T) -> bool)
    requires |r| == |src| && forall i :: 0 <= i < |r| ==> r[i] == name(i + 1, src[i])
    requires forall m: nat, n: nat, a: U, b: U :: m < n ==> le(name(m, a), name(n, b)) && !le(name(n, b), name(m, a))
    ensures StrictlySorted(r, le)
  {
    forall i, j | 0 <= i < j < |r| ensures le(r[i], r[j]) && !le(r[j], r[i]) {
      assert r[i] == name(i + 1, src[i]) && r[j] == name(j + 1, src[j]);
    }
  }

  lemma StrictlySortedDistinct<T>(s: seq<T>, le: (T, T) -> bool)
    requires StrictlySorted(s, le)
    ensures Distinct(s)
  {
  }

  /** Each element of a sequence without repetitions occurs once. */
  lemma {:induction false} DistinctMultiset<T>(s: seq<T>, x: T)
    requires Distinct(s)
    ensures multiset(s)[x] == if x in s then 1 else 0
  {
    if s != [] {
      DistinctMultiset(s[1..], x);
      assert s == [s[0]] + s[1..];
      if x == s[0] {
        assert x !in s[1..];
      }
    }
  }

  /**
   * A sorted arrangement of the elements of a strictly sorted sequence is
   * that sequence.
   */
  lemma {:induction false} SortedStrictUnique<T>(a: seq<T>, b: seq<T>, le: (T, T) -> bool)
    requires Sorted(a, le) && StrictlySorted(b, le) && multiset(a) == multiset(b)
    ensures a == b
    decreases |a|
  {
    assert |a| == |b| by { assert |multiset(a)| == |multiset(b)|; }
    if a != [] {
      assert b[0] in multiset(a) && a[0] in multiset(b);
      var m :| 0 <= m < |a| && a[m] == b[0];
      var k :| 0 <= k < |b| && b[k] == a[0];
      if m != 0 {
        assert le(a[0], a[m]);
        assert le(b[k], b[0]);
      }
      assert a[0] == b[0];
      MultisetTails(a, b);
      SortedStrictUniqueTails(a, b, le);
    }
  }

  lemma SortedStrictUniqueTails<T>(a: seq<T>, b: seq<T>, le: (T, T) -> bool)
    requires Sorted(a, le) && StrictlySorted(b, le) && a != [] && b != []
    requires a[0] == b[0] && multiset(a[1..]) == multiset(b[1..])
    ensures a == b
    decreases |a|, 0
  {
    SortedStrictUnique(a[1..], b[1..], le);
    assert a == [a[0]] + a[1..] && b == [b[0]] + b[1..];
  }

  /** `le` is total and transitive: a key order, possibly with ties. */
  ghost predicate TotalPreorder<T(!new)>(le: (T, T) -> bool) {
    && (forall x, y :: le(x, y) || le(y, x))
    && (forall x, y, z :: le(x, y) && le(y, z) ==> le(x, z))
  }

  ghost predicate Sorted<T>(s: seq<T>, le: (T, T) -> bool) {
    forall i, j :: 0 <= i < j < |s| ==> le(s[i], s[j])
  }

  /** An element that may precede every element of a sorted sequence can head it. */
  lemma SortedCons<T>(x: T, s: seq<T>, le: (T, T) -> bool)
    requires Sorted(s, le) && forall y :: y in s ==> le(x, y)
    ensures Sorted([x] + s, le)
  {
    forall i, j | 0 <= i < j < |[x] + s| ensures le(([x] + s)[i], ([x] + s)[j]) {
      assert ([x] + s)[j] == s[j - 1];
      if i > 0 {
        assert ([x] + s)[i] == s[i - 1];
      }
    }
  }

  /** Inserts `x` before the first element it may precede. */
  function Insert<T>(x: T, s: seq<T>, le: (T, T) -> bool): (r: seq<T>)
    ensures |r| == |s| + 1
    ensures multiset(r) == multiset(s) + multiset{x}
  {
    if s == [] then [x]
    else if le(x, s[0]) then [x] + s
    else
      assert s == [s[0]] + s[1..];
      [s[0]] + Insert(x, s[1..], le)
  }

  /** Stable insertion sort. */
  function SortBy<T>(s: seq<T>, le: (T, T) -> bool): (r: seq<T>)
    ensures |r| == |s|
    ensures multiset(r) == multiset(s)
  {
    if s == [] then []
    else
      assert s == [s[0]] + s[1..];
      Insert(s[0], SortBy(s[1..], le), le)
  }

  lemma {:induction false} InsertSorted<T(!new)>(x: T, s: seq<T>, le: (T, T) -> bool)
    requires TotalPreorder(le) && Sorted(s, le)
    ensures Sorted(Insert(x, s, le), le)
  {
    if s != [] && !le(x, s[0]) {
      InsertSorted(x, s[1..], le);
      var r := Insert(x, s, le);
      assert r == [s[0]] + Insert(x, s[1..], le);
      forall j | 1 <= j < |r| ensures le(s[0], r[j]) {
        assert r[j] in multiset(Insert(x, s[1..], le));
        assert r[j] == x || r[j] in s[1..];
      }
    }
  }

  /** The result of `SortBy` is ordered. */
  lemma {:induction false} SortBySorted<T(!new)>(s: seq<T>, le: (T, T) -> bool)
    requires TotalPreorder(le)
    ensures Sorted(SortBy(s, le), le)
  {
    if s != [] {
      SortBySorted(s[1..], le);
      InsertSorted(s[0], SortBy(s[1..], le), le);
    }
  }

  // ---------------------------------------------------------------------
  // Stability
  // ---------------------------------------------------------------------

  ghost predicate Tied<T>(le: (T, T) -> bool, x: T, y: T) {
    le(x, y) && le(y, x)
  }

  /** The elements of `s` tied with `x`, in their order in `s`. */
  ghost function TiedWith<T>(s: seq<T>, le: (T, T) -> bool, x: T): seq<T> {
    if s == [] then [] else (if Tied(le, x, s[0]) then [s[0]] else []) + TiedWith(s[1..], le, x)
  }

  lemma TiedWithCons<T>(h: T, t: seq<T>, le: (T, T) -> bool, x: T)
    ensures TiedWith([h] + t, le, x) == (if Tied(le, x, h) then [h] else []) + TiedWith(t, le, x)
  {
    assert ([h] + t)[1..] == t;
  }

  lemma {:induction false} TiedWithInsert<T(!new)>(y: T, t: seq<T>, le: (T, T) -> bool, x: T)
    requires TotalPreorder(le)
    ensures TiedWith(Insert(y, t, le), le, x) == (if Tied(le, x, y) then [y] else []) + TiedWith(t, le, x)
    decreases |t|
  {
    if t == [] || le(y, t[0]) {
      assert Insert(y, t, le) == [y] + t;
      TiedWithCons(y, t, le, x);
    } else {
      TiedWithInsert(y, t[1..], le, x);
      TiedExclusive(le, x, y, t[0]);
      TiedWithInsertAfter(y, t, le, x);
    }
  }

  /** The step of `TiedWithInsert` where `y` goes after the head of `t`. */
  lemma TiedWithInsertAfter<T>(y: T, t: seq<T>, le: (T, T) -> bool, x: T)
    requires t != [] && !le(y, t[0]) && !(Tied(le, x, y) && Tied(le, x, t[0]))
    requires TiedWith(Insert(y, t[1..], le), le, x) == (if Tied(le, x, y) then [y] else []) + TiedWith(t[1..], le, x)
    ensures TiedWith(Insert(y, t, le), le, x) == (if Tied(le, x, y) then [y] else []) + TiedWith(t, le, x)
  {
    var h, rest := t[0], t[1..];
    var a, b := if Tied(le, x, h) then [h] else [], if Tied(le, x, y) then [y] else [];
    calc {
      TiedWith(Insert(y, t, le), le, x);
    == { assert Insert(y, t, le) == [h] + Insert(y, rest, le); }
      TiedWith([h] + Insert(y, rest, le), le, x);
    == { TiedWithCons(h, Insert(y, rest, le), le, x); }
      a + TiedWith(Insert(y, rest, le), le, x);
    ==
      a + (b + TiedWith(rest, le, x));
    == { SwapAroundEmpty(a, b, TiedWith(rest, le, x)); }
      b + (a + TiedWith(rest, le, x));
    == { TiedWithCons(h, rest, le, x); assert [h] + rest == t; }
      b + TiedWith(t, le, x);
    }
  }

  lemma SwapAroundEmpty<T>(a: seq<T>, b: seq<T>, r: seq<T>)
    requires a == [] || b == []
    ensures a + (b + r) == b + (a + r)
  {
    if a == [] {
      assert a + (b + r) == b + r == b + (a + r);
    } else {
      assert a + (b + r) == a + r == b + (a + r);
    }
  }

  lemma TiedExclusive<T(!new)>(le: (T, T) -> bool, x: T, y: T, z: T)
    requires TotalPreorder(le) && !le(y, z)
    ensures !(Tied(le, x, y) && Tied(le, x, z))
  {
  }

  /** `SortBy` keeps tied elements in their input order. */
  lemma {:induction false} SortByStable<T(!new)>(s: seq<T>, le: (T, T) -> bool, x: T)
    requires TotalPreorder(le)
    ensures TiedWith(SortBy(s, le), le, x) == TiedWith(s, le, x)
  {
    if s != [] {
      SortByStable(s[1..], le, x);
      TiedWithInsert(s[0], SortBy(s[1..], le), le, x);
    }
  }

  // ---------------------------------------------------------------------
  // Uniqueness: order, permutation and stability determine the result
  // ---------------------------------------------------------------------

  lemma {:induction false} TiedWithMembers<T>(s: seq<T>, le: (T, T) -> bool, x: T, y: T)
    ensures y in TiedWith(s, le, x) <==> y in s && Tied(le, x, y)
  {
    if s != [] {
      TiedWithMembers(s[1..], le, x, y);
      assert s == [s[0]] + s[1..];
    }
  }

  /** The first element of a sorted sequence may precede every element. */
  lemma SortedHeadLeast<T(!new)>(a: seq<T>, le: (T, T) -> bool, y: T)
    requires TotalPreorder(le) && Sorted(a, le) && y in a
    ensures le(a[0], y)
  {
    var k :| 0 <= k < |a| && a[k] == y;
    if k == 0 {
      assert le(y, y) || le(y, y);
    }
  }

  /** Two sorted arrangements of the same elements, stable with respect to each other, start alike. */
  lemma SortedHeadsEqual<T(!new)>(a: seq<T>, b: seq<T>, le: (T, T) -> bool)
    requires TotalPreorder(le) && Sorted(a, le) && Sorted(b, le)
    requires multiset(a) == multiset(b) && a != []
    requires TiedWith(a, le, a[0]) == TiedWith(b, le, a[0])
    ensures b != [] && a[0] == b[0]
  {
    assert |b| == |a| by { assert |multiset(a)| == |multiset(b)|; }
    assert b[0] in multiset(a) && a[0] in multiset(b);
    SortedHeadLeast(a, le, b[0]);
    SortedHeadLeast(b, le, a[0]);
    SortedHeadLeast(a, le, a[0]);
    var ta := TiedWith(a[1..], le, a[0]);
    var tb := TiedWith(b[1..], le, a[0]);
    assert TiedWith(a, le, a[0]) == [a[0]] + ta;
    assert TiedWith(b, le, a[0]) == [b[0]] + tb;
    assert ([a[0]] + ta)[0] == a[0];
    assert ([b[0]] + tb)[0] == b[0];
  }

  lemma TiedWithTails<T>(a: seq<T>, b: seq<T>, le: (T, T) -> bool, x: T)
    requires a != [] && b != [] && a[0] == b[0]
    requires TiedWith(a, le, x) == TiedWith(b, le, x)
    ensures TiedWith(a[1..], le, x) == TiedWith(b[1..], le, x)
  {
    var h := if Tied(le, x, a[0]) then [a[0]] else [];
    assert a == [a[0]] + a[1..] && b == [b[0]] + b[1..];
    TiedWithCons(a[0], a[1..], le, x);
    TiedWithCons(b[0], b[1..], le, x);
    assert TiedWith(a[1..], le, x) == (h + TiedWith(a[1..], le, x))[|h|..];
    assert TiedWith(b[1..], le, x) == (h + TiedWith(b[1..], le, x))[|h|..];
  }

  lemma MultisetTails<T>(a: seq<T>, b: seq<T>)
    requires a != [] && b != [] && a[0] == b[0] && multiset(a) == multiset(b)
    ensures multiset(a[1..]) == multiset(b[1..])
  {
    assert a == [a[0]] + a[1..] && b == [b[0]] + b[1..];
    assert multiset(a) == multiset{a[0]} + multiset(a[1..]);
    assert multiset(b) == multiset{b[0]} + multiset(b[1..]);
    calc {
      multiset(a[1..]);
      multiset(a) - multiset{a[0]};
      multiset(b) - multiset{b[0]};
      multiset(b[1..]);
    }
  }

  /**
   * Two sorted arrangements of the same elements whose tied elements appear
   * in the same order are equal.
   */
  lemma {:induction false} SortedUnique<T(!new)>(a: seq<T>, b: seq<T>, le: (T, T) -> bool)
    requires TotalPreorder(le) && Sorted(a, le) && Sorted(b, le)
    requires multiset(a) == multiset(b)
    requires forall x :: TiedWith(a, le, x) == TiedWith(b, le, x)
    ensures a == b
    decreases |a|
  {
    if a == [] {
      assert |b| == 0 by { assert |multiset(a)| == |multiset(b)|; }
    } else {
      SortedHeadsEqual(a, b, le);
      forall x ensures TiedWith(a[1..], le, x) == TiedWith(b[1..], le, x) {
        TiedWithTails(a, b, le, x);
      }
      MultisetTails(a, b);
      SortedUnique(a[1..], b[1..], le);
      assert a == [a[0]] + a[1..] && b == [b[0]] + b[1..];
    }
  }

  /**
   * Any ordered, stable permutation of `s` is `SortBy(s, le)`: the model of
   * Python's `sorted` by this function is exact.
   */
  lemma StableSortIsSortBy<T(!new)>(s: seq<T>, r: seq<T>, le: (T, T) -> bool)
    requires TotalPreorder(le) && Sorted(r, le) && multiset(r) == multiset(s)
    requires forall x :: TiedWith(r, le, x) == TiedWith(s, le, x)
    ensures r == SortBy(s, le)
  {
    SortBySorted(s, le);
    forall x ensures TiedWith(r, le, x) == TiedWith(SortBy(s, le), le, x) {
      SortByStable(s, le, x);
    }
    SortedUnique(r, SortBy(s, le), le);
  }
}

/**
 * Python's `sorted(...)` over a set and over a list, for an element type with a strict total
 * order (`int` with `<`, `str` with code-point `<`).
 */
module Ordering {
  import Text

  ghost predicate StrictTotalOrder<T(!new)>(lt: (T, T) -> bool) {
    && (forall a :: !lt(a, a))
    && (forall a, b, c :: lt(a, b) && lt(b, c) ==> lt(a, c))
    && (forall a, b :: a != b ==> lt(a, b) || lt(b, a))
  }

  /** Ascending without repeats. */
  ghost predicate StrictlySorted<T>(xs: seq<T>, lt: (T, T) -> bool) {
    forall i, j :: 0 <= i < j < |xs| ==> lt(xs[i], xs[j])
  }

  /** Ascending, repeats allowed: no later element is smaller than an earlier one. */
  ghost predicate Sorted<T>(xs: seq<T>, lt: (T, T) -> bool) {
    forall i, j :: 0 <= i < j < |xs| ==> !lt(xs[j], xs[i])
  }

  predicate IsMin<T(==)>(m: T, s: set<T>, lt: (T, T) -> bool) {
    m in s && forall x :: x in s ==> x == m || lt(m, x)
  }

  lemma {:induction false} MinExists<T(!new)>(s: set<T>, lt: (T, T) -> bool)
    requires StrictTotalOrder(lt) && s != {}
    ensures exists m :: IsMin(m, s, lt)
    decreases |s|
  {
    var y :| y in s;
    if s - {y} == {} {
      assert s == {y};
      assert IsMin(y, s, lt);
    } else {
      MinExists(s - {y}, lt);
      var m :| IsMin(m, s - {y}, lt);
      if lt(y, m) {
        forall x | x in s && x != y ensures lt(y, x) {
          assert x == m || lt(m, x);
        }
        assert IsMin(y, s, lt);
      } else {
        assert IsMin(m, s, lt);
      }
    }
  }

  /** `sorted(s)` for a set `s`: its elements, each once, in ascending order. */
  function SortSet<T(!new, ==)>(s: set<T>, lt: (T, T) -> bool): (r: seq<T>)
    requires StrictTotalOrder(lt)
    ensures |r| == |s|
    ensures forall x :: x in r <==> x in s
    ensures StrictlySorted(r, lt)
    decreases |s|
  {
    if s == {} then []
    else
      MinExists(s, lt);
      var m :| IsMin(m, s, lt);
      var rest := SortSet(s - {m}, lt);
      assert forall k :: 0 <= k < |rest| ==> rest[k] in s - {m};
      [m] + rest
  }

  /** A strictly ascending list is determined by its elements. */
  lemma {:induction false} StrictlySortedUnique<T(!new)>(xs: seq<T>, ys: seq<T>, lt: (T, T) -> bool)
    requires StrictTotalOrder(lt)
    requires StrictlySorted(xs, lt) && StrictlySorted(ys, lt)
    requires forall x :: x in xs <==> x in ys
    ensures xs == ys
    decreases |xs|
  {
    if |xs| > 0 { assert xs[0] in ys; }
    if |ys| > 0 { assert ys[0] in xs; }
    if |xs| > 0 && |ys| > 0 {
      var i :| 0 <= i < |ys| && ys[i] == xs[0];
      var j :| 0 <= j < |xs| && xs[j] == ys[0];
      assert xs[0] == ys[0];
      forall x ensures x in xs[1..] <==> x in ys[1..] {
        if x in xs[1..] {
          var i :| 0 <= i < |xs[1..]| && xs[1..][i] == x;
          assert lt(xs[0], xs[i + 1]);
          assert x != ys[0] && x in ys;
          var k :| 0 <= k < |ys| && ys[k] == x;
          assert ys[1..][k - 1] == x;
        }
        if x in ys[1..] {
          var i :| 0 <= i < |ys[1..]| && ys[1..][i] == x;
          assert lt(ys[0], ys[i + 1]);
          assert x != xs[0] && x in xs;
          var k :| 0 <= k < |xs| && xs[k] == x;
          assert xs[1..][k - 1] == x;
        }
      }
      StrictlySortedUnique(xs[1..], ys[1..], lt);
      assert xs == [xs[0]] + xs[1..] && ys == [ys[0]] + ys[1..];
    }
  }

  function Insert<T>(x: T, xs: seq<T>, lt: (T, T) -> bool): (r: seq<T>)
    ensures multiset(r) == multiset(xs) + multiset{x}
  {
    if |xs| == 0 then [x]
    else if lt(xs[0], x) then
      assert xs == [xs[0]] + xs[1..];
      [xs[0]] + Insert(x, xs[1..], lt)
    else [x] + xs
  }

  lemma {:induction false} InsertSorted<T(!new)>(x: T, xs: seq<T>, lt: (T, T) -> bool)
    requires StrictTotalOrder(lt) && Sorted(xs, lt)
    ensures Sorted(Insert(x, xs, lt), lt)
  {
    if |xs| > 0 && lt(xs[0], x) {
      InsertSorted(x, xs[1..], lt);
      var r := Insert(x, xs, lt);
      var tail := Insert(x, xs[1..], lt);
      assert r == [xs[0]] + tail;
      forall k | 0 <= k < |tail| ensures !lt(tail[k], xs[0]) {
        assert tail[k] in multiset(tail);
        assert tail[k] in multiset(xs[1..]) + multiset{x};
        if tail[k] in multiset(xs[1..]) {
          var i :| 0 <= i < |xs[1..]| && xs[1..][i] == tail[k];
          assert xs[i + 1] == tail[k];
        }
      }
    } else if |xs| > 0 {
      forall i, j | 0 <= i < j < |xs| + 1 ensures !lt(([x] + xs)[j], ([x] + xs)[i]) {
        if i == 0 {
          assert !lt(xs[j - 1], xs[0]);
        }
      }
    }
  }

  /** `sorted(xs)` for a list `xs`: the same elements with the same multiplicities, ascending. */
  function Sort<T(!new)>(xs: seq<T>, lt: (T, T) -> bool): (r: seq<T>)
    requires StrictTotalOrder(lt)
    ensures multiset(r) == multiset(xs)
    ensures Sorted(r, lt)
  {
    if |xs| == 0 then []
    else
      var rest := Sort(xs[1..], lt);
      InsertSorted(xs[0], rest, lt);
      assert xs == [xs[0]] + xs[1..];
      Insert(xs[0], rest, lt)
  }

  /** Sorting a list that is already strictly ascending leaves it as it is. */
  lemma {:induction false} SortOfStrictlySorted<T(!new)>(xs: seq<T>, lt: (T, T) -> bool)
    requires StrictTotalOrder(lt) && StrictlySorted(xs, lt)
    ensures Sort(xs, lt) == xs
  {
    if |xs| > 1 {
      SortOfStrictlySorted(xs[1..], lt);
      assert lt(xs[0], xs[1..][0]);
      assert xs == [xs[0]] + xs[1..];
    }
  }

  /** `<` on page numbers, as a first-class relation. */
  predicate NatLess(a: nat, b: nat) {
    a < b
  }

  lemma NatLessIsStrictTotal()
    ensures StrictTotalOrder(NatLess)
  {
  }

  /** Python's `<` on strings, as a first-class relation. */
  lemma LexLessIsStrictTotal()
    ensures StrictTotalOrder(Text.LexLess)
  {
    forall a ensures !Text.LexLess(a, a) { Text.LexLessIrreflexive(a); }
    forall a, b, c | Text.LexLess(a, b) && Text.LexLess(b, c) ensures Text.LexLess(a, c) {
      Text.LexLessTransitive(a, b, c);
    }
    forall a, b | a != b ensures Text.LexLess(a, b) || Text.LexLess(b, a) {
      Text.LexLessTotal(a, b);
    }
  }

  /** `sorted(paths)` for a set of paths. */
  function SortedPaths(paths: set<string>): (r: seq<string>)
    ensures |r| == |paths| && forall x :: x in r <==> x in paths
    ensures forall i, j :: 0 <= i < j < |r| ==> Text.LexLess(r[i], r[j])
  {
    LexLessIsStrictTotal();
    SortSet(paths, Text.LexLess)
  }

  /** `sorted(pages)` for a set of page numbers. */
  function SortedPages(pages: set<nat>): (r: seq<nat>)
    ensures |r| == |pages| && forall x :: x in r <==> x in pages
    ensures forall i, j :: 0 <= i < j < |r| ==> r[i] < r[j]
  {
    NatLessIsStrictTotal();
    SortSet(pages, NatLess)
  }
}

/** Ordering relations and the one sort every script relies on.

    Python's `sorted`, `list.sort` and pandas' `sort_values` are all modelled
    by `Sort`, a stable insertion sort parameterised by a strict weak order
    `before` ("a must come before b").  `before(a, b)` false in both
    directions means a and b are tied. */
module Sorting {

  ghost predicate Irreflexive<T(!new)>(before: (T, T) -> bool) {
    forall x :: !before(x, x)
  }

  ghost predicate Transitive<T(!new)>(before: (T, T) -> bool) {
    forall x, y, z :: before(x, y) && before(y, z) ==> before(x, z)
  }

  /** If x must precede z, any y must come after x or before z. */
  ghost predicate NegativelyTransitive<T(!new)>(before: (T, T) -> bool) {
    forall x, y, z :: before(x, z) ==> before(x, y) || before(y, z)
  }

  ghost predicate StrictWeakOrder<T(!new)>(before: (T, T) -> bool) {
    Irreflexive(before) && Transitive(before) && NegativelyTransitive(before)
  }

  /** A strict weak order in which only equal values are tied. */
  ghost predicate StrictTotalOrder<T(!new)>(before: (T, T) -> bool) {
    StrictWeakOrder(before) && forall x, y :: x == y || before(x, y) || before(y, x)
  }

  predicate Tied<T>(before: (T, T) -> bool, a: T, b: T) {
    !before(a, b) && !before(b, a)
  }

  /** No element is required to precede an element placed before it. */
  ghost predicate Sorted<T>(s: seq<T>, before: (T, T) -> bool) {
    forall i, j :: 0 <= i < j < |s| ==> !before(s[j], s[i])
  }

  /** Every pair of tied elements, in the order they appear, is related by `rel`. */
  ghost predicate TiesRespect<T>(s: seq<T>, before: (T, T) -> bool, rel: (T, T) -> bool) {
    forall i, j :: 0 <= i < j < |s| && Tied(before, s[i], s[j]) ==> rel(s[i], s[j])
  }

  /** Places `x` after every leading element of sorted `s` that must
      precede it and before the rest, so `x` stays ahead of elements it is
      tied with. */
  function Insert<T>(x: T, s: seq<T>, before: (T, T) -> bool): (r: seq<T>)
    ensures multiset(r) == multiset(s) + multiset{x}
    ensures |r| == |s| + 1
  {
    if s == [] || !before(s[0], x) then [x] + s
    else
      assert s == [s[0]] + s[1..];
      [s[0]] + Insert(x, s[1..], before)
  }

  /** Inserting into a sorted sequence keeps it sorted. */
  lemma {:induction false} InsertSorted<T(!new)>(x: T, s: seq<T>, before: (T, T) -> bool)
    requires StrictWeakOrder(before)
    requires Sorted(s, before)
    ensures Sorted(Insert(x, s, before), before)
  {
    if s == [] || !before(s[0], x) {
      forall z | z in s ensures !before(z, x) {
        var k :| 0 <= k < |s| && s[k] == z;
        if k > 0 {
          assert !before(s[k], s[0]);
        }
      }
      PrependSorted(x, s, before);
    } else {
      InsertSorted(x, s[1..], before);
      var t := Insert(x, s[1..], before);
      forall z | z in t ensures !before(z, s[0]) {
        assert z in multiset(t);
        if z != x {
          assert z in multiset(s[1..]);
          var k :| 0 <= k < |s[1..]| && s[1..][k] == z;
          assert s[k + 1] == z;
        }
      }
      PrependSorted(s[0], t, before);
    }
  }

  /** An element that nothing in a sorted sequence must precede can go in front. */
  lemma {:induction false} PrependSorted<T>(y: T, t: seq<T>, before: (T, T) -> bool)
    requires Sorted(t, before)
    requires forall z :: z in t ==> !before(z, y)
    ensures Sorted([y] + t, before)
  {
    var r := [y] + t;
    forall a, b | 0 <= a < b < |r| ensures !before(r[b], r[a]) {
      assert r[b] == t[b - 1];
      if a > 0 {
        assert r[a] == t[a - 1];
      }
    }
  }

  /** Stable insertion sort: a permutation of `s`, sorted when `before` is a
      strict weak order (`SortSorted`). */
  function Sort<T>(s: seq<T>, before: (T, T) -> bool): (r: seq<T>)
    ensures multiset(r) == multiset(s)
    ensures |r| == |s|
  {
    if s == [] then []
    else
      assert s == [s[0]] + s[1..];
      Insert(s[0], Sort(s[1..], before), before)
  }

  /** The sort's output is sorted. */
  lemma {:induction false} SortSorted<T(!new)>(s: seq<T>, before: (T, T) -> bool)
    requires StrictWeakOrder(before)
    ensures Sorted(Sort(s, before), before)
  {
    if s != [] {
      SortSorted(s[1..], before);
      InsertSorted(s[0], Sort(s[1..], before), before);
    }
  }

  lemma {:induction false} InsertKeepsTieOrder<T(!new)>(x: T, s: seq<T>, before: (T, T) -> bool, rel: (T, T) -> bool)
    requires StrictWeakOrder(before)
    requires TiesRespect([x] + s, before, rel)
    ensures TiesRespect(Insert(x, s, before), before, rel)
  {
    if s != [] && before(s[0], x) {
      var xs, t := [x] + s, Insert(x, s[1..], before);
      var mid := [x] + s[1..];
      assert TiesRespect(mid, before, rel) by {
        forall a, b | 0 <= a < b < |mid| && Tied(before, mid[a], mid[b]) ensures rel(mid[a], mid[b]) {
          if a == 0 {
            assert mid[a] == xs[0] && mid[b] == xs[b + 1];
          } else {
            assert mid[a] == xs[a + 1] && mid[b] == xs[b + 1];
          }
        }
      }
      InsertKeepsTieOrder(x, s[1..], before, rel);
      var front := [s[0]] + mid;
      assert TiesRespect(front, before, rel) by {
        forall a, b | 0 <= a < b < |front| && Tied(before, front[a], front[b]) ensures rel(front[a], front[b]) {
          if a == 0 {
            if b > 1 {
              assert front[a] == xs[1] && front[b] == xs[b];
            }
          } else if a == 1 {
            assert front[a] == xs[0] && front[b] == xs[b];
          } else {
            assert front[a] == xs[a] && front[b] == xs[b];
          }
        }
      }
      PrependKeepsTieOrder(s[0], mid, t, before, rel);
      assert Insert(x, s, before) == [s[0]] + t;
    }
  }

  /** Stability: whatever relation the input's tied pairs satisfy in input
      order, the output's tied pairs satisfy too.  With `rel` meaning "comes
      earlier in the input", tied elements keep their input order. */
  lemma {:induction false} SortKeepsTieOrder<T(!new)>(s: seq<T>, before: (T, T) -> bool, rel: (T, T) -> bool)
    requires StrictWeakOrder(before)
    requires TiesRespect(s, before, rel)
    ensures TiesRespect(Sort(s, before), before, rel)
  {
    if s != [] {
      assert TiesRespect(s[1..], before, rel) by {
        forall i, j | 0 <= i < j < |s[1..]| && Tied(before, s[1..][i], s[1..][j])
          ensures rel(s[1..][i], s[1..][j])
        {
          assert s[1..][i] == s[i + 1] && s[1..][j] == s[j + 1];
        }
      }
      SortKeepsTieOrder(s[1..], before, rel);
      var sorted := Sort(s[1..], before);
      SortSorted(s[1..], before);
      assert s == [s[0]] + s[1..];
      PrependKeepsTieOrder(s[0], s[1..], sorted, before, rel);
      InsertKeepsTieOrder(s[0], sorted, before, rel);
    }
  }

  /** Reordering the tail keeps the head's ties respected when the reordered
      tail respects its own ties. */
  lemma {:induction false} PrependKeepsTieOrder<T>(x: T, s: seq<T>, t: seq<T>, before: (T, T) -> bool, rel: (T, T) -> bool)
    requires multiset(t) == multiset(s)
    requires TiesRespect([x] + s, before, rel)
    requires TiesRespect(t, before, rel)
    ensures TiesRespect([x] + t, before, rel)
  {
    var xt := [x] + t;
    var xs := [x] + s;
    forall i, j | 0 <= i < j < |xt| && Tied(before, xt[i], xt[j])
      ensures rel(xt[i], xt[j])
    {
      if i == 0 {
        assert xt[j] in multiset(s) by { assert t[j - 1] == xt[j]; assert xt[j] in multiset(t); }
        var k :| 0 <= k < |s| && s[k] == xt[j];
        assert xs[0] == x && xs[k + 1] == xt[j];
      } else {
        assert xt[i] == t[i - 1] && xt[j] == t[j - 1];
      }
    }
  }

  /** Under a strict total order a multiset has exactly one sorted listing,
      so the order in which equal-content inputs arrive never shows. */
  lemma {:induction false} SortedUnique<T(!new)>(a: seq<T>, b: seq<T>, before: (T, T) -> bool)
    requires StrictTotalOrder(before)
    requires Sorted(a, before) && Sorted(b, before)
    requires multiset(a) == multiset(b)
    ensures a == b
  {
    if a != [] {
      assert |b| == |a| by {
        assert |multiset(a)| == |a| && |multiset(b)| == |b|;
      }
      assert a[0] == b[0] by {
        assert a[0] in multiset(b);
        assert b[0] in multiset(a) by { assert b[0] in multiset(b); }
        var i :| 0 <= i < |b| && b[i] == a[0];
        var j :| 0 <= j < |a| && a[j] == b[0];
        assert !before(a[0], b[0]) by {
          if i > 0 { assert !before(b[i], b[0]); }
        }
        assert !before(b[0], a[0]) by {
          if j > 0 { assert !before(a[j], a[0]); }
        }
      }
      var a', b' := a[1..], b[1..];
      assert a == [a[0]] + a' && b == [b[0]] + b';
      assert multiset(a') == multiset(b') by {
        assert multiset(a) == multiset{a[0]} + multiset(a');
        assert multiset(b) == multiset{b[0]} + multiset(b');
        forall y ensures multiset(a')[y] == multiset(b')[y] {
          assert multiset(a)[y] == multiset(b)[y];
        }
      }
      assert Sorted(a', before) && Sorted(b', before);
      SortedUnique(a', b', before);
    }
  }

  /** Sorting a sequence that is already sorted leaves it unchanged. */
  lemma {:induction false} SortSortedIsIdentity<T(!new)>(s: seq<T>, before: (T, T) -> bool)
    requires StrictTotalOrder(before)
    requires Sorted(s, before)
    ensures Sort(s, before) == s
  {
    SortSorted(s, before);
    SortedUnique(Sort(s, before), s, before);
  }
}

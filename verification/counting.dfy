/** Python's `collections.Counter` over strings, built from a flat list of
    topics, and its `most_common()` listing.

    A Counter is a dict: its keys keep the order in which they were first
    inserted, so `keys` lists them in first-occurrence order.
    `most_common()` sorts the (key, count) pairs by count, largest first,
    with a stable sort, so equal counts keep first-occurrence order. */
module Counting {
  import Sorting

  /** Number of occurrences of `x` in `s`. */
  function Count(s: seq<string>, x: string): (n: nat)
    ensures n == 0 <==> x !in s
    ensures n <= |s|
  {
    if s == [] then 0
    else
      var p := s[..|s| - 1];
      assert s == p + [s[|s| - 1]];
      Count(p, x) + (if s[|s| - 1] == x then 1 else 0)
  }

  /** Occurrences in a concatenation add up. */
  lemma {:induction false} CountConcat(a: seq<string>, b: seq<string>, x: string)
    ensures Count(a + b, x) == Count(a, x) + Count(b, x)
    decreases |b|
  {
    if b != [] {
      var q, y := b[..|b| - 1], b[|b| - 1];
      assert (a + b)[..|a + b| - 1] == a + q;
      assert (a + b)[|a + b| - 1] == y;
      CountConcat(a, q, x);
      assert Count(a + b, x) == Count(a + q, x) + (if y == x then 1 else 0);
    } else {
      assert a + b == a;
    }
  }

  /** Index of the first occurrence of `x` in `s`. */
  function FirstIndex(s: seq<string>, x: string): (i: nat)
    requires x in s
    ensures i < |s| && s[i] == x
    ensures forall k :: 0 <= k < i ==> s[k] != x
  {
    var p := s[..|s| - 1];
    if x in p then FirstIndex(p, x) else |s| - 1
  }

  /** No value appears twice. */
  predicate Distinct(s: seq<string>) {
    forall i, j :: 0 <= i < j < |s| ==> s[i] != s[j]
  }

  /** A duplicate-free sequence has as many elements as its set. */
  lemma {:induction false} DistinctCard(s: seq<string>)
    requires Distinct(s)
    ensures |set x | x in s| == |s|
  {
    if s != [] {
      var p, x := s[..|s| - 1], s[|s| - 1];
      assert s == p + [x];
      DistinctCard(p);
      assert (set y | y in s) == (set y | y in p) + {x};
    }
  }

  /** In a duplicate-free sequence every element occurs exactly once. */
  lemma {:induction false} DistinctMultiset(s: seq<string>)
    requires Distinct(s)
    ensures forall x :: multiset(s)[x] == if x in s then 1 else 0
  {
    if s != [] {
      var p, x := s[..|s| - 1], s[|s| - 1];
      assert s == p + [x];
      DistinctMultiset(p);
    }
  }

  /** The dict behind a Counter: keys in insertion order and their counts. */
  datatype Counter = Counter(keys: seq<string>, counts: map<string, nat>)

  ghost predicate Valid(c: Counter) {
    && Distinct(c.keys)
    && (forall x :: x in c.counts <==> x in c.keys)
  }

  /** `c` is the Counter of `s`: exactly the elements of `s` are keys, each
      counted once per occurrence, keys in order of first occurrence. */
  ghost predicate Tallies(c: Counter, s: seq<string>) {
    && Valid(c)
    && (forall x :: x in c.counts <==> x in s)
    && (forall x :: x in c.counts ==> c.counts[x] == Count(s, x))
    && (forall i, j :: 0 <= i < j < |c.keys| ==> FirstIndex(s, c.keys[i]) < FirstIndex(s, c.keys[j]))
  }

  /** Counting one more element: `counter[x] += 1`, a new key goes last. */
  function Add(c: Counter, x: string): Counter {
    if x in c.counts then Counter(c.keys, c.counts[x := c.counts[x] + 1])
    else Counter(c.keys + [x], c.counts[x := 1])
  }

  lemma {:induction false} CountSnoc(p: seq<string>, x: string, y: string)
    ensures Count(p + [x], y) == Count(p, y) + (if x == y then 1 else 0)
  {
    assert (p + [x])[..|p|] == p;
  }

  lemma {:induction false} FirstIndexSnoc(p: seq<string>, x: string, y: string)
    requires y in p
    ensures FirstIndex(p + [x], y) == FirstIndex(p, y)
  {
    assert (p + [x])[..|p|] == p;
  }

  lemma {:induction false} AddTallies(c: Counter, p: seq<string>, x: string)
    requires Tallies(c, p)
    ensures Tallies(Add(c, x), p + [x])
  {
    if x in c.counts {
      AddOldKey(c, p, x);
    } else {
      AddNewKey(c, p, x);
    }
  }

  lemma {:induction false} AddCounts(c: Counter, p: seq<string>, x: string)
    requires Tallies(c, p)
    ensures forall y :: y in Add(c, x).counts ==> Add(c, x).counts[y] == Count(p + [x], y)
  {
    forall y | y in Add(c, x).counts ensures Add(c, x).counts[y] == Count(p + [x], y) {
      CountSnoc(p, x, y);
    }
  }

  lemma {:induction false} AddOldKey(c: Counter, p: seq<string>, x: string)
    requires Tallies(c, p) && x in c.counts
    ensures Tallies(Add(c, x), p + [x])
  {
    var s, r := p + [x], Add(c, x);
    AddCounts(c, p, x);
    forall i, j | 0 <= i < j < |r.keys| ensures FirstIndex(s, r.keys[i]) < FirstIndex(s, r.keys[j]) {
      FirstIndexSnoc(p, x, r.keys[i]);
      FirstIndexSnoc(p, x, r.keys[j]);
    }
  }

  lemma {:induction false} AddNewKey(c: Counter, p: seq<string>, x: string)
    requires Tallies(c, p) && x !in c.counts
    ensures Tallies(Add(c, x), p + [x])
  {
    var s, r := p + [x], Add(c, x);
    AddCounts(c, p, x);
    assert s[..|p|] == p;
    assert FirstIndex(s, x) == |p|;
    forall i, j | 0 <= i < j < |r.keys| ensures FirstIndex(s, r.keys[i]) < FirstIndex(s, r.keys[j]) {
      assert r.keys[i] == c.keys[i] && c.keys[i] in p;
      FirstIndexSnoc(p, x, r.keys[i]);
      if j < |c.keys| {
        FirstIndexSnoc(p, x, r.keys[j]);
      }
    }
  }

  /** `Counter(s)`. */
  function CounterOf(s: seq<string>): (c: Counter)
    ensures Tallies(c, s)
  {
    if s == [] then Counter([], map[])
    else
      var p := s[..|s| - 1];
      assert s == p + [s[|s| - 1]];
      AddTallies(CounterOf(p), p, s[|s| - 1]);
      Add(CounterOf(p), s[|s| - 1])
  }

  /** `not counter`: a Counter is falsy exactly when nothing was counted. */
  lemma {:induction false} CounterEmpty(s: seq<string>)
    ensures CounterOf(s).keys == [] <==> s == []
  {
    if s != [] {
      assert s[0] in CounterOf(s).counts;
    }
  }

  /** The (key, count) pairs in dict order, as `counter.items()` lists them. */
  function Items(c: Counter): (r: seq<(string, nat)>)
    requires Valid(c)
    ensures |r| == |c.keys|
    ensures forall i :: 0 <= i < |r| ==> r[i] == (c.keys[i], c.counts[c.keys[i]])
  {
    seq(|c.keys|, i requires 0 <= i < |c.keys| => (c.keys[i], c.counts[c.keys[i]]))
  }

  /** "Comes first in `most_common()`": strictly larger count. */
  predicate MoreCommon(a: (string, nat), b: (string, nat)) {
    a.1 > b.1
  }

  lemma {:induction false} MoreCommonIsStrictWeakOrder()
    ensures Sorting.StrictWeakOrder(MoreCommon)
  {
  }

  /** `counter.most_common()`. */
  function MostCommon(c: Counter): (r: seq<(string, nat)>)
    requires Valid(c)
    ensures Sorting.Sorted(r, MoreCommon)
    ensures multiset(r) == multiset(Items(c))
    ensures |r| == |c.keys|
  {
    MoreCommonIsStrictWeakOrder();
    Sorting.SortSorted(Items(c), MoreCommon);
    Sorting.Sort(Items(c), MoreCommon)
  }

  /** Every pair of `most_common()` is a key with its own count. */
  lemma {:induction false} MostCommonCounts(c: Counter)
    requires Valid(c)
    ensures var r := MostCommon(c);
      forall i :: 0 <= i < |r| ==> r[i].0 in c.counts && r[i].1 == c.counts[r[i].0]
  {
    var r, items := MostCommon(c), Items(c);
    forall i | 0 <= i < |r| ensures r[i].0 in c.counts && r[i].1 == c.counts[r[i].0] {
      assert r[i] in multiset(items);
    }
  }

  /** Every key is listed by `most_common()`. */
  lemma {:induction false} MostCommonComplete(c: Counter)
    requires Valid(c)
    ensures var r := MostCommon(c);
      forall x :: x in c.counts ==> exists i :: 0 <= i < |r| && r[i].0 == x
  {
    var r, items := MostCommon(c), Items(c);
    forall x | x in c.counts ensures exists i :: 0 <= i < |r| && r[i].0 == x {
      var k :| 0 <= k < |c.keys| && c.keys[k] == x;
      assert items[k] in multiset(r);
    }
  }

  lemma {:induction false} OccursOnce<T>(s: seq<T>, k: nat)
    requires k < |s|
    requires forall m :: 0 <= m < |s| && m != k ==> s[m] != s[k]
    ensures multiset(s)[s[k]] == 1
  {
    assert s == s[..k] + [s[k]] + s[k + 1..];
  }

  lemma {:induction false} OccursTwice<T>(s: seq<T>, i: nat, j: nat)
    requires i < j < |s| && s[i] == s[j]
    ensures multiset(s)[s[i]] >= 2
  {
    assert s == s[..i] + [s[i]] + s[i + 1..j] + [s[j]] + s[j + 1..];
  }

  /** Reordering keeps keys unique: a permutation of a sequence whose
      elements have pairwise different keys has pairwise different keys. */
  lemma {:induction false} PermutationKeysDistinct<T>(a: seq<T>, b: seq<T>, key: T -> string)
    requires multiset(a) == multiset(b)
    requires forall i, j :: 0 <= i < j < |a| ==> key(a[i]) != key(a[j])
    ensures forall i, j :: 0 <= i < j < |b| ==> key(b[i]) != key(b[j])
  {
    forall i, j | 0 <= i < j < |b| ensures key(b[i]) != key(b[j]) {
      if key(b[i]) == key(b[j]) {
        assert b[i] in multiset(a) && b[j] in multiset(a);
        var p :| 0 <= p < |a| && a[p] == b[i];
        var q :| 0 <= q < |a| && a[q] == b[j];
        assert p == q;
        OccursTwice(b, i, j);
        OccursOnce(a, p);
      }
    }
  }

  /** `most_common()` lists each key once. */
  lemma {:induction false} MostCommonDistinct(c: Counter)
    requires Valid(c)
    ensures var r := MostCommon(c);
      forall i, j :: 0 <= i < j < |r| ==> r[i].0 != r[j].0
  {
    var r, items := MostCommon(c), Items(c);
    MostCommonCounts(c);
    forall i, j | 0 <= i < j < |r| ensures r[i].0 != r[j].0 {
      if r[i].0 == r[j].0 {
        OccursTwice(r, i, j);
        assert r[i] in multiset(items);
        var k :| 0 <= k < |items| && items[k] == r[i];
        OccursOnce(items, k);
      }
    }
  }

  /** Stability of `most_common()`: keys with equal counts keep dict order,
      i.e. the order of their first occurrence. */
  lemma {:induction false} MostCommonTieOrder(s: seq<string>)
    ensures var c := CounterOf(s); var r := MostCommon(c);
      forall i, j :: 0 <= i < j < |r| && r[i].1 == r[j].1 ==>
        r[i].0 in s && r[j].0 in s && FirstIndex(s, r[i].0) < FirstIndex(s, r[j].0)
  {
    var c := CounterOf(s);
    var items := Items(c);
    var earlier := (a: (string, nat), b: (string, nat)) => a.0 in s && b.0 in s && FirstIndex(s, a.0) < FirstIndex(s, b.0);
    assert Sorting.TiesRespect(items, MoreCommon, earlier) by {
      forall i, j | 0 <= i < j < |items| ensures earlier(items[i], items[j]) {
        assert items[i].0 == c.keys[i] && items[j].0 == c.keys[j];
        assert c.keys[i] in c.counts && c.keys[j] in c.counts;
      }
    }
    MoreCommonIsStrictWeakOrder();
    Sorting.SortKeepsTieOrder(items, MoreCommon, earlier);
    var r := MostCommon(c);
    assert Sorting.TiesRespect(r, MoreCommon, earlier);
    forall i, j | 0 <= i < j < |r| && r[i].1 == r[j].1
      ensures r[i].0 in s && r[j].0 in s && FirstIndex(s, r[i].0) < FirstIndex(s, r[j].0)
    {
      assert Sorting.Tied(MoreCommon, r[i], r[j]);
      assert earlier(r[i], r[j]);
    }
  }
}

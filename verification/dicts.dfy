/** A Python `dict`: a map whose keys remember the order in which they were
    first inserted.  Assigning to an existing key replaces its value and
    leaves the key where it was. */
module Dicts {
  datatype Dict<K(==), V> = Dict(keys: seq<K>, values: map<K, V>)

  /** Each key listed once, and listed exactly when it has a value. */
  ghost predicate Valid<K(!new), V>(d: Dict<K, V>) {
    && (forall i, j :: 0 <= i < j < |d.keys| ==> d.keys[i] != d.keys[j])
    && (forall k :: k in d.values <==> k in d.keys)
  }

  function Empty<K(==, !new), V>(): (d: Dict<K, V>)
    ensures Valid(d) && d.keys == []
  {
    Dict([], map[])
  }

  /** `d[k] = v`. */
  function Put<K(==), V>(d: Dict<K, V>, k: K, v: V): Dict<K, V> {
    Dict(if k in d.values then d.keys else d.keys + [k], d.values[k := v])
  }

  /** An assignment keeps the dict well formed, stores `v` under `k`, leaves
      every other key's value alone, and appends `k` to the key order only
      when it is new. */
  lemma {:induction false} PutFacts<K(!new), V>(d: Dict<K, V>, k: K, v: V)
    requires Valid(d)
    ensures var r := Put(d, k, v);
      && Valid(r)
      && KeysHaveValues(r)
      && r.values[k] == v
      && (forall j :: j != k ==> (j in r.values <==> j in d.values))
      && (forall j :: j != k && j in d.values ==> r.values[j] == d.values[j])
      && (k in d.values ==> r.keys == d.keys)
      && (k !in d.values ==> r.keys == d.keys + [k])
  {
  }

  /** Every listed key has a value. */
  predicate KeysHaveValues<K(==), V>(d: Dict<K, V>) {
    forall i :: 0 <= i < |d.keys| ==> d.keys[i] in d.values
  }

  /** `d.values()`: the values in key order. */
  function Values<K(==), V>(d: Dict<K, V>): (r: seq<V>)
    requires KeysHaveValues(d)
    ensures |r| == |d.keys|
    ensures forall i :: 0 <= i < |r| ==> r[i] == d.values[d.keys[i]]
  {
    seq(|d.keys|, i requires 0 <= i < |d.keys| => d.values[d.keys[i]])
  }

  /** Rows that are a permutation of the images of the values under `f`,
      listed in key order: each row is the image of some entry, and every
      entry's image is a row. */
  lemma {:induction false} PermutedImages<K(!new), V, R>(d: Dict<K, V>, f: V -> R, raw: seq<R>, rows: seq<R>)
    requires Valid(d)
    requires |raw| == |d.keys|
    requires forall i :: 0 <= i < |raw| ==> d.keys[i] in d.values && raw[i] == f(d.values[d.keys[i]])
    requires multiset(rows) == multiset(raw)
    ensures forall i :: 0 <= i < |rows| ==> exists k :: k in d.values && rows[i] == f(d.values[k])
    ensures forall k :: k in d.values ==> f(d.values[k]) in rows
  {
    forall i | 0 <= i < |rows| ensures exists k :: k in d.values && rows[i] == f(d.values[k]) {
      assert rows[i] in multiset(raw);
      var j :| 0 <= j < |raw| && raw[j] == rows[i];
    }
    forall k | k in d.values ensures f(d.values[k]) in rows {
      var j :| 0 <= j < |d.keys| && d.keys[j] == k;
      assert raw[j] in multiset(rows);
    }
  }

  /** The same for the values themselves. */
  lemma {:induction false} PermutedValues<K(!new), V>(d: Dict<K, V>, rows: seq<V>)
    requires Valid(d) && KeysHaveValues(d)
    requires multiset(rows) == multiset(Values(d))
    ensures forall i :: 0 <= i < |rows| ==> exists k :: k in d.values && rows[i] == d.values[k]
    ensures forall k :: k in d.values ==> d.values[k] in rows
  {
    var raw := Values(d);
    forall i | 0 <= i < |rows| ensures exists k :: k in d.values && rows[i] == d.values[k] {
      assert rows[i] in multiset(raw);
      var j :| 0 <= j < |raw| && raw[j] == rows[i];
    }
    forall k | k in d.values ensures d.values[k] in rows {
      var j :| 0 <= j < |d.keys| && d.keys[j] == k;
      assert raw[j] in multiset(rows);
    }
  }
}

/**
 Insertion-ordered maps with string keys, the model of a Python `dict`:
 assigning a new key appends it to the iteration order, assigning an existing
 key replaces its value and keeps its position.
 */
module OrderedMaps {

  /** No element occurs twice in `s`. */
  ghost predicate NoDup<T>(s: seq<T>) {
    forall i, j :: 0 <= i < j < |s| ==> s[i] != s[j]
  }

  /** The elements of `s` as a set. */
  function Elements<T>(s: seq<T>): set<T> {
    set x | x in s
  }

  datatype OrderedMap<V> = OrderedMap(keys: seq<string>, values: map<string, V>) {

    /** `keys` is the iteration order: every key of `values`, each exactly once. */
    ghost predicate Valid() {
      && NoDup(keys)
      && (forall k :: k in keys <==> k in values)
    }
  }

  /** `{}` */
  function Empty<V>(): (m: OrderedMap<V>)
    ensures m.Valid()
    ensures m.keys == [] && m.values == map[]
  {
    OrderedMap([], map[])
  }

  /** `m[k] = v`: the value of `k` becomes `v`, the other entries are kept, and
      the iteration order only changes by `k` going last when it is new. */
  function Put<V>(m: OrderedMap<V>, k: string, v: V): (r: OrderedMap<V>)
    requires m.Valid()
    ensures r.Valid()
    ensures r.values == m.values[k := v]
    ensures k in m.values ==> r.keys == m.keys
    ensures k !in m.values ==> r.keys == m.keys + [k]
  {
    if k in m.values then OrderedMap(m.keys, m.values[k := v])
    else OrderedMap(m.keys + [k], m.values[k := v])
  }

  /** A duplicate-free sequence has as many elements as its set. */
  lemma {:induction false} DistinctCardinality<T>(s: seq<T>)
    requires NoDup(s)
    ensures |Elements(s)| == |s|
  {
    if |s| > 0 {
      var p := s[..|s| - 1];
      var x := s[|s| - 1];
      assert s == p + [x];
      assert NoDup(p);
      DistinctCardinality(p);
      assert x !in Elements(p);
      assert Elements(s) == Elements(p) + {x};
    }
  }

  /** A subset is no larger than its superset. */
  lemma {:induction false} SubsetCardinality<T>(a: set<T>, b: set<T>)
    requires a <= b
    ensures |a| <= |b|
    decreases |a|
  {
    if a != {} {
      var x :| x in a;
      SubsetCardinality(a - {x}, b - {x});
    }
  }
}

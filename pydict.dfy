/**
 * Python's `zip` and the insertion-ordered `dict` built from a list of pairs,
 * as the flattening code uses them in `dict(zip(headers, values))`.
 */
module PyDict {
  import opened Wrappers
  import opened Sequences

  /** `list(zip(a, b))`: pairs of equal positions, as many as the shorter list has. */
  function Zip<A, B>(a: seq<A>, b: seq<B>): (r: seq<(A, B)>)
    ensures |r| == if |a| <= |b| then |a| else |b|
  {
    var n := if |a| <= |b| then |a| else |b|;
    seq(n, i requires 0 <= i < n => (a[i], b[i]))
  }

  /** The keys of an ordered dict (or of a list of pairs), in order. */
  function Keys<K, V>(d: seq<(K, V)>): (r: seq<K>)
    ensures |r| == |d| && forall i :: 0 <= i < |d| ==> r[i] == d[i].0
  {
    seq(|d|, i requires 0 <= i < |d| => d[i].0)
  }

  /** `d.get(k)`: the value stored under the first entry with key `k`. */
  function Get<K(==), V>(d: seq<(K, V)>, k: K): Option<V>
  {
    if k in Keys(d) then Some(d[FirstIndex(Keys(d), k)].1) else None
  }

  /** `d[k] = v`: an existing key keeps its position and takes the new value; a new key goes last. */
  function Put<K(==), V>(d: seq<(K, V)>, k: K, v: V): (r: seq<(K, V)>)
  {
    if k in Keys(d) then d[FirstIndex(Keys(d), k) := (k, v)] else d + [(k, v)]
  }

  /** `dict(pairs)`: the pairs stored one after the other, in order. */
  function DictOf<K(==), V>(pairs: seq<(K, V)>): (r: seq<(K, V)>)
    ensures |r| <= |pairs|
    decreases |pairs|
  {
    if pairs == [] then []
    else
      var last := pairs[|pairs| - 1];
      Put(DictOf(pairs[..|pairs| - 1]), last.0, last.1)
  }

  /** The value of the last pair of the list whose key is `k`. */
  function LastValue<K(==), V>(pairs: seq<(K, V)>, k: K): Option<V>
    decreases |pairs|
  {
    if pairs == [] then None
    else if pairs[|pairs| - 1].0 == k then Some(pairs[|pairs| - 1].1)
    else LastValue(pairs[..|pairs| - 1], k)
  }

  lemma {:induction false} GetPut<K, V>(d: seq<(K, V)>, k: K, v: V, k': K)
    ensures Keys(Put(d, k, v)) == if k in Keys(d) then Keys(d) else Keys(d) + [k]
    ensures Get(Put(d, k, v), k') == if k' == k then Some(v) else Get(d, k')
  {
    var d' := Put(d, k, v);
    if k in Keys(d) {
      assert Keys(d') == Keys(d);
    } else {
      assert Keys(d') == Keys(d) + [k];
      if k' in Keys(d) {
        FirstIndexAppend(Keys(d), [k], k');
      }
    }
  }

  /**
   * `dict(pairs)` has one entry per distinct key, in the order in which the
   * keys first occur, and each key holds the value of its LAST pair.
   */
  lemma {:induction false} DictOfSpec<K, V>(pairs: seq<(K, V)>)
    ensures Keys(DictOf(pairs)) == Distinct(Keys(pairs))
    ensures forall k :: Get(DictOf(pairs), k) == LastValue(pairs, k)
    decreases |pairs|
  {
    if pairs != [] {
      var front, last := pairs[..|pairs| - 1], pairs[|pairs| - 1];
      DictOfSpec(front);
      assert Keys(pairs)[..|pairs| - 1] == Keys(front);
      forall k ensures Get(DictOf(pairs), k) == LastValue(pairs, k) {
        GetPut(DictOf(front), last.0, last.1, k);
      }
      GetPut(DictOf(front), last.0, last.1, last.0);
      DistinctSpec(Keys(front));
    }
  }

  /** Pairs whose keys are all different make a dict that lists them unchanged. */
  lemma {:induction false} DictOfNoDup<K, V>(pairs: seq<(K, V)>)
    requires NoDup(Keys(pairs))
    ensures DictOf(pairs) == pairs
    decreases |pairs|
  {
    if pairs != [] {
      var front, last := pairs[..|pairs| - 1], pairs[|pairs| - 1];
      assert Keys(front) == Keys(pairs)[..|pairs| - 1];
      DictOfNoDup(front);
      assert last.0 !in Keys(front);
      assert front + [last] == pairs;
    }
  }

  /** Every key of `dict(pairs)` comes from `pairs`, none repeats, and each holds the last value given for it. */
  lemma DictOfEntries<K, V>(pairs: seq<(K, V)>)
    ensures NoDup(Keys(DictOf(pairs)))
    ensures forall k :: k in Keys(DictOf(pairs)) ==> k in Keys(pairs)
    ensures forall k :: k in Keys(pairs) ==> k in Keys(DictOf(pairs))
    ensures forall i :: 0 <= i < |DictOf(pairs)| ==> LastValue(pairs, DictOf(pairs)[i].0) == Some(DictOf(pairs)[i].1)
  {
    DictOfSpec(pairs);
    DistinctSpec(Keys(pairs));
    var d := DictOf(pairs);
    forall i | 0 <= i < |d| ensures LastValue(pairs, d[i].0) == Some(d[i].1) {
      assert Get(d, d[i].0) == Some(d[FirstIndex(Keys(d), d[i].0)].1);
      assert FirstIndex(Keys(d), d[i].0) == i;
    }
  }
}

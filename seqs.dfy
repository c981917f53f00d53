/** Facts about sequences shared by the table flattener and the XPath functions. */
module Sequences {

  predicate NoDup<T(==)>(s: seq<T>)
  {
    forall i, j :: 0 <= i < j < |s| ==> s[i] != s[j]
  }

  /** The position of the first occurrence of `x` in `s`. */
  function FirstIndex<T(==)>(s: seq<T>, x: T): (k: nat)
    requires x in s
    ensures k < |s| && s[k] == x && x !in s[..k]
  {
    if s[0] == x then 0 else 1 + FirstIndex(s[1..], x)
  }

  lemma {:induction false} FirstIndexAppend<T>(s: seq<T>, t: seq<T>, x: T)
    requires x in s
    ensures FirstIndex(s + t, x) == FirstIndex(s, x)
  {
    if s[0] != x {
      assert (s + t)[1..] == s[1..] + t;
      FirstIndexAppend(s[1..], t, x);
    }
  }

  /** The elements of `s` with every repeat after the first occurrence dropped. */
  function Distinct<T(==)>(s: seq<T>): (r: seq<T>)
    ensures |r| <= |s|
    decreases |s|
  {
    if s == [] then []
    else
      var init, last := s[..|s| - 1], s[|s| - 1];
      if last in init then Distinct(init) else Distinct(init) + [last]
  }

  /**
   * `Distinct` lists each element of `s` exactly once, in the order of
   * first occurrence in `s`.
   */
  lemma {:induction false} DistinctSpec<T>(s: seq<T>)
    ensures NoDup(Distinct(s))
    ensures forall x :: x in Distinct(s) ==> x in s
    ensures forall x :: x in s ==> x in Distinct(s)
    ensures forall i, j :: 0 <= i < j < |Distinct(s)| ==>
              FirstIndex(s, Distinct(s)[i]) < FirstIndex(s, Distinct(s)[j])
    decreases |s|
  {
    if s != [] {
      var init, last := s[..|s| - 1], s[|s| - 1];
      assert s == init + [last];
      DistinctSpec(init);
      var d := Distinct(init);
      forall x | x in d ensures FirstIndex(s, x) == FirstIndex(init, x) {
        FirstIndexAppend(init, [last], x);
      }
      if last !in init {
        assert FirstIndex(s, last) == |init|;
      }
    }
  }

  /** Distinct of a list without repeats is the list itself. */
  lemma {:induction false} DistinctOfNoDup<T>(s: seq<T>)
    requires NoDup(s)
    ensures Distinct(s) == s
    decreases |s|
  {
    if s != [] {
      var init := s[..|s| - 1];
      assert s == init + [s[|s| - 1]];
      DistinctOfNoDup(init);
    }
  }

  /** The first element of a non-empty list is the first element of its distinct values. */
  lemma {:induction false} DistinctHead<T>(s: seq<T>)
    requires |s| > 0
    ensures |Distinct(s)| > 0 && Distinct(s)[0] == s[0]
    decreases |s|
  {
    if |s| > 1 {
      var init := s[..|s| - 1];
      DistinctHead(init);
    }
  }
}

/**
 * The XPath 2.0 functions of elementpath that work on whole sequences
 * (section 15.1 of XPath and XQuery Functions and Operators 2.0), the
 * component extractors of durations (section 10.5) and the codepoint
 * functions, over sequences of values.
 */
module XPathFunctions {
  import opened Wrappers
  import opened XPathErrors
  import opened Sequences

  // ---------------------------------------------------------------------
  // Selecting items by position

  /** The items of `s` whose 0-based position satisfies `keep`, in order. */
  function SelectPositions<T>(s: seq<T>, keep: int -> bool): (r: seq<T>)
    ensures |r| <= |s|
    decreases |s|
  {
    if s == [] then []
    else SelectPositions(s[..|s| - 1], keep) + (if keep(|s| - 1) then [s[|s| - 1]] else [])
  }

  /** Keeping the positions of an interval keeps a slice. */
  lemma SelectInterval<T>(s: seq<T>, keep: int -> bool, lo: nat, hi: nat)
    requires lo <= hi <= |s|
    requires forall p :: 0 <= p < |s| ==> (keep(p) <==> lo <= p < hi)
    ensures SelectPositions(s, keep) == s[lo..hi]
  {
    SelectPrefix(s, keep, lo, hi, |s|);
    assert s[..|s|] == s;
  }

  /** The same for the first `k` items: the part of the interval below `k`. */
  lemma {:induction false} SelectPrefix<T>(s: seq<T>, keep: int -> bool, lo: nat, hi: nat, k: nat)
    requires lo <= hi <= |s| && k <= |s|
    requires forall p :: 0 <= p < |s| ==> (keep(p) <==> lo <= p < hi)
    ensures SelectPositions(s[..k], keep) == s[if lo < k then lo else k..if hi < k then hi else k]
    decreases k
  {
    if k > 0 {
      SelectPrefix(s, keep, lo, hi, k - 1);
      assert s[..k][..k - 1] == s[..k - 1];
      if keep(k - 1) {
        assert s[lo..k] == s[lo..k - 1] + [s[k - 1]];
      }
    }
  }

  function Clamp(n: int, len: nat): (r: nat)
    ensures r <= len && (0 <= n <= len ==> r == n)
  {
    if n < 0 then 0 else if n > len then len else n
  }

  // ---------------------------------------------------------------------
  // insert-before, remove, reverse, index-of

  /** Where `insert-before` puts the inserted items: position `p` counted from 1, clamped to the sequence. */
  function InsertionPoint(position: int, len: nat): nat
  {
    Clamp(position - 1, len)
  }

  /**
   * `insert-before(target, position, inserts)`, with `position` the value
   * the argument evaluates to (see `InsertBeforeAsWritten` for the code,
   * which reads the token's value instead): the items of `target`, with
   * `inserts` yielded just before the item at 0-based position
   * `max(0, position - 1)`, or after all of them when no item has that position.
   */
  method InsertBefore<T>(target: seq<T>, position: int, inserts: seq<T>) returns (r: seq<T>)
    ensures var k := InsertionPoint(position, |target|); r == target[..k] + inserts + target[k..]
  {
    var insertAt := if position - 1 > 0 then position - 1 else 0;
    var inserted := false;
    r := [];
    for pos := 0 to |target|
      invariant inserted <==> insertAt < pos
      invariant r == if inserted then target[..insertAt] + inserts + target[insertAt..pos] else target[..pos]
    {
      if !inserted && pos == insertAt {
        r := r + inserts;
        inserted := true;
      }
      r := r + [target[pos]];
      assert target[..pos + 1] == target[..pos] + [target[pos]];
      if inserted {
        assert target[insertAt..pos + 1] == target[insertAt..pos] + [target[pos]];
      }
    }
    if !inserted {
      r := r + inserts;
      assert target[..|target|] == target;
    } else {
      assert target[insertAt..|target|] == target[insertAt..];
    }
  }

  /**
   * A position of 1 or less prepends, a position past the end appends, and
   * the result holds exactly the items of both sequences.
   */
  lemma InsertionPointSpec<T>(target: seq<T>, position: int, inserts: seq<T>)
    ensures var k := InsertionPoint(position, |target|);
      (position <= 1 ==> target[..k] + inserts + target[k..] == inserts + target)
      && (position > |target| ==> target[..k] + inserts + target[k..] == target + inserts)
      && multiset(target[..k] + inserts + target[k..]) == multiset(target) + multiset(inserts)
  {
    var k := InsertionPoint(position, |target|);
    assert target == target[..k] + target[k..];
  }

  /**
   * The position argument of `insert-before` as the parser hands it over:
   * an unsigned integer literal, whose token value is its number, or any
   * other expression (a variable, a unary minus, an arithmetic expression),
   * whose token value is a name or a symbol rather than a number.
   */
  datatype PositionArg = IntegerLiteral(n: nat) | Expression(value: int)

  /** The integer the position argument evaluates to. */
  function Evaluated(p: PositionArg): int
  {
    match p
    case IntegerLiteral(n) => n
    case Expression(v) => v
  }

  /**
   * `insert-before` as written: the position is the token's value, not the
   * argument evaluated, so only an integer literal gives a number; for any
   * other expression `value - 1` raises TypeError.
   */
  function InsertBeforeAsWritten<T>(target: seq<T>, position: PositionArg, inserts: seq<T>): (r: Result<seq<T>, XPathError>)
    ensures r.Err? <==> position.Expression?
    ensures r.Err? ==> r.error == PythonError("TypeError")
    ensures r.Ok? ==> multiset(r.value) == multiset(target) + multiset(inserts)
  {
    match position
    case IntegerLiteral(n) =>
      InsertionPointSpec(target, n, inserts);
      var k := InsertionPoint(n, |target|);
      Ok(target[..k] + inserts + target[k..])
    case Expression(_) => Err(PythonError("TypeError"))
  }

  /**
   * `insert-before((1, 2, 3), -1, 9)`: `-1` is a unary minus applied to a
   * literal, so the code as written raises TypeError, where the evaluated
   * position -1 prepends the 9.
   */
  lemma InsertBeforeNegativePosition()
    ensures InsertBeforeAsWritten([1, 2, 3], Expression(-1), [9]) == Err(PythonError("TypeError"))
    ensures var k := InsertionPoint(Evaluated(Expression(-1)), 3); [1, 2, 3][..k] + [9] + [1, 2, 3][k..] == [9, 1, 2, 3]
  {
    InsertionPointSpec([1, 2, 3], -1, [9]);
  }

  /** On an integer literal, the code as written inserts where the evaluated position says. */
  lemma InsertBeforeAgrees<T>(target: seq<T>, position: PositionArg, inserts: seq<T>)
    requires position.IntegerLiteral?
    ensures var k := InsertionPoint(Evaluated(position), |target|);
      InsertBeforeAsWritten(target, position, inserts) == Ok(target[..k] + inserts + target[k..])
  {
  }

  /** `remove(target, position)`: every item except the one at 0-based position `position - 1`. */
  function Remove<T>(target: seq<T>, position: int): seq<T>
  {
    SelectPositions(target, pos => pos != position - 1)
  }

  /** Exactly the item at 1-based `position` is dropped when there is one; otherwise nothing is. */
  lemma {:induction false} RemoveSpec<T>(target: seq<T>, position: int)
    ensures 1 <= position <= |target| ==> Remove(target, position) == target[..position - 1] + target[position..]
    ensures !(1 <= position <= |target|) ==> Remove(target, position) == target
    decreases |target|
  {
    if target != [] {
      var init := target[..|target| - 1];
      RemoveSpec(init, position);
      if 1 <= position <= |init| {
        assert target[position..] == init[position..] + [target[|target| - 1]];
      } else {
        assert target == init + [target[|target| - 1]];
      }
    }
  }

  /** `reverse(s)`: the items in the opposite order. */
  function Reverse<T>(s: seq<T>): (r: seq<T>)
    ensures |r| == |s| && forall i :: 0 <= i < |s| ==> r[i] == s[|s| - 1 - i]
  {
    seq(|s|, i requires 0 <= i < |s| => s[|s| - 1 - i])
  }

  lemma ReverseReverse<T>(s: seq<T>)
    ensures Reverse(Reverse(s)) == s
  {
  }

  /** `index-of(s, value)`: the 1-based positions of the items equal to `value`. */
  function IndexOf<T(==)>(s: seq<T>, value: T): (r: seq<nat>)
    ensures |r| <= |s|
    ensures forall k :: k in r ==> 1 <= k <= |s| && s[k - 1] == value
    decreases |s|
  {
    if s == [] then []
    else IndexOf(s[..|s| - 1], value) + (if s[|s| - 1] == value then [|s|] else [])
  }

  /** The positions are strictly increasing, and are exactly those of the items equal to `value`. */
  lemma {:induction false} IndexOfSpec<T>(s: seq<T>, value: T)
    ensures forall i, j :: 0 <= i < j < |IndexOf(s, value)| ==> IndexOf(s, value)[i] < IndexOf(s, value)[j]
    ensures forall k :: k in IndexOf(s, value) ==> 1 <= k <= |s| && s[k - 1] == value
    ensures forall p :: 0 <= p < |s| && s[p] == value ==> p + 1 in IndexOf(s, value)
    decreases |s|
  {
    if s != [] {
      var init := s[..|s| - 1];
      IndexOfSpec(init, value);
      var r, r' := IndexOf(init, value), IndexOf(s, value);
      forall i, j | 0 <= i < j < |r'| ensures r'[i] < r'[j] {
        if j >= |r| {
          assert r'[i] == r[i] && r[i] in r;
        }
      }
    }
  }

  // ---------------------------------------------------------------------
  // subsequence

  /**
   * `subsequence(s, start, length)` as elementpath computes it: the items at
   * 0-based position `pos` with `start - 1 <= pos` and, unless the length is
   * absent or zero, `pos < start - 1 + length`.
   */
  function SubsequenceAsWritten<T>(s: seq<T>, start: int, length: Option<int>): seq<T>
  {
    var startingLoc := start - 1;
    var len := if length.Some? then length.value else 0;
    SelectPositions(s, pos => startingLoc <= pos && (len == 0 || pos < startingLoc + len))
  }

  /**
   * `subsequence(s, start, length)` as section 15.1 of XPath and XQuery
   * Functions and Operators 2.0 defines it: the items at 1-based position
   * `p` with `start <= p`, and `p < start + length` when a length is given.
   */
  function Subsequence<T>(s: seq<T>, start: int, length: Option<int>): seq<T>
  {
    SelectPositions(s, pos => start - 1 <= pos && (length.None? || pos < start - 1 + length.value))
  }

  /** A zero length gives the whole tail where the standard gives the empty sequence. */
  lemma SubsequenceZeroLength()
    ensures SubsequenceAsWritten([10, 20, 30], 2, Some(0)) == [20, 30]
    ensures Subsequence([10, 20, 30], 2, Some(0)) == []
  {
    var s := [10, 20, 30];
    assert s[..2] == [10, 20] && s[..2][..1] == [10] && s[..2][..1][..0] == [];
    var code := pos => 1 <= pos && (0 == 0 || pos < 1 + 0);
    var std := pos => 1 <= pos && (Some(0).None? || pos < 1 + Some(0).value);
    assert SelectPositions([10], code) == [];
    assert SelectPositions([10, 20], code) == [20];
    assert SelectPositions([10], std) == [];
    assert SelectPositions([10, 20], std) == [];
  }

  /** Apart from a zero length, the code computes the standard's subsequence. */
  lemma SubsequenceAgrees<T>(s: seq<T>, start: int, length: Option<int>)
    requires length != Some(0)
    ensures SubsequenceAsWritten(s, start, length) == Subsequence(s, start, length)
  {
    var keepCode := pos => start - 1 <= pos && ((if length.Some? then length.value else 0) == 0 || pos < start - 1 + (if length.Some? then length.value else 0));
    var keepStd := pos => start - 1 <= pos && (length.None? || pos < start - 1 + length.value);
    SelectSame(s, keepCode, keepStd);
  }

  lemma {:induction false} SelectSame<T>(s: seq<T>, keep: int -> bool, keep': int -> bool)
    requires forall p :: 0 <= p < |s| ==> keep(p) == keep'(p)
    ensures SelectPositions(s, keep) == SelectPositions(s, keep')
    decreases |s|
  {
    if s != [] {
      SelectSame(s[..|s| - 1], keep, keep');
    }
  }

  /**
   * The standard's subsequence is a slice: from `start - 1` clamped to the
   * sequence, to the end or to `start - 1 + length` clamped likewise; a
   * negative or zero length gives the empty sequence.
   */
  lemma SubsequenceSlice<T>(s: seq<T>, start: int, length: Option<int>)
    ensures var lo := Clamp(start - 1, |s|);
      Subsequence(s, start, length) ==
        if length.None? then s[lo..]
        else if start - 1 + length.value <= lo then []
        else s[lo..Clamp(start - 1 + length.value, |s|)]
  {
    var keep := pos => start - 1 <= pos && (length.None? || pos < start - 1 + length.value);
    var lo := Clamp(start - 1, |s|);
    if length.None? {
      SelectInterval(s, keep, lo, |s|);
    } else if start - 1 + length.value <= lo {
      SelectInterval(s, keep, lo, lo);
    } else {
      SelectInterval(s, keep, lo, Clamp(start - 1 + length.value, |s|));
    }
  }

  // ---------------------------------------------------------------------
  // distinct-values

  /**
   * `distinct-values(s)`: each value is yielded the first time it occurs,
   * and remembered in the `results` list.
   */
  method DistinctValues<T(==)>(s: seq<T>) returns (results: seq<T>)
    ensures results == Distinct(s)
  {
    results := [];
    for i := 0 to |s|
      invariant results == Distinct(s[..i])
    {
      var value := s[i];
      assert s[..i + 1][..i] == s[..i];
      DistinctSpec(s[..i]);
      if value !in results {
        results := results + [value];
      }
    }
    assert s[..|s|] == s;
  }

  // ---------------------------------------------------------------------
  // Cardinality checks

  /** `zero-or-one(s)`: the sequence when it has at most one item, FORG0003 otherwise. */
  function ZeroOrOne<T>(s: seq<T>): (r: Result<seq<T>, XPathError>)
    ensures r.Ok? <==> |s| <= 1
    ensures r.Ok? ==> r.value == s
    ensures r.Err? ==> r.error == XPathError("FORG0003")
  {
    if |s| == 0 then Ok([])
    else if |s| == 1 then Ok([s[0]])
    else Err(XPathError("FORG0003"))
  }

  /** `one-or-more(s)`: the sequence when it is not empty, FORG0004 otherwise. */
  function OneOrMore<T>(s: seq<T>): (r: Result<seq<T>, XPathError>)
    ensures r.Ok? <==> |s| >= 1
    ensures r.Ok? ==> r.value == s
    ensures r.Err? ==> r.error == XPathError("FORG0004")
  {
    if |s| == 0 then Err(XPathError("FORG0004"))
    else assert [s[0]] + s[1..] == s; Ok([s[0]] + s[1..])
  }

  /** `exactly-one(s)`: the sequence when it has one item, FORG0005 otherwise. */
  function ExactlyOne<T>(s: seq<T>): (r: Result<seq<T>, XPathError>)
    ensures r.Ok? <==> |s| == 1
    ensures r.Ok? ==> r.value == s
    ensures r.Err? ==> r.error == XPathError("FORG0005")
  {
    if |s| == 0 then Err(XPathError("FORG0005"))
    else if |s| == 1 then Ok([s[0]])
    else Err(XPathError("FORG0005"))
  }

  // ---------------------------------------------------------------------
  // Components of durations

  /**
   * A duration: a number of months and a number of seconds. elementpath
   * keeps the seconds as a decimal, which may have a fraction; the model
   * keeps whole seconds only.
   */
  datatype Duration = Duration(months: int, seconds: int)

  /** `years-from-duration`: whole years of the months, truncated toward zero. */
  function YearsFromDuration(d: Option<Duration>): (r: Option<int>)
    ensures r.Some? <==> d.Some?
    ensures d.Some? && d.value.months >= 0 ==> r.value >= 0
    ensures d.Some? && d.value.months <= 0 ==> r.value <= 0
  {
    match d
    case None => None
    case Some(x) => Some(if x.months >= 0 then x.months / 12 else -((-x.months) / 12))
  }

  /** `months-from-duration`: the months left over, with the sign of the duration. */
  function MonthsFromDuration(d: Option<Duration>): (r: Option<int>)
    ensures r.Some? <==> d.Some?
    ensures d.Some? && d.value.months >= 0 ==> r.value >= 0
    ensures d.Some? && d.value.months <= 0 ==> r.value <= 0
    ensures r.Some? ==> -12 < r.value < 12
  {
    match d
    case None => None
    case Some(x) => Some(if x.months >= 0 then x.months % 12 else -((-x.months) % 12))
  }

  /** `days-from-duration`: whole days of the seconds, truncated toward zero. */
  function DaysFromDuration(d: Option<Duration>): (r: Option<int>)
    ensures r.Some? <==> d.Some?
    ensures d.Some? && d.value.seconds >= 0 ==> r.value >= 0
    ensures d.Some? && d.value.seconds <= 0 ==> r.value <= 0
  {
    match d
    case None => None
    case Some(x) => Some(if x.seconds >= 0 then x.seconds / 86400 else -((-x.seconds) / 86400))
  }

  /** `hours-from-duration`: the hours left over after the days. */
  function HoursFromDuration(d: Option<Duration>): (r: Option<int>)
    ensures r.Some? <==> d.Some?
    ensures d.Some? && d.value.seconds >= 0 ==> r.value >= 0
    ensures d.Some? && d.value.seconds <= 0 ==> r.value <= 0
    ensures r.Some? ==> -24 < r.value < 24
  {
    match d
    case None => None
    case Some(x) => Some(if x.seconds >= 0 then x.seconds / 3600 % 24 else -((-x.seconds) / 3600 % 24))
  }

  /** `minutes-from-duration`: the minutes left over after the hours. */
  function MinutesFromDuration(d: Option<Duration>): (r: Option<int>)
    ensures r.Some? <==> d.Some?
    ensures d.Some? && d.value.seconds >= 0 ==> r.value >= 0
    ensures d.Some? && d.value.seconds <= 0 ==> r.value <= 0
    ensures r.Some? ==> -60 < r.value < 60
  {
    match d
    case None => None
    case Some(x) => Some(if x.seconds >= 0 then x.seconds / 60 % 60 else -((-x.seconds) / 60 % 60))
  }

  /** `seconds-from-duration`: the seconds left over after the minutes. */
  function SecondsFromDuration(d: Option<Duration>): (r: Option<int>)
    ensures r.Some? <==> d.Some?
    ensures d.Some? && d.value.seconds >= 0 ==> r.value >= 0
    ensures d.Some? && d.value.seconds <= 0 ==> r.value <= 0
    ensures r.Some? ==> -60 < r.value < 60
  {
    match d
    case None => None
    case Some(x) => Some(if x.seconds >= 0 then x.seconds % 60 else -((-x.seconds) % 60))
  }

  /**
   * Years and months put back together give the duration's months; the
   * months component lies strictly between -12 and 12 and has the sign of
   * the duration. An empty argument gives the empty sequence.
   */
  lemma YearMonthComponents(d: Duration)
    ensures YearsFromDuration(Some(d)).value * 12 + MonthsFromDuration(Some(d)).value == d.months
    ensures -12 < MonthsFromDuration(Some(d)).value < 12
    ensures d.months >= 0 ==> YearsFromDuration(Some(d)).value >= 0 && MonthsFromDuration(Some(d)).value >= 0
    ensures d.months < 0 ==> YearsFromDuration(Some(d)).value <= 0 && MonthsFromDuration(Some(d)).value <= 0
    ensures YearsFromDuration(None) == None && MonthsFromDuration(None) == None
  {
  }

  /**
   * Days, hours, minutes and seconds put back together give the duration's
   * seconds; each component after the days is bounded by its unit and all of
   * them have the sign of the duration.
   */
  lemma DayTimeComponents(d: Duration)
    ensures var days, hours := DaysFromDuration(Some(d)).value, HoursFromDuration(Some(d)).value;
      var minutes, seconds := MinutesFromDuration(Some(d)).value, SecondsFromDuration(Some(d)).value;
      days * 86400 + hours * 3600 + minutes * 60 + seconds == d.seconds
      && -24 < hours < 24 && -60 < minutes < 60 && -60 < seconds < 60
      && (d.seconds >= 0 ==> days >= 0 && hours >= 0 && minutes >= 0 && seconds >= 0)
      && (d.seconds < 0 ==> days <= 0 && hours <= 0 && minutes <= 0 && seconds <= 0)
  {
    var s: nat := if d.seconds >= 0 then d.seconds else -d.seconds;
    SplitSeconds(s);
  }

  lemma SplitSeconds(s: nat)
    ensures s / 86400 * 86400 + s / 3600 % 24 * 3600 + s / 60 % 60 * 60 + s % 60 == s
  {
    var m := s / 60;
    var h := m / 60;
    assert s == m * 60 + s % 60;
    assert m == h * 60 + m % 60;
    assert h == h / 24 * 24 + h % 24;
    assert s / 3600 == h;
    assert s / 86400 == h / 24;
  }

  // ---------------------------------------------------------------------
  // Codepoints

  /** A number that is a Unicode scalar value, the codepoints a string can hold. */
  predicate IsScalar(cp: int)
  {
    0 <= cp < 0xD800 || 0xE000 <= cp < 0x11_0000
  }

  /** `codepoints-to-string(cps)`: the string of those characters; `chr` rejects a number out of range. */
  function CodepointsToString(cps: seq<int>): (r: Result<string, XPathError>)
    ensures r.Ok? <==> forall i :: 0 <= i < |cps| ==> IsScalar(cps[i])
    ensures r.Ok? ==> |r.value| == |cps|
    decreases |cps|
  {
    if cps == [] then Ok([])
    else if !IsScalar(cps[0]) then Err(PythonError("ValueError"))
    else
      match CodepointsToString(cps[1..])
      case Err(e) =>
        assert exists i :: 1 <= i < |cps| && !IsScalar(cps[i]) by {
          var j :| 0 <= j < |cps[1..]| && !IsScalar(cps[1..][j]);
          assert cps[j + 1] == cps[1..][j];
        }
        Err(e)
      case Ok(rest) =>
        assert forall i :: 1 <= i < |cps| ==> cps[i] == cps[1..][i - 1];
        Ok([cps[0] as char] + rest)
  }

  /** `string-to-codepoints(s)`: the codepoint of each character. */
  function StringToCodepoints(s: string): (r: seq<int>)
    ensures |r| == |s| && forall i :: 0 <= i < |s| ==> r[i] == s[i] as int
  {
    seq(|s|, i requires 0 <= i < |s| => s[i] as int)
  }

  /** The two conversions are inverse to each other. */
  lemma {:induction false} CodepointsRoundTrip(s: string)
    ensures CodepointsToString(StringToCodepoints(s)) == Ok(s)
    decreases |s|
  {
    if s != [] {
      assert StringToCodepoints(s)[1..] == StringToCodepoints(s[1..]);
      CodepointsRoundTrip(s[1..]);
      assert s == [s[0]] + s[1..];
    }
  }

  lemma {:induction false} StringRoundTrip(cps: seq<int>)
    requires CodepointsToString(cps).Ok?
    ensures StringToCodepoints(CodepointsToString(cps).value) == cps
    decreases |cps|
  {
    if cps != [] {
      StringRoundTrip(cps[1..]);
    }
  }

  /**
   * `codepoint-equal(a, b)`: empty when either argument is empty; false for
   * different lengths; otherwise whether every pair of characters has the
   * same codepoint.
   */
  function CodepointEqual(a: Option<string>, b: Option<string>): (r: Option<bool>)
    ensures r.None? <==> a.None? || b.None?
  {
    if a.None? || b.None? then None
    else if |a.value| != |b.value| then Some(false)
    else Some(forall i :: 0 <= i < |a.value| ==> a.value[i] as int == b.value[i] as int)
  }

  /** Two present strings are codepoint-equal exactly when they are equal. */
  lemma CodepointEqualSpec(a: Option<string>, b: Option<string>)
    ensures a.Some? && b.Some? ==> CodepointEqual(a, b) == Some(a.value == b.value)
  {
    if a.Some? && b.Some? && |a.value| == |b.value| && CodepointEqual(a, b) == Some(true) {
      assert forall i :: 0 <= i < |a.value| ==> a.value[i] == b.value[i];
    }
  }
}

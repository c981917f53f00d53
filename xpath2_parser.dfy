/**
 * Evaluation rules of elementpath's XPath 2.0 parser. An operand is
 * abstracted as the sequence of items it selects, or the value it
 * evaluates to; the dynamic context only matters through whether there is
 * one and through the document order of its root.
 */
module XPath2Parser {
  import opened Wrappers
  import opened XPathErrors
  import opened XPathToken
  import opened Sequences
  import opened Namespaces

  // ---------------------------------------------------------------------
  // Nested comments

  /** The delimiter that ends a stretch of raw comment text. */
  datatype Delim = Open | Close

  /** A stretch of raw text and the delimiter found after it. */
  datatype Piece = Piece(text: string, delim: Delim)

  function Symbol(d: Delim): string
  {
    if d == Open then "(:" else ":)"
  }

  /** The pieces written back out, each text followed by its delimiter. */
  function Joined(pieces: seq<Piece>): string
  {
    if pieces == [] then "" else pieces[0].text + Symbol(pieces[0].delim) + Joined(pieces[1..])
  }

  /** Openings minus closings among the delimiters of `pieces`. */
  function Balance(pieces: seq<Piece>): int
  {
    if pieces == [] then 0 else (if pieces[0].delim == Open then 1 else -1) + Balance(pieces[1..])
  }

  /**
   * The scan from nesting level `level`: the comment text up to the
   * delimiter that brings the level to 0, and the number of pieces it
   * consumed; input that ends first is a syntax error.
   */
  function Scan(pieces: seq<Piece>, level: nat): (r: Result<(string, nat), XPathError>)
    requires level > 0
    ensures r.Ok? ==> 0 < r.value.1 <= |pieces|
    ensures r.Err? ==> r.error == XPathError("XPST0003")
    decreases |pieces|
  {
    if pieces == [] then Err(XPathError("XPST0003"))
    else
      var p := pieces[0];
      if p.delim == Close && level == 1 then Ok((p.text, 1))
      else
        var rest :- Scan(pieces[1..], if p.delim == Close then level - 1 else level + 1);
        Ok((p.text + Symbol(p.delim) + rest.0, rest.1 + 1))
  }

  /** The scan from level 1, once the opening `(:` has been seen. */
  function CommentText(opens: bool, pieces: seq<Piece>): (r: Result<Option<(string, nat)>, XPathError>)
    ensures r == Ok(None) <==> !opens
    ensures r.Ok? && r.value.Some? ==> 0 < r.value.value.1 <= |pieces|
    ensures r.Err? ==> r.error == XPathError("XPST0003")
  {
    if !opens then Ok(None)
    else
      var found :- Scan(pieces, 1);
      Ok(Some(found))
  }

  /**
   * `comment()`: None unless the next token is `(:`; otherwise the raw text
   * is collected piece by piece, the level going up at `(:` and down at
   * `:)`, and every delimiter but the last is kept in the text.
   */
  method Comment(opens: bool, pieces: seq<Piece>) returns (r: Result<Option<(string, nat)>, XPathError>)
    ensures r == CommentText(opens, pieces)
  {
    if !opens {
      return Ok(None);
    }
    var level: nat := 1;
    var comment := "";
    var i := 0;
    assert pieces[0..] == pieces;
    ShiftedEmpty(Scan(pieces, 1));
    while level > 0
      invariant i <= |pieces|
      invariant level > 0 ==> Scan(pieces, 1) == Shifted(comment, i, Scan(pieces[i..], level))
      invariant level == 0 ==> Scan(pieces, 1) == Ok((comment, i))
      decreases |pieces| - i, level
    {
      if i == |pieces| {
        return Err(XPathError("XPST0003"));
      }
      var p := pieces[i];
      CommentStep(pieces, i, level, comment);
      comment := comment + p.text;
      if p.delim == Close {
        level := level - 1;
        if level > 0 {
          comment := comment + ":)";
        }
      } else {
        level := level + 1;
        comment := comment + "(:";
      }
      i := i + 1;
    }
    r := Ok(Some((comment, i)));
  }

  /** One piece of the comment loop keeps the scan's result in reach. */
  lemma CommentStep(pieces: seq<Piece>, i: nat, level: nat, comment: string)
    requires i < |pieces| && level > 0
    requires Scan(pieces, 1) == Shifted(comment, i, Scan(pieces[i..], level))
    ensures var p := pieces[i];
      if p.delim == Close && level == 1 then Scan(pieces, 1) == Ok((comment + p.text, i + 1))
      else Scan(pieces, 1) == Shifted(comment + p.text + Symbol(p.delim), i + 1,
        Scan(pieces[i + 1..], if p.delim == Close then level - 1 else level + 1))
  {
    var p := pieces[i];
    assert pieces[i..][1..] == pieces[i + 1..];
    if !(p.delim == Close && level == 1) {
      ShiftedTwice(comment, p.text + Symbol(p.delim), i, Scan(pieces[i + 1..], if p.delim == Close then level - 1 else level + 1));
      assert comment + (p.text + Symbol(p.delim)) == comment + p.text + Symbol(p.delim);
    }
  }

  /** A scan result with `prefix` written before its text and `used` pieces counted before it. */
  function Shifted(prefix: string, used: nat, s: Result<(string, nat), XPathError>): Result<(string, nat), XPathError>
  {
    match s
    case Err(e) => Err(e)
    case Ok((t, n)) => Ok((prefix + t, used + n))
  }

  lemma ShiftedEmpty(s: Result<(string, nat), XPathError>)
    ensures Shifted("", 0, s) == s
  {
    if s.Ok? {
      assert "" + s.value.0 == s.value.0;
    }
  }

  lemma ShiftedTwice(prefix: string, more: string, used: nat, s: Result<(string, nat), XPathError>)
    ensures Shifted(prefix, used, Shifted(more, 1, s)) == Shifted(prefix + more, used + 1, s)
  {
    if s.Ok? {
      assert prefix + (more + s.value.0) == prefix + more + s.value.0;
    }
  }

  /**
   * A scan ends at the first piece whose delimiter brings the level to 0;
   * the text is everything before that delimiter, inner delimiters
   * included. It fails exactly when the level never reaches 0.
   */
  lemma ScanSpec(pieces: seq<Piece>, level: nat)
    requires level > 0
    ensures Scan(pieces, level).Ok? ==>
      var (text, n) := Scan(pieces, level).value;
      0 < n <= |pieces| && level + Balance(pieces[..n]) == 0
      && (forall k :: 0 <= k < n ==> level + Balance(pieces[..k]) > 0)
      && text + ":)" == Joined(pieces[..n])
    ensures Scan(pieces, level).Err? ==>
      Scan(pieces, level).error == XPathError("XPST0003")
      && forall k :: 0 <= k <= |pieces| ==> level + Balance(pieces[..k]) > 0
  {
    if Scan(pieces, level).Ok? {
      ScanOk(pieces, level);
    } else {
      ScanErr(pieces, level);
    }
  }

  /** The balance of a prefix, split after its first piece. */
  lemma BalanceStep(pieces: seq<Piece>, k: nat)
    requires 0 < k <= |pieces|
    ensures Balance(pieces[..k]) == (if pieces[0].delim == Open then 1 else -1) + Balance(pieces[1..][..k - 1])
  {
    assert pieces[..k][1..] == pieces[1..][..k - 1];
  }

  lemma {:induction false} ScanOk(pieces: seq<Piece>, level: nat)
    requires level > 0 && Scan(pieces, level).Ok?
    ensures var (text, n) := Scan(pieces, level).value;
      level + Balance(pieces[..n]) == 0
      && (forall k :: 0 <= k < n ==> level + Balance(pieces[..k]) > 0)
      && text + ":)" == Joined(pieces[..n])
    decreases |pieces|
  {
    var p := pieces[0];
    assert Balance(pieces[..0]) == 0 by { assert pieces[..0] == []; }
    if p.delim == Close && level == 1 {
      assert pieces[..1] == [p];
    } else {
      var level' := if p.delim == Close then level - 1 else level + 1;
      ScanOk(pieces[1..], level');
      var (text', n') := Scan(pieces[1..], level').value;
      BalanceStep(pieces, n' + 1);
      forall k | 0 < k < n' + 1 ensures level + Balance(pieces[..k]) > 0 {
        BalanceStep(pieces, k);
      }
      assert pieces[..n' + 1][1..] == pieces[1..][..n'];
    }
  }

  lemma {:induction false} ScanErr(pieces: seq<Piece>, level: nat)
    requires level > 0 && Scan(pieces, level).Err?
    ensures Scan(pieces, level).error == XPathError("XPST0003")
    ensures forall k :: 0 <= k <= |pieces| ==> level + Balance(pieces[..k]) > 0
    decreases |pieces|
  {
    assert Balance(pieces[..0]) == 0 by { assert pieces[..0] == []; }
    if pieces != [] {
      var p := pieces[0];
      var level' := if p.delim == Close then level - 1 else level + 1;
      ScanErr(pieces[1..], level');
      forall k | 0 < k <= |pieces| ensures level + Balance(pieces[..k]) > 0 {
        BalanceStep(pieces, k);
      }
    }
  }

  /** The comment text written with its outer delimiters reproduces the consumed input. */
  lemma CommentSpec(opens: bool, pieces: seq<Piece>)
    ensures !opens ==> CommentText(opens, pieces) == Ok(None)
    ensures CommentText(opens, pieces).Ok? && opens ==>
      var (text, n) := CommentText(opens, pieces).value.value;
      "(:" + text + ":)" == "(:" + Joined(pieces[..n]) && 1 + Balance(pieces[..n]) == 0
    ensures CommentText(opens, pieces).Err? <==>
      opens && forall k :: 0 <= k <= |pieces| ==> 1 + Balance(pieces[..k]) > 0
  {
    if opens {
      ScanSpec(pieces, 1);
      if Scan(pieces, 1).Ok? {
        var n := Scan(pieces, 1).value.1;
        assert 1 + Balance(pieces[..n]) == 0;
      }
    }
  }

  // ---------------------------------------------------------------------
  // The comma operator

  /** What an operand of `,` evaluates to: a list, a single item, or None. */
  datatype Value = Items(items: seq<Item>) | Atomic(item: Item) | NoneValue

  /**
   * The comma's result as written: lists are spliced, anything else is
   * appended, None included, because the guard tests the result list
   * rather than the operand's value.
   */
  function CommaAsWritten(ops: seq<Value>): (r: seq<Option<Item>>)
    ensures None in r <==> exists k :: 0 <= k < |ops| && ops[k].NoneValue?
    decreases |ops|
  {
    if ops == [] then []
    else
      var init, last := ops[..|ops| - 1], ops[|ops| - 1];
      CommaAsWritten(init) +
        match last
        case Items(xs) => Lifted(xs)
        case Atomic(x) => [Some(x)]
        case NoneValue => [None]
  }

  function Lifted(xs: seq<Item>): (r: seq<Option<Item>>)
    ensures |r| == |xs| && forall i :: 0 <= i < |xs| ==> r[i] == Some(xs[i])
  {
    seq(|xs|, i requires 0 <= i < |xs| => Some(xs[i]))
  }

  /** The comma `evaluate` loop, as written. */
  method CommaEvaluate(ops: seq<Value>) returns (results: seq<Option<Item>>)
    ensures results == CommaAsWritten(ops)
  {
    results := [];
    for k := 0 to |ops|
      invariant results == CommaAsWritten(ops[..k])
    {
      assert ops[..k + 1][..k] == ops[..k];
      match ops[k]
      case Items(xs) =>
        results := results + Lifted(xs);
      case Atomic(x) =>
        results := results + [Some(x)];
      case NoneValue =>
        results := results + [None];
    }
    assert ops[..|ops|] == ops;
  }

  /**
   * An operand whose `evaluate` returns None, such as the node comparison
   * `() is ()` (it returns None when its left operand selects nothing),
   * shows up in the comma's result as a None item.
   */
  lemma CommaAppendsNone()
    ensures NodeCompare(Is, [], [], None) == Ok(None)
    ensures CommaAsWritten([Atomic(Int(1)), NoneValue]) == [Some(Int(1)), None]
  {
    assert [Atomic(Int(1)), NoneValue][..1] == [Atomic(Int(1))];
  }

  /** The sequence an operand's value stands for; None is the empty sequence. */
  function Denoted(v: Value): seq<Item>
  {
    match v
    case Items(xs) => xs
    case Atomic(x) => [x]
    case NoneValue => []
  }

  /** The comma as intended: the operands' sequences, concatenated in order. */
  function Comma(ops: seq<Value>): (r: seq<Item>)
    ensures forall x :: x in r <==> exists k :: 0 <= k < |ops| && x in Denoted(ops[k])
    decreases |ops|
  {
    if ops == [] then [] else Comma(ops[..|ops| - 1]) + Denoted(ops[|ops| - 1])
  }

  /**
   * The intended comma concatenates the operands' sequences, whichever way
   * the operand list is split.
   */
  lemma {:induction false} CommaAppend(ops: seq<Value>, more: seq<Value>)
    ensures Comma(ops + more) == Comma(ops) + Comma(more)
    decreases |more|
  {
    if more != [] {
      var init := more[..|more| - 1];
      assert (ops + more)[..|ops + more| - 1] == ops + init;
      CommaAppend(ops, init);
    } else {
      assert ops + more == ops;
    }
  }

  /** Where no operand evaluates to None, the code computes the intended comma. */
  lemma {:induction false} CommaAgrees(ops: seq<Value>)
    requires forall k :: 0 <= k < |ops| ==> !ops[k].NoneValue?
    ensures CommaAsWritten(ops) == Lifted(Comma(ops))
    decreases |ops|
  {
    if ops != [] {
      var init := ops[..|ops| - 1];
      CommaAgrees(init);
      var a, b := Comma(init), Denoted(ops[|ops| - 1]);
      assert Lifted(a + b) == Lifted(a) + Lifted(b);
    }
  }

  // ---------------------------------------------------------------------
  // Range

  /**
   * `a to b`: the integers from `a` to `b`. An empty `b` makes `b + 1` a
   * TypeError, which is FORG0006 with a context and the empty result
   * without one; an empty `a` with a present `b` reaches `range` and raises.
   */
  function Range(start: Option<int>, stop: Option<int>, hasContext: bool): (r: Result<Option<seq<int>>, XPathError>)
    ensures r == Ok(None) <==> stop.None? && !hasContext
    ensures r == Err(XPathError("FORG0006")) <==> stop.None? && hasContext
    ensures r == Err(PythonError("TypeError")) <==> stop.Some? && start.None?
    ensures r.Ok? && r.value.Some? <==> start.Some? && stop.Some?
  {
    if stop.None? then (if hasContext then Err(Raise(WrongType)) else Ok(None))
    else if start.None? then Err(PythonError("TypeError"))
    else
      var a, b := start.value, stop.value;
      Ok(Some(seq(if b + 1 > a then b + 1 - a else 0, i => a + i)))
  }

  /** The range is `a, a + 1, ..., b`, empty when `a > b`; membership is exactly the interval. */
  lemma RangeSpec(a: int, b: int, hasContext: bool)
    ensures Range(Some(a), Some(b), hasContext).Ok?
    ensures var r := Range(Some(a), Some(b), hasContext).value.value;
      (a > b <==> r == [])
      && |r| == (if a <= b then b - a + 1 else 0)
      && (forall i :: 0 <= i < |r| ==> r[i] == a + i)
      && (forall x :: x in r <==> a <= x <= b)
  {
    var r := Range(Some(a), Some(b), hasContext).value.value;
    forall x | a <= x <= b ensures x in r {
      assert r[x - a] == x;
    }
  }

  // ---------------------------------------------------------------------
  // Quantified expressions

  /** `[x] + t` for every `t` of `ts`. */
  function Prepend<T>(x: T, ts: seq<seq<T>>): (r: seq<seq<T>>)
    ensures |r| == |ts| && forall i :: 0 <= i < |ts| ==> r[i] == [x] + ts[i]
  {
    seq(|ts|, i requires 0 <= i < |ts| => [x] + ts[i])
  }

  /** Every `x` of `xs` before every `t` of `ts`, with `xs` varying slowest. */
  function Extend<T>(xs: seq<T>, ts: seq<seq<T>>): seq<seq<T>>
  {
    if xs == [] then [] else Prepend(xs[0], ts) + Extend(xs[1..], ts)
  }

  /** `itertools.product(*sels)`: the binding tuples in lexicographic order. */
  function Product<T>(sels: seq<seq<T>>): seq<seq<T>>
  {
    if sels == [] then [[]] else Extend(sels[0], Product(sels[1..]))
  }

  lemma {:induction false} ExtendLength<T>(xs: seq<T>, ts: seq<seq<T>>)
    ensures |Extend(xs, ts)| == |xs| * |ts|
  {
    if xs != [] {
      ExtendLength(xs[1..], ts);
      assert |xs| * |ts| == |ts| + |xs[1..]| * |ts|;
    }
  }

  lemma {:induction false} ExtendSound<T>(xs: seq<T>, ts: seq<seq<T>>, t: seq<T>)
    requires t in Extend(xs, ts)
    ensures |t| > 0 && t[0] in xs && t[1..] in ts
  {
    if t in Prepend(xs[0], ts) {
      var i :| 0 <= i < |ts| && Prepend(xs[0], ts)[i] == t;
      assert t[1..] == ts[i];
    } else {
      ExtendSound(xs[1..], ts, t);
    }
  }

  lemma {:induction false} ExtendComplete<T>(xs: seq<T>, ts: seq<seq<T>>, x: T, t: seq<T>)
    requires x in xs && t in ts
    ensures [x] + t in Extend(xs, ts)
  {
    if x == xs[0] {
      var i :| 0 <= i < |ts| && ts[i] == t;
      assert Prepend(xs[0], ts)[i] == [x] + t;
    } else {
      ExtendComplete(xs[1..], ts, x, t);
    }
  }

  /**
   * The product holds exactly the tuples with one item of each selection,
   * in order, and its length is the product of the selections' lengths.
   */
  lemma ProductSpec<T>(sels: seq<seq<T>>)
    ensures |Product(sels)| == LengthProduct(sels)
    ensures forall t :: t in Product(sels) <==> Binding(t, sels)
  {
    ProductLength(sels);
    forall t | t in Product(sels) ensures Binding(t, sels) {
      ProductSound(sels, t);
    }
    forall t | Binding(t, sels) ensures t in Product(sels) {
      ProductComplete(sels, t);
    }
  }

  /** A tuple with one item of each selection, in order. */
  ghost predicate Binding<T>(t: seq<T>, sels: seq<seq<T>>)
  {
    |t| == |sels| && forall i :: 0 <= i < |t| ==> t[i] in sels[i]
  }

  lemma {:induction false} ProductLength<T>(sels: seq<seq<T>>)
    ensures |Product(sels)| == LengthProduct(sels)
    decreases |sels|
  {
    if sels != [] {
      ProductLength(sels[1..]);
      ExtendLength(sels[0], Product(sels[1..]));
    }
  }

  lemma {:induction false} ProductSound<T>(sels: seq<seq<T>>, t: seq<T>)
    requires t in Product(sels)
    ensures Binding(t, sels)
    decreases |sels|
  {
    if sels != [] {
      ExtendSound(sels[0], Product(sels[1..]), t);
      ProductSound(sels[1..], t[1..]);
      forall i | 0 < i < |t| ensures t[i] in sels[i] {
        assert t[i] == t[1..][i - 1];
      }
    }
  }

  lemma {:induction false} ProductComplete<T>(sels: seq<seq<T>>, t: seq<T>)
    requires Binding(t, sels)
    ensures t in Product(sels)
    decreases |sels|
  {
    if sels != [] {
      forall i | 0 <= i < |t[1..]| ensures t[1..][i] in sels[1..][i] {
        assert t[1..][i] == t[i + 1];
      }
      ProductComplete(sels[1..], t[1..]);
      assert [t[0]] + t[1..] == t;
      ExtendComplete(sels[0], Product(sels[1..]), t[0], t[1..]);
    }
  }

  function LengthProduct<T>(sels: seq<seq<T>>): nat
  {
    if sels == [] then 1 else |sels[0]| * LengthProduct(sels[1..])
  }

  /**
   * The answer for the tuples from `tuples` onward: `some` stops at the
   * first tuple that satisfies the predicate, `every` at the first that
   * does not, and an error in the predicate's boolean value stops both.
   */
  function Quantify(some: bool, tuples: seq<seq<Item>>, satisfies: seq<Item> -> seq<Item>): (r: Result<bool, XPathError>)
    ensures r == Ok(some) ==> exists k :: 0 <= k < |tuples| && BooleanValue(List(satisfies(tuples[k]))) == Ok(some)
    ensures r == Ok(!some) ==> forall k :: 0 <= k < |tuples| ==> BooleanValue(List(satisfies(tuples[k]))) == Ok(!some)
    decreases |tuples|
  {
    if tuples == [] then Ok(!some)
    else
      var b :- BooleanValue(List(satisfies(tuples[0])));
      if b == some then Ok(some) else Quantify(some, tuples[1..], satisfies)
  }

  /** `some`/`every ... satisfies`: nothing without a context, otherwise the answer over the product. */
  function Quantified(some: bool, hasContext: bool, sels: seq<seq<Item>>, satisfies: seq<Item> -> seq<Item>): (r: Result<Option<bool>, XPathError>)
    ensures r == Ok(None) <==> !hasContext
    ensures r == Ok(Some(some)) ==>
      exists t :: t in Product(sels) && BooleanValue(List(satisfies(t))) == Ok(some)
  {
    if !hasContext then Ok(None)
    else
      var b :- Quantify(some, Product(sels), satisfies);
      Ok(Some(b))
  }

  /** The `evaluate` loop of `some` and `every` over the binding tuples. */
  method EvaluateQuantified(some: bool, hasContext: bool, sels: seq<seq<Item>>, satisfies: seq<Item> -> seq<Item>)
    returns (r: Result<Option<bool>, XPathError>)
    ensures r == Quantified(some, hasContext, sels, satisfies)
  {
    if !hasContext {
      return Ok(None);
    }
    var tuples := Product(sels);
    for k := 0 to |tuples|
      invariant Quantify(some, tuples, satisfies) == Quantify(some, tuples[k..], satisfies)
    {
      assert tuples[k..][1..] == tuples[k + 1..];
      var b := BooleanValue(List(satisfies(tuples[k])));
      if b.Err? {
        return Err(b.error);
      }
      if b.value {
        if some {
          return Ok(Some(true));
        }
      } else if !some {
        return Ok(Some(false));
      }
    }
    r := Ok(Some(!some));
  }

  /** The predicate holds for a tuple: its selection's effective boolean value is true. */
  predicate Satisfied(t: seq<Item>, satisfies: seq<Item> -> seq<Item>)
  {
    BooleanValue(List(satisfies(t))) == Ok(true)
  }

  /**
   * When no boolean value raises, `some` is true exactly when some tuple
   * satisfies the predicate and `every` exactly when all of them do.
   */
  lemma {:induction false} QuantifySpec(tuples: seq<seq<Item>>, satisfies: seq<Item> -> seq<Item>)
    requires forall k :: 0 <= k < |tuples| ==> BooleanValue(List(satisfies(tuples[k]))).Ok?
    ensures Quantify(true, tuples, satisfies) == Ok(exists k :: 0 <= k < |tuples| && Satisfied(tuples[k], satisfies))
    ensures Quantify(false, tuples, satisfies) == Ok(forall k :: 0 <= k < |tuples| ==> Satisfied(tuples[k], satisfies))
    decreases |tuples|
  {
    if tuples != [] {
      QuantifySpec(tuples[1..], satisfies);
      assert forall k :: 1 <= k < |tuples| ==> tuples[1..][k - 1] == tuples[k];
      if !Satisfied(tuples[0], satisfies) {
        if exists k :: 0 <= k < |tuples| && Satisfied(tuples[k], satisfies) {
          var k :| 0 <= k < |tuples| && Satisfied(tuples[k], satisfies);
          assert Satisfied(tuples[1..][k - 1], satisfies);
        }
      } else {
        if forall k :: 1 <= k < |tuples[1..]| + 1 ==> Satisfied(tuples[k], satisfies) {
          forall k | 0 <= k < |tuples[1..]| ensures Satisfied(tuples[1..][k], satisfies) {
            assert tuples[1..][k] == tuples[k + 1];
          }
        }
      }
    }
  }

  /** With an empty selection there is no tuple: `some` is false and `every` is true. */
  lemma QuantifiedEmpty(sels: seq<seq<Item>>, satisfies: seq<Item> -> seq<Item>, j: nat)
    requires j < |sels| && sels[j] == []
    ensures Quantified(true, true, sels, satisfies) == Ok(Some(false))
    ensures Quantified(false, true, sels, satisfies) == Ok(Some(true))
  {
    ProductEmpty(sels, j);
  }

  lemma {:induction false} ProductEmpty<T>(sels: seq<seq<T>>, j: nat)
    requires j < |sels| && sels[j] == []
    ensures Product(sels) == []
    decreases |sels|
  {
    if j > 0 {
      ProductEmpty(sels[1..], j - 1);
      ExtendNothing(sels[0]);
    }
  }

  lemma {:induction false} ExtendNothing<T>(xs: seq<T>)
    ensures Extend(xs, []) == []
  {
    if xs != [] {
      ExtendNothing(xs[1..]);
    }
  }

  // ---------------------------------------------------------------------
  // Node comparison

  datatype NodeOp = Is | Precedes | Follows

  /** The single node of an operand, or the FORG0006 of anything else; an empty operand is None. */
  function SingleNode(items: seq<Item>): (r: Result<Option<Item>, XPathError>)
    ensures r == Ok(None) <==> items == []
    ensures r.Ok? && r.value.Some? <==> |items| == 1 && items[0].IsNode()
    ensures r.Ok? && r.value.Some? ==> r.value.value == items[0]
    ensures r.Err? ==> r.error == XPathError("FORG0006")
  {
    if items == [] then Ok(None)
    else if |items| > 1 || !items[0].IsNode() then Err(Raise(WrongType))
    else Ok(Some(items[0]))
  }

  /** Which of two nodes the walk over the document meets first: true for the first one. */
  function FirstMet(order: seq<Item>, left: Item, right: Item): Option<bool>
  {
    if order == [] then None
    else if order[0] == left then Some(true)
    else if order[0] == right then Some(false)
    else FirstMet(order[1..], left, right)
  }

  /**
   * `is`, `<<` and `>>` over two operands' selections. `order` is the root's
   * walk in document order, None without a context, whose missing `root`
   * raises AttributeError.
   */
  function NodeCompare(op: NodeOp, left: seq<Item>, right: seq<Item>, order: Option<seq<Item>>): (r: Result<Option<bool>, XPathError>)
    ensures r == Ok(None) <==> left == [] || (|left| == 1 && left[0].IsNode() && right == [])
    ensures r.Ok? && r.value.Some? ==> |left| == 1 && left[0].IsNode() && |right| == 1 && right[0].IsNode()
  {
    var l :- SingleNode(left);
    if l.None? then Ok(None)
    else
      var r :- SingleNode(right);
      if r.None? then Ok(None)
      else if op == Is then Ok(Some(l.value == r.value))
      else if l.value == r.value then Ok(Some(false))
      else if order.None? then Err(PythonError("AttributeError"))
      else
        match FirstMet(order.value, l.value, r.value)
        case None => Err(Raise(WrongValue))
        case Some(leftFirst) => Ok(Some(if op == Precedes then leftFirst else !leftFirst))
  }

  /** The walk meets the earlier of the two nodes first; it meets neither when neither occurs. */
  lemma {:induction false} FirstMetSpec(order: seq<Item>, left: Item, right: Item)
    requires left != right
    ensures FirstMet(order, left, right).None? <==> left !in order && right !in order
    ensures left in order && (right !in order || FirstIndex(order, left) < FirstIndex(order, right)) ==>
      FirstMet(order, left, right) == Some(true)
    ensures right in order && (left !in order || FirstIndex(order, right) < FirstIndex(order, left)) ==>
      FirstMet(order, left, right) == Some(false)
    decreases |order|
  {
    if order != [] && order[0] != left && order[0] != right {
      FirstMetSpec(order[1..], left, right);
    }
  }

  /**
   * For two single nodes: `is` is identity, a node neither precedes nor
   * follows itself, `<<` holds exactly when the left node comes first in
   * document order, and `a >> b` is `b << a`.
   */
  lemma NodeCompareSpec(a: Item, b: Item, order: seq<Item>)
    requires a.IsNode() && b.IsNode()
    ensures NodeCompare(Is, [a], [b], Some(order)) == Ok(Some(a == b))
    ensures a == b ==>
      NodeCompare(Precedes, [a], [b], Some(order)) == Ok(Some(false))
      && NodeCompare(Follows, [a], [b], Some(order)) == Ok(Some(false))
    ensures a != b && a in order && b in order ==>
      NodeCompare(Precedes, [a], [b], Some(order)) == Ok(Some(FirstIndex(order, a) < FirstIndex(order, b)))
    ensures NodeCompare(Follows, [a], [b], Some(order)) == NodeCompare(Precedes, [b], [a], Some(order))
    ensures a != b && a !in order && b !in order ==> NodeCompare(Precedes, [a], [b], Some(order)) == Err(XPathError("FOCA0002"))
  {
    if a != b {
      FirstMetSpec(order, a, b);
      FirstMetSpec(order, b, a);
      if a in order && b in order {
        assert FirstIndex(order, a) != FirstIndex(order, b);
      }
    }
  }

  /** An empty operand gives the empty sequence, unless the left one is already wrong. */
  lemma NodeCompareEmpty(op: NodeOp, left: seq<Item>, right: seq<Item>, order: Option<seq<Item>>)
    ensures left == [] ==> NodeCompare(op, left, right, order) == Ok(None)
    ensures |left| == 1 && left[0].IsNode() && right == [] ==> NodeCompare(op, left, right, order) == Ok(None)
    ensures |left| > 1 ==> NodeCompare(op, left, right, order) == Err(XPathError("FORG0006"))
  {
  }

  // ---------------------------------------------------------------------
  // instance of

  /** The occurrence indicator after a sequence type: none, `?`, `*` or `+`. */
  datatype Occurs = ExactlyOne | Optional | AnyNumber | AtLeastOne

  /**
   * The answer for the items from position `pos` onward: an item that is not
   * an instance ends it with false, a type the schema does not know with
   * XPST0001, and a second item with false when at most one is allowed.
   * `isInstance` is None where the type lookup raises KeyError.
   */
  function InstanceFrom(items: seq<Item>, pos: nat, isInstance: Item -> Option<bool>, occurs: Occurs): (r: Result<bool, XPathError>)
    ensures r == Ok(true) ==> forall i :: pos <= i < |items| ==> isInstance(items[i]) == Some(true)
    ensures r.Err? ==> r.error == XPathError("XPST0001")
    decreases |items| - pos
  {
    if pos >= |items| then Ok(|items| > 0 || occurs in {AnyNumber, Optional})
    else if isInstance(items[pos]).None? then Err(Raise(MissingSchema))
    else if !isInstance(items[pos]).value then Ok(false)
    else if pos > 0 && occurs in {ExactlyOne, Optional} then Ok(false)
    else InstanceFrom(items, pos + 1, isInstance, occurs)
  }

  /** `instance of` with a sequence type, item by item. */
  method EvaluateInstance(items: seq<Item>, isInstance: Item -> Option<bool>, occurs: Occurs) returns (r: Result<bool, XPathError>)
    ensures r == InstanceFrom(items, 0, isInstance, occurs)
  {
    var pos := 0;
    while pos < |items|
      invariant pos <= |items|
      invariant InstanceFrom(items, 0, isInstance, occurs) == InstanceFrom(items, pos, isInstance, occurs)
    {
      var found := isInstance(items[pos]);
      if found.None? {
        return Err(Raise(MissingSchema));
      } else if !found.value {
        return Ok(false);
      } else if pos > 0 && (occurs == ExactlyOne || occurs == Optional) {
        return Ok(false);
      }
      pos := pos + 1;
    }
    r := Ok(|items| > 0 || occurs == AnyNumber || occurs == Optional);
  }

  /** The cardinality the occurrence indicator allows. */
  predicate CountAllowed(n: nat, occurs: Occurs)
  {
    (n == 0 ==> occurs in {Optional, AnyNumber}) && (n >= 2 ==> occurs in {AnyNumber, AtLeastOne})
  }

  /**
   * When the schema knows the type, the operand is an instance exactly when
   * every item matches and the number of items is one the indicator allows.
   */
  lemma {:induction false} InstanceSpec(items: seq<Item>, pos: nat, isInstance: Item -> Option<bool>, occurs: Occurs)
    requires pos <= |items| && (pos >= 2 ==> occurs in {AnyNumber, AtLeastOne})
    requires forall i :: 0 <= i < |items| ==> isInstance(items[i]).Some?
    ensures InstanceFrom(items, pos, isInstance, occurs) ==
      Ok((forall i :: pos <= i < |items| ==> isInstance(items[i]).value) && CountAllowed(|items|, occurs))
    decreases |items| - pos
  {
    if pos < |items| && isInstance(items[pos]).value && !(pos > 0 && occurs in {ExactlyOne, Optional}) {
      InstanceSpec(items, pos + 1, isInstance, occurs);
    }
  }

  /** `instance of empty-sequence()`: true exactly when the operand selects nothing. */
  function InstanceOfEmpty(items: seq<Item>): (r: bool)
    ensures r <==> items == []
  {
    |items| == 0
  }

  // ---------------------------------------------------------------------
  // cast and castable

  /** An expanded type name. */
  datatype QName = QName(namespace: string, local: string)

  /** How `cast`/`castable` goes on after the checks on the type and the operand's cardinality. */
  datatype CastStep = Answer(castable: bool) | EmptyResult | Convert(item: Item)

  /**
   * The checks `cast` (`isCast`) and `castable` make before converting:
   * NOTATION and anyAtomicType are XPST0080; a type outside the XSD
   * namespace the schema does not have is XPST0001; then the operand's
   * cardinality decides, with `optional` for a trailing `?`.
   */
  function CastCardinality(isCast: bool, atomicType: QName, inSchema: bool, optional: bool, items: seq<Item>): (r: Result<CastStep, XPathError>)
    ensures r.Ok? && r.value.Convert? ==> items == [r.value.item]
    ensures r == Ok(EmptyResult) ==> isCast && optional && items == []
    ensures r.Ok? && r.value.Answer? ==> !isCast
  {
    if atomicType in {QName(XsdNamespace, "NOTATION"), QName(XsdNamespace, "anyAtomicType")} then Err(Raise(WrongTargetType))
    else if atomicType.namespace != XsdNamespace && !inSchema then Err(Raise(MissingSchema))
    else if |items| > 1 then (if isCast then Err(Raise(WrongContextType)) else Ok(Answer(false)))
    else if items == [] then
      (if optional then (if isCast then Ok(EmptyResult) else Ok(Answer(true)))
       else if !isCast then Ok(Answer(false))
       else Err(Raise(WrongContextType)))
    else Ok(Convert(items[0]))
  }

  /**
   * `castable` answers false exactly where `cast` raises XPTY0004, and true
   * exactly where `cast` returns the empty sequence; both reach the
   * conversion of the single item, or raise the same type error, together.
   */
  lemma CastableMatchesCast(atomicType: QName, inSchema: bool, optional: bool, items: seq<Item>)
    ensures CastCardinality(false, atomicType, inSchema, optional, items) == Ok(Answer(false)) <==>
      CastCardinality(true, atomicType, inSchema, optional, items) == Err(XPathError("XPTY0004"))
    ensures CastCardinality(false, atomicType, inSchema, optional, items) == Ok(Answer(true)) <==>
      CastCardinality(true, atomicType, inSchema, optional, items) == Ok(EmptyResult)
    ensures CastCardinality(false, atomicType, inSchema, optional, items).Ok? <==>
      CastCardinality(true, atomicType, inSchema, optional, items) != Err(XPathError("XPST0080"))
      && CastCardinality(true, atomicType, inSchema, optional, items) != Err(XPathError("XPST0001"))
    ensures CastCardinality(true, atomicType, inSchema, optional, items).Ok? && CastCardinality(true, atomicType, inSchema, optional, items).value.Convert? <==>
      CastCardinality(false, atomicType, inSchema, optional, items).Ok? && CastCardinality(false, atomicType, inSchema, optional, items).value.Convert?
  {
  }

  /**
   * Once the type is acceptable: two or more items are never castable, an
   * empty operand is castable exactly with `?`, and a single item goes on to
   * the conversion.
   */
  lemma CastCardinalitySpec(isCast: bool, atomicType: QName, inSchema: bool, optional: bool, items: seq<Item>)
    requires atomicType.namespace == XsdNamespace && atomicType.local !in {"NOTATION", "anyAtomicType"}
    ensures |items| > 1 ==>
      CastCardinality(isCast, atomicType, inSchema, optional, items) ==
      if isCast then Err(XPathError("XPTY0004")) else Ok(Answer(false))
    ensures items == [] ==>
      CastCardinality(isCast, atomicType, inSchema, optional, items) ==
      if optional then Ok(if isCast then EmptyResult else Answer(true))
      else if isCast then Err(XPathError("XPTY0004")) else Ok(Answer(false))
    ensures |items| == 1 ==> CastCardinality(isCast, atomicType, inSchema, optional, items) == Ok(Convert(items[0]))
  {
  }

  // ---------------------------------------------------------------------
  // intersect and except

  /** `intersect`: the items both selections share; nothing without a context. */
  function Intersect(hasContext: bool, left: seq<Item>, right: seq<Item>): (r: set<Item>)
    ensures forall x :: x in r <==> hasContext && x in left && x in right
  {
    if hasContext then (set x | x in left) * (set x | x in right) else {}
  }

  /** `except`: the items of the left selection that the right one lacks; nothing without a context. */
  function Except(hasContext: bool, left: seq<Item>, right: seq<Item>): (r: set<Item>)
    ensures forall x :: x in r <==> hasContext && x in left && x !in right
  {
    if hasContext then (set x | x in left) - (set x | x in right) else {}
  }

  /** With a context, the two results split the left selection's items between them. */
  lemma IntersectExceptPartition(left: seq<Item>, right: seq<Item>)
    ensures Intersect(true, left, right) + Except(true, left, right) == set x | x in left
    ensures Intersect(true, left, right) * Except(true, left, right) == {}
  {
  }
}

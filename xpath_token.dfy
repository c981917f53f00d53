/** The errors an XPath token raises, identified by their XPath error codes. */
module XPathErrors {

  /**
   * An error raised while parsing or evaluating: an XPath error with its
   * code, or a plain Python exception that escapes the token's handlers.
   */
  datatype XPathError = XPathError(code: string) | PythonError(name: string)

  /** The token's error shortcuts, one per fixed error code. */
  datatype Shortcut =
    | WrongValue | WrongType | MissingSchema | MissingContext | WrongContextType
    | MissingSequence | MissingName | MissingAxis | WrongNargs | WrongStepResult
    | WrongIntermediateStepResult | WrongAxisArgument | WrongSequenceType
    | UnknownAtomicType | WrongTargetType | UnknownNamespace

  /** The code each shortcut raises. */
  function ShortcutCode(s: Shortcut): (code: string)
    ensures WellFormedCode(code)
  {
    match s
    case WrongValue => "FOCA0002"
    case WrongType => "FORG0006"
    case MissingSchema => "XPST0001"
    case MissingContext => "XPDY0002"
    case WrongContextType => "XPTY0004"
    case MissingSequence => "XPST0005"
    case MissingName => "XPST0008"
    case MissingAxis => "XPST0010"
    case WrongNargs => "XPST0017"
    case WrongStepResult => "XPTY0018"
    case WrongIntermediateStepResult => "XPTY0019"
    case WrongAxisArgument => "XPTY0020"
    case WrongSequenceType => "XPDY0050"
    case UnknownAtomicType => "XPST0051"
    case WrongTargetType => "XPST0080"
    case UnknownNamespace => "XPST0081"
  }

  /** The error a shortcut raises. */
  function Raise(s: Shortcut): XPathError
  {
    XPathError(ShortcutCode(s))
  }

  /** An XPath error code: four uppercase letters followed by four digits. */
  predicate WellFormedCode(code: string)
  {
    |code| == 8 && (forall i :: 0 <= i < 4 ==> 'A' <= code[i] <= 'Z') && (forall i :: 4 <= i < 8 ==> '0' <= code[i] <= '9')
  }

  /** No two shortcuts raise the same code. */
  lemma ShortcutCodes(s: Shortcut, t: Shortcut)
    ensures ShortcutCode(s) == ShortcutCode(t) <==> s == t
  {
  }
}

/**
 * The helpers of elementpath's XPath token: `ordinal`, the effective boolean
 * value, the token's table of associated XSD types and the prefix it gives
 * error codes.
 */
module XPathToken {
  import opened Wrappers
  import opened XPathErrors
  import opened Namespaces

  // ---------------------------------------------------------------------
  // ordinal

  /** The decimal digits of a natural number, most significant first. */
  function Digits(n: nat): (s: string)
    ensures |s| > 0 && forall i :: 0 <= i < |s| ==> '0' <= s[i] <= '9'
    decreases n
  {
    var d := [(n % 10) as char + '0'];
    if n < 10 then d else Digits(n / 10) + d
  }

  /** `'%d' % n`: the decimal notation, with a minus sign for a negative number. */
  function DecimalString(n: int): string
  {
    if n < 0 then "-" + Digits(-n) else Digits(n)
  }

  /** The number a non-empty string of decimal digits denotes. */
  function DigitsValue(s: string): nat
    requires forall i :: 0 <= i < |s| ==> '0' <= s[i] <= '9'
    decreases |s|
  {
    if s == [] then 0 else 10 * DigitsValue(s[..|s| - 1]) + (s[|s| - 1] - '0') as nat
  }

  /** Reading back the decimal digits of a number gives the number. */
  lemma {:induction false} DigitsRoundTrip(n: nat)
    ensures DigitsValue(Digits(n)) == n
    decreases n
  {
    if n >= 10 {
      DigitsRoundTrip(n / 10);
      var s := Digits(n);
      assert s[..|s| - 1] == Digits(n / 10);
    }
  }

  /** The decimal notation of a number determines the number. */
  lemma DecimalStringInjective(m: int, n: int)
    ensures DecimalString(m) == DecimalString(n) ==> m == n
  {
    if DecimalString(m) == DecimalString(n) {
      DecimalStringSign(m);
      DecimalStringSign(n);
      if m < 0 && n < 0 {
        DigitsInjective(-m, -n);
      } else if m >= 0 && n >= 0 {
        DigitsInjective(m, n);
      }
    }
  }

  lemma DigitsInjective(a: nat, b: nat)
    requires Digits(a) == Digits(b)
    ensures a == b
  {
    DigitsRoundTrip(a);
    DigitsRoundTrip(b);
  }

  /** The notation starts with a minus sign exactly for a negative number, and the digits follow it. */
  lemma DecimalStringSign(n: int)
    ensures |DecimalString(n)| > 0 && (DecimalString(n)[0] == '-' <==> n < 0)
    ensures n < 0 ==> DecimalString(n)[1..] == Digits(-n)
    ensures n >= 0 ==> DecimalString(n) == Digits(n)
  {
    if n < 0 {
      assert ("-" + Digits(-n))[1..] == Digits(-n);
    } else {
      assert '0' <= Digits(n)[0] <= '9';
    }
  }

  /** The English ordinal suffix the function picks. */
  function OrdinalSuffix(n: int): (suffix: string)
    ensures suffix in {"st", "nd", "rd", "th"}
  {
    if n in {11, 12, 13} then "th"
    else if n % 10 == 1 then "st"
    else if n % 10 == 2 then "nd"
    else if n % 10 == 3 then "rd"
    else "th"
  }

  /** `ordinal(n)`: the number followed by its ordinal suffix. */
  function Ordinal(n: int): string
  {
    DecimalString(n) + OrdinalSuffix(n)
  }

  /**
   * The suffix is `th` for 11, 12 and 13, and otherwise follows the last
   * digit of the (floored) remainder by ten, so 111 gives `111st`; the text
   * before the suffix is the number itself.
   */
  lemma OrdinalSpec(n: int)
    ensures |Ordinal(n)| >= 3 && Ordinal(n)[..|Ordinal(n)| - 2] == DecimalString(n)
    ensures Ordinal(n)[|Ordinal(n)| - 2..] == OrdinalSuffix(n)
    ensures OrdinalSuffix(n) == "th" <==> n in {11, 12, 13} || n % 10 !in {1, 2, 3}
    ensures OrdinalSuffix(n) == "st" <==> n % 10 == 1 && n != 11
    ensures OrdinalSuffix(n) == "nd" <==> n % 10 == 2 && n != 12
    ensures OrdinalSuffix(n) == "rd" <==> n % 10 == 3 && n != 13
  {
    DecimalStringSign(n);
  }

  /** 111 ends in 1 but not in 11, so it takes `st`; the floored remainder makes -1 take `th`. */
  lemma OrdinalExamples()
    ensures Ordinal(111) == "111st" && Ordinal(12) == "12th" && Ordinal(-1) == "-1th"
  {
    assert Digits(111) == "111" by { assert Digits(11) == "11"; }
    assert Digits(12) == "12";
  }

  // ---------------------------------------------------------------------
  // Effective boolean value

  /**
   * The items an operand may hold: element nodes, attribute or namespace
   * nodes (tuples), and atomic values.
   */
  datatype Item = Element(id: nat) | Tuple(id: nat) | Bool(b: bool) | Int(i: int) | Str(s: string)
  {
    predicate IsNode() { Element? || Tuple? }
  }

  /** What `boolean_value` is given: a list of items, or a bare object. */
  datatype Operand = List(items: seq<Item>) | Single(item: Item)

  /** Python's `bool(x)` on an atomic value. */
  function Truthy(x: Item): bool
  {
    match x
    case Element(_) => true
    case Tuple(_) => true
    case Bool(b) => b
    case Int(i) => i != 0
    case Str(s) => s != ""
  }

  /** `boolean_value(obj)`: the effective boolean value, or FORG0006. */
  function BooleanValue(obj: Operand): (r: Result<bool, XPathError>)
    ensures r.Err? <==>
      (obj.List? && |obj.items| > 1 && !obj.items[0].IsNode()) || (obj.Single? && obj.item.IsNode())
    ensures r.Err? ==> r.error == XPathError("FORG0006")
  {
    match obj
    case List(items) =>
      if items == [] then Ok(false)
      else if items[0].IsNode() then Ok(true)
      else if |items| == 1 then Ok(Truthy(items[0]))
      else Err(Raise(WrongType))
    case Single(x) =>
      if x.IsNode() then Err(Raise(WrongType)) else Ok(Truthy(x))
  }

  /**
   * The effective boolean value of a sequence, rule by rule as section 2.4.3
   * of XPath 2.0 gives it: empty is false; a sequence whose first item is a
   * node is true; a single boolean is itself, a single string is true when
   * non-empty, a single number when non-zero; anything else is FORG0006.
   */
  function EffectiveBooleanValue(s: seq<Item>): (r: Result<bool, XPathError>)
    ensures r.Err? ==> r.error == XPathError("FORG0006")
  {
    if |s| == 0 then Ok(false)
    else if s[0].Element? || s[0].Tuple? then Ok(true)
    else if |s| != 1 then Err(XPathError("FORG0006"))
    else
      match s[0]
      case Bool(b) => Ok(b)
      case Str(t) => Ok(|t| > 0)
      case Int(i) => Ok(i != 0)
  }

  /**
   * On a list the function computes the effective boolean value; a bare
   * atomic value counts as a one-item sequence, and a bare node raises
   * FORG0006.
   */
  lemma BooleanValueIsEffective(obj: Operand)
    ensures obj.List? ==> BooleanValue(obj) == EffectiveBooleanValue(obj.items)
    ensures obj.Single? && !obj.item.IsNode() ==> BooleanValue(obj) == EffectiveBooleanValue([obj.item])
    ensures obj.Single? && obj.item.IsNode() ==> BooleanValue(obj) == Err(XPathError("FORG0006"))
  {
  }

  // ---------------------------------------------------------------------
  // XSD type associations

  /** What a name is associated with: one type object, or a list of them. */
  datatype Entry = One(t: nat) | Many(ts: seq<nat>)

  /** The table after `add_xsd_type(name, t)`, from the table before it (None before the first call). */
  function Added(table: Option<map<string, Entry>>, name: string, t: nat): (r: map<string, Entry>)
    ensures forall k :: k in r <==> k == name || (table.Some? && k in table.value)
    ensures forall k :: k in r && k != name ==> r[k] == table.value[k]
  {
    match table
    case None => map[name := One(t)]
    case Some(m) =>
      if name !in m then m[name := One(t)]
      else
        match m[name]
        case One(u) => if u != t then m[name := Many([u, t])] else m
        case Many(ts) => if t !in ts then m[name := Many(ts + [t])] else m
  }

  /** A type object is associated with a name through the entry. */
  predicate Holds(e: Entry, t: nat)
  {
    match e
    case One(u) => u == t
    case Many(ts) => t in ts
  }

  /** Each list entry has no repeated type object. */
  predicate NoRepeats(m: map<string, Entry>)
  {
    forall name :: name in m && m[name].Many? ==>
      forall i, j :: 0 <= i < j < |m[name].ts| ==> m[name].ts[i] != m[name].ts[j]
  }

  /** The token's table of XSD types, filled in place. */
  class TypedToken {
    var xsdTypes: Option<map<string, Entry>>

    constructor()
      ensures xsdTypes == None
    {
      xsdTypes := None;
    }

    /** `add_xsd_type(name, xsd_type)`: record the association and return the type. */
    method AddXsdType(name: string, xsdType: nat) returns (r: nat)
      modifies this
      ensures r == xsdType
      ensures xsdTypes == Some(Added(old(xsdTypes), name, xsdType))
    {
      if xsdTypes == None {
        xsdTypes := Some(map[name := One(xsdType)]);
      } else {
        var table := xsdTypes.value;
        if name !in table {
          xsdTypes := Some(table[name := One(xsdType)]);
        } else {
          match table[name] {
            case One(obj) =>
              if obj != xsdType {
                xsdTypes := Some(table[name := Many([obj, xsdType])]);
              }
            case Many(objs) =>
              if xsdType !in objs {
                xsdTypes := Some(table[name := Many(objs + [xsdType])]);
              }
          }
        }
      }
      return xsdType;
    }
  }

  /**
   * After the call the name holds the type, every type it held before is
   * still there, and every other name is unchanged.
   */
  lemma AddedSpec(table: Option<map<string, Entry>>, name: string, t: nat)
    ensures name in Added(table, name, t) && Holds(Added(table, name, t)[name], t)
    ensures table.Some? && name in table.value ==>
      forall u :: Holds(table.value[name], u) ==> Holds(Added(table, name, t)[name], u)
    ensures forall other :: other != name ==>
      (other in Added(table, name, t) <==> table.Some? && other in table.value)
    ensures table.Some? ==> forall other :: other != name && other in table.value ==>
      Added(table, name, t)[other] == table.value[other]
  {
  }

  /** Adding a type that is already associated with the name changes nothing. */
  lemma AddedAgain(m: map<string, Entry>, name: string, t: nat)
    requires name in m && Holds(m[name], t)
    ensures Added(Some(m), name, t) == m
  {
  }

  /** Adding twice is adding once. */
  lemma AddedIdempotent(table: Option<map<string, Entry>>, name: string, t: nat)
    ensures Added(Some(Added(table, name, t)), name, t) == Added(table, name, t)
  {
    AddedSpec(table, name, t);
    AddedAgain(Added(table, name, t), name, t);
  }

  /** A second, different type turns the entry into a two-element list in insertion order. */
  lemma AddedSecond(t: nat, u: nat, name: string)
    requires t != u
    ensures Added(Some(Added(None, name, t)), name, u)[name] == Many([t, u])
  {
  }

  /** No list entry ever holds the same type object twice. */
  lemma AddedNoRepeats(table: Option<map<string, Entry>>, name: string, t: nat)
    requires table.Some? ==> NoRepeats(table.value)
    ensures NoRepeats(Added(table, name, t))
  {
    var m := Added(table, name, t);
    if table.Some? && name in table.value && table.value[name].Many? && t !in table.value[name].ts {
      var ts := table.value[name].ts + [t];
      assert m[name] == Many(ts);
      forall i, j | 0 <= i < j < |ts| ensures ts[i] != ts[j] {
        if j == |ts| - 1 {
          assert ts[i] in table.value[name].ts;
        }
      }
    }
  }

  // ---------------------------------------------------------------------
  // Error prefix

  /**
   * `error_prefix`: the first prefix of the parser's namespace map, in the
   * map's order, bound to the XQT errors namespace, or `err` when there is none.
   */
  function ErrorPrefix(namespaces: seq<(string, string)>): (r: string)
    ensures (exists i :: 0 <= i < |namespaces| && namespaces[i].1 == XqtErrorsNamespace) ==>
      exists i :: 0 <= i < |namespaces| && namespaces[i].1 == XqtErrorsNamespace && r == namespaces[i].0
        && forall j :: 0 <= j < i ==> namespaces[j].1 != XqtErrorsNamespace
    ensures (forall i :: 0 <= i < |namespaces| ==> namespaces[i].1 != XqtErrorsNamespace) ==> r == "err"
  {
    if namespaces == [] then "err"
    else if namespaces[0].1 == XqtErrorsNamespace then namespaces[0].0
    else
      var r := ErrorPrefix(namespaces[1..]);
      assert forall i :: 1 <= i < |namespaces| ==> namespaces[1..][i - 1] == namespaces[i];
      r
  }
}

/**
 * The parsed XML tree the customs-declaration scripts work on, and the
 * ElementTree primitives they use on it: the pre-order walk `Element.iter()`,
 * `find` and `findall` with a plain tag, and the namespace-stripping pass
 * `el.tag = el.tag.split('}', 1)[1]` that every script runs after parsing.
 */
module ElementTree {
  import opened Wrappers
  import opened PyExceptions

  /** An element: its tag, its `.text` (None when the element has no text) and its children in document order. */
  datatype Node = Node(tag: string, text: Option<string>, children: seq<Node>)

  /** `Element.iter()`: the pre-order walk of the subtree, starting with the element itself. */
  function Iter(n: Node): (r: seq<Node>)
    ensures |r| >= 1 && r[0] == n
    decreases n
  {
    [n] + IterSeq(n.children)
  }

  /** The pre-order walks of a list of siblings, one after the other. */
  function IterSeq(cs: seq<Node>): (r: seq<Node>)
    ensures |r| >= |cs|
    decreases cs
  {
    if cs == [] then [] else Iter(cs[0]) + IterSeq(cs[1..])
  }

  /** The `.tag` of each node of a list. */
  function Tags(ns: seq<Node>): (r: seq<string>)
    ensures |r| == |ns| && forall i :: 0 <= i < |ns| ==> r[i] == ns[i].tag
  {
    seq(|ns|, i requires 0 <= i < |ns| => ns[i].tag)
  }

  /** The `.text` of each node of a list. */
  function Texts(ns: seq<Node>): (r: seq<Option<string>>)
    ensures |r| == |ns| && forall i :: 0 <= i < |ns| ==> r[i] == ns[i].text
  {
    seq(|ns|, i requires 0 <= i < |ns| => ns[i].text)
  }

  lemma TagsAppend(a: seq<Node>, b: seq<Node>)
    ensures Tags(a + b) == Tags(a) + Tags(b)
  {
  }

  lemma TextsAppend(a: seq<Node>, b: seq<Node>)
    ensures Texts(a + b) == Texts(a) + Texts(b)
  {
  }

  /** `findall(tag)` with a plain tag: the direct children carrying that tag, in document order. */
  function FindAll(n: Node, tag: string): (r: seq<Node>)
    ensures forall c :: c in r ==> c in n.children && c.tag == tag
    ensures forall c :: c in n.children && c.tag == tag ==> c in r
  {
    FilterTag(n.children, tag)
  }

  function FilterTag(cs: seq<Node>, tag: string): (r: seq<Node>)
    ensures forall c :: c in r ==> c in cs && c.tag == tag
    ensures forall c :: c in cs && c.tag == tag ==> c in r
  {
    if cs == [] then []
    else if cs[0].tag == tag then [cs[0]] + FilterTag(cs[1..], tag)
    else FilterTag(cs[1..], tag)
  }

  /** Filtering keeps document order: the matches of a concatenation are the matches of each part in turn. */
  lemma {:induction false} FilterTagAppend(a: seq<Node>, b: seq<Node>, tag: string)
    ensures FilterTag(a + b, tag) == FilterTag(a, tag) + FilterTag(b, tag)
    decreases |a|
  {
    if a == [] {
      assert a + b == b;
    } else {
      assert (a + b)[1..] == a[1..] + b;
      FilterTagAppend(a[1..], b, tag);
    }
  }

  /** A single child is kept exactly when it carries the tag. */
  lemma FilterTagOne(c: Node, tag: string)
    ensures FilterTag([c], tag) == if c.tag == tag then [c] else []
  {
    assert [c][1..] == [];
  }

  /** A child carrying the tag is listed as often as it occurs among the children; any other node never. */
  lemma {:induction false} FilterTagCount(cs: seq<Node>, tag: string, c: Node)
    ensures multiset(FilterTag(cs, tag))[c] == if c.tag == tag then multiset(cs)[c] else 0
    decreases |cs|
  {
    if cs != [] {
      FilterTagCount(cs[1..], tag, c);
      assert cs == [cs[0]] + cs[1..];
    }
  }

  /** `find(tag)` with a plain tag: the first direct child carrying that tag, or None. */
  function Find(n: Node, tag: string): (r: Option<Node>)
    ensures r.Some? ==> r.value in n.children && r.value.tag == tag
    ensures r.None? <==> forall c :: c in n.children ==> c.tag != tag
  {
    FirstWithTag(n.children, tag)
  }

  function FirstWithTag(cs: seq<Node>, tag: string): (r: Option<Node>)
    ensures r.Some? ==> r.value in cs && r.value.tag == tag
    ensures r.None? <==> forall c :: c in cs ==> c.tag != tag
  {
    if cs == [] then None
    else if cs[0].tag == tag then Some(cs[0])
    else FirstWithTag(cs[1..], tag)
  }

  /** `find` returns the first element `findall` would list, and None exactly when `findall` lists nothing. */
  lemma {:induction false} FindIsFirstOfFindAll(n: Node, tag: string)
    ensures Find(n, tag) == if FindAll(n, tag) == [] then None else Some(FindAll(n, tag)[0])
  {
    FirstOfFilter(n.children, tag);
  }

  lemma {:induction false} FirstOfFilter(cs: seq<Node>, tag: string)
    ensures FirstWithTag(cs, tag) == if FilterTag(cs, tag) == [] then None else Some(FilterTag(cs, tag)[0])
  {
    if cs != [] && cs[0].tag != tag {
      FirstOfFilter(cs[1..], tag);
    }
  }

  // ---------------------------------------------------------------------
  // Namespace stripping

  /**
   * `tag.split('}', 1)[1]`: the text after the first `}` of a tag written in
   * Clark notation `{uri}local`. A tag without `}` splits into one piece,
   * and taking the second piece raises IndexError.
   */
  function LocalName(tag: string): (r: Result<string, Exception>)
    ensures r.Err? <==> '}' !in tag
    ensures r.Ok? ==> |r.value| < |tag| && r.value == tag[|tag| - |r.value|..]
    ensures r.Ok? ==> '}' !in tag[..|tag| - |r.value| - 1] && tag[|tag| - |r.value| - 1] == '}'
  {
    if tag == [] then Err(IndexError)
    else if tag[0] == '}' then Ok(tag[1..])
    else
      match LocalName(tag[1..])
      case Ok(rest) =>
        assert tag[1..][..|tag| - 1 - |rest| - 1] == tag[1..|tag| - |rest| - 1];
        Ok(rest)
      case Err(e) => Err(e)
  }

  /** Stripping the namespace of a Clark-notation name gives back its local part. */
  lemma LocalNameOfClark(uri: string, local: string)
    requires '}' !in uri
    ensures LocalName("{" + uri + "}" + local) == Ok(local)
  {
    assert "{" + uri + "}" + local == ("{" + uri) + "}" + local;
    LocalNameAfterBrace("{" + uri, local);
  }

  /** The text after the first `}` is all that is kept. */
  lemma {:induction false} LocalNameAfterBrace(prefix: string, local: string)
    requires '}' !in prefix
    ensures LocalName(prefix + "}" + local) == Ok(local)
    decreases |prefix|
  {
    var t := prefix + "}" + local;
    if prefix == [] {
      assert t[1..] == local;
    } else {
      assert t[1..] == prefix[1..] + "}" + local;
      LocalNameAfterBrace(prefix[1..], local);
    }
  }

  /** Every tag of the list is in Clark notation, so the stripping pass raises nothing. */
  predicate AllQualified(tags: seq<string>)
  {
    forall i :: 0 <= i < |tags| ==> '}' in tags[i]
  }

  /** The local names of a list of qualified tags. */
  function LocalNames(tags: seq<string>): (r: seq<string>)
    requires AllQualified(tags)
    ensures |r| == |tags| && forall i :: 0 <= i < |tags| ==> LocalName(tags[i]) == Ok(r[i])
  {
    seq(|tags|, i requires 0 <= i < |tags| => LocalName(tags[i]).value)
  }

  /**
   * The loop `for _, el in it: el.tag = el.tag.split('}', 1)[1]`, over the
   * tags of the document's elements held in one array. Each tag is rewritten
   * in place; the first tag without `}` raises, leaving the tags before it
   * rewritten and the rest untouched.
   */
  method StripNamespaces(tags: array<string>) returns (ok: bool)
    modifies tags
    ensures ok <==> AllQualified(old(tags[..]))
    ensures ok ==> tags[..] == LocalNames(old(tags[..]))
    ensures !ok ==> exists k :: 0 <= k < tags.Length && '}' !in old(tags[k])
                      && (forall i :: 0 <= i < k ==> LocalName(old(tags[i])) == Ok(tags[i]))
                      && (forall i :: k <= i < tags.Length ==> tags[i] == old(tags[i]))
  {
    var i := 0;
    while i < tags.Length
      invariant 0 <= i <= tags.Length
      invariant forall j :: 0 <= j < i ==> '}' in old(tags[j]) && LocalName(old(tags[j])) == Ok(tags[j])
      invariant forall j :: i <= j < tags.Length ==> tags[j] == old(tags[j])
    {
      match LocalName(tags[i]) {
        case Err(_) =>
          return false;
        case Ok(local) =>
          tags[i] := local;
      }
      i := i + 1;
    }
    return true;
  }

  /** The tree with its tags replaced, in pre-order, by the given list; texts and shape are kept. */
  function Relabel(n: Node, tags: seq<string>): (r: Node)
    requires |tags| == |Iter(n)|
    ensures r.text == n.text && |r.children| == |n.children|
    decreases n
  {
    Node(tags[0], n.text, RelabelSeq(n.children, tags[1..]))
  }

  function RelabelSeq(cs: seq<Node>, tags: seq<string>): (r: seq<Node>)
    requires |tags| == |IterSeq(cs)|
    ensures |r| == |cs|
    decreases cs
  {
    if cs == [] then []
    else
      var k := |Iter(cs[0])|;
      [Relabel(cs[0], tags[..k])] + RelabelSeq(cs[1..], tags[k..])
  }

  /** Relabelling puts exactly the given tags on the pre-order walk, and keeps its texts. */
  lemma {:induction false} RelabelWalk(n: Node, tags: seq<string>)
    requires |tags| == |Iter(n)|
    ensures |Iter(Relabel(n, tags))| == |Iter(n)|
    ensures Tags(Iter(Relabel(n, tags))) == tags
    ensures Texts(Iter(Relabel(n, tags))) == Texts(Iter(n))
    decreases n
  {
    RelabelSeqWalk(n.children, tags[1..]);
    var r := Relabel(n, tags);
    TagsAppend([r], IterSeq(r.children));
    TextsAppend([r], IterSeq(r.children));
    TextsAppend([n], IterSeq(n.children));
  }

  lemma {:induction false} RelabelSeqWalk(cs: seq<Node>, tags: seq<string>)
    requires |tags| == |IterSeq(cs)|
    ensures |IterSeq(RelabelSeq(cs, tags))| == |IterSeq(cs)|
    ensures Tags(IterSeq(RelabelSeq(cs, tags))) == tags
    ensures Texts(IterSeq(RelabelSeq(cs, tags))) == Texts(IterSeq(cs))
    decreases cs
  {
    if cs != [] {
      var k := |Iter(cs[0])|;
      RelabelWalk(cs[0], tags[..k]);
      RelabelSeqWalk(cs[1..], tags[k..]);
      var rs := RelabelSeq(cs, tags);
      assert rs[0] == Relabel(cs[0], tags[..k]) && rs[1..] == RelabelSeq(cs[1..], tags[k..]);
      TagsAppend(Iter(rs[0]), IterSeq(rs[1..]));
      TextsAppend(Iter(rs[0]), IterSeq(rs[1..]));
      TextsAppend(Iter(cs[0]), IterSeq(cs[1..]));
      assert tags == tags[..k] + tags[k..];
    }
  }

  /** Relabelling a tree with its own tags gives the tree back. */
  lemma {:induction false} RelabelOwnTags(n: Node)
    ensures Relabel(n, Tags(Iter(n))) == n
    decreases n
  {
    TagsAppend([n], IterSeq(n.children));
    RelabelSeqOwnTags(n.children);
  }

  lemma {:induction false} RelabelSeqOwnTags(cs: seq<Node>)
    ensures RelabelSeq(cs, Tags(IterSeq(cs))) == cs
    decreases cs
  {
    if cs != [] {
      TagsAppend(Iter(cs[0]), IterSeq(cs[1..]));
      var k := |Iter(cs[0])|;
      assert Tags(IterSeq(cs))[..k] == Tags(Iter(cs[0]));
      assert Tags(IterSeq(cs))[k..] == Tags(IterSeq(cs[1..]));
      RelabelOwnTags(cs[0]);
      RelabelSeqOwnTags(cs[1..]);
    }
  }

  /** The document after the stripping pass, or the IndexError it raises. */
  function Stripped(doc: Node): (r: Result<Node, Exception>)
  {
    var tags := Tags(Iter(doc));
    if AllQualified(tags) then Ok(Relabel(doc, LocalNames(tags))) else Err(IndexError)
  }

  /**
   * The stripping pass over a whole document: its tags, gathered in one array,
   * are rewritten in place and put back on the tree.
   */
  method StripDocument(doc: Node) returns (r: Result<Node, Exception>)
    ensures r == Stripped(doc)
    ensures r.Err? <==> exists i :: 0 <= i < |Iter(doc)| && '}' !in Iter(doc)[i].tag
    ensures r.Ok? ==> |Iter(r.value)| == |Iter(doc)| && Texts(Iter(r.value)) == Texts(Iter(doc))
    ensures r.Ok? ==> forall i :: 0 <= i < |Iter(doc)| ==> LocalName(Iter(doc)[i].tag) == Ok(Iter(r.value)[i].tag)
  {
    var walk := Iter(doc);
    var tags := new string[|walk|](i requires 0 <= i < |walk| => walk[i].tag);
    assert tags[..] == Tags(walk);
    var ok := StripNamespaces(tags);
    if ok {
      RelabelWalk(doc, tags[..]);
      r := Ok(Relabel(doc, tags[..]));
    } else {
      r := Err(IndexError);
    }
  }
}

/**
 * The XPath support xmlschema gives its XSD components: the depth-first
 * iterator over a component graph that expands each local element once,
 * the namespace map handed to the XPath parser, the normalisation of a path
 * before parsing, the pickling state, and the walk to a primitive type.
 */
module XsdXPath {
  import opened Wrappers
  import opened Sequences
  import opened Namespaces

  // ---------------------------------------------------------------------
  // Iterating over XSD components

  /**
   * An XSD component as the iterator sees it: its name, whether it is
   * global (its `parent` is None), whether it is an element reference, and
   * the ids of its children in order.
   */
  datatype Component = Component(name: string, global: bool, isRef: bool, children: seq<nat>)

  type Graph = map<nat, Component>

  /** Every child id names a component. */
  predicate Closed(g: Graph)
  {
    forall id, c :: id in g && c in g[id].children ==> c in g
  }

  /**
   * `rank` falls along every edge to a global child: the iterator follows
   * those without remembering them, so a cycle through global components
   * would recurse without end.
   */
  predicate Ranked(g: Graph, rank: nat -> nat)
  {
    forall id, c :: id in g && c in g[id].children && c in g && g[c].global ==> rank(c) < rank(id)
  }

  /** A child that the iterator expands only once: local, and not a reference. */
  predicate IsLocal(g: Graph, id: nat)
  {
    id in g && !g[id].global && !g[id].isRef
  }

  /** `is_matching` on the component's name, with None matching everything. */
  predicate Matches(name: string, tag: Option<string>)
  {
    tag.None? || name == tag.value
  }

  /** `'*'` stands for no tag at all. */
  function NormalTag(tag: Option<string>): (r: Option<string>)
    ensures r.None? <==> tag.None? || tag == Some("*")
    ensures r.Some? ==> r == tag
  {
    if tag == Some("*") then None else tag
  }

  /** The local components not yet expanded. */
  function Unvisited(g: Graph, visited: seq<nat>): set<nat>
  {
    set id | id in g && IsLocal(g, id) && id !in visited
  }

  lemma UnvisitedShrinks(g: Graph, visited: seq<nat>, more: seq<nat>)
    requires forall x :: x in visited ==> x in more
    ensures Unvisited(g, more) <= Unvisited(g, visited)
    ensures |Unvisited(g, more)| <= |Unvisited(g, visited)|
  {
    SubsetCard(Unvisited(g, more), Unvisited(g, visited));
  }

  lemma {:induction false} SubsetCard<T>(a: set<T>, b: set<T>)
    requires a <= b
    ensures |a| <= |b|
    decreases |b|
  {
    if a != {} {
      var x :| x in a;
      SubsetCard(a - {x}, b - {x});
    }
  }

  /** Every yielded id names a component whose name matches the tag. */
  predicate AllMatch(g: Graph, out: seq<nat>, tag: Option<string>)
  {
    forall x :: x in out ==> x in g && Matches(g[x].name, tag)
  }

  /** A `local_elements` list: local components, none twice. */
  predicate LocalList(g: Graph, visited: seq<nat>)
  {
    NoDup(visited) && forall x :: x in visited ==> IsLocal(g, x)
  }

  /** `after` is `before` with more appended. */
  predicate Extends(before: seq<nat>, after: seq<nat>)
  {
    |before| <= |after| && after[..|before|] == before
  }

  /** Every member of `a` is a member of `b`. */
  predicate Within(a: seq<nat>, b: seq<nat>)
  {
    forall x :: x in a ==> x in b
  }

  lemma ExtendsTrans(a: seq<nat>, b: seq<nat>, c: seq<nat>)
    requires Extends(a, b) && Extends(b, c)
    ensures Extends(a, c) && forall x :: x in b ==> x in c
  {
    assert c[..|a|] == c[..|b|][..|a|];
    PrefixKeeps(b, c);
  }

  lemma AllMatchAppend(g: Graph, out: seq<nat>, more: seq<nat>, tag: Option<string>)
    requires AllMatch(g, out, tag) && AllMatch(g, more, tag)
    ensures AllMatch(g, out + more, tag)
  {
  }

  lemma LocalListAppend(g: Graph, visited: seq<nat>, child: nat)
    requires LocalList(g, visited) && IsLocal(g, child) && child !in visited
    ensures LocalList(g, visited + [child]) && Extends(visited, visited + [child])
    ensures |Unvisited(g, visited + [child])| < |Unvisited(g, visited)|
  {
    assert child in Unvisited(g, visited);
    assert Unvisited(g, visited + [child]) <= Unvisited(g, visited) - {child};
    SubsetCard(Unvisited(g, visited + [child]), Unvisited(g, visited) - {child});
  }

  // What the walk reaches

  /** An element reference (not global): yielded when it matches, never walked. */
  predicate IsRef(g: Graph, id: nat)
  {
    id in g && !g[id].global && g[id].isRef
  }

  /** A child the iterator walks into: a global component, or a local one. */
  predicate Expanded(g: Graph, id: nat)
  {
    id in g && (g[id].global || !g[id].isRef)
  }

  /** A chain of components, each one a walked-into child of the one before. */
  ghost predicate IsPath(g: Graph, p: seq<nat>)
  {
    |p| > 0 && (forall i :: 0 <= i < |p| ==> p[i] in g) &&
    forall i :: 0 < i < |p| ==> p[i] in g[p[i - 1]].children && Expanded(g, p[i])
  }

  /** `b` is met by walking down from `a` through components the iterator expands. */
  ghost predicate Reaches(g: Graph, a: nat, b: nat)
  {
    exists p :: IsPath(g, p) && p[0] == a && p[|p| - 1] == b
  }

  lemma ReachesSelf(g: Graph, a: nat)
    requires a in g
    ensures Reaches(g, a, a)
  {
    assert IsPath(g, [a]);
  }

  lemma ReachesThrough(g: Graph, a: nat, b: nat, x: nat)
    requires a in g && b in g[a].children && Expanded(g, b) && Reaches(g, b, x)
    ensures Reaches(g, a, x)
  {
    var p :| IsPath(g, p) && p[0] == b && p[|p| - 1] == x;
    var q := [a] + p;
    assert forall i :: 0 < i < |q| ==> q[i] == p[i - 1];
    assert IsPath(g, q);
  }

  /** Every member of `w` is reached from `a`. */
  ghost predicate AllReach(g: Graph, a: nat, w: seq<nat>)
  {
    forall x :: x in w ==> x in g && Reaches(g, a, x)
  }

  lemma AllReachStep(g: Graph, elem: nat, child: nat, walked: seq<nat>, sub: seq<nat>)
    requires elem in g && AllReach(g, elem, walked) && AllReach(g, child, sub)
    requires sub != [] ==> child in g[elem].children && Expanded(g, child)
    ensures AllReach(g, elem, walked + sub)
  {
    forall x | x in sub ensures Reaches(g, elem, x) {
      ReachesThrough(g, elem, child, x);
    }
  }

  /** `w` holds every walked-into child of its own members. */
  predicate ExpandClosed(g: Graph, w: seq<nat>)
  {
    forall y, c :: y in w && y in g && c in g[y].children && Expanded(g, c) ==> c in w
  }

  lemma {:induction false} PathWithin(g: Graph, w: seq<nat>, p: seq<nat>, n: nat)
    requires IsPath(g, p) && p[0] in w && ExpandClosed(g, w) && n < |p|
    ensures p[n] in w
    decreases n
  {
    if n > 0 {
      PathWithin(g, w, p, n - 1);
    }
  }

  /** A closed set that holds `a` holds everything `a` reaches. */
  lemma ReachesWithin(g: Graph, w: seq<nat>, a: nat, x: nat)
    requires a in w && ExpandClosed(g, w) && Reaches(g, a, x)
    ensures x in w
  {
    var p :| IsPath(g, p) && p[0] == a && p[|p| - 1] == x;
    PathWithin(g, w, p, |p| - 1);
  }

  // What one walk leaves behind

  /**
   * For every member of `src`: its global children are in `walked`, its
   * local children in `visited`, its matching references in `out`, and
   * the member itself is in `out` when it matches.
   */
  predicate Closure(g: Graph, tag: Option<string>, src: seq<nat>, walked: seq<nat>, visited: seq<nat>, out: seq<nat>)
  {
    (forall x, c :: x in src && x in g && c in g[x].children && c in g && g[c].global ==> c in walked) &&
    (forall x, c :: x in src && x in g && c in g[x].children && IsLocal(g, c) ==> c in visited) &&
    (forall x, c :: x in src && x in g && c in g[x].children && IsRef(g, c) && Matches(g[c].name, tag) ==> c in out) &&
    (forall x :: x in src && x in g && Matches(g[x].name, tag) ==> x in out)
  }

  lemma ClosureMono(g: Graph, tag: Option<string>, src: seq<nat>, w: seq<nat>, v: seq<nat>, o: seq<nat>,
                    w': seq<nat>, v': seq<nat>, o': seq<nat>)
    requires Closure(g, tag, src, w, v, o) && Within(w, w') && Within(v, v') && Within(o, o')
    ensures Closure(g, tag, src, w', v', o')
  {
  }

  lemma ClosureJoin(g: Graph, tag: Option<string>, a: seq<nat>, b: seq<nat>, w: seq<nat>, v: seq<nat>, o: seq<nat>)
    requires Closure(g, tag, a, w, v, o) && Closure(g, tag, b, w, v, o)
    ensures Closure(g, tag, a + b, w, v, o)
  {
  }

  /** One child's walk joins the walks so far. */
  lemma ClosureStep(g: Graph, tag: Option<string>, walked: seq<nat>, sub: seq<nat>,
                    va: seq<nat>, v: seq<nat>, out: seq<nat>, more: seq<nat>)
    requires |walked| > 0 && Closure(g, tag, walked[1..], walked, va, out)
    requires Closure(g, tag, sub, sub, v, more) && Within(va, v)
    ensures Closure(g, tag, (walked + sub)[1..], walked + sub, v, out + more)
  {
    assert (walked + sub)[1..] == walked[1..] + sub;
    ClosureMono(g, tag, walked[1..], walked, va, out, walked + sub, v, out + more);
    ClosureMono(g, tag, sub, sub, v, more, walked + sub, v, out + more);
    ClosureJoin(g, tag, walked[1..], sub, walked + sub, v, out + more);
  }

  /** Every global component of `cs` is in `walked`. */
  predicate GlobalsIn(g: Graph, cs: seq<nat>, walked: seq<nat>)
  {
    forall c :: c in cs && c in g && g[c].global ==> c in walked
  }

  lemma GlobalsStep(g: Graph, cs: seq<nat>, c: nat, walked: seq<nat>, sub: seq<nat>)
    requires GlobalsIn(g, cs, walked)
    requires c in g && g[c].global ==> c in sub
    ensures GlobalsIn(g, cs + [c], walked + sub)
  {
  }

  /** Once the element's children are all handled, the element joins the closure. */
  lemma ClosureFinish(g: Graph, tag: Option<string>, elem: nat, walked: seq<nat>, v: seq<nat>, out: seq<nat>)
    requires elem in g && |walked| > 0 && walked[0] == elem
    requires Closure(g, tag, walked[1..], walked, v, out)
    requires GlobalsIn(g, g[elem].children, walked) && LocalsIn(g, g[elem].children, v)
    requires RefsIn(g, g[elem].children, tag, out)
    requires Matches(g[elem].name, tag) ==> elem in out
    ensures Closure(g, tag, walked, walked, v, out)
  {
    assert Closure(g, tag, [elem], walked, v, out);
    assert walked == [elem] + walked[1..];
    ClosureJoin(g, tag, [elem], walked[1..], walked, v, out);
  }

  /** `y` is a reference child of a member of `w`. */
  ghost predicate RefOf(g: Graph, w: seq<nat>, y: nat)
  {
    IsRef(g, y) && exists x :: x in w && x in g && y in g[x].children
  }

  /** Everything yielded was walked, or is a reference met during the walk. */
  ghost predicate OutSound(g: Graph, w: seq<nat>, out: seq<nat>)
  {
    forall y :: y in out ==> y in w || RefOf(g, w, y)
  }

  lemma OutSoundJoin(g: Graph, w: seq<nat>, w': seq<nat>, out: seq<nat>, more: seq<nat>)
    requires OutSound(g, w, out) && OutSound(g, w', more) && Within(w, w')
    ensures OutSound(g, w', out + more)
  {
    forall y | y in out + more ensures y in w' || RefOf(g, w', y) {
      if y in out && y !in w {
        var x :| x in w && x in g && y in g[x].children;
        assert x in w';
      }
    }
  }

  lemma OutSoundMono(g: Graph, w: seq<nat>, w': seq<nat>, out: seq<nat>)
    requires OutSound(g, w, out) && Within(w, w')
    ensures OutSound(g, w', out)
  {
    forall y | y in out ensures y in w' || RefOf(g, w', y) {
      if y !in w {
        var x :| x in w && x in g && y in g[x].children;
        assert x in w';
      }
    }
  }

  // Local components are expanded once

  /**
   * Every local component of `s`, apart from `elem` in first place, is new
   * to `before` and recorded in `after`.
   */
  predicate FreshLocals(g: Graph, s: seq<nat>, elem: nat, before: seq<nat>, after: seq<nat>)
  {
    forall i :: 0 <= i < |s| && IsLocal(g, s[i]) && !(i == 0 && s[i] == elem) ==> s[i] !in before && s[i] in after
  }

  /** A local component occurs in `s` once, except `elem` in first place, which may come back. */
  predicate OnceLocals(g: Graph, s: seq<nat>, elem: nat)
  {
    forall i, j :: 0 <= i < j < |s| && s[i] == s[j] && IsLocal(g, s[i]) ==> i == 0 && s[i] == elem
  }

  /** Every local component of `s` is new to `before` and recorded in `after`, and occurs once. */
  predicate NewLocals(g: Graph, s: seq<nat>, before: seq<nat>, after: seq<nat>)
  {
    (forall i :: 0 <= i < |s| && IsLocal(g, s[i]) ==> s[i] !in before && s[i] in after) &&
    (forall i, j :: 0 <= i < j < |s| && s[i] == s[j] ==> !IsLocal(g, s[i]))
  }

  /** What a child's walk yields is new, seen from the loop that called it. */
  lemma CalleeLocals(g: Graph, s: seq<nat>, child: nat, va: seq<nat>, vin: seq<nat>, v: seq<nat>)
    requires FreshLocals(g, s, child, vin, v) && OnceLocals(g, s, child) && Within(va, vin)
    requires IsLocal(g, child) ==> child !in va && child in v && child in vin
    ensures NewLocals(g, s, va, v)
  {
  }

  lemma LocalsAppend(g: Graph, acc: seq<nat>, more: seq<nat>, elem: nat, visited: seq<nat>, va: seq<nat>, v: seq<nat>)
    requires FreshLocals(g, acc, elem, visited, va) && OnceLocals(g, acc, elem)
    requires NewLocals(g, more, va, v) && Within(visited, va) && Within(va, v)
    ensures FreshLocals(g, acc + more, elem, visited, v) && OnceLocals(g, acc + more, elem)
  {
    var s := acc + more;
    forall i, j | 0 <= i < j < |s| && s[i] == s[j] && IsLocal(g, s[i])
      ensures i == 0 && s[i] == elem
    {
      if j < |acc| {
        assert s[i] == acc[i] && s[j] == acc[j];
      } else if i < |acc| {
        assert s[j] == more[j - |acc|];
        assert s[i] == acc[i];
      } else {
        assert false;
      }
    }
    forall i | 0 <= i < |s| && IsLocal(g, s[i]) && !(i == 0 && s[i] == elem)
      ensures s[i] !in visited && s[i] in v
    {
      if i < |acc| {
        assert s[i] == acc[i];
      } else {
        assert s[i] == more[i - |acc|];
      }
    }
  }

  /**
   * What a finished walk from `elem` leaves: `walked` starts at `elem` and
   * holds only what `elem` reaches, it is closed over itself (every global
   * child walked, every local child visited, every matching component and
   * reference yielded), the visited list grew only by walked components,
   * everything yielded was walked or is a reference met on the way, and no
   * local component is yielded or walked twice or was visited before.
   */
  ghost predicate WalkDone(g: Graph, tag: Option<string>, elem: nat, visited: seq<nat>,
                           out: seq<nat>, va: seq<nat>, walked: seq<nat>)
  {
    |walked| > 0 && walked[0] == elem && AllReach(g, elem, walked) &&
    Closure(g, tag, walked, walked, va, out) &&
    (forall x :: x in va ==> x in visited || x in walked) &&
    OutSound(g, walked, out) &&
    FreshLocals(g, out, elem, visited, va) && OnceLocals(g, out, elem) &&
    FreshLocals(g, walked, elem, visited, va) && OnceLocals(g, walked, elem)
  }

  /**
   * Where the walk of `elem`'s children stands after the children `cs`:
   * what is yielded matches and starts with `elem` when it matches, the
   * visited list only grew and holds local components once, the local,
   * reference and global children among `cs` are visited, yielded and
   * walked, everything walked is reached from `elem` and closed over, the
   * visited list grew only by walked components, and what is yielded and
   * walked brings each local component once.
   */
  ghost predicate Walking(g: Graph, tag: Option<string>, elem: nat, visited: seq<nat>, cs: seq<nat>,
                          out: seq<nat>, va: seq<nat>, walked: seq<nat>)
  {
    elem in g && AllMatch(g, out, tag) && (Matches(g[elem].name, tag) ==> |out| > 0 && out[0] == elem) &&
    Extends(visited, va) && LocalList(g, va) &&
    LocalsIn(g, cs, va) && RefsIn(g, cs, tag, out) && GlobalsIn(g, cs, walked) &&
    |walked| > 0 && walked[0] == elem && AllReach(g, elem, walked) &&
    Closure(g, tag, walked[1..], walked, va, out) &&
    (forall x :: x in va ==> x in visited || x in walked) &&
    OutSound(g, walked, out) &&
    FreshLocals(g, out, elem, visited, va) && OnceLocals(g, out, elem) &&
    FreshLocals(g, walked, elem, visited, va) && OnceLocals(g, walked, elem)
  }

  lemma WalkingStart(g: Graph, tag: Option<string>, elem: nat, visited: seq<nat>)
    requires elem in g && LocalList(g, visited)
    ensures Walking(g, tag, elem, visited, [], if Matches(g[elem].name, tag) then [elem] else [], visited, [elem])
  {
    ReachesSelf(g, elem);
  }

  /** One child handled: its walk `sub`, its yield `more` and the visited list `v` after it. */
  lemma WalkingStep(g: Graph, tag: Option<string>, elem: nat, visited: seq<nat>, cs: seq<nat>, child: nat,
                    out: seq<nat>, va: seq<nat>, walked: seq<nat>, more: seq<nat>, v: seq<nat>, sub: seq<nat>)
    requires Walking(g, tag, elem, visited, cs, out, va, walked)
    requires AllMatch(g, more, tag) && Extends(va, v) && LocalList(g, v)
    requires IsLocal(g, child) ==> child in v
    requires IsRef(g, child) && Matches(g[child].name, tag) ==> child in more
    requires sub != [] ==> child in g[elem].children && Expanded(g, child)
    requires child in g && g[child].global ==> child in sub
    requires AllReach(g, child, sub) && Closure(g, tag, sub, sub, v, more)
    requires forall x :: x in v ==> x in va || x in sub
    requires OutSound(g, walked + sub, more)
    requires NewLocals(g, more, va, v) && NewLocals(g, sub, va, v)
    ensures Walking(g, tag, elem, visited, cs + [child], out + more, v, walked + sub)
  {
    PrefixKeeps(va, v);
    ExtendsTrans(visited, va, v);
    AllMatchAppend(g, out, more, tag);
    LocalsStep(g, cs, child, va, v);
    RefsStep(g, cs, child, tag, out, more);
    GlobalsStep(g, cs, child, walked, sub);
    AllReachStep(g, elem, child, walked, sub);
    ClosureStep(g, tag, walked, sub, va, v, out, more);
    OutSoundJoin(g, walked, walked + sub, out, more);
    PrefixKeeps(visited, va);
    LocalsAppend(g, out, more, elem, visited, va, v);
    LocalsAppend(g, walked, sub, elem, visited, va, v);
  }

  /** A walked child: what its own walk from the visited list `vin` promises, seen from the loop. */
  lemma ChildWalked(g: Graph, tag: Option<string>, elem: nat, visited: seq<nat>, cs: seq<nat>, child: nat,
                    out: seq<nat>, va: seq<nat>, walked: seq<nat>, vin: seq<nat>, more: seq<nat>, v: seq<nat>, sub: seq<nat>)
    requires Walking(g, tag, elem, visited, cs, out, va, walked)
    requires child in g[elem].children && Expanded(g, child)
    requires IsLocal(g, child) ==> child !in va
    requires vin == if IsLocal(g, child) then va + [child] else va
    requires AllMatch(g, more, tag) && Extends(vin, v) && LocalList(g, v)
    requires WalkDone(g, tag, child, vin, more, v, sub)
    ensures Walking(g, tag, elem, visited, cs + [child], out + more, v, walked + sub)
  {
    assert vin[..|va|] == va;
    ExtendsTrans(va, vin, v);
    PrefixKeeps(vin, v);
    CalleeLocals(g, more, child, va, vin, v);
    CalleeLocals(g, sub, child, va, vin, v);
    OutSoundMono(g, sub, walked + sub, more);
    WalkingStep(g, tag, elem, visited, cs, child, out, va, walked, more, v, sub);
  }

  /** A child not walked: a reference, yielded when it matches, or a local component already expanded. */
  lemma ChildSkipped(g: Graph, tag: Option<string>, elem: nat, visited: seq<nat>, cs: seq<nat>, child: nat,
                     out: seq<nat>, va: seq<nat>, walked: seq<nat>, more: seq<nat>)
    requires Walking(g, tag, elem, visited, cs, out, va, walked)
    requires child in g[elem].children && child in g && !g[child].global
    requires IsLocal(g, child) ==> child in va
    requires more == (if IsRef(g, child) && Matches(g[child].name, tag) then [child] else [])
    ensures Walking(g, tag, elem, visited, cs + [child], out + more, va, walked + [])
  {
    if more != [] {
      assert RefOf(g, walked, child);
    }
    assert walked + [] == walked;
    assert Extends(va, va);
    WalkingStep(g, tag, elem, visited, cs, child, out, va, walked, more, va, []);
  }

  /** All children handled: the walk is closed over itself, `elem` included. */
  lemma WalkingFinish(g: Graph, tag: Option<string>, elem: nat, visited: seq<nat>,
                      out: seq<nat>, va: seq<nat>, walked: seq<nat>)
    requires elem in g && Walking(g, tag, elem, visited, g[elem].children, out, va, walked)
    ensures WalkDone(g, tag, elem, visited, out, va, walked)
  {
    ClosureFinish(g, tag, elem, walked, va, out);
  }

  /**
   * `safe_iter(elem)`: the component itself when it matches, then what each
   * child in order brings (see `SafeIterChild`). `visited` is the shared
   * `local_elements` list, and `walked` lists the components whose
   * children were gone through.
   */
  method SafeIter(g: Graph, rank: nat -> nat, tag: Option<string>, elem: nat, visited: seq<nat>)
    returns (out: seq<nat>, visitedAfter: seq<nat>, ghost walked: seq<nat>)
    requires Closed(g) && Ranked(g, rank) && elem in g
    requires LocalList(g, visited)
    ensures AllMatch(g, out, tag)
    ensures Matches(g[elem].name, tag) ==> |out| > 0 && out[0] == elem
    ensures Extends(visited, visitedAfter) && LocalList(g, visitedAfter)
    ensures WalkDone(g, tag, elem, visited, out, visitedAfter, walked)
    decreases |Unvisited(g, visited)|, rank(elem), 1
  {
    out := if Matches(g[elem].name, tag) then [elem] else [];
    visitedAfter := visited;
    walked := [elem];
    WalkingStart(g, tag, elem, visited);
    var children := g[elem].children;
    for k := 0 to |children|
      invariant Walking(g, tag, elem, visited, children[..k], out, visitedAfter, walked)
    {
      var child := children[k];
      assert children[..k + 1] == children[..k] + [child];
      PrefixKeeps(visited, visitedAfter);
      UnvisitedShrinks(g, visited, visitedAfter);
      var more, v;
      ghost var sub;
      more, v, sub := SafeIterChild(g, rank, tag, elem, visited, children[..k], child, out, visitedAfter, walked);
      visitedAfter := v;
      out := out + more;
      walked := walked + sub;
    }
    assert children[..|children|] == children;
    WalkingFinish(g, tag, elem, visited, out, visitedAfter, walked);
  }

  /**
   * One turn of `safe_iter`'s loop over the children: a global child is
   * walked, a reference is yielded when it matches but not expanded, and a
   * local child is added to `local_elements` and walked the first time
   * only. `more` is what the turn yields and `v` the visited list after it.
   */
  method SafeIterChild(g: Graph, rank: nat -> nat, tag: Option<string>, elem: nat, visited: seq<nat>,
                       ghost cs: seq<nat>, child: nat, ghost out: seq<nat>, va: seq<nat>, ghost walked: seq<nat>)
    returns (more: seq<nat>, v: seq<nat>, ghost sub: seq<nat>)
    requires Closed(g) && Ranked(g, rank) && elem in g && child in g[elem].children
    requires Walking(g, tag, elem, visited, cs, out, va, walked)
    ensures Walking(g, tag, elem, visited, cs + [child], out + more, v, walked + sub)
    decreases |Unvisited(g, va)|, rank(elem), 0
  {
    more, v, sub := [], va, [];
    if g[child].global {
      more, v, sub := SafeIter(g, rank, tag, child, va);
      ChildWalked(g, tag, elem, visited, cs, child, out, va, walked, va, more, v, sub);
    } else if g[child].isRef {
      if Matches(g[child].name, tag) {
        more := [child];
      }
      ChildSkipped(g, tag, elem, visited, cs, child, out, va, walked, more);
    } else if child !in va {
      LocalListAppend(g, va, child);
      more, v, sub := SafeIter(g, rank, tag, child, va + [child]);
      ChildWalked(g, tag, elem, visited, cs, child, out, va, walked, va + [child], more, v, sub);
    } else {
      ChildSkipped(g, tag, elem, visited, cs, child, out, va, walked, more);
    }
  }

  /** Every local component of `cs` is in `visited`. */
  predicate LocalsIn(g: Graph, cs: seq<nat>, visited: seq<nat>)
  {
    forall c :: c in cs && IsLocal(g, c) ==> c in visited
  }

  /** Every matching reference of `cs` is in `out`. */
  predicate RefsIn(g: Graph, cs: seq<nat>, tag: Option<string>, out: seq<nat>)
  {
    forall c :: c in cs && IsRef(g, c) && Matches(g[c].name, tag) ==> c in out
  }

  lemma LocalsStep(g: Graph, cs: seq<nat>, c: nat, visited: seq<nat>, after: seq<nat>)
    requires LocalsIn(g, cs, visited) && (forall x :: x in visited ==> x in after)
    requires IsLocal(g, c) ==> c in after
    ensures LocalsIn(g, cs + [c], after)
  {
  }

  lemma RefsStep(g: Graph, cs: seq<nat>, c: nat, tag: Option<string>, out: seq<nat>, more: seq<nat>)
    requires RefsIn(g, cs, tag, out)
    requires IsRef(g, c) && Matches(g[c].name, tag) ==> c in more
    ensures RefsIn(g, cs + [c], tag, out + more)
  {
  }

  lemma PrefixKeeps(s: seq<nat>, t: seq<nat>)
    requires |s| <= |t| && t[..|s|] == s
    ensures forall x :: x in s ==> x in t
  {
    forall x | x in s ensures x in t {
      var i :| 0 <= i < |s| && s[i] == x;
      assert t[i] == x;
    }
  }

  /**
   * `iter(tag)`: the walk from the component with an empty list of
   * expanded local elements; `'*'` matches every component. Everything the
   * walk can reach through global and local components is yielded when it
   * matches, and so is every matching reference met on the way; nothing
   * else is yielded, and no local component other than the start comes
   * out twice.
   */
  method Iter(g: Graph, rank: nat -> nat, elem: nat, tag: Option<string>) returns (out: seq<nat>)
    requires Closed(g) && Ranked(g, rank) && elem in g
    ensures AllMatch(g, out, NormalTag(tag))
    ensures Matches(g[elem].name, NormalTag(tag)) ==> |out| > 0 && out[0] == elem
    ensures forall x :: x in g && Reaches(g, elem, x) && Matches(g[x].name, NormalTag(tag)) ==> x in out
    ensures forall x, c ::
      (x in g && Reaches(g, elem, x) && c in g[x].children && IsRef(g, c) && Matches(g[c].name, NormalTag(tag)))
      ==> c in out
    ensures forall y :: y in out ==>
      Reaches(g, elem, y) || (IsRef(g, y) && exists x :: x in g && Reaches(g, elem, x) && y in g[x].children)
    ensures forall i, j :: 0 <= i < j < |out| && out[i] == out[j] && IsLocal(g, out[i]) ==> out[i] == elem
  {
    var visited;
    ghost var walked;
    out, visited, walked := SafeIter(g, rank, NormalTag(tag), elem, []);
    IterComplete(g, NormalTag(tag), elem, walked, visited, out);
    IterSound(g, NormalTag(tag), elem, walked, visited, out);
  }

  /** With nothing visited beforehand, the walk is closed, so it holds everything the start reaches. */
  lemma IterComplete(g: Graph, tag: Option<string>, elem: nat, walked: seq<nat>, visited: seq<nat>, out: seq<nat>)
    requires WalkDone(g, tag, elem, [], out, visited, walked)
    ensures forall x :: x in g && Reaches(g, elem, x) && Matches(g[x].name, tag) ==> x in out
    ensures forall x, c ::
      (x in g && Reaches(g, elem, x) && c in g[x].children && IsRef(g, c) && Matches(g[c].name, tag))
      ==> c in out
  {
    assert ExpandClosed(g, walked);
    forall x | x in g && Reaches(g, elem, x) ensures x in walked {
      ReachesWithin(g, walked, elem, x);
    }
  }

  lemma IterSound(g: Graph, tag: Option<string>, elem: nat, walked: seq<nat>, visited: seq<nat>, out: seq<nat>)
    requires WalkDone(g, tag, elem, [], out, visited, walked)
    ensures forall y :: y in out ==>
      Reaches(g, elem, y) || (IsRef(g, y) && exists x :: x in g && Reaches(g, elem, x) && y in g[x].children)
  {
    forall y | y in out && !Reaches(g, elem, y)
      ensures IsRef(g, y) && exists x :: x in g && Reaches(g, elem, x) && y in g[x].children
    {
      var x :| x in walked && x in g && y in g[x].children;
    }
  }

  /** `iterchildren(tag)`: the children in order, those that match the tag. */
  function IterChildren(g: Graph, elem: nat, tag: Option<string>): (r: seq<nat>)
    requires Closed(g) && elem in g
    ensures forall x :: x in r <==> x in g[elem].children && Matches(g[x].name, NormalTag(tag))
  {
    Filter(g, g[elem].children, NormalTag(tag))
  }

  function Filter(g: Graph, ids: seq<nat>, tag: Option<string>): (r: seq<nat>)
    requires forall x :: x in ids ==> x in g
    ensures |r| <= |ids|
    ensures forall x :: x in r <==> x in ids && Matches(g[x].name, tag)
    decreases |ids|
  {
    if ids == [] then []
    else
      var rest := Filter(g, ids[1..], tag);
      assert forall x :: x in ids ==> x == ids[0] || x in ids[1..];
      if Matches(g[ids[0]].name, tag) then [ids[0]] + rest else rest
  }

  /** Filtering keeps the children's order: the matches of a concatenation are the matches of each part in turn. */
  lemma {:induction false} FilterAppend(g: Graph, a: seq<nat>, b: seq<nat>, tag: Option<string>)
    requires forall x :: x in a + b ==> x in g
    ensures Filter(g, a + b, tag) == Filter(g, a, tag) + Filter(g, b, tag)
    decreases |a|
  {
    if a == [] {
      assert a + b == b;
    } else {
      assert (a + b)[1..] == a[1..] + b;
      FilterAppend(g, a[1..], b, tag);
    }
  }

  /** A single child is yielded exactly when it matches. */
  lemma FilterOne(g: Graph, c: nat, tag: Option<string>)
    requires c in g
    ensures Filter(g, [c], tag) == if Matches(g[c].name, tag) then [c] else []
  {
    assert [c][1..] == [];
  }

  /** A matching child is yielded as often as it occurs among the children; any other id never. */
  lemma {:induction false} FilterCount(g: Graph, ids: seq<nat>, tag: Option<string>, c: nat)
    requires forall x :: x in ids ==> x in g
    ensures multiset(Filter(g, ids, tag))[c] == if c in g && Matches(g[c].name, tag) then multiset(ids)[c] else 0
    decreases |ids|
  {
    if ids != [] {
      FilterCount(g, ids[1..], tag, c);
      assert ids == [ids[0]] + ids[1..];
    } else {
      assert multiset(ids)[c] == 0;
    }
  }

  /** Without a tag, or with `'*'`, every child is yielded, in order. */
  lemma {:induction false} IterChildrenAll(g: Graph, ids: seq<nat>)
    requires forall x :: x in ids ==> x in g
    ensures Filter(g, ids, None) == ids
    ensures Filter(g, ids, NormalTag(Some("*"))) == ids
    decreases |ids|
  {
    if ids != [] {
      IterChildrenAll(g, ids[1..]);
    }
  }

  // ---------------------------------------------------------------------
  // The namespace map handed to the XPath parser

  /** The parser's default prefixes. */
  function DefaultNamespaces(): map<string, Option<string>>
  {
    map["xml" := Some(XmlNamespace), "xs" := Some(XsdNamespace), "xlink" := Some(XLinkNamespace),
        "fn" := Some(XPathFunctionsNamespace), "err" := Some(XqtErrorsNamespace)]
  }

  /** A prefix map passed in by the caller, which the lookup may change. */
  class NamespaceMap {
    var entries: map<string, Option<string>>

    constructor(entries: map<string, Option<string>>)
      ensures this.entries == entries
    {
      this.entries := entries;
    }
  }

  /**
   * The map the caller's `namespaces` becomes: the schema's own prefixes
   * without the default one when there is none, and the caller's map
   * otherwise; either way `''` gets the XPath default namespace unless the
   * caller already bound it.
   */
  function EffectiveNamespaces(given: Option<map<string, Option<string>>>, own: map<string, Option<string>>, xpathDefault: Option<string>): (r: map<string, Option<string>>)
    ensures "" in r
    ensures given.None? ==> r == (map k | k in own && k != "" :: own[k])["" := xpathDefault]
  {
    match given
    case None => (map k | k in own && k != "" :: own[k])["" := xpathDefault]
    case Some(m) => if "" in m then m else m["" := xpathDefault]
  }

  /**
   * `_get_xpath_namespaces(namespaces)`: the default prefixes overridden by
   * the effective map. A caller's map that lacks `''` gains it in place.
   */
  method GetXPathNamespaces(namespaces: NamespaceMap?, own: map<string, Option<string>>, xpathDefault: Option<string>)
    returns (r: map<string, Option<string>>)
    modifies namespaces
    ensures namespaces != null ==> namespaces.entries == EffectiveNamespaces(Some(old(namespaces.entries)), own, xpathDefault)
    ensures r == DefaultNamespaces() + EffectiveNamespaces(if namespaces == null then None else Some(old(namespaces.entries)), own, xpathDefault)
  {
    var effective: map<string, Option<string>>;
    if namespaces == null {
      effective := map k | k in own && k != "" :: own[k];
      effective := effective["" := xpathDefault];
    } else {
      if "" !in namespaces.entries {
        namespaces.entries := namespaces.entries["" := xpathDefault];
      }
      effective := namespaces.entries;
    }
    var xpathNamespaces := DefaultNamespaces();
    r := xpathNamespaces + effective;
  }

  /**
   * The result always binds `''`; a caller's binding of a prefix wins over
   * the default one; a caller's `''` is kept; every default prefix the
   * caller leaves alone keeps its namespace.
   */
  lemma XPathNamespacesSpec(given: Option<map<string, Option<string>>>, own: map<string, Option<string>>, xpathDefault: Option<string>)
    ensures var r := DefaultNamespaces() + EffectiveNamespaces(given, own, xpathDefault);
      "" in r
      && (given.Some? ==> forall k :: k in given.value ==> k in r && r[k] == given.value[k])
      && (given.Some? && "" !in given.value ==> r[""] == xpathDefault)
      && (given.None? ==> r[""] == xpathDefault && forall k :: k in own && k != "" ==> r[k] == own[k])
      && (forall k :: k in DefaultNamespaces() && k !in EffectiveNamespaces(given, own, xpathDefault) ==> r[k] == DefaultNamespaces()[k])
  {
  }

  // ---------------------------------------------------------------------
  // Path normalisation

  /** The XSD schema element's expanded name. */
  const XsdSchema := "{http://www.w3.org/2001/XMLSchema}schema"

  predicate IsSpace(c: char)
  {
    c == ' ' || c == '\t' || c == '\n' || c == '\r' || c == '\U{0B}' || c == '\U{0C}'
  }

  predicate IsDigit(c: char)
  {
    '0' <= c <= '9'
  }

  predicate IsWordChar(c: char)
  {
    IsDigit(c) || 'a' <= c <= 'z' || 'A' <= c <= 'Z' || c == '_'
  }

  /** The string without its leading and trailing whitespace. */
  function Strip(s: string): (r: string)
    ensures |r| <= |s|
    ensures r == [] || (!IsSpace(r[0]) && !IsSpace(r[|r| - 1]))
    decreases |s|
  {
    if s == [] then s
    else if IsSpace(s[0]) then Strip(s[1..])
    else if IsSpace(s[|s| - 1]) then Strip(s[..|s| - 1])
    else s
  }

  /**
   * Stripping keeps a slice of the input and cuts only whitespace off
   * either end; it leaves a stripped string alone.
   */
  lemma StripSpec(s: string)
    ensures exists i, j ::
      && 0 <= i <= j <= |s| && Strip(s) == s[i..j]
      && forall k :: (0 <= k < i || j <= k < |s|) ==> IsSpace(s[k])
    ensures Strip(Strip(s)) == Strip(s)
  {
    var i, j := StripSlice(s);
  }

  /** The bounds of the slice that stripping keeps; everything outside them is whitespace. */
  lemma {:induction false} StripSlice(s: string) returns (i: nat, j: nat)
    ensures i <= j <= |s| && Strip(s) == s[i..j]
    ensures forall k :: (0 <= k < i || j <= k < |s|) ==> IsSpace(s[k])
    decreases |s|
  {
    if s == [] {
      i, j := 0, 0;
    } else if IsSpace(s[0]) {
      var i', j' := StripSlice(s[1..]);
      i, j := i' + 1, j' + 1;
      assert s[1..][i'..j'] == s[i..j];
      forall k | 0 < k < |s| ensures s[k] == s[1..][k - 1] {}
    } else if IsSpace(s[|s| - 1]) {
      i, j := StripSlice(s[..|s| - 1]);
      assert s[..|s| - 1][i..j] == s[i..j];
      forall k | 0 <= k < |s| - 1 ensures s[k] == s[..|s| - 1][k] {}
    } else {
      i, j := 0, |s|;
    }
  }

  /** The number of digits from position `i` on. */
  function DigitRun(s: string, i: nat): (n: nat)
    ensures i + n <= |s| || (i >= |s| && n == 0)
    decreases |s| - i
  {
    if i < |s| && IsDigit(s[i]) then 1 + DigitRun(s, i + 1) else 0
  }

  /** The length of a `[digits]` at position `i`, or 0 when there is none. */
  function BracketAt(s: string, i: nat): (n: nat)
    ensures n == 0 || i + n <= |s|
  {
    if i < |s| && s[i] == '[' && DigitRun(s, i + 1) > 0 && i + 1 + DigitRun(s, i + 1) < |s| && s[i + 1 + DigitRun(s, i + 1)] == ']'
    then DigitRun(s, i + 1) + 2
    else 0
  }

  /** `\b\[\d+\]` matches at position `i`: a word character, then `[digits]`. */
  predicate MatchAt(s: string, i: nat)
  {
    0 < i < |s| && IsWordChar(s[i - 1]) && BracketAt(s, i) > 0
  }

  /** `re.sub` of the position pattern by '', scanning the string from `i` on. */
  function RemovePositions(s: string, i: nat): (r: string)
    ensures |r| <= |s| - i || (i >= |s| && r == [])
    decreases |s| - i
  {
    if i >= |s| then []
    else if MatchAt(s, i) then RemovePositions(s, i + BracketAt(s, i))
    else [s[i]] + RemovePositions(s, i + 1)
  }

  /** `_xpath_parse`'s rewriting of the path before it is parsed. */
  function NormalizePath(path: string): string
  {
    var stripped := Strip(path);
    var absolute := if |stripped| >= 1 && stripped[0] == '/' && !(|stripped| >= 2 && stripped[1] == '/')
      then "/" + XsdSchema + stripped else stripped;
    RemovePositions(absolute, 0)
  }

  /** The rewriting removes something exactly when the pattern matches somewhere. */
  lemma RemovePositionsSpec(s: string)
    ensures RemovePositions(s, 0) == s <==> forall k :: 0 <= k < |s| ==> !MatchAt(s, k)
  {
    if forall k :: 0 <= k < |s| ==> !MatchAt(s, k) {
      RemoveNoMatch(s, 0);
    } else {
      var k :| 0 <= k < |s| && MatchAt(s, k);
      RemoveShorter(s, 0, k);
    }
  }

  lemma {:induction false} RemoveNoMatch(s: string, i: nat)
    requires i <= |s| && forall k :: i <= k < |s| ==> !MatchAt(s, k)
    ensures RemovePositions(s, i) == s[i..]
    decreases |s| - i
  {
    if i < |s| {
      RemoveNoMatch(s, i + 1);
      assert s[i..] == [s[i]] + s[i + 1..];
    }
  }

  lemma {:induction false} RemoveShorter(s: string, i: nat, k: nat)
    requires i <= k < |s| && MatchAt(s, k)
    ensures |RemovePositions(s, i)| < |s| - i
    decreases |s| - i
  {
    if !MatchAt(s, i) {
      RemoveShorter(s, i + 1, k);
    }
  }

  /**
   * A path from the schema root (one leading '/') is prefixed with the
   * schema element, and what follows is rewritten as it would be alone.
   */
  lemma AbsolutePath(path: string)
    requires |Strip(path)| >= 1 && Strip(path)[0] == '/' && !(|Strip(path)| >= 2 && Strip(path)[1] == '/')
    ensures NormalizePath(path) == "/" + XsdSchema + RemovePositions(Strip(path), 0)
  {
    var pre, st := "/" + XsdSchema, Strip(path);
    var t := pre + st;
    assert forall k :: 0 <= k < |pre| ==> t[k] != '[';
    RemoveUntil(t, 0, |pre|);
    assert t[0..|pre|] == pre && t[|pre|..] == st;
    RemoveShift(t, |pre|, 0);
  }

  /** The digits from an offset into a suffix are those of the suffix alone. */
  lemma {:induction false} DigitRunShift(t: string, m: nat, i: nat)
    requires m <= |t|
    ensures DigitRun(t, m + i) == DigitRun(t[m..], i)
    decreases |t| - m - i
  {
    if m + i < |t| {
      DigitRunShift(t, m, i + 1);
      assert t[m..][i] == t[m + i];
    }
  }

  /** A match inside a suffix is a match of the suffix alone, away from its first position. */
  lemma ShiftedMatch(t: string, m: nat, i: nat)
    requires m + i < |t| && t[m] != '['
    ensures MatchAt(t, m + i) == MatchAt(t[m..], i)
    ensures BracketAt(t, m + i) == BracketAt(t[m..], i)
  {
    DigitRunShift(t, m, i + 1);
    assert t[m..][i] == t[m + i];
    if i > 0 {
      assert t[m..][i - 1] == t[m + i - 1];
    }
  }

  /** From an offset where no '[' opens, the rewriting of the rest is that of the suffix alone. */
  lemma {:induction false} RemoveShift(t: string, m: nat, i: nat)
    requires m + i <= |t| && (m < |t| ==> t[m] != '[')
    ensures RemovePositions(t, m + i) == RemovePositions(t[m..], i)
    decreases |t| - m - i
  {
    if m + i < |t| {
      if MatchAt(t[m..], i) {
        RemoveShift(t, m, i + BracketAt(t[m..], i));
        ShiftSkip(t, m, i);
      } else {
        RemoveShift(t, m, i + 1);
        ShiftCopy(t, m, i);
      }
    }
  }

  /** A match skipped in the suffix is skipped in the whole string too. */
  lemma ShiftSkip(t: string, m: nat, i: nat)
    requires m + i < |t| && t[m] != '[' && MatchAt(t[m..], i)
    requires RemovePositions(t, m + (i + BracketAt(t[m..], i))) == RemovePositions(t[m..], i + BracketAt(t[m..], i))
    ensures RemovePositions(t, m + i) == RemovePositions(t[m..], i)
  {
    ShiftedMatch(t, m, i);
    RemoveStep(t[m..], i);
    RemoveStep(t, m + i);
  }

  /** A character copied from the suffix is copied from the whole string too. */
  lemma ShiftCopy(t: string, m: nat, i: nat)
    requires m + i < |t| && t[m] != '[' && !MatchAt(t[m..], i)
    requires RemovePositions(t, m + (i + 1)) == RemovePositions(t[m..], i + 1)
    ensures RemovePositions(t, m + i) == RemovePositions(t[m..], i)
  {
    ShiftedMatch(t, m, i);
    RemoveStep(t[m..], i);
    RemoveStep(t, m + i);
    assert t[m + i] == t[m..][i];
  }

  /** One step of the rewriting: skip a match, or copy one character. */
  lemma RemoveStep(s: string, i: nat)
    requires i < |s|
    ensures MatchAt(s, i) ==> RemovePositions(s, i) == RemovePositions(s, i + BracketAt(s, i))
    ensures !MatchAt(s, i) ==> RemovePositions(s, i) == [s[i]] + RemovePositions(s, i + 1)
  {
  }

  /** A position after a name is dropped from an absolute path. */
  lemma NormalizeAbsolutePath()
    ensures NormalizePath(" /a[1] ") == "/" + XsdSchema + "/a"
  {
    var p := "/a[1]";
    assert Strip(" /a[1] ") == p;
    AbsolutePath(" /a[1] ");
    assert DigitRun(p, 4) == 0 && DigitRun(p, 3) == 1 && BracketAt(p, 2) == 3;
    assert MatchAt(p, 2) && !MatchAt(p, 1) && !MatchAt(p, 0);
    assert RemovePositions(p, 2) == [];
  }

  /** A position right after another position stays, because `\b` needs a word character before the bracket. */
  lemma NormalizeTwoPositions()
    ensures NormalizePath("a[1][2]") == "a[2]"
  {
    var p := "a[1][2]";
    assert Strip(p) == p;
    assert DigitRun(p, 3) == 0 && DigitRun(p, 2) == 1 && BracketAt(p, 1) == 3;
    assert !MatchAt(p, 4) && !MatchAt(p, 5) && !MatchAt(p, 6);
    assert RemovePositions(p, 4) == "[2]";
    assert RemovePositions(p, 1) == "[2]";
  }

  /** A path from the document root is left as it is. */
  lemma NormalizeDescendantPath()
    ensures NormalizePath("//a") == "//a"
  {
    assert Strip("//a") == "//a";
    RemoveUntil("//a", 0, 3);
  }

  /** Before the first `[`, the rewriting copies the string unchanged. */
  lemma {:induction false} RemoveUntil(s: string, i: nat, j: nat)
    requires i <= j <= |s| && forall k :: i <= k < j ==> s[k] != '['
    ensures RemovePositions(s, i) == s[i..j] + RemovePositions(s, j)
    decreases j - i
  {
    if i < j {
      assert !MatchAt(s, i) by { assert s[i] != '['; }
      RemoveUntil(s, i + 1, j);
      calc {
        RemovePositions(s, i);
        [s[i]] + RemovePositions(s, i + 1);
        [s[i]] + (s[i + 1..j] + RemovePositions(s, j));
        { assert s[i..j] == [s[i]] + s[i + 1..j]; }
        s[i..j] + RemovePositions(s, j);
      }
    }
  }

  // ---------------------------------------------------------------------
  // Pickling

  const LockKey := "_xpath_lock"
  const ParserKey := "_xpath_parser"
  const TokensKey := "xpath_tokens"

  /** A component's attribute dictionary. */
  class Attributes<V> {
    var dict: map<string, V>

    constructor(dict: map<string, V>)
      ensures this.dict == dict
    {
      this.dict := dict;
    }

    /** `__getstate__`: a copy of the attributes without the lock, the parser and the tokens. */
    function GetState(): (state: map<string, V>)
      reads this
      ensures forall k :: k in state <==> k in dict && k !in {LockKey, ParserKey, TokensKey}
      ensures forall k :: k in state ==> state[k] == dict[k]
    {
      map k | k in dict && k !in {LockKey, ParserKey, TokensKey} :: dict[k]
    }

    /** `__setstate__`: the state is merged into the attributes, and a fresh lock is made. */
    method SetState(state: map<string, V>, lock: V)
      modifies this
      ensures dict == (old(dict) + state)[LockKey := lock]
    {
      dict := dict + state;
      dict := dict[LockKey := lock];
    }
  }

  /**
   * Unpickling into an empty component restores every attribute except the
   * parser and the tokens, with a new lock; setting an object's own state
   * back changes nothing but its lock.
   */
  lemma PickleRoundTrip<V>(dict: map<string, V>, lock: V)
    ensures var state := map k | k in dict && k !in {LockKey, ParserKey, TokensKey} :: dict[k];
      (map[] + state)[LockKey := lock] == (map k | k in dict && k !in {ParserKey, TokensKey} :: dict[k])[LockKey := lock]
      && (dict + state)[LockKey := lock] == dict[LockKey := lock]
  {
  }

  // ---------------------------------------------------------------------
  // Primitive types

  /**
   * An XSD type as `get_primitive_type` sees it: whether it is simple,
   * whether it has a `primitive_type` attribute and which, and its base type.
   */
  datatype XsdType = XsdType(isSimple: bool, hasPrimitive: bool, primitive: nat, base: Option<nat>)

  /** The links the walk may follow name types, and fall in `rank`. */
  predicate TypeLinks(types: map<nat, XsdType>, rank: nat -> nat)
  {
    forall t :: t in types ==>
      var x := types[t];
      (x.isSimple && !x.hasPrimitive && x.base.Some? ==> x.base.value in types && rank(x.base.value) < rank(t))
      && (x.isSimple && x.hasPrimitive && x.primitive != t ==> x.primitive in types && rank(x.primitive) < rank(t))
  }

  /** A simple type the walk stops at: its own primitive type, or a type with neither a primitive nor a base. */
  predicate Terminal(types: map<nat, XsdType>, t: nat)
    requires t in types
  {
    types[t].isSimple && (if types[t].hasPrimitive then types[t].primitive == t else types[t].base.None?)
  }

  /** `get_primitive_type(t)`: anyType for a complex type; otherwise the walk along base and primitive links. */
  function PrimitiveType(types: map<nat, XsdType>, rank: nat -> nat, anyType: nat, t: nat): (r: nat)
    requires TypeLinks(types, rank) && t in types && anyType in types
    ensures r in types
    ensures r == anyType || Terminal(types, r)
    decreases rank(t)
  {
    var x := types[t];
    if !x.isSimple then anyType
    else if !x.hasPrimitive then (if x.base.None? then t else PrimitiveType(types, rank, anyType, x.base.value))
    else if x.primitive != t then PrimitiveType(types, rank, anyType, x.primitive)
    else t
  }

  /**
   * The walk ends at a fixed point: asking again for the primitive type of
   * the answer gives the answer, when anyType is itself complex.
   */
  lemma PrimitiveTypeIdempotent(types: map<nat, XsdType>, rank: nat -> nat, anyType: nat, t: nat)
    requires TypeLinks(types, rank) && t in types && anyType in types && !types[anyType].isSimple
    ensures PrimitiveType(types, rank, anyType, PrimitiveType(types, rank, anyType, t)) == PrimitiveType(types, rank, anyType, t)
  {
  }

  /** A terminal type is its own primitive type, and a complex type's is anyType. */
  lemma PrimitiveTypeSpec(types: map<nat, XsdType>, rank: nat -> nat, anyType: nat, t: nat)
    requires TypeLinks(types, rank) && t in types && anyType in types
    ensures Terminal(types, t) ==> PrimitiveType(types, rank, anyType, t) == t
    ensures !types[t].isSimple ==> PrimitiveType(types, rank, anyType, t) == anyType
  {
  }
}

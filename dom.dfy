/** The parsed document tree that the HTML cleaner rewrites in place.

    A page is the forest of top-level nodes of the parsed document. An element carries its tag
    name, its `id` attribute (if any), its class list and its children; a text node carries its
    string. A path picks a node: its first index selects a top-level node, every further index a
    child of the node selected so far. `Find` is the lookup the cleaner uses for `find(...)`: the
    first match in document order. `Prune` is the effect of decomposing every node a rule picks,
    and `Flatten` lists the nodes in document order together with the labels of their ancestors,
    the view in which pruning is characterised. */
module Dom {

  datatype Option<T> = None | Some(value: T)

  datatype Node =
    | Element(name: string, id: Option<string>, classes: seq<string>, children: seq<Node>)
    | Text(text: string)

  type Path = seq<nat>

  predicate IsNamed(n: Node, name: string) {
    n.Element? && n.name == name
  }

  // ---------------------------------------------------------------------------------------------
  // Paths

  predicate ValidPath(ns: seq<Node>, p: Path)
    decreases |p|
  {
    0 < |p| && p[0] < |ns| &&
    (|p| == 1 || (ns[p[0]].Element? && ValidPath(ns[p[0]].children, p[1..])))
  }

  function At(ns: seq<Node>, p: Path): Node
    requires ValidPath(ns, p)
    decreases |p|
  {
    if |p| == 1 then ns[p[0]] else At(ns[p[0]].children, p[1..])
  }

  /** p addresses q's node or one of its ancestors. */
  predicate IsPrefix(p: Path, q: Path) {
    |p| <= |q| && q[..|p|] == p
  }

  /** p addresses a node strictly before q's node in document order (pre-order). */
  predicate Precedes(p: Path, q: Path)
    decreases |p|
  {
    0 < |q| && (|p| == 0 || p[0] < q[0] || (p[0] == q[0] && Precedes(p[1..], q[1..])))
  }

  /** Every proper prefix of a valid path addresses an element, and the next index of the path
      picks one of its children. */
  lemma {:induction false} PrefixPath(ns: seq<Node>, p: Path, k: nat)
    requires ValidPath(ns, p) && 0 < k < |p|
    ensures ValidPath(ns, p[..k]) && At(ns, p[..k]).Element?
    ensures p[k] < |At(ns, p[..k]).children|
    ensures ValidPath(ns, p[..k + 1]) && At(ns, p[..k + 1]) == At(ns, p[..k]).children[p[k]]
  {
    if k > 1 {
      PrefixPath(ns[p[0]].children, p[1..], k - 1);
      assert p[1..][..k - 1] == p[..k][1..];
      assert p[1..][..k] == p[..k + 1][1..];
    } else {
      assert p[..2][1..] == [p[1]];
    }
  }

  // ---------------------------------------------------------------------------------------------
  // Lookup in document order

  /** The first node of the forest in document order that satisfies m, as BeautifulSoup's find. */
  function Find(ns: seq<Node>, m: Node -> bool): (r: Option<Path>)
    ensures r.Some? ==> ValidPath(ns, r.value) && m(At(ns, r.value))
  {
    FindFrom(ns, 0, m)
  }

  /** The first match in document order among the nodes ns[i..] and their subtrees. */
  function FindFrom(ns: seq<Node>, i: nat, m: Node -> bool): (r: Option<Path>)
    ensures r.Some? ==> ValidPath(ns, r.value) && i <= r.value[0] && m(At(ns, r.value))
    decreases ns, |ns| - i
  {
    if i >= |ns| then None
    else if m(ns[i]) then Some([i])
    else
      var inner := if ns[i].Element? then FindFrom(ns[i].children, 0, m) else None;
      if inner.Some? then
        var p := [i] + inner.value;
        assert p[1..] == inner.value;
        Some(p)
      else FindFrom(ns, i + 1, m)
  }

  /** When FindFrom finds nothing, no node from ns[i] onwards (subtrees included) matches. */
  lemma {:induction false} FindFromNone(ns: seq<Node>, i: nat, m: Node -> bool, p: Path)
    requires FindFrom(ns, i, m).None?
    requires ValidPath(ns, p) && i <= p[0]
    ensures !m(At(ns, p))
    decreases ns, |ns| - i
  {
    if p[0] == i {
      if |p| > 1 {
        FindFromNone(ns[i].children, 0, m, p[1..]);
      }
    } else {
      FindFromNone(ns, i + 1, m, p);
    }
  }

  /** Find is complete: it reports no match only when no node of the forest matches. */
  lemma FindNone(ns: seq<Node>, m: Node -> bool, p: Path)
    requires Find(ns, m).None? && ValidPath(ns, p)
    ensures !m(At(ns, p))
  {
    FindFromNone(ns, 0, m, p);
  }

  /** No node that comes before the one FindFrom reports matches. */
  lemma {:induction false} FindFromFirst(ns: seq<Node>, i: nat, m: Node -> bool, p: Path)
    requires FindFrom(ns, i, m).Some?
    requires ValidPath(ns, p) && i <= p[0] && Precedes(p, FindFrom(ns, i, m).value)
    ensures !m(At(ns, p))
    decreases ns, |ns| - i
  {
    var q := FindFrom(ns, i, m).value;
    var inner := if ns[i].Element? then FindFrom(ns[i].children, 0, m) else None;
    if !m(ns[i]) {
      if inner.Some? {
        assert q == [i] + inner.value && q[1..] == inner.value;
        if |p| > 1 {
          FindFromFirst(ns[i].children, 0, m, p[1..]);
        }
      } else if p[0] == i {
        if |p| > 1 {
          FindFromNone(ns[i].children, 0, m, p[1..]);
        }
      } else {
        FindFromFirst(ns, i + 1, m, p);
      }
    }
  }

  /** Find reports the first match in document order. */
  lemma FindFirst(ns: seq<Node>, m: Node -> bool, p: Path)
    requires Find(ns, m).Some? && ValidPath(ns, p) && Precedes(p, Find(ns, m).value)
    ensures !m(At(ns, p))
  {
    FindFromFirst(ns, 0, m, p);
  }

  /** The nearest proper ancestor of the node at p that is an element with the given name, as
      BeautifulSoup's find_parent: the result k addresses it as p[..k]. */
  function NearestAncestor(ns: seq<Node>, p: Path, name: string): (r: Option<nat>)
    requires ValidPath(ns, p)
    ensures r.Some? ==> 0 < r.value < |p| && ValidPath(ns, p[..r.value]) && IsNamed(At(ns, p[..r.value]), name)
    ensures r.Some? ==> forall k | r.value < k < |p| :: ValidPath(ns, p[..k]) ==> !IsNamed(At(ns, p[..k]), name)
    ensures r.None? ==> forall k | 0 < k < |p| :: ValidPath(ns, p[..k]) ==> !IsNamed(At(ns, p[..k]), name)
  {
    LastNamedAncestor(ns, p, name, |p| - 1)
  }

  /** The greatest k in 1..bound whose prefix p[..k] addresses an element with the given name. */
  function LastNamedAncestor(ns: seq<Node>, p: Path, name: string, bound: nat): (r: Option<nat>)
    requires ValidPath(ns, p) && bound < |p|
    ensures r.Some? ==> 0 < r.value <= bound && ValidPath(ns, p[..r.value]) && IsNamed(At(ns, p[..r.value]), name)
    ensures r.Some? ==> forall k | r.value < k <= bound :: ValidPath(ns, p[..k]) ==> !IsNamed(At(ns, p[..k]), name)
    ensures r.None? ==> forall k | 0 < k <= bound :: ValidPath(ns, p[..k]) ==> !IsNamed(At(ns, p[..k]), name)
    decreases bound
  {
    if bound == 0 then None
    else
      PrefixPath(ns, p, bound);
      if IsNamed(At(ns, p[..bound]), name) then Some(bound)
      else LastNamedAncestor(ns, p, name, bound - 1)
  }

  // ---------------------------------------------------------------------------------------------
  // Rewriting at a path

  /** The forest with the children of the element at p replaced by cs. */
  function WithChildren(ns: seq<Node>, p: Path, cs: seq<Node>): (r: seq<Node>)
    requires ValidPath(ns, p) && At(ns, p).Element?
    ensures |r| == |ns|
    decreases |p|
  {
    if |p| == 1 then ns[p[0] := ns[p[0]].(children := cs)]
    else ns[p[0] := ns[p[0]].(children := WithChildren(ns[p[0]].children, p[1..], cs))]
  }

  lemma {:induction false} WithChildrenAt(ns: seq<Node>, p: Path, cs: seq<Node>)
    requires ValidPath(ns, p) && At(ns, p).Element?
    ensures ValidPath(WithChildren(ns, p, cs), p)
    ensures At(WithChildren(ns, p, cs), p) == At(ns, p).(children := cs)
    decreases |p|
  {
    if |p| > 1 {
      WithChildrenAt(ns[p[0]].children, p[1..], cs);
    }
  }

  /** Replacing the children of one element leaves every node outside its subtree, and not
      above it, where it was. */
  lemma {:induction false} WithChildrenDisjoint(ns: seq<Node>, p: Path, cs: seq<Node>, q: Path)
    requires ValidPath(ns, p) && At(ns, p).Element? && ValidPath(ns, q) && Disjoint(p, q)
    ensures ValidPath(WithChildren(ns, p, cs), q) && At(WithChildren(ns, p, cs), q) == At(ns, q)
    decreases |p|
  {
    if p[0] == q[0] {
      DisjointTail(p, q);
      WithChildrenDisjoint(ns[p[0]].children, p[1..], cs, q[1..]);
    }
  }

  /** The list of siblings below `parent`: the top-level forest when parent is empty, the
      children of the element at parent otherwise. */
  predicate HasSiblingList(ns: seq<Node>, parent: Path) {
    parent == [] || (ValidPath(ns, parent) && At(ns, parent).Element?)
  }

  function SiblingList(ns: seq<Node>, parent: Path): seq<Node>
    requires HasSiblingList(ns, parent)
  {
    if parent == [] then ns else At(ns, parent).children
  }

  /** The forest with the sibling list below `parent` replaced by s. */
  function ReplaceSiblingList(ns: seq<Node>, parent: Path, s: seq<Node>): (r: seq<Node>)
    requires HasSiblingList(ns, parent)
    ensures HasSiblingList(r, parent) && SiblingList(r, parent) == s
  {
    if parent == [] then s
    else
      WithChildrenAt(ns, parent, s);
      WithChildren(ns, parent, s)
  }

  /** The node at p is entry p[|p| - 1] of the sibling list below p's parent. */
  lemma SiblingListAt(ns: seq<Node>, p: Path)
    requires ValidPath(ns, p)
    ensures HasSiblingList(ns, p[..|p| - 1])
    ensures p[|p| - 1] < |SiblingList(ns, p[..|p| - 1])|
    ensures SiblingList(ns, p[..|p| - 1])[p[|p| - 1]] == At(ns, p)
  {
    if |p| == 1 {
      assert p[..0] == [];
    } else {
      PrefixPath(ns, p, |p| - 1);
      assert p[..|p|] == p;
    }
  }

  /** The forest with the node at p (and its subtree) detached. */
  function RemoveAt(ns: seq<Node>, p: Path): (r: seq<Node>)
    requires ValidPath(ns, p)
    decreases |p|
  {
    if |p| == 1 then ns[..p[0]] + ns[p[0] + 1..]
    else ns[p[0] := ns[p[0]].(children := RemoveAt(ns[p[0]].children, p[1..]))]
  }

  /** Neither path addresses an ancestor of (or the same node as) the other. */
  predicate Disjoint(p: Path, q: Path) {
    !IsPrefix(p, q) && !IsPrefix(q, p)
  }

  lemma PrefixCons(p: Path, q: Path)
    requires 0 < |p| && 0 < |q| && p[0] == q[0]
    ensures IsPrefix(p, q) <==> |p| == 1 || (1 < |q| && IsPrefix(p[1..], q[1..]))
  {
    if |p| == 1 {
      assert q[..|p|] == p;
    } else if |p| <= |q| {
      assert q[..|p|] == [q[0]] + q[1..][..|p| - 1];
      assert p == [p[0]] + p[1..];
    }
  }

  /** Two disjoint paths that start at the same node part somewhere below it. */
  lemma DisjointTail(p: Path, q: Path)
    requires 0 < |p| && 0 < |q| && p[0] == q[0] && Disjoint(p, q)
    ensures 1 < |p| && 1 < |q| && Disjoint(p[1..], q[1..])
  {
    PrefixCons(p, q);
    PrefixCons(q, p);
  }

  /** Where the node at q sits once the node at p, disjoint from it, has been detached. */
  function Shift(q: Path, p: Path): (r: Path)
    requires 0 < |p| && 0 < |q| && Disjoint(p, q)
    ensures |r| == |q|
    decreases |q|
  {
    if q[0] == p[0] then
      DisjointTail(p, q);
      [q[0]] + Shift(q[1..], p[1..])
    else if |p| == 1 && p[0] < q[0] then [q[0] - 1] + q[1..]
    else q
  }

  /** Detaching one node leaves every node disjoint from it in place, at its shifted path. */
  lemma {:induction false} RemoveAtShift(ns: seq<Node>, p: Path, q: Path)
    requires ValidPath(ns, p) && ValidPath(ns, q) && Disjoint(p, q)
    ensures ValidPath(RemoveAt(ns, p), Shift(q, p))
    ensures At(RemoveAt(ns, p), Shift(q, p)) == At(ns, q)
    decreases |q|
  {
    var r := RemoveAt(ns, p);
    var s := Shift(q, p);
    if q[0] == p[0] {
      DisjointTail(p, q);
      RemoveAtShift(ns[p[0]].children, p[1..], q[1..]);
      assert s[1..] == Shift(q[1..], p[1..]);
    } else if |p| == 1 && p[0] < q[0] {
      assert r[s[0]] == ns[q[0]];
      assert s[1..] == q[1..];
    } else if |p| == 1 {
      assert r[s[0]] == ns[q[0]];
    } else {
      assert r[q[0]] == ns[q[0]];
    }
  }

  // ---------------------------------------------------------------------------------------------
  // Pruning and the flattened view

  /** What a node is, without its children. */
  datatype Label =
    | Tag(name: string, id: Option<string>, classes: seq<string>)
    | Chars(text: string)

  function LabelOf(n: Node): Label {
    match n
    case Element(name, id, classes, _) => Tag(name, id, classes)
    case Text(t) => Chars(t)
  }

  /** One node in document order, with the labels of its ancestors from the outermost down. */
  datatype Entry = Entry(ancestors: seq<Label>, item: Label)

  /** Every node of the forest in document order; anc are the labels above the forest. */
  function Flatten(ns: seq<Node>, anc: seq<Label>): seq<Entry>
    decreases ns
  {
    if ns == [] then []
    else
      var head := match ns[0]
        case Text(t) => [Entry(anc, Chars(t))]
        case Element(name, id, classes, cs) =>
          [Entry(anc, Tag(name, id, classes))] + Flatten(cs, anc + [Tag(name, id, classes)]);
      head + Flatten(ns[1..], anc)
  }

  /** A rule decides, from the labels of a node's ancestors and its own label, whether the node
      is decomposed. */
  type Rule = (seq<Label>, Label) -> bool

  /** The forest with every node the rule picks decomposed, subtree and all. The rule is
      evaluated on the original tree, with the labels above ns in anc; since only whole subtrees
      go, the ancestors of every surviving node are the same before and after. */
  function Prune(ns: seq<Node>, anc: seq<Label>, doomed: Rule): (r: seq<Node>)
    ensures |r| <= |ns|
    decreases ns
  {
    if ns == [] then []
    else
      var rest := Prune(ns[1..], anc, doomed);
      var l := LabelOf(ns[0]);
      if doomed(anc, l) then rest
      else
        var kept := match ns[0]
          case Text(_) => ns[0]
          case Element(name, id, classes, cs) => Element(name, id, classes, Prune(cs, anc + [l], doomed));
        [kept] + rest
  }

  /** An entry survives a rule when neither it nor any of its ancestors is picked. */
  predicate Kept(doomed: Rule, e: Entry) {
    !doomed(e.ancestors, e.item) &&
    forall k | 0 <= k < |e.ancestors| :: !doomed(e.ancestors[..k], e.ancestors[k])
  }

  function Survivors(es: seq<Entry>, doomed: Rule): (r: seq<Entry>)
    decreases |es|
  {
    if es == [] then []
    else (if Kept(doomed, es[0]) then [es[0]] else []) + Survivors(es[1..], doomed)
  }

  lemma {:induction false} SurvivorsAppend(a: seq<Entry>, b: seq<Entry>, doomed: Rule)
    ensures Survivors(a + b, doomed) == Survivors(a, doomed) + Survivors(b, doomed)
    decreases |a|
  {
    if a != [] {
      assert (a + b)[1..] == a[1..] + b;
      SurvivorsAppend(a[1..], b, doomed);
    } else {
      assert a + b == b;
    }
  }

  lemma {:induction false} SurvivorsMember(es: seq<Entry>, doomed: Rule, e: Entry)
    ensures e in Survivors(es, doomed) <==> e in es && Kept(doomed, e)
    decreases |es|
  {
    if es != [] {
      SurvivorsMember(es[1..], doomed, e);
      assert es == [es[0]] + es[1..];
    }
  }

  /** Every entry of Flatten(ns, anc) lies below anc. */
  lemma {:induction false} FlattenBelow(ns: seq<Node>, anc: seq<Label>)
    ensures forall e | e in Flatten(ns, anc) :: |anc| <= |e.ancestors| && e.ancestors[..|anc|] == anc
    decreases ns
  {
    if ns != [] {
      FlattenBelow(ns[1..], anc);
      match ns[0]
      case Text(_) =>
      case Element(name, id, classes, cs) =>
        var l := Tag(name, id, classes);
        FlattenBelow(cs, anc + [l]);
        forall e | e in Flatten(cs, anc + [l])
          ensures |anc| <= |e.ancestors| && e.ancestors[..|anc|] == anc
        {
          assert e.ancestors[..|anc| + 1][..|anc|] == e.ancestors[..|anc|];
          assert (anc + [l])[..|anc|] == anc;
        }
    }
  }

  predicate AllTags(ls: seq<Label>) {
    forall k | 0 <= k < |ls| :: ls[k].Tag?
  }

  /** Only elements have descendants, so every ancestor label in the flattened view is a tag. */
  lemma {:induction false} FlattenAncestorsTags(ns: seq<Node>, anc: seq<Label>)
    requires AllTags(anc)
    ensures forall e | e in Flatten(ns, anc) :: AllTags(e.ancestors)
    decreases ns
  {
    if ns != [] {
      FlattenAncestorsTags(ns[1..], anc);
      match ns[0]
      case Text(_) =>
      case Element(name, id, classes, cs) =>
        FlattenAncestorsTags(cs, anc + [Tag(name, id, classes)]);
    }
  }

  lemma {:induction false} SurvivorsNone(es: seq<Entry>, doomed: Rule)
    requires forall e | e in es :: !Kept(doomed, e)
    ensures Survivors(es, doomed) == []
    decreases |es|
  {
    if es != [] {
      assert es[0] in es;
      SurvivorsNone(es[1..], doomed);
    }
  }

  /** Everything below a picked node is lost with it. */
  lemma SurvivorsBelowDoomed(ns: seq<Node>, anc: seq<Label>, l: Label, doomed: Rule)
    requires doomed(anc, l)
    ensures Survivors(Flatten(ns, anc + [l]), doomed) == []
  {
    var es := Flatten(ns, anc + [l]);
    FlattenBelow(ns, anc + [l]);
    forall e | e in es
      ensures !Kept(doomed, e)
    {
      assert e.ancestors[..|anc| + 1] == anc + [l];
      assert e.ancestors[..|anc|] == e.ancestors[..|anc| + 1][..|anc|];
      assert e.ancestors[..|anc|] == anc && e.ancestors[|anc|] == l;
    }
    SurvivorsNone(es, doomed);
  }

  /** Pruning is exactly the removal of every picked node together with everything below it:
      the nodes that remain, in document order and with their ancestry, are those of the
      original that are neither picked nor below a picked node. */
  lemma {:induction false} PruneFlatten(ns: seq<Node>, anc: seq<Label>, doomed: Rule)
    requires forall k | 0 <= k < |anc| :: !doomed(anc[..k], anc[k])
    ensures Flatten(Prune(ns, anc, doomed), anc) == Survivors(Flatten(ns, anc), doomed)
    decreases ns
  {
    if ns != [] {
      var rest := Prune(ns[1..], anc, doomed);
      var l := LabelOf(ns[0]);
      PruneFlatten(ns[1..], anc, doomed);
      var head := match ns[0]
        case Text(t) => [Entry(anc, Chars(t))]
        case Element(name, id, classes, cs) =>
          [Entry(anc, Tag(name, id, classes))] + Flatten(cs, anc + [Tag(name, id, classes)]);
      assert Flatten(ns, anc) == head + Flatten(ns[1..], anc);
      SurvivorsAppend(head, Flatten(ns[1..], anc), doomed);
      if doomed(anc, l) {
        assert !Kept(doomed, Entry(anc, l));
        match ns[0]
        case Text(t) =>
          assert Survivors(head, doomed) == [];
        case Element(name, id, classes, cs) =>
          SurvivorsBelowDoomed(cs, anc, l, doomed);
          SurvivorsAppend([Entry(anc, l)], Flatten(cs, anc + [l]), doomed);
      } else {
        assert Kept(doomed, Entry(anc, l));
        var kept := match ns[0]
          case Text(_) => ns[0]
          case Element(name, id, classes, cs) => Element(name, id, classes, Prune(cs, anc + [l], doomed));
        assert Prune(ns, anc, doomed) == [kept] + rest;
        assert ([kept] + rest)[0] == kept && ([kept] + rest)[1..] == rest;
        match ns[0]
        case Text(t) =>
          assert Survivors(head, doomed) == head;
        case Element(name, id, classes, cs) =>
          forall k | 0 <= k < |anc + [l]|
            ensures !doomed((anc + [l])[..k], (anc + [l])[k])
          {
            if k < |anc| {
              assert (anc + [l])[..k] == anc[..k];
            } else {
              assert (anc + [l])[..k] == anc;
            }
          }
          PruneFlatten(cs, anc + [l], doomed);
          SurvivorsAppend([Entry(anc, l)], Flatten(cs, anc + [l]), doomed);
      }
    }
  }

  /** Two passes with two rules are one pass with the rule that picks what either picks, so
      the order of the passes does not matter. */
  lemma {:induction false} PruneTwice(ns: seq<Node>, anc: seq<Label>, first: Rule, second: Rule, both: Rule)
    requires forall a, l :: both(a, l) == (first(a, l) || second(a, l))
    ensures Prune(Prune(ns, anc, first), anc, second) == Prune(ns, anc, both)
    decreases ns
  {
    if ns != [] {
      PruneTwice(ns[1..], anc, first, second, both);
      var l := LabelOf(ns[0]);
      assert both(anc, l) == (first(anc, l) || second(anc, l));
      if !first(anc, l) {
        var once := Prune(ns, anc, first);
        assert once[1..] == Prune(ns[1..], anc, first);
        match ns[0]
        case Text(_) =>
        case Element(name, id, classes, cs) =>
          PruneTwice(cs, anc + [l], first, second, both);
      }
    }
  }
}

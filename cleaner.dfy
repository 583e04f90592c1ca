/** clean_html_file (parse_html.py, lines 5-46) on the parsed tree of one Wikipedia page. The
    tree is rewritten in place in four steps, in this order:

      1. root isolation: the body keeps only the `div#mw-content-text` subtree (lines 10-13);
      2. clutter removal: every element a clutter selector matches is decomposed (lines 16-21);
      3. junk removal: every text node containing a junk marker is extracted (lines 24-29);
      4. "See also" removal: the sibling walk of module SeeAlso, from the `h2` that holds
         `span#See_also` (lines 32-43).

    A `Page` holds the top-level nodes of the parsed document and has one method per step. Each
    method is specified by a function on the tree, and the lemmas below say what those functions
    remove and what they keep. */
module Cleaner {
  import opened Dom
  import opened SeeAlso

  const ContentRootId: string := "mw-content-text"
  const SeeAlsoId: string := "See_also"

  // ---------------------------------------------------------------------------------------------
  // Step 1: root isolation

  /** soup.find("div", id="mw-content-text") */
  predicate IsContentRoot(n: Node) {
    n.Element? && n.name == "div" && n.id == Some(ContentRootId)
  }

  /** soup.body, that is soup.find("body") */
  predicate IsBody(n: Node) {
    n.Element? && n.name == "body"
  }

  /** Why isolation can fail. Without a body, `soup.body.clear()` raises, before anything has
      changed. A body nested inside the content root is not modelled (appending the root to its
      own descendant). */
  datatype Failure = NoBody | BodyInsideContent

  datatype Outcome = Ok(page: seq<Node>) | Err(failure: Failure)

  /** The tree after lines 10-13. The body is cleared; then appending the content root detaches
      it from where it was (if the body was its ancestor, it already left the tree with the
      body's old children) and makes it the body's only child. */
  function Isolated(ns: seq<Node>): (r: Outcome)
    ensures Find(ns, IsContentRoot).None? ==> r == Ok(ns)
    ensures r.Err? ==> Find(ns, IsContentRoot).Some?
    ensures r == Err(NoBody) <==> Find(ns, IsContentRoot).Some? && Find(ns, IsBody).None?
  {
    match Find(ns, IsContentRoot)
    case None => Ok(ns)
    case Some(pd) =>
      match Find(ns, IsBody)
      case None => Err(NoBody)
      case Some(pb) =>
        if IsPrefix(pd, pb) then Err(BodyInsideContent)
        else
          var content := At(ns, pd);
          var cleared := WithChildren(ns, pb, []);
          WithChildrenAt(ns, pb, []);
          if IsPrefix(pb, pd) then Ok(WithChildren(cleared, pb, [content]))
          else
            WithChildrenDisjoint(ns, pb, [], pd);
            RemoveAtShift(cleared, pd, pb);
            Ok(WithChildren(RemoveAt(cleared, pd), Shift(pb, pd), [content]))
  }

  /** Where the body is after isolation: where it was, unless the content root came from before
      it in a shared sibling list. */
  function BodyPathAfter(pd: Path, pb: Path): Path
    requires 0 < |pd| && 0 < |pb|
  {
    if IsPrefix(pb, pd) || IsPrefix(pd, pb) then pb else Shift(pb, pd)
  }

  /** When a content root exists and isolation succeeds, the body is still there, with its name,
      id and classes, and its only child is the content root's whole subtree. */
  lemma IsolatedBody(ns: seq<Node>)
    requires Find(ns, IsContentRoot).Some? && Isolated(ns).Ok?
    ensures Find(ns, IsBody).Some?
    ensures
      var pd, pb := Find(ns, IsContentRoot).value, Find(ns, IsBody).value;
      var r, q := Isolated(ns).page, BodyPathAfter(pd, pb);
      ValidPath(r, q) && At(r, q) == At(ns, pb).(children := [At(ns, pd)])
  {
    var pd, pb := Find(ns, IsContentRoot).value, Find(ns, IsBody).value;
    var content := At(ns, pd);
    var cleared := WithChildren(ns, pb, []);
    WithChildrenAt(ns, pb, []);
    if IsPrefix(pb, pd) {
      WithChildrenAt(cleared, pb, [content]);
    } else {
      WithChildrenDisjoint(ns, pb, [], pd);
      RemoveAtShift(cleared, pd, pb);
      WithChildrenAt(RemoveAt(cleared, pd), Shift(pb, pd), [content]);
    }
  }

  // ---------------------------------------------------------------------------------------------
  // Step 2: clutter removal

  /** A class selector: `.c`, or `.a .c` (an element of class c below an element of class a). */
  datatype Selector = HasClass(cls: string) | HasClassBelow(ancestorCls: string, cls: string)

  const ClutterSelectors: seq<Selector> := [
    HasClass("navbox"), HasClass("printfooter"), HasClass("toc"), HasClass("mw-editsection"),
    HasClassBelow("mw-parser-output", "hlist")
  ]

  predicate HasClassLabel(l: Label, c: string) {
    l.Tag? && c in l.classes
  }

  /** Whether a selector matches the node with label l below the ancestors anc. */
  predicate Matches(sel: Selector, anc: seq<Label>, l: Label) {
    match sel
    case HasClass(c) => HasClassLabel(l, c)
    case HasClassBelow(a, c) => HasClassLabel(l, c) && exists k | 0 <= k < |anc| :: HasClassLabel(anc[k], a)
  }

  predicate AnyMatches(sels: seq<Selector>, anc: seq<Label>, l: Label) {
    exists i | 0 <= i < |sels| :: Matches(sels[i], anc, l)
  }

  /** The rule that decomposes whatever one of the selectors matches. */
  function SelectorRule(sels: seq<Selector>): Rule {
    (anc: seq<Label>, l: Label) => AnyMatches(sels, anc, l)
  }

  /** The tree after lines 16-21. */
  function Decluttered(ns: seq<Node>): seq<Node> {
    Prune(ns, [], SelectorRule(ClutterSelectors))
  }

  /** One selector more is the same as one pass more. */
  lemma SelectorRuleSnoc(sels: seq<Selector>, sel: Selector)
    ensures forall a, l :: SelectorRule(sels + [sel])(a, l) == (SelectorRule(sels)(a, l) || SelectorRule([sel])(a, l))
  {
    forall a, l
      ensures SelectorRule(sels + [sel])(a, l) == (SelectorRule(sels)(a, l) || SelectorRule([sel])(a, l))
    {
      var all := sels + [sel];
      if AnyMatches(all, a, l) {
        var i :| 0 <= i < |all| && Matches(all[i], a, l);
        if i < |sels| {
          assert Matches(sels[i], a, l);
        } else {
          assert [sel][0] == all[i];
        }
      }
      if AnyMatches(sels, a, l) {
        var i :| 0 <= i < |sels| && Matches(sels[i], a, l);
        assert all[i] == sels[i];
      }
      if AnyMatches([sel], a, l) {
        assert all[|sels|] == sel;
      }
    }
  }

  /** A rule that picks nothing leaves the tree as it is. */
  lemma {:induction false} PruneNothing(ns: seq<Node>, anc: seq<Label>)
    ensures Prune(ns, anc, SelectorRule([])) == ns
    decreases ns
  {
    if ns != [] {
      PruneNothing(ns[1..], anc);
      match ns[0]
      case Text(_) =>
      case Element(name, id, classes, cs) =>
        PruneNothing(cs, anc + [LabelOf(ns[0])]);
    }
  }

  /** Clutter removal is exact: the nodes left, in document order and with their ancestry, are
      those neither matched by a clutter selector nor below a matched node. */
  lemma DeclutteredExact(ns: seq<Node>)
    ensures Flatten(Decluttered(ns), []) == Survivors(Flatten(ns, []), SelectorRule(ClutterSelectors))
  {
    PruneFlatten(ns, [], SelectorRule(ClutterSelectors));
  }

  /** After clutter removal no element has class navbox, printfooter, toc or mw-editsection, and
      no element of class hlist has an ancestor of class mw-parser-output. */
  lemma NoClutterLeft(ns: seq<Node>)
    ensures forall e | e in Flatten(Decluttered(ns), []) ::
      !HasClassLabel(e.item, "navbox") && !HasClassLabel(e.item, "printfooter") &&
      !HasClassLabel(e.item, "toc") && !HasClassLabel(e.item, "mw-editsection") &&
      (HasClassLabel(e.item, "hlist") ==>
        forall k | 0 <= k < |e.ancestors| :: !HasClassLabel(e.ancestors[k], "mw-parser-output"))
  {
    var rule := SelectorRule(ClutterSelectors);
    DeclutteredExact(ns);
    forall e | e in Flatten(Decluttered(ns), [])
      ensures !HasClassLabel(e.item, "navbox") && !HasClassLabel(e.item, "printfooter") &&
        !HasClassLabel(e.item, "toc") && !HasClassLabel(e.item, "mw-editsection") &&
        (HasClassLabel(e.item, "hlist") ==>
          forall k | 0 <= k < |e.ancestors| :: !HasClassLabel(e.ancestors[k], "mw-parser-output"))
    {
      SurvivorsMember(Flatten(ns, []), rule, e);
      assert !AnyMatches(ClutterSelectors, e.ancestors, e.item);
      assert !Matches(ClutterSelectors[0], e.ancestors, e.item);
      assert !Matches(ClutterSelectors[1], e.ancestors, e.item);
      assert !Matches(ClutterSelectors[2], e.ancestors, e.item);
      assert !Matches(ClutterSelectors[3], e.ancestors, e.item);
      assert !Matches(ClutterSelectors[4], e.ancestors, e.item);
    }
  }

  // ---------------------------------------------------------------------------------------------
  // Step 3: junk removal

  /** Python's `sub in s`: sub occurs somewhere in s. */
  predicate Contains(s: string, sub: string)
    decreases |s|
  {
    sub <= s || (0 < |s| && Contains(s[1..], sub))
  }

  predicate OccursAt(s: string, sub: string, i: nat) {
    i + |sub| <= |s| && s[i..i + |sub|] == sub
  }

  lemma OccursAtStart(s: string, sub: string)
    ensures OccursAt(s, sub, 0) <==> sub <= s
  {
    if |sub| <= |s| {
      assert s[0..|sub|] == s[..|sub|];
    }
  }

  /** An occurrence in s[1..] at j is an occurrence in s at j + 1. */
  lemma OccursShift(s: string, sub: string, j: nat)
    requires 0 < |s|
    ensures OccursAt(s[1..], sub, j) <==> OccursAt(s, sub, j + 1)
  {
    if j + 1 + |sub| <= |s| {
      assert s[j + 1..j + 1 + |sub|] == s[1..][j..j + |sub|];
    }
  }

  /** Contains is the substring test: true exactly when sub occurs at some position of s. */
  lemma {:induction false} ContainsOccurs(s: string, sub: string)
    ensures Contains(s, sub) <==> exists i: nat :: OccursAt(s, sub, i)
    decreases |s|
  {
    OccursAtStart(s, sub);
    if sub <= s {
    } else if |s| > 0 {
      var t := s[1..];
      ContainsOccurs(t, sub);
      if j: nat :| OccursAt(t, sub, j) {
        OccursShift(s, sub, j);
      }
      if i: nat :| 0 < i && OccursAt(s, sub, i) {
        OccursShift(s, sub, i - 1);
      }
    }
  }

  /** The test of lines 24-28. */
  predicate IsJunk(t: string) {
    Contains(t, "wiki.") || Contains(t, "Retrieved from") || Contains(t, "In other languages:")
  }

  /** find_all(string=...) only yields text nodes. */
  const JunkRule: Rule := (anc: seq<Label>, l: Label) => l.Chars? && IsJunk(l.text)

  /** The tree after lines 24-29. */
  function Dejunked(ns: seq<Node>): seq<Node> {
    Prune(ns, [], JunkRule)
  }

  /** Junk removal deletes exactly the text nodes that contain a junk marker: every element, and
      every other text node, is still there, in order and with its ancestry. */
  lemma DejunkedExact(ns: seq<Node>)
    ensures Flatten(Dejunked(ns), []) == Survivors(Flatten(ns, []), JunkRule)
    ensures forall e | e in Flatten(ns, []) ::
      e in Flatten(Dejunked(ns), []) <==> !(e.item.Chars? && IsJunk(e.item.text))
  {
    PruneFlatten(ns, [], JunkRule);
    FlattenAncestorsTags(ns, []);
    forall e | e in Flatten(ns, [])
      ensures e in Flatten(Dejunked(ns), []) <==> !(e.item.Chars? && IsJunk(e.item.text))
    {
      SurvivorsMember(Flatten(ns, []), JunkRule, e);
      assert AllTags(e.ancestors);
      forall k | 0 <= k < |e.ancestors|
        ensures !JunkRule(e.ancestors[..k], e.ancestors[k])
      {
        assert e.ancestors[k].Tag?;
      }
    }
  }

  /** A text node survives junk removal only if it holds none of the three markers anywhere. */
  lemma DejunkedText(ns: seq<Node>, t: string)
    requires Chars(t) in (set e | e in Flatten(Dejunked(ns), []) :: e.item)
    ensures forall i: nat ::
      !OccursAt(t, "wiki.", i) && !OccursAt(t, "Retrieved from", i) && !OccursAt(t, "In other languages:", i)
  {
    var e :| e in Flatten(Dejunked(ns), []) && e.item == Chars(t);
    DejunkedExact(ns);
    SurvivorsMember(Flatten(ns, []), JunkRule, e);
    ContainsOccurs(t, "wiki.");
    ContainsOccurs(t, "Retrieved from");
    ContainsOccurs(t, "In other languages:");
  }

  // ---------------------------------------------------------------------------------------------
  // Step 4: "See also" removal

  /** soup.find("span", id="See_also") */
  predicate IsSeeAlsoSpan(n: Node) {
    n.Element? && n.name == "span" && n.id == Some(SeeAlsoId)
  }

  /** Where the See-also heading is: the path of the nearest `h2` above the first
      `span#See_also`, if both exist. */
  function SeeAlsoHeading(ns: seq<Node>): (r: Option<Path>)
    ensures r.Some? ==> ValidPath(ns, r.value) && IsNamed(At(ns, r.value), "h2")
  {
    match Find(ns, IsSeeAlsoSpan)
    case None => None
    case Some(ps) =>
      match NearestAncestor(ns, ps, "h2")
      case None => None
      case Some(k) => Some(ps[..k])
  }

  /** The tree after lines 32-43: the sibling list that holds the heading is replaced by what the
      walk leaves of it. */
  function WithoutSeeAlso(ns: seq<Node>): (r: seq<Node>)
    ensures SeeAlsoHeading(ns).None? ==> r == ns
    ensures SeeAlsoHeading(ns).Some? ==>
      var ph := SeeAlsoHeading(ns).value;
      var parent, h := ph[..|ph| - 1], ph[|ph| - 1];
      HasSiblingList(ns, parent) && h < |SiblingList(ns, parent)| && SiblingList(ns, parent)[h].Element? &&
      HasSiblingList(r, parent) && SiblingList(r, parent) == SeeAlsoSiblings(SiblingList(ns, parent), h)
  {
    match SeeAlsoHeading(ns)
    case None => ns
    case Some(ph) =>
      SiblingListAt(ns, ph);
      var parent, h := ph[..|ph| - 1], ph[|ph| - 1];
      ReplaceSiblingList(ns, parent, SeeAlsoSiblings(SiblingList(ns, parent), h))
  }

  /** Nothing outside the heading's sibling list changes: every node that is neither the
      heading's parent, nor above it, nor below it, stays where it was. */
  lemma WithoutSeeAlsoFrame(ns: seq<Node>, q: Path)
    requires SeeAlsoHeading(ns).Some? && 1 < |SeeAlsoHeading(ns).value|
    requires ValidPath(ns, q)
    requires var ph := SeeAlsoHeading(ns).value; Disjoint(ph[..|ph| - 1], q)
    ensures ValidPath(WithoutSeeAlso(ns), q) && At(WithoutSeeAlso(ns), q) == At(ns, q)
  {
    var ph := SeeAlsoHeading(ns).value;
    var parent, h := ph[..|ph| - 1], ph[|ph| - 1];
    SiblingListAt(ns, ph);
    WithChildrenDisjoint(ns, parent, SeeAlsoSiblings(SiblingList(ns, parent), h), q);
  }

  /** At page level: in the heading's sibling list the nodes before the heading are untouched,
      every text node stays, and at least one element (the heading) is gone. */
  lemma SeeAlsoStep(ns: seq<Node>)
    requires SeeAlsoHeading(ns).Some?
    ensures
      var ph := SeeAlsoHeading(ns).value;
      var parent, h := ph[..|ph| - 1], ph[|ph| - 1];
      HasSiblingList(ns, parent) && HasSiblingList(WithoutSeeAlso(ns), parent) &&
      var before, after := SiblingList(ns, parent), SiblingList(WithoutSeeAlso(ns), parent);
      h < |before| && h <= |after| && after[..h] == before[..h] && Texts(after) == Texts(before) &&
      |Elements(after)| < |Elements(before)|
  {
    var ph := SeeAlsoHeading(ns).value;
    var parent, h := ph[..|ph| - 1], ph[|ph| - 1];
    SiblingListAt(ns, ph);
    var before := SiblingList(ns, parent);
    assert SiblingList(WithoutSeeAlso(ns), parent) == SeeAlsoSiblings(before, h);
    SeeAlsoKeepsTexts(before, h);
    SeeAlsoKeepsElements(before, h);
    SeeAlsoDropsHeading(before, h);
  }

  // ---------------------------------------------------------------------------------------------
  // The whole pass

  /** clean_html_file on the tree, or the reason it stops at line 12. */
  function Cleaned(ns: seq<Node>): Outcome {
    match Isolated(ns)
    case Err(f) => Err(f)
    case Ok(r) => Ok(WithoutSeeAlso(Dejunked(Decluttered(r))))
  }

  /** The parsed page that clean_html_file rewrites. */
  class Page {
    var nodes: seq<Node>

    constructor(nodes: seq<Node>)
      ensures this.nodes == nodes
    {
      this.nodes := nodes;
    }

    /** Lines 10-13. The statements follow the source step by step (find, find, clear, append)
        and are proved to give `Isolated`; on failure nothing has changed. */
    method IsolateContent() returns (failure: Option<Failure>)
      modifies this
      ensures match Isolated(old(nodes))
        case Ok(r) => failure.None? && nodes == r
        case Err(f) => failure == Some(f) && nodes == old(nodes)
    {
      var contentRoot := Find(nodes, IsContentRoot);
      if contentRoot.None? {
        return None;
      }
      var body := Find(nodes, IsBody);
      if body.None? {
        return Some(NoBody);
      }
      var pd, pb := contentRoot.value, body.value;
      if IsPrefix(pd, pb) {
        return Some(BodyInsideContent);
      }
      var content := At(nodes, pd);
      WithChildrenAt(nodes, pb, []);
      if !IsPrefix(pb, pd) {
        WithChildrenDisjoint(nodes, pb, [], pd);
      }
      nodes := WithChildren(nodes, pb, []);
      if IsPrefix(pb, pd) {
        nodes := WithChildren(nodes, pb, [content]);
      } else {
        RemoveAtShift(nodes, pd, pb);
        nodes := RemoveAt(nodes, pd);
        nodes := WithChildren(nodes, Shift(pb, pd), [content]);
      }
      failure := None;
    }

    /** Lines 16-21: one pass per selector, in the listed order. */
    method RemoveClutter()
      modifies this
      ensures nodes == Decluttered(old(nodes))
    {
      ghost var original := nodes;
      PruneNothing(nodes, []);
      assert ClutterSelectors[..0] == [];
      for i := 0 to |ClutterSelectors|
        invariant nodes == Prune(original, [], SelectorRule(ClutterSelectors[..i]))
      {
        var selector := ClutterSelectors[i];
        assert ClutterSelectors[..i + 1] == ClutterSelectors[..i] + [selector];
        SelectorRuleSnoc(ClutterSelectors[..i], selector);
        PruneTwice(original, [], SelectorRule(ClutterSelectors[..i]), SelectorRule([selector]),
          SelectorRule(ClutterSelectors[..i + 1]));
        nodes := Prune(nodes, [], SelectorRule([selector]));
      }
      assert ClutterSelectors[..|ClutterSelectors|] == ClutterSelectors;
    }

    /** Lines 24-29. */
    method RemoveJunkStrings()
      modifies this
      ensures nodes == Dejunked(old(nodes))
    {
      nodes := Prune(nodes, [], JunkRule);
    }

    /** Lines 32-43. */
    method RemoveSeeAlso()
      modifies this
      ensures nodes == WithoutSeeAlso(old(nodes))
    {
      var heading := SeeAlsoHeading(nodes);
      if heading.Some? {
        var ph := heading.value;
        SiblingListAt(nodes, ph);
        var parent, h := ph[..|ph| - 1], ph[|ph| - 1];
        var walked := WalkSeeAlso(SiblingList(nodes, parent), h);
        nodes := ReplaceSiblingList(nodes, parent, walked);
      }
    }

    /** Lines 9-43, the four steps in order. */
    method Clean() returns (failure: Option<Failure>)
      modifies this
      ensures match Cleaned(old(nodes))
        case Ok(r) => failure.None? && nodes == r
        case Err(f) => failure == Some(f) && nodes == old(nodes)
    {
      failure := IsolateContent();
      if failure.Some? {
        return;
      }
      RemoveClutter();
      RemoveJunkStrings();
      RemoveSeeAlso();
    }
  }
}

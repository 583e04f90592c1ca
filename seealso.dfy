/** The "See also" pruning walk of clean_html_file (parse_html.py, lines 31-43), on the list of
    siblings that holds the `h2` heading of the section.

    The walk keeps a cursor on one sibling at a time, starting at the heading. Each round it looks
    up the next element sibling (find_next_sibling with no filter skips text nodes); if that one's
    tag name starts with "h" the walk stops, otherwise the cursor's sibling is decomposed and the
    cursor moves on. Afterwards the heading is decomposed (a no-op if it already went). Because
    the stop test comes before the decompose, the element just before the stopping heading is
    left in place. */
module SeeAlso {
  import opened Dom

  /** name.startswith("h"): a name test, not a heading-level test, so "h3", "hr" and "header"
      stop the walk as well as "h2". */
  predicate IsHeadingLike(name: string) {
    0 < |name| && name[0] == 'h'
  }

  /** The text nodes of a sibling list, in order. */
  function Texts(s: seq<Node>): (r: seq<Node>)
    decreases |s|
  {
    if s == [] then []
    else if s[0].Text? then [s[0]] + Texts(s[1..])
    else Texts(s[1..])
  }

  /** The element nodes of a sibling list, in order. */
  function Elements(s: seq<Node>): (r: seq<Node>)
    decreases |s|
  {
    if s == [] then []
    else if s[0].Element? then [s[0]] + Elements(s[1..])
    else Elements(s[1..])
  }

  lemma {:induction false} TextsAppend(a: seq<Node>, b: seq<Node>)
    ensures Texts(a + b) == Texts(a) + Texts(b)
    decreases |a|
  {
    if a == [] {
      assert a + b == b;
    } else {
      assert (a + b)[0] == a[0] && (a + b)[1..] == a[1..] + b;
      TextsAppend(a[1..], b);
    }
  }

  lemma {:induction false} ElementsAppend(a: seq<Node>, b: seq<Node>)
    ensures Elements(a + b) == Elements(a) + Elements(b)
    decreases |a|
  {
    if a == [] {
      assert a + b == b;
    } else {
      assert (a + b)[0] == a[0] && (a + b)[1..] == a[1..] + b;
      ElementsAppend(a[1..], b);
    }
  }

  /** Cutting a list in two cuts its text part and its element part in two. */
  lemma Split(s: seq<Node>, i: nat)
    requires i <= |s|
    ensures Texts(s) == Texts(s[..i]) + Texts(s[i..])
    ensures Elements(s) == Elements(s[..i]) + Elements(s[i..])
  {
    assert s == s[..i] + s[i..];
    TextsAppend(s[..i], s[i..]);
    ElementsAppend(s[..i], s[i..]);
  }

  lemma Single(n: Node)
    ensures Texts([n]) == (if n.Text? then [n] else [])
    ensures Elements([n]) == (if n.Element? then [n] else [])
  {
    assert [n][1..] == [];
  }

  /** A run of text nodes is its own text part and has no element part. */
  lemma {:induction false} AllTexts(s: seq<Node>)
    requires forall j | 0 <= j < |s| :: s[j].Text?
    ensures Texts(s) == s && Elements(s) == []
    decreases |s|
  {
    if s != [] {
      AllTexts(s[1..]);
    }
  }

  /** The text part has no elements, so filtering it again changes nothing. */
  lemma {:induction false} TextsOnlyTexts(s: seq<Node>)
    ensures Texts(Texts(s)) == Texts(s) && Elements(Texts(s)) == []
    decreases |s|
  {
    if s != [] {
      TextsOnlyTexts(s[1..]);
      var head := if s[0].Text? then [s[0]] else [];
      TextsAppend(head, Texts(s[1..]));
      ElementsAppend(head, Texts(s[1..]));
    }
  }

  /** Three pieces at once. */
  lemma Glue(a: seq<Node>, b: seq<Node>, c: seq<Node>)
    ensures Texts(a + b + c) == Texts(a) + Texts(b) + Texts(c)
    ensures Elements(a + b + c) == Elements(a) + Elements(b) + Elements(c)
  {
    TextsAppend(a, b);
    TextsAppend(a + b, c);
    ElementsAppend(a, b);
    ElementsAppend(a + b, c);
  }

  /** Replacing a middle piece by its text part keeps the text part of the whole and drops the
      middle piece's elements. */
  lemma Splice(p: seq<Node>, mid: seq<Node>, q: seq<Node>)
    ensures Texts(p + Texts(mid) + q) == Texts(p + mid + q)
    ensures Elements(p + Texts(mid) + q) == Elements(p) + Elements(q)
  {
    TextsOnlyTexts(mid);
    Glue(p, Texts(mid), q);
    Glue(p, mid, q);
    var ep := Elements(p);
    assert ep + [] == ep;
  }

  /** Dropping one element keeps the text part. */
  lemma DropElement(p: seq<Node>, x: Node, q: seq<Node>)
    requires x.Element?
    ensures Texts(p + q) == Texts(p + [x] + q)
  {
    Single(x);
    Glue(p, [x], q);
    TextsAppend(p, q);
    var tp := Texts(p);
    assert tp + [] == tp;
  }

  /** A run of text nodes between two pieces adds nothing to the element part. */
  lemma SkipTexts(p: seq<Node>, gap: seq<Node>, q: seq<Node>)
    requires forall j | 0 <= j < |gap| :: gap[j].Text?
    ensures Elements(p + gap + q) == Elements(p) + Elements(q)
  {
    AllTexts(gap);
    Glue(p, gap, q);
    var ep := Elements(p);
    assert ep + [] == ep;
  }

  /** Every node of the text part is a node of the list. */
  lemma {:induction false} TextsFrom(s: seq<Node>)
    ensures forall n | n in Texts(s) :: n in s && n.Text?
    decreases |s|
  {
    if s != [] {
      TextsFrom(s[1..]);
    }
  }

  // ---------------------------------------------------------------------------------------------
  // Where the walk goes

  /** The first index at or after j that holds an element. */
  function FirstElementFrom(s: seq<Node>, j: nat): (r: Option<nat>)
    ensures r.Some? ==> j <= r.value < |s| && s[r.value].Element?
    ensures r.Some? ==> forall k | j <= k < r.value :: s[k].Text?
    ensures r.None? ==> forall k | j <= k < |s| :: s[k].Text?
    decreases |s| - j
  {
    if j >= |s| then None
    else if s[j].Element? then Some(j)
    else FirstElementFrom(s, j + 1)
  }

  /** find_next_sibling(): the next sibling of s[i] that is an element, skipping text nodes. */
  function NextElementSibling(s: seq<Node>, i: nat): (r: Option<nat>)
    requires i < |s|
    ensures r.Some? ==> i < r.value < |s| && s[r.value].Element?
  {
    FirstElementFrom(s, i + 1)
  }

  /** find_next_sibling() skips only text nodes. */
  lemma NextElementSkipsTexts(s: seq<Node>, i: nat)
    requires i < |s|
    ensures match NextElementSibling(s, i)
      case Some(n) => forall k | i < k < n :: s[k].Text?
      case None => forall k | i < k < |s| :: s[k].Text?
  {
  }

  /** The first index at or after j that holds an element whose name starts with "h". */
  function FirstHeadingLikeFrom(s: seq<Node>, j: nat): (r: Option<nat>)
    ensures r.Some? ==> j <= r.value < |s| && s[r.value].Element? && IsHeadingLike(s[r.value].name)
    ensures r.Some? ==> forall k | j <= k < r.value :: s[k].Element? ==> !IsHeadingLike(s[k].name)
    ensures r.None? ==> forall k | j <= k < |s| :: s[k].Element? ==> !IsHeadingLike(s[k].name)
    decreases |s| - j
  {
    if j >= |s| then None
    else if s[j].Element? && IsHeadingLike(s[j].name) then Some(j)
    else FirstHeadingLikeFrom(s, j + 1)
  }

  /** Where the walk from the heading at h stops: the first element after it whose name starts
      with "h", if there is one. */
  function StopIndex(s: seq<Node>, h: nat): (r: Option<nat>)
    requires h < |s|
    ensures r.Some? ==> h < r.value < |s| && s[r.value].Element? && IsHeadingLike(s[r.value].name)
    ensures r.Some? ==> forall k | h < k < r.value :: s[k].Element? ==> !IsHeadingLike(s[k].name)
    ensures r.None? ==> forall k | h < k < |s| :: s[k].Element? ==> !IsHeadingLike(s[k].name)
  {
    FirstHeadingLikeFrom(s, h + 1)
  }

  /** The last element at an index in [h, m); s[h] is one, so there always is one. */
  function LastElementBefore(s: seq<Node>, h: nat, m: nat): (r: nat)
    requires h < m <= |s| && s[h].Element?
    ensures h <= r < m && s[r].Element?
    ensures forall k | r < k < m :: s[k].Text?
    decreases m
  {
    if s[m - 1].Element? then m - 1 else LastElementBefore(s, h, m - 1)
  }

  // ---------------------------------------------------------------------------------------------
  // What the walk leaves

  /** The sibling list once the walk from the heading at h is done. Without a stopping element,
      every element from the heading on is gone. With one at m, the elements in [h, last) are
      gone, where last is the last element before m; if that is the heading itself, only the
      heading goes (by the decompose after the loop). Text siblings always stay. */
  function SeeAlsoSiblings(s: seq<Node>, h: nat): seq<Node>
    requires h < |s| && s[h].Element?
  {
    match StopIndex(s, h)
    case None => s[..h] + Texts(s[h..])
    case Some(m) =>
      var last := LastElementBefore(s, h, m);
      if last == h then s[..h] + s[h + 1..]
      else s[..h] + Texts(s[h..last]) + s[last..]
  }

  /** Cutting a list in three. */
  lemma Cut3(s: seq<Node>, i: nat, j: nat)
    requires i <= j <= |s|
    ensures s == s[..i] + s[i..j] + s[j..]
  {
  }

  /** Cutting the nodes from i onwards at j. */
  lemma SplitFrom(s: seq<Node>, i: nat, j: nat)
    requires i < j <= |s|
    ensures s[i..j][0] == s[i]
    ensures Elements(s[i..]) == Elements(s[i..j]) + Elements(s[j..])
  {
    var from, section, rest := s[i..], s[i..j], s[j..];
    assert from == section + rest;
    ElementsAppend(section, rest);
  }

  /** The nodes from i on: the one at i, those up to j, and the rest. */
  lemma SliceAt<T>(s: seq<T>, i: nat, j: nat)
    requires i < j <= |s|
    ensures s[i..] == [s[i]] + (s[i + 1..j] + s[j..])
  {
  }

  /** Removing the item at |a| from a + ([x] + b) leaves a + b. */
  lemma DropAt<T>(a: seq<T>, x: T, b: seq<T>)
    ensures var r := a + ([x] + b); |a| < |r| && r[..|a|] + r[|a| + 1..] == a + b
  {
    var r := a + ([x] + b);
    assert r[..|a|] == a;
    assert r[|a| + 1..] == b;
  }

  lemma Regroup3<T>(a: seq<T>, b: seq<T>, c: seq<T>)
    ensures a + (b + c) == a + b + c
  {
  }

  lemma Regroup4<T>(a: seq<T>, b: seq<T>, c: seq<T>, d: seq<T>)
    ensures a + b + (c + d) == a + (b + c) + d
  {
  }

  /** The first |a| nodes of a + b are a. */
  lemma PrefixOf(a: seq<Node>, b: seq<Node>)
    ensures (a + b)[..|a|] == a
  {
  }

  /** The first |a| nodes of a + b + c are a. */
  lemma PrefixOf3(a: seq<Node>, b: seq<Node>, c: seq<Node>)
    ensures (a + b + c)[..|a|] == a
  {
    assert (a + b + c)[..|a|] == (a + b)[..|a|];
  }

  // The three shapes the result can take, one lemma each. Slices are bound to local names
  // before they are handed to other lemmas, which keeps the solver's work small.

  /** Everything from h on reduced to its text part. */
  lemma RestShape(s: seq<Node>, h: nat)
    requires h <= |s|
    ensures (s[..h] + Texts(s[h..]))[..h] == s[..h]
    ensures Texts(s[..h] + Texts(s[h..])) == Texts(s)
    ensures Elements(s[..h] + Texts(s[h..])) == Elements(s[..h])
  {
    var before, from := s[..h], s[h..];
    Split(s, h);
    TextsOnlyTexts(from);
    TextsAppend(before, Texts(from));
    ElementsAppend(before, Texts(from));
    PrefixOf(before, Texts(from));
    var eb := Elements(before);
    assert eb + [] == eb;
  }

  /** Only the element at h removed, with text nodes alone between it and m. */
  lemma WithoutShape(s: seq<Node>, h: nat, m: nat)
    requires h < m <= |s| && s[h].Element?
    requires forall k | h < k < m :: s[k].Text?
    ensures (s[..h] + s[h + 1..])[..h] == s[..h]
    ensures Texts(s[..h] + s[h + 1..]) == Texts(s)
    ensures Elements(s[..h] + s[h + 1..]) == Elements(s[..h]) + Elements(s[m..])
  {
    var before, x, after := s[..h], s[h], s[h + 1..];
    var gap, tail := s[h + 1..m], s[m..];
    assert s == before + [x] + after;
    assert after == gap + tail;
    assert before + after == before + gap + tail;
    DropElement(before, x, after);
    SkipTexts(before, gap, tail);
    PrefixOf(before, after);
  }

  /** The nodes in [h, j) reduced to their text part. */
  lemma SectionShape(s: seq<Node>, h: nat, j: nat)
    requires h <= j <= |s|
    ensures (s[..h] + Texts(s[h..j]) + s[j..])[..h] == s[..h]
    ensures Texts(s[..h] + Texts(s[h..j]) + s[j..]) == Texts(s)
    ensures Elements(s[..h] + Texts(s[h..j]) + s[j..]) == Elements(s[..h]) + Elements(s[j..])
  {
    var before, section, rest := s[..h], s[h..j], s[j..];
    Cut3(s, h, j);
    Splice(before, section, rest);
    PrefixOf3(before, Texts(section), rest);
  }

  /** The element part of s[j..], when s[j] is an element followed by text nodes up to m. */
  lemma ElementsAfter(s: seq<Node>, j: nat, m: nat)
    requires j < m <= |s| && s[j].Element?
    requires forall k | j < k < m :: s[k].Text?
    ensures Elements(s[j..]) == [s[j]] + Elements(s[m..])
  {
    var x, gap, tail := s[j], s[j + 1..m], s[m..];
    assert s[j..] == [x] + gap + tail;
    SkipTexts([x], gap, tail);
    Single(x);
  }

  /** Text siblings are never removed: find_next_sibling skips them, so the walk never
      lands on one. */
  lemma SeeAlsoKeepsTexts(s: seq<Node>, h: nat)
    requires h < |s| && s[h].Element?
    ensures Texts(SeeAlsoSiblings(s, h)) == Texts(s)
  {
    var stop := StopIndex(s, h);
    if stop.None? {
      RestShape(s, h);
    } else if LastElementBefore(s, h, stop.value) == h {
      WithoutShape(s, h, stop.value);
    } else {
      SectionShape(s, h, LastElementBefore(s, h, stop.value));
    }
  }

  /** The elements that remain, as written: those before the heading, and, when the walk stops
      at m, the last element before m unless that is the heading, then m and everything after
      it. With no stopping element, no element from the heading on remains. The nodes before
      the heading are untouched. */
  lemma SeeAlsoKeepsElements(s: seq<Node>, h: nat)
    requires h < |s| && s[h].Element?
    ensures SeeAlsoSiblings(s, h)[..h] == s[..h]
    ensures Elements(SeeAlsoSiblings(s, h)) ==
      match StopIndex(s, h)
      case None => Elements(s[..h])
      case Some(m) =>
        var last := LastElementBefore(s, h, m);
        if last == h then Elements(s[..h]) + Elements(s[m..])
        else Elements(s[..h]) + [s[last]] + Elements(s[m..])
  {
    var stop := StopIndex(s, h);
    if stop.None? {
      RestShape(s, h);
    } else {
      var m := stop.value;
      var last := LastElementBefore(s, h, m);
      if last == h {
        WithoutShape(s, h, m);
      } else {
        SectionShape(s, h, last);
        ElementsAfter(s, last, m);
        Regroup3(Elements(s[..h]), [s[last]], Elements(s[m..]));
      }
    }
  }

  /** The heading never survives: removed in the first round or by the decompose after the
      loop, so the walk always leaves fewer elements than it found. */
  lemma SeeAlsoDropsHeading(s: seq<Node>, h: nat)
    requires h < |s| && s[h].Element?
    ensures |Elements(SeeAlsoSiblings(s, h))| < |Elements(s)|
  {
    SeeAlsoKeepsElements(s, h);
    var before, from := s[..h], s[h..];
    Split(s, h);
    var stop := StopIndex(s, h);
    if stop.None? {
      assert from[0] == s[h];
    } else {
      var m := stop.value;
      var last := LastElementBefore(s, h, m);
      if last == h {
        ElementsAfter(s, h, m);
      } else {
        var section, rest := s[h..last], s[last..];
        SplitFrom(s, h, last);
        ElementsAfter(s, last, m);
      }
    }
  }

  /** Every node left is one of the original siblings. */
  lemma SeeAlsoOnlyRemoves(s: seq<Node>, h: nat)
    requires h < |s| && s[h].Element?
    ensures forall n | n in SeeAlsoSiblings(s, h) :: n in s
  {
    match StopIndex(s, h)
    case None =>
      TextsFrom(s[h..]);
    case Some(m) =>
      var last := LastElementBefore(s, h, m);
      TextsFrom(s[h..last]);
  }

  /** The quirk on the shortest page that shows it: after a "See also" heading, one list and
      then the "References" heading, the list is still there. */
  lemma SeeAlsoKeepsLastList()
    ensures
      var seeAlso := Element("h2", None, [], [Element("span", Some("See_also"), [], [Text("See also")])]);
      var list := Element("ul", None, [], [Element("li", None, [], [Text("Related page")])]);
      var references := Element("h2", None, [], [Element("span", Some("References"), [], [Text("References")])]);
      SeeAlsoSiblings([seeAlso, list, references], 0) == [list, references]
  {
    var seeAlso := Element("h2", None, [], [Element("span", Some("See_also"), [], [Text("See also")])]);
    var list := Element("ul", None, [], [Element("li", None, [], [Text("Related page")])]);
    var references := Element("h2", None, [], [Element("span", Some("References"), [], [Text("References")])]);
    var s := [seeAlso, list, references];
    assert FirstHeadingLikeFrom(s, 2) == Some(2);
    assert StopIndex(s, 0) == Some(2);
    assert LastElementBefore(s, 0, 2) == 1;
    assert Texts(s[0..1]) == [];
  }

  // ---------------------------------------------------------------------------------------------
  // The walk itself

  /** A list that agrees with s from j on, shifted to start at i, has its next element at the
      same place, shifted. */
  lemma {:induction false} FirstElementShift(s: seq<Node>, j: nat, t: seq<Node>, i: nat)
    requires j <= |s| && i <= |t| && |t| - i == |s| - j
    requires forall k | i <= k < |t| :: t[k] == s[k - i + j]
    ensures FirstElementFrom(t, i) ==
      match FirstElementFrom(s, j)
      case None => None
      case Some(n) => Some(n - j + i)
    decreases |s| - j
  {
    if j < |s| {
      assert t[i] == s[j];
      if s[j].Text? {
        FirstElementShift(s, j + 1, t, i + 1);
      }
    }
  }

  /** The first heading-like element from j is the one at i when none comes before it. */
  lemma {:induction false} FirstHeadingLikeIs(s: seq<Node>, j: nat, i: nat)
    requires j <= i < |s| && s[i].Element? && IsHeadingLike(s[i].name)
    requires forall k | j <= k < i :: s[k].Element? ==> !IsHeadingLike(s[k].name)
    ensures FirstHeadingLikeFrom(s, j) == Some(i)
    decreases i - j
  {
    if j < i {
      FirstHeadingLikeIs(s, j + 1, i);
    }
  }

  /** No heading-like element from j on: nothing is found. */
  lemma {:induction false} NoHeadingLike(s: seq<Node>, j: nat)
    requires j <= |s|
    requires forall k | j <= k < |s| :: s[k].Element? ==> !IsHeadingLike(s[k].name)
    ensures FirstHeadingLikeFrom(s, j).None?
    decreases |s| - j
  {
    if j < |s| {
      NoHeadingLike(s, j + 1);
    }
  }

  /** The last element before m is the one at i when only text nodes follow it. */
  lemma {:induction false} LastElementIs(s: seq<Node>, h: nat, m: nat, i: nat)
    requires h <= i < m <= |s| && s[h].Element? && s[i].Element?
    requires forall k | i < k < m :: s[k].Text?
    ensures LastElementBefore(s, h, m) == i
    decreases m
  {
    if i < m - 1 {
      LastElementIs(s, h, m - 1, i);
    }
  }

  /** The working list while the cursor's node sits at `at` in s: the nodes before the heading,
      the text part of [h, at), and s from `at` on. */
  function Working(s: seq<Node>, h: nat, at: nat): (r: seq<Node>)
    requires h <= at <= |s|
    ensures |r| == h + |Texts(s[h..at])| + (|s| - at)
  {
    s[..h] + Texts(s[h..at]) + s[at..]
  }

  /** Before the first round the working list is s. */
  lemma WorkingStart(s: seq<Node>, h: nat)
    requires h <= |s|
    ensures Working(s, h, h) == s && |Texts(s[h..h])| == 0
  {
    assert s[h..h] == [];
    assert s == s[..h] + [] + s[h..];
  }

  /** After the last element the working list is the heading's text part glued on. */
  lemma WorkingEnd(s: seq<Node>, h: nat)
    requires h <= |s|
    ensures Working(s, h, |s|) == s[..h] + Texts(s[h..])
  {
    assert s[h..|s|] == s[h..];
    var before, ts := s[..h], Texts(s[h..]);
    assert before + ts + [] == before + ts;
  }

  /** One round of the walk, read on the original list: the sibling at `at` goes, and the text
      nodes between it and the next element join the text part already collected. */
  lemma WalkStep(s: seq<Node>, h: nat, at: nat, next: nat)
    requires h <= at < next <= |s| && s[at].Element?
    requires forall k | at < k < next :: s[k].Text?
    ensures Texts(s[h..next]) == Texts(s[h..at]) + s[at + 1..next]
  {
    var before, x, tail := s[h..at], s[at], s[at + 1..next];
    assert s[h..next] == before + [x] + tail;
    Single(x);
    Glue(before, [x], tail);
    AllTexts(tail);
    var tb := Texts(before);
    assert tb + [] == tb;
  }

  /** Decomposing the cursor's node moves the working list from `at` to the next element nx
      (or to the end). */
  lemma Advance(s: seq<Node>, h: nat, at: nat, nx: nat)
    requires h <= at < nx <= |s| && s[at].Element?
    requires forall k | at < k < nx :: s[k].Text?
    ensures
      var r, cur := Working(s, h, at), h + |Texts(s[h..at])|;
      cur < |r| && r[..cur] + r[cur + 1..] == Working(s, h, nx) &&
      |Texts(s[h..nx])| == |Texts(s[h..at])| + (nx - at - 1)
  {
    var before, ts, x, gap, tail := s[..h], Texts(s[h..at]), s[at], s[at + 1..nx], s[nx..];
    WalkStep(s, h, at, nx);
    SliceAt(s, at, nx);
    DropAt(before + ts, x, gap + tail);
    Regroup4(before, ts, gap, tail);
  }

  /** The working list keeps the original's tail from the cursor on, so the next element of
      the working list is the original's next element, shifted. */
  lemma WalkNext(s: seq<Node>, h: nat, at: nat, r: seq<Node>, cur: nat)
    requires h <= at < |s|
    requires r == Working(s, h, at) && cur == h + |Texts(s[h..at])|
    ensures cur < |r| && |r| - cur == |s| - at
    ensures match NextElementSibling(r, cur)
      case None => NextElementSibling(s, at).None?
      case Some(v) => NextElementSibling(s, at) == Some(at + (v - cur)) && r[v] == s[at + (v - cur)]
  {
    var before, ts, rest := s[..h], Texts(s[h..at]), s[at..];
    assert r == before + ts + rest;
    forall k | cur <= k < |r|
      ensures r[k] == s[k - cur + at]
    {
      assert r[k] == rest[k - cur];
    }
    FirstElementShift(s, at + 1, r, cur + 1);
  }

  /** No element in (h, at] has a name starting with "h". */
  predicate HeadingFree(s: seq<Node>, h: nat, at: nat)
    requires at < |s|
  {
    forall k | h < k <= at :: s[k].Element? ==> !IsHeadingLike(s[k].name)
  }

  /** Where the walk stands with the cursor on a live node: the node sits at `at` in s and at
      cur in the working list r. */
  predicate Walking(s: seq<Node>, h: nat, at: nat, r: seq<Node>, cur: nat) {
    h <= at < |s| && s[at].Element? && HeadingFree(s, h, at) &&
    r == Working(s, h, at) && cur == h + |Texts(s[h..at])|
  }

  /** The walk stopped at nx: that is where StopIndex says, and the cursor's node is the last
      element before it. */
  lemma WalkStops(s: seq<Node>, h: nat, at: nat, nx: nat)
    requires h <= at < nx < |s| && s[h].Element? && s[at].Element? && HeadingFree(s, h, at)
    requires s[nx].Element? && IsHeadingLike(s[nx].name)
    requires forall k | at < k < nx :: s[k].Text?
    ensures StopIndex(s, h) == Some(nx) && LastElementBefore(s, h, nx) == at
  {
    FirstHeadingLikeIs(s, h + 1, nx);
    LastElementIs(s, h, nx, at);
  }

  // One round of the loop, with the cursor's node at `at` in s and at cur in the working list
  // r, in each of its three outcomes.

  /** No next element after the cursor's node: nothing would have stopped the walk. */
  lemma NoStopAfter(s: seq<Node>, h: nat, at: nat, r: seq<Node>, cur: nat)
    requires Walking(s, h, at, r, cur)
    requires cur < |r| && NextElementSibling(r, cur).None?
    ensures StopIndex(s, h).None?
    ensures forall k | at < k < |s| :: s[k].Text?
  {
    WalkNext(s, h, at, r, cur);
    NextElementSkipsTexts(s, at);
    NoHeadingLike(s, h + 1);
  }

  /** No next element: decomposing the cursor's node, which leaves nr, removes every element
      from the heading on, and nothing would have stopped the walk. */
  lemma RoundEnd(s: seq<Node>, h: nat, at: nat, r: seq<Node>, cur: nat, nr: seq<Node>)
    requires Walking(s, h, at, r, cur)
    requires cur < |r| && NextElementSibling(r, cur).None?
    requires nr == r[..cur] + r[cur + 1..]
    ensures StopIndex(s, h).None? && nr == s[..h] + Texts(s[h..])
  {
    NoStopAfter(s, h, at, r, cur);
    Advance(s, h, at, |s|);
    WorkingEnd(s, h);
  }

  /** A heading-like next element: the walk stops there, and the cursor's node is the last
      element before it. */
  lemma StopFound(s: seq<Node>, h: nat, at: nat, r: seq<Node>, cur: nat, v: nat) returns (nx: nat)
    requires Walking(s, h, at, r, cur) && s[h].Element?
    requires cur < |r| && NextElementSibling(r, cur) == Some(v) && IsHeadingLike(r[v].name)
    ensures StopIndex(s, h) == Some(nx) && at < nx && LastElementBefore(s, h, nx) == at
  {
    WalkNext(s, h, at, r, cur);
    NextElementSkipsTexts(s, at);
    nx := at + (v - cur);
    WalkStops(s, h, at, nx);
  }

  /** A heading-like next element: once the heading's decompose after the loop has run, the
      list is the as-written result. */
  lemma RoundStop(s: seq<Node>, h: nat, at: nat, r: seq<Node>, cur: nat, v: nat)
    requires Walking(s, h, at, r, cur) && s[h].Element?
    requires cur < |r| && NextElementSibling(r, cur) == Some(v) && IsHeadingLike(r[v].name)
    ensures (if at == h then r[..h] + r[h + 1..] else r) == SeeAlsoSiblings(s, h)
  {
    var nx := StopFound(s, h, at, r, cur, v);
    if at == h {
      WorkingStart(s, h);
    }
  }

  /** Any other next element: decomposing the cursor's node moves the walk on to it, at nx in
      s and at v - 1 in the shortened working list nr. */
  lemma RoundOn(s: seq<Node>, h: nat, at: nat, r: seq<Node>, cur: nat, v: nat, nx: nat, nr: seq<Node>)
    requires Walking(s, h, at, r, cur)
    requires cur < |r| && NextElementSibling(r, cur) == Some(v) && !IsHeadingLike(r[v].name)
    requires nx == at + (v - cur) && nr == r[..cur] + r[cur + 1..]
    ensures at < nx && Walking(s, h, nx, nr, v - 1)
  {
    WalkNext(s, h, at, r, cur);
    NextElementSkipsTexts(s, at);
    Advance(s, h, at, nx);
  }

  /** The loop of lines 36-43, on the sibling list s that holds the heading at h. The cursor is
      an index into the working list r; `at` is where the cursor's node sits in s. */
  method WalkSeeAlso(s: seq<Node>, h: nat) returns (r: seq<Node>)
    requires h < |s| && s[h].Element?
    ensures r == SeeAlsoSiblings(s, h)
  {
    r := s;
    var current: Option<nat> := Some(h);
    ghost var at: nat := h;
    var headingDetached := false;
    WorkingStart(s, h);
    while current.Some?
      invariant headingDetached <==> (h < at || current.None?)
      invariant current.Some? ==> Walking(s, h, at, r, current.value)
      invariant current.None? ==> StopIndex(s, h).None? && r == s[..h] + Texts(s[h..])
      decreases |r|
    {
      var cur := current.value;
      var next := NextElementSibling(r, cur);
      if next.Some? && IsHeadingLike(r[next.value].name) {
        RoundStop(s, h, at, r, cur, next.value);
        break;
      }
      ghost var r0, at0 := r, at;
      r := r[..cur] + r[cur + 1..];
      headingDetached := true;
      if next.Some? {
        at := at + (next.value - cur);
        current := Some(next.value - 1);
        RoundOn(s, h, at0, r0, cur, next.value, at, r);
      } else {
        current := None;
        RoundEnd(s, h, at0, r0, cur, r);
      }
    }
    if !headingDetached {
      r := r[..h] + r[h + 1..];
    }
  }

  // ---------------------------------------------------------------------------------------------
  // The evident intent

  /** What "remove the entire See also section" means: every element from the heading up to
      (not including) the stopping element goes; text siblings stay. */
  function SectionDropped(s: seq<Node>, h: nat): seq<Node>
    requires h < |s| && s[h].Element?
  {
    match StopIndex(s, h)
    case None => s[..h] + Texts(s[h..])
    case Some(m) => s[..h] + Texts(s[h..m]) + s[m..]
  }

  /** With the intended definition no element of the section survives: the elements left are
      those before the heading and those from the stopping element on; text siblings stay, and
      the nodes before the heading are untouched. */
  lemma SectionDroppedKeeps(s: seq<Node>, h: nat)
    requires h < |s| && s[h].Element?
    ensures SectionDropped(s, h)[..h] == s[..h]
    ensures Texts(SectionDropped(s, h)) == Texts(s)
    ensures Elements(SectionDropped(s, h)) ==
      match StopIndex(s, h)
      case None => Elements(s[..h])
      case Some(m) => Elements(s[..h]) + Elements(s[m..])
  {
    var stop := StopIndex(s, h);
    if stop.None? {
      RestShape(s, h);
    } else {
      SectionShape(s, h, stop.value);
    }
  }

  /** On the page of SeeAlsoKeepsLastList the intended pass drops the list. */
  lemma SectionDroppedDropsList()
    ensures
      var seeAlso := Element("h2", None, [], [Element("span", Some("See_also"), [], [Text("See also")])]);
      var list := Element("ul", None, [], [Element("li", None, [], [Text("Related page")])]);
      var references := Element("h2", None, [], [Element("span", Some("References"), [], [Text("References")])]);
      SectionDropped([seeAlso, list, references], 0) == [references]
  {
    var seeAlso := Element("h2", None, [], [Element("span", Some("See_also"), [], [Text("See also")])]);
    var list := Element("ul", None, [], [Element("li", None, [], [Text("Related page")])]);
    var references := Element("h2", None, [], [Element("span", Some("References"), [], [Text("References")])]);
    var s := [seeAlso, list, references];
    assert FirstHeadingLikeFrom(s, 2) == Some(2);
    assert StopIndex(s, 0) == Some(2);
    var section := [seeAlso, list];
    assert s[0..2] == section && section[1..] == [list];
    Single(list);
  }
}

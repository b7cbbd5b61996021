/** The table of contents: parents found while reading it, links set for the book, and what following them visits. */
module Navigation {
  import opened Common

  /** A flattened entry; `resource` is `None` where it has no target among the book's resources. */
  datatype TocEntry = TocEntry(title: string, depth: nat, resource: Option<nat>, fragment: Option<string>)

  datatype NavItem = NavItem(title: string, resource: nat, fragment: Option<string>, level: nat, parent: Option<nat>)

  function Level(entry: TocEntry): nat {
    if entry.depth == 0 then 0 else entry.depth - 1
  }

  /** The entries that have a target, in order. */
  function Kept(toc: seq<TocEntry>): (kept: seq<TocEntry>)
    ensures forall e :: e in kept ==> e in toc && e.resource.Some?
  {
    if toc == [] then []
    else
      var last := toc[|toc| - 1];
      Kept(toc[..|toc| - 1]) + if last.resource.Some? then [last] else []
  }

  /** The open entries, outermost first, when the first `k` kept entries have been read. */
  ghost function Open(kept: seq<TocEntry>, k: nat): (stack: seq<nat>)
    requires k <= |kept|
    ensures forall p :: 0 <= p < |stack| ==> stack[p] < k
  {
    if k == 0 then []
    else
      var outer := Open(kept, k - 1);
      outer[..Min(Level(kept[k - 1]), |outer|)] + [k - 1]
  }

  ghost function ParentOf(kept: seq<TocEntry>, k: nat): (parent: Option<nat>)
    requires k < |kept|
    ensures parent.Some? ==> parent.value < k
  {
    var level, stack := Level(kept[k]), Open(kept, k);
    if 0 < level <= |stack| then Some(stack[level - 1]) else None
  }

  ghost predicate IsItem(kept: seq<TocEntry>, k: nat, item: NavItem)
    requires k < |kept| && kept[k].resource.Some?
  {
    && item.title == kept[k].title && item.resource == kept[k].resource.value
    && item.fragment == (if kept[k].fragment == Some("") then None else kept[k].fragment)
    && item.level == Level(kept[k]) % 0x1_0000 && item.parent == ParentOf(kept, k)
  }

  /** Every entry has an earlier parent or none. */
  predicate ParentsAreEarlier(items: seq<NavItem>) {
    forall i :: 0 <= i < |items| && items[i].parent.Some? ==> items[i].parent.value < i
  }

  method ReadNavigation(toc: seq<TocEntry>) returns (items: seq<NavItem>)
    ensures |items| == |Kept(toc)| && forall k :: 0 <= k < |items| ==> IsItem(Kept(toc), k, items[k])
    ensures ParentsAreEarlier(items)
  {
    hide Open, Kept;
    items := [];
    var parents: seq<nat> := [];
    ghost var kept := Kept(toc);
    OpenStep(kept, 0);
    KeptSoFar(toc, 0);
    for i := 0 to |toc|
      invariant |items| == |Kept(toc[..i])| <= |kept| && parents == Open(kept, |items|)
      invariant forall k :: 0 <= k < |items| ==> IsItem(kept, k, items[k])
    {
      KeptSoFar(toc, i);
      var entry := toc[i];
      if entry.resource.None? { continue; }
      OpenStep(kept, |items|);
      var level := Level(entry);
      parents := parents[..Min(level, |parents|)];
      var parent := if level > 0 && level - 1 < |parents| then Some(parents[level - 1]) else None;
      var fragment := if entry.fragment == Some("") then None else entry.fragment;
      parents := parents + [|items|];
      items := items + [NavItem(entry.title, entry.resource.value, fragment, level % 0x1_0000, parent)];
    }
    assert toc[..|toc|] == toc;
  }

  lemma OpenStep(kept: seq<TocEntry>, k: nat)
    requires k <= |kept|
    ensures k == 0 ==> Open(kept, k) == []
    ensures k < |kept| ==> Open(kept, k + 1) == Open(kept, k)[..Min(Level(kept[k]), |Open(kept, k)|)] + [k]
  {
  }

  lemma KeptSoFar(toc: seq<TocEntry>, i: nat)
    requires i <= |toc|
    ensures |Kept(toc[..i])| <= |Kept(toc)| && Kept([]) == []
    ensures i < |toc| ==> |Kept(toc[..i + 1])| == |Kept(toc[..i])| + if toc[i].resource.Some? then 1 else 0
    ensures i < |toc| && toc[i].resource.Some? ==>
            |Kept(toc[..i])| < |Kept(toc)| && Kept(toc)[|Kept(toc[..i])|] == toc[i]
  {
    hide Kept;
    KeptPrefix(toc, i);
    if i < |toc| {
      KeptPrefix(toc, i + 1);
      KeptStep(toc, i);
    }
  }

  lemma KeptStep(toc: seq<TocEntry>, i: nat)
    requires i < |toc|
    ensures Kept(toc[..i + 1]) == Kept(toc[..i]) + if toc[i].resource.Some? then [toc[i]] else []
    ensures Kept([]) == []
  {
    assert toc[..i + 1][..i] == toc[..i];
  }

  lemma {:induction false} KeptPrefix(toc: seq<TocEntry>, i: nat)
    requires i <= |toc|
    ensures |Kept(toc[..i])| <= |Kept(toc)| && Kept(toc[..i]) == Kept(toc)[..|Kept(toc[..i])|]
    ensures Kept([]) == []
    decreases |toc| - i
  {
    hide Kept;
    if i == |toc| {
      assert toc[..i] == toc;
      KeptNothing();
    } else {
      KeptPrefix(toc, i + 1);
      KeptStep(toc, i);
      var shorter, longer := Kept(toc[..i]), Kept(toc[..i + 1]);
      assert shorter == longer[..|shorter|];
    }
  }

  lemma KeptNothing()
    ensures Kept([]) == []
  {
  }

  // ---- Well nested contents ----

  /** Levels start at zero and go down by one at most from an entry to the next. */
  ghost predicate Nested(kept: seq<TocEntry>) {
    && (kept != [] ==> Level(kept[0]) == 0)
    && forall k :: 0 < k < |kept| ==> Level(kept[k]) <= Level(kept[k - 1]) + 1
  }

  /** `j` is the entry the `k`th one belongs to: the last one before it that is further out. */
  ghost predicate Encloses(kept: seq<TocEntry>, j: nat, k: nat)
    requires k < |kept|
  {
    && j < k && Level(kept[j]) + 1 == Level(kept[k])
    && forall i :: j < i < k ==> Level(kept[i]) >= Level(kept[k])
  }

  lemma {:induction false} OpenEntries(kept: seq<TocEntry>, k: nat, p: nat)
    requires Nested(kept) && 0 < k <= |kept| && p <= Level(kept[k - 1])
    ensures |Open(kept, k)| == Level(kept[k - 1]) + 1
    ensures Level(kept[Open(kept, k)[p]]) == p
    ensures forall i :: Open(kept, k)[p] < i < k ==> Level(kept[i]) > p
  {
    if k > 1 {
      OpenEntries(kept, k - 1, Min(p, Level(kept[k - 2])));
    }
  }

  /** In well nested contents the parent is the entry that encloses this one, if any does. */
  lemma ParentEncloses(kept: seq<TocEntry>, k: nat)
    requires Nested(kept) && k < |kept|
    ensures ParentOf(kept, k).None? <==> Level(kept[k]) == 0
    ensures ParentOf(kept, k).Some? ==> Encloses(kept, ParentOf(kept, k).value, k)
  {
    if k > 0 && Level(kept[k]) > 0 {
      OpenEntries(kept, k, Level(kept[k]) - 1);
    }
  }

  // ---- Entries without a target ----

  /** How many entries before `k` have a target. */
  function KeptIndex(toc: seq<TocEntry>, k: nat): nat
    requires k <= |toc|
  {
    |Kept(toc[..k])|
  }

  lemma {:induction false} KeptIndexRises(toc: seq<TocEntry>, j: nat, k: nat)
    requires j < k <= |toc|
    ensures KeptIndex(toc, j) <= KeptIndex(toc, k)
    ensures toc[j].resource.Some? ==> KeptIndex(toc, j) < KeptIndex(toc, k)
  {
    hide Kept;
    KeptStep(toc, k - 1);
    if j < k - 1 { KeptIndexRises(toc, j, k - 1); }
  }

  /** Where the `i`th kept entry stands in the contents. */
  lemma {:induction false} KeptSource(toc: seq<TocEntry>, i: nat) returns (k: nat)
    requires i < |Kept(toc)|
    ensures k < |toc| && toc[k].resource.Some? && KeptIndex(toc, k) == i && Kept(toc)[i] == toc[k]
  {
    var n := |toc| - 1;
    if i < |Kept(toc[..n])| {
      k := KeptSource(toc[..n], i);
      assert toc[..n][..k] == toc[..k];
    } else {
      k := n;
    }
    KeptSoFar(toc, k);
  }

  /** An entry that is not at the top is enclosed by one that has a target. */
  ghost predicate EncloserHasTarget(toc: seq<TocEntry>, k: nat)
    requires k < |toc|
  {
    forall j: nat :: j < k && Encloses(toc, j, k) ==> toc[j].resource.Some?
  }

  /** The item of entry `k` has the item of the entry that encloses it as its parent, or none at the top. */
  ghost predicate FiledRight(toc: seq<TocEntry>, items: seq<NavItem>, k: nat)
    requires k < |toc| && KeptIndex(toc, k) < |items|
  {
    var parent := items[KeptIndex(toc, k)].parent;
    if Level(toc[k]) == 0 then parent == None
    else exists j: nat :: j < k && Encloses(toc, j, k) && toc[j].resource.Some? && parent == Some(KeptIndex(toc, j))
  }

  /** Where no entry with a target is enclosed by one without, the kept entries are well nested, too. */
  lemma KeptIsNested(toc: seq<TocEntry>)
    requires Nested(toc)
    requires forall k :: 0 <= k < |toc| && toc[k].resource.Some? ==> EncloserHasTarget(toc, k)
    ensures Nested(Kept(toc))
  {
    hide Nested, Kept, ParentOf;
    var kept := Kept(toc);
    forall i | 0 <= i < |kept|
      ensures Follows(kept, i)
    {
      KeptFollows(toc, i);
    }
    NestedIfFollowing(kept);
  }

  lemma NestedIfFollowing(kept: seq<TocEntry>)
    requires forall i :: 0 <= i < |kept| ==> Follows(kept, i)
    ensures Nested(kept)
  {
    if kept != [] { assert Follows(kept, 0); }
    forall i | 0 < i < |kept|
      ensures Level(kept[i]) <= Level(kept[i - 1]) + 1
    {
      assert Follows(kept, i);
    }
  }

  /** Entry `i` is at the top, or at most one level further in than the one before. */
  ghost predicate Follows(kept: seq<TocEntry>, i: nat)
    requires i < |kept|
  {
    Level(kept[i]) == 0 || (i > 0 && Level(kept[i]) <= Level(kept[i - 1]) + 1)
  }

  lemma KeptFollows(toc: seq<TocEntry>, i: nat)
    requires Nested(toc) && i < |Kept(toc)|
    requires forall k :: 0 <= k < |toc| && toc[k].resource.Some? ==> EncloserHasTarget(toc, k)
    ensures Follows(Kept(toc), i)
  {
    hide Nested, Kept, ParentOf, KeptIndex;
    var k := KeptSource(toc, i);
    if Level(toc[k]) > 0 {
      ParentEncloses(toc, k);
      var e := ParentOf(toc, k).value;
      assert EncloserHasTarget(toc, k);
      KeptIndexRises(toc, e, k);
      var p := KeptSource(toc, i - 1);
      if p < e { KeptIndexRises(toc, p, e); }
      if k <= p && k < p { KeptIndexRises(toc, k, p); }
    }
  }

  /** An entry's encloser, if it has a target, encloses it among the kept entries. */
  lemma EnclosesAmongKept(toc: seq<TocEntry>, j: nat, k: nat)
    requires k < |toc| && toc[k].resource.Some? && Encloses(toc, j, k) && toc[j].resource.Some?
    ensures KeptIndex(toc, k) < |Kept(toc)| && Kept(toc)[KeptIndex(toc, k)] == toc[k]
    ensures Encloses(Kept(toc), KeptIndex(toc, j), KeptIndex(toc, k))
  {
    hide Kept, KeptIndex;
    KeptSoFarAt(toc, j);
    KeptSoFarAt(toc, k);
    KeptIndexRises(toc, j, k);
    var a, b := KeptIndex(toc, j), KeptIndex(toc, k);
    forall i | a < i < b
      ensures Level(Kept(toc)[i]) >= Level(Kept(toc)[b])
    {
      var s := KeptSource(toc, i);
      if s < j { KeptIndexRises(toc, s, j); }
      if k < s { KeptIndexRises(toc, k, s); }
    }
  }

  lemma KeptEntryIsFiledRight(toc: seq<TocEntry>, items: seq<NavItem>, k: nat)
    requires Nested(toc) && ItemsOf(Kept(toc), items) && k < |toc| && toc[k].resource.Some?
    requires forall i :: 0 <= i < |toc| && toc[i].resource.Some? ==> EncloserHasTarget(toc, i)
    ensures KeptIndex(toc, k) < |items| && FiledRight(toc, items, k)
  {
    hide Nested, Kept, ParentOf, KeptIndex;
    var i := KeptIndex(toc, k);
    KeptSoFarAt(toc, k);
    KeptIsNested(toc);
    ParentEncloses(Kept(toc), i);
    if Level(toc[k]) > 0 {
      ParentEncloses(toc, k);
      var e := ParentOf(toc, k).value;
      assert EncloserHasTarget(toc, k);
      EnclosesAmongKept(toc, e, k);
      OneEncloses(Kept(toc), KeptIndex(toc, e), ParentOf(Kept(toc), i).value, i);
    }
  }

  lemma KeptSoFarAt(toc: seq<TocEntry>, k: nat)
    requires k < |toc| && toc[k].resource.Some?
    ensures KeptIndex(toc, k) < |Kept(toc)| && Kept(toc)[KeptIndex(toc, k)] == toc[k]
  {
    KeptSoFar(toc, k);
  }

  /**
   For all well nested contents: every item has the item of the entry that encloses it in the contents as its
   parent, if and only if no entry with a target is enclosed by an entry without one.
   */
  lemma ParentsAreEnclosers(toc: seq<TocEntry>, items: seq<NavItem>)
    requires Nested(toc) && ItemsOf(Kept(toc), items)
    ensures forall k :: 0 <= k < |toc| && toc[k].resource.Some? ==> KeptIndex(toc, k) < |items|
    ensures (forall k :: 0 <= k < |toc| && toc[k].resource.Some? ==> FiledRight(toc, items, k)) <==>
            (forall k :: 0 <= k < |toc| && toc[k].resource.Some? ==> EncloserHasTarget(toc, k))
  {
    hide Nested, Kept, ParentOf, KeptIndex;
    forall k | 0 <= k < |toc| && toc[k].resource.Some?
      ensures KeptIndex(toc, k) < |items|
    {
      KeptSoFarAt(toc, k);
    }
    if forall k :: 0 <= k < |toc| && toc[k].resource.Some? ==> EncloserHasTarget(toc, k) {
      forall k | 0 <= k < |toc| && toc[k].resource.Some?
        ensures FiledRight(toc, items, k)
      {
        KeptEntryIsFiledRight(toc, items, k);
      }
    }
    if forall k :: 0 <= k < |toc| && toc[k].resource.Some? ==> FiledRight(toc, items, k) {
      forall k | 0 <= k < |toc| && toc[k].resource.Some?
        ensures EncloserHasTarget(toc, k)
      {
        RightHasTarget(toc, items, k);
      }
    }
  }

  lemma RightHasTarget(toc: seq<TocEntry>, items: seq<NavItem>, k: nat)
    requires k < |toc| && KeptIndex(toc, k) < |items| && FiledRight(toc, items, k)
    ensures EncloserHasTarget(toc, k)
  {
    hide Kept;
    forall j: nat | j < k && Encloses(toc, j, k)
      ensures toc[j].resource.Some?
    {
      var e: nat :| e < k && Encloses(toc, e, k) && toc[e].resource.Some?;
      OneEncloses(toc, j, e, k);
    }
  }

  /** The child of an entry that is skipped is filed under the entry before that one. */
  lemma SkippedEntryLosesItsChild(a: TocEntry, b: TocEntry, c: TocEntry)
    requires a.depth == b.depth == 1 && c.depth == 2
    requires a.resource.Some? && b.resource.None? && c.resource.Some?
    ensures Kept([a, b, c]) == [a, c] && ParentOf(Kept([a, b, c]), 1) == Some(0)
  {
    assert [a, b, c][..2] == [a, b] && [a, b][..1] == [a] && [a][..0] == [];
    assert Kept([a]) == [a] && Kept([a, b]) == [a];
    var kept := [a, c];
    assert Open(kept, 1) == [0];
  }

  /** An entry may lose its parent although that is kept, because the one further out was skipped. */
  lemma SkippedEntryHarmsFurtherDown(a: TocEntry, b: TocEntry, c: TocEntry, d: TocEntry)
    requires a.depth == 1 && b.depth == 2 && c.depth == 3 && d.depth == 4
    requires a.resource.Some? && b.resource.None? && c.resource.Some? && d.resource.Some?
    ensures Nested([a, b, c, d]) && Encloses([a, b, c, d], 2, 3)
    ensures Kept([a, b, c, d]) == [a, c, d] && ParentOf(Kept([a, b, c, d]), 2) == None
  {
    hide Kept;
    var toc := [a, b, c, d];
    KeptStep(toc, 3);
    KeptStep(toc, 2);
    KeptStep(toc, 1);
    KeptStep(toc, 0);
    assert toc[..4] == toc && toc[..0] == [];
    var kept := [a, c, d];
    assert Open(kept, 1) == [0] && Open(kept, 2) == [0, 1];
  }

  // ---- Links ----

  datatype Links = Links(target: nat, parent: Option<nat>, firstChild: Option<nat>, nextSibling: Option<nat>)

  /** The first entry from `from` on that has this parent. */
  function FirstFrom(items: seq<NavItem>, from: nat, parent: Option<nat>): (found: Option<nat>)
    ensures found.Some? ==> from <= found.value < |items|
    ensures match found
            case Some(i) =>
              && items[i].parent == parent
              && forall j :: from <= j < i ==> items[j].parent != parent
            case None => forall j :: from <= j < |items| ==> items[j].parent != parent
    decreases if from < |items| then |items| - from else 0
  {
    if from >= |items| then None
    else if items[from].parent == parent then Some(from)
    else FirstFrom(items, from + 1, parent)
  }

  function LinksFor(items: seq<NavItem>, index: nat, anchors: map<(nat, string), nat>): Links
    requires index < |items|
  {
    var item := items[index];
    var target := if item.fragment.Some? && (item.resource, item.fragment.value) in anchors
                  then anchors[(item.resource, item.fragment.value)] else 0;
    Links(target, item.parent, FirstFrom(items, 0, Some(index)), FirstFrom(items, index + 1, item.parent))
  }

  predicate Linked(items: seq<NavItem>, links: seq<Links>) {
    && |links| == |items|
    && forall i :: 0 <= i < |links| ==>
         && links[i].parent == items[i].parent
         && links[i].firstChild == FirstFrom(items, 0, Some(i))
         && links[i].nextSibling == FirstFrom(items, i + 1, items[i].parent)
  }

  /** An entry leads to the page of its anchor, and to the first page where it has none. */
  ghost predicate Targeted(items: seq<NavItem>, links: seq<Links>, anchors: map<(nat, string), nat>) {
    && |links| == |items|
    && forall i :: 0 <= i < |links| ==>
         && (forall name :: items[i].fragment == Some(name) && (items[i].resource, name) in anchors ==>
               links[i].target == anchors[(items[i].resource, name)])
         && (items[i].fragment == None ==> links[i].target == 0)
         && (forall name :: items[i].fragment == Some(name) && (items[i].resource, name) !in anchors ==>
               links[i].target == 0)
  }

  /** What the book's writer demands of every entry. */
  predicate Acceptable(links: seq<Links>, pages: nat) {
    forall i :: 0 <= i < |links| ==>
      && links[i].target < pages
      && (links[i].parent.Some? ==> links[i].parent.value < |links|)
      && (links[i].firstChild.Some? ==> links[i].firstChild.value < |links|)
      && (links[i].nextSibling.Some? ==> links[i].nextSibling.value < |links|)
  }

  /** Sets the links; the writer's checks cannot fail where all anchors name pages. */
  method AddNavigation(items: seq<NavItem>, anchors: map<(nat, string), nat>) returns (links: seq<Links>)
    requires ParentsAreEarlier(items)
    ensures Linked(items, links)
    ensures forall i :: 0 <= i < |links| ==> links[i] == LinksFor(items, i, anchors)
    ensures Targeted(items, links, anchors)
    ensures forall pages: nat :: pages > 0 && (forall a :: a in anchors ==> anchors[a] < pages) ==>
            Acceptable(links, pages)
  {
    links := [];
    for i := 0 to |items|
      invariant |links| == i && forall k :: 0 <= k < i ==> links[k] == LinksFor(items, k, anchors)
    {
      links := links + [LinksFor(items, i, anchors)];
    }
  }

  // ---- Following the links ----

  /** Following links leads on. */
  predicate Forward(links: seq<Links>) {
    forall i :: 0 <= i < |links| ==>
      && (links[i].firstChild.Some? ==> i < links[i].firstChild.value < |links|)
      && (links[i].nextSibling.Some? ==> i < links[i].nextSibling.value < |links|)
  }

  lemma LinkedIsForward(items: seq<NavItem>, links: seq<Links>)
    requires ParentsAreEarlier(items) && Linked(items, links)
    ensures Forward(links)
  {
    forall i | 0 <= i < |links|
      ensures links[i].firstChild.Some? ==> i < links[i].firstChild.value < |links|
    {
      if links[i].firstChild.Some? {
        assert items[links[i].firstChild.value].parent == Some(i);
      }
    }
  }

  /** An entry and its later siblings. */
  function Siblings(links: seq<Links>, at: Option<nat>): seq<nat>
    requires Forward(links) && (at.Some? ==> at.value < |links|)
    decreases if at.Some? then |links| - at.value else 0
  {
    if at.None? then [] else [at.value] + Siblings(links, links[at.value].nextSibling)
  }

  lemma SiblingsStep(links: seq<Links>, at: Option<nat>)
    requires Forward(links) && (at.Some? ==> at.value < |links|)
    ensures Siblings(links, at) == if at.None? then [] else [at.value] + Siblings(links, links[at.value].nextSibling)
  {
  }

  /** All entries with this parent from `from` on, in order. */
  function Children(items: seq<NavItem>, from: nat, parent: Option<nat>): seq<nat>
    decreases if from < |items| then |items| - from else 0
  {
    if from >= |items| then []
    else (if items[from].parent == parent then [from] else []) + Children(items, from + 1, parent)
  }

  lemma {:induction false} ChildrenFromFirst(items: seq<NavItem>, from: nat, parent: Option<nat>)
    ensures match FirstFrom(items, from, parent)
            case None => Children(items, from, parent) == []
            case Some(i) => Children(items, from, parent) == [i] + Children(items, i + 1, parent)
    decreases if from < |items| then |items| - from else 0
  {
    if from < |items| { ChildrenFromFirst(items, from + 1, parent); }
  }

  lemma {:induction false} SiblingsAreChildren(items: seq<NavItem>, links: seq<Links>, from: nat, parent: Option<nat>)
    requires ParentsAreEarlier(items) && Linked(items, links) && Forward(links)
    ensures Siblings(links, FirstFrom(items, from, parent)) == Children(items, from, parent)
    decreases if from < |items| then |items| - from else 0
  {
    ChildrenFromFirst(items, from, parent);
    hide Children, Siblings, FirstFrom, ParentsAreEarlier, Linked, Forward;
    var first := FirstFrom(items, from, parent);
    if first.None? {
      SiblingsStep(links, None);
    } else {
      LinksAt(items, links, first.value);
      SiblingsStep(links, first);
      SiblingsAreChildren(items, links, first.value + 1, parent);
    }
  }

  /** First child, then siblings: the children of an entry, once each and in order. */
  lemma ChildrenAreListed(items: seq<NavItem>, links: seq<Links>, i: nat)
    requires ParentsAreEarlier(items) && Linked(items, links) && i < |items|
    ensures Forward(links) && Siblings(links, links[i].firstChild) == Children(items, 0, Some(i))
  {
    LinkedIsForward(items, links);
    SiblingsAreChildren(items, links, 0, Some(i));
  }

  /** The walk: an entry, what is below it, then its later siblings. */
  function Walk(links: seq<Links>, at: Option<nat>): seq<nat>
    requires Forward(links) && (at.Some? ==> at.value < |links|)
    decreases if at.Some? then |links| - at.value else 0
  {
    if at.None? then []
    else [at.value] + Walk(links, links[at.value].firstChild) + Walk(links, links[at.value].nextSibling)
  }

  /** The one of `j` and the entries it lies under that has this parent. */
  ghost function Ancestor(items: seq<NavItem>, j: nat, parent: Option<nat>): (a: Option<nat>)
    requires ParentsAreEarlier(items) && j < |items|
    ensures a.Some? ==> a.value <= j && items[a.value].parent == parent
    ensures parent.None? ==> a.Some?
    decreases j
  {
    if items[j].parent == parent then Some(j)
    else if items[j].parent.None? then None
    else Ancestor(items, items[j].parent.value, parent)
  }

  /** To lie under the sibling `i` is to be `i` or to lie under one of its children. */
  lemma {:induction false} AncestorIsSelfOrAbove(items: seq<NavItem>, i: nat, j: nat)
    requires ParentsAreEarlier(items) && i < |items| && j < |items|
    ensures Ancestor(items, j, items[i].parent) == Some(i) <==> j == i || Ancestor(items, j, Some(i)).Some?
    ensures j == i ==> Ancestor(items, j, Some(i)).None?
    decreases j
  {
    if items[j].parent.Some? {
      AncestorIsSelfOrAbove(items, i, items[j].parent.value);
    }
    if i == j { NotBelowItself(items, i, i); }
  }

  lemma {:induction false} NotBelowItself(items: seq<NavItem>, i: nat, j: nat)
    requires ParentsAreEarlier(items) && j <= i < |items|
    ensures Ancestor(items, j, Some(i)).None?
    decreases j
  {
    if items[j].parent.Some? { NotBelowItself(items, i, items[j].parent.value); }
  }

  /** A walk from the first entry from `from` on with this parent visits what lies under those entries, once each. */
  lemma {:induction false} WalkVisits(items: seq<NavItem>, links: seq<Links>, from: nat, parent: Option<nat>, j: nat)
    requires ParentsAreEarlier(items) && Linked(items, links) && Forward(links) && j < |items|
    ensures multiset(Walk(links, FirstFrom(items, from, parent)))[j] == Below(items, from, parent, j)
    decreases match FirstFrom(items, from, parent) case Some(i) => |items| - i case None => 0
  {
    hide Below, Walk, FirstFrom, ParentsAreEarlier, Linked, Forward;
    var first := FirstFrom(items, from, parent);
    BelowFirst(items, from, parent, j);
    if first.Some? {
      var i := first.value;
      LinksAt(items, links, i);
      WalkVisits(items, links, 0, Some(i), j);
      WalkVisits(items, links, i + 1, parent, j);
      WalkCount(links, i, j);
    } else {
      WalkNowhere(links);
    }
  }

  lemma LinksAt(items: seq<NavItem>, links: seq<Links>, i: nat)
    requires ParentsAreEarlier(items) && Linked(items, links) && i < |items|
    ensures |links| == |items|
    ensures links[i].firstChild == FirstFrom(items, 0, Some(i))
    ensures links[i].nextSibling == FirstFrom(items, i + 1, items[i].parent)
    ensures links[i].firstChild.Some? ==> links[i].firstChild.value > i
  {
    LinkedIsForward(items, links);
  }

  lemma WalkNowhere(links: seq<Links>)
    requires Forward(links)
    ensures Walk(links, None) == []
  {
  }

  lemma WalkCount(links: seq<Links>, i: nat, j: nat)
    requires Forward(links) && i < |links|
    ensures multiset(Walk(links, Some(i)))[j] ==
            (if i == j then 1 else 0)
            + multiset(Walk(links, links[i].firstChild))[j] + multiset(Walk(links, links[i].nextSibling))[j]
  {
    var x, y := Walk(links, links[i].firstChild), Walk(links, links[i].nextSibling);
    hide Walk, Forward;
    assert multiset([i] + x + y) == multiset{i} + multiset(x) + multiset(y);
  }

  /** One if `j` is, or lies under, an entry from `from` on with this parent. */
  ghost function Below(items: seq<NavItem>, from: nat, parent: Option<nat>, j: nat): nat
    requires ParentsAreEarlier(items) && j < |items|
  {
    var a := Ancestor(items, j, parent);
    if a.Some? && a.value >= from then 1 else 0
  }

  lemma BelowFirst(items: seq<NavItem>, from: nat, parent: Option<nat>, j: nat)
    requires ParentsAreEarlier(items) && j < |items|
    ensures match FirstFrom(items, from, parent)
            case None => Below(items, from, parent, j) == 0
            case Some(i) =>
              Below(items, from, parent, j) ==
              (if i == j then 1 else 0) + Below(items, 0, Some(i), j) + Below(items, i + 1, parent, j)
  {
    hide ParentsAreEarlier, FirstFrom;
    var first := FirstFrom(items, from, parent);
    if first.Some? { AncestorIsSelfOrAbove(items, first.value, j); }
  }

  /** The walk from the first root visits every entry exactly once: the links make a forest. */
  lemma EveryEntryOnce(items: seq<NavItem>, links: seq<Links>, j: nat)
    requires ParentsAreEarlier(items) && Linked(items, links) && j < |items|
    ensures Forward(links) && links[0].parent.None?
    ensures multiset(Walk(links, Some(0)))[j] == 1
  {
    LinkedIsForward(items, links);
    assert FirstFrom(items, 0, None) == Some(0);
    WalkVisits(items, links, 0, None, j);
  }

  // ---- Document order ----

  function Span(from: nat, end: nat): seq<nat>
    requires from <= end
    decreases end - from
  {
    if from == end then [] else [from] + Span(from + 1, end)
  }

  lemma {:induction false} SpanJoin(a: nat, b: nat, c: nat)
    requires a <= b <= c
    ensures Span(a, b) + Span(b, c) == Span(a, c)
    decreases b - a
  {
    if a < b {
      SpanJoin(a + 1, b, c);
      assert [a] + Span(a + 1, b) + Span(b, c) == [a] + (Span(a + 1, b) + Span(b, c));
    }
  }

  /** Where the siblings of an entry and all that lies under them end: the next entry further out. */
  ghost function EndOf(kept: seq<TocEntry>, level: nat, from: nat): (end: nat)
    requires from <= |kept|
    ensures from <= end <= |kept| && (end < |kept| ==> Level(kept[end]) < level)
    ensures forall i :: from <= i < end ==> Level(kept[i]) >= level
    decreases |kept| - from
  {
    if from == |kept| || Level(kept[from]) < level then from else EndOf(kept, level, from + 1)
  }

  ghost predicate ItemsOf(kept: seq<TocEntry>, items: seq<NavItem>) {
    |items| == |kept| && forall k :: 0 <= k < |items| ==> items[k].parent == ParentOf(kept, k)
  }

  /** The next entry at the same level or further out decides what the sibling is. */
  lemma NextAtLevel(kept: seq<TocEntry>, items: seq<NavItem>, i: nat)
    requires Nested(kept) && ItemsOf(kept, items) && ParentsAreEarlier(items) && i < |kept|
    ensures var level := Level(kept[i]);
            var below := EndOf(kept, level + 1, i + 1);
            && FirstFrom(items, 0, Some(i)) == (if below == i + 1 then None else Some(i + 1))
            && FirstFrom(items, i + 1, items[i].parent) ==
               (if below < |kept| && Level(kept[below]) == level then Some(below) else None)
  {
    hide EndOf, ParentOf, Nested;
    var below := EndOf(kept, Level(kept[i]) + 1, i + 1);
    forall k | 0 <= k < |kept|
      ensures items[k].parent == Some(i) <==> Encloses(kept, i, k)
      ensures items[k].parent == Some(i) ==> i < k < below
      ensures k == i + 1 < below ==> items[k].parent == Some(i)
      ensures i < k < below ==> items[k].parent != items[i].parent
      ensures k == below ==> (Level(kept[k]) == Level(kept[i]) <==> items[k].parent == items[i].parent)
      ensures k >= below && Level(kept[below]) < Level(kept[i]) ==> items[k].parent != items[i].parent
    {
      ParentNear(kept, i, k);
      if i < k { ParentsNear(kept, i, k); }
    }
    assert i + 1 < below ==> items[i + 1].parent == Some(i);
  }

  /** Only what lies between an entry and the next one at its level or further out can be its child. */
  lemma ParentNear(kept: seq<TocEntry>, i: nat, k: nat)
    requires Nested(kept) && i < |kept| && k < |kept|
    ensures ParentOf(kept, k) == Some(i) <==> Encloses(kept, i, k)
    ensures Encloses(kept, i, k) ==> i < k < EndOf(kept, Level(kept[i]) + 1, i + 1)
    ensures k == i + 1 < EndOf(kept, Level(kept[i]) + 1, i + 1) ==> Encloses(kept, i, k)
  {
    hide ParentOf;
    ParentEncloses(kept, k);
    if Encloses(kept, i, k) && ParentOf(kept, k).Some? {
      OneEncloses(kept, i, ParentOf(kept, k).value, k);
    }
  }

  lemma OneEncloses(kept: seq<TocEntry>, i: nat, j: nat, k: nat)
    requires k < |kept| && Encloses(kept, i, k) && Encloses(kept, j, k)
    ensures i == j
  {
  }

  /** Two entries have the same parent exactly where no entry further out than either lies between them. */
  lemma ParentsNear(kept: seq<TocEntry>, i: nat, k: nat)
    requires Nested(kept) && i < k < |kept|
    ensures var below := EndOf(kept, Level(kept[i]) + 1, i + 1);
            && (k < below ==> ParentOf(kept, k) != ParentOf(kept, i))
            && (k == below ==> (Level(kept[k]) == Level(kept[i]) <==> ParentOf(kept, k) == ParentOf(kept, i)))
            && (k >= below && Level(kept[below]) < Level(kept[i]) ==> ParentOf(kept, k) != ParentOf(kept, i))
  {
    hide ParentOf, Nested;
    ParentEncloses(kept, i);
    ParentEncloses(kept, k);
    if k == EndOf(kept, Level(kept[i]) + 1, i + 1) && Level(kept[k]) == Level(kept[i]) > 0 {
      assert Encloses(kept, ParentOf(kept, k).value, k);
      assert Encloses(kept, ParentOf(kept, i).value, i);
      assert Encloses(kept, ParentOf(kept, i).value, k);
      OneEncloses(kept, ParentOf(kept, i).value, ParentOf(kept, k).value, k);
    }
  }

  /** In well nested contents the walk goes through the document in order. */
  lemma {:induction false} WalkInOrder(kept: seq<TocEntry>, items: seq<NavItem>, links: seq<Links>, i: nat)
    requires Nested(kept) && ItemsOf(kept, items) && ParentsAreEarlier(items) && Linked(items, links) && Forward(links)
    requires i < |kept| == |items| == |links|
    ensures Walk(links, Some(i)) == Span(i, EndOf(kept, Level(kept[i]), i))
    decreases |kept| - i
  {
    hide Walk, Span, Nested, ItemsOf, ParentsAreEarlier, Linked, Forward, FirstFrom, EndOf;
    var level := Level(kept[i]);
    var below, end := EndOf(kept, level + 1, i + 1), EndOf(kept, level, i);
    NextAtLevel(kept, items, i);
    LinksAt(items, links, i);
    WalkStep(links, i);
    EndsMeet(kept, i);
    if below > i + 1 { WalkInOrder(kept, items, links, i + 1); }
    if below < |kept| && Level(kept[below]) == level { WalkInOrder(kept, items, links, below); }
    SpanStep(i, end);
    SpanJoin(i + 1, below, end);
    assert [i] + Span(i + 1, below) + Span(below, end) == [i] + (Span(i + 1, below) + Span(below, end));
  }

  lemma WalkStep(links: seq<Links>, i: nat)
    requires Forward(links) && i < |links|
    ensures Walk(links, None) == []
    ensures Walk(links, Some(i)) == [i] + Walk(links, links[i].firstChild) + Walk(links, links[i].nextSibling)
  {
  }

  lemma SpanStep(from: nat, end: nat)
    requires from < end
    ensures Span(from, end) == [from] + Span(from + 1, end) && Span(end, end) == Span(from, from) == []
  {
  }

  lemma EndsMeet(kept: seq<TocEntry>, i: nat)
    requires Nested(kept) && i < |kept|
    ensures var level := Level(kept[i]);
            var below, end := EndOf(kept, level + 1, i + 1), EndOf(kept, level, i);
            && i < below <= end
            && (below < |kept| && Level(kept[below]) == level ==> end == EndOf(kept, level, below))
            && (below == |kept| || Level(kept[below]) < level ==> end == below)
            && (i + 1 < below ==> Level(kept[i + 1]) == level + 1)
  {
    EndIsUnique(kept, Level(kept[i]), i);
  }

  lemma {:induction false} EndIsUnique(kept: seq<TocEntry>, level: nat, from: nat)
    requires from < |kept| && Level(kept[from]) >= level
    ensures EndOf(kept, level, from) == EndOf(kept, level, EndOf(kept, level + 1, from + 1))
    ensures EndOf(kept, level, from) >= EndOf(kept, level + 1, from + 1)
    decreases |kept| - from
  {
    if from + 1 < |kept| && Level(kept[from + 1]) > level { EndIsUnique(kept, level, from + 1); }
  }
  /** Reading, linking and following the links of well nested contents gives the contents in their own order. */
  lemma {:induction false} ContentsInOrder(toc: seq<TocEntry>, items: seq<NavItem>, links: seq<Links>)
    requires Nested(Kept(toc)) && ParentsAreEarlier(items) && Linked(items, links) && items != []
    requires |items| == |Kept(toc)| && forall k :: 0 <= k < |items| ==> IsItem(Kept(toc), k, items[k])
    ensures Forward(links) && Walk(links, Some(0)) == Span(0, |items|)
  {
    LinkedIsForward(items, links);
    WalkInOrder(Kept(toc), items, links, 0);
  }
}

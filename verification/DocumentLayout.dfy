/** A whole document: its spine on pages, the pages that are kept, and the output pages the anchors end up naming. */
module DocumentLayout {
  import opened Common
  import opened Pagination

  datatype SpineItem = SpineItem(resource: nat, linear: bool, root: Node)

  const DEFAULT_STYLE := Style("", false, false, 0)

  /** The flow of the linear items, in order. */
  function DocumentFlow(spine: seq<SpineItem>): seq<Mark> {
    if spine == [] then []
    else
      var n := |spine| - 1;
      DocumentFlow(spine[..n]) + if spine[n].linear then Flow(spine[n].root, DEFAULT_STYLE, n) else []
  }

  ghost function DocumentPlaces(spine: seq<SpineItem>): map<AnchorKey, nat> {
    if spine == [] then map[]
    else
      var n := |spine| - 1;
      var places := DocumentPlaces(spine[..n]);
      if spine[n].linear then
        Places(spine[n].root, spine[n].resource, DEFAULT_STYLE, n, |DocumentFlow(spine[..n])|, places)
      else places
  }

  ghost function DocumentBreaks(spine: seq<SpineItem>): set<nat> {
    if spine == [] then {}
    else
      var n := |spine| - 1;
      DocumentBreaks(spine[..n]) +
      if spine[n].linear then Breaks(spine[n].root, DEFAULT_STYLE, n, |DocumentFlow(spine[..n])|) else {}
  }

  function DocumentWarned(spine: seq<SpineItem>): seq<Warning> {
    if spine == [] then []
    else
      var n := |spine| - 1;
      DocumentWarned(spine[..n]) + if spine[n].linear then Warned(spine[n].root, spine[n].resource, n) else []
  }

  lemma NextItem(spine: seq<SpineItem>, i: nat)
    requires i < |spine|
    ensures var flow, at := DocumentFlow(spine[..i]), |DocumentFlow(spine[..i])|;
            var (root, resource) := (spine[i].root, spine[i].resource);
            if spine[i].linear then
              && DocumentFlow(spine[..i + 1]) == flow + Flow(root, DEFAULT_STYLE, i)
              && DocumentPlaces(spine[..i + 1]) ==
                 Places(root, resource, DEFAULT_STYLE, i, at, DocumentPlaces(spine[..i]))
              && DocumentBreaks(spine[..i + 1]) == DocumentBreaks(spine[..i]) + Breaks(root, DEFAULT_STYLE, i, at)
              && DocumentWarned(spine[..i + 1]) == DocumentWarned(spine[..i]) + Warned(root, resource, i)
            else
              && DocumentFlow(spine[..i + 1]) == flow && DocumentPlaces(spine[..i + 1]) == DocumentPlaces(spine[..i])
              && DocumentBreaks(spine[..i + 1]) == DocumentBreaks(spine[..i])
              && DocumentWarned(spine[..i + 1]) == DocumentWarned(spine[..i])
  {
    hide Flow, Places, Breaks, Warned;
    assert spine[..i + 1][..i] == spine[..i];
  }

  /** `None` when no item is linear. */
  method LayOut(spine: seq<SpineItem>) returns (r: Option<Pages>)
    ensures r.None? <==> forall i :: 0 <= i < |spine| ==> !spine[i].linear
    ensures r.Some? ==> fresh(r.value) && r.value.Valid() && r.value.Tight()
    ensures r.Some? ==> r.value.Held() == DocumentFlow(spine) && r.value.places == DocumentPlaces(spine)
    ensures r.Some? ==> r.value.breaks == DocumentBreaks(spine) && r.value.warnings == DocumentWarned(spine)
  {
    hide DocumentFlow, DocumentPlaces, DocumentBreaks, DocumentWarned, Pages.Valid, Pages.Tight, Pages.Held;
    NoItems();
    r := None;
    for i := 0 to |spine|
      invariant r.None? <==> forall j :: 0 <= j < i ==> !spine[j].linear
      invariant r.None? ==> DocumentFlow(spine[..i]) == [] && DocumentPlaces(spine[..i]) == map[]
      invariant r.None? ==> DocumentBreaks(spine[..i]) == {} && DocumentWarned(spine[..i]) == []
      invariant r.Some? ==> fresh(r.value) && r.value.Valid() && r.value.Tight()
      invariant r.Some? ==> r.value.Held() == DocumentFlow(spine[..i]) && r.value.places == DocumentPlaces(spine[..i])
      invariant r.Some? ==>
                  r.value.breaks == DocumentBreaks(spine[..i]) && r.value.warnings == DocumentWarned(spine[..i])
    {
      NextItem(spine, i);
      if !spine[i].linear { continue; }
      if r.None? {
        var pages := new Pages();
        r := Some(pages);
      }
      r.value.Visit(spine[i].root, DEFAULT_STYLE, spine[i].resource, i);
    }
    assert spine[..|spine|] == spine;
  }

  lemma NoItems()
    ensures DocumentFlow([]) == [] && DocumentPlaces([]) == map[]
    ensures DocumentBreaks([]) == {} && DocumentWarned([]) == []
  {
  }

  predicate Blank(page: Page) {
    page.spans == [] && page.artwork.None?
  }

  /** Blank pages at the end go, except for the first page; nothing that was on the pages goes with them. */
  method DropBlankPages(pages: seq<Page>) returns (kept: seq<Page>)
    requires pages != []
    ensures 0 < |kept| <= |pages| && kept == pages[..|kept|] && PagesHold(kept) == PagesHold(pages)
    ensures |kept| == 1 || !Blank(kept[|kept| - 1])
    ensures forall i :: |kept| <= i < |pages| ==> Blank(pages[i])
    ensures forall breaks :: AllTurned(pages, breaks, []) ==> AllTurned(kept, breaks, [])
  {
    kept := pages;
    while |kept| > 1 && Blank(kept[|kept| - 1])
      invariant 0 < |kept| <= |pages| && kept == pages[..|kept|] && PagesHold(kept) == PagesHold(pages)
      invariant forall i :: |kept| <= i < |pages| ==> Blank(pages[i])
    {
      ghost var n := |kept| - 1;
      assert PagesHold(kept) == PagesHold(kept[..n]) + PageHolds(kept[n]);
      kept := kept[..|kept| - 1];
    }
    forall breaks | AllTurned(pages, breaks, [])
      ensures AllTurned(kept, breaks, [])
    {
      FrontTurned(pages, breaks, |kept|);
    }
  }

  lemma FrontTurned(pages: seq<Page>, breaks: set<nat>, k: nat)
    requires k <= |pages| && AllTurned(pages, breaks, [])
    ensures AllTurned(pages[..k], breaks, [])
  {
    var front := pages[..k];
    forall p: nat | p + 1 < k
      ensures Turned(front, breaks, p, [])
    {
      assert Turned(pages, breaks, p, []);
      assert front[..p + 1] == pages[..p + 1];
    }
  }

  // ---- Output pages ----

  function Total(counts: seq<nat>): nat {
    if counts == [] then 0 else Total(counts[..|counts| - 1]) + counts[|counts| - 1]
  }

  /**
   The anchors of the finished book, `counts` being how many output pages each kept page turned into: one for a
   page of text, any number for a picture.
   */
  method OutputAnchors(anchors: map<AnchorKey, nat>, counts: seq<nat>) returns (placed: map<AnchorKey, nat>)
    ensures forall key :: key in placed <==> key in anchors && anchors[key] < |counts|
    ensures forall key :: key in placed ==> placed[key] == Total(counts[..anchors[key]])
  {
    var starts: seq<nat>, rendered: nat := [], 0;
    for i := 0 to |counts|
      invariant |starts| == i && rendered == Total(counts[..i])
      invariant forall p :: 0 <= p < i ==> starts[p] == Total(counts[..p])
    {
      assert counts[..i + 1][..i] == counts[..i];
      starts, rendered := starts + [rendered], rendered + counts[i];
    }
    placed := map key | key in anchors && anchors[key] < |starts| :: starts[anchors[key]];
  }

  lemma {:induction false} TotalGrows(counts: seq<nat>, p: nat)
    requires p <= |counts|
    ensures Total(counts[..p]) <= Total(counts)
    ensures Total(counts[..p]) < Total(counts) <==> exists q :: p <= q < |counts| && counts[q] > 0
    decreases |counts|
  {
    if p == |counts| {
      assert counts[..p] == counts;
    } else {
      var n := |counts| - 1;
      TotalGrows(counts[..n], p);
      assert counts[..n][..p] == counts[..p];
      if exists q :: p <= q < |counts| && counts[q] > 0 {
        var q :| p <= q < |counts| && counts[q] > 0;
        assert q < n ==> counts[..n][q] > 0;
      }
      if exists q :: p <= q < n && counts[..n][q] > 0 {
        var q :| p <= q < n && counts[..n][q] > 0;
        assert counts[q] > 0;
      }
    }
  }

  /** A finished anchor names an output page exactly if its page or one after it turned into any. */
  lemma AnchorNamesAPage(anchors: map<AnchorKey, nat>, counts: seq<nat>, placed: map<AnchorKey, nat>, key: AnchorKey)
    requires key in placed && key in anchors && anchors[key] < |counts|
    requires placed[key] == Total(counts[..anchors[key]])
    ensures placed[key] < Total(counts) <==> exists q :: anchors[key] <= q < |counts| && counts[q] > 0
  {
    TotalGrows(counts, anchors[key]);
  }
}

/** Laying a document tree out on pages of at most 1,250 bytes of text. */
module Pagination {
  import opened Common
  import opened Utf8Text

  const PAGE_BYTES: nat := 1250

  datatype Style = Style(fontFamily: string, breakBefore: bool, breakAfter: bool, look: nat)

  datatype BlockKind =
    | Document | Paragraph | Heading(level: nat) | List(ordered: bool) | ListItem | BlockQuote | Preformatted
    | Figure | Table | TableRow | TableCell | Generic

  datatype Node =
    | Block(kind: BlockKind, style: Style, children: seq<Node>)
    | Inline(style: Style, children: seq<Node>)
    | Text(text: string)
    | Image(resource: nat, alt: string, caption: Option<string>)
    | LineBreak
    | HorizontalRule
    | Anchor(name: string)

  datatype Artwork = Artwork(resource: nat, alt: string, caption: Option<string>, spineIndex: nat)

  datatype Span = Span(text: Bytes, style: Style)

  datatype Page = Page(spans: seq<Span>, artwork: Option<Artwork>, len: nat)

  datatype Warning = OversizedTableRow(resource: nat, spineIndex: nat)

  type AnchorKey = (nat, string)

  // ---- What a tree says ----

  /** One byte of text in its style, or a picture. */
  datatype Mark = Ink(byte: Byte, style: Style) | Picture(artwork: Artwork)

  function Inked(text: Bytes, style: Style): (marks: seq<Mark>)
    ensures |marks| == |text|
  {
    seq(|text|, i requires 0 <= i < |text| => Ink(text[i], style))
  }

  lemma NothingInked(style: Style)
    ensures Inked([], style) == []
  {
  }

  lemma NothingWritten(style: Style)
    ensures Written("", style) == []
  {
  }

  lemma InkedJoin(x: Bytes, y: Bytes, style: Style)
    ensures Inked(x + y, style) == Inked(x, style) + Inked(y, style)
  {
  }

  function Written(text: string, style: Style): seq<Mark> {
    Inked(Utf8(text), style)
  }

  function TextLen(node: Node): nat {
    match node
    case Text(text) => |Utf8(text)|
    case Block(_, _, children) => TextLenAll(children)
    case Inline(_, children) => TextLenAll(children)
    case _ => 0
  }

  function TextLenAll(nodes: seq<Node>): nat {
    if nodes == [] then 0 else TextLen(nodes[0]) + TextLenAll(nodes[1..])
  }

  function PlainText(node: Node): string {
    match node
    case Text(text) => text
    case Block(_, _, children) => PlainTextAll(children)
    case Inline(_, children) => PlainTextAll(children)
    case Image(_, alt, _) => alt
    case LineBreak => " "
    case _ => ""
  }

  function PlainTextAll(nodes: seq<Node>): string {
    if nodes == [] then "" else PlainTextAll(nodes[..|nodes| - 1]) + PlainText(nodes[|nodes| - 1])
  }

  function Less(a: nat, b: nat): nat {
    if a < b then 0 else a - b
  }

  function Spaces(n: nat): string {
    seq(n, _ => ' ')
  }

  /** A cell's text cut to three less than the column's width and padded to two less. */
  function Column(cell: string, width: nat): string {
    var content := cell[..Min(Less(width, 3), |cell|)];
    content + Spaces(Less(Less(width, 2), |content|))
  }

  function ColumnWidth(cells: nat): nat
    requires cells > 0
  {
    (72 + cells - 1) / cells
  }

  function RowText(cells: seq<string>, width: nat): string {
    if cells == [] then ""
    else RowText(cells[..|cells| - 1], width) + Column(cells[|cells| - 1], width) + "│ "
  }

  function Cells(children: seq<Node>): (cells: seq<string>) {
    seq(|children|, i requires 0 <= i < |children| => PlainText(children[i]))
  }

  /** A row on one line, in columns of equal width. */
  function EqualRow(children: seq<Node>): string {
    if children == [] then ""
    else RowText(Cells(children), ColumnWidth(|children|)) + "\n"
  }

  predicate FitsRow(node: Node) {
    node.Block? && node.kind.TableRow? && TextLen(node) <= PAGE_BYTES
  }

  const RULE: string := "\n────────\n"

  function Opening(kind: BlockKind): string {
    match kind
    case ListItem => "• "
    case BlockQuote => "│ "
    case _ => ""
  }

  function Closing(kind: BlockKind): string {
    match kind
    case TableCell => " │ "
    case Document => ""
    case Generic => ""
    case TableRow => "\n"
    case Table => ""
    case _ => "\n\n"
  }

  /** Everything a tree puts on the pages, in document order. */
  function Flow(node: Node, inherited: Style, spine: nat): seq<Mark>
    decreases node, 1
  {
    match node
    case Text(text) => Written(text, inherited)
    case LineBreak => Written("\n", inherited)
    case HorizontalRule => Written(RULE, inherited)
    case Anchor(_) => []
    case Image(resource, alt, caption) => [Picture(Artwork(resource, alt, caption, spine))]
    case Inline(style, children) => FlowAll(children, style, spine)
    case Block(_, _, _) => BlockFlow(node, spine)
  }

  function BlockFlow(node: Node, spine: nat): seq<Mark>
    requires node.Block?
    decreases node, 0
  {
    if FitsRow(node) then Written(EqualRow(node.children), node.style)
    else
      Written(Opening(node.kind), node.style) + FlowAll(node.children, node.style, spine)
      + Written(Closing(node.kind), node.style)
  }

  function FlowAll(nodes: seq<Node>, style: Style, spine: nat): seq<Mark> {
    if nodes == [] then []
    else FlowAll(nodes[..|nodes| - 1], style, spine) + Flow(nodes[|nodes| - 1], style, spine)
  }

  /** Where in the flow each anchor stands, when the tree's flow begins at `at`; the last of a name counts. */
  ghost function Places(node: Node, resource: nat, inherited: Style, spine: nat, at: nat, places: map<AnchorKey, nat>)
    : map<AnchorKey, nat>
    decreases node, 1
  {
    match node
    case Anchor(name) => places[(resource, name) := at]
    case Inline(style, children) => PlacesAll(children, resource, style, spine, at, places)
    case Block(_, _, _) => BlockPlaces(node, resource, spine, at, places)
    case _ => places
  }

  ghost function BlockPlaces(node: Node, resource: nat, spine: nat, at: nat, places: map<AnchorKey, nat>)
    : map<AnchorKey, nat>
    requires node.Block?
    decreases node, 0
  {
    if FitsRow(node) then places
    else
      PlacesAll(node.children, resource, node.style, spine, at + |Written(Opening(node.kind), node.style)|, places)
  }

  ghost function PlacesAll(nodes: seq<Node>, resource: nat, style: Style, spine: nat, at: nat,
                           places: map<AnchorKey, nat>)
    : map<AnchorKey, nat>
  {
    if nodes == [] then places
    else
      var n := |nodes| - 1;
      Places(nodes[n], resource, style, spine, at + |FlowAll(nodes[..n], style, spine)|,
             PlacesAll(nodes[..n], resource, style, spine, at, places))
  }

  /** Where in the flow a page has to begin. A row that is put on one line does not look at `break_after`. */
  ghost function Breaks(node: Node, inherited: Style, spine: nat, at: nat): set<nat>
    decreases node, 1
  {
    match node
    case Inline(style, children) => BreaksAll(children, style, spine, at)
    case Block(_, _, _) => BlockBreaks(node, spine, at)
    case _ => {}
  }

  ghost function BlockBreaks(node: Node, spine: nat, at: nat): set<nat>
    requires node.Block?
    decreases node, 0
  {
    (if node.style.breakBefore then {at} else {}) +
    if FitsRow(node) then {}
    else
      BreaksAll(node.children, node.style, spine, at + |Written(Opening(node.kind), node.style)|) +
      if node.style.breakAfter then {at + |BlockFlow(node, spine)|} else {}
  }

  ghost function BreaksAll(nodes: seq<Node>, style: Style, spine: nat, at: nat): set<nat> {
    if nodes == [] then {}
    else
      var n := |nodes| - 1;
      BreaksAll(nodes[..n], style, spine, at) +
      Breaks(nodes[n], style, spine, at + |FlowAll(nodes[..n], style, spine)|)
  }

  /** A warning for each row that is too long to be put on one line. */
  function Warned(node: Node, resource: nat, spine: nat): seq<Warning> {
    match node
    case Inline(_, children) => WarnedAll(children, resource, spine)
    case Block(kind, _, children) =>
      if FitsRow(node) then []
      else (if kind.TableRow? then [OversizedTableRow(resource, spine)] else []) + WarnedAll(children, resource, spine)
    case _ => []
  }

  function WarnedAll(nodes: seq<Node>, resource: nat, spine: nat): seq<Warning> {
    if nodes == [] then []
    else WarnedAll(nodes[..|nodes| - 1], resource, spine) + Warned(nodes[|nodes| - 1], resource, spine)
  }

  /** Blocks that stand for themselves end in a blank line; a cell, a row and what only groups do not. */
  predicate SetApart(kind: BlockKind) {
    match kind
    case Paragraph => true
    case Heading(_) => true
    case List(_) => true
    case ListItem => true
    case BlockQuote => true
    case Preformatted => true
    case Figure => true
    case Document => false
    case Generic => false
    case Table => false
    case TableRow => false
    case TableCell => false
  }

  /** What a block puts around its own children, wherever it stands. */
  lemma WhatABlockAdds(node: Node, inherited: Style, resource: nat, spine: nat, at: nat)
    requires node.Block? && !FitsRow(node)
    ensures var flow, inner := Flow(node, inherited, spine), FlowAll(node.children, node.style, spine);
            && (SetApart(node.kind) && node.kind != ListItem && node.kind != BlockQuote ==>
                  flow == inner + [Ink(0x0a, node.style), Ink(0x0a, node.style)])
            && (node.kind == ListItem ==> flow == Written("• ", node.style) + inner + Written("\n\n", node.style))
            && (node.kind == BlockQuote ==> flow == Written("│ ", node.style) + inner + Written("\n\n", node.style))
            && (node.kind == TableCell ==> flow == inner + Written(" │ ", node.style))
            && (node.kind == TableRow ==> flow == inner + [Ink(0x0a, node.style)])
            && (node.kind in {Document, Generic, Table} ==> flow == inner)
    ensures node.style.breakBefore ==> at in Breaks(node, inherited, spine, at)
    ensures node.style.breakAfter ==> at + |Flow(node, inherited, spine)| in Breaks(node, inherited, spine, at)
    ensures node.kind.TableRow? ==> OversizedTableRow(resource, spine) in Warned(node, resource, spine)
  {
    var style := node.style;
    LineFeeds();
    assert Written("\n\n", style) == [Ink(0x0a, style), Ink(0x0a, style)];
    assert Written("\n", style) == [Ink(0x0a, style)];
    NothingWritten(style);
  }

  lemma LineFeeds()
    ensures Utf8("\n") == [0x0a] && Utf8("\n\n") == [0x0a, 0x0a]
  {
    assert "\n\n"[1..] == "\n" && "\n"[1..] == "";
    assert EncodedChar('\n') == [0x0a];
  }

  // ---- What pages hold ----

  function SpansHold(spans: seq<Span>): seq<Mark> {
    if spans == [] then []
    else SpansHold(spans[..|spans| - 1]) + Inked(spans[|spans| - 1].text, spans[|spans| - 1].style)
  }

  function PageHolds(page: Page): seq<Mark> {
    SpansHold(page.spans) + if page.artwork.Some? then [Picture(page.artwork.value)] else []
  }

  function PagesHold(pages: seq<Page>): seq<Mark> {
    if pages == [] then [] else PagesHold(pages[..|pages| - 1]) + PageHolds(pages[|pages| - 1])
  }

  ghost predicate IsUtf8(text: Bytes) {
    exists s: string :: Utf8(s) == text
  }

  /** A page counts its bytes, holds no more than fit, whole characters only, and no text beside a picture. */
  ghost predicate Proper(page: Page) {
    && page.len == |SpansHold(page.spans)| <= PAGE_BYTES
    && (forall i :: 0 <= i < |page.spans| ==> page.spans[i].text != [] && IsUtf8(page.spans[i].text))
    && (page.artwork.Some? ==> page.spans == [])
  }

  /** The place `at` in the flow is on page `p`. */
  ghost predicate StandsOn(pages: seq<Page>, p: nat, at: nat) {
    p < |pages| && |PagesHold(pages[..p])| <= at <= |PagesHold(pages[..p + 1])|
  }

  ghost predicate AllStandOn(pages: seq<Page>, anchors: map<AnchorKey, nat>, places: map<AnchorKey, nat>) {
    && anchors.Keys == places.Keys
    && forall key :: key in anchors ==> StandsOn(pages, anchors[key], places[key])
  }

  /** The page `p` begins at `at` in the flow. */
  ghost predicate BeginsAt(pages: seq<Page>, p: nat, at: nat) {
    p < |pages| && |PagesHold(pages[..p])| == at
  }

  ghost predicate AllBegin(pages: seq<Page>, breaks: set<nat>) {
    forall at :: at in breaks ==> exists p: nat :: BeginsAt(pages, p, at)
  }

  // ---- Why a page ends ----

  /** The first text of a page; a blank last page is about to take `next`. */
  ghost function FirstText(pages: seq<Page>, p: nat, next: Bytes): Bytes
    requires p < |pages|
  {
    if pages[p].spans != [] then pages[p].spans[0].text else if p + 1 == |pages| then next else []
  }

  /**
   Page `p + 1` follows page `p` for a reason: a break stands between them, or page `p` is a picture, or page `p + 1`
   is a picture and page `p` has text already, or the first character on page `p + 1` does not fit on page `p`.
   */
  ghost predicate Turned(pages: seq<Page>, breaks: set<nat>, p: nat, next: Bytes)
    requires p + 1 < |pages|
  {
    || |PagesHold(pages[..p + 1])| in breaks
    || pages[p].artwork.Some?
    || (pages[p + 1].artwork.Some? && pages[p].len > 0)
    || (FirstText(pages, p + 1, next) != [] && pages[p].len + FirstWidth(FirstText(pages, p + 1, next)) > PAGE_BYTES)
  }

  ghost predicate AllTurned(pages: seq<Page>, breaks: set<nat>, next: Bytes) {
    forall p: nat :: p + 1 < |pages| ==> Turned(pages, breaks, p, next)
  }

  /** The same but for the last page. */
  ghost predicate TurnedBefore(pages: seq<Page>, breaks: set<nat>) {
    forall p: nat :: p + 2 < |pages| ==> Turned(pages, breaks, p, [])
  }

  lemma MoreIsNext(pages: seq<Page>, breaks: set<nat>, next: Bytes)
    requires AllTurned(pages, breaks, [])
    ensures AllTurned(pages, breaks, next)
  {
    forall p: nat | p + 1 < |pages|
      ensures Turned(pages, breaks, p, next)
    {
      assert Turned(pages, breaks, p, []);
    }
  }

  lemma AddingTurns(pages: seq<Page>, breaks: set<nat>, next: Bytes)
    requires AllTurned(pages, breaks, next) && pages != []
    requires next == [] || pages[|pages| - 1].spans != []
    ensures TurnedBefore(pages + [EMPTY_PAGE], breaks)
  {
    var longer := pages + [EMPTY_PAGE];
    forall p: nat | p + 2 < |longer|
      ensures Turned(longer, breaks, p, [])
    {
      assert Turned(pages, breaks, p, next);
      assert longer[..p + 1] == pages[..p + 1];
    }
  }

  lemma TurnedByText(pages: seq<Page>, breaks: set<nat>, p: nat, next: Bytes)
    requires p + 2 == |pages| && pages[p + 1].spans == [] && next != []
    requires pages[p].len + FirstWidth(next) > PAGE_BYTES
    ensures Turned(pages, breaks, p, next)
  {
  }

  lemma AllButLastTurned(pages: seq<Page>, breaks: set<nat>)
    requires AllTurned(pages, breaks, [])
    ensures TurnedBefore(pages, breaks)
  {
    forall p: nat | p + 2 < |pages|
      ensures Turned(pages, breaks, p, [])
    {
      assert p + 1 < |pages|;
    }
  }

  lemma BreakTurns(pages: seq<Page>, breaks: set<nat>)
    requires TurnedBefore(pages, breaks) && pages != [] && PageHolds(pages[|pages| - 1]) == []
    ensures AllTurned(pages, breaks + {|PagesHold(pages)|}, [])
  {
    hide PageHolds;
    var more := breaks + {|PagesHold(pages)|};
    forall p: nat | p + 1 < |pages|
      ensures Turned(pages, more, p, [])
    {
      if p + 2 < |pages| { assert Turned(pages, breaks, p, []); }
    }
  }

  ghost predicate MayTakePicture(pages: seq<Page>, breaks: set<nat>) {
    && TurnedBefore(pages, breaks)
    && (|pages| > 1 ==> Turned(pages, breaks, |pages| - 2, []) || pages[|pages| - 2].len > 0)
  }

  /** A picture on a page without text, and a new page behind it. */
  lemma PictureTurns(before: seq<Page>, breaks: set<nat>, page: Page)
    requires MayTakePicture(before, breaks) && before != []
    requires page.artwork.Some? && page.spans == before[|before| - 1].spans == []
    ensures AllTurned(before[..|before| - 1] + [page, EMPTY_PAGE], breaks, [])
  {
    var n := |before| - 1;
    var after := before[..n] + [page, EMPTY_PAGE];
    forall p: nat | p + 1 < |after|
      ensures Turned(after, breaks, p, [])
    {
      if p < n {
        assert after[..p + 1] == before[..p + 1];
        if p + 1 < n || Turned(before, breaks, p, []) { assert Turned(before, breaks, p, []); }
      }
    }
  }

  lemma LastIsTurned(pages: seq<Page>, breaks: set<nat>)
    requires AllTurned(pages, breaks, [])
    ensures |pages| > 1 ==> Turned(pages, breaks, |pages| - 2, [])
  {
  }

  lemma BlankHasNoSpans(page: Page)
    requires Proper(page) && page.len == 0
    ensures page.spans == []
  {
    SpansHoldText(page.spans);
  }

  lemma WholeIsBoundary(value: Bytes)
    ensures IsCharBoundary(value, |value|)
  {
  }

  lemma LastTurned(pages: seq<Page>, breaks: set<nat>, next: Bytes)
    requires TurnedBefore(pages, breaks)
    requires |pages| > 1 ==> Turned(pages, breaks, |pages| - 2, next)
    ensures AllTurned(pages, breaks, next)
  {
    forall p: nat | p + 1 < |pages|
      ensures Turned(pages, breaks, p, next)
    {
      if p + 2 < |pages| { assert Turned(pages, breaks, p, []); }
    }
  }

  /** Text added to the last page, of which it is the first if that was blank. */
  lemma WritingTurns(before: seq<Page>, after: seq<Page>, breaks: set<nat>, next: Bytes, head: Bytes, rest: Bytes)
    requires AllTurned(before, breaks, next) && before != [] && |after| == |before|
    requires before[..|before| - 1] == after[..|after| - 1] && head != [] && FirstWidth(head) == FirstWidth(next)
    requires before[|before| - 1].artwork.None? && after[|after| - 1].spans != []
    requires var was, now := before[|before| - 1].spans, after[|after| - 1].spans;
             if was == [] then now[0].text == head else now[0] == was[0]
    ensures AllTurned(after, breaks, rest)
  {
    var n := |before| - 1;
    forall p: nat | p + 1 < |after|
      ensures Turned(after, breaks, p, rest)
    {
      assert Turned(before, breaks, p, next);
      assert before[..p + 1] == before[..n][..p + 1] == after[..p + 1];
      assert before[p] == before[..n][p] == after[p];
      if p + 1 < n { assert before[p + 1] == before[..n][p + 1] == after[p + 1]; }
    }
  }

  lemma NoChildren(resource: nat, style: Style, spine: nat, at: nat, places: map<AnchorKey, nat>)
    ensures FlowAll([], style, spine) == [] && PlacesAll([], resource, style, spine, at, places) == places
    ensures BreaksAll([], style, spine, at) == {} && WarnedAll([], resource, spine) == []
  {
  }

  lemma NextChild(children: seq<Node>, i: nat, resource: nat, style: Style, spine: nat, at: nat,
                  places: map<AnchorKey, nat>)
    requires i < |children|
    ensures var here := at + |FlowAll(children[..i], style, spine)|;
            && FlowAll(children[..i + 1], style, spine) ==
               FlowAll(children[..i], style, spine) + Flow(children[i], style, spine)
            && PlacesAll(children[..i + 1], resource, style, spine, at, places) ==
               Places(children[i], resource, style, spine, here,
                      PlacesAll(children[..i], resource, style, spine, at, places))
            && BreaksAll(children[..i + 1], style, spine, at) ==
               BreaksAll(children[..i], style, spine, at) + Breaks(children[i], style, spine, here)
            && WarnedAll(children[..i + 1], resource, spine) ==
               WarnedAll(children[..i], resource, spine) + Warned(children[i], resource, spine)
  {
    hide Flow, Places, Breaks, Warned;
    assert children[..i + 1][..i] == children[..i];
  }

  const EMPTY_PAGE := Page([], None, 0)

  lemma EmptyPageHoldsNothing(pages: seq<Page>)
    ensures PagesHold(pages + [EMPTY_PAGE]) == PagesHold(pages) && PageHolds(EMPTY_PAGE) == [] && Proper(EMPTY_PAGE)
  {
    assert (pages + [EMPTY_PAGE])[..|pages|] == pages;
  }

  lemma LastPageHolds(pages: seq<Page>, page: Page)
    ensures PagesHold(pages + [page]) == PagesHold(pages) + PageHolds(page)
  {
    assert (pages + [page])[..|pages|] == pages;
  }

  lemma SpansHoldText(spans: seq<Span>)
    ensures spans != [] && spans[|spans| - 1].text != [] ==> SpansHold(spans) != []
  {
  }

  lemma PictureOnBlank(page: Page, artwork: Artwork)
    requires Proper(page) && page.len == 0 && page.artwork.None?
    ensures Proper(page.(artwork := Some(artwork)))
    ensures PageHolds(page) == [] && PageHolds(page.(artwork := Some(artwork))) == [Picture(artwork)]
  {
    SpansHoldText(page.spans);
  }

  /** Adding to the last page and adding pages moves no anchor off its page and no page's beginning. */
  lemma AllStillStandOn(before: seq<Page>, after: seq<Page>, anchors: map<AnchorKey, nat>, places: map<AnchorKey, nat>,
                        breaks: set<nat>)
    requires AllStandOn(before, anchors, places) && 0 < |before| <= |after|
    requires before[..|before| - 1] == after[..|before| - 1]
    requires |PageHolds(after[|before| - 1])| >= |PageHolds(before[|before| - 1])|
    requires AllBegin(before, breaks)
    ensures AllStandOn(after, anchors, places) && AllBegin(after, breaks)
  {
    forall at | at in breaks
      ensures exists p: nat :: BeginsAt(after, p, at)
    {
      var p: nat :| BeginsAt(before, p, at);
      assert after[..p] == after[..|before| - 1][..p] == before[..p];
      assert BeginsAt(after, p, at);
    }
    forall key | key in anchors
      ensures StandsOn(after, anchors[key], places[key])
    {
      StillStandsOn(before, after, anchors[key], places[key]);
    }
  }

  /** What stood on a page still does when the last page has been added to or pages have been added. */
  lemma StillStandsOn(before: seq<Page>, after: seq<Page>, p: nat, at: nat)
    requires StandsOn(before, p, at) && |before| <= |after|
    requires before[..|before| - 1] == after[..|before| - 1]
    requires |PageHolds(after[|before| - 1])| >= |PageHolds(before[|before| - 1])|
    ensures StandsOn(after, p, at)
  {
    var n := |before| - 1;
    if p < n {
      assert before[..p] == before[..n][..p] == after[..p];
      assert before[..p + 1] == before[..n][..p + 1] == after[..p + 1];
    } else {
      assert after[..n + 1][..n] == before[..n + 1][..n];
      assert after[..p] == before[..p];
    }
  }

  lemma PicturePlaced(before: seq<Page>, page: Page, artwork: Artwork, anchors: map<AnchorKey, nat>,
                      places: map<AnchorKey, nat>, breaks: set<nat>)
    requires before != [] && AllStandOn(before, anchors, places) && AllBegin(before, breaks)
    requires PageHolds(before[|before| - 1]) == [] && PageHolds(page) == [Picture(artwork)]
    ensures var after := before[..|before| - 1] + [page, EMPTY_PAGE];
            && AllStandOn(after, anchors, places) && AllBegin(after, breaks) && Proper(EMPTY_PAGE)
            && PagesHold(after) == PagesHold(before) + [Picture(artwork)]
  {
    hide AllStandOn, AllBegin, PagesHold, PageHolds;
    var n := |before| - 1;
    var after := before[..n] + [page, EMPTY_PAGE];
    LastPageHolds(before[..n], page);
    LastPageHolds(before[..n], before[n]);
    EmptyPageHoldsNothing(before[..n] + [page]);
    assert before[..n] + [before[n]] == before;
    assert before[..n] + [page] + [EMPTY_PAGE] == after;
    assert after[..n] == before[..n];
    AllStillStandOn(before, after, anchors, places, breaks);
  }

  class Pages {
    var pages: seq<Page>
    var anchors: map<AnchorKey, nat>
    var warnings: seq<Warning>
    ghost var places: map<AnchorKey, nat>
    ghost var breaks: set<nat>

    ghost predicate Valid()
      reads this`pages, this`anchors, this`places, this`breaks
    {
      && pages != [] && pages[|pages| - 1].artwork.None?
      && (forall i :: 0 <= i < |pages| ==> Proper(pages[i]))
      && AllStandOn(pages, anchors, places) && AllBegin(pages, breaks)
    }

    /** Every page but the first begins for a reason. */
    ghost predicate Tight()
      reads this`pages, this`breaks
    {
      AllTurned(pages, breaks, [])
    }

    ghost function Held(): seq<Mark>
      reads this`pages
    {
      PagesHold(pages)
    }

    constructor ()
      ensures Valid() && Tight() && Held() == [] && pages == [EMPTY_PAGE]
      ensures anchors == map[] && places == map[] && breaks == {} && warnings == []
    {
      pages, anchors, warnings, places, breaks := [EMPTY_PAGE], map[], [], map[], {};
      new;
      EmptyPageHoldsNothing([]);
      assert [] + [EMPTY_PAGE] == [EMPTY_PAGE];
    }

    method AddPage()
      requires Valid()
      modifies this`pages
      ensures Valid() && Held() == old(Held())
      ensures pages == old(pages) + [EMPTY_PAGE]
    {
      EmptyPageHoldsNothing(pages);
      ghost var before := pages;
      pages := pages + [EMPTY_PAGE];
      AllStillStandOn(before, pages, anchors, places, breaks);
    }

    /** Puts a page in the last one's stead. */
    method ReplaceLast(page: Page, ghost more: seq<Mark>)
      requires Valid() && Proper(page) && page.artwork.None?
      requires PageHolds(page) == PageHolds(pages[|pages| - 1]) + more
      modifies this`pages
      ensures Valid() && Held() == old(Held()) + more
      ensures pages == old(pages)[..|old(pages)| - 1] + [page]
    {
      hide AllStandOn, AllBegin, PagesHold, PageHolds, Proper;
      ghost var before, n := pages, |pages| - 1;
      LastPageHolds(before[..n], page);
      LastPageHolds(before[..n], before[n]);
      assert before[..n] + [before[n]] == before;
      pages := pages[..|pages| - 1] + [page];
      assert pages[..n] == before[..n];
      AllStillStandOn(before, pages, anchors, places, breaks);
    }

    method AddSpan(text: Bytes, style: Style)
      requires Valid() && text != [] && IsUtf8(text)
      requires pages[|pages| - 1].len + |text| <= PAGE_BYTES
      modifies this`pages
      ensures Valid() && Held() == old(Held()) + Inked(text, style)
      ensures var n := |old(pages)| - 1;
              && |pages| == n + 1 && pages[..n] == old(pages)[..n]
              && pages[n] == old(pages)[n].(spans := old(pages)[n].spans + [Span(text, style)],
                                            len := old(pages)[n].len + |text|)
    {
      hide AllStandOn, AllBegin, PagesHold, Inked;
      var last := pages[|pages| - 1];
      assert Proper(last);
      var spans := last.spans + [Span(text, style)];
      assert spans[..|spans| - 1] == last.spans;
      ReplaceLast(last.(spans := spans, len := last.len + |text|), Inked(text, style));
    }

    /** A new page for a text of which not even the first character fits on the last one. */
    method TurnForText(ghost text: string)
      requires Valid() && AllTurned(pages, breaks, Utf8(text)) && text != ""
      requires forall j :: 0 < j <= Min(Less(PAGE_BYTES, pages[|pages| - 1].len), |Utf8(text)|) ==>
                             !IsCharBoundary(Utf8(text), j)
      modifies this`pages
      ensures Valid() && Held() == old(Held()) && pages == old(pages) + [EMPTY_PAGE]
      ensures AllTurned(pages, breaks, Utf8(text))
      ensures 0 < old(pages)[|old(pages)| - 1].len && old(pages)[|old(pages)| - 1].len + |Utf8(text)| > PAGE_BYTES
    {
      hide AllStandOn, AllBegin, PagesHold, Utf8, IsCharBoundary, AllTurned, TurnedBefore, FirstWidth;
      ghost var value, n := Utf8(text), |pages| - 1;
      FirstBoundary(text);
      ghost var i :| 1 <= i <= 4 && i <= |value| && IsCharBoundary(value, i);
      FirstWidthIsFirstCut(value, i);
      assert IsCharBoundary(value, |value|) by { WholeIsBoundary(value); }
      assert Proper(pages[n]);
      assert pages[n].spans != [];
      AddingTurns(pages, breaks, value);
      AddPage();
      TurnedByText(pages, breaks, n, value);
      LastTurned(pages, breaks, value);
    }

    /**
     Writes a text after all there is, on as many pages as it takes: on one more only if the first character it would
     take does not fit.
     */
    method PushText(text: string, style: Style)
      requires Valid() && Tight()
      modifies this`pages
      ensures Valid() && Held() == old(Held()) + Written(text, style)
      ensures Tight() && |pages| >= |old(pages)|
      ensures old(pages)[|old(pages)| - 1].len + |Utf8(text)| <= PAGE_BYTES ==> |pages| == |old(pages)|
    {
      hide AllStandOn, AllBegin, PagesHold, Proper, Utf8, Inked, IsCharBoundary, AllTurned, FirstWidth;
      var value := Utf8(text);
      ghost var chars, done: Bytes := text, [];
      NothingInked(style);
      MoreIsNext(pages, breaks, value);
      while value != []
        invariant Valid() && Utf8(chars) == value && done + value == Utf8(text)
        invariant Held() == old(Held()) + Inked(done, style)
        invariant AllTurned(pages, breaks, value) && |pages| >= |old(pages)|
        invariant old(pages)[|old(pages)| - 1].len + |Utf8(text)| <= PAGE_BYTES ==>
                    |pages| == |old(pages)| && pages[|pages| - 1].len == old(pages)[|old(pages)| - 1].len + |done|
        decreases |value|, if pages[|pages| - 1].len > 0 then 1 else 0
      {
        var remaining := Less(PAGE_BYTES, pages[|pages| - 1].len);
        if remaining == 0 {
          TurnForText(chars);
          continue;
        }
        var split := FloorCharBoundary(value, Min(remaining, |value|));
        if split == 0 {
          TurnForText(chars);
          continue;
        }
        ghost var m := BoundarySplits(chars, split);
        ghost var head, before := value[..split], pages;
        assert IsUtf8(head);
        AddSpan(value[..split], style);
        InkedJoin(done, head, style);
        FirstWidthIsFirstCut(value, split);
        WritingTurns(before, pages, breaks, value, head, value[split..]);
        assert value == head + value[split..];
        done, chars, value := done + head, chars[m..], value[split..];
      }
      assert done == Utf8(text);
    }

    /** Makes sure that what comes next begins a page. */
    method BreakBefore()
      requires Valid() && Tight()
      modifies this`pages, this`breaks
      ensures Valid() && Tight() && Held() == old(Held())
      ensures pages == if old(pages)[|old(pages)| - 1].len > 0 then old(pages) + [EMPTY_PAGE] else old(pages)
      ensures breaks == old(breaks) + {|Held()|} && pages[|pages| - 1].spans == []
    {
      hide AllStandOn, AllBegin, AllTurned, TurnedBefore, PagesHold, Proper;
      AddingTurns(pages, breaks, []);
      AllButLastTurned(pages, breaks);
      if pages[|pages| - 1].len > 0 { AddPage(); }
      BreakHere();
    }

    /** The next page begins here, even if the last one is blank. */
    method BreakAfter()
      requires Valid() && Tight()
      modifies this`pages, this`breaks
      ensures Valid() && Tight() && Held() == old(Held())
      ensures breaks == old(breaks) + {|Held()|} && pages == old(pages) + [EMPTY_PAGE]
    {
      hide AllStandOn, AllBegin, AllTurned, TurnedBefore, PagesHold, Proper;
      AddingTurns(pages, breaks, []);
      AddPage();
      BreakHere();
    }

    ghost method BreakHere()
      requires Valid() && TurnedBefore(pages, breaks) && pages[|pages| - 1].len == 0
      modifies this`breaks
      ensures Valid() && Tight() && breaks == old(breaks) + {|Held()|} && pages[|pages| - 1].spans == []
    {
      hide AllStandOn, AllTurned, TurnedBefore;
      var n := |pages| - 1;
      assert Proper(pages[n]);
      assert PageHolds(pages[n]) == [];
      assert BeginsAt(pages, n, |Held()|);
      BreakTurns(pages, breaks);
      breaks := breaks + {|Held()|};
    }

    /** A page without text for a picture to come. */
    method TurnForPicture()
      requires Valid() && Tight()
      modifies this`pages
      ensures Valid() && Held() == old(Held()) && pages[|pages| - 1].len == 0 && MayTakePicture(pages, breaks)
    {
      hide AllStandOn, AllBegin, PagesHold, Proper, AllTurned, TurnedBefore, Turned;
      AddingTurns(pages, breaks, []);
      AllButLastTurned(pages, breaks);
      LastIsTurned(pages, breaks);
      if pages[|pages| - 1].len > 0 { AddPage(); }
    }

    method PushArtwork(artwork: Artwork)
      requires Valid() && Tight()
      modifies this`pages
      ensures Valid() && Tight() && Held() == old(Held()) + [Picture(artwork)]
    {
      hide AllStandOn, AllBegin, PagesHold, Proper, AllTurned, MayTakePicture;
      TurnForPicture();
      var n := |pages| - 1;
      var page := pages[n].(artwork := Some(artwork));
      PictureOnBlank(pages[n], artwork);
      BlankHasNoSpans(pages[n]);
      PictureTurns(pages, breaks, page);
      PicturePlaced(pages, page, artwork, anchors, places, breaks);
      pages := pages[..n] + [page, EMPTY_PAGE];
    }

    method RecordAnchor(resource: nat, name: string)
      requires Valid()
      modifies this`anchors, this`places
      ensures Valid() && places == old(places)[(resource, name) := |Held()|]
      ensures anchors == old(anchors)[(resource, name) := |pages| - 1]
    {
      var n := |pages| - 1;
      anchors := anchors[(resource, name) := n];
      places := places[(resource, name) := |Held()|];
      assert pages[..n + 1] == pages;
      assert StandsOn(pages, n, |Held()|);
    }

    /** Puts a row on one line, in equal columns. */
    method PushEqualRow(children: seq<Node>, style: Style)
      requires Valid() && Tight()
      modifies this`pages
      ensures Valid() && Tight() && Held() == old(Held()) + Written(EqualRow(children), style)
    {
      hide AllStandOn, AllBegin, AllTurned, PagesHold, Written;
      var cells := Cells(children);
      if cells == [] {
        NothingWritten(style);
        return;
      }
      var width := ColumnWidth(|cells|);
      var row := "";
      for i := 0 to |cells|
        invariant row == RowText(cells[..i], width)
      {
        assert cells[..i + 1][..i] == cells[..i];
        row := row + Column(cells[i], width) + "│ ";
      }
      assert cells[..|cells|] == cells;
      row := row + "\n";
      PushText(row, style);
    }

    method Visit(node: Node, inherited: Style, resource: nat, spine: nat)
      requires Valid() && Tight()
      modifies this
      ensures Valid() && Tight() && Held() == old(Held()) + Flow(node, inherited, spine)
      ensures places == Places(node, resource, inherited, spine, |old(Held())|, old(places))
      ensures breaks == old(breaks) + Breaks(node, inherited, spine, |old(Held())|)
      ensures warnings == old(warnings) + Warned(node, resource, spine)
      decreases node, 2
    {
      hide Valid, Tight, Held, Written, BlockFlow, BlockPlaces, BlockBreaks;
      match node {
        case Text(text) => PushText(text, inherited);
        case Anchor(name) => RecordAnchor(resource, name);
        case LineBreak => PushText("\n", inherited);
        case HorizontalRule => PushText(RULE, inherited);
        case Image(picture, alt, caption) => PushArtwork(Artwork(picture, alt, caption, spine));
        case Inline(style, _) => VisitChildren(node, style, resource, spine);
        case Block(_, _, _) => VisitBlock(node, resource, spine);
      }
    }

    method VisitBlock(node: Node, resource: nat, spine: nat)
      requires Valid() && Tight() && node.Block?
      modifies this
      ensures Valid() && Tight() && Held() == old(Held()) + BlockFlow(node, spine)
      ensures places == BlockPlaces(node, resource, spine, |old(Held())|, old(places))
      ensures breaks == old(breaks) + BlockBreaks(node, spine, |old(Held())|)
      ensures warnings == old(warnings) + Warned(node, resource, spine)
      decreases node, 1
    {
      hide Valid, Tight, Held, Written;
      hide FlowAll, PlacesAll, BreaksAll, WarnedAll, TextLenAll, EqualRow;
      hide Opening, Closing;
      var kind, style := node.kind, node.style;
      if style.breakBefore { BreakBefore(); }
      var oversized := kind.TableRow? && TextLen(node) > PAGE_BYTES;
      if oversized { warnings := warnings + [OversizedTableRow(resource, spine)]; }
      if kind.TableRow? && !oversized {
        PushEqualRow(node.children, style);
        return;
      }
      PushText(Opening(kind), style);
      VisitChildren(node, style, resource, spine);
      PushText(Closing(kind), style);
      if style.breakAfter { BreakAfter(); }
    }

    method VisitChildren(node: Node, style: Style, resource: nat, spine: nat)
      requires Valid() && Tight() && (node.Inline? || node.Block?)
      modifies this
      ensures Valid() && Tight() && Held() == old(Held()) + FlowAll(node.children, style, spine)
      ensures places == PlacesAll(node.children, resource, style, spine, |old(Held())|, old(places))
      ensures breaks == old(breaks) + BreaksAll(node.children, style, spine, |old(Held())|)
      ensures warnings == old(warnings) + WarnedAll(node.children, resource, spine)
      decreases node, 0
    {
      hide Valid, Tight, Held, FlowAll, PlacesAll, BreaksAll, WarnedAll;
      NoChildren(resource, style, spine, |Held()|, places);
      var children := node.children;
      for i := 0 to |children|
        invariant Valid() && Tight() && Held() == old(Held()) + FlowAll(children[..i], style, spine)
        invariant places == PlacesAll(children[..i], resource, style, spine, |old(Held())|, old(places))
        invariant breaks == old(breaks) + BreaksAll(children[..i], style, spine, |old(Held())|)
        invariant warnings == old(warnings) + WarnedAll(children[..i], resource, spine)
      {
        NextChild(children, i, resource, style, spine, |old(Held())|, old(places));
        Visit(children[i], style, resource, spine);
      }
      assert children[..|children|] == children;
    }
  }
}

/**
 What a document says, as written, and what of it the pages show. Only table rows that are put on one line can
 lose anything, and it is said exactly when they do.
 */
module DocumentContent {
  import opened Common
  import opened Utf8Text
  import opened Pagination
  import opened DocumentLayout

  /** What a tree has to say: letters, line breaks, rules and pictures. */
  datatype Spoken = Letter(c: char) | NewLine | Ruled | Pictured(artwork: Artwork)

  function Letters(text: string): (said: seq<Spoken>)
    ensures |said| == |text|
  {
    seq(|text|, i requires 0 <= i < |text| => Letter(text[i]))
  }

  /** Everything in a tree, in document order, wherever it stands. */
  function Says(node: Node, spine: nat): seq<Spoken> {
    match node
    case Text(text) => Letters(text)
    case LineBreak => [NewLine]
    case HorizontalRule => [Ruled]
    case Image(resource, alt, caption) => [Pictured(Artwork(resource, alt, caption, spine))]
    case Anchor(_) => []
    case Inline(_, children) => SaysAll(children, spine)
    case Block(_, _, children) => SaysAll(children, spine)
  }

  function SaysAll(nodes: seq<Node>, spine: nat): seq<Spoken> {
    if nodes == [] then []
    else SaysAll(nodes[..|nodes| - 1], spine) + Says(nodes[|nodes| - 1], spine)
  }

  // ---- The flow in pieces ----

  /** A piece of the flow: some text and what of the tree's own it shows, the rest being decoration; or a picture. */
  datatype Token = Words(text: string, style: Style, own: seq<Spoken>) | PictureToken(artwork: Artwork)

  function MarksOf(token: Token): seq<Mark> {
    match token
    case Words(text, style, _) => Written(text, style)
    case PictureToken(artwork) => [Picture(artwork)]
  }

  function OwnOf(token: Token): seq<Spoken> {
    match token
    case Words(_, _, own) => own
    case PictureToken(artwork) => [Pictured(artwork)]
  }

  function MarksOfAll(tokens: seq<Token>): seq<Mark> {
    if tokens == [] then [] else MarksOfAll(tokens[..|tokens| - 1]) + MarksOf(tokens[|tokens| - 1])
  }

  function OwnOfAll(tokens: seq<Token>): seq<Spoken> {
    if tokens == [] then [] else OwnOfAll(tokens[..|tokens| - 1]) + OwnOf(tokens[|tokens| - 1])
  }

  /** `own` can be read in the text, in order: letters as they are, a line break as a new line or a space. */
  predicate Reads(text: string, own: seq<Spoken>)
    decreases |text|
  {
    || own == []
    || (own == [Ruled] && text == RULE)
    || (text != "" && ((ReadsAs(text[0], own[0]) && Reads(text[1..], own[1..])) || Reads(text[1..], own)))
  }

  predicate ReadsAs(c: char, s: Spoken) {
    s == Letter(c) || (s == NewLine && (c == '\n' || c == ' '))
  }

  predicate TrueToken(token: Token) {
    token.Words? ==> Reads(token.text, token.own)
  }

  // ---- Cells of a row on one line ----

  /** For each character of a node's plain text, what of the tree's own it is: nothing, for a picture's description. */
  function PlainSaid(node: Node): seq<Option<Spoken>> {
    match node
    case Text(text) => seq(|text|, i requires 0 <= i < |text| => Some(Letter(text[i])))
    case Block(_, _, children) => PlainSaidAll(children)
    case Inline(_, children) => PlainSaidAll(children)
    case Image(_, alt, _) => seq(|alt|, _ => None)
    case LineBreak => [Some(NewLine)]
    case _ => []
  }

  function PlainSaidAll(nodes: seq<Node>): seq<Option<Spoken>> {
    if nodes == [] then [] else PlainSaidAll(nodes[..|nodes| - 1]) + PlainSaid(nodes[|nodes| - 1])
  }

  function Somes(said: seq<Option<Spoken>>): (own: seq<Spoken>)
    ensures |own| <= |said|
  {
    if said == [] then []
    else
      var last := said[|said| - 1];
      Somes(said[..|said| - 1]) + if last.Some? then [last.value] else []
  }

  /** How far a column and its cell agree. */
  function Agreed(column: string, cell: string): (n: nat)
    ensures n <= |column| && n <= |cell| && column[..n] == cell[..n]
    ensures n < |column| && n < |cell| ==> column[n] != cell[n]
  {
    if column == "" || cell == "" || column[0] != cell[0] then 0
    else
      assert forall n :: 1 <= n <= |column| ==> column[..n] == [column[0]] + column[1..][..n - 1];
      assert forall n :: 1 <= n <= |cell| ==> cell[..n] == [cell[0]] + cell[1..][..n - 1];
      1 + Agreed(column[1..], cell[1..])
  }

  /** What of a cell's own its column shows. */
  function ShownOf(child: Node, width: nat): seq<Spoken> {
    PlainSaidIsAligned(child);
    Somes(PlainSaid(child)[..Agreed(Column(PlainText(child), width), PlainText(child))])
  }

  predicate MeansChar(c: char, s: Option<Spoken>) {
    s.Some? ==> ReadsAs(c, s.value)
  }

  predicate Aligned(text: string, said: seq<Option<Spoken>>) {
    |said| == |text| && forall i :: 0 <= i < |text| ==> MeansChar(text[i], said[i])
  }

  lemma {:induction false} PlainSaidIsAligned(node: Node)
    ensures Aligned(PlainText(node), PlainSaid(node))
    decreases node, 0
  {
    match node {
      case Block(_, _, children) => PlainSaidAllIsAligned(node, children);
      case Inline(_, children) => PlainSaidAllIsAligned(node, children);
      case _ =>
    }
  }

  lemma {:induction false} PlainSaidAllIsAligned(node: Node, children: seq<Node>)
    requires (node.Block? || node.Inline?) && children <= node.children
    ensures Aligned(PlainTextAll(children), PlainSaidAll(children))
    decreases node, 0, |children|
  {
    if children != [] {
      var n := |children| - 1;
      assert children[n] == node.children[n];
      PlainSaidIsAligned(children[n]);
      PlainSaidAllIsAligned(node, children[..n]);
    }
  }

  // ---- The pieces of a tree ----

  function CellTokens(children: seq<Node>, style: Style, width: nat): seq<Token> {
    if children == [] then []
    else
      var n := |children| - 1;
      CellTokens(children[..n], style, width) +
      [Words(Column(PlainText(children[n]), width), style, ShownOf(children[n], width)), Words("│ ", style, [])]
  }

  function RowTokens(children: seq<Node>, style: Style): seq<Token> {
    if children == [] then []
    else CellTokens(children, style, ColumnWidth(|children|)) + [Words("\n", style, [])]
  }

  function Tokens(node: Node, inherited: Style, spine: nat): seq<Token> {
    match node
    case Text(text) => [Words(text, inherited, Letters(text))]
    case LineBreak => [Words("\n", inherited, [NewLine])]
    case HorizontalRule => [Words(RULE, inherited, [Ruled])]
    case Anchor(_) => []
    case Image(resource, alt, caption) => [PictureToken(Artwork(resource, alt, caption, spine))]
    case Inline(style, children) => TokensAll(children, style, spine)
    case Block(kind, style, children) =>
      if FitsRow(node) then RowTokens(children, style)
      else [Words(Opening(kind), style, [])] + TokensAll(children, style, spine) + [Words(Closing(kind), style, [])]
  }

  function TokensAll(nodes: seq<Node>, style: Style, spine: nat): seq<Token> {
    if nodes == [] then []
    else TokensAll(nodes[..|nodes| - 1], style, spine) + Tokens(nodes[|nodes| - 1], style, spine)
  }

  lemma TokensJoin(x: seq<Token>, y: seq<Token>)
    ensures MarksOfAll(x + y) == MarksOfAll(x) + MarksOfAll(y)
    ensures OwnOfAll(x + y) == OwnOfAll(x) + OwnOfAll(y)
  {
    MarksJoin(x, y);
    OwnJoin(x, y);
  }

  lemma {:induction false} MarksJoin(x: seq<Token>, y: seq<Token>)
    ensures MarksOfAll(x + y) == MarksOfAll(x) + MarksOfAll(y)
  {
    hide MarksOf;
    if y == [] {
      assert x + y == x;
    } else {
      MarksJoin(x, y[..|y| - 1]);
      assert (x + y)[..|x + y| - 1] == x + y[..|y| - 1];
    }
  }

  lemma {:induction false} OwnJoin(x: seq<Token>, y: seq<Token>)
    ensures OwnOfAll(x + y) == OwnOfAll(x) + OwnOfAll(y)
  {
    hide OwnOf;
    if y == [] {
      assert x + y == x;
    } else {
      OwnJoin(x, y[..|y| - 1]);
      assert (x + y)[..|x + y| - 1] == x + y[..|y| - 1];
    }
  }

  lemma NoTokens()
    ensures MarksOfAll([]) == [] && OwnOfAll([]) == []
  {
  }

  lemma OneToken(token: Token)
    ensures MarksOfAll([token]) == MarksOf(token) && OwnOfAll([token]) == OwnOf(token)
  {
    hide MarksOf, OwnOf;
    assert [token][..0] == [];
  }

  lemma WrittenJoin(x: string, y: string, style: Style)
    ensures Written(x + y, style) == Written(x, style) + Written(y, style)
  {
    Utf8Join(x, y);
    InkedJoin(Utf8(x), Utf8(y), style);
  }

  lemma TwoWords(x: string, y: string, style: Style, own: seq<Spoken>)
    ensures MarksOfAll([Words(x, style, own), Words(y, style, [])]) == Written(x + y, style)
    ensures OwnOfAll([Words(x, style, own), Words(y, style, [])]) == own
  {
    hide Written;
    TokensJoin([Words(x, style, own)], [Words(y, style, [])]);
    assert [Words(x, style, own)] + [Words(y, style, [])] == [Words(x, style, own), Words(y, style, [])];
    OneToken(Words(x, style, own));
    OneToken(Words(y, style, []));
    WrittenJoin(x, y, style);
  }

  /** The pieces of a row are the row. */
  lemma {:induction false} CellTokensAreCells(children: seq<Node>, style: Style, width: nat)
    ensures MarksOfAll(CellTokens(children, style, width)) == Written(RowText(Cells(children), width), style)
  {
    hide Written, Column, ShownOf, MarksOfAll;
    NoTokens();
    if children == [] {
      NothingWritten(style);
    } else {
      var n := |children| - 1;
      var cell, bar := Column(PlainText(children[n]), width), "│ ";
      CellTokensAreCells(children[..n], style, width);
      var front, own := RowText(Cells(children[..n]), width), ShownOf(children[n], width);
      assert Cells(children)[..n] == Cells(children[..n]);
      TokensJoin(CellTokens(children[..n], style, width), [Words(cell, style, own), Words(bar, style, [])]);
      TwoWords(cell, bar, style, own);
      WrittenJoin(front, cell + bar, style);
      assert front + (cell + bar) == front + cell + bar;
    }
  }

  lemma RowTokensAreRow(children: seq<Node>, style: Style)
    ensures MarksOfAll(RowTokens(children, style)) == Written(EqualRow(children), style)
  {
    hide Written, CellTokens, RowText;
    if children == [] {
      NothingWritten(style);
    } else {
      var width := ColumnWidth(|children|);
      CellTokensAreCells(children, style, width);
      TokensJoin(CellTokens(children, style, width), [Words("\n", style, [])]);
      OneToken(Words("\n", style, []));
      WrittenJoin(RowText(Cells(children), width), "\n", style);
    }
  }

  /** The pieces of a tree, put together, are its flow. */
  lemma {:induction false} TokensAreFlow(node: Node, inherited: Style, spine: nat)
    ensures MarksOfAll(Tokens(node, inherited, spine)) == Flow(node, inherited, spine)
    decreases node, 0
  {
    hide Written, RowTokens, TokensAll, FlowAll, EqualRow;
    match node {
      case Block(kind, style, children) =>
        if FitsRow(node) {
          RowTokensAreRow(children, style);
        } else {
          TokensAllAreFlow(node, children, style, spine);
          var first, middle, last :=
            [Words(Opening(kind), style, [])], TokensAll(children, style, spine), [Words(Closing(kind), style, [])];
          TokensJoin(first + middle, last);
          TokensJoin(first, middle);
          OneToken(first[0]);
          OneToken(last[0]);
        }
      case Inline(style, children) => TokensAllAreFlow(node, children, style, spine);
      case Text(text) => OneToken(Words(text, inherited, Letters(text)));
      case LineBreak => OneToken(Words("\n", inherited, [NewLine]));
      case HorizontalRule => OneToken(Words(RULE, inherited, [Ruled]));
      case Image(resource, alt, caption) => OneToken(PictureToken(Artwork(resource, alt, caption, spine)));
      case Anchor(_) =>
    }
  }

  lemma {:induction false} TokensAllAreFlow(node: Node, children: seq<Node>, style: Style, spine: nat)
    requires (node.Block? || node.Inline?) && children <= node.children
    ensures MarksOfAll(TokensAll(children, style, spine)) == FlowAll(children, style, spine)
    decreases node, 0, |children|
  {
    hide Flow, Tokens;
    if children != [] {
      var n := |children| - 1;
      assert children[n] == node.children[n];
      TokensAreFlow(children[n], style, spine);
      TokensAllAreFlow(node, children[..n], style, spine);
      TokensJoin(TokensAll(children[..n], style, spine), Tokens(children[n], style, spine));
    }
  }

  // ---- Every piece shows what it claims ----

  lemma {:induction false} LettersRead(text: string)
    ensures Reads(text, Letters(text))
  {
    if text != "" {
      LettersRead(text[1..]);
      assert Letters(text)[1..] == Letters(text[1..]);
    }
  }

  lemma {:induction false} SomesRead(text: string, said: seq<Option<Spoken>>, rest: string)
    requires Aligned(text, said)
    ensures Reads(text + rest, Somes(said))
    decreases |text|
  {
    if text != "" {
      assert said[0].Some? ==> ReadsAs(text[0], said[0].value);
      SomesRead(text[1..], said[1..], rest);
      SomesFront(said);
      var own, later := Somes(said), Somes(said[1..]);
      assert if said[0].Some? then own[0] == said[0].value && own[1..] == later else own == later;
      assert (text + rest)[1..] == text[1..] + rest;
    }
  }

  lemma {:induction false} SomesFront(said: seq<Option<Spoken>>)
    requires said != []
    ensures Somes(said) == (if said[0].Some? then [said[0].value] else []) + Somes(said[1..])
  {
    if |said| > 1 {
      SomesFront(said[..|said| - 1]);
      assert said[..|said| - 1][1..] == said[1..][..|said| - 2];
    }
  }

  /** What a column claims of its cell is there to read. */
  lemma ColumnReads(child: Node, width: nat)
    ensures Reads(Column(PlainText(child), width), ShownOf(child, width))
  {
    hide Column;
    PlainSaidIsAligned(child);
    var column, cell, said := Column(PlainText(child), width), PlainText(child), PlainSaid(child);
    var n := Agreed(column, cell);
    assert Aligned(column[..n], said[..n]) by {
      forall i | 0 <= i < n
        ensures MeansChar(column[..n][i], said[..n][i])
      {
        assert column[..n][i] == cell[..n][i] == cell[i];
      }
    }
    SomesRead(column[..n], said[..n], column[n..]);
    assert column[..n] + column[n..] == column;
  }

  /** Every piece of a tree shows what it claims to. */
  lemma {:induction false} TokensAreTrue(node: Node, inherited: Style, spine: nat)
    ensures forall token :: token in Tokens(node, inherited, spine) ==> TrueToken(token)
    decreases node, 0
  {
    hide Reads, RowTokens, TokensAll;
    match node {
      case Block(kind, style, children) =>
        if FitsRow(node) {
          RowTokensAreTrue(children, style);
        } else {
          TokensAllAreTrue(node, children, style, spine);
          NothingReads(Opening(kind));
          NothingReads(Closing(kind));
        }
      case Inline(style, children) => TokensAllAreTrue(node, children, style, spine);
      case Text(text) => LettersRead(text);
      case LineBreak => NewLineReads();
      case HorizontalRule => NothingReads(RULE);
      case _ =>
    }
  }

  lemma NothingReads(text: string)
    ensures Reads(text, []) && Reads(RULE, [Ruled])
  {
  }

  lemma NewLineReads()
    ensures Reads("\n", [NewLine])
  {
    assert [NewLine][1..] == [];
    assert ReadsAs('\n', NewLine) && Reads("", []);
  }

  lemma {:induction false} TokensAllAreTrue(node: Node, children: seq<Node>, style: Style, spine: nat)
    requires (node.Block? || node.Inline?) && children <= node.children
    ensures forall token :: token in TokensAll(children, style, spine) ==> TrueToken(token)
    decreases node, 0, |children|
  {
    hide Tokens, TrueToken;
    if children != [] {
      var n := |children| - 1;
      assert children[n] == node.children[n];
      TokensAreTrue(children[n], style, spine);
      TokensAllAreTrue(node, children[..n], style, spine);
    }
  }

  lemma RowTokensAreTrue(children: seq<Node>, style: Style)
    ensures forall token :: token in RowTokens(children, style) ==> TrueToken(token)
  {
    hide Reads, CellTokens;
    if children != [] {
      CellTokensAreTrue(children, style, ColumnWidth(|children|));
      NothingReads("\n");
    }
  }

  lemma {:induction false} CellTokensAreTrue(children: seq<Node>, style: Style, width: nat)
    ensures forall token :: token in CellTokens(children, style, width) ==> TrueToken(token)
  {
    hide Reads, Column, ShownOf;
    if children != [] {
      CellTokensAreTrue(children[..|children| - 1], style, width);
      ColumnReads(children[|children| - 1], width);
      NothingReads("│ ");
    }
  }

  // ---- What the pages show of a tree ----

  /** What of the tree's own its flow shows. */
  function Shows(node: Node, inherited: Style, spine: nat): seq<Spoken> {
    OwnOfAll(Tokens(node, inherited, spine))
  }

  /** No picture and no rule anywhere in the tree. */
  predicate WordsOnly(node: Node) {
    match node
    case Image(_, _, _) => false
    case HorizontalRule => false
    case Block(_, _, children) => forall i :: 0 <= i < |children| ==> WordsOnly(children[i])
    case Inline(_, children) => forall i :: 0 <= i < |children| ==> WordsOnly(children[i])
    case _ => true
  }

  /** A cell that its column does not cut. */
  predicate CellFits(cell: string, width: nat) {
    |cell| <= Less(width, 3) || (width >= 3 && |cell| == width - 2 && cell[width - 3] == ' ')
  }

  predicate CellKeeps(child: Node, width: nat) {
    WordsOnly(child) && CellFits(PlainText(child), width)
  }

  predicate CellsKeep(children: seq<Node>, width: nat) {
    forall i :: 0 <= i < |children| ==> CellKeeps(children[i], width)
  }

  predicate RowKeeps(children: seq<Node>) {
    children != [] ==> CellsKeep(children, ColumnWidth(|children|))
  }

  /** Every row of the tree that is put on one line has only words in it, and no cell too wide for its column. */
  predicate Keeps(node: Node) {
    match node
    case Block(_, _, children) =>
      if FitsRow(node) then RowKeeps(children) else forall i :: 0 <= i < |children| ==> Keeps(children[i])
    case Inline(_, children) => forall i :: 0 <= i < |children| ==> Keeps(children[i])
    case _ => true
  }

  predicate AllKeep(nodes: seq<Node>) {
    forall i :: 0 <= i < |nodes| ==> Keeps(nodes[i])
  }

  /** A column shows the whole of its cell: the cell and nothing but spaces. */
  ghost predicate ShowsWhole(cell: string, width: nat) {
    exists n: nat :: Column(cell, width) == cell + Spaces(n)
  }

  /**
   Which cells a row on one line does not cut: those three shorter than their column, and those two shorter whose
   last character is a space.
   */
  lemma WhatARowCuts(cell: string, width: nat)
    ensures ShowsWhole(cell, width) <==> CellFits(cell, width)
  {
    var column, keep := Column(cell, width), Less(width, 3);
    if |cell| <= keep {
      assert cell[..|cell|] == cell;
      assert column == cell + Spaces(Less(Less(width, 2), |cell|));
    } else if width >= 3 && |cell| == width - 2 && cell[width - 3] == ' ' {
      assert column == cell + Spaces(0);
    } else {
      forall n: nat
        ensures column == cell + Spaces(n) ==> |cell| <= Less(width, 2) && cell[keep] == column[keep] == ' '
      {
        assert (cell + Spaces(n))[keep] == cell[keep];
      }
    }
  }

  /** Column and cell agree to the end of the cell exactly if it is not cut. */
  lemma WhereColumnsAgree(cell: string, width: nat)
    ensures Agreed(Column(cell, width), cell) == |cell| <==> CellFits(cell, width)
  {
    hide Agreed, Column;
    var column, keep := Column(cell, width), Less(width, 3);
    ColumnShape(cell, width);
    var n := Agreed(column, cell);
    if keep < n { assert column[..n][keep] == cell[..n][keep]; }
  }

  lemma ColumnShape(cell: string, width: nat)
    ensures var column, kept := Column(cell, width), Min(Less(width, 3), |cell|);
            && |column| == (if kept < Less(width, 2) then Less(width, 2) else kept)
            && (forall i :: 0 <= i < kept ==> column[i] == cell[i])
            && (forall i :: kept <= i < |column| ==> column[i] == ' ')
  {
  }

  lemma {:induction false} SomesOfAll(said: seq<Option<Spoken>>)
    ensures (forall i :: 0 <= i < |said| ==> said[i].Some?) ==> |Somes(said)| == |said|
  {
    if said != [] { SomesOfAll(said[..|said| - 1]); }
  }

  lemma {:induction false} SomesJoin(x: seq<Option<Spoken>>, y: seq<Option<Spoken>>)
    ensures Somes(x + y) == Somes(x) + Somes(y)
  {
    if y == [] {
      assert x + y == x;
    } else {
      SomesJoin(x, y[..|y| - 1]);
      assert (x + y)[..|x + y| - 1] == x + y[..|y| - 1];
    }
  }

  predicate AllSome(said: seq<Option<Spoken>>) {
    forall i :: 0 <= i < |said| ==> said[i].Some?
  }

  /** Plain text says all a tree does, except for pictures and rules. */
  lemma {:induction false} PlainSays(node: Node, spine: nat)
    ensures |Somes(PlainSaid(node))| <= |Says(node, spine)|
    ensures WordsOnly(node) ==> Somes(PlainSaid(node)) == Says(node, spine) && AllSome(PlainSaid(node))
    ensures !WordsOnly(node) ==> |Somes(PlainSaid(node))| < |Says(node, spine)|
    decreases node, 0
  {
    hide PlainSaidAll, SaysAll;
    match node {
      case Block(_, _, children) => PlainSaysAll(node, children, spine);
      case Inline(_, children) => PlainSaysAll(node, children, spine);
      case Text(text) => TextIsPlain(text);
      case Image(_, alt, _) => NothingOfNone(|alt|);
      case _ =>
    }
  }

  lemma {:induction false} TextIsPlain(text: string)
    ensures Somes(PlainSaid(Text(text))) == Letters(text)
  {
    if text != "" {
      var n := |text| - 1;
      TextIsPlain(text[..n]);
      assert PlainSaid(Text(text))[..n] == PlainSaid(Text(text[..n]));
    }
  }

  lemma {:induction false} NothingOfNone(n: nat)
    ensures Somes(seq(n, _ => None)) == []
  {
    if n > 0 {
      NothingOfNone(n - 1);
      var none: seq<Option<Spoken>> := seq(n, _ => None);
      assert none[..n - 1] == seq(n - 1, _ => None);
    }
  }

  lemma {:induction false} PlainSaysAll(node: Node, children: seq<Node>, spine: nat)
    requires (node.Block? || node.Inline?) && children <= node.children
    ensures var said, says := PlainSaidAll(children), SaysAll(children, spine);
            var words := forall i :: 0 <= i < |children| ==> WordsOnly(children[i]);
            && |Somes(said)| <= |says|
            && (words ==> Somes(said) == says && AllSome(said))
            && (!words ==> |Somes(said)| < |says|)
    decreases node, 0, |children|
  {
    hide PlainSaid, Says, WordsOnly, Somes;
    if children == [] {
      assert Somes([]) == [] by { NothingSome(); }
    } else {
      var n := |children| - 1;
      assert children[n] == node.children[n];
      PlainSays(children[n], spine);
      PlainSaysAll(node, children[..n], spine);
      SomesJoin(PlainSaidAll(children[..n]), PlainSaid(children[n]));
      assert (forall i :: 0 <= i < |children| ==> WordsOnly(children[i])) <==>
             (forall i :: 0 <= i < n ==> WordsOnly(children[..n][i])) && WordsOnly(children[n]);
    }
  }

  lemma NothingSome()
    ensures Somes([]) == []
  {
  }

  lemma SomesOfPrefix(said: seq<Option<Spoken>>, n: nat)
    requires n <= |said|
    ensures |Somes(said[..n])| <= |Somes(said)|
    ensures AllSome(said) && n < |said| ==> |Somes(said[..n])| < |Somes(said)|
  {
    SomesJoin(said[..n], said[n..]);
    assert said[..n] + said[n..] == said;
    SomesOfAll(said[n..]);
  }

  /** A cell keeps everything it says exactly if it has only words and is not cut. */
  lemma WhatACellKeeps(child: Node, width: nat, spine: nat)
    ensures |ShownOf(child, width)| <= |Says(child, spine)|
    ensures CellKeeps(child, width) ==> ShownOf(child, width) == Says(child, spine)
    ensures !CellKeeps(child, width) ==> |ShownOf(child, width)| < |Says(child, spine)|
  {
    hide Somes, Says, PlainSaid, WordsOnly, Column;
    PlainSaidIsAligned(child);
    PlainSays(child, spine);
    var cell, said := PlainText(child), PlainSaid(child);
    WhereColumnsAgree(cell, width);
    var n := Agreed(Column(cell, width), cell);
    SomesOfPrefix(said, n);
    if n == |cell| { assert said[..n] == said; }
  }

  lemma {:induction false} CellsShow(children: seq<Node>, style: Style, width: nat, spine: nat)
    ensures var shown, says := OwnOfAll(CellTokens(children, style, width)), SaysAll(children, spine);
            && |shown| <= |says|
            && (CellsKeep(children, width) ==> shown == says) && (!CellsKeep(children, width) ==> |shown| < |says|)
  {
    hide OwnOfAll, ShownOf, Says, CellKeeps, CellsKeep, Column;
    if children == [] {
      NoTokens();
      CellsKeepSnoc(children, width);
    } else {
      var n := |children| - 1;
      CellsShow(children[..n], style, width, spine);
      WhatACellKeeps(children[n], width, spine);
      CellsKeepSnoc(children, width);
      CellTokensSnoc(children, style, width);
    }
  }

  lemma CellsKeepSnoc(children: seq<Node>, width: nat)
    ensures children == [] ==> CellsKeep(children, width)
    ensures children != [] ==>
              var n := |children| - 1;
              (CellsKeep(children, width) <==> CellsKeep(children[..n], width) && CellKeeps(children[n], width))
  {
    hide CellKeeps;
  }

  lemma CellTokensSnoc(children: seq<Node>, style: Style, width: nat)
    requires children != []
    ensures var n := |children| - 1;
            OwnOfAll(CellTokens(children, style, width)) ==
            OwnOfAll(CellTokens(children[..n], style, width)) + ShownOf(children[n], width)
  {
    hide OwnOfAll, ShownOf, Column;
    var n := |children| - 1;
    var cell, own := Column(PlainText(children[n]), width), ShownOf(children[n], width);
    TokensJoin(CellTokens(children[..n], style, width), [Words(cell, style, own), Words("│ ", style, [])]);
    TwoWords(cell, "│ ", style, own);
  }

  lemma RowShows(children: seq<Node>, style: Style, spine: nat)
    ensures var shown, says := OwnOfAll(RowTokens(children, style)), SaysAll(children, spine);
            && |shown| <= |says| && (RowKeeps(children) ==> shown == says) && (!RowKeeps(children) ==> |shown| < |says|)
  {
    hide OwnOfAll, CellTokens, CellKeeps, CellsKeep;
    if children == [] {
      NoTokens();
    } else {
      var width := ColumnWidth(|children|);
      CellsShow(children, style, width, spine);
      TokensJoin(CellTokens(children, style, width), [Words("\n", style, [])]);
      OneToken(Words("\n", style, []));
    }
  }

  lemma Framed(before: string, tokens: seq<Token>, after: string, style: Style)
    ensures OwnOfAll([Words(before, style, [])] + tokens + [Words(after, style, [])]) == OwnOfAll(tokens)
  {
    hide OwnOfAll;
    TokensJoin([Words(before, style, [])] + tokens, [Words(after, style, [])]);
    TokensJoin([Words(before, style, [])], tokens);
    OneToken(Words(before, style, []));
    OneToken(Words(after, style, []));
  }

  lemma {:induction false} TreeShows(node: Node, inherited: Style, spine: nat)
    ensures var shown, says := Shows(node, inherited, spine), Says(node, spine);
            && |shown| <= |says| && (Keeps(node) ==> shown == says) && (!Keeps(node) ==> |shown| < |says|)
    decreases node, 0
  {
    hide OwnOfAll, RowTokens, TokensAll, SaysAll, RowKeeps, FitsRow, Opening, Closing;
    NoTokens();
    match node {
      case Block(kind, style, children) =>
        if FitsRow(node) {
          RowShows(children, style, spine);
        } else {
          AllShow(node, children, style, spine);
          Framed(Opening(kind), TokensAll(children, style, spine), Closing(kind), style);
        }
      case Inline(style, children) => AllShow(node, children, style, spine);
      case Text(text) => OneToken(Words(text, inherited, Letters(text)));
      case LineBreak => OneToken(Words("\n", inherited, [NewLine]));
      case HorizontalRule => OneToken(Words(RULE, inherited, [Ruled]));
      case Image(resource, alt, caption) => OneToken(PictureToken(Artwork(resource, alt, caption, spine)));
      case Anchor(_) =>
    }
  }

  lemma {:induction false} AllShow(node: Node, children: seq<Node>, style: Style, spine: nat)
    requires (node.Block? || node.Inline?) && children <= node.children
    ensures var shown, says := OwnOfAll(TokensAll(children, style, spine)), SaysAll(children, spine);
            && |shown| <= |says| && (AllKeep(children) ==> shown == says) && (!AllKeep(children) ==> |shown| < |says|)
    decreases node, 0, |children|
  {
    hide OwnOfAll, Tokens, Says, Keeps, AllKeep;
    AllKeepSnoc(children);
    if children == [] {
      NoTokens();
    } else {
      var n := |children| - 1;
      assert children[n] == node.children[n];
      TreeShows(children[n], style, spine);
      AllShow(node, children[..n], style, spine);
      TokensJoin(TokensAll(children[..n], style, spine), Tokens(children[n], style, spine));
    }
  }

  lemma AllKeepSnoc(children: seq<Node>)
    ensures children == [] ==> AllKeep(children)
    ensures children != [] ==>
              (AllKeep(children) <==> AllKeep(children[..|children| - 1]) && Keeps(children[|children| - 1]))
  {
    hide Keeps;
  }

  /**
   For every tree: its flow consists of pieces that truly show what they claim, and they show everything the tree
   says, in order, if and only if no row put on one line has a picture, a rule or too wide a cell in it.
   */
  lemma FlowShowsEverything(node: Node, inherited: Style, spine: nat)
    ensures MarksOfAll(Tokens(node, inherited, spine)) == Flow(node, inherited, spine)
    ensures forall token :: token in Tokens(node, inherited, spine) ==> TrueToken(token)
    ensures OwnOfAll(Tokens(node, inherited, spine)) == Says(node, spine) <==> Keeps(node)
  {
    TokensAreFlow(node, inherited, spine);
    TokensAreTrue(node, inherited, spine);
    TreeShows(node, inherited, spine);
  }

  // ---- Whole documents ----

  function DocumentTokens(spine: seq<SpineItem>): seq<Token> {
    if spine == [] then []
    else
      var n := |spine| - 1;
      DocumentTokens(spine[..n]) + if spine[n].linear then Tokens(spine[n].root, DEFAULT_STYLE, n) else []
  }

  function DocumentSays(spine: seq<SpineItem>): seq<Spoken> {
    if spine == [] then []
    else
      var n := |spine| - 1;
      DocumentSays(spine[..n]) + if spine[n].linear then Says(spine[n].root, n) else []
  }

  predicate DocumentKeeps(spine: seq<SpineItem>) {
    forall i :: 0 <= i < |spine| && spine[i].linear ==> Keeps(spine[i].root)
  }

  lemma {:induction false} DocumentShows(spine: seq<SpineItem>)
    ensures MarksOfAll(DocumentTokens(spine)) == DocumentFlow(spine)
    ensures forall token :: token in DocumentTokens(spine) ==> TrueToken(token)
    ensures var shown, says := OwnOfAll(DocumentTokens(spine)), DocumentSays(spine);
            && |shown| <= |says|
            && (DocumentKeeps(spine) ==> shown == says) && (!DocumentKeeps(spine) ==> |shown| < |says|)
  {
    hide OwnOfAll, MarksOfAll, Tokens, Says, Keeps, Flow, TrueToken;
    NoTokens();
    if spine != [] {
      var n := |spine| - 1;
      DocumentShows(spine[..n]);
      var here := if spine[n].linear then Tokens(spine[n].root, DEFAULT_STYLE, n) else [];
      TokensJoin(DocumentTokens(spine[..n]), here);
      if spine[n].linear {
        FlowShowsEverything(spine[n].root, DEFAULT_STYLE, n);
        TreeShows(spine[n].root, DEFAULT_STYLE, n);
      }
      assert DocumentKeeps(spine) <==> DocumentKeeps(spine[..n]) && (spine[n].linear ==> Keeps(spine[n].root));
    }
  }

  /**
   The pages of a document hold everything its linear items say exactly if none of their one-line rows loses
   anything.
   */
  lemma PagesShowEverything(spine: seq<SpineItem>, pages: seq<Page>)
    requires PagesHold(pages) == DocumentFlow(spine)
    ensures PagesHold(pages) == MarksOfAll(DocumentTokens(spine))
    ensures forall token :: token in DocumentTokens(spine) ==> TrueToken(token)
    ensures OwnOfAll(DocumentTokens(spine)) == DocumentSays(spine) <==> DocumentKeeps(spine)
  {
    DocumentShows(spine);
  }

  // ---- Rows that lose something ----

  /** One cell of seventy letters. */
  lemma OneLineRowCanLoseText()
    ensures var cell := seq(70, _ => 'a');
            var row := Block(TableRow, DEFAULT_STYLE, [Text(cell)]);
            FitsRow(row) && !Keeps(row)
  {
    var cell := seq(70, _ => 'a');
    var row := Block(TableRow, DEFAULT_STYLE, [Text(cell)]);
    assert TextLenAll([Text(cell)]) == TextLen(Text(cell)) + TextLenAll([]);
    AsciiLength(cell);
    assert !CellKeeps(row.children[0], ColumnWidth(1));
  }

  lemma {:induction false} AsciiLength(s: string)
    requires forall i :: 0 <= i < |s| ==> s[i] as int < 0x80
    ensures |Utf8(s)| == |s|
  {
    if s != "" { AsciiLength(s[1..]); }
  }

  /** A picture in a cell: the row shows its description whole, and no picture. */
  lemma OneLineRowCanLosePicture(resource: nat, spine: nat)
    ensures var row := Block(TableRow, DEFAULT_STYLE, [Block(TableCell, DEFAULT_STYLE, [Image(resource, "x", None)])]);
            && FitsRow(row) && CellFits(PlainText(row.children[0]), ColumnWidth(1)) && !Keeps(row)
            && (forall mark :: mark in Flow(row, DEFAULT_STYLE, spine) ==> mark.Ink?)
  {
    var image := Image(resource, "x", None);
    var cell := Block(TableCell, DEFAULT_STYLE, [image]);
    var row := Block(TableRow, DEFAULT_STYLE, [cell]);
    assert !WordsOnly(cell.children[0]);
    assert !CellKeeps(row.children[0], ColumnWidth(1));
    assert TextLenAll([image]) == TextLen(image) + TextLenAll([]);
    assert TextLenAll([cell]) == TextLen(cell) + TextLenAll([]);
    assert PlainTextAll([image]) == PlainTextAll([image][..0]) + "x";
    InkOnly(EqualRow(row.children), DEFAULT_STYLE);
  }

  lemma InkOnly(text: string, style: Style)
    ensures forall mark :: mark in Written(text, style) ==> mark.Ink?
  {
  }

  // ---- Anchors ----

  /** The names of all anchors in a tree, in order. */
  function AnchorsIn(node: Node): seq<string> {
    match node
    case Anchor(name) => [name]
    case Inline(_, children) => AnchorsInAll(children)
    case Block(_, _, children) => AnchorsInAll(children)
    case _ => []
  }

  function AnchorsInAll(nodes: seq<Node>): seq<string> {
    if nodes == [] then [] else AnchorsInAll(nodes[..|nodes| - 1]) + AnchorsIn(nodes[|nodes| - 1])
  }

  /** Those that are come by when the tree is laid out. */
  function AnchorsMet(node: Node): seq<string> {
    match node
    case Anchor(name) => [name]
    case Inline(_, children) => AnchorsMetAll(children)
    case Block(_, _, children) => if FitsRow(node) then [] else AnchorsMetAll(children)
    case _ => []
  }

  function AnchorsMetAll(nodes: seq<Node>): seq<string> {
    if nodes == [] then [] else AnchorsMetAll(nodes[..|nodes| - 1]) + AnchorsMet(nodes[|nodes| - 1])
  }

  /** No row that is put on one line has an anchor in it. */
  predicate RowsHaveNoAnchors(node: Node) {
    match node
    case Inline(_, children) => forall i :: 0 <= i < |children| ==> RowsHaveNoAnchors(children[i])
    case Block(_, _, children) =>
      if FitsRow(node) then AnchorsInAll(children) == []
      else forall i :: 0 <= i < |children| ==> RowsHaveNoAnchors(children[i])
    case _ => true
  }

  ghost function KeysOf(names: seq<string>, resource: nat): set<AnchorKey> {
    set name | name in names :: (resource, name)
  }

  /** Laying a tree out records just the anchors it comes by. */
  lemma {:induction false} MetAnchorsAreRecorded(
    node: Node, resource: nat, inherited: Style, spine: nat, at: nat, places: map<AnchorKey, nat>)
    ensures Places(node, resource, inherited, spine, at, places).Keys == places.Keys + KeysOf(AnchorsMet(node), resource)
    decreases node, 0
  {
    hide PlacesAll, AnchorsMetAll, Flow, Written, FitsRow;
    match node {
      case Inline(style, children) => AllMetAreRecorded(node, children, resource, style, spine, at, places);
      case Block(kind, style, children) =>
        AllMetAreRecorded(node, children, resource, style, spine, at + |Written(Opening(kind), style)|, places);
      case _ =>
    }
  }

  lemma {:induction false} AllMetAreRecorded(
    node: Node, children: seq<Node>, resource: nat, style: Style, spine: nat, at: nat, places: map<AnchorKey, nat>)
    requires (node.Block? || node.Inline?) && children <= node.children
    ensures PlacesAll(children, resource, style, spine, at, places).Keys ==
            places.Keys + KeysOf(AnchorsMetAll(children), resource)
    decreases node, 0, |children|
  {
    hide Places, AnchorsMet, FlowAll;
    if children != [] {
      var n := |children| - 1;
      assert children[n] == node.children[n];
      AllMetAreRecorded(node, children[..n], resource, style, spine, at, places);
      MetAnchorsAreRecorded(children[n], resource, style, spine, at + |FlowAll(children[..n], style, spine)|,
                            PlacesAll(children[..n], resource, style, spine, at, places));
    }
  }

  /** Laying a tree out comes by all its anchors if and only if none is in a row put on one line. */
  lemma {:induction false} WhichAnchorsAreMet(node: Node)
    ensures |AnchorsMet(node)| <= |AnchorsIn(node)|
    ensures AnchorsMet(node) == AnchorsIn(node) <==> RowsHaveNoAnchors(node)
    ensures !RowsHaveNoAnchors(node) ==> |AnchorsMet(node)| < |AnchorsIn(node)|
    decreases node, 0
  {
    hide AnchorsMetAll, AnchorsInAll, FitsRow;
    match node {
      case Inline(_, children) => AllAnchorsMet(node, children);
      case Block(_, _, children) => AllAnchorsMet(node, children);
      case _ =>
    }
  }

  lemma {:induction false} AllAnchorsMet(node: Node, children: seq<Node>)
    requires (node.Block? || node.Inline?) && children <= node.children
    ensures var met, all := AnchorsMetAll(children), AnchorsInAll(children);
            var none := forall i :: 0 <= i < |children| ==> RowsHaveNoAnchors(children[i]);
            |met| <= |all| && (none ==> met == all) && (!none ==> |met| < |all|)
    decreases node, 0, |children|
  {
    hide AnchorsMet, AnchorsIn, RowsHaveNoAnchors;
    if children != [] {
      var n := |children| - 1;
      assert children[n] == node.children[n];
      WhichAnchorsAreMet(children[n]);
      AllAnchorsMet(node, children[..n]);
      assert (forall i :: 0 <= i < |children| ==> RowsHaveNoAnchors(children[i])) <==>
             (forall i :: 0 <= i < n ==> RowsHaveNoAnchors(children[..n][i])) && RowsHaveNoAnchors(children[n]);
    }
  }
}

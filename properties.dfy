/** What the parse promises, stated on the step functions: per line (which handler runs,
    what it emits, what it does to the context), over a run of lines (what the context
    always satisfies) and for the whole document. */
module Properties {
  import opened Strings
  import opened Results
  import opened Escape
  import opened Inline
  import opened Lines
  import opened Footnotes
  import opened Render
  import opened Steps

  // ----- trimming -----

  lemma TrimStartKeeps(t: string)
    requires t == [] || !IsSpace(t[0])
    ensures TrimStart(t) == t
  {
  }

  lemma TrimEndKeeps(t: string)
    requires t == [] || !IsSpace(t[|t| - 1])
    ensures TrimEnd(t) == t
  {
  }

  /** Trimming twice is trimming once. */
  lemma TrimIdempotent(s: string)
    ensures Trim(Trim(s)) == Trim(s)
  {
    var t := Trim(s);
    TrimFacts(s);
    TrimStartKeeps(t);
    TrimEndKeeps(t);
  }

  // ----- code blocks -----

  /** Inside a code block every line goes to the code handler: the closing fence ends the
      block, any other line comes out escaped, with nothing else done to it, so the
      escaped text holds no markup character and unescapes to the line itself. */
  lemma CodeBlockLine(files: Files, fuel: nat, st: State, line: string)
    requires st.inCodeBlock
    ensures IsFenceEnd(line) ==> LineStep(files, fuel, st, line) == Ok(Out(CodeCloseTag, st.(inCodeBlock := false)))
    ensures !IsFenceEnd(line) ==> LineStep(files, fuel, st, line) == Ok(Out(EscapeHtml(line) + "\n", st))
    ensures Unescape(EscapeHtml(line)) == line
    ensures '<' !in EscapeHtml(line) && '>' !in EscapeHtml(line)
  {
    UnescapeEscapeHtml(line);
    EscapeHtmlIsSafe(line);
  }

  /** A fence line outside a code block opens one: the tag names the language and ends
      without a newline, and the language is what follows the first three characters of
      the line as written, trimmed. */
  lemma FenceStartLine(files: Files, fuel: nat, st: State, line: string)
    requires !st.inCodeBlock && Classify(false, line) == FenceStart
    ensures LineStep(files, fuel, st, line)
         == Ok(Out(CodeOpenTag(Trim(Slice(line, 3))), st.(inCodeBlock := true, codeLanguage := Trim(Slice(line, 3)))))
    ensures !EndsWithChar(CodeOpenTag(Trim(Slice(line, 3))), '\n')
  {
  }

  /** An indented fence keeps backticks in its language: the first three characters cut
      off are the indentation and one backtick. */
  lemma IndentedFenceLanguage()
    ensures IsFenceStart("  ```js")
    ensures CodeStartStep(InitialState, "  ```js").state.codeLanguage == "``js"
  {
    assert Slice("  ```js", 3) == "``js";
    TrimStartKeeps("``js");
    TrimEndKeeps("``js");
    assert TrimStart("  ```js") == "```js";
    TrimEndKeeps("```js");
  }

  // ----- headings -----

  /** The line opens with `n` hashes, one to six of them, followed by white space. */
  predicate OpensWithHashes(line: string, n: nat) {
    1 <= n <= 6 && n < |line| && line[..n] == Repeat('#', n) && IsSpace(line[n])
  }

  /** The count of leading `#` is `n` when the first `n` characters are `#` and the next is
      not. */
  lemma HashCountExact(line: string, n: nat)
    requires n < |line| && line[n] != '#'
    requires forall i :: 0 <= i < n ==> line[i] == '#'
    ensures HashCount(line) == n
  {
  }

  /** A line is a heading exactly when it opens with one to six hashes and white space, and
      the level is the number of those hashes. */
  lemma HeadingIff(line: string)
    ensures IsHeading(line) <==> exists n :: OpensWithHashes(line, n)
    ensures IsHeading(line) ==> OpensWithHashes(line, HashCount(line))
  {
    if IsHeading(line) {
      var r := HeadingParts(line);
      assert OpensWithHashes(line, r.0);
    }
    if n: nat :| OpensWithHashes(line, n) {
      assert line[n] != '#';
      forall i | 0 <= i < n ensures line[i] == '#' {
        assert line[..n][i] == '#';
      }
      HashCountExact(line, n);
    }
  }

  /** Seven or more hashes are never a heading. */
  lemma SevenHashesNeverHeading(line: string)
    requires |line| >= 7 && line[..7] == "#######"
    ensures !IsHeading(line)
  {
    var k := HashCount(line);
    if k < 7 {
      assert line[k] == line[..7][k];
    }
  }

  /** A heading line, once the dispatch picks it, becomes `<hN>…</hN>` with N the number of
      hashes and the trimmed rest transformed without a context; the context is untouched. */
  lemma HeadingLine(files: Files, fuel: nat, st: State, line: string)
    requires Classify(st.inCodeBlock, line) == Heading
    ensures LineStep(files, fuel, st, line).Ok? <==> InlineWithoutContext(Trim(line[HashCount(line)..])).Ok?
    ensures LineStep(files, fuel, st, line).Ok? ==>
      LineStep(files, fuel, st, line).value ==
        Out(HeadingTag(HashCount(line), InlineWithoutContext(Trim(line[HashCount(line)..])).value), st)
  {
  }

  /** A blockquote line, once the dispatch picks it, leaves the context as it is; it fails
      with `MissingContext` exactly when a footnote reference survives the markup stages of
      the line after its first two characters, and a rest without inline syntax is written
      between the tags untrimmed. */
  lemma BlockquoteLine(files: Files, fuel: nat, st: State, line: string)
    requires Classify(st.inCodeBlock, line) == Blockquote
    ensures |line| >= 2
    ensures LineStep(files, fuel, st, line).Ok? ==> LineStep(files, fuel, st, line).value.state == st
    ensures LineStep(files, fuel, st, line).Err? <==> RefsIn(InlineMarkup(line[2..])) != []
    ensures LineStep(files, fuel, st, line).Err? ==> LineStep(files, fuel, st, line).error == MissingContext
    ensures PlainText(line[2..]) ==>
      LineStep(files, fuel, st, line) == Ok(Out("<blockquote>" + line[2..] + "</blockquote>\n", st))
  {
  }

  // ----- lists -----

  /** An open list always has a kind. */
  predicate ListConsistent(st: State) {
    st.inList ==> st.listType != NoList
  }

  /** A list item closes the open list and opens a new one exactly when no list is open, or
      its indentation or kind differs; either way the item's list is the open one after. */
  lemma ListItemOpens(st: State, line: string)
    requires ListConsistent(st)
    ensures var p := ItemPartsOf(line); var o := ListOpenStep(st, p);
      (o.html != [] <==> OpensList(st, p)) &&
      (OpensList(st, p) ==> o.html == (if st.inList then "</" + ListTag(st.listType) + ">\n" else "") +
                                       (if p.ordered then "<ol>\n" else "<ul>\n")) &&
      o.state.inList && o.state.listIndent == p.indent &&
      o.state.listType == (if p.ordered then Ol else Ul)
  {
  }

  /** A blank line closes the open list, if any, and forgets its indentation. */
  lemma BlankLineClosesList(files: Files, fuel: nat, st: State, line: string)
    requires !st.inCodeBlock && IsBlank(line)
    ensures var r := LineStep(files, fuel, st, line);
      r.Ok? && !r.value.state.inList &&
      r.value.html == (if st.inList then "</" + ListTag(st.listType) + ">\n" else "") &&
      (st.inList ==> r.value.state.listIndent == 0)
  {
  }

  /** The inline stage only moves the footnote counter. */
  lemma InlineStepKeeps(st: State, text: string)
    ensures InlineStep(st, text).Ok? ==> InlineStep(st, text).value.state == st.(footnoteCounter := InlineStep(st, text).value.state.footnoteCounter)
  {
  }

  /** No line but a blank one or a list item changes the list part of the context, so a
      list that the input leaves open stays open to the end. */
  lemma OnlyBlankAndItemsTouchLists(files: Files, fuel: nat, st: State, line: string)
    requires Classify(st.inCodeBlock, line) != Blank && Classify(st.inCodeBlock, line) != ListItem
    requires LineStep(files, fuel, st, line).Ok?
    ensures var now := LineStep(files, fuel, st, line).value.state;
      now.inList == st.inList && now.listType == st.listType && now.listIndent == st.listIndent
  {
    match Classify(st.inCodeBlock, line)
    case Paragraph => InlineStepKeeps(st, line);
    case _ =>
  }

  /** Every step keeps an open list's kind. */
  lemma LineStepKeepsListConsistent(files: Files, fuel: nat, st: State, line: string)
    requires ListConsistent(st) && LineStep(files, fuel, st, line).Ok?
    ensures ListConsistent(LineStep(files, fuel, st, line).value.state)
  {
    match Classify(st.inCodeBlock, line)
    case ListItem =>
      var p := ItemPartsOf(line);
      ListItemOpens(st, line);
      InlineStepKeeps(ListOpenStep(st, p).state, p.content);
    case Blank =>
    case _ =>
      OnlyBlankAndItemsTouchLists(files, fuel, st, line);
  }

  // ----- tables -----

  /** Through the dispatch a pipe row always ends with `|`, so it never renders the table:
      it emits nothing and the table stays open, taking the row as header, alignments or
      body row. */
  lemma TableRowsNeverRender(files: Files, fuel: nat, st: State, line: string)
    requires Classify(st.inCodeBlock, line) == TableRow
    ensures var r := LineStep(files, fuel, st, line);
      r.Ok? && r.value.html == [] && r.value.state.inTable &&
      r.value.state == (if !st.inTable then st.(inTable := true, tableHeader := Cells(line))
                        else if IsSeparatorRow(line) then st.(tableAlignments := Alignments(Cells(line)))
                        else st.(tableRows := st.tableRows + [Cells(line)]))
  {
    assert IsTableRow(line);
    assert EndsWithChar(line, '|');
  }

  /** Every kept cell is trimmed and not empty. */
  lemma {:induction false} KeptCellsTrimmed(pieces: seq<string>)
    requires forall i :: 0 <= i < |pieces| ==> '|' !in pieces[i]
    ensures forall i :: 0 <= i < |KeptCells(pieces)| ==>
      KeptCells(pieces)[i] != [] && Trim(KeptCells(pieces)[i]) == KeptCells(pieces)[i]
  {
    if pieces != [] {
      KeptCellsTrimmed(pieces[1..]);
      TrimIdempotent(pieces[0]);
    }
  }

  lemma CellsTrimmed(line: string)
    ensures forall i :: 0 <= i < |Cells(line)| ==> Cells(line)[i] != [] && Trim(Cells(line)[i]) == Cells(line)[i]
  {
    KeptCellsTrimmed(Split(line, '|'));
  }

  /** A row whose pieces are already trimmed and not empty keeps every one of them. */
  lemma {:induction false} KeptCellsOfCells(pieces: seq<string>)
    requires forall i :: 0 <= i < |pieces| ==> pieces[i] != [] && '|' !in pieces[i] && Trim(pieces[i]) == pieces[i]
    ensures KeptCells(pieces) == pieces
  {
    if pieces != [] {
      KeptCellsOfCells(pieces[1..]);
    }
  }

  /** The cells a row is made of. */
  predicate CellText(cells: seq<string>) {
    forall i :: 0 <= i < |cells| ==> cells[i] != [] && '|' !in cells[i] && Trim(cells[i]) == cells[i]
  }

  /** Writing trimmed, non-empty cells between pipes and reading the row back gives the
      same cells. */
  lemma CellsRoundTrip(cells: seq<string>)
    requires cells != [] && CellText(cells)
    ensures Cells("|" + Join(cells, '|') + "|") == cells
  {
    var pieces := [[]] + cells + [[]];
    var line := "|" + Join(cells, '|') + "|";
    JoinWrapped(cells);
    assert forall i :: 0 <= i < |pieces| ==> '|' !in pieces[i];
    SplitJoin(pieces, '|');
    assert Split(line, '|') == pieces;
    KeptCellsDropsEmptyEnds(cells);
  }

  lemma JoinWrapped(cells: seq<string>)
    requires cells != []
    ensures Join([[]] + cells + [[]], '|') == "|" + Join(cells, '|') + "|"
  {
    var pieces := [[]] + cells + [[]];
    assert pieces[0] == [] && pieces[1..] == cells + [[]];
    JoinSnocEmpty(cells);
    assert Join(pieces, '|') == [] + "|" + Join(cells + [[]], '|');
  }

  lemma {:induction false} JoinSnocEmpty(cells: seq<string>)
    requires cells != []
    ensures Join(cells + [[]], '|') == Join(cells, '|') + "|"
    decreases |cells|
  {
    var longer := cells + [[]];
    assert longer[0] == cells[0];
    if |cells| == 1 {
      assert longer[1..] == [[]];
      assert Join(longer, '|') == cells[0] + "|" + [];
    } else {
      assert longer[1..] == cells[1..] + [[]];
      JoinSnocEmpty(cells[1..]);
      var tail := Join(cells[1..], '|');
      assert Join(longer, '|') == cells[0] + "|" + (tail + "|");
      assert Join(cells, '|') == cells[0] + "|" + tail;
    }
  }

  lemma KeptCellsDropsEmptyEnds(cells: seq<string>)
    requires CellText(cells)
    ensures KeptCells([[]] + cells + [[]]) == cells
  {
    var pieces := [[]] + cells + [[]];
    assert pieces[0] == [] && pieces[1..] == cells + [[]];
    TrimOfNothing();
    KeptCellsSnocEmpty(cells);
  }

  lemma TrimOfNothing()
    ensures Trim([]) == []
  {
  }

  lemma {:induction false} KeptCellsSnocEmpty(cells: seq<string>)
    requires CellText(cells)
    ensures KeptCells(cells + [[]]) == cells
    decreases |cells|
  {
    var longer := cells + [[]];
    if cells == [] {
      TrimOfNothing();
      assert longer == [[]] && longer[1..] == [];
    } else {
      assert longer[0] == cells[0] && longer[1..] == cells[1..] + [[]];
      KeptCellsSnocEmpty(cells[1..]);
      assert Trim(longer[0]) == cells[0];
      assert KeptCells(longer) == [cells[0]] + cells[1..];
      assert [cells[0]] + cells[1..] == cells;
    }
  }

  /** The cells of a row, written by the loop from the last cell backwards in the
      definition, agree with writing them front to back from column 0. */
  lemma {:induction false} CellsFromSnoc(tag: string, cells: seq<string>, c: string, aligns: seq<Alignment>,
                                         index: nat, end: nat)
    requires end == index + |cells|
    ensures CellsFrom(tag, cells + [c], aligns, index) == CellsFrom(tag, cells, aligns, index) + CellHtml(tag, c, end, aligns)
    decreases |cells|
  {
    var longer := cells + [c];
    if cells == [] {
      CellsFromCons(tag, longer, aligns, index);
      assert longer[1..] == [];
    } else {
      CellsFromSnoc(tag, cells[1..], c, aligns, index + 1, end);
      CellsFromSnocStep(tag, cells, c, aligns, index, CellHtml(tag, c, end, aligns));
    }
  }

  lemma CellsFromSnocStep(tag: string, cells: seq<string>, c: string, aligns: seq<Alignment>, index: nat, e: string)
    requires cells != []
    requires CellsFrom(tag, cells[1..] + [c], aligns, index + 1) == CellsFrom(tag, cells[1..], aligns, index + 1) + e
    ensures CellsFrom(tag, cells + [c], aligns, index) == CellsFrom(tag, cells, aligns, index) + e
  {
    var longer := cells + [c];
    assert longer[0] == cells[0] && longer[1..] == cells[1..] + [c];
    CellsFromCons(tag, longer, aligns, index);
    CellsFromCons(tag, cells, aligns, index);
    AppendAssoc(CellHtml(tag, cells[0], index, aligns), CellsFrom(tag, cells[1..], aligns, index + 1), e);
  }

  lemma CellsFromCons(tag: string, cells: seq<string>, aligns: seq<Alignment>, index: nat)
    requires cells != []
    ensures CellsFrom(tag, cells, aligns, index)
         == CellHtml(tag, cells[0], index, aligns) + CellsFrom(tag, cells[1..], aligns, index + 1)
  {
  }

  lemma {:induction false} CellsInColumnOrder(tag: string, cells: seq<string>, aligns: seq<Alignment>)
    ensures CellsHtml(tag, cells, aligns) == CellsFrom(tag, cells, aligns, 0)
    decreases |cells|
  {
    if cells != [] {
      var front := cells[..|cells| - 1];
      var last := cells[|cells| - 1];
      assert front + [last] == cells;
      CellsInColumnOrder(tag, front, aligns);
      CellsFromSnoc(tag, front, last, aligns, 0, |front|);
      CellsHtmlLast(tag, cells, aligns, front, last);
    }
  }

  lemma CellsHtmlLast(tag: string, cells: seq<string>, aligns: seq<Alignment>, front: seq<string>, last: string)
    requires cells != [] && front == cells[..|cells| - 1] && last == cells[|cells| - 1]
    ensures CellsHtml(tag, cells, aligns) == CellsHtml(tag, front, aligns) + CellHtml(tag, last, |front|, aligns)
  {
    assert |front| == |cells| - 1;
  }

  // ----- footnotes -----

  /** A definition line stores its text under its id (the prototype key excepted) and
      emits nothing. */
  lemma DefinitionLine(files: Files, fuel: nat, st: State, line: string)
    requires Classify(st.inCodeBlock, line) == FootnoteDefinition
    ensures DefinitionParts(line).Some?
    ensures var (id, text) := DefinitionParts(line).value;
      LineStep(files, fuel, st, line) == Ok(Out("", st.(footnotes := Define(st.footnotes, id, text)))) &&
      (id != ProtoKey ==> Lookup(Define(st.footnotes, id, text), id) == Some(text))
  {
    var (id, text) := DefinitionParts(line).value;
    DefineThenLookup(st.footnotes, id, text);
  }

  /** The counter rises by exactly the number of references to ids defined so far. */
  lemma InlineStepCounter(st: State, text: string)
    requires InlineStep(st, text).Ok?
    ensures InlineStep(st, text).value.state.footnoteCounter
         == st.footnoteCounter + CountKnown(RefsIn(InlineMarkup(text)), Ids(st.footnotes))
  {
    ResolveRefsCounts(InlineMarkup(text), Ids(st.footnotes), st.footnoteCounter);
  }

  /** References to ids not defined on an earlier line are left as they are: parsing is a
      single pass, so a forward reference never resolves. */
  lemma ForwardRefsStayRaw(st: State, text: string)
    requires forall id :: id in RefsIn(InlineMarkup(text)) ==> id !in Ids(st.footnotes)
    ensures InlineStep(st, text) ==
      if RefsIn(InlineMarkup(text)) != [] && ShadowingId in Ids(st.footnotes) then Err(LookupShadowed)
      else Ok(Out(ReplaceEmojis(InlineMarkup(text)), st))
  {
    UnknownRefsUnchanged(InlineMarkup(text), Ids(st.footnotes), st.footnoteCounter);
  }

  /** No line lowers the footnote counter. */
  lemma CounterNeverDecreases(files: Files, fuel: nat, st: State, line: string)
    requires LineStep(files, fuel, st, line).Ok?
    ensures LineStep(files, fuel, st, line).value.state.footnoteCounter >= st.footnoteCounter
  {
    match Classify(st.inCodeBlock, line)
    case ListItem =>
      var p := ItemPartsOf(line);
      InlineStepCounter(ListOpenStep(st, p).state, p.content);
    case Paragraph =>
      InlineStepCounter(st, line);
    case _ =>
  }

  /** The footnote table never holds two entries for one id, and never one for the
      prototype key. */
  predicate TableWellFormed(st: State) {
    UniqueIds(st.footnotes) && ProtoKey !in Ids(st.footnotes)
  }

  lemma LineStepKeepsTable(files: Files, fuel: nat, st: State, line: string)
    requires TableWellFormed(st) && LineStep(files, fuel, st, line).Ok?
    ensures TableWellFormed(LineStep(files, fuel, st, line).value.state)
  {
    match Classify(st.inCodeBlock, line)
    case FootnoteDefinition =>
      var (id, text) := DefinitionParts(line).value;
      DefineKeepsIdsUnique(st.footnotes, id, text);
      ProtoKeyNeverStored(st.footnotes, id, text);
    case ListItem =>
      var p := ItemPartsOf(line);
      InlineStepKeeps(ListOpenStep(st, p).state, p.content);
    case Paragraph =>
      InlineStepKeeps(st, line);
    case _ =>
  }

  /** Over any run of lines the table stays well formed and the counter never goes down. */
  lemma {:induction false} RunLinesKeepsTable(files: Files, fuel: nat, st: State, lines: seq<string>)
    requires TableWellFormed(st) && RunLines(files, fuel, st, lines).Ok?
    ensures TableWellFormed(RunLines(files, fuel, st, lines).value.state)
    ensures RunLines(files, fuel, st, lines).value.state.footnoteCounter >= st.footnoteCounter
    decreases |lines|
  {
    if lines != [] {
      var first := LineStep(files, fuel, st, lines[0]).value;
      LineStepKeepsTable(files, fuel, st, lines[0]);
      CounterNeverDecreases(files, fuel, st, lines[0]);
      RunLinesKeepsTable(files, fuel, first.state, lines[1..]);
    }
  }

  /** The last entry's item closes the list. */
  lemma FootnoteItemsLast(fs: seq<Footnote>, front: seq<Footnote>, f: Footnote)
    requires fs != [] && front == fs[..|fs| - 1] && f == fs[|fs| - 1]
    ensures FootnoteItems(fs) == FootnoteItems(front) + FootnoteItem(f)
  {
  }

  /** Splitting the table splits the list of items. */
  lemma {:induction false} FootnoteItemsAppend(a: seq<Footnote>, b: seq<Footnote>)
    ensures FootnoteItems(a + b) == FootnoteItems(a) + FootnoteItems(b)
    decreases |b|
  {
    var ab := a + b;
    if b == [] {
      assert ab == a;
    } else {
      var front := b[..|b| - 1];
      var f := b[|b| - 1];
      FootnoteItemsAppend(a, front);
      SnocSplit(a, b);
      FootnoteItemsLast(ab, a + front, f);
      FootnoteItemsLast(b, front, f);
      ItemsRegroup(FootnoteItems(a), FootnoteItems(front), FootnoteItems(a + front), FootnoteItems(ab),
                   FootnoteItems(b), FootnoteItem(f));
    }
  }

  lemma SnocSplit<T>(a: seq<T>, b: seq<T>)
    requires b != []
    ensures (a + b)[..|a + b| - 1] == a + b[..|b| - 1] && (a + b)[|a + b| - 1] == b[|b| - 1]
  {
  }

  lemma ItemsRegroup(x: string, y: string, xy: string, whole: string, right: string, e: string)
    requires xy == x + y && whole == xy + e && right == y + e
    ensures whole == x + right
  {
  }

  /** The footnote section is empty for an empty table, and a single entry gives a single
      item. */
  lemma FootnotesSectionSmall(f: Footnote)
    ensures FootnotesSection([]) == ""
    ensures FootnotesSection([f]) == SectionHead + FootnoteItem(f) + SectionFoot
  {
    FootnoteItemsLast([f], [], f);
    assert FootnoteItems([]) + FootnoteItem(f) == FootnoteItem(f);
  }

  /** Otherwise it lists every entry once, in table order: the items of two parts of the
      table come one after the other. */
  lemma FootnotesSectionInOrder(a: seq<Footnote>, b: seq<Footnote>)
    requires a + b != []
    ensures FootnotesSection(a + b) == SectionHead + FootnoteItems(a) + FootnoteItems(b) + SectionFoot
  {
    FootnoteItemsAppend(a, b);
    AppendAssoc(SectionHead, FootnoteItems(a), FootnoteItems(b));
  }

  /** A footnote body is rendered with an empty table: references inside it stay raw. */
  lemma FootnoteBodyKeepsRefs(text: string)
    ensures FootnoteBody(text) == ReplaceEmojis(ResolveRefs(InlineMarkup(text), {}, 1).text)
    ensures ResolveRefs(InlineMarkup(text), {}, 1) == Resolved(InlineMarkup(text), 1)
  {
    UnknownRefsUnchanged(InlineMarkup(text), {}, 1);
  }

  // ----- directives and the document -----

  /** A non-blank line outside a code block that mentions `$insert=` goes to the directive
      handler, ahead of every other kind of line, and leaves the context as it is. */
  lemma InsertTakesPrecedence(files: Files, fuel: nat, st: State, line: string)
    requires !st.inCodeBlock && !IsBlank(line) && HasInsertMarker(line)
    ensures LineStep(files, fuel, st, line) == WithState(InsertHtml(files, fuel, line), st)
  {
  }

  /** The document is trimmed: trimming it again changes nothing, and neither end is white
      space. */
  lemma DocumentTrimmed(files: Files, fuel: nat, content: string)
    requires Document(files, fuel, content).Ok?
    ensures var d := Document(files, fuel, content).value;
      Trim(d) == d && (d == [] || (!IsSpace(d[0]) && !IsSpace(d[|d| - 1])))
  {
    var o := RunLines(files, fuel, InitialState, Split(content, '\n')).value;
    var s := o.html + FootnotesSection(o.state.footnotes);
    TrimIdempotent(s);
    TrimFacts(s);
  }

  /** The parse of a document starts from a well-formed context, so the table of the
      finished parse is well formed too. */
  lemma DocumentTableWellFormed(files: Files, fuel: nat, content: string)
    requires RunLines(files, fuel, InitialState, Split(content, '\n')).Ok?
    ensures TableWellFormed(RunLines(files, fuel, InitialState, Split(content, '\n')).value.state)
  {
    RunLinesKeepsTable(files, fuel, InitialState, Split(content, '\n'));
  }
}

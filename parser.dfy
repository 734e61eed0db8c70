/** The parser as the source runs it: a context object whose fields the handlers update
    in place, a loop over the lines of the input, and loops that write the table and the
    footnote section. Every method is proved to do what the functions of `Steps` say. */
module Parser {
  import opened Strings
  import opened Results
  import opened Escape
  import opened Inline
  import opened Lines
  import opened Footnotes
  import opened Render
  import opened Steps

  /** The parse context `parseMarkdown` creates and every handler mutates. */
  class Context {
    var footnotes: seq<Footnote>
    var footnoteCounter: nat
    var inCodeBlock: bool
    var codeLanguage: string
    var inList: bool
    var listType: ListType
    var listIndent: nat
    var inTable: bool
    var tableHeader: seq<string>
    var tableAlignments: seq<Alignment>
    var tableRows: seq<seq<string>>

    function State(): State
      reads this
    {
      Steps.State(footnotes, footnoteCounter, inCodeBlock, codeLanguage, inList, listType,
                  listIndent, inTable, tableHeader, tableAlignments, tableRows)
    }

    constructor()
      ensures State() == InitialState
    {
      footnotes := [];
      footnoteCounter := 1;
      inCodeBlock := false;
      codeLanguage := "";
      inList := false;
      listType := NoList;
      listIndent := 0;
      inTable := false;
      tableHeader := [];
      tableAlignments := [];
      tableRows := [];
    }

    /** `replaceFootnotes`: a left-to-right scan for `[^id]` tokens; each token whose id
        the table holds becomes an anchor numbered by the counter, which then advances. */
    method ReplaceFootnotes(text: string) returns (r: Result<string>)
      modifies this
      ensures r.Err? <==> ShadowingId in Ids(old(footnotes)) && RefsIn(text) != []
      ensures r.Err? ==> r.error == LookupShadowed
      ensures r.Ok? ==>
        var resolved := ResolveRefs(text, Ids(old(footnotes)), old(footnoteCounter));
        r.value == resolved.text && State() == old(State()).(footnoteCounter := resolved.counter)
    {
      var known := Ids(footnotes);
      var counter := footnoteCounter;
      var out := "";
      ghost var goal := ResolveRefs(text, known, counter);
      assert Behind(out, goal) == goal;
      var i := 0;
      while i < |text|
        invariant 0 <= i <= |text|
        invariant ShadowingId in known ==> RefsIn(text) == RefsIn(text[i..])
        invariant unchanged(this)
        invariant goal == Behind(out, ResolveRefs(text[i..], known, counter))
        decreases |text| - i
      {
        var ref := MatchRef(text[i..]);
        if ref.Some? && ShadowingId in known {
          return Err(LookupShadowed);
        }
        out, i, counter := ScanPiece(text, i, known, counter, out);
      }
      assert text[i..] == [];
      assert Behind(out, Resolved([], counter)) == Resolved(out, counter);
      footnoteCounter := counter;
      r := Ok(out);
    }

    /** `handleInlineElements` with this context. */
    method HandleInlineElements(text: string) returns (r: Result<string>)
      modifies this
      ensures Delivers(r, InlineStep(old(State()), text), State())
    {
      var marked := InlineMarkup(text);
      var resolved := ReplaceFootnotes(marked);
      match resolved
      case Err(e) =>
        return Err(e);
      case Ok(t) =>
        r := Ok(ReplaceEmojis(t));
    }

    /** `handleCodeBlockContent`. */
    method HandleCodeBlockContent(line: string) returns (html: string)
      modifies this
      ensures Out(html, State()) == CodeContentStep(old(State()), line)
    {
      if Trim(line) == "```" {
        inCodeBlock := false;
        return CodeCloseTag;
      }
      html := EscapeHtml(line) + "\n";
    }

    /** `handleEmptyLine`. */
    method HandleEmptyLine() returns (html: string)
      modifies this
      ensures Out(html, State()) == EmptyLineStep(old(State()))
    {
      html := "";
      if inList {
        html := "</" + ListTag(listType) + ">\n";
        inList := false;
        listIndent := 0;
      }
    }

    /** `handleFootnoteDefinition`. */
    method HandleFootnoteDefinition(line: string) returns (html: string)
      modifies this
      ensures Out(html, State()) == DefinitionStep(old(State()), line)
    {
      html := "";
      match DefinitionParts(line)
      case Some((id, text)) =>
        footnotes := Define(footnotes, id, text);
      case None =>
    }

    /** `renderTable`: the header cells, then each body row, each cell escaped and given
        its column's alignment. */
    method RenderTable() returns (html: string)
      ensures html == TableHtml(tableHeader, tableAlignments, tableRows)
    {
      var head := RenderCells("th", tableHeader, tableAlignments);
      html := TableHead + head + TableMiddle;
      var j := 0;
      while j < |tableRows|
        invariant 0 <= j <= |tableRows|
        invariant html == TableHead + head + TableMiddle + RowsHtml(tableRows[..j], tableAlignments)
      {
        var cells := RenderCells("td", tableRows[j], tableAlignments);
        var row := "<tr>\n" + cells + "</tr>\n";
        assert tableRows[..j + 1][..j] == tableRows[..j];
        AppendAssoc(TableHead + head + TableMiddle, RowsHtml(tableRows[..j], tableAlignments), row);
        html := html + row;
        j := j + 1;
      }
      assert tableRows[..j] == tableRows;
      html := html + TableFoot;
    }

    /** `handleTableRow`. */
    method HandleTableRow(line: string) returns (html: string)
      modifies this
      ensures Out(html, State()) == TableRowStep(old(State()), line)
    {
      var cells := Cells(line);
      if !inTable {
        inTable := true;
        tableHeader := cells;
        return "";
      }
      if Contains(line, "-|-") {
        tableAlignments := Alignments(cells);
        return "";
      }
      tableRows := tableRows + [cells];
      if !EndsWithChar(line, '|') {
        html := FlushTable();
        return html;
      }
      html := "";
    }

    /** The table rendered from the rows gathered so far, and the table state cleared. */
    method FlushTable() returns (html: string)
      modifies this
      ensures html == TableHtml(old(tableHeader), old(tableAlignments), old(tableRows))
      ensures State() == old(State()).(inTable := false, tableHeader := [], tableAlignments := [], tableRows := [])
    {
      html := RenderTable();
      inTable := false;
      tableHeader := [];
      tableAlignments := [];
      tableRows := [];
    }

    /** `handleListItem`: closes the open list and opens a new one when the item does not
        continue it, then writes the item. */
    method HandleListItem(line: string) returns (r: Result<string>)
      modifies this
      ensures Delivers(r, ListItemStep(old(State()), line), State())
    {
      var p := ItemPartsOf(line);
      var output := OpenList(p);
      var inner := HandleInlineElements(p.content);
      match inner
      case Err(e) =>
        return Err(e);
      case Ok(t) =>
        r := Ok(output + "<li>" + t + "</li>\n");
    }

    /** The part of `handleListItem` that closes and opens lists. */
    method OpenList(p: ItemParts) returns (output: string)
      modifies this
      ensures Out(output, State()) == ListOpenStep(old(State()), p)
    {
      output := "";
      if !inList || p.indent != listIndent || (p.ordered && listType == Ul) || (!p.ordered && listType == Ol) {
        if inList {
          output := "</" + ListTag(listType) + ">\n";
        }
        listType := if p.ordered then Ol else Ul;
        output := output + "<" + ListTag(listType) + ">\n";
        inList := true;
        listIndent := p.indent;
      }
    }

    /** `handleCodeBlockStart`. */
    method HandleCodeBlockStart(line: string) returns (html: string)
      modifies this
      ensures Out(html, State()) == CodeStartStep(old(State()), line)
    {
      inCodeBlock := true;
      codeLanguage := Trim(Slice(line, 3));
      html := CodeOpenTag(codeLanguage);
    }

    /** `handleRegularLine`. */
    method HandleRegularLine(line: string) returns (r: Result<string>)
      modifies this
      ensures Delivers(r, ParagraphStep(old(State()), line), State())
    {
      var inner := HandleInlineElements(line);
      match inner
      case Err(e) =>
        return Err(e);
      case Ok(t) =>
        r := Ok(ParagraphTag(t));
    }

    /** `parseLine`: the first test that holds picks the handler. */
    method ParseLine(files: Files, fuel: nat, line: string) returns (r: Result<string>)
      modifies this
      decreases fuel, 1
      ensures Delivers(r, LineStep(files, fuel, old(State()), line), State())
    {
      match Classify(inCodeBlock, line)
      case CodeContent =>
        var html := HandleCodeBlockContent(line);
        r := Ok(html);
      case Blank =>
        var html := HandleEmptyLine();
        r := Ok(html);
      case Insert =>
        r := HandleInsert(files, fuel, line);
      case FootnoteDefinition =>
        var html := HandleFootnoteDefinition(line);
        r := Ok(html);
      case Heading =>
        r := HeadingHtml(line);
      case TableRow =>
        var html := HandleTableRow(line);
        r := Ok(html);
      case ListItem =>
        r := HandleListItem(line);
      case HorizontalRule =>
        r := Ok(HorizontalRuleTag);
      case Blockquote =>
        r := BlockquoteHtml(line);
      case FenceStart =>
        var html := HandleCodeBlockStart(line);
        r := Ok(html);
      case Paragraph =>
        r := HandleRegularLine(line);
    }
  }

  /** The footnote scan's output so far in front of what the rest of the text gives. */
  function Behind(out: string, rest: Resolved): Resolved {
    Resolved(out + rest.text, rest.counter)
  }

  lemma BehindAppend(out: string, piece: string, rest: Resolved)
    ensures Behind(out, Resolved(piece + rest.text, rest.counter)) == Behind(out + piece, rest)
  {
    AppendAssoc(out, piece, rest.text);
  }

  /** One step of the global `replace` behind `replaceFootnotes`, at position `i`: a
      reference token becomes its anchor when its id is defined and stays as it is
      otherwise; any other character is copied. The piece is appended to `out` and the
      scan resumes at `i'`. */
  method ScanPiece(text: string, i: nat, known: set<string>, counter: nat, out: string)
    returns (out': string, i': nat, counter': nat)
    requires i < |text|
    ensures i < i' <= |text|
    ensures MatchRef(text[i..]).Some? ==> RefsIn(text[i..]) == [MatchRef(text[i..]).value] + RefsIn(text[i'..])
    ensures MatchRef(text[i..]).None? ==> RefsIn(text[i..]) == RefsIn(text[i'..])
    ensures Behind(out, ResolveRefs(text[i..], known, counter)) == Behind(out', ResolveRefs(text[i'..], known, counter'))
  {
    match MatchRef(text[i..])
    case Some(id) =>
      i' := i + |id| + 3;
      if id in known {
        out', counter' := out + FootnoteAnchor(id, counter), counter + 1;
      } else {
        out', counter' := out + text[i..i'], counter;
      }
      RefStep(text, i, id, i', known, counter, counter', out, out');
    case None =>
      out', i', counter' := out + [text[i]], i + 1, counter;
      CharStep(text, i, i', known, counter, out, out');
  }

  /** At a reference token the scan emits the anchor when the id is defined, the token
      itself otherwise, and resumes after the token. */
  lemma RefStep(text: string, i: nat, id: string, i': nat, known: set<string>, counter: nat, counter': nat,
                out: string, out': string)
    requires i < |text| && MatchRef(text[i..]) == Some(id) && i' == i + |id| + 3
    requires id in known ==> out' == out + FootnoteAnchor(id, counter) && counter' == counter + 1
    requires id !in known ==> out' == out + text[i..i'] && counter' == counter
    ensures RefsIn(text[i..]) == [id] + RefsIn(text[i'..])
    ensures Behind(out, ResolveRefs(text[i..], known, counter)) == Behind(out', ResolveRefs(text[i'..], known, counter'))
  {
    var s := text[i..];
    var len := |id| + 3;
    assert s[len..] == text[i'..];
    var r := ResolveRefs(text[i'..], known, counter');
    if id in known {
      assert ResolveRefs(s, known, counter) == Resolved(FootnoteAnchor(id, counter) + r.text, r.counter);
      AppendAssoc(out, FootnoteAnchor(id, counter), r.text);
    } else {
      assert s[..len] == text[i..i'];
      assert ResolveRefs(s, known, counter) == Resolved(text[i..i'] + r.text, r.counter);
      AppendAssoc(out, text[i..i'], r.text);
    }
  }

  /** Elsewhere it copies one character. */
  lemma CharStep(text: string, i: nat, i': nat, known: set<string>, counter: nat, out: string, out': string)
    requires i < |text| && MatchRef(text[i..]).None? && i' == i + 1 && out' == out + [text[i]]
    ensures RefsIn(text[i..]) == RefsIn(text[i'..])
    ensures Behind(out, ResolveRefs(text[i..], known, counter)) == Behind(out', ResolveRefs(text[i'..], known, counter))
  {
    assert text[i..][1..] == text[i'..];
    BehindAppend(out, [text[i]], ResolveRefs(text[i'..], known, counter));
  }

  /** One row's cells, in column order, as the `forEach` over the row writes them. */
  method RenderCells(tag: string, cells: seq<string>, aligns: seq<Alignment>) returns (html: string)
    ensures html == CellsHtml(tag, cells, aligns)
  {
    html := "";
    var i := 0;
    while i < |cells|
      invariant 0 <= i <= |cells|
      invariant html == CellsHtml(tag, cells[..i], aligns)
    {
      assert cells[..i + 1][..i] == cells[..i];
      html := html + CellHtml(tag, cells[i], i, aligns);
      i := i + 1;
    }
    assert cells[..i] == cells;
  }

  /** `handleInsert`. */
  method HandleInsert(files: Files, fuel: nat, line: string) returns (r: Result<string>)
    decreases fuel, 0
    ensures r == InsertHtml(files, fuel, line)
  {
    var target := InsertTarget(line);
    InsertHtmlCases(files, fuel, line);
    if target.None? {
      r := Ok("");
    } else if target.value !in files {
      r := Ok(MissingFileHtml(target.value));
    } else if fuel == 0 {
      r := Err(DepthExceeded);
    } else {
      r := ParseMarkdown(files, fuel - 1, files[target.value]);
    }
  }

  /** The line loop's HTML so far in front of what the rest of the lines give. */
  function Prepend(html: string, rest: Result<Out>): Result<Out> {
    match rest
    case Ok(o) => Ok(Out(html + o.html, o.state))
    case Err(e) => Err(e)
  }

  lemma PrependStep(files: Files, fuel: nat, st: State, lines: seq<string>, i: nat, i': nat,
                    html: string, html': string, line: string, now: State)
    requires i < |lines| && i' == i + 1 && html' == html + line
    requires LineStep(files, fuel, st, lines[i]) == Ok(Out(line, now))
    ensures Prepend(html, RunLines(files, fuel, st, lines[i..]))
         == Prepend(html', RunLines(files, fuel, now, lines[i'..]))
  {
    var ls := lines[i..];
    assert ls[0] == lines[i];
    assert ls[1..] == lines[i'..];
    match RunLines(files, fuel, now, lines[i'..])
    case Ok(o) =>
      assert RunLines(files, fuel, st, ls) == Ok(Out(line + o.html, o.state));
      AppendAssoc(html, line, o.html);
    case Err(e) =>
      assert RunLines(files, fuel, st, ls) == Err(e);
  }

  /** A failing line fails the rest of the loop with its error. */
  lemma PrependFail(files: Files, fuel: nat, st: State, lines: seq<string>, i: nat, html: string)
    requires i < |lines| && LineStep(files, fuel, st, lines[i]).Err?
    ensures Prepend(html, RunLines(files, fuel, st, lines[i..])) == Err(LineStep(files, fuel, st, lines[i]).error)
  {
    assert lines[i..][0] == lines[i];
  }

  /** The loop starts with nothing written. */
  lemma PrependNothing(rest: Result<Out>)
    ensures Prepend("", rest) == rest
  {
    match rest
    case Ok(o) =>
      assert "" + o.html == o.html;
    case Err(e) =>
  }

  /** Once every line is parsed, the loop's result is what was written and the context. */
  lemma PrependDone(files: Files, fuel: nat, st: State, lines: seq<string>, i: nat, parsed: string,
                    run: Result<Out>)
    requires i == |lines| && run == Prepend(parsed, RunLines(files, fuel, st, lines[i..]))
    ensures run == Ok(Out(parsed, st))
  {
    assert lines[i..] == [];
    assert parsed + "" == parsed;
  }

  lemma DocumentOk(files: Files, fuel: nat, content: string, parsed: string, st: State)
    requires RunLines(files, fuel, InitialState, Split(content, '\n')) == Ok(Out(parsed, st))
    ensures Document(files, fuel, content) == Ok(Trim(parsed + FootnotesSection(st.footnotes)))
  {
  }

  lemma DocumentErr(files: Files, fuel: nat, content: string, e: ParseError)
    requires RunLines(files, fuel, InitialState, Split(content, '\n')) == Err(e)
    ensures Document(files, fuel, content) == Err(e)
  {
  }

  /** `parseMarkdown`. */
  method ParseMarkdown(files: Files, fuel: nat, content: string) returns (r: Result<string>)
    decreases fuel, 3
    ensures r == Document(files, fuel, content)
  {
    var lines := Split(content, '\n');
    var context := new Context();
    var parsed := "";
    var i := 0;
    ghost var run := RunLines(files, fuel, InitialState, lines);
    assert lines[i..] == lines;
    PrependNothing(run);
    while i < |lines|
      invariant 0 <= i <= |lines|
      invariant run == Prepend(parsed, RunLines(files, fuel, context.State(), lines[i..]))
    {
      ghost var before := context.State();
      var out := context.ParseLine(files, fuel, lines[i]);
      match out
      case Err(e) =>
        PrependFail(files, fuel, before, lines, i, parsed);
        DocumentErr(files, fuel, content, e);
        return Err(e);
      case Ok(html) =>
        ghost var prior := parsed;
        parsed := parsed + html;
        i := i + 1;
        PrependStep(files, fuel, before, lines, i - 1, i, prior, parsed, html, context.State());
    }
    PrependDone(files, fuel, context.State(), lines, i, parsed, run);
    DocumentOk(files, fuel, content, parsed, context.State());
    var section := RenderFootnotes(context.footnotes);
    r := Ok(Trim(parsed + section));
  }

  /** One entry of the footnote section: the body rendered with a fresh context, then
      the back-reference. */
  method RenderFootnoteItem(f: Footnote) returns (item: string)
    ensures item == FootnoteItem(f)
  {
    var scratch := new Context();
    var body := scratch.HandleInlineElements(f.text);
    assert body.Ok? && body.value == FootnoteBody(f.text) by {
      assert Ids([]) == {};
      var _ := FootnoteBody(f.text);
    }
    item := "<li id=\"fn:" + f.id + "\">" + body.value +
            " <a href=\"#fnref:" + f.id + "\" class=\"footnote-backref\">" + BackrefGlyph + "</a></li>\n";
  }

  /** `renderFootnotes`: nothing for an empty table, otherwise the section with one item per
      entry, in table order. */
  method RenderFootnotes(fs: seq<Footnote>) returns (html: string)
    ensures html == FootnotesSection(fs)
  {
    if |fs| == 0 {
      return "";
    }
    html := SectionHead;
    var i := 0;
    while i < |fs|
      invariant 0 <= i <= |fs|
      invariant html == SectionHead + FootnoteItems(fs[..i])
    {
      var item := RenderFootnoteItem(fs[i]);
      ItemsStep(fs, i, html, item, html + item);
      html := html + item;
      i := i + 1;
    }
    assert fs[..i] == fs;
    html := html + SectionFoot;
  }

  lemma ItemsStep(fs: seq<Footnote>, i: nat, html: string, item: string, html': string)
    requires i < |fs| && html == SectionHead + FootnoteItems(fs[..i])
    requires item == FootnoteItem(fs[i]) && html' == html + item
    ensures html' == SectionHead + FootnoteItems(fs[..i + 1])
  {
    assert fs[..i + 1][..i] == fs[..i];
    AppendAssoc(SectionHead, FootnoteItems(fs[..i]), item);
  }
}

/** The parse as a function of its input: the context record, what each handler returns
    and does to the context, the dispatch of `parseLine`, the line loop of
    `parseMarkdown` and the document it returns. The imperative driver is proved against
    these definitions. */
module Steps {
  import opened Strings
  import opened Results
  import opened Escape
  import opened Inline
  import opened Lines
  import opened Footnotes
  import opened Render

  /** `listType`: empty until the first list opens. */
  datatype ListType = NoList | Ul | Ol

  function ListTag(t: ListType): string {
    match t
    case NoList => ""
    case Ul => "ul"
    case Ol => "ol"
  }

  /** The parse context. */
  datatype State = State(
    footnotes: seq<Footnote>,
    footnoteCounter: nat,
    inCodeBlock: bool,
    codeLanguage: string,
    inList: bool,
    listType: ListType,
    listIndent: nat,
    inTable: bool,
    tableHeader: seq<string>,
    tableAlignments: seq<Alignment>,
    tableRows: seq<seq<string>>)

  const InitialState: State := State([], 1, false, "", false, NoList, 0, false, [], [], [])

  /** What a handler returns, and the context after it. */
  datatype Out = Out(html: string, state: State)

  /** The files of the directory inserted documents come from, by name. A directive names
      a file without a path separator, so `path.resolve` puts it in the directory of the
      document that names it, and `path.dirname` of that path is the same directory again:
      every document of one parse, inserted or not, resolves names in one directory. */
  type Files = map<string, string>

  // ----- the handlers -----

  /** `handleCodeBlockContent`. */
  function CodeContentStep(st: State, line: string): Out {
    if IsFenceEnd(line) then Out(CodeCloseTag, st.(inCodeBlock := false))
    else Out(CodeLine(line), st)
  }

  /** `handleEmptyLine`. */
  function EmptyLineStep(st: State): Out {
    if st.inList then Out("</" + ListTag(st.listType) + ">\n", st.(inList := false, listIndent := 0))
    else Out("", st)
  }

  /** `handleFootnoteDefinition`. */
  function DefinitionStep(st: State, line: string): Out {
    match DefinitionParts(line)
    case Some((id, text)) => Out("", st.(footnotes := Define(st.footnotes, id, text)))
    case None => Out("", st)
  }

  /** `handleTableRow`: the first row is the header, a row with `-|-` the alignments, any
      other a body row; a body row that does not end with `|` flushes the table. */
  function TableRowStep(st: State, line: string): Out {
    var cells := Cells(line);
    if !st.inTable then Out("", st.(inTable := true, tableHeader := cells))
    else if IsSeparatorRow(line) then Out("", st.(tableAlignments := Alignments(cells)))
    else
      var st1 := st.(tableRows := st.tableRows + [cells]);
      if !EndsWithChar(line, '|') then
        Out(TableHtml(st1.tableHeader, st1.tableAlignments, st1.tableRows),
            st1.(inTable := false, tableHeader := [], tableAlignments := [], tableRows := []))
      else Out("", st1)
  }

  /** Whether a list item opens a new list: no list is open, the indentation differs, or
      the kind of list differs. */
  predicate OpensList(st: State, p: ItemParts) {
    !st.inList || p.indent != st.listIndent || (p.ordered && st.listType == Ul) ||
    (!p.ordered && st.listType == Ol)
  }

  /** The list part of `handleListItem`: the tags written before the item, and the
      context the item is rendered in. */
  function ListOpenStep(st: State, p: ItemParts): Out {
    if OpensList(st, p) then
      var t := if p.ordered then Ol else Ul;
      var close := if st.inList then "</" + ListTag(st.listType) + ">\n" else "";
      Out(close + "<" + ListTag(t) + ">\n", st.(listType := t, inList := true, listIndent := p.indent))
    else Out("", st)
  }

  /** `handleInlineElements` with the context: references resolve against the ids defined
      so far and advance the counter. */
  function ContextInline(st: State, text: string): Result<Resolved> {
    InlineElements(text, Ids(st.footnotes), st.footnoteCounter)
  }

  /** The same, as a step: the transformed text and the context with the counter moved. */
  function InlineStep(st: State, text: string): Result<Out> {
    match ContextInline(st, text)
    case Ok(r) => Ok(Out(r.text, st.(footnoteCounter := r.counter)))
    case Err(e) => Err(e)
  }

  /** `handleListItem`. */
  function ListItemStep(st: State, line: string): Result<Out> {
    var p := ItemPartsOf(line);
    var open := ListOpenStep(st, p);
    match InlineStep(open.state, p.content)
    case Ok(o) => Ok(Out(open.html + "<li>" + o.html + "</li>\n", o.state))
    case Err(e) => Err(e)
  }

  /** `handleCodeBlockStart`: the language is what follows the first three characters of
      the untrimmed line, trimmed. */
  function CodeStartStep(st: State, line: string): Out {
    var language := Trim(Slice(line, 3));
    Out(CodeOpenTag(language), st.(inCodeBlock := true, codeLanguage := language))
  }

  /** `handleRegularLine`. */
  function ParagraphStep(st: State, line: string): Result<Out> {
    match InlineStep(st, line)
    case Ok(o) => Ok(Out(ParagraphTag(o.html), o.state))
    case Err(e) => Err(e)
  }

  /** The error paragraph for a directive whose file does not exist. */
  function MissingFileHtml(name: string): string {
    "<p>Error: File not found for insertion (" + name + ")</p>\n"
  }

  function WithState(r: Result<string>, st: State): Result<Out> {
    match r
    case Ok(html) => Ok(Out(html, st))
    case Err(e) => Err(e)
  }

  /** A handler's result agrees with its step: it fails exactly when the step fails, with
      the same error, and otherwise returns the step's HTML and leaves its context. */
  predicate Delivers(r: Result<string>, step: Result<Out>, now: State) {
    (r.Ok? <==> step.Ok?) &&
    (r.Ok? ==> step.value == Out(r.value, now)) &&
    (r.Err? ==> r.error == step.error)
  }

  // ----- the driver -----

  /** `parseLine`: the handler the dispatch picks, applied to the context. Only an
      `$insert=` line can recurse; `fuel` bounds how deep. */
  function LineStep(files: Files, fuel: nat, st: State, line: string): Result<Out>
    decreases fuel, 1, 0
  {
    match Classify(st.inCodeBlock, line)
    case CodeContent => Ok(CodeContentStep(st, line))
    case Blank => Ok(EmptyLineStep(st))
    case Insert => WithState(InsertHtml(files, fuel, line), st)
    case FootnoteDefinition => Ok(DefinitionStep(st, line))
    case Heading => WithState(HeadingHtml(line), st)
    case TableRow => Ok(TableRowStep(st, line))
    case ListItem => ListItemStep(st, line)
    case HorizontalRule => Ok(Out(HorizontalRuleTag, st))
    case Blockquote => WithState(BlockquoteHtml(line), st)
    case FenceStart => Ok(CodeStartStep(st, line))
    case Paragraph => ParagraphStep(st, line)
  }

  /** The loop of `parseMarkdown` from the context `st`: each line's HTML in order, and
      the context after the last line. The first failing line fails the parse. */
  function RunLines(files: Files, fuel: nat, st: State, lines: seq<string>): Result<Out>
    decreases fuel, 2, |lines|
  {
    if lines == [] then Ok(Out("", st))
    else
      match LineStep(files, fuel, st, lines[0])
      case Err(e) => Err(e)
      case Ok(first) =>
        match RunLines(files, fuel, first.state, lines[1..])
        case Err(e) => Err(e)
        case Ok(rest) => Ok(Out(first.html + rest.html, rest.state))
  }

  /** `parseMarkdown`: the lines between `\n`, parsed in a fresh context, the footnote
      section appended, and the whole trimmed. */
  function Document(files: Files, fuel: nat, content: string): Result<string>
    decreases fuel, 3, 0
  {
    match RunLines(files, fuel, InitialState, Split(content, '\n'))
    case Err(e) => Err(e)
    case Ok(o) => Ok(Trim(o.html + FootnotesSection(o.state.footnotes)))
  }

  /** The four outcomes of a directive line. */
  lemma InsertHtmlCases(files: Files, fuel: nat, line: string)
    ensures InsertTarget(line).None? ==> InsertHtml(files, fuel, line) == Ok("")
    ensures InsertTarget(line).Some? && InsertTarget(line).value !in files ==>
      InsertHtml(files, fuel, line) == Ok(MissingFileHtml(InsertTarget(line).value))
    ensures InsertTarget(line).Some? && InsertTarget(line).value in files && fuel == 0 ==>
      InsertHtml(files, fuel, line) == Err(DepthExceeded)
    ensures InsertTarget(line).Some? && InsertTarget(line).value in files && fuel > 0 ==>
      InsertHtml(files, fuel, line) == Document(files, fuel - 1, files[InsertTarget(line).value])
  {
  }

  /** `handleInsert`: the named file parsed as a document of its own; a file that does
      not exist gives an error paragraph, a line without a valid directive nothing. */
  function InsertHtml(files: Files, fuel: nat, line: string): Result<string>
    decreases fuel, 0, 0
  {
    match InsertTarget(line)
    case None => Ok("")
    case Some(name) =>
      if name !in files then Ok(MissingFileHtml(name))
      else if fuel == 0 then Err(DepthExceeded)
      else Document(files, fuel - 1, files[name])
  }
}

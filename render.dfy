/** The HTML the handlers build: headings, blockquotes, paragraphs, code blocks, the
    table that `renderTable` writes and the footnote section that `renderFootnotes`
    writes. */
module Render {
  import opened Strings
  import opened Results
  import opened Escape
  import opened Inline
  import opened Lines
  import opened Footnotes

  // ----- headings, blockquotes, paragraphs, code -----

  function HeadingTag(level: nat, inner: string): string {
    "<h" + NatToString(level) + ">" + inner + "</h" + NatToString(level) + ">\n"
  }

  /** `handleHeading` as the driver calls it, without a context: it fails exactly when a
      footnote reference survives the markup stages of the content, and content without
      inline syntax is written between the tags as it is. The `r.Ok?` clause only unfolds
      the body, for the proofs about the dispatch; `InlineWithoutContextAgrees` says what
      the transformed content is. */
  function HeadingHtml(line: string): (r: Result<string>)
    requires IsHeading(line)
    ensures r.Err? <==> RefsIn(InlineMarkup(HeadingParts(line).1)) != []
    ensures r.Err? ==> r.error == MissingContext
    ensures r.Ok? ==> r.value == HeadingTag(HeadingParts(line).0, InlineWithoutContext(HeadingParts(line).1).value)
    ensures PlainText(HeadingParts(line).1) ==> r == Ok(HeadingTag(HeadingParts(line).0, HeadingParts(line).1))
  {
    var (level, content) := HeadingParts(line);
    PlainWithoutContext(content);
    match InlineWithoutContext(content)
    case Ok(inner) => Ok(HeadingTag(level, inner))
    case Err(e) => Err(e)
  }

  /** `handleBlockquote` as the driver calls it, without a context: the two marker
      characters are cut off and nothing is trimmed; it fails exactly when a footnote
      reference survives the markup stages of the rest. The `r.Ok?` clause only unfolds
      the body, for the proofs about the dispatch. */
  function BlockquoteHtml(line: string): (r: Result<string>)
    ensures r.Err? <==> RefsIn(InlineMarkup(Slice(line, 2))) != []
    ensures r.Err? ==> r.error == MissingContext
    ensures r.Ok? ==> r.value == "<blockquote>" + InlineWithoutContext(Slice(line, 2)).value + "</blockquote>\n"
    ensures PlainText(Slice(line, 2)) ==> r == Ok("<blockquote>" + Slice(line, 2) + "</blockquote>\n")
  {
    PlainWithoutContext(Slice(line, 2));
    match InlineWithoutContext(Slice(line, 2))
    case Ok(inner) => Ok("<blockquote>" + inner + "</blockquote>\n")
    case Err(e) => Err(e)
  }

  function ParagraphTag(inner: string): string {
    "<p>" + inner + "</p>\n"
  }

  function CodeOpenTag(language: string): string {
    "<pre><code class=\"language-" + language + "\">"
  }

  const CodeCloseTag: string := "</code></pre>\n"

  const HorizontalRuleTag: string := "<hr>\n"

  /** A line inside a code block: escaped, and ended with a newline. */
  function CodeLine(line: string): string {
    EscapeHtml(line) + "\n"
  }

  // ----- tables -----

  function AlignmentName(a: Alignment): string {
    match a
    case Default => ""
    case Left => "left"
    case Center => "center"
    case Right => "right"
  }

  /** The style attribute of the cell in column `index`: present only when the separator
      row gave that column an alignment. */
  function AlignAttribute(aligns: seq<Alignment>, index: nat): (attr: string)
    ensures attr == [] <==> index >= |aligns| || aligns[index] == Default
  {
    if index < |aligns| && aligns[index] != Default then
      " style=\"text-align: " + AlignmentName(aligns[index]) + ";\""
    else ""
  }

  function CellHtml(tag: string, cell: string, index: nat, aligns: seq<Alignment>): string {
    "<" + tag + AlignAttribute(aligns, index) + ">" + EscapeHtml(cell) + "</" + tag + ">\n"
  }

  /** The cells of one row, written in column order as the loop writes them. */
  function CellsHtml(tag: string, cells: seq<string>, aligns: seq<Alignment>): string
    decreases |cells|
  {
    if cells == [] then []
    else CellsHtml(tag, cells[..|cells| - 1], aligns) + CellHtml(tag, cells[|cells| - 1], |cells| - 1, aligns)
  }

  function RowHtml(row: seq<string>, aligns: seq<Alignment>): string {
    "<tr>\n" + CellsHtml("td", row, aligns) + "</tr>\n"
  }

  function RowsHtml(rows: seq<seq<string>>, aligns: seq<Alignment>): string
    decreases |rows|
  {
    if rows == [] then []
    else RowsHtml(rows[..|rows| - 1], aligns) + RowHtml(rows[|rows| - 1], aligns)
  }

  const TableHead: string := "<table>\n<thead>\n<tr>\n"
  const TableMiddle: string := "</tr>\n</thead>\n<tbody>\n"
  const TableFoot: string := "</tbody>\n</table>\n"

  /** What `renderTable` returns for a header, its alignments and the body rows. */
  function TableHtml(header: seq<string>, aligns: seq<Alignment>, rows: seq<seq<string>>): string {
    TableHead + CellsHtml("th", header, aligns) + TableMiddle + RowsHtml(rows, aligns) + TableFoot
  }

  /** Reference definition of a row's cells: first cell first, columns counted from
      `index`. */
  function CellsFrom(tag: string, cells: seq<string>, aligns: seq<Alignment>, index: nat): string
    decreases |cells|
  {
    if cells == [] then []
    else CellHtml(tag, cells[0], index, aligns) + CellsFrom(tag, cells[1..], aligns, index + 1)
  }

  // ----- the footnote section -----

  /** A footnote body, rendered with a fresh context whose table is empty. */
  function FootnoteBody(text: string): (body: string)
    ensures body == ReplaceEmojis(InlineMarkup(text))
    ensures InlineElements(text, {}, 1) == Ok(Resolved(body, 1))
  {
    UnknownRefsUnchanged(InlineMarkup(text), {}, 1);
    ReplaceEmojis(ResolveRefs(InlineMarkup(text), {}, 1).text)
  }

  /** The back-reference link text, as the source file spells it (a mis-decoded arrow). */
  const BackrefGlyph: string := "\U{201A}\U{00DC}\U{00A9}"

  function FootnoteItem(f: Footnote): string {
    "<li id=\"fn:" + f.id + "\">" + FootnoteBody(f.text) +
    " <a href=\"#fnref:" + f.id + "\" class=\"footnote-backref\">" + BackrefGlyph + "</a></li>\n"
  }

  function FootnoteItems(fs: seq<Footnote>): string
    decreases |fs|
  {
    if fs == [] then [] else FootnoteItems(fs[..|fs| - 1]) + FootnoteItem(fs[|fs| - 1])
  }

  const SectionHead: string := "<hr>\n<section class=\"footnotes\">\n<ol>\n"
  const SectionFoot: string := "</ol>\n</section>\n"

  /** What `renderFootnotes` returns: nothing for an empty table, otherwise one list item
      per entry in table order. */
  function FootnotesSection(fs: seq<Footnote>): string {
    if fs == [] then [] else SectionHead + FootnoteItems(fs) + SectionFoot
  }
}

# A verified model of the markdown engine

This project models `src/modules/markdownParser.js`, the markdown-to-HTML engine of the
repository, in Dafny, and proves properties of the model.

The engine reads its input one line at a time, `\n` separated, and keeps a mutable parse
context. That context holds:

- the footnote table and footnote counter;
- the code-block flag and language;
- the list flag, kind and indentation;
- the table flag, header, alignments and rows.

`parseLine` gives each line to the first handler whose test holds. The order is:

1. code-block content;
2. blank line;
3. `$insert=` directive;
4. footnote definition;
5. heading;
6. pipe row;
7. list item;
8. `---`;
9. `> `;
10. fence start;
11. paragraph.

Each handler returns HTML and may update the context. Text goes through the inline
transform, which is a fixed chain of substitutions:

- `***`, `**`, `*`, `~~`, `==`, `^`, `~`;
- images, then links;
- footnote references;
- emoji shortcodes.

After the last line the footnote section is appended, and the whole output is trimmed.

The project is organised as follows:

- `strings.dfy` (`Strings`): JavaScript's string operations and character classes.
  - `\s` is the full ECMAScript white-space and line-terminator set.
  - `\w` is ASCII.
  - `.` excludes line terminators.
- `results.dfy` (`Results`): the `Result` and `Option` types and the three ways a parse can fail.
- `escape.dfy` (`Escape`): `escapeHtml`. A per-character reference definition and a decoder serve as its partners.
- `footnotes.dfy` (`Footnotes`): the footnote table.
  - It is a sequence of entries in definition order.
  - A redefinition updates an entry in place.
  - Assigning to `__proto__` stores nothing.
- `inline.dfy` (`Inline`): the inline transform.
  - Each regular expression has a dedicated matcher.
  - A global `replace` is a left-to-right scan that resumes after each match.
  - Also here: footnote-reference resolution and emoji lookup.
- `lines.dfy` (`Lines`): the line tests of `parseLine` and the pieces each handler cuts out of a line.
- `render.dfy` (`Render`): the HTML the handlers, `renderTable` and `renderFootnotes` write.
- `steps.dfy` (`Steps`): the parse as functions.
  - A `State` record and one step function per handler.
  - `LineStep` is the dispatch, `RunLines` the line loop and `Document` the whole parse.
- `parser.dfy` (`Parser`): the code's own shape.
  - A `Context` class whose methods update its fields in place.
  - The line loop of `parseMarkdown` and the string-building loops of `renderTable`, `replaceFootnotes` and `renderFootnotes`.
  - Every method is proved to do what the `Steps` function for it says.
- `properties.dfy` (`Properties`): what the parse promises, per line, over runs of lines and for whole documents.

Some behaviours are modelled as the code has them, even where one would expect otherwise:

- **Footnote references are resolved in a single pass.** A reference is resolved only when its definition is on an earlier line. A forward reference stays as raw text.
- **A list is closed only by a blank line or by an item of another kind or indentation.** A list still open when the input ends is never closed.
- **Pipe rows never render a table through the dispatch.** The dispatch only takes a pipe row that ends with `|`, and only a row that does not end with `|` renders the table. So a table never renders, and a row like `|a|b` is an ordinary paragraph.
- **Cells are filtered, not cropped.** Every blank cell of a row is dropped, not only the empty pieces at its two ends.
- **The fence language is taken from the untrimmed line.** It is whatever follows its first three characters, trimmed. An indented fence therefore keeps some backticks in its language.
- **The closing fence is matched after trimming.** A code block closes on any line that trims to three backticks.
- **The heading and blockquote handlers get no context.** Their inline transform fails as soon as a `[^id]` token reaches the footnote stage. This is `MissingContext`.
- **A footnote with id `hasOwnProperty` breaks lookups.** It replaces the method the footnote stage calls on the table. Every later reference then fails with `LookupShadowed`.
- **On the line `[^a] [^b]` neither reference resolves.** The superscript stage runs first and pairs the two carets. Other lines may behave differently: a stray `^` earlier on the line takes the first caret, and a line terminator between the references stops the pairing.
- **The emoji glyphs and the back-reference arrow are kept as written.** They are the characters the source file spells, which are mis-decoded UTF-8.

## Model

| member | source | states |
|---|---|---|
| Strings.JoinSplit | src/modules/markdownParser.js:13 | splitting on a separator loses nothing: joining the pieces gives the input back |
| Strings.SplitJoin | src/modules/markdownParser.js:90 | pieces free of the separator are split back apart exactly |
| Strings.TrimFacts | src/modules/markdownParser.js:35 | `trim` gives the slice of its input left once the white space at both ends is cut off: what it cuts is white space, neither end of what it keeps is, and it gives nothing exactly for all-white-space input |
| Strings.NatToString | src/modules/markdownParser.js:216 | the rendering is a non-empty run of decimal digits with no leading zero: it opens with `0` exactly for zero |
| Strings.NatToStringValue | src/modules/markdownParser.js:216 | the decimal rendering of the counter reads back as the counter |
| Escape.EscapeHtmlEscapesEachCharOnce | src/modules/markdownParser.js:239-246 | because `&` is replaced first, the chain of five replacements escapes every character exactly once, as the per-character reference does |
| Escape.EscapeHtmlIsSafe | src/modules/markdownParser.js:239-246 | the escaped text holds no `<`, `>`, `"` or `'` |
| Escape.UnescapeEscapeHtml | src/modules/markdownParser.js:239-246 | decoding the five entities gives the original text back, so within one call no character is escaped twice (an entity already in the input is escaped again: `&amp;` becomes `&amp;amp;`) |
| Escape.EscapeHtmlAppend | src/modules/markdownParser.js:239-246 | escaping distributes over concatenation |
| Footnotes.Define | src/modules/markdownParser.js:78 | assigning to the table either appends a new entry or keeps the length, and never changes an existing entry's id |
| Footnotes.DefineThenLookup | src/modules/markdownParser.js:78 | after a definition the id looks up its new text, except `__proto__`, whose assignment stores nothing |
| Footnotes.DefineKeepsOthers | src/modules/markdownParser.js:78 | a definition leaves every other id's text as it was |
| Footnotes.DefineIds | src/modules/markdownParser.js:78 | the set of ids grows by the defined id and nothing else (unchanged for `__proto__`) |
| Footnotes.DefineKeepsIdsUnique | src/modules/markdownParser.js:78 | the table never holds two entries for one id |
| Footnotes.ProtoKeyNeverStored | src/modules/markdownParser.js:78 | no entry is ever created for `__proto__` |
| Footnotes.IdsMember | src/modules/markdownParser.js:215 | the `hasOwnProperty` test holds exactly when an entry with that id exists |
| Inline.FindClose | src/modules/markdownParser.js:199-205 | the lazy `(.*?)` stops at the first closing delimiter, with no line terminator before it, and fails only when none is reachable |
| Inline.MatchImageOf | src/modules/markdownParser.js:206 | `![alt](url)` with an alt text free of `]` and an url of `http://` or `https://` and a non-empty rest free of `)` is matched whole and becomes `<img alt="alt" src="url" />` |
| Inline.MatchImageIff | src/modules/markdownParser.js:206 | the image pattern matches exactly where such an image opens the text, so an url with any other scheme never matches |
| Inline.MatchLinkOf | src/modules/markdownParser.js:207 | `[text](target)` with a non-empty text free of `]` and a non-empty target free of `)` is matched whole and becomes `<a href="target">text</a>` |
| Inline.MatchLinkIff | src/modules/markdownParser.js:207 | the link pattern matches exactly where such a link opens the text |
| Inline.MatchEmoji | src/modules/markdownParser.js:223-225 | a shortcode match starts with `:` and is replaced by the table's glyph for the matched token, or by the token itself |
| Inline.MatchRefIff | src/modules/markdownParser.js:214 | the reference pattern finds the id `w` exactly when the text opens with `[^w]` and `w` is a non-empty run of word characters |
| Inline.MatchRule | src/modules/markdownParser.js:199-207 | every stage's match starts with the stage's trigger character and consumes at least one character |
| Inline.ReplaceAllKeepsPlainText | src/modules/markdownParser.js:199-207 | a stage leaves text without its trigger character unchanged |
| Inline.DelimitedSpan | src/modules/markdownParser.js:199-205 | the leftmost delimiter pairs with the next one on the line, and the run between them is wrapped in the stage's tags |
| Inline.ResolveRefsCounts | src/modules/markdownParser.js:213-220 | the counter rises by exactly the number of references to known ids |
| Inline.UnknownRefsUnchanged | src/modules/markdownParser.js:213-220 | references to unknown ids stay as they are and the counter does not move |
| Inline.ResolveRefsWithoutTokens | src/modules/markdownParser.js:213-220 | text with no reference token passes the footnote stage unchanged |
| Inline.InlineWithoutContextAgrees | src/modules/markdownParser.js:86 | without a context the transform fails exactly when a reference token reaches the footnote stage, and otherwise agrees with every context |
| Inline.PlainTextUnchanged | src/modules/markdownParser.js:198-211 | text with none of ``*~=^[!:`` comes out unchanged and the counter does not move |
| Inline.TwoRefsOnOneLineNeverResolve | src/modules/markdownParser.js:204 | `[^a] [^b]` becomes `[<sup>a] [</sup>b]`, whatever ids are defined |
| Inline.ShortcodeLookedUp | src/modules/markdownParser.js:222-226 | a shortcode token is replaced by its table entry, or kept, and the scan resumes after it |
| Inline.OnlyMappedShortcodesChange | src/modules/markdownParser.js:222-226 | text without `:joy:`, `:smile:` or `:heart:` passes emoji replacement unchanged |
| Lines.Classify | src/modules/markdownParser.js:38-57 | the code-content and blank cases hold exactly when their tests do; a heading line carries no directive; a paragraph fails every earlier test |
| Lines.DefinitionIdLengthOf | src/modules/markdownParser.js:48 | a line that opens with `[^w]:`, `w` a run of word characters, is a definition whose id has `w`'s length |
| Lines.DefinitionParts | src/modules/markdownParser.js:76 | the match exists exactly on definition lines and captures the non-empty word id; the text is what follows `]:` once the leading white space is skipped, up to the first line terminator or the end |
| Lines.DefinitionPartsOf | src/modules/markdownParser.js:76 | a line that opens with `[^w]:` is a definition of the id `w` |
| Lines.HeadingParts | src/modules/markdownParser.js:84-85 | the level is the one to six leading hashes followed by white space, and the content is the rest of the line, trimmed |
| Lines.Cells | src/modules/markdownParser.js:90 | every cell is non-empty and holds no `\|` |
| Lines.AlignmentOf | src/modules/markdownParser.js:99-104 | center exactly for colons at both ends, right for a trailing colon only, left for a leading colon only |
| Lines.Alignments | src/modules/markdownParser.js:99-104 | one alignment per cell, in order |
| Lines.ItemPartsOf | src/modules/markdownParser.js:145-147 | the indentation is the leading white space, the item is ordered exactly when it is numbered, and the content follows the marker and one white-space character |
| Lines.NameAfterMarker | src/modules/markdownParser.js:60 | a directive's file name opens the text after the marker and is a non-empty run of `[\w-]` followed by `.md` |
| Lines.NameAfterMarkerOf | src/modules/markdownParser.js:60 | a run of `[\w-]` followed by `.md` is taken whole as the file name |
| Lines.NameAfterMarkerIff | src/modules/markdownParser.js:60 | the name found is `n` exactly when `n` is a run of `[\w-]` and `.md` that opens the text |
| Lines.InsertTargetIff | src/modules/markdownParser.js:60 | the directive pattern yields `n` exactly when some position holds `$insert=` followed by a name the file-name pattern takes as `n`, and no earlier position holds such a directive: the leftmost one wins |
| Lines.DirectiveHasMarker | src/modules/markdownParser.js:60 | a directive is only ever found on a line that contains `$insert=` |
| Render.HeadingHtml | src/modules/markdownParser.js:83-87 | fails with `MissingContext` exactly when a footnote reference survives the markup stages of the trimmed content; content without inline syntax is written between `<hN>` tags as it is |
| Render.BlockquoteHtml | src/modules/markdownParser.js:176-178 | fails with `MissingContext` exactly when a footnote reference survives the markup stages of the line after its first two characters; a rest without inline syntax is written between the tags untrimmed |
| Render.AlignAttribute | src/modules/markdownParser.js:126 | the style attribute is absent exactly when the column has no alignment |
| Render.FootnoteBody | src/modules/markdownParser.js:233 | a footnote body is transformed with a fresh, empty context, which succeeds and leaves the counter at 1 |
| Steps.InsertHtmlCases | src/modules/markdownParser.js:59-73 | no directive gives nothing, a missing file the error paragraph naming it, an existing file its own parse (fuel permitting) |
| Parser.Context.constructor | src/modules/markdownParser.js:14-26 | the fresh context |
| Parser.Context.ReplaceFootnotes | src/modules/markdownParser.js:213-220 | the scan's output and new counter are the reference resolution of the text; it fails only when `hasOwnProperty` is shadowed and a token exists |
| Parser.Context.HandleInlineElements | src/modules/markdownParser.js:198-211 | the transform with this context; only the counter changes |
| Parser.Context.HandleCodeBlockContent | src/modules/markdownParser.js:186-192 | the closing fence clears the flag; other lines are escaped and ended with a newline |
| Parser.Context.HandleEmptyLine | src/modules/markdownParser.js:166-174 | closes the open list and resets its indentation |
| Parser.Context.HandleFootnoteDefinition | src/modules/markdownParser.js:75-81 | stores the captured text under the captured id and returns nothing |
| Parser.Context.RenderTable | src/modules/markdownParser.js:123-142 | the table HTML of the header, alignments and rows |
| Parser.Context.HandleTableRow | src/modules/markdownParser.js:89-121 | header, alignments or body row, and a row without a trailing `\|` flushes the table |
| Parser.Context.FlushTable | src/modules/markdownParser.js:111-118 | renders the gathered table and clears the four table fields |
| Parser.Context.OpenList | src/modules/markdownParser.js:151-159 | closes and opens lists as the list step says |
| Parser.Context.HandleListItem | src/modules/markdownParser.js:144-164 | list tags, then the item with its content transformed in this context |
| Parser.Context.HandleCodeBlockStart | src/modules/markdownParser.js:180-184 | sets the flag and language and returns the opening tag |
| Parser.Context.HandleRegularLine | src/modules/markdownParser.js:194-196 | a paragraph around the transformed line |
| Parser.Context.ParseLine | src/modules/markdownParser.js:38-57 | the handler the dispatch picks, with its HTML, its error and the context it leaves |
| Parser.ScanPiece | src/modules/markdownParser.js:214-219 | one step of the global replace: a known reference becomes its numbered anchor, an unknown one and any other character are copied |
| Parser.RenderCells | src/modules/markdownParser.js:125-128 | one row's cells, escaped and aligned by column, in order |
| Parser.HandleInsert | src/modules/markdownParser.js:59-73 | the directive's outcome, recursing into the named file with a fresh context |
| Parser.ParseMarkdown | src/modules/markdownParser.js:11-36 | the loop over the lines, the footnote section and the trim give the document |
| Parser.RenderFootnoteItem | src/modules/markdownParser.js:233 | one entry's list item |
| Parser.RenderFootnotes | src/modules/markdownParser.js:228-237 | nothing for an empty table, otherwise the section with one item per entry in table order |
| Properties.TrimIdempotent | src/modules/markdownParser.js:35 | trimming twice is trimming once |
| Properties.CodeBlockLine | src/modules/markdownParser.js:39-41 | inside a code block every line goes to the code handler; the escaped line holds no `<` or `>` and decodes to the line |
| Properties.FenceStartLine | src/modules/markdownParser.js:180-184 | a fence line opens a block named by what follows the line's first three characters, trimmed, with no newline after the tag |
| Properties.IndentedFenceLanguage | src/modules/markdownParser.js:182 | the fence `  ```js` has the language ``` ``js ``` |
| Properties.HeadingIff | src/modules/markdownParser.js:49 | a line is a heading exactly when it opens with one to six hashes and white space, and the level is their number |
| Properties.SevenHashesNeverHeading | src/modules/markdownParser.js:49 | seven or more hashes are never a heading |
| Properties.BlockquoteLine | src/modules/markdownParser.js:53 | a blockquote line leaves the context as it is, fails with `MissingContext` exactly when a reference survives markup of the line after its first two characters, and a plain rest gives `<blockquote>` around it untrimmed |
| Properties.HeadingLine | src/modules/markdownParser.js:83-87 | a heading line gives `<hN>` around its trimmed rest, leaves the context unchanged, and fails exactly when the context-free transform does |
| Properties.ListItemOpens | src/modules/markdownParser.js:151-159 | tags are written exactly when no list is open or the indentation or kind differs; afterwards the item's list is open |
| Properties.BlankLineClosesList | src/modules/markdownParser.js:166-174 | a blank line emits the closing tag of the open list, if any, and clears the list flag |
| Properties.OnlyBlankAndItemsTouchLists | src/modules/markdownParser.js:38-57 | no other kind of line changes the list flag, kind or indentation |
| Properties.LineStepKeepsListConsistent | src/modules/markdownParser.js:151-158 | every step keeps an open list's kind set |
| Properties.TableRowsNeverRender | src/modules/markdownParser.js:50 | through the dispatch a pipe row emits nothing and leaves the table open, taking the row as header, alignments or body row |
| Properties.CellsTrimmed | src/modules/markdownParser.js:90 | every cell is trimmed and not empty |
| Properties.CellsRoundTrip | src/modules/markdownParser.js:90 | writing trimmed, non-empty cells between pipes and reading the row back gives the same cells |
| Properties.CellsInColumnOrder | src/modules/markdownParser.js:133-136 | a row's HTML equals the front-to-back reference that numbers the columns from 0 |
| Properties.DefinitionLine | src/modules/markdownParser.js:75-81 | a definition line emits nothing and stores its text under its id |
| Properties.InlineStepCounter | src/modules/markdownParser.js:216 | the counter rises by the number of references to ids defined on earlier lines |
| Properties.ForwardRefsStayRaw | src/modules/markdownParser.js:215 | references to ids not yet defined stay raw and the counter does not move |
| Properties.CounterNeverDecreases | src/modules/markdownParser.js:216 | no line lowers the counter |
| Properties.LineStepKeepsTable | src/modules/markdownParser.js:78 | every line keeps the table free of duplicate ids and of `__proto__` |
| Properties.RunLinesKeepsTable | src/modules/markdownParser.js:28-31 | over any run of lines the table stays well formed and the counter never goes down |
| Properties.FootnoteItemsAppend | src/modules/markdownParser.js:232-234 | the items of a table split in two are the items of each part, one after the other |
| Properties.FootnotesSectionSmall | src/modules/markdownParser.js:229 | an empty table gives no section, and one entry gives one item |
| Properties.FootnotesSectionInOrder | src/modules/markdownParser.js:228-237 | the section lists the entries in table order between its head and foot |
| Properties.FootnoteBodyKeepsRefs | src/modules/markdownParser.js:233 | references inside a footnote body stay raw |
| Properties.InsertTakesPrecedence | src/modules/markdownParser.js:47 | a non-blank line outside a code block that mentions `$insert=` goes to the directive handler and leaves the context as it is |
| Properties.DocumentTrimmed | src/modules/markdownParser.js:35 | the document is trimmed: neither end is white space |
| Properties.DocumentTableWellFormed | src/modules/markdownParser.js:11-36 | the footnote table of a finished parse is well formed |

## Left out

- `console.warn` for a missing file (src/modules/markdownParser.js:68) is a log line with no effect on the output, so it is not modelled.
- `fs.existsSync`, `fs.readFileSync`, `path.resolve` and `path.dirname` are modelled by a map from file name to content.
  - A directive's name has no path separator, so every document of one parse resolves names in one directory.
  - Reading errors other than a missing file are not modelled.
- The source has no bound on how deeply directives recurse; a file that inserts itself exhausts the stack. The model takes a `fuel` argument instead, and `Err(DepthExceeded)` stands for the stack overflow.
- Footnote section order: the model lists entries in order of first definition. JavaScript's `Object.entries` lists integer-like keys such as `1` or `2` first, in ascending order. So with numeric ids defined out of order, the order differs.
- Strings are sequences of Unicode scalar values, not UTF-16 code units. Every character the patterns and `trim` test is a single UTF-16 unit (ASCII and the white space of `\s` all lie below U+10000), so the places the parser cuts are the same either way, but surrogate pairs are not modelled.
- The exported handlers are modelled as `parseLine` calls them. An outside caller passing other arguments is not modelled, for example `handleHeading` with a context, or with a line that is not a heading.
- The JavaScript regular-expression engine is not modelled. Each pattern of the source has its own matcher instead.
- The other files of the repository are not part of this model: `src/commands/build.js`, `src/commands/new.js` and `meldr.js`. They hold the command line, file traversal, watching and templating.

/** The line tests of `parseLine`, in the order it tries them, and the pieces the
    handlers cut out of a line. Each regular expression of the source is written out as
    a predicate on the characters of the line. */
module Lines {
  import opened Strings
  import opened Results

  /** A blank line: nothing is left once it is trimmed. */
  predicate IsBlank(line: string) {
    Trim(line) == []
  }

  const InsertMarker: string := "$insert="

  /** The line mentions an `$insert=` directive anywhere. */
  predicate HasInsertMarker(line: string) {
    Contains(line, InsertMarker)
  }

  /** Length of the id of a footnote definition `[^id]:` that opens the line, or 0. */
  function DefinitionIdLength(line: string): (n: nat)
    ensures n > 0 ==> n + 4 <= |line| && line[..2] == "[^" && line[n + 2..n + 4] == "]:"
    ensures n > 0 ==> forall i :: 2 <= i < n + 2 ==> IsWordChar(line[i])
  {
    if "[^" <= line then
      var n := SpanLength(line[2..], Word);
      if n > 0 && At(line, n + 2, "]:") then n else 0
    else 0
  }

  /** A line that opens with `[^w]:` for a run `w` of word characters has an id of `w`'s
      length, so it is a footnote definition. */
  lemma DefinitionIdLengthOf(line: string, w: string)
    requires IsWord(w) && "[^" + w + "]:" <= line
    ensures DefinitionIdLength(line) == |w|
  {
    PrefixSplit(line, "[^" + w, "]:");
    PrefixSplit(line, "[^", w);
    assert line[2..][|w|] == line[|w| + 2..][0] == ']';
    SpanOfRun(line[2..], w, Word);
    assert line[|w| + 2..|w| + 4] == line[|w| + 2..][..2];
  }

  /** The line opens with `[^id]:`. */
  predicate IsFootnoteDefinition(line: string) {
    DefinitionIdLength(line) > 0
  }

  /** Number of `#` the line starts with. */
  function HashCount(line: string): nat {
    SpanLength(line, Hash)
  }

  /** One to six `#`, then white space. */
  predicate IsHeading(line: string) {
    var n := HashCount(line);
    1 <= n <= 6 && n < |line| && IsSpace(line[n])
  }

  /** A `|`, any characters but line terminators, and a `|` that ends the line. */
  predicate IsTableRow(line: string) {
    |line| >= 2 && line[0] == '|' && line[|line| - 1] == '|' && NoLineTerminator(line)
  }

  /** Indentation, `-`, then white space. */
  predicate IsUnorderedItem(line: string) {
    var k := LeadingSpaces(line);
    k + 1 < |line| && line[k] == '-' && IsSpace(line[k + 1])
  }

  /** Number of digits after the indentation. */
  function NumberLength(line: string): nat {
    var k := LeadingSpaces(line);
    SpanLength(line[k..], Digit)
  }

  /** Indentation, digits, `.`, then white space. */
  predicate IsOrderedItem(line: string) {
    var k := LeadingSpaces(line);
    var n := NumberLength(line);
    n > 0 && k + n + 1 < |line| && line[k + n] == '.' && IsSpace(line[k + n + 1])
  }

  predicate IsListItem(line: string) {
    IsUnorderedItem(line) || IsOrderedItem(line)
  }

  /** Three or more `-` and nothing else. */
  predicate IsRule(line: string) {
    |line| >= 3 && SpanLength(line, Dash) == |line|
  }

  /** `>` then white space. */
  predicate IsBlockquote(line: string) {
    |line| >= 2 && line[0] == '>' && IsSpace(line[1])
  }

  /** The trimmed line starts with three backticks. */
  predicate IsFenceStart(line: string) {
    "```" <= Trim(line)
  }

  /** The trimmed line is exactly three backticks. */
  predicate IsFenceEnd(line: string) {
    Trim(line) == "```"
  }

  /** Which handler `parseLine` hands a line to. */
  datatype LineKind =
    | CodeContent
    | Blank
    | Insert
    | FootnoteDefinition
    | Heading
    | TableRow
    | ListItem
    | HorizontalRule
    | Blockquote
    | FenceStart
    | Paragraph

  /** The dispatch of `parseLine`: the first test that holds decides. */
  function Classify(inCodeBlock: bool, line: string): (k: LineKind)
    ensures k == CodeContent <==> inCodeBlock
    ensures k == Blank <==> !inCodeBlock && IsBlank(line)
    ensures k == Heading ==> IsHeading(line) && !HasInsertMarker(line)
    ensures k == Blockquote ==> IsBlockquote(line) && !HasInsertMarker(line)
    ensures k == Paragraph ==>
      !inCodeBlock && !IsBlank(line) && !HasInsertMarker(line) && !IsFootnoteDefinition(line) &&
      !IsHeading(line) && !IsTableRow(line) && !IsListItem(line) && !IsRule(line) &&
      !IsBlockquote(line) && !IsFenceStart(line)
  {
    if inCodeBlock then CodeContent
    else if IsBlank(line) then Blank
    else if HasInsertMarker(line) then Insert
    else if IsFootnoteDefinition(line) then FootnoteDefinition
    else if IsHeading(line) then Heading
    else if IsTableRow(line) then TableRow
    else if IsListItem(line) then ListItem
    else if IsRule(line) then HorizontalRule
    else if IsBlockquote(line) then Blockquote
    else if IsFenceStart(line) then FenceStart
    else Paragraph
  }

  // ----- the pieces the handlers take from a line -----

  /** `handleFootnoteDefinition`'s match: the id, and the text after `]:` once the white
      space that follows it is skipped, up to the first line terminator. */
  function DefinitionParts(line: string): (r: Option<(string, string)>)
    ensures r.Some? <==> IsFootnoteDefinition(line)
    ensures r.Some? ==> r.value.0 != [] && "[^" + r.value.0 + "]:" <= line
    ensures r.Some? ==> forall i :: 0 <= i < |r.value.0| ==> IsWordChar(r.value.0[i])
    ensures r.Some? ==> NoLineTerminator(r.value.1)
    ensures r.Some? ==> |r.value.0| + 4 <= |line| && r.value.1 == DefinitionText(line[|r.value.0| + 4..])
    ensures r.Some? ==> Captured(line[|r.value.0| + 4..], r.value.1)
  {
    var n := DefinitionIdLength(line);
    if n == 0 then None
    else
      DefinitionPrefix(line);
      Some((line[2..n + 2], DefinitionText(line[n + 4..])))
  }


  /** `text` is what `\s*(.*)` captures from `after`: the run that follows the leading
      white space and stops at a line terminator or at the end. */
  predicate Captured(after: string, text: string) {
    var k := LeadingSpaces(after);
    k + |text| <= |after| && text == after[k..k + |text|] &&
    (k + |text| == |after| || IsLineTerminator(after[k + |text|]))
  }

  /** What `\s*(.*)` captures: white space skipped, then everything up to a line terminator. */
  function DefinitionText(after: string): (text: string)
    ensures NoLineTerminator(text)
    ensures Captured(after, text)
  {
    var body := after[LeadingSpaces(after)..];
    body[..SpanLength(body, NotLineTerminator)]
  }

  lemma DefinitionPrefix(line: string)
    requires DefinitionIdLength(line) > 0
    ensures var n := DefinitionIdLength(line); "[^" + line[2..n + 2] + "]:" <= line
  {
    var n := DefinitionIdLength(line);
    assert line[..n + 4] == line[..2] + line[2..n + 2] + line[n + 2..n + 4];
  }

  /** A line that opens with `[^w]:` is a definition of the id `w`. */
  lemma DefinitionPartsOf(line: string, w: string)
    requires IsWord(w) && "[^" + w + "]:" <= line
    ensures DefinitionParts(line).Some? && DefinitionParts(line).value.0 == w
  {
    DefinitionIdLengthOf(line, w);
    PrefixSplit(line, "[^" + w, "]:");
    PrefixSplit(line, "[^", w);
    assert line[2..|w| + 2] == w;
  }

  /** `handleHeading`: the level is the number of leading `#`, the content what follows
      them, trimmed. */
  function HeadingParts(line: string): (r: (nat, string))
    requires IsHeading(line)
    ensures 1 <= r.0 <= 6 && r.0 < |line| && IsSpace(line[r.0])
    ensures line[..r.0] == Repeat('#', r.0) && r.1 == Trim(line[r.0..])
  {
    var n := HashCount(line);
    RepeatPrefix(line, '#', n);
    (n, Trim(line[n..]))
  }

  function Repeat(c: char, n: nat): (r: string)
    ensures |r| == n && forall i :: 0 <= i < n ==> r[i] == c
  {
    if n == 0 then [] else [c] + Repeat(c, n - 1)
  }

  lemma RepeatPrefix(line: string, c: char, n: nat)
    requires n <= |line| && forall i :: 0 <= i < n ==> line[i] == c
    ensures line[..n] == Repeat(c, n)
  {
  }

  /** `handleTableRow`'s cells: the pieces between `|`, blank ones dropped, the rest
      trimmed. */
  function Cells(line: string): (cells: seq<string>)
    ensures forall i :: 0 <= i < |cells| ==> cells[i] != [] && '|' !in cells[i]
  {
    KeptCells(Split(line, '|'))
  }

  function KeptCells(pieces: seq<string>): (cells: seq<string>)
    requires forall i :: 0 <= i < |pieces| ==> '|' !in pieces[i]
    ensures |cells| <= |pieces|
    ensures forall i :: 0 <= i < |cells| ==> cells[i] != [] && '|' !in cells[i]
  {
    if pieces == [] then []
    else
      var rest := KeptCells(pieces[1..]);
      var t := Trim(pieces[0]);
      if t == [] then rest
      else
        TrimKeepsOut(pieces[0], '|');
        [t] + rest
  }

  lemma TrimKeepsOut(s: string, c: char)
    requires c !in s
    ensures c !in Trim(s)
  {
    TrimFacts(s);
  }

  /** The alignment a cell of the separator row asks for. */
  datatype Alignment = Default | Left | Center | Right

  function AlignmentOf(cell: string): (a: Alignment)
    ensures a == Center <==> cell != [] && cell[0] == ':' && cell[|cell| - 1] == ':'
    ensures a == Right <==> cell != [] && cell[0] != ':' && cell[|cell| - 1] == ':'
    ensures a == Left <==> cell != [] && cell[0] == ':' && cell[|cell| - 1] != ':'
  {
    var starts := cell != [] && cell[0] == ':';
    var ends := cell != [] && cell[|cell| - 1] == ':';
    if starts && ends then Center
    else if ends then Right
    else if starts then Left
    else Default
  }

  function Alignments(cells: seq<string>): (aligns: seq<Alignment>)
    ensures |aligns| == |cells|
    ensures forall i :: 0 <= i < |cells| ==> aligns[i] == AlignmentOf(cells[i])
  {
    if cells == [] then [] else [AlignmentOf(cells[0])] + Alignments(cells[1..])
  }

  /** The separator row below a table header. */
  predicate IsSeparatorRow(line: string) {
    Contains(line, "-|-")
  }

  /** `handleListItem`'s reading of a line: indentation, whether it is numbered, and the
      content after the marker and the one white-space character that follows it. */
  datatype ItemParts = ItemParts(indent: nat, ordered: bool, content: string)

  function ItemPartsOf(line: string): (p: ItemParts)
    ensures p.indent == LeadingSpaces(line) && (p.ordered <==> IsOrderedItem(line))
    ensures IsUnorderedItem(line) ==> p.content == line[p.indent + 2..]
    ensures IsOrderedItem(line) ==> p.content == line[p.indent + NumberLength(line) + 2..]
    ensures !IsListItem(line) ==> p.content == line
  {
    var k := LeadingSpaces(line);
    var content :=
      if IsUnorderedItem(line) then line[k + 2..]
      else if IsOrderedItem(line) then line[k + NumberLength(line) + 2..]
      else line;
    ItemParts(k, IsOrderedItem(line), content)
  }

  /** The file name a directive at the start of `s` names: name characters, then `.md`. */
  function NameAfterMarker(s: string): (r: Option<string>)
    ensures r.Some? ==> |r.value| >= 4 && r.value <= s && r.value[|r.value| - 3..] == ".md"
    ensures r.Some? ==> IsFileName(r.value[..|r.value| - 3])
  {
    var n := SpanLength(s, FileName);
    if n > 0 && At(s, n, ".md") then Some(s[..n + 3]) else None
  }

  /** A name of `[\w-]` characters followed by `.md` is taken whole: the class holds no
      `.`, so the greedy run stops exactly before the extension. */
  lemma NameAfterMarkerOf(s: string, b: string)
    requires IsFileName(b) && b + ".md" <= s
    ensures NameAfterMarker(s) == Some(b + ".md")
  {
    PrefixSplit(s, b, ".md");
    assert s[|b|] == s[|b|..][0] == '.';
    SpanOfRun(s, b, FileName);
    assert s[..|b| + 3] == s[..|b|] + s[|b|..][..3];
  }

  /** The file-name pattern finds `n` exactly when `n` is a file name and `.md` that opens
      the text. */
  lemma NameAfterMarkerIff(s: string, n: string)
    ensures NameAfterMarker(s) == Some(n) <==> exists b :: IsFileName(b) && n == b + ".md" && n <= s
  {
    if NameAfterMarker(s) == Some(n) {
      var b := n[..|n| - 3];
      assert n == b + ".md";
    }
    if exists b :: IsFileName(b) && n == b + ".md" && n <= s {
      var b :| IsFileName(b) && n == b + ".md" && n <= s;
      NameAfterMarkerOf(s, b);
    }
  }

  /** `handleInsert`'s match: the leftmost `$insert=` followed by a valid file name. */
  function InsertTarget(line: string): Option<string> {
    FindDirective(line)
  }

  /** The scan behind `InsertTarget`, one start position at a time. */
  function FindDirective(line: string): Option<string>
    decreases |line|
  {
    if line == [] then None
    else if InsertMarker <= line && NameAfterMarker(line[8..]).Some? then NameAfterMarker(line[8..])
    else FindDirective(line[1..])
  }

  /** A directive starts at `i`: the marker, then a file name the name pattern takes. */
  predicate DirectiveAt(line: string, i: nat) {
    At(line, i, InsertMarker) && NameAfterMarker(line[i + 8..]).Some?
  }

  /** The directive pattern finds `n` exactly when some position starts a directive naming
      `n` and no earlier position starts one: the leftmost directive wins. */
  lemma InsertTargetIff(line: string, n: string)
    ensures InsertTarget(line) == Some(n) <==>
      exists i: nat :: DirectiveAt(line, i) && NameAfterMarker(line[i + 8..]) == Some(n) &&
        forall j: nat :: j < i ==> !DirectiveAt(line, j)
  {
    if InsertTarget(line) == Some(n) {
      var i := DirectiveFound(line);
    }
    if exists i: nat :: DirectiveAt(line, i) && NameAfterMarker(line[i + 8..]) == Some(n) &&
        forall j: nat :: j < i ==> !DirectiveAt(line, j) {
      var i: nat :| DirectiveAt(line, i) && NameAfterMarker(line[i + 8..]) == Some(n) &&
        forall j: nat :: j < i ==> !DirectiveAt(line, j);
      DirectiveFirstAt(line, i);
    }
  }

  /** A found target comes from the leftmost directive. */
  lemma {:induction false} DirectiveFound(line: string) returns (i: nat)
    requires FindDirective(line).Some?
    ensures DirectiveAt(line, i) && FindDirective(line) == NameAfterMarker(line[i + 8..])
    ensures forall j: nat :: j < i ==> !DirectiveAt(line, j)
    decreases |line|
  {
    if InsertMarker <= line && NameAfterMarker(line[8..]).Some? {
      i := 0;
      assert line[0..8] == InsertMarker;
    } else {
      NoDirectiveAtStart(line);
      var k := DirectiveFound(line[1..]);
      DirectiveShift(line, k);
      NoneBeforeShifted(line, k);
      i := k + 1;
    }
  }

  /** The scan returns the name of the first directive it meets. */
  lemma {:induction false} DirectiveFirstAt(line: string, i: nat)
    requires DirectiveAt(line, i) && forall j: nat :: j < i ==> !DirectiveAt(line, j)
    ensures FindDirective(line) == NameAfterMarker(line[i + 8..])
    decreases i
  {
    if i == 0 {
      assert line[..8] == line[0..8];
    } else {
      assert !DirectiveAt(line, 0);
      NoDirectiveAtStart(line);
      DirectiveShift(line, i - 1);
      NoneBeforeInSuffix(line, i - 1);
      DirectiveFirstAt(line[1..], i - 1);
    }
  }

  lemma NoDirectiveAtStart(line: string)
    requires line != [] && !(InsertMarker <= line && NameAfterMarker(line[8..]).Some?)
    ensures !DirectiveAt(line, 0)
    ensures FindDirective(line) == FindDirective(line[1..])
  {
    if |line| >= 8 {
      assert line[..8] == line[0..8];
    }
  }

  lemma DirectiveShift(line: string, j: nat)
    requires line != []
    ensures DirectiveAt(line[1..], j) <==> DirectiveAt(line, j + 1)
    ensures DirectiveAt(line, j + 1) ==> line[1..][j + 8..] == line[j + 9..]
  {
    if j + 8 <= |line[1..]| {
      assert line[1..][j..j + 8] == line[j + 1..j + 9];
      assert line[1..][j + 8..] == line[j + 9..];
    }
  }

  lemma NoneBeforeShifted(line: string, k: nat)
    requires line != [] && !DirectiveAt(line, 0)
    requires forall j: nat :: j < k ==> !DirectiveAt(line[1..], j)
    ensures forall j: nat :: j < k + 1 ==> !DirectiveAt(line, j)
  {
    forall j: nat | 0 < j < k + 1 ensures !DirectiveAt(line, j) {
      DirectiveShift(line, j - 1);
    }
  }

  lemma NoneBeforeInSuffix(line: string, k: nat)
    requires line != []
    requires forall j: nat :: j < k + 1 ==> !DirectiveAt(line, j)
    ensures forall j: nat :: j < k ==> !DirectiveAt(line[1..], j)
  {
    forall j: nat | j < k ensures !DirectiveAt(line[1..], j) {
      DirectiveShift(line, j);
    }
  }

  /** A directive is only ever found on a line that mentions the marker, so only lines the
      dispatch hands to `handleInsert` can name a file. */
  lemma {:induction false} DirectiveHasMarker(line: string)
    ensures FindDirective(line).Some? ==> HasInsertMarker(line)
    decreases |line|
  {
    if line != [] {
      if InsertMarker <= line && NameAfterMarker(line[8..]).Some? {
        assert At(line, 0, InsertMarker);
      } else {
        DirectiveHasMarker(line[1..]);
        if FindDirective(line[1..]).Some? {
          ContainsShift(line, InsertMarker);
        }
      }
    }
  }

  lemma ContainsShift(s: string, p: string)
    requires s != [] && Contains(s[1..], p)
    ensures Contains(s, p)
  {
    var i :| 0 <= i <= |s[1..]| && At(s[1..], i, p);
    assert s[1..][i..i + |p|] == s[i + 1..i + 1 + |p|];
    assert At(s, i + 1, p);
  }
}

/** `handleInlineElements` and its stages: an ordered chain of global, leftmost,
    non-overlapping substitutions, then footnote references, then emoji shortcodes.
    Each regular expression of the source is modelled by a dedicated matcher that says
    what the pattern matches at the start of the remaining text; the global replace
    scans left to right and resumes after each match. */
module Inline {
  import opened Strings
  import opened Results

  /** A match at the start of the remaining text: how much it consumes and its replacement. */
  datatype Match = Match(len: nat, out: string)

  /** The substitution stages that need no parse context. */
  datatype Rule =
    /** `delim`, then the shortest run of non-terminator characters, then `delim` again;
        the run is wrapped in the two tags. */
    | Delimited(delim: string, openTag: string, closeTag: string)
    /** `![alt](url)` with an absolute http or https url, to an `img` element. */
    | Image
    /** `[text](target)`, to an `a` element. */
    | Link
    /** `:name:` with a name of word characters and hyphens, to its glyph when it has one. */
    | Emoji

  /** The character every match of the rule starts with (an empty delimiter never matches,
      so any character will do for it). */
  function Trigger(rule: Rule): char {
    match rule
    case Delimited(d, _, _) => if d == [] then ' ' else d[0]
    case Image => '!'
    case Link => '['
    case Emoji => ':'
  }

  /** The shortest `k` such that `t[..k]` holds no line terminator and `d` follows it. */
  function FindClose(t: string, d: string): (k: Option<nat>)
    requires d != []
    ensures k.Some? ==> At(t, k.value, d) && NoLineTerminator(t[..k.value])
    ensures k.Some? ==> forall j :: 0 <= j < k.value ==> !At(t, j, d)
    ensures k.None? ==> forall j :: 0 <= j <= |t| && NoLineTerminator(t[..j]) ==> !At(t, j, d)
    decreases |t|
  {
    if At(t, 0, d) then Some(0)
    else if t == [] || IsLineTerminator(t[0]) then None
    else
      FindCloseStep(t, d);
      match FindClose(t[1..], d)
      case Some(k) => Some(k + 1)
      case None => None
  }

  lemma FindCloseStep(t: string, d: string)
    requires t != [] && !IsLineTerminator(t[0]) && !At(t, 0, d)
    ensures forall j :: 1 <= j <= |t| ==> (At(t[1..], j - 1, d) <==> At(t, j, d))
    ensures forall j :: 1 <= j <= |t| ==> (NoLineTerminator(t[1..][..j - 1]) <==> NoLineTerminator(t[..j]))
  {
    forall j | 1 <= j <= |t| ensures At(t[1..], j - 1, d) <==> At(t, j, d) {
      if j + |d| <= |t| {
        assert t[1..][j - 1..j - 1 + |d|] == t[j..j + |d|];
      }
    }
    forall j | 1 <= j <= |t| ensures NoLineTerminator(t[1..][..j - 1]) <==> NoLineTerminator(t[..j]) {
      assert t[..j] == [t[0]] + t[1..][..j - 1];
    }
  }

  /** The glyphs of the three mapped shortcodes, character for character as the source
      file spells them: its bytes are the UTF-8 of a mis-decoded emoji, and a UTF-8
      reader yields these characters. */
  const JoyGlyph: string := "\U{F8FF}\U{00FC}\U{00F2}\U{00C7}"
  const SmileGlyph: string := "\U{F8FF}\U{00FC}\U{00F2}\U{00E4}"
  const HeartGlyph: string := "\U{201A}\U{00F9}\U{00A7}\U{00D4}\U{220F}\U{00E8}"

  /** The emoji table lookup, falling back to the token itself. */
  function EmojiFor(token: string): string {
    if token == ":joy:" then JoyGlyph
    else if token == ":smile:" then SmileGlyph
    else if token == ":heart:" then HeartGlyph
    else token
  }

  function ImageTag(alt: string, src: string): string {
    "<img alt=\"" + alt + "\" src=\"" + src + "\" />"
  }

  /** Length of the `https?://` the url opens with, or 0. */
  function SchemeLength(t: string): (k: nat)
    ensures k <= |t|
  {
    if "https://" <= t then 8 else if "http://" <= t then 7 else 0
  }

  function MatchImage(s: string): (m: Option<Match>)
    ensures m.Some? ==> 0 < m.value.len <= |s| && s[0] == '!'
  {
    if !("![" <= s) then None
    // the alt text stops at the first `]`
    else ImageAfterAlt(s, 2 + FindChar(s[2..], ']'))
  }

  /** The image pattern once its alt text is known to end at `p`: a `(` must follow. */
  function ImageAfterAlt(s: string, p: nat): (m: Option<Match>)
    requires 2 <= p <= |s|
    ensures m.Some? ==> p + 2 < m.value.len <= |s|
  {
    if p + 1 < |s| && s[p + 1] == '(' then ImageUrl(s, p, SchemeLength(s[p + 2..])) else None
  }

  /** The image pattern once its url is known to open at `p + 2` with a scheme of `k`
      characters: a scheme is required, and the rest of the url stops at the first `)` and
      must not be empty. */
  function ImageUrl(s: string, p: nat, k: nat): (m: Option<Match>)
    requires 2 <= p && p + 2 + k <= |s|
    ensures m.Some? ==> p + 2 < m.value.len <= |s|
  {
    var q := p + 2 + k + FindChar(s[p + 2 + k..], ')');
    if k > 0 && q > p + 2 + k && q < |s| then Some(Match(q + 1, ImageTag(s[2..p], s[p + 2..q])))
    else None
  }

  /** `s` opens with `![alt](scheme rest)` as the image pattern reads it: the alt text
      holds no `]`, the scheme is `http://` or `https://`, and the rest of the url is not
      empty and holds no `)`. */
  predicate ImageSyntax(s: string, alt: string, scheme: string, rest: string) {
    ']' !in alt && (scheme == "http://" || scheme == "https://") && rest != [] && ')' !in rest &&
    "![" + alt + "](" + scheme + rest + ")" <= s
  }

  /** An image at the start of the text is matched whole and becomes an `img` element with
      its alt text and its url. */
  lemma MatchImageOf(s: string, alt: string, scheme: string, rest: string)
    requires ImageSyntax(s, alt, scheme, rest)
    ensures MatchImage(s) == Some(Match(|alt| + |scheme| + |rest| + 5, ImageTag(alt, scheme + rest)))
  {
    var p := 2 + |alt|;
    var u := p + 2;
    var v := u + |scheme|;
    var q := v + |rest|;
    ImagePieces(s, alt, scheme, rest, p, u, v, q);
    ImageAt(s, alt, scheme, rest, p, u, v, q);
  }

  /** Where the parts of an image lie in the text. */
  lemma ImagePieces(s: string, alt: string, scheme: string, rest: string, p: nat, u: nat, v: nat, q: nat)
    requires ImageSyntax(s, alt, scheme, rest)
    requires p == 2 + |alt| && u == p + 2 && v == u + |scheme| && q == v + |rest|
    ensures "![" <= s && q < |s| && s[p] == ']' && s[p + 1] == '(' && s[q] == ')'
    ensures alt <= s[2..] && scheme <= s[u..] && rest <= s[v..]
    ensures scheme != [] && SchemeLength(s[u..]) == |scheme| && ']' !in alt && ')' !in rest && rest != []
  {
    PrefixSplit(s, "![" + alt + "](" + scheme + rest, ")");
    PrefixSplit(s, "![" + alt + "](" + scheme, rest);
    PrefixSplit(s, "![" + alt + "](", scheme);
    PrefixSplit(s, "![" + alt, "](");
    PrefixSplit(s, "![", alt);
    assert s[q] == s[q..][0] == ')';
    assert s[p] == s[p..][0] == ']' && s[p + 1] == s[p..][1] == '(';
    ImageScheme(s[u..], scheme);
  }

  /** `MatchImage` on an image whose parts lie at the places `ImagePieces` gives. */
  lemma ImageAt(s: string, alt: string, scheme: string, rest: string, p: nat, u: nat, v: nat, q: nat)
    requires p == 2 + |alt| && u == p + 2 && v == u + |scheme| && q == v + |rest|
    requires "![" <= s && q < |s| && s[p] == ']' && s[p + 1] == '(' && s[q] == ')'
    requires alt <= s[2..] && scheme <= s[u..] && rest <= s[v..]
    requires scheme != [] && SchemeLength(s[u..]) == |scheme| && ']' !in alt && ')' !in rest && rest != []
    ensures MatchImage(s) == Some(Match(|alt| + |scheme| + |rest| + 5, ImageTag(alt, scheme + rest)))
  {
    ImageSearches(s, alt, scheme, rest, p, u, v, q);
    ImageUnfold(s, p, |scheme|, q, alt, scheme + rest);
  }

  /** The two searches of the image pattern stop at the `]` after the alt text and at the
      `)` after the url. */
  lemma ImageSearches(s: string, alt: string, scheme: string, rest: string, p: nat, u: nat, v: nat, q: nat)
    requires p == 2 + |alt| && u == p + 2 && v == u + |scheme| && q == v + |rest|
    requires q < |s| && s[p] == ']' && s[q] == ')'
    requires alt <= s[2..] && scheme <= s[u..] && rest <= s[v..]
    requires ']' !in alt && ')' !in rest
    ensures p == 2 + FindChar(s[2..], ']') && q == p + 2 + |scheme| + FindChar(s[p + 2 + |scheme|..], ')')
    ensures s[2..p] == alt && s[p + 2..q] == scheme + rest
  {
    FindCharAfter(s[2..], alt, ']');
    assert s[2..p] == s[2..][..|alt|];
    FindCharAfter(s[v..], rest, ')');
    SliceOfParts(s, u, scheme, rest);
  }

  /** `MatchImage` once its three searches are known. */
  lemma ImageUnfold(s: string, p: nat, k: nat, q: nat, alt: string, url: string)
    requires "![" <= s && 2 <= p && p + 1 < |s| && s[p + 1] == '('
    requires p == 2 + FindChar(s[2..], ']') && k == SchemeLength(s[p + 2..]) && k > 0
    requires p + 2 + k < q < |s| && q == p + 2 + k + FindChar(s[p + 2 + k..], ')')
    requires s[2..p] == alt && s[p + 2..q] == url
    ensures MatchImage(s) == Some(Match(q + 1, ImageTag(alt, url)))
  {
    assert MatchImage(s) == ImageAfterAlt(s, p);
    assert ImageAfterAlt(s, p) == ImageUrl(s, p, k);
    ImageUrlAt(s, p, k, q);
  }

  lemma ImageUrlAt(s: string, p: nat, k: nat, q: nat)
    requires 2 <= p && 0 < k && p + 2 + k < q < |s| && q == p + 2 + k + FindChar(s[p + 2 + k..], ')')
    ensures ImageUrl(s, p, k) == Some(Match(q + 1, ImageTag(s[2..p], s[p + 2..q])))
  {
  }

  /** The scheme test of the image pattern takes exactly the scheme the url opens with. */
  lemma ImageScheme(t: string, scheme: string)
    requires (scheme == "http://" || scheme == "https://") && scheme <= t
    ensures SchemeLength(t) == |scheme|
  {
    if scheme == "http://" {
      assert t[4] == scheme[4] == ':';
    }
  }

  /** A scheme the test accepts is `http://` or `https://`. */
  lemma SchemeOf(t: string)
    requires SchemeLength(t) > 0
    ensures var k := SchemeLength(t); k <= |t| && (t[..k] == "http://" || t[..k] == "https://")
  {
  }

  /** The image pattern matches exactly where such an image opens the text, so an url with
      any other scheme is never an image. */
  lemma MatchImageIff(s: string)
    ensures MatchImage(s).Some? <==> exists alt, scheme, rest :: ImageSyntax(s, alt, scheme, rest)
  {
    if MatchImage(s).Some? {
      MatchImageSyntax(s);
    } else {
      forall alt, scheme, rest | ImageSyntax(s, alt, scheme, rest) ensures false {
        MatchImageOf(s, alt, scheme, rest);
      }
    }
  }

  /** What a match of the image pattern was made of. */
  lemma MatchImageSyntax(s: string)
    requires MatchImage(s).Some?
    ensures exists alt, scheme, rest :: ImageSyntax(s, alt, scheme, rest)
  {
    var p := 2 + FindChar(s[2..], ']');
    assert "![" <= s && ImageAfterAlt(s, p).Some?;
    var k := SchemeLength(s[p + 2..]);
    assert p + 1 < |s| && s[p + 1] == '(' && ImageUrl(s, p, k).Some?;
    var q := p + 2 + k + FindChar(s[p + 2 + k..], ')');
    assert k > 0 && p + 2 + k < q < |s|;
    var alt, scheme, rest := ImageFound(s, p, k, q);
    ImagePiecesJoin(s, alt, scheme, rest, p, p + 2, p + 2 + |scheme|, p + 2 + |scheme| + |rest|);
  }

  /** The parts of an image whose alt text ends at `p`, whose scheme takes `k` characters
      and whose url ends at `q`, as `MatchImage` finds them, and where they lie. */
  lemma ImageFound(s: string, p: nat, k: nat, q: nat) returns (alt: string, scheme: string, rest: string)
    requires "![" <= s && 2 <= p && p + 1 < |s| && s[p + 1] == '('
    requires p == 2 + FindChar(s[2..], ']') && k == SchemeLength(s[p + 2..]) && k > 0
    requires p + 2 + k < q < |s| && q == p + 2 + k + FindChar(s[p + 2 + k..], ')')
    ensures p == 2 + |alt| && k == |scheme| && q == p + 2 + k + |rest|
    ensures var u := p + 2; var v := u + |scheme|;
      "![" <= s && q < |s| && s[p] == ']' && s[p + 1] == '(' && s[q] == ')' &&
      alt <= s[2..] && scheme <= s[u..] && rest <= s[v..] &&
      (scheme == "http://" || scheme == "https://") && ']' !in alt && ')' !in rest && rest != []
  {
    var u := p + 2;
    alt, scheme, rest := s[2..p], s[u..u + k], s[u + k..q];
    SchemeOf(s[u..]);
    assert s[2..][..p - 2] == alt;
    assert s[u..][..k] == scheme;
    assert s[u + k..][..q - u - k] == rest;
  }

  /** The converse of `ImagePieces`: parts in those places make an image. */
  lemma ImagePiecesJoin(s: string, alt: string, scheme: string, rest: string, p: nat, u: nat, v: nat, q: nat)
    requires p == 2 + |alt| && u == p + 2 && v == u + |scheme| && q == v + |rest|
    requires "![" <= s && q < |s| && s[p] == ']' && s[p + 1] == '(' && s[q] == ')'
    requires alt <= s[2..] && scheme <= s[u..] && rest <= s[v..]
    requires (scheme == "http://" || scheme == "https://") && ']' !in alt && ')' !in rest && rest != []
    ensures ImageSyntax(s, alt, scheme, rest)
  {
    PrefixJoin(s, "![", alt);
    assert s[p..][..2] == [s[p], s[p + 1]];
    PrefixJoin(s, "![" + alt, "](");
    PrefixJoin(s, "![" + alt + "](", scheme);
    PrefixJoin(s, "![" + alt + "](" + scheme, rest);
    assert s[q..][..1] == [s[q]];
    PrefixJoin(s, "![" + alt + "](" + scheme + rest, ")");
  }

  function LinkTag(target: string, text: string): string {
    "<a href=\"" + target + "\">" + text + "</a>"
  }

  function MatchLink(s: string): (m: Option<Match>)
    ensures m.Some? ==> 0 < m.value.len <= |s| && s[0] == '['
  {
    if s == [] || s[0] != '[' then None
    else
      // the text stops at the first `]` and must not be empty
      var p := 1 + FindChar(s[1..], ']');
      if p > 1 && p + 1 < |s| && s[p + 1] == '(' then
        // the target stops at the first `)` and must not be empty
        var q := p + 2 + FindChar(s[p + 2..], ')');
        if q > p + 2 && q < |s| then
          Some(Match(q + 1, LinkTag(s[p + 2..q], s[1..p])))
        else None
      else None
  }

  /** `s` opens with `[text](target)` as the link pattern reads it: neither part is empty,
      the text holds no `]` and the target no `)`. */
  predicate LinkSyntax(s: string, text: string, target: string) {
    text != [] && ']' !in text && target != [] && ')' !in target &&
    "[" + text + "](" + target + ")" <= s
  }

  /** A link at the start of the text is matched whole and becomes an `a` element pointing
      at its target. */
  lemma MatchLinkOf(s: string, text: string, target: string)
    requires LinkSyntax(s, text, target)
    ensures MatchLink(s) == Some(Match(|text| + |target| + 4, LinkTag(target, text)))
  {
    LinkPieces(s, text, target);
    var p := 1 + |text|;
    var q := p + 2 + |target|;
    assert s[1..][..|text|] == text;
    FindCharAfter(s[1..], text, ']');
    assert s[p + 2..][..|target|] == target;
    FindCharAfter(s[p + 2..], target, ')');
  }

  /** Where each piece of a link lies in the text it opens. */
  lemma LinkPieces(s: string, text: string, target: string)
    requires LinkSyntax(s, text, target)
    ensures 1 + |text| + 2 + |target| < |s|
    ensures s[0] == '[' && s[1 + |text|] == ']' && s[2 + |text|] == '(' && s[3 + |text| + |target|] == ')'
    ensures s[1..1 + |text|] == text && s[3 + |text|..3 + |text| + |target|] == target
  {
    var p := 1 + |text|;
    var q := p + 2 + |target|;
    PrefixSplit(s, "[" + text + "](" + target, ")");
    PrefixSplit(s, "[" + text + "](", target);
    PrefixSplit(s, "[" + text, "](");
    PrefixSplit(s, "[", text);
    assert s[0] == "["[0];
    assert s[q] == s[q..][0] == ')';
    assert s[p] == s[p..][0] == ']' && s[p + 1] == s[p..][1] == '(';
  }

  /** The link pattern matches exactly where such a link opens the text. */
  lemma MatchLinkIff(s: string)
    ensures MatchLink(s).Some? <==> exists text, target :: LinkSyntax(s, text, target)
  {
    if MatchLink(s).Some? {
      var p := 1 + FindChar(s[1..], ']');
      var q := p + 2 + FindChar(s[p + 2..], ')');
      var text, target := s[1..p], s[p + 2..q];
      assert s[..q + 1] == s[..1] + text + s[p..p + 2] + target + s[q..q + 1];
      assert s[..1] == "[" && s[p..p + 2] == "](" && s[q..q + 1] == ")";
      assert LinkSyntax(s, text, target);
    } else if exists text, target :: LinkSyntax(s, text, target) {
      var text, target :| LinkSyntax(s, text, target);
      MatchLinkOf(s, text, target);
    }
  }

  function MatchEmoji(s: string): (m: Option<Match>)
    ensures m.Some? ==> 0 < m.value.len <= |s| && s[0] == ':'
    ensures m.Some? ==> m.value.out == EmojiFor(s[..m.value.len])
  {
    if s == [] || s[0] != ':' then None
    else
      var n := SpanLength(s[1..], FileName);
      if n > 0 && n + 1 < |s| && s[n + 1] == ':' then Some(Match(n + 2, EmojiFor(s[..n + 2])))
      else None
  }

  function MatchDelimited(d: string, openTag: string, closeTag: string, s: string): (m: Option<Match>)
    ensures m.Some? ==> d != [] && 0 < m.value.len <= |s| && s[0] == d[0]
  {
    if d != [] && d <= s then
      match FindClose(s[|d|..], d)
      case Some(k) => Some(Match(|d| + k + |d|, openTag + s[|d|..|d| + k] + closeTag))
      case None => None
    else None
  }

  /** What the stage's regular expression matches at the start of the remaining text:
      every match consumes at least one character, no more than there are, and starts
      with the stage's trigger character. */
  function MatchRule(rule: Rule, s: string): (m: Option<Match>)
    ensures m.Some? ==> 0 < m.value.len <= |s| && s[0] == Trigger(rule)
  {
    match rule
    case Delimited(d, openTag, closeTag) => MatchDelimited(d, openTag, closeTag, s)
    case Image => MatchImage(s)
    case Link => MatchLink(s)
    case Emoji => MatchEmoji(s)
  }

  /** `text.replace(pattern, replacement)` with the `g` flag: the leftmost match is
      replaced and the scan resumes right after it. */
  function ReplaceAll(rule: Rule, s: string): string
    decreases |s|
  {
    if s == [] then []
    else match MatchRule(rule, s)
      case Some(m) => m.out + ReplaceAll(rule, s[m.len..])
      case None => [s[0]] + ReplaceAll(rule, s[1..])
  }

  /** The first nine stages, in the source's order. */
  const MarkupRules: seq<Rule> := [
    Delimited("***", "<strong><em>", "</em></strong>"),
    Delimited("**", "<strong>", "</strong>"),
    Delimited("*", "<em>", "</em>"),
    Delimited("~~", "<del>", "</del>"),
    Delimited("==", "<mark>", "</mark>"),
    Delimited("^", "<sup>", "</sup>"),
    Delimited("~", "<sub>", "</sub>"),
    Image,
    Link
  ]

  function ApplyRules(rules: seq<Rule>, s: string): string
  {
    if rules == [] then s else ApplyRules(rules[1..], ReplaceAll(rules[0], s))
  }

  function InlineMarkup(text: string): string {
    ApplyRules(MarkupRules, text)
  }

  /** `replaceEmojis`. */
  function ReplaceEmojis(text: string): string {
    ReplaceAll(Emoji, text)
  }

  /** A footnote reference `[^id]` at the start of `s`: its id. */
  function MatchRef(s: string): (id: Option<string>)
    ensures id.Some? ==> id.value != [] && |id.value| + 3 <= |s| && s[..|id.value| + 3] == "[^" + id.value + "]"
    ensures id.Some? ==> s[0] == '['
    ensures id.Some? ==> forall i :: 0 <= i < |id.value| ==> IsWordChar(id.value[i])
  {
    if "[^" <= s then
      var n := SpanLength(s[2..], Word);
      if n > 0 && n + 2 < |s| && s[n + 2] == ']' then Some(s[2..n + 2]) else None
    else None
  }

  /** The reference pattern finds the id `w` exactly when the text opens with `[^w]` and
      `w` is a run of word characters. */
  lemma MatchRefIff(s: string, w: string)
    ensures MatchRef(s) == Some(w) <==> IsWord(w) && "[^" + w + "]" <= s
  {
    if IsWord(w) && "[^" + w + "]" <= s {
      PrefixSplit(s, "[^" + w, "]");
      PrefixSplit(s, "[^", w);
      assert s[2..][|w|] == s[|w| + 2] == s[|w| + 2..][0] == ']';
      SpanOfRun(s[2..], w, Word);
      assert s[2..|w| + 2] == w;
    }
  }

  /** The superscript anchor a resolved reference becomes. */
  function FootnoteAnchor(id: string, number: nat): string {
    "<sup id=\"fnref:" + id + "\"><a href=\"#fn:" + id + "\" class=\"footnote-ref\">" +
    NatToString(number) + "</a></sup>"
  }

  /** Text after the footnote stage, and the footnote counter after it. */
  datatype Resolved = Resolved(text: string, counter: nat)

  /** `replaceFootnotes` with a context whose footnote ids are `known`: each reference to a
      known id becomes an anchor numbered with the counter, which then advances. */
  function ResolveRefs(s: string, known: set<string>, counter: nat): Resolved
    decreases |s|
  {
    if s == [] then Resolved([], counter)
    else match MatchRef(s)
      case Some(id) =>
        var len := |id| + 3;
        if id in known then
          var r := ResolveRefs(s[len..], known, counter + 1);
          Resolved(FootnoteAnchor(id, counter) + r.text, r.counter)
        else
          var r := ResolveRefs(s[len..], known, counter);
          Resolved(s[..len] + r.text, r.counter)
      case None =>
        var r := ResolveRefs(s[1..], known, counter);
        Resolved([s[0]] + r.text, r.counter)
  }

  /** The ids of all reference tokens in `s`, in the order the scan meets them. */
  function RefsIn(s: string): seq<string>
    decreases |s|
  {
    if s == [] then []
    else match MatchRef(s)
      case Some(id) => [id] + RefsIn(s[|id| + 3..])
      case None => RefsIn(s[1..])
  }

  function CountKnown(ids: seq<string>, known: set<string>): nat {
    if ids == [] then 0 else (if ids[0] in known then 1 else 0) + CountKnown(ids[1..], known)
  }

  /** A footnote id that, once defined, replaces the table's own `hasOwnProperty` method. */
  const ShadowingId: string := "hasOwnProperty"

  /** `handleInlineElements` with a context whose footnote ids are `known`. The lookup the
      footnote stage makes for each reference token fails when a footnote has shadowed it. */
  function InlineElements(text: string, known: set<string>, counter: nat): Result<Resolved> {
    var t := InlineMarkup(text);
    if RefsIn(t) != [] && ShadowingId in known then Err(LookupShadowed)
    else
      var r := ResolveRefs(t, known, counter);
      Ok(Resolved(ReplaceEmojis(r.text), r.counter))
  }

  /** `handleInlineElements` called without a context: the footnote stage fails as soon as
      a reference token survives the markup stages, whatever its id. */
  function InlineWithoutContext(text: string): Result<string> {
    var t := InlineMarkup(text);
    if RefsIn(t) != [] then Err(MissingContext) else Ok(ReplaceEmojis(t))
  }

  // ----- properties of the stages -----

  /** A stage leaves text without its trigger character untouched. */
  lemma {:induction false} ReplaceAllKeepsPlainText(rule: Rule, s: string)
    requires Trigger(rule) !in s
    ensures ReplaceAll(rule, s) == s
    decreases |s|
  {
    if s != [] {
      assert MatchRule(rule, s).None?;
      ReplaceAllKeepsPlainText(rule, s[1..]);
      assert s == [s[0]] + s[1..];
    }
  }

  lemma {:induction false} ApplyRulesKeepsPlainText(rules: seq<Rule>, s: string)
    requires forall i :: 0 <= i < |rules| ==> Trigger(rules[i]) !in s
    ensures ApplyRules(rules, s) == s
  {
    if rules != [] {
      ReplaceAllKeepsPlainText(rules[0], s);
      ApplyRulesKeepsPlainText(rules[1..], s);
    }
  }

  lemma {:induction false} NoBracketNoRefs(s: string)
    requires '[' !in s
    ensures RefsIn(s) == []
    decreases |s|
  {
    if s != [] {
      NoBracketNoRefs(s[1..]);
    }
  }

  /** With no reference token in the text the footnote stage changes nothing. */
  lemma {:induction false} ResolveRefsWithoutTokens(s: string, known: set<string>, counter: nat)
    requires RefsIn(s) == []
    ensures ResolveRefs(s, known, counter) == Resolved(s, counter)
    decreases |s|
  {
    if s != [] {
      ResolveRefsWithoutTokens(s[1..], known, counter);
      assert s == [s[0]] + s[1..];
    }
  }

  /** The counter rises by exactly the number of references whose id is known. */
  lemma {:induction false} ResolveRefsCounts(s: string, known: set<string>, counter: nat)
    ensures ResolveRefs(s, known, counter).counter == counter + CountKnown(RefsIn(s), known)
    decreases |s|
  {
    if s != [] {
      match MatchRef(s)
      case Some(id) =>
        var rest := s[|id| + 3..];
        var ids := RefsIn(s);
        assert ids == [id] + RefsIn(rest);
        assert ids[1..] == RefsIn(rest);
        if id in known {
          ResolveRefsCounts(rest, known, counter + 1);
          assert ResolveRefs(s, known, counter).counter == ResolveRefs(rest, known, counter + 1).counter;
          assert CountKnown(ids, known) == 1 + CountKnown(RefsIn(rest), known);
        } else {
          ResolveRefsCounts(rest, known, counter);
          assert ResolveRefs(s, known, counter).counter == ResolveRefs(rest, known, counter).counter;
          assert CountKnown(ids, known) == CountKnown(RefsIn(rest), known);
        }
      case None =>
        ResolveRefsCounts(s[1..], known, counter);
        assert ResolveRefs(s, known, counter).counter == ResolveRefs(s[1..], known, counter).counter;
        assert RefsIn(s) == RefsIn(s[1..]);
    }
  }

  /** References to unknown ids are left as they are, and the counter does not move. */
  lemma {:induction false} UnknownRefsUnchanged(s: string, known: set<string>, counter: nat)
    requires forall id :: id in RefsIn(s) ==> id !in known
    ensures ResolveRefs(s, known, counter) == Resolved(s, counter)
    decreases |s|
  {
    if s != [] {
      var len := UnknownRefStep(s, known, counter);
      forall other | other in RefsIn(s[len..]) ensures other !in known {
        assert other in RefsIn(s);
      }
      UnknownRefsUnchanged(s[len..], known, counter);
      assert s == s[..len] + s[len..];
    }
  }

  /** One step of the scan over a non-empty `s` whose first reference token, if any, is not
      in `known`: the scan copies the first `len` characters and carries on after them. */
  lemma UnknownRefStep(s: string, known: set<string>, counter: nat) returns (len: nat)
    requires s != [] && forall id :: id in RefsIn(s) ==> id !in known
    ensures 0 < len <= |s|
    ensures forall id :: id in RefsIn(s[len..]) ==> id in RefsIn(s)
    ensures ResolveRefs(s, known, counter)
      == Resolved(s[..len] + ResolveRefs(s[len..], known, counter).text, ResolveRefs(s[len..], known, counter).counter)
  {
    match MatchRef(s)
    case Some(id) =>
      len := |id| + 3;
      assert RefsIn(s) == [id] + RefsIn(s[len..]);
      assert id in RefsIn(s);
    case None =>
      len := 1;
      assert RefsIn(s) == RefsIn(s[1..]);
      assert s[..1] == [s[0]];
  }

  /** The inline transform without a context agrees with every context whenever it
      succeeds, and it fails exactly when a reference token reaches the footnote stage. */
  lemma InlineWithoutContextAgrees(text: string, known: set<string>, counter: nat)
    ensures InlineWithoutContext(text).Err? <==> RefsIn(InlineMarkup(text)) != []
    ensures InlineWithoutContext(text).Ok? ==>
      InlineElements(text, known, counter) == Ok(Resolved(InlineWithoutContext(text).value, counter))
  {
    if RefsIn(InlineMarkup(text)) == [] {
      ResolveRefsWithoutTokens(InlineMarkup(text), known, counter);
    }
  }

  predicate PlainText(text: string) {
    forall i :: 0 <= i < |text| ==> text[i] !in "*~=^[!:"
  }

  /** Text with none of the characters that start a pattern comes out unchanged, with or
      without a context, and the counter does not move. */
  lemma PlainTextUnchanged(text: string, known: set<string>, counter: nat)
    requires PlainText(text)
    ensures InlineElements(text, known, counter) == Ok(Resolved(text, counter))
    ensures InlineWithoutContext(text) == Ok(text)
  {
    assert forall i :: 0 <= i < |MarkupRules| ==> Trigger(MarkupRules[i]) !in text;
    ApplyRulesKeepsPlainText(MarkupRules, text);
    assert '^' !in text && ':' !in text;
    TailStagesKeep(text, known, counter);
  }

  /** Text without inline syntax needs no context and comes out as it went in. */
  lemma PlainWithoutContext(text: string)
    ensures PlainText(text) ==> InlineWithoutContext(text) == Ok(text)
  {
    if PlainText(text) {
      PlainTextUnchanged(text, {}, 0);
    }
  }

  /** Where no match starts, the scan copies one character and moves on. */
  lemma ReplaceAllSkips(rule: Rule, s: string)
    requires s != [] && s[0] != Trigger(rule)
    ensures ReplaceAll(rule, s) == [s[0]] + ReplaceAll(rule, s[1..])
  {
    assert MatchRule(rule, s).None?;
  }

  /** A stage copies a prefix free of its trigger character and carries on after it. */
  lemma {:induction false} ReplaceAllPrefix(rule: Rule, p: string, s: string)
    requires Trigger(rule) !in p
    ensures ReplaceAll(rule, p + s) == p + ReplaceAll(rule, s)
  {
    if p == [] {
      assert p + s == s;
    } else {
      assert p[0] in p;
      ConsAppend(p, s);
      ReplaceAllSkips(rule, p + s);
      ReplaceAllPrefix(rule, p[1..], s);
      ConsAppend(p, ReplaceAll(rule, s));
    }
  }

  lemma ConsAppend(p: string, s: string)
    requires p != []
    ensures (p + s)[0] == p[0] && (p + s)[1..] == p[1..] + s
    ensures p + s == [p[0]] + (p[1..] + s)
  {
  }

  lemma FindCloseOfSpan(d: string, m: string, rest: string)
    requires d != [] && NoLineTerminator(m)
    requires forall j :: 0 <= j < |m| ==> !At(m + d, j, d)
    ensures FindClose(m + d + rest, d) == Some(|m|)
  {
    var t := m + d + rest;
    assert t[..|m|] == m;
    assert t[|m|..|m| + |d|] == d;
    assert At(t, |m|, d);
    var k := FindClose(t, d);
    assert t[..|m| + |d|] == m + d;
    forall j | 0 <= j < |m| ensures !At(t, j, d) {
      assert !At(m + d, j, d);
      assert t[j..j + |d|] == t[..|m| + |d|][j..j + |d|];
    }
  }

  lemma MatchOfSpan(d: string, openTag: string, closeTag: string, m: string, rest: string)
    requires d != [] && NoLineTerminator(m)
    requires forall j :: 0 <= j < |m| ==> !At(m + d, j, d)
    ensures MatchDelimited(d, openTag, closeTag, d + m + d + rest)
         == Some(Match(|d| + |m| + |d|, openTag + m + closeTag))
  {
    SpanSlices(d, m, rest);
    FindCloseOfSpan(d, m, rest);
  }

  /** Where the pieces of `d + m + d + rest` sit. */
  lemma SpanSlices(d: string, m: string, rest: string)
    ensures var s := d + m + d + rest;
      d <= s && s[|d|..] == m + d + rest && s[|d|..|d| + |m|] == m && s[|d| + |m| + |d|..] == rest
  {
    var s := d + m + d + rest;
    assert s[..|d|] == d;
  }

  /** The leftmost delimiter pairs with the next one on the line: a run free of the
      delimiter and of line terminators between two delimiters is wrapped in the tags. */
  lemma DelimitedSpan(d: string, openTag: string, closeTag: string, m: string, rest: string)
    requires d != [] && NoLineTerminator(m)
    requires forall j :: 0 <= j < |m| ==> !At(m + d, j, d)
    ensures ReplaceAll(Delimited(d, openTag, closeTag), d + m + d + rest)
         == openTag + m + closeTag + ReplaceAll(Delimited(d, openTag, closeTag), rest)
  {
    MatchOfSpan(d, openTag, closeTag, m, rest);
    SpanSlices(d, m, rest);
  }

  lemma {:induction false} NoParenNoLinks(s: string)
    requires '(' !in s
    ensures ReplaceAll(Link, s) == s
    decreases |s|
  {
    if s != [] {
      assert MatchLink(s).None? by {
        if s[0] == '[' {
          var p := 1 + FindChar(s[1..], ']');
          if p + 1 < |s| { assert s[p + 1] in s; }
        }
      }
      NoParenNoLinks(s[1..]);
      assert s == [s[0]] + s[1..];
    }
  }

  lemma {:induction false} NoCaretNoRefs(s: string)
    requires '^' !in s
    ensures RefsIn(s) == []
    decreases |s|
  {
    if s != [] {
      assert MatchRef(s).None? by {
        if |s| >= 2 { assert s[1] in s; }
      }
      NoCaretNoRefs(s[1..]);
    }
  }

  lemma WordAvoids(a: string)
    requires IsWord(a)
    ensures forall c :: c in "*~=^!:()[]" ==> c !in a
    ensures NoLineTerminator(a)
  {
  }

  lemma {:induction false} FreeOfDelimiter(m: string, c: char)
    requires c !in m
    ensures forall j :: 0 <= j < |m| ==> !At(m + [c], j, [c])
  {
    forall j | 0 <= j < |m| ensures !At(m + [c], j, [c]) {
      assert (m + [c])[j..j + 1][0] == m[j];
    }
  }

  lemma SuperscriptSkipsBracket(a: string, b: string)
    requires IsWord(a) && IsWord(b)
    ensures ReplaceAll(Delimited("^", "<sup>", "</sup>"), "[^" + a + "] [^" + b + "]")
         == "[" + ReplaceAll(Delimited("^", "<sup>", "</sup>"), "^" + (a + "] [") + "^" + (b + "]"))
  {
    var rule := Delimited("^", "<sup>", "</sup>");
    var tail := "^" + (a + "] [") + "^" + (b + "]");
    RegroupTwoRefs(a, b);
    ReplaceAllPrefix(rule, "[", tail);
  }

  lemma RegroupTwoRefs(a: string, b: string)
    ensures "[^" + a + "] [^" + b + "]" == "[" + ("^" + (a + "] [") + "^" + (b + "]"))
  {
  }

  lemma SuperscriptWrapsBetweenCarets(a: string, b: string)
    requires IsWord(a) && IsWord(b)
    ensures ReplaceAll(Delimited("^", "<sup>", "</sup>"), "^" + (a + "] [") + "^" + (b + "]"))
         == "<sup>" + (a + "] [") + "</sup>" + (b + "]")
  {
    WordAvoids(a);
    WordAvoids(b);
    var rule := Delimited("^", "<sup>", "</sup>");
    var m := a + "] [";
    var rest := b + "]";
    assert '^' !in m;
    assert NoLineTerminator(m);
    FreeOfDelimiter(m, '^');
    DelimitedSpan("^", "<sup>", "</sup>", m, rest);
    assert '^' !in rest;
    ReplaceAllKeepsPlainText(rule, rest);
  }

  /** The superscript stage on a line with two references. */
  lemma SuperscriptPairsTheCarets(a: string, b: string)
    requires IsWord(a) && IsWord(b)
    ensures ReplaceAll(Delimited("^", "<sup>", "</sup>"), "[^" + a + "] [^" + b + "]")
         == "[<sup>" + a + "] [</sup>" + b + "]"
  {
    SuperscriptSkipsBracket(a, b);
    SuperscriptWrapsBetweenCarets(a, b);
    RegroupSuperscript(a, b);
  }

  lemma RegroupSuperscript(a: string, b: string)
    ensures "[" + ("<sup>" + (a + "] [") + "</sup>" + (b + "]")) == "[<sup>" + a + "] [</sup>" + b + "]"
  {
  }

  /** The markup stages as three groups: the five before superscript, superscript, and
      the three after it. */
  lemma MarkupAroundSuperscript(s: string)
    ensures InlineMarkup(s)
         == ApplyRules(MarkupRules[6..],
              ReplaceAll(Delimited("^", "<sup>", "</sup>"), ApplyRules(MarkupRules[..5], s)))
  {
    ApplyRulesSplit(MarkupRules, 5, s);
    SuperscriptThenLate(ApplyRules(MarkupRules[..5], s));
  }

  lemma SuperscriptThenLate(t: string)
    ensures ApplyRules(MarkupRules[5..], t)
         == ApplyRules(MarkupRules[6..], ReplaceAll(Delimited("^", "<sup>", "</sup>"), t))
  {
    assert MarkupRules[5..][0] == Delimited("^", "<sup>", "</sup>");
    assert MarkupRules[5..][1..] == MarkupRules[6..];
  }

  lemma EarlyStagesKeep(s: string)
    requires '*' !in s && '~' !in s && '=' !in s
    ensures ApplyRules(MarkupRules[..5], s) == s
  {
    var rules := MarkupRules[..5];
    assert forall i :: 0 <= i < |rules| ==> Trigger(rules[i]) in "*~=";
    ApplyRulesKeepsPlainText(rules, s);
  }

  lemma LateStagesKeep(s: string)
    requires '~' !in s && '!' !in s && '(' !in s
    ensures ApplyRules(MarkupRules[6..], s) == s
  {
    ApplyRulesSplit(MarkupRules[6..], 2, s);
    SubscriptAndImagesKeep(s);
    OnlyLinksLeft(s);
    NoParenNoLinks(s);
  }

  lemma SubscriptAndImagesKeep(s: string)
    requires '~' !in s && '!' !in s
    ensures ApplyRules(MarkupRules[6..][..2], s) == s
  {
    var rules := MarkupRules[6..][..2];
    assert Trigger(rules[0]) == '~' && Trigger(rules[1]) == '!';
    ApplyRulesKeepsPlainText(rules, s);
  }

  lemma OnlyLinksLeft(s: string)
    ensures ApplyRules(MarkupRules[6..][2..], s) == ReplaceAll(Link, s)
  {
    assert MarkupRules[6..][2..] == [Link];
  }

  lemma TwoRefsCharacters(a: string, b: string)
    requires IsWord(a) && IsWord(b)
    ensures '*' !in "[^" + a + "] [^" + b + "]" && '~' !in "[^" + a + "] [^" + b + "]"
    ensures '=' !in "[^" + a + "] [^" + b + "]"
    ensures forall c :: c in "~!(^:" ==> c !in "[<sup>" + a + "] [</sup>" + b + "]"
  {
    WordAvoids(a);
    WordAvoids(b);
  }

  /** The markup stages on a line with two references. */
  lemma TwoRefsMarkup(a: string, b: string)
    requires IsWord(a) && IsWord(b)
    ensures InlineMarkup("[^" + a + "] [^" + b + "]") == "[<sup>" + a + "] [</sup>" + b + "]"
  {
    var line := "[^" + a + "] [^" + b + "]";
    var sup := "[<sup>" + a + "] [</sup>" + b + "]";
    TwoRefsCharacters(a, b);
    MarkupAroundSuperscript(line);
    EarlyStagesKeep(line);
    SuperscriptPairsTheCarets(a, b);
    LateStagesKeep(sup);
  }

  /** Text whose markup leaves no caret and no colon passes the last two stages unchanged. */
  lemma LastStagesKeep(text: string, known: set<string>, counter: nat)
    requires '^' !in InlineMarkup(text) && ':' !in InlineMarkup(text)
    ensures InlineElements(text, known, counter) == Ok(Resolved(InlineMarkup(text), counter))
    ensures InlineWithoutContext(text) == Ok(InlineMarkup(text))
  {
    TailStagesKeep(InlineMarkup(text), known, counter);
  }

  /** The footnote and emoji stages leave text without `^` and `:` as it is. */
  lemma TailStagesKeep(t: string, known: set<string>, counter: nat)
    requires '^' !in t && ':' !in t
    ensures RefsIn(t) == [] && ResolveRefs(t, known, counter) == Resolved(t, counter)
    ensures ReplaceEmojis(t) == t
  {
    NoCaretNoRefs(t);
    ResolveRefsWithoutTokens(t, known, counter);
    ReplaceAllKeepsPlainText(Emoji, t);
  }

  /** Superscript runs before footnote references: with two references on one line the
      caret of the first pairs with the caret of the second, so neither reaches the
      footnote stage and no context can resolve them. */
  lemma TwoRefsOnOneLineNeverResolve(a: string, b: string, known: set<string>, counter: nat)
    requires IsWord(a) && IsWord(b)
    ensures InlineMarkup("[^" + a + "] [^" + b + "]") == "[<sup>" + a + "] [</sup>" + b + "]"
    ensures InlineElements("[^" + a + "] [^" + b + "]", known, counter)
         == Ok(Resolved("[<sup>" + a + "] [</sup>" + b + "]", counter))
    ensures InlineWithoutContext("[^" + a + "] [^" + b + "]") == Ok("[<sup>" + a + "] [</sup>" + b + "]")
  {
    TwoRefsMarkup(a, b);
    TwoRefsCharacters(a, b);
    LastStagesKeep("[^" + a + "] [^" + b + "]", known, counter);
  }

  lemma {:induction false} ApplyRulesSplit(rules: seq<Rule>, k: nat, s: string)
    requires k <= |rules|
    ensures ApplyRules(rules, s) == ApplyRules(rules[k..], ApplyRules(rules[..k], s))
  {
    if k > 0 {
      assert rules[..k][1..] == rules[1..][..k - 1];
      assert rules[1..][k - 1..] == rules[k..];
      ApplyRulesSplit(rules[1..], k - 1, ReplaceAll(rules[0], s));
    }
  }

  lemma {:induction false} SpanOfNameChars(name: string, rest: string)
    requires forall i :: 0 <= i < |name| ==> IsFileNameChar(name[i])
    ensures SpanLength(name + ":" + rest, FileName) == |name|
  {
    if name != [] {
      assert (name + ":" + rest)[1..] == name[1..] + ":" + rest;
      SpanOfNameChars(name[1..], rest);
    }
  }

  /** A shortcode token is looked up in the emoji table, kept as it is when the table has
      no entry, and the scan resumes after its closing colon. */
  lemma ShortcodeLookedUp(name: string, rest: string)
    requires name != [] && forall i :: 0 <= i < |name| ==> IsFileNameChar(name[i])
    ensures ReplaceEmojis(":" + name + ":" + rest) == EmojiFor(":" + name + ":") + ReplaceEmojis(rest)
  {
    var s := ":" + name + ":" + rest;
    assert s[1..] == name + ":" + rest;
    SpanOfNameChars(name, rest);
    assert s[..|name| + 2] == ":" + name + ":";
    assert s[|name| + 2..] == rest;
  }

  lemma ContainsInSuffix(s: string, k: nat, p: string)
    requires k <= |s| && Contains(s[k..], p)
    ensures Contains(s, p)
  {
    var i :| 0 <= i <= |s[k..]| && At(s[k..], i, p);
    assert s[k..][i..i + |p|] == s[k + i..k + i + |p|];
    assert At(s, k + i, p);
  }

  lemma NoShortcodeInSuffix(s: string, k: nat)
    requires k <= |s| && !HasMappedShortcode(s)
    ensures !HasMappedShortcode(s[k..])
  {
    if Contains(s[k..], ":joy:") { ContainsInSuffix(s, k, ":joy:"); }
    if Contains(s[k..], ":smile:") { ContainsInSuffix(s, k, ":smile:"); }
    if Contains(s[k..], ":heart:") { ContainsInSuffix(s, k, ":heart:"); }
  }

  predicate HasMappedShortcode(s: string) {
    Contains(s, ":joy:") || Contains(s, ":smile:") || Contains(s, ":heart:")
  }

  /** Emoji replacement changes nothing but the three mapped shortcodes. */
  lemma {:induction false} OnlyMappedShortcodesChange(s: string)
    requires !HasMappedShortcode(s)
    ensures ReplaceEmojis(s) == s
    decreases |s|
  {
    if s != [] {
      var len := EmojiStep(s);
      OnlyMappedShortcodesChange(s[len..]);
      calc {
        ReplaceEmojis(s);
        s[..len] + ReplaceEmojis(s[len..]);
        s[..len] + s[len..];
        s;
      }
    }
  }

  /** One step of emoji replacement over a non-empty `s` that holds no mapped shortcode:
      the first `len` characters are copied unchanged. */
  lemma EmojiStep(s: string) returns (len: nat)
    requires s != [] && !HasMappedShortcode(s)
    ensures 0 < len <= |s|
    ensures ReplaceEmojis(s) == s[..len] + ReplaceEmojis(s[len..])
    ensures !HasMappedShortcode(s[len..])
  {
    NoShortcodeInSuffix(s, if MatchEmoji(s).Some? then MatchEmoji(s).value.len else 1);
    match MatchEmoji(s)
    case Some(m) =>
      len := m.len;
      var t := s[..len];
      assert !At(s, 0, t) || (t != ":joy:" && t != ":smile:" && t != ":heart:");
      assert At(s, 0, t);
    case None =>
      len := 1;
      assert s[..1] == [s[0]];
  }
}

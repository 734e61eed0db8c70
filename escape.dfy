/** `escapeHtml`: five global single-character replacements applied in sequence. */
module Escape {

  /** One global replacement of the character `c` by `rep`. */
  function ReplaceChar(s: string, c: char, rep: string): string {
    if s == [] then []
    else (if s[0] == c then rep else [s[0]]) + ReplaceChar(s[1..], c, rep)
  }

  /** The chain of replacements as the source writes it, `&` first. */
  function EscapeHtml(s: string): string {
    var amp := ReplaceChar(s, '&', "&amp;");
    var lt := ReplaceChar(amp, '<', "&lt;");
    var gt := ReplaceChar(lt, '>', "&gt;");
    var quot := ReplaceChar(gt, '"', "&quot;");
    ReplaceChar(quot, '\'', "&#039;")
  }

  /** Reference definition: each character escaped on its own. */
  function EscapeChar(c: char): string {
    match c
    case '&' => "&amp;"
    case '<' => "&lt;"
    case '>' => "&gt;"
    case '"' => "&quot;"
    case '\'' => "&#039;"
    case _ => [c]
  }

  function EscapeEach(s: string): string {
    if s == [] then [] else EscapeChar(s[0]) + EscapeEach(s[1..])
  }

  /** Decoding of the five entities `escapeHtml` produces. */
  function Unescape(s: string): string {
    if s == [] then []
    else if "&amp;" <= s then "&" + Unescape(s[5..])
    else if "&lt;" <= s then "<" + Unescape(s[4..])
    else if "&gt;" <= s then ">" + Unescape(s[4..])
    else if "&quot;" <= s then "\"" + Unescape(s[6..])
    else if "&#039;" <= s then "'" + Unescape(s[6..])
    else [s[0]] + Unescape(s[1..])
  }

  lemma {:induction false} ReplaceCharAppend(a: string, b: string, c: char, rep: string)
    ensures ReplaceChar(a + b, c, rep) == ReplaceChar(a, c, rep) + ReplaceChar(b, c, rep)
  {
    if a == [] {
      assert a + b == b;
    } else {
      assert (a + b)[0] == a[0];
      assert (a + b)[1..] == a[1..] + b;
      ReplaceCharAppend(a[1..], b, c, rep);
      var h := if a[0] == c then rep else [a[0]];
      assert ReplaceChar(a + b, c, rep) == h + ReplaceChar(a[1..] + b, c, rep);
    }
  }

  lemma {:induction false} ReplaceAbsent(s: string, c: char, rep: string)
    requires c !in s
    ensures ReplaceChar(s, c, rep) == s
  {
    if s != [] {
      ReplaceAbsent(s[1..], c, rep);
    }
  }

  lemma ReplaceOne(x: char, c: char, rep: string)
    ensures ReplaceChar([x], c, rep) == if x == c then rep else [x]
  {
    assert [x][1..] == [];
  }

  /** The four replacements after the first leave a string without their characters alone. */
  lemma LaterStagesKeep(t: string)
    requires '<' !in t && '>' !in t && '"' !in t && '\'' !in t
    ensures ReplaceChar(ReplaceChar(ReplaceChar(ReplaceChar(t, '<', "&lt;"), '>', "&gt;"), '"', "&quot;"), '\'', "&#039;") == t
  {
    ReplaceAbsent(t, '<', "&lt;");
    ReplaceAbsent(t, '>', "&gt;");
    ReplaceAbsent(t, '"', "&quot;");
    ReplaceAbsent(t, '\'', "&#039;");
  }

  lemma EscapeOneChar(x: char)
    ensures EscapeHtml([x]) == EscapeChar(x)
  {
    ReplaceOne(x, '&', "&amp;");
    var amp := ReplaceChar([x], '&', "&amp;");
    if x == '&' {
      assert amp == "&amp;";
      LaterStagesKeep(amp);
    } else {
      assert amp == [x];
      EscapeOneNonAmp(x);
    }
  }

  lemma EscapeOneNonAmp(x: char)
    requires x != '&'
    ensures ReplaceChar(ReplaceChar(ReplaceChar(ReplaceChar([x], '<', "&lt;"), '>', "&gt;"), '"', "&quot;"), '\'', "&#039;") == EscapeChar(x)
  {
    ReplaceOne(x, '<', "&lt;");
    if x == '<' {
      LaterThree("&lt;");
    } else {
      ReplaceOne(x, '>', "&gt;");
      if x == '>' {
        LaterTwo("&gt;");
      } else {
        ReplaceOne(x, '"', "&quot;");
        ReplaceOne(x, '\'', "&#039;");
        if x == '"' {
          ReplaceAbsent("&quot;", '\'', "&#039;");
        }
      }
    }
  }

  lemma LaterThree(t: string)
    requires '>' !in t && '"' !in t && '\'' !in t
    ensures ReplaceChar(ReplaceChar(ReplaceChar(t, '>', "&gt;"), '"', "&quot;"), '\'', "&#039;") == t
  {
    ReplaceAbsent(t, '>', "&gt;");
    LaterTwo(t);
  }

  lemma LaterTwo(t: string)
    requires '"' !in t && '\'' !in t
    ensures ReplaceChar(ReplaceChar(t, '"', "&quot;"), '\'', "&#039;") == t
  {
    ReplaceAbsent(t, '"', "&quot;");
    ReplaceAbsent(t, '\'', "&#039;");
  }

  /** Because `&` is replaced first, the chain escapes every character exactly once:
      the entities it introduces are not escaped again. */
  lemma {:induction false} EscapeHtmlEscapesEachCharOnce(s: string)
    ensures EscapeHtml(s) == EscapeEach(s)
  {
    if s != [] {
      EscapeHtmlEscapesEachCharOnce(s[1..]);
      EscapeOneChar(s[0]);
      assert s == [s[0]] + s[1..];
      EscapeHtmlAppend([s[0]], s[1..]);
    }
  }

  lemma EscapeHtmlAppend(a: string, b: string)
    ensures EscapeHtml(a + b) == EscapeHtml(a) + EscapeHtml(b)
  {
    ReplaceCharAppend(a, b, '&', "&amp;");
    var a1, b1 := ReplaceChar(a, '&', "&amp;"), ReplaceChar(b, '&', "&amp;");
    ReplaceCharAppend(a1, b1, '<', "&lt;");
    var a2, b2 := ReplaceChar(a1, '<', "&lt;"), ReplaceChar(b1, '<', "&lt;");
    ReplaceCharAppend(a2, b2, '>', "&gt;");
    var a3, b3 := ReplaceChar(a2, '>', "&gt;"), ReplaceChar(b2, '>', "&gt;");
    ReplaceCharAppend(a3, b3, '"', "&quot;");
    var a4, b4 := ReplaceChar(a3, '"', "&quot;"), ReplaceChar(b3, '"', "&quot;");
    ReplaceCharAppend(a4, b4, '\'', "&#039;");
  }

  /** The escaped text holds none of the characters that are markup in HTML, so escaped
      content can never open or close a tag or end an attribute value. */
  lemma {:induction false} EscapeHtmlIsSafe(s: string)
    ensures '<' !in EscapeHtml(s) && '>' !in EscapeHtml(s) && '"' !in EscapeHtml(s) && '\'' !in EscapeHtml(s)
  {
    EscapeHtmlEscapesEachCharOnce(s);
    EscapeEachIsSafe(s);
  }

  lemma {:induction false} EscapeEachIsSafe(s: string)
    ensures var r := EscapeEach(s); '<' !in r && '>' !in r && '"' !in r && '\'' !in r
  {
    if s != [] {
      EscapeEachIsSafe(s[1..]);
      EscapeCharIsSafe(s[0]);
      var a, b := EscapeChar(s[0]), EscapeEach(s[1..]);
      assert EscapeEach(s) == a + b;
      assert forall c :: c in a + b ==> c in a || c in b;
    }
  }

  lemma EscapeCharIsSafe(x: char)
    ensures var e := EscapeChar(x); '<' !in e && '>' !in e && '"' !in e && '\'' !in e
  {
  }

  /** Escaping loses nothing: the text is recovered by decoding the entities. */
  lemma {:induction false} UnescapeEscapeHtml(s: string)
    ensures Unescape(EscapeHtml(s)) == s
  {
    EscapeHtmlEscapesEachCharOnce(s);
    UnescapeEscapeEach(s);
  }

  lemma {:induction false} UnescapeEscapeEach(s: string)
    ensures Unescape(EscapeEach(s)) == s
  {
    if s != [] {
      UnescapeEscapeEach(s[1..]);
      UnescapeCons(s[0], EscapeEach(s[1..]));
      assert s == [s[0]] + s[1..];
    }
  }

  /** Decoding undoes the escape of one character in front of any text. */
  lemma UnescapeCons(x: char, rest: string)
    ensures Unescape(EscapeChar(x) + rest) == [x] + Unescape(rest)
  {
    var e := EscapeChar(x) + rest;
    match x
    case '&' =>
      assert "&amp;" <= e && e[5..] == rest;
    case '<' =>
      assert e[1] == 'l' && "&lt;" <= e && e[4..] == rest;
      assert Unescape(e) == "<" + Unescape(rest);
    case '>' =>
      assert e[1] == 'g' && "&gt;" <= e && e[4..] == rest;
      assert Unescape(e) == ">" + Unescape(rest);
    case '"' =>
      assert e[1] == 'q' && "&quot;" <= e && e[6..] == rest;
      assert Unescape(e) == "\"" + Unescape(rest);
    case '\'' =>
      assert e[1] == '#' && "&#039;" <= e && e[6..] == rest;
      assert Unescape(e) == "'" + Unescape(rest);
    case _ =>
      assert e[0] == x && e[1..] == rest;
      assert !("&amp;" <= e) && !("&lt;" <= e) && !("&gt;" <= e) && !("&quot;" <= e) && !("&#039;" <= e);
  }
}

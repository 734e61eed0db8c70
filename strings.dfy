/** Character classes and string operations with the meaning JavaScript gives them.
    Every string is a `seq<char>`. Every character the parser's patterns and `trim` test
    (ASCII, and the white space of `\s`, all below U+10000) is a single UTF-16 code unit,
    so the positions it cuts at are the same whether a string is read as UTF-16 code units
    or as Unicode scalar values. */
module Strings {

  /** `\s` in a regular expression, and what `String.prototype.trim` removes:
      the WhiteSpace and LineTerminator code points of ECMAScript. */
  predicate IsSpace(c: char) {
    c == ' ' || c == '\t' || c == '\n' || c == '\r' || c == '\U{000B}' || c == '\U{000C}' ||
    c == '\U{00A0}' || c == '\U{1680}' || ('\U{2000}' <= c <= '\U{200A}') ||
    c == '\U{2028}' || c == '\U{2029}' || c == '\U{202F}' || c == '\U{205F}' ||
    c == '\U{3000}' || c == '\U{FEFF}'
  }

  /** The characters that `.` does not match in a regular expression without the `s` flag. */
  predicate IsLineTerminator(c: char) {
    c == '\n' || c == '\r' || c == '\U{2028}' || c == '\U{2029}'
  }

  /** `\w` without the `u` flag: ASCII letters, digits and underscore. */
  predicate IsWordChar(c: char) {
    ('a' <= c <= 'z') || ('A' <= c <= 'Z') || ('0' <= c <= '9') || c == '_'
  }

  /** A non-empty run of `\w`: what `\w+` matches. */
  predicate IsWord(s: string) {
    s != [] && forall i :: 0 <= i < |s| ==> IsWordChar(s[i])
  }

  /** `\d`. */
  predicate IsDigit(c: char) {
    '0' <= c <= '9'
  }

  /** `[\w-]`: a character of an inserted file's name or of an emoji shortcode. */
  predicate IsFileNameChar(c: char) {
    IsWordChar(c) || c == '-'
  }

  /** A non-empty run of `[\w-]`: the name of an inserted file without its extension. */
  predicate IsFileName(s: string) {
    s != [] && forall i :: 0 <= i < |s| ==> IsFileNameChar(s[i])
  }

  /** The character classes the source's regular expressions repeat with `+`, `*` or
      `{n,}`; `NotLineTerminator` is `.`. */
  datatype CharClass = Space | Word | Digit | Hash | Dash | FileName | NotLineTerminator

  predicate InClass(c: char, k: CharClass) {
    match k
    case Space => IsSpace(c)
    case Word => IsWordChar(c)
    case Digit => IsDigit(c)
    case Hash => c == '#'
    case Dash => c == '-'
    case FileName => IsFileNameChar(c)
    case NotLineTerminator => !IsLineTerminator(c)
  }

  predicate AllSpace(s: string) {
    forall i :: 0 <= i < |s| ==> IsSpace(s[i])
  }

  predicate NoLineTerminator(s: string) {
    forall i :: 0 <= i < |s| ==> !IsLineTerminator(s[i])
  }

  /** `s` holds `p` at position `i`. */
  predicate At(s: string, i: nat, p: string) {
    i + |p| <= |s| && s[i..i + |p|] == p
  }

  /** `String.prototype.includes`. */
  predicate Contains(s: string, p: string) {
    exists i :: 0 <= i <= |s| && At(s, i, p)
  }

  /** `String.prototype.endsWith` with a one-character argument. */
  predicate EndsWithChar(s: string, c: char) {
    s != [] && s[|s| - 1] == c
  }

  /** `String.prototype.slice(k)` for a non-negative `k`. */
  function Slice(s: string, k: nat): (r: string)
    ensures k <= |s| ==> r == s[k..]
    ensures k > |s| ==> r == []
  {
    if k <= |s| then s[k..] else []
  }

  /** Length of the longest prefix of `s` whose characters are all in the class `k`:
      what a greedy `[...]*` consumes. */
  function SpanLength(s: string, k: CharClass): (n: nat)
    ensures n <= |s|
    ensures forall i :: 0 <= i < n ==> InClass(s[i], k)
    ensures n < |s| ==> !InClass(s[n], k)
  {
    if s != [] && InClass(s[0], k) then 1 + SpanLength(s[1..], k) else 0
  }

  /** A greedy run over a prefix `a` of the class, stopped by a character outside it,
      consumes exactly `a`. */
  lemma SpanOfRun(s: string, a: string, k: CharClass)
    requires |a| < |s| && s[..|a|] == a && !InClass(s[|a|], k)
    requires forall i :: 0 <= i < |a| ==> InClass(a[i], k)
    ensures SpanLength(s, k) == |a|
  {
    assert forall i :: 0 <= i < |a| ==> s[i] == a[i];
  }

  /** Position of the first `c` in `s`, or `|s|` when there is none. */
  function FindChar(s: string, c: char): (k: nat)
    ensures k <= |s|
    ensures forall j :: 0 <= j < k ==> s[j] != c
    ensures k < |s| ==> s[k] == c
  {
    if s == [] || s[0] == c then 0 else 1 + FindChar(s[1..], c)
  }

  /** A prefix made of two parts: the first opens the text, the second what follows it. */
  lemma PrefixSplit(s: string, a: string, b: string)
    requires a + b <= s
    ensures a <= s && |a| + |b| <= |s| && b <= s[|a|..]
  {
    assert (a + b)[..|a|] == a;
    assert s[..|a|] == (a + b)[..|a|];
    assert s[|a|..][..|b|] == (a + b)[|a|..];
  }

  /** The converse of `PrefixSplit`: a part that opens the text, followed by a part that
      opens what follows it, opens the text together. */
  lemma PrefixJoin(s: string, a: string, b: string)
    requires a <= s && b <= s[|a|..]
    ensures a + b <= s
  {
    assert s[..|a| + |b|] == s[..|a|] + s[|a|..][..|b|];
  }

  /** Two parts that follow each other in the text make up the slice they span. */
  lemma SliceOfParts(s: string, u: nat, a: string, b: string)
    requires u <= |s| && a <= s[u..] && b <= s[u + |a|..]
    ensures u + |a| + |b| <= |s| && s[u..u + |a| + |b|] == a + b
  {
    assert s[u..u + |a|] == s[u..][..|a|];
    assert s[u + |a|..u + |a| + |b|] == s[u + |a|..][..|b|];
    assert s[u..u + |a| + |b|] == s[u..u + |a|] + s[u + |a|..u + |a| + |b|];
  }

  /** Behind a prefix free of `c`, the first `c` is the one that follows the prefix. */
  lemma FindCharAfter(s: string, a: string, c: char)
    requires c !in a && |a| < |s| && s[..|a|] == a && s[|a|] == c
    ensures FindChar(s, c) == |a|
  {
    assert forall j :: 0 <= j < |a| ==> s[j] == a[j] && a[j] in a;
  }

  function LeadingSpaces(s: string): (n: nat)
    ensures n <= |s| && AllSpace(s[..n])
    ensures n < |s| ==> !IsSpace(s[n])
  {
    SpanLength(s, Space)
  }

  function TrimStart(s: string): string
    decreases |s|
  {
    if s != [] && IsSpace(s[0]) then TrimStart(s[1..]) else s
  }

  function TrimEnd(s: string): string
    decreases |s|
  {
    if s != [] && IsSpace(s[|s| - 1]) then TrimEnd(s[..|s| - 1]) else s
  }

  /** `String.prototype.trim`: white space cut off on both sides. */
  function Trim(s: string): string {
    TrimEnd(TrimStart(s))
  }

  /** What `TrimStart` keeps is a suffix of its input, and what it cuts is white space. */
  lemma {:induction false} TrimStartSuffix(s: string)
    ensures |TrimStart(s)| <= |s| && TrimStart(s) == s[|s| - |TrimStart(s)|..]
    ensures AllSpace(s[..|s| - |TrimStart(s)|])
    ensures TrimStart(s) == [] || !IsSpace(TrimStart(s)[0])
    decreases |s|
  {
    if s != [] && IsSpace(s[0]) {
      TrimStartSuffix(s[1..]);
      var n := |s| - |TrimStart(s)|;
      assert s[..n] == [s[0]] + s[1..][..n - 1];
      assert s[n..] == s[1..][n - 1..];
    }
  }

  /** What `TrimEnd` keeps is a prefix of its input, and what it cuts is white space. */
  lemma {:induction false} TrimEndPrefix(s: string)
    ensures |TrimEnd(s)| <= |s| && TrimEnd(s) == s[..|TrimEnd(s)|]
    ensures AllSpace(s[|TrimEnd(s)|..])
    ensures TrimEnd(s) == [] || !IsSpace(TrimEnd(s)[|TrimEnd(s)| - 1])
    decreases |s|
  {
    if s != [] && IsSpace(s[|s| - 1]) {
      var t := s[..|s| - 1];
      TrimEndPrefix(t);
      var n := |TrimEnd(s)|;
      assert s[..n] == t[..n];
      assert s[n..] == t[n..] + [s[|s| - 1]];
    }
  }

  /** The trimmed string is the part of its input left once the white space at its two
      ends is cut off: neither of its ends is white space, and it is empty exactly when the
      input is all white space. */
  lemma TrimFacts(s: string)
    ensures |Trim(s)| <= |TrimStart(s)| <= |s|
    ensures var i := |s| - |TrimStart(s)|;
      i + |Trim(s)| <= |s| && Trim(s) == s[i..i + |Trim(s)|] &&
      AllSpace(s[..i]) && AllSpace(s[i + |Trim(s)|..])
    ensures Trim(s) == [] || (!IsSpace(Trim(s)[0]) && !IsSpace(Trim(s)[|Trim(s)| - 1]))
    ensures Trim(s) == [] <==> AllSpace(s)
    ensures forall c :: c in Trim(s) ==> c in s
  {
    TrimInfix(s);
    TrimEndPrefix(TrimStart(s));
    var i := |s| - |TrimStart(s)|;
    var r := Trim(s);
    if r == [] {
      AllSpaceConcat(s[..i], s[i..]);
      assert s == s[..i] + s[i..];
    } else {
      assert s[i] == r[0];
    }
    forall c | c in r ensures c in s {
      var j :| 0 <= j < |r| && r[j] == c;
      assert s[i + j] == c;
    }
  }

  /** The slice of its input that `trim` keeps, and the white space it cuts on either side. */
  lemma TrimInfix(s: string)
    ensures |Trim(s)| <= |TrimStart(s)| <= |s|
    ensures var i := |s| - |TrimStart(s)|;
      i + |Trim(s)| <= |s| && Trim(s) == s[i..i + |Trim(s)|] &&
      AllSpace(s[..i]) && AllSpace(s[i + |Trim(s)|..])
  {
    var t := TrimStart(s);
    TrimStartSuffix(s);
    TrimEndPrefix(t);
    var i := |s| - |t|;
    assert Trim(s) == s[i..i + |Trim(s)|] by {
      assert t == s[i..];
      assert Trim(s) == t[..|Trim(s)|];
      assert t[..|Trim(s)|] == s[i..i + |Trim(s)|];
    }
    assert s[i + |Trim(s)|..] == t[|TrimEnd(t)|..];
  }

  lemma AllSpaceConcat(a: string, b: string)
    requires AllSpace(a) && AllSpace(b)
    ensures AllSpace(a + b)
  {
  }

  /** `String.prototype.split` with a one-character separator: never empty, and no piece
      holds the separator. */
  function Split(s: string, sep: char): (r: seq<string>)
    ensures |r| >= 1
    ensures forall i :: 0 <= i < |r| ==> sep !in r[i]
    decreases |s|
  {
    var k := FindChar(s, sep);
    if k == |s| then
      [s]
    else
      assert forall j :: 0 <= j < k ==> s[..k][j] != sep;
      [s[..k]] + Split(s[k + 1..], sep)
  }

  lemma AppendAssoc(a: string, b: string, c: string)
    ensures a + b + c == a + (b + c)
  {
  }

  /** `Array.prototype.join` with a one-character separator. */
  function Join(pieces: seq<string>, sep: char): string {
    if pieces == [] then []
    else if |pieces| == 1 then pieces[0]
    else pieces[0] + [sep] + Join(pieces[1..], sep)
  }

  /** Splitting loses nothing: joining the pieces gives the input back. */
  lemma {:induction false} JoinSplit(s: string, sep: char)
    ensures Join(Split(s, sep), sep) == s
    decreases |s|
  {
    var k := FindChar(s, sep);
    if k < |s| {
      JoinSplit(s[k + 1..], sep);
      assert s == s[..k] + [sep] + s[k + 1..];
    }
  }

  /** Pieces free of the separator are split back apart exactly. */
  lemma {:induction false} SplitJoin(pieces: seq<string>, sep: char)
    requires pieces != []
    requires forall i :: 0 <= i < |pieces| ==> sep !in pieces[i]
    ensures Split(Join(pieces, sep), sep) == pieces
  {
    var s := Join(pieces, sep);
    var p := pieces[0];
    var k := FindChar(s, sep);
    if |pieces| == 1 {
      SpanOfFree(p, sep);
    } else {
      var rest := Join(pieces[1..], sep);
      assert s == p + [sep] + rest;
      SpanStopsAtSeparator(p, rest, sep);
      assert s[..k] == p;
      assert s[k + 1..] == rest;
      SplitJoin(pieces[1..], sep);
    }
  }

  lemma {:induction false} SpanOfFree(p: string, sep: char)
    requires sep !in p
    ensures FindChar(p, sep) == |p|
  {
    if p != [] {
      SpanOfFree(p[1..], sep);
    }
  }

  lemma {:induction false} SpanStopsAtSeparator(p: string, rest: string, sep: char)
    requires sep !in p
    ensures FindChar(p + [sep] + rest, sep) == |p|
  {
    if p != [] {
      assert (p + [sep] + rest)[1..] == p[1..] + [sep] + rest;
      SpanStopsAtSeparator(p[1..], rest, sep);
    }
  }

  function DigitChar(d: nat): (c: char)
    requires d < 10
    ensures IsDigit(c)
  {
    "0123456789"[d]
  }

  function DigitValue(c: char): nat
    requires IsDigit(c)
  {
    (c as int - '0' as int) as nat
  }

  /** JavaScript's conversion of a non-negative integer to its decimal string. */
  function NatToString(n: nat): (r: string)
    ensures r != [] && forall i :: 0 <= i < |r| ==> IsDigit(r[i])
    ensures r[0] == '0' <==> n == 0
    ensures |r| == 1 || r[0] != '0'
  {
    if n < 10 then [DigitChar(n)] else NatToString(n / 10) + [DigitChar(n % 10)]
  }

  /** The value of a string of decimal digits. */
  function DigitsValue(s: string): nat
    requires forall i :: 0 <= i < |s| ==> IsDigit(s[i])
  {
    if s == [] then 0 else 10 * DigitsValue(s[..|s| - 1]) + DigitValue(s[|s| - 1])
  }

  /** The decimal rendering is read back as the number it renders. */
  lemma {:induction false} NatToStringValue(n: nat)
    ensures DigitsValue(NatToString(n)) == n
  {
    var r := NatToString(n);
    if n < 10 {
      assert DigitValue("0123456789"[n]) == n;
    } else {
      NatToStringValue(n / 10);
      assert r[..|r| - 1] == NatToString(n / 10);
      assert DigitValue("0123456789"[n % 10]) == n % 10;
    }
  }
}

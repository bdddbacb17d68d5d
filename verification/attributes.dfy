/** Extraction of `#EXTINF` attributes. Each attribute pattern of the
    library is `name."(.*?)"` compiled case-insensitively; it is modelled here
    by a predicate saying when a match spans `s[i..e]` and by a matcher
    proved to find exactly the leftmost such match. */
module Attributes {
  import opened Wrappers
  import opened JavaText
  import opened Constants

  /** The unchecked exceptions parsing can raise. */
  datatype ParseError =
    | ArrayIndexOutOfBounds   // `split("=")[1]` on a match without '='
    | StringIndexOutOfBounds  // `charAt(-1)` in the single-line splitter
    | IndexOutOfBounds        // `List.get(i + 1)` past the last line

  /** The literal attribute name occurs at `i`, ignoring ASCII case. */
  predicate NameAt(s: string, name: string, i: nat) {
    i + |name| <= |s| && forall k | 0 <= k < |name| :: AsciiLower(s[i + k]) == name[k]
  }

  /** `s[i..e]` is a match of `name."(.*?)"`: the name, one character other
      than a line terminator, a quote, a value free of quotes and line
      terminators (the lazy group stops at the first quote), a quote. */
  ghost predicate IsMatch(s: string, name: string, i: nat, e: nat) {
    var q := i + |name|;
    && q + 3 <= e <= |s|
    && NameAt(s, name, i)
    && !IsLineTerminator(s[q])
    && s[q + 1] == '"'
    && s[e - 1] == '"'
    && (forall k | q + 2 <= k < e - 1 :: s[k] != '"' && !IsLineTerminator(s[k]))
  }

  /** The lazy `(.*?)"` tail: the first quote at or after `j`, unless a line
      terminator comes first. */
  function ClosingQuote(s: string, j: nat): (r: Option<nat>)
    requires j <= |s|
    ensures r.Some? ==> j <= r.value < |s| && s[r.value] == '"'
    ensures r.Some? ==> forall k | j <= k < r.value :: s[k] != '"' && !IsLineTerminator(s[k])
    ensures r.None? ==> forall c | j <= c < |s| && s[c] == '"' ::
                          exists k | j <= k < c :: IsLineTerminator(s[k])
    decreases |s| - j
  {
    if j == |s| then None
    else if s[j] == '"' then Some(j)
    else if IsLineTerminator(s[j]) then None
    else ClosingQuote(s, j + 1)
  }

  /** The lazy tail ends at a quote preceded, from `j`, only by ordinary
      characters. */
  lemma ClosingQuoteIs(s: string, j: nat, c: nat)
    requires j <= c < |s| && s[c] == '"'
    requires forall k | j <= k < c :: s[k] != '"' && !IsLineTerminator(s[k])
    ensures ClosingQuote(s, j) == Some(c)
  {
  }

  /** The end of the match starting at `i`, if the pattern matches there. */
  function MatchEnd(s: string, name: string, i: nat): (r: Option<nat>)
    ensures r.Some? <==> exists e :: IsMatch(s, name, i, e)
    ensures r.Some? ==> IsMatch(s, name, i, r.value)
  {
    var q := i + |name|;
    if NameAt(s, name, i) && q + 1 < |s| && !IsLineTerminator(s[q]) && s[q + 1] == '"' then
      match ClosingQuote(s, q + 2)
      case Some(c) =>
        assert IsMatch(s, name, i, c + 1);
        Some(c + 1)
      case None => None
    else None
  }

  /** A match starting at a given index is unique: the lazy value ends at the
      first quote. */
  lemma MatchIsUnique(s: string, name: string, i: nat, e1: nat, e2: nat)
    requires IsMatch(s, name, i, e1) && IsMatch(s, name, i, e2)
    ensures e1 == e2
  {
  }

  /** `Matcher.find()` from index `from`: the leftmost match. */
  function Find(s: string, name: string, from: nat): (r: Option<(nat, nat)>)
    ensures r.Some? ==> from <= r.value.0 && IsMatch(s, name, r.value.0, r.value.1)
    ensures r.Some? ==> forall k | from <= k < r.value.0 :: MatchEnd(s, name, k).None?
    ensures r.None? ==> forall k | from <= k <= |s| :: MatchEnd(s, name, k).None?
    decreases |s| + 1 - from
  {
    if from > |s| then None
    else match MatchEnd(s, name, from)
      case Some(e) => Some((from, e))
      case None => Find(s, name, from + 1)
  }

  /** `FindAttribute(a, line)` is the leftmost match of attribute `a`. */
  function FindAttribute(a: Attribute, line: string): Option<(nat, nat)> {
    Find(line, AttributeName(a), 0)
  }

  /** `m.split("=")[1]`: the text between the first and the second '=' (or
      the end); `None` where Java indexes past a one-element array. */
  function SecondField(m: string): (r: Option<string>)
    ensures r.None? <==> forall k | 0 <= k < |m| :: m[k] != '='
    ensures r.Some? ==> forall k | 0 <= k < |r.value| :: r.value[k] != '='
    ensures r.Some? ==> exists f | 0 <= f < |m| ::
              && m[f] == '='
              && (forall k | 0 <= k < f :: m[k] != '=')
              && f + 1 + |r.value| <= |m|
              && r.value == m[f + 1..f + 1 + |r.value|]
              && (f + 1 + |r.value| < |m| ==> m[f + 1 + |r.value|] == '=')
  {
    var f1 := IndexOfChar(m, '=', 0);
    if f1 == |m| then None
    else
      var f2 := IndexOfChar(m, '=', f1 + 1);
      assert m[f1] == '=';
      Some(m[f1 + 1..f2])
  }

  /** The first line terminator at or after `j`, or `|s|`. */
  function LineEnd(s: string, j: nat): (r: nat)
    requires j <= |s|
    ensures j <= r <= |s|
    ensures forall k | j <= k < r :: !IsLineTerminator(s[k])
    ensures r < |s| ==> IsLineTerminator(s[r])
    decreases |s| - j
  {
    if j == |s| || IsLineTerminator(s[j]) then j else LineEnd(s, j + 1)
  }

  /** The line ends at the first line terminator from `j`, or the end. */
  lemma LineEndIs(s: string, j: nat, r: nat)
    requires j <= r <= |s|
    requires forall k | j <= k < r :: !IsLineTerminator(s[k])
    requires r < |s| ==> IsLineTerminator(s[r])
    ensures LineEnd(s, j) == r
  {
  }

  /** The `,.*` fallback for a blank `tvg-name`: what follows the first
      comma, up to a line terminator. */
  function CommaTail(line: string): (r: Option<string>)
    ensures r.None? <==> forall k | 0 <= k < |line| :: line[k] != ','
    ensures r.Some? ==> exists k | 0 <= k < |line| ::
              && line[k] == ','
              && (forall j | 0 <= j < k :: line[j] != ',')
              && r.value == line[k + 1..LineEnd(line, k + 1)]
  {
    var k := IndexOfChar(line, ',', 0);
    if k == |line| then None
    else
      assert line[k] == ',';
      Some(line[k + 1..LineEnd(line, k + 1)])
  }

  /** A value the extraction can produce from a match: no quote, no '='. */
  predicate Clean(v: string) {
    forall k | 0 <= k < |v| :: v[k] != '"' && v[k] != '='
  }

  /** The text of the leftmost match of attribute `a` in `line`. */
  function MatchText(a: Attribute, line: string): (r: Option<string>)
    ensures r.None? <==> FindAttribute(a, line).None?
    ensures r.Some? ==> StartsWith(line[FindAttribute(a, line).value.0..], r.value)
  {
    match FindAttribute(a, line)
    case None => None
    case Some((i, e)) =>
      assert StartsWith(line[i..], line[i..e]);
      Some(line[i..e])
  }

  /** The quote-free second field of a match, `None` when it has no '='. */
  function MatchValue(m: string): (r: Option<string>)
    ensures r.None? <==> forall k | 0 <= k < |m| :: m[k] != '='
    ensures r.Some? ==> Clean(r.value)
    ensures r.Some? ==> SecondField(m).Some? && r.value == RemoveChar(SecondField(m).value, '"')
  {
    match SecondField(m)
    case None => None
    case Some(field) =>
      var v := RemoveChar(field, '"');
      assert forall k | 0 <= k < |v| :: v[k] in multiset(v);
      Some(v)
  }

  /** `getAttributeFromPlaylistLine`: "" without a match; otherwise the
      second '='-separated field of the match with every quote removed; a
      blank `tvg-name` falls back to the text after the first comma. */
  function Extract(a: Attribute, line: string): (r: Result<string, ParseError>)
    ensures MatchText(a, line).None? ==> r == Ok("")
    ensures r.Err? <==> MatchText(a, line).Some? && (forall k | 0 <= k < |MatchText(a, line).value| :: MatchText(a, line).value[k] != '=')
    ensures r.Ok? ==> Clean(r.value) || (a == TvgName && CommaTail(line) == Some(r.value))
    ensures a != TvgName && r.Ok? ==> Clean(r.value)
    ensures MatchText(a, line).Some? && MatchValue(MatchText(a, line).value).Some? ==>
              var v := MatchValue(MatchText(a, line).value).value;
              r == Ok(if v == "" && a == TvgName && CommaTail(line).Some? then CommaTail(line).value else v)
  {
    match MatchText(a, line)
    case None => Ok("")
    case Some(m) =>
      match MatchValue(m)
      case None => Err(ArrayIndexOutOfBounds)
      case Some(contents) =>
        if contents == "" && a == TvgName && CommaTail(line).Some? then
          Ok(CommaTail(line).value)
        else Ok(contents)
  }

  /** Attribute names match without regard to ASCII case. */
  lemma CaseInsensitiveExample()
    ensures Extract(TvgName, "TVG-NAME=\"x\"") == Ok("x")
  {
    var s := "TVG-NAME=\"x\"";
    assert NameAt(s, "tvg-name", 0);
    WholeLineMatch(s, 11);
    CaseInsensitiveValue();
  }

  lemma CaseInsensitiveValue()
    ensures MatchValue("TVG-NAME=\"x\"") == Some("x")
  {
    var s := "TVG-NAME=\"x\"";
    IndexOfCharIs(s, '=', 0, 8);
    IndexOfCharIs(s, '=', 9, 12);
    assert s[9..12] == "\"x\"";
    assert SecondField(s) == Some("\"x\"");
    assert RemoveChar("\"x\"", '"') == "x";
  }

  /** A value containing '=' is cut at it: only the second '='-separated
      field of the match is kept. */
  lemma InnerEqualsExample()
    ensures Extract(TvgName, "tvg-name=\"b=c\"") == Ok("b")
  {
    WholeLineMatch("tvg-name=\"b=c\"", 13);
    InnerEqualsValue();
  }

  lemma InnerEqualsValue()
    ensures MatchValue("tvg-name=\"b=c\"") == Some("b")
  {
    var s := "tvg-name=\"b=c\"";
    IndexOfCharIs(s, '=', 0, 8);
    IndexOfCharIs(s, '=', 9, 11);
    assert s[9..11] == "\"b";
    assert SecondField(s) == Some("\"b");
    assert RemoveChar("\"b", '"') == "b";
  }

  /** A line that is one `tvg-name` match, whose value closes at `c`, is
      its own match text. */
  lemma WholeLineMatch(s: string, c: nat)
    requires |s| == c + 1 && c >= 10 && NameAt(s, "tvg-name", 0)
    requires s[8] == '=' && s[9] == '"' && s[c] == '"'
    requires forall k | 10 <= k < c :: s[k] != '"' && !IsLineTerminator(s[k])
    ensures MatchText(TvgName, s) == Some(s)
  {
    ClosingQuoteIs(s, 10, c);
    assert MatchEnd(s, "tvg-name", 0) == Some(|s|);
    assert Find(s, "tvg-name", 0) == Some((0, |s|));
    assert s[0..|s|] == s;
  }

  lemma BlankNameMatch()
    ensures MatchText(TvgName, "tvg-name=\"\",News") == Some("tvg-name=\"\"")
  {
    var s := "tvg-name=\"\",News";
    assert NameAt(s, "tvg-name", 0);
    ClosingQuoteIs(s, 10, 10);
    assert MatchEnd(s, "tvg-name", 0) == Some(11);
    assert Find(s, "tvg-name", 0) == Some((0, 11));
    assert s[0..11] == "tvg-name=\"\"";
  }

  lemma BlankNameValue()
    ensures MatchValue("tvg-name=\"\"") == Some("")
  {
    var m := "tvg-name=\"\"";
    IndexOfCharIs(m, '=', 0, 8);
    IndexOfCharIs(m, '=', 9, 11);
    assert m[9..11] == "\"\"";
    assert SecondField(m) == Some("\"\"");
    assert RemoveChar("\"\"", '"') == "";
  }

  lemma NewsTail()
    ensures CommaTail("tvg-name=\"\",News") == Some("News")
  {
    var s := "tvg-name=\"\",News";
    IndexOfCharIs(s, ',', 0, 11);
    LineEndIs(s, 12, 16);
    assert s[12..16] == "News";
  }

  /** A blank `tvg-name` takes the title after the comma. */
  lemma BlankNameFallbackExample()
    ensures Extract(TvgName, "tvg-name=\"\",News") == Ok("News")
  {
    BlankNameMatch();
    BlankNameValue();
    NewsTail();
  }
}

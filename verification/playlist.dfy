/** Turning an extended-M3U playlist into contents: the line filter for a
    playlist with several lines, the splitter for a playlist delivered on a
    single line, and the `#EXTINF` parser that builds one content per entry. */
module Playlist {
  import opened Wrappers
  import opened JavaInt
  import opened JavaText
  import opened Constants
  import opened Attributes
  import opened AvContentModel

  const EXTINF: string := "#EXTINF"
  const HTTP: string := "http://"

  // ---------------------------------------------------------------------
  // Several lines: keep the entry lines and the link lines

  predicate KeepLine(l: string) {
    StartsWith(l, EXTINF) || StartsWith(l, HTTP)
  }

  /** `a` can be obtained from `b` by deleting elements. */
  predicate SubsequenceOf(a: seq<string>, b: seq<string>)
    decreases |b|
  {
    if a == [] then true
    else if b == [] then false
    else if a[0] == b[0] then SubsequenceOf(a[1..], b[1..])
    else SubsequenceOf(a, b[1..])
  }

  /** `generatePlaylistLinesMulti`: the lines starting with `#EXTINF` or
      `http://`, in playlist order. */
  function FilterLines(lines: seq<string>): (r: seq<string>)
    ensures forall l :: l in r <==> l in lines && KeepLine(l)
    ensures forall l :: multiset(r)[l] == (if KeepLine(l) then multiset(lines)[l] else 0)
    ensures |r| <= |lines|
  {
    if lines == [] then []
    else
      assert lines == [lines[0]] + lines[1..];
      (if KeepLine(lines[0]) then [lines[0]] else []) + FilterLines(lines[1..])
  }

  lemma {:induction false} FilterIsSubsequence(lines: seq<string>)
    ensures SubsequenceOf(FilterLines(lines), lines)
  {
    if lines != [] {
      var rest := FilterLines(lines[1..]);
      FilterIsSubsequence(lines[1..]);
      if KeepLine(lines[0]) {
        assert FilterLines(lines) == [lines[0]] + rest;
        assert ([lines[0]] + rest)[1..] == rest;
      } else {
        assert FilterLines(lines) == rest;
        SkipKeepsSubsequence(rest, lines);
      }
    }
  }

  /** Deleting one more element of `b` still leaves `a`. */
  lemma {:induction false} SkipKeepsSubsequence(a: seq<string>, b: seq<string>)
    requires b != [] && SubsequenceOf(a, b[1..])
    ensures SubsequenceOf(a, b)
    decreases |b|, |a|
  {
    if a != [] && a[0] == b[0] {
      SubsequenceDropHead(a, b[1..]);
    }
  }

  /** A subsequence without its first element is still a subsequence. */
  lemma {:induction false} SubsequenceDropHead(a: seq<string>, b: seq<string>)
    requires a != [] && SubsequenceOf(a, b)
    ensures SubsequenceOf(a[1..], b)
    decreases |b|, |a|
  {
    if a[0] == b[0] {
      SkipKeepsSubsequence(a[1..], b);
    } else {
      SubsequenceDropHead(a, b[1..]);
      SkipKeepsSubsequence(a[1..], b);
    }
  }

  /** Filtering is idempotent: every kept line is kept again. */
  lemma {:induction false} FilterIdempotent(lines: seq<string>)
    ensures FilterLines(FilterLines(lines)) == FilterLines(lines)
  {
    if lines != [] {
      FilterIdempotent(lines[1..]);
      var rest := FilterLines(lines[1..]);
      if KeepLine(lines[0]) {
        var r := [lines[0]] + rest;
        assert FilterLines(lines) == r;
        assert r[0] == lines[0] && r[1..] == rest;
        assert FilterLines(r) == [lines[0]] + FilterLines(rest);
      } else {
        assert FilterLines(lines) == rest;
      }
    }
  }

  // ---------------------------------------------------------------------
  // One line: the splitter as written

  /** The splitter's state: the characters read since the last flush, and
      the strings emitted so far. */
  datatype Splitter = Splitter(buffer: string, out: seq<string>)

  /** The buffer ends an entry: its last `http://` exists and is preceded
      by whitespace. `None` where Java reads `charAt(-1)`. */
  function LinkStart(buffer: string): (r: Result<Option<nat>, ParseError>)
    ensures r.Ok? && r.value.Some? ==>
      var idx := r.value.value;
      0 < idx && OccursAt(buffer, HTTP, idx) && IsWhitespace(buffer[idx - 1])
    ensures r.Err? <==> LastIndexOf(buffer, HTTP) == 0
  {
    var idx := LastIndexOf(buffer, HTTP);
    if idx == -1 then Ok(None)
    else if idx == 0 then Err(StringIndexOutOfBounds)
    else if IsWhitespace(buffer[idx - 1]) then Ok(Some(idx))
    else Ok(None)
  }

  /** The strings a flush emits, as written: the trimmed link first, then the
      trimmed text before it followed by the buffer's last character (the
      `delete` stops one short of the end). */
  function FlushAsWritten(buffer: string, idx: nat): seq<string>
    requires 0 < idx && OccursAt(buffer, HTTP, idx)
  {
    [Trim(buffer[idx..]), Trim(buffer[..idx] + [buffer[|buffer| - 1]])]
  }

  /** The strings that look like flushes: even count, a link at every even
      position. */
  ghost predicate LinkFirstPairs(out: seq<string>) {
    |out| % 2 == 0 && forall k | 0 <= k < |out| && k % 2 == 0 :: StartsWith(out[k], HTTP)
  }

  lemma HttpIsPrintable()
    ensures forall k | 0 <= k < |HTTP| :: HTTP[k] > ' '
  {
  }

  /** A flush as written keeps the link-first pairing. */
  lemma FlushAsWrittenPairs(out: seq<string>, buffer: string, idx: nat)
    requires LinkFirstPairs(out)
    requires 0 < idx && OccursAt(buffer, HTTP, idx)
    ensures LinkFirstPairs(out + FlushAsWritten(buffer, idx))
  {
    TrimmedLink(buffer, idx);
    var pair := FlushAsWritten(buffer, idx);
    var r := out + pair;
    forall k | 0 <= k < |r| && k % 2 == 0 ensures StartsWith(r[k], HTTP) {
      if k >= |out| {
        assert k == |out| && r[k] == pair[0];
      }
    }
  }

  /** The link of a flush keeps its `http://` prefix once trimmed. */
  lemma TrimmedLink(buffer: string, idx: nat)
    requires 0 < idx && OccursAt(buffer, HTTP, idx)
    ensures StartsWith(Trim(buffer[idx..]), HTTP)
  {
    HttpIsPrintable();
    assert StartsWith(buffer[idx..], HTTP);
    TrimKeepsPrefix(buffer[idx..], HTTP);
  }

  /** One character of `generatePlaylistLinesSingle`; `started` is false
      only for the first character, which never triggers a flush. */
  function StepAsWritten(st: Splitter, c: char, started: bool): (r: Result<Splitter, ParseError>)
    ensures r.Err? <==> c == '#' && started && LastIndexOf(st.buffer, HTTP) == 0
    ensures c != '#' || !started ==> r == Ok(Splitter(st.buffer + [c], st.out))
    ensures r.Ok? && LinkFirstPairs(st.out) ==> LinkFirstPairs(r.value.out)
  {
    if c == '#' && started then
      match LinkStart(st.buffer)
      case Err(e) => Err(e)
      case Ok(Some(idx)) =>
        var out := st.out + FlushAsWritten(st.buffer, idx);
        assert LinkFirstPairs(st.out) ==> LinkFirstPairs(out) by {
          if LinkFirstPairs(st.out) {
            FlushAsWrittenPairs(st.out, st.buffer, idx);
          }
        }
        Ok(Splitter([c], out))
      case Ok(None) => Ok(Splitter(st.buffer + [c], st.out))
    else Ok(Splitter(st.buffer + [c], st.out))
  }

  function RunAsWritten(s: string, st: Splitter, started: bool): (r: Result<Splitter, ParseError>)
    ensures r.Ok? && LinkFirstPairs(st.out) ==> LinkFirstPairs(r.value.out)
    decreases |s|
  {
    if s == [] then Ok(st)
    else
      match StepAsWritten(st, s[0], started)
      case Err(e) => Err(e)
      case Ok(next) => RunAsWritten(s[1..], next, true)
  }

  /** `generatePlaylistLinesSingle` as written: strings in pairs, each pair
      led by its link. */
  function SplitAsWritten(playlist: string): (r: Result<seq<string>, ParseError>)
    ensures r.Ok? ==> |r.value| % 2 == 0
    ensures r.Ok? ==> forall k | 0 <= k < |r.value| && k % 2 == 0 :: StartsWith(r.value[k], HTTP)
  {
    match RunAsWritten(playlist, Splitter("", []), false)
    case Err(e) => Err(e)
    case Ok(st) => Ok(st.out)
  }

  /** Processing a concatenation is processing its parts in turn. */
  lemma {:induction false} RunAppend(s: string, t: string, st: Splitter, started: bool)
    ensures RunAsWritten(s, st, started).Err? ==> RunAsWritten(s + t, st, started) == RunAsWritten(s, st, started)
    ensures RunAsWritten(s, st, started).Ok? ==>
      RunAsWritten(s + t, st, started) == RunAsWritten(t, RunAsWritten(s, st, started).value, started || s != [])
    decreases |s|
  {
    if s != [] {
      assert (s + t)[0] == s[0];
      assert (s + t)[1..] == s[1..] + t;
      match StepAsWritten(st, s[0], started)
      case Err(_) =>
      case Ok(next) =>
        RunAppend(s[1..], t, next, true);
    } else {
      assert s + t == t;
    }
  }

  /** Text without a non-initial '#' only grows the buffer. */
  lemma {:induction false} RunWithoutHash(t: string, st: Splitter, started: bool)
    requires forall k | 0 <= k < |t| :: t[k] != '#' || (k == 0 && !started)
    ensures RunAsWritten(t, st, started) == Ok(Splitter(st.buffer + t, st.out))
    decreases |t|
  {
    if t != [] {
      assert StepAsWritten(st, t[0], started) == Ok(Splitter(st.buffer + [t[0]], st.out));
      RunWithoutHash(t[1..], Splitter(st.buffer + [t[0]], st.out), true);
      assert st.buffer + [t[0]] + t[1..] == st.buffer + t;
    } else {
      assert st.buffer + t == st.buffer;
    }
  }

  /** Whatever follows the last '#' is never emitted: appending text
      without '#' changes nothing. */
  lemma TailNeverEmitted(s: string, t: string)
    requires forall k | 0 <= k < |t| :: t[k] != '#'
    ensures SplitAsWritten(s + t) == SplitAsWritten(s)
  {
    RunAppend(s, t, Splitter("", []), false);
    match RunAsWritten(s, Splitter("", []), false)
    case Err(_) =>
    case Ok(mid) => RunWithoutHash(t, mid, s != []);
  }

  /** The last `http://` of the example entry starts at index 8. */
  lemma ExampleLinkIndex()
    ensures LastIndexOf("#EXTINF http://", HTTP) == 8
  {
    assert OccursAt("#EXTINF http://", HTTP, 8);
  }

  lemma ExampleTrims()
    ensures Trim("http://") == "http://"
    ensures Trim("#EXTINF /") == "#EXTINF /"
    ensures Trim("#EXTINF ") == "#EXTINF"
  {
    assert LeadingBlanks("http://", 0) == 0;
    assert LeadingBlanks("#EXTINF /", 0) == 0;
    assert LeadingBlanks("#EXTINF ", 0) == 0;
    assert TrailingEnd("#EXTINF ", 0, 8) == 7;
  }

  /** The flush the final '#' of the example triggers. */
  lemma ExampleFlush()
    ensures StepAsWritten(Splitter("#EXTINF http://", []), '#', true) == Ok(Splitter("#", ["http://", "#EXTINF /"]))
  {
    var b := "#EXTINF http://";
    ExampleLinkIndex();
    ExampleTrims();
    assert LinkStart(b) == Ok(Some(8));
    assert b[8..] == "http://";
    assert Trim(b[8..]) == "http://";
    assert b[..8] + [b[14]] == "#EXTINF /";
    assert Trim(b[..8] + [b[14]]) == "#EXTINF /";
    assert FlushAsWritten(b, 8) == ["http://", "#EXTINF /"];
    assert [] + FlushAsWritten(b, 8) == ["http://", "#EXTINF /"];
  }

  /** A playlist whose only '#' is its first character is only buffered. */
  lemma RunFromStart(t: string)
    requires forall k | 0 < k < |t| :: t[k] != '#'
    ensures RunAsWritten(t, Splitter("", []), false) == Ok(Splitter(t, []))
  {
    RunWithoutHash(t, Splitter("", []), false);
    assert "" + t == t;
  }

  lemma ExampleRunPrefix()
    ensures RunAsWritten("#EXTINF http://", Splitter("", []), false) == Ok(Splitter("#EXTINF http://", []))
  {
    var t := "#EXTINF http://";
    ExampleHashOnlyFirst(t);
    RunFromStart(t);
  }

  /** The example playlist is the example entry followed by '#'. */
  lemma ExampleConcats(b: string)
    requires b == "#EXTINF http://"
    ensures "" + b == b && b + "#" == "#EXTINF http://#"
  {
  }

  /** The example entry has no '#' after its first character. */
  lemma ExampleHashOnlyFirst(t: string)
    requires t == "#EXTINF http://"
    ensures forall k | 0 < k < |t| :: t[k] != '#'
  {
  }

  /** The smallest single-line playlist showing the flush order: the link
      comes out first and the entry text keeps the link's last character. */
  lemma SplitAsWrittenExample()
    ensures SplitAsWritten("#EXTINF http://#") == Ok(["http://", "#EXTINF /"])
  {
    var b := "#EXTINF http://";
    assert "#EXTINF http://#" == b + "#";
    ExampleRunPrefix();
    RunAppend(b, "#", Splitter("", []), false);
    ExampleFlush();
    assert RunAsWritten("#EXTINF http://#", Splitter("", []), false) == Ok(Splitter("#", ["http://", "#EXTINF /"]));
  }

  // ---------------------------------------------------------------------
  // One line: the splitter as evidently intended

  /** The strings a flush should emit: the entry text, then its link. */
  function FlushIntended(buffer: string, idx: nat): seq<string>
    requires 0 < idx && OccursAt(buffer, HTTP, idx)
  {
    [Trim(buffer[..idx]), Trim(buffer[idx..])]
  }

  /** The intended end of an entry: a last `http://` preceded by whitespace
      (an `http://` at the very start of the buffer has no predecessor and
      does not end an entry). */
  function LinkStartIntended(buffer: string): (r: Option<nat>)
    ensures r.Some? ==> 0 < r.value && OccursAt(buffer, HTTP, r.value)
  {
    var idx := LastIndexOf(buffer, HTTP);
    if idx > 0 && IsWhitespace(buffer[idx - 1]) then Some(idx) else None
  }

  /** Strings in entry/link pairs: even count, a link at every odd position. */
  ghost predicate EntryLinkPairs(out: seq<string>) {
    |out| % 2 == 0 && forall k | 0 <= k < |out| && k % 2 == 1 :: StartsWith(out[k], HTTP)
  }

  lemma FlushIntendedPairs(out: seq<string>, buffer: string, idx: nat)
    requires EntryLinkPairs(out)
    requires 0 < idx && OccursAt(buffer, HTTP, idx)
    ensures EntryLinkPairs(out + FlushIntended(buffer, idx))
  {
    TrimmedLink(buffer, idx);
    var pair := FlushIntended(buffer, idx);
    var r := out + pair;
    forall k | 0 <= k < |r| && k % 2 == 1 ensures StartsWith(r[k], HTTP) {
      if k >= |out| {
        assert k == |out| + 1 && r[k] == pair[1];
      }
    }
  }

  function RunIntended(s: string, st: Splitter, started: bool): (r: Splitter)
    ensures EntryLinkPairs(st.out) ==> EntryLinkPairs(r.out)
    decreases |s|
  {
    if s == [] then st
    else
      var c := s[0];
      if c == '#' && started && LinkStartIntended(st.buffer).Some? then
        var idx := LinkStartIntended(st.buffer).value;
        var out := st.out + FlushIntended(st.buffer, idx);
        assert EntryLinkPairs(st.out) ==> EntryLinkPairs(out) by {
          if EntryLinkPairs(st.out) {
            FlushIntendedPairs(st.out, st.buffer, idx);
          }
        }
        RunIntended(s[1..], Splitter([c], out), true)
      else RunIntended(s[1..], Splitter(st.buffer + [c], st.out), true)
  }

  /** The single-line splitter as evidently intended: each entry text is
      followed by its own link, and the final entry is flushed as well. */
  function SplitIntended(playlist: string): (r: seq<string>)
    ensures |r| % 2 == 0
    ensures forall k | 0 <= k < |r| && k % 2 == 0 :: k + 1 < |r| && StartsWith(r[k + 1], HTTP)
  {
    var st := RunIntended(playlist, Splitter("", []), false);
    var link := LinkStartIntended(st.buffer);
    var r := if link.Some? then st.out + FlushIntended(st.buffer, link.value) else st.out;
    if link.Some? then FlushIntendedPairs(st.out, st.buffer, link.value); PairsFollow(r); r
    else PairsFollow(r); r
  }

  /** In entry/link pairs every entry has its link right after it. */
  lemma PairsFollow(out: seq<string>)
    requires EntryLinkPairs(out)
    ensures forall k | 0 <= k < |out| && k % 2 == 0 :: k + 1 < |out| && StartsWith(out[k + 1], HTTP)
  {
    forall k | 0 <= k < |out| && k % 2 == 0
      ensures k + 1 < |out| && StartsWith(out[k + 1], HTTP)
    {
      assert (k + 1) % 2 == 1;
    }
  }

  /** Text without a non-initial '#' only grows the buffer. */
  lemma {:induction false} RunIntendedWithoutHash(t: string, u: string, st: Splitter, started: bool)
    requires forall k | 0 <= k < |t| :: t[k] != '#' || (k == 0 && !started)
    ensures RunIntended(t + u, st, started) == RunIntended(u, Splitter(st.buffer + t, st.out), started || t != [])
    decreases |t|
  {
    if t != [] {
      assert (t + u)[0] == t[0];
      assert (t + u)[1..] == t[1..] + u;
      RunIntendedWithoutHash(t[1..], u, Splitter(st.buffer + [t[0]], st.out), true);
      assert st.buffer + [t[0]] + t[1..] == st.buffer + t;
    } else {
      assert t + u == u;
      assert st.buffer + t == st.buffer;
    }
  }

  /** The buffer of the example ends its entry at index 8. */
  lemma ExampleIntendedLink()
    ensures LinkStartIntended("#EXTINF http://") == Some(8)
    ensures LinkStartIntended("#").None?
  {
    ExampleLinkIndex();
    assert "#EXTINF http://"[7] == ' ';
  }

  /** The flush of the example buffer: the trimmed entry, then the link. */
  lemma ExampleIntendedFlush()
    ensures OccursAt("#EXTINF http://", HTTP, 8)
    ensures FlushIntended("#EXTINF http://", 8) == ["#EXTINF", "http://"]
  {
    var b := "#EXTINF http://";
    ExampleLinkIndex();
    assert b[..8] == "#EXTINF ";
    assert b[8..] == "http://";
    ExampleTrims();
  }

  /** The closing '#' of the example flushes the buffer and starts anew. */
  lemma ExampleIntendedStep()
    ensures RunIntended("#", Splitter("#EXTINF http://", []), true) == Splitter("#", ["#EXTINF", "http://"])
  {
    var b := "#EXTINF http://";
    ExampleIntendedLink();
    ExampleIntendedFlush();
    var out := [] + FlushIntended(b, 8);
    assert out == ["#EXTINF", "http://"];
    assert "#"[1..] == "";
    assert RunIntended("#", Splitter(b, []), true) == RunIntended("", Splitter("#", out), true);
  }

  /** On the same input the intended splitter puts the entry text first and
      its link right after it. */
  lemma SplitIntendedExample()
    ensures SplitIntended("#EXTINF http://#") == ["#EXTINF", "http://"]
  {
    ExampleIntendedRun();
    ExampleIntendedLink();
  }

  /** The whole example runs to one flush and a buffer holding the final
      '#'. */
  lemma ExampleIntendedRun()
    ensures RunIntended("#EXTINF http://#", Splitter("", []), false) == Splitter("#", ["#EXTINF", "http://"])
  {
    var b := "#EXTINF http://";
    ExampleHashOnlyFirst(b);
    RunIntendedWithoutHash(b, "#", Splitter("", []), false);
    ExampleConcats(b);
    ExampleIntendedStep();
  }

  // ---------------------------------------------------------------------
  // Reading the playlist

  /** `getAvContentsAsString`: `None` when reading failed (the source
      returns null); a one-line playlist goes to the single-line splitter,
      any other line count to the line filter. */
  function PlaylistLines(read: Option<seq<string>>): (r: Option<seq<string>>)
    ensures read.None? <==> r.None?
    ensures read.Some? && |read.value| != 1 ==> r == Some(FilterLines(read.value))
    ensures read.Some? && |read.value| == 1 ==> r == Some(SplitIntended(read.value[0]))
  {
    match read
    case None => None
    case Some(lines) =>
      if |lines| == 1 then Some(SplitIntended(lines[0])) else Some(FilterLines(lines))
  }

  /** `getAvContentsAsString` as written: a one-line playlist goes to the
      as-written splitter, whose `charAt(-1)` exception is not caught. */
  function PlaylistLinesAsWritten(read: Option<seq<string>>): (r: Result<Option<seq<string>>, ParseError>)
    ensures read.None? ==> r == Ok(None)
    ensures read.Some? && |read.value| != 1 ==> r == Ok(PlaylistLines(read))
    ensures read.Some? && |read.value| == 1 ==> (r.Err? <==> SplitAsWritten(read.value[0]).Err?)
    ensures read.Some? && |read.value| == 1 && r.Ok? ==> r.value == Some(SplitAsWritten(read.value[0]).value)
  {
    match read
    case None => Ok(None)
    case Some(lines) =>
      if |lines| == 1 then
        match SplitAsWritten(lines[0])
        case Err(e) => Err(e)
        case Ok(split) => Ok(Some(split))
      else Ok(Some(FilterLines(lines)))
  }

  // ---------------------------------------------------------------------
  // Building contents

  /** The fields a parsed content always has. */
  predicate Parsed(c: AvContent, category: Option<string>) {
    c.title.Some? && c.logo.Some? && c.group.Some? && c.link.Some? && c.category == category
  }

  /** `createAvContent`: no content when the line has no `tvg-name` match;
      otherwise the four attributes, the given link and category, and the
      hash of the `tvg-id` value as id. */
  function CreateAvContent(line: string, link: string, category: Option<string>): (r: Result<Option<AvContent>, ParseError>)
    ensures r.Ok? ==> (r.value.None? <==> FindAttribute(TvgName, line).None?)
    ensures r.Ok? && r.value.Some? ==> Parsed(r.value.value, category) && r.value.value.link == Some(link)
    ensures r.Ok? && r.value.Some? ==> Extract(TvgId, line).Ok? && r.value.value.id == Hash(Extract(TvgId, line).value)
    ensures r.Ok? && r.value.Some? && MatchText(TvgId, line).None? ==> r.value.value.id == 0
    ensures r.Ok? && r.value.Some? ==>
              && Extract(TvgName, line).Ok? && Extract(TvgLogo, line).Ok? && Extract(GroupTitle, line).Ok?
              && r.value.value.title == Some(Extract(TvgName, line).value)
              && r.value.value.logo == Some(Extract(TvgLogo, line).value)
              && r.value.value.group == Some(Extract(GroupTitle, line).value)
    ensures r.Err? <==>
              FindAttribute(TvgName, line).Some?
              && (Extract(TvgName, line).Err? || Extract(TvgLogo, line).Err?
                  || Extract(GroupTitle, line).Err? || Extract(TvgId, line).Err?)
  {
    if FindAttribute(TvgName, line).None? then Ok(None)
    else
      var title :- Extract(TvgName, line);
      var logo :- Extract(TvgLogo, line);
      var group :- Extract(GroupTitle, line);
      var tvgId :- Extract(TvgId, line);
      Ok(Some(Make(Some(title), Some(logo), Some(group), category, Some(link), Hash(tvgId))))
  }

  /** The number of lines from `i` on that contain `#EXTINF`. */
  function EntryCount(lines: seq<string>, i: nat): nat
    requires i <= |lines|
    decreases |lines| - i
  {
    if i == |lines| then 0
    else (if Contains(lines[i], EXTINF) then 1 else 0) + EntryCount(lines, i + 1)
  }

  /** `c` was built from an entry line at or after `i` and linked to the line
      following it. */
  ghost predicate FromEntry(lines: seq<string>, i: nat, c: AvContent) {
    exists j | i <= j < |lines| - 1 :: Contains(lines[j], EXTINF) && c.link == Some(lines[j + 1])
  }

  lemma FromEntryWiden(lines: seq<string>, i: nat, cs: seq<AvContent>)
    requires forall c | c in cs :: FromEntry(lines, i + 1, c)
    ensures forall c | c in cs :: FromEntry(lines, i, c)
  {
    forall c | c in cs ensures FromEntry(lines, i, c) {
      var j :| i + 1 <= j < |lines| - 1 && Contains(lines[j], EXTINF) && c.link == Some(lines[j + 1]);
    }
  }

  /** The values present in a sequence of options, in order. */
  function Present(os: seq<Option<AvContent>>): (r: seq<AvContent>)
    ensures |r| <= |os|
    ensures forall x :: x in r <==> Some(x) in os
  {
    if os == [] then []
    else
      var rest := Present(os[1..]);
      assert forall x :: Some(x) in os <==> os[0] == Some(x) || Some(x) in os[1..];
      if os[0].Some? then [os[0].value] + rest else rest
  }

  /** What the loop does at line `j`: nothing for a line without
      `#EXTINF`, an index error for an entry on the last line, and otherwise
      `createAvContent` of the line and the next. */
  function EntryStep(lines: seq<string>, j: nat, category: Option<string>): (r: Result<Option<AvContent>, ParseError>)
    requires j < |lines|
    ensures r.Ok? && r.value.Some? ==>
              && Parsed(r.value.value, category)
              && Contains(lines[j], EXTINF) && j + 1 < |lines|
              && r.value.value.link == Some(lines[j + 1])
  {
    if !Contains(lines[j], EXTINF) then Ok(None)
    else if j + 1 == |lines| then Err(IndexOutOfBounds)
    else CreateAvContent(lines[j], lines[j + 1], category)
  }

  /** The step of every line from `i` on, in line order. */
  function EntrySteps(lines: seq<string>, i: nat, category: Option<string>): (r: seq<Result<Option<AvContent>, ParseError>>)
    requires i <= |lines|
    ensures |r| == |lines| - i
    ensures forall k | 0 <= k < |r| :: r[k] == EntryStep(lines, i + k, category)
  {
    seq(|lines| - i, k requires 0 <= k < |lines| - i => EntryStep(lines, i + k, category))
  }

  /** The content each step yields, `None` for a step that yields none or
      throws. */
  function Yields(steps: seq<Result<Option<AvContent>, ParseError>>): (r: seq<Option<AvContent>>)
    ensures |r| == |steps|
    ensures forall k | 0 <= k < |steps| :: r[k] == (if steps[k].Ok? then steps[k].value else None)
  {
    seq(|steps|, k requires 0 <= k < |steps| => if steps[k].Ok? then steps[k].value else None)
  }

  /** One step followed by the rest: the step's error, else the rest's
      error, else the step's content (if any) in front of the rest's. */
  function Cons(step: Result<Option<AvContent>, ParseError>, rest: Result<seq<AvContent>, ParseError>): Result<seq<AvContent>, ParseError>
  {
    match step
    case Err(e) => Err(e)
    case Ok(c) =>
      match rest
      case Err(e) => Err(e)
      case Ok(cs) => if c.Some? then Ok([c.value] + cs) else Ok(cs)
  }

  /** Steps run in order: the first error, or else every content they
      yield, in order. */
  function Collect(steps: seq<Result<Option<AvContent>, ParseError>>): (r: Result<seq<AvContent>, ParseError>)
  {
    if steps == [] then Ok([]) else Cons(steps[0], Collect(steps[1..]))
  }

  /** Collecting a non-empty list runs its first step before the rest. */
  lemma CollectStep(steps: seq<Result<Option<AvContent>, ParseError>>)
    requires steps != []
    ensures Collect(steps) == Cons(steps[0], Collect(steps[1..]))
  {
  }

  /** Collecting throws exactly when some step does, and otherwise lists the
      contents the steps yield, in order, and nothing else. */
  lemma {:induction false} CollectMeaning(steps: seq<Result<Option<AvContent>, ParseError>>)
    ensures Collect(steps).Err? <==> exists k | 0 <= k < |steps| :: steps[k].Err?
    ensures Collect(steps).Ok? ==> Collect(steps).value == Present(Yields(steps))
  {
    if steps != [] {
      var tail := steps[1..];
      CollectMeaning(tail);
      assert forall k | 1 <= k < |steps| :: steps[k] == tail[k - 1];
      assert Yields(steps)[1..] == Yields(tail);
      if steps[0].Err? {
        assert Collect(steps).Err?;
      } else if Collect(tail).Err? {
        var k :| 0 <= k < |tail| && tail[k].Err?;
        assert steps[k + 1].Err?;
      }
    }
  }

  lemma EntryStepsTail(lines: seq<string>, i: nat, category: Option<string>)
    requires i < |lines|
    ensures EntrySteps(lines, i, category)[0] == EntryStep(lines, i, category)
    ensures EntrySteps(lines, i, category)[1..] == EntrySteps(lines, i + 1, category)
  {
    var steps, tail := EntrySteps(lines, i, category), EntrySteps(lines, i + 1, category);
    forall k | 0 <= k < |tail| ensures steps[k + 1] == tail[k] {
      assert i + (k + 1) == (i + 1) + k;
    }
    DropFirst(steps, tail);
  }

  /** A sequence one longer than `t` whose elements after the first are
      those of `t` is `t` with one element in front. */
  lemma DropFirst<T>(r: seq<T>, t: seq<T>)
    requires |r| == |t| + 1
    requires forall k | 0 <= k < |t| :: r[k + 1] == t[k]
    ensures r[1..] == t
  {
    assert forall k | 0 <= k < |t| :: r[1..][k] == r[k + 1];
  }

  lemma ContentsFromStep(lines: seq<string>, i: nat, category: Option<string>)
    requires i < |lines|
    ensures ContentsFrom(lines, i, category) == Cons(EntryStep(lines, i, category), ContentsFrom(lines, i + 1, category))
  {
  }

  /** The loop from line `i` on runs the steps of those lines in order. */
  lemma {:induction false} ContentsFromCollects(lines: seq<string>, i: nat, category: Option<string>)
    requires i <= |lines|
    ensures ContentsFrom(lines, i, category) == Collect(EntrySteps(lines, i, category))
    decreases |lines| - i
  {
    if i == |lines| {
      assert EntrySteps(lines, i, category) == [];
    } else {
      ContentsFromCollects(lines, i + 1, category);
      EntryStepsTail(lines, i, category);
      ContentsFromStep(lines, i, category);
      CollectStep(EntrySteps(lines, i, category));
    }
  }

  /** The loop of `getAvContentsList` from line `i` on: each line containing
      `#EXTINF` is parsed together with the line after it. */
  function ContentsFrom(lines: seq<string>, i: nat, category: Option<string>): (r: Result<seq<AvContent>, ParseError>)
    requires i <= |lines|
    ensures r.Ok? ==> |r.value| <= EntryCount(lines, i)
    ensures r.Ok? ==> forall c | c in r.value :: Parsed(c, category) && FromEntry(lines, i, c)
    ensures i < |lines| && Contains(lines[|lines| - 1], EXTINF) ==> r.Err?
    decreases |lines| - i
  {
    if i == |lines| then Ok([])
    else
      var step := EntryStep(lines, i, category);
      var rest := ContentsFrom(lines, i + 1, category);
      if step.Ok? && rest.Ok? then
        FromEntryWiden(lines, i, rest.value);
        if step.value.Some? then
          assert FromEntry(lines, i, step.value.value);
          Cons(step, rest)
        else Cons(step, rest)
      else Cons(step, rest)
  }

  /** The loop throws exactly when the step of some line from `i` on
      throws, and otherwise lists every content those steps yield, in line
      order, and nothing else. */
  lemma ContentsFromEntries(lines: seq<string>, i: nat, category: Option<string>)
    requires i <= |lines|
    ensures ContentsFrom(lines, i, category).Err? <==>
              exists k | 0 <= k < |lines| - i :: EntrySteps(lines, i, category)[k].Err?
    ensures ContentsFrom(lines, i, category).Ok? ==>
              ContentsFrom(lines, i, category).value == Present(Yields(EntrySteps(lines, i, category)))
  {
    ContentsFromCollects(lines, i, category);
    CollectMeaning(EntrySteps(lines, i, category));
  }

  /** `getAvContentsList(playlist, category)`: an unreadable playlist gives
      no contents; otherwise one content per valid entry line, in order. */
  function AvContentsList(read: Option<seq<string>>, category: Option<string>): (r: Result<seq<AvContent>, ParseError>)
    ensures read.None? ==> r == Ok([])
    ensures r.Ok? ==> forall c | c in r.value :: Parsed(c, category)
    ensures read.Some? && r.Ok? ==> |r.value| <= |PlaylistLines(read).value|
    ensures read.Some? ==>
              var steps := EntrySteps(PlaylistLines(read).value, 0, category);
              (r.Err? <==> exists k | 0 <= k < |steps| :: steps[k].Err?)
              && (r.Ok? ==> r.value == Present(Yields(steps)))
  {
    match PlaylistLines(read)
    case None => Ok([])
    case Some(lines) =>
      EntryCountBound(lines, 0);
      ContentsFromEntries(lines, 0, category);
      ContentsFrom(lines, 0, category)
  }

  /** `getAvContentsList` with the splitter as written. It agrees with
      `AvContentsList` on every playlist that is not a single line. */
  function AvContentsListAsWritten(read: Option<seq<string>>, category: Option<string>): (r: Result<seq<AvContent>, ParseError>)
    ensures read.Some? && |read.value| != 1 ==> r == AvContentsList(read, category)
    ensures read.None? ==> r == Ok([])
    ensures read.Some? && |read.value| == 1 ==>
              (r.Err? <==> SplitAsWritten(read.value[0]).Err?
                           || exists k | 0 <= k < |SplitAsWritten(read.value[0]).value| ::
                                EntrySteps(SplitAsWritten(read.value[0]).value, 0, category)[k].Err?)
    ensures read.Some? && |read.value| == 1 && r.Ok? ==>
              r.value == Present(Yields(EntrySteps(SplitAsWritten(read.value[0]).value, 0, category)))
  {
    match PlaylistLinesAsWritten(read)
    case Err(e) => Err(e)
    case Ok(None) => Ok([])
    case Ok(Some(lines)) =>
      ContentsFromEntries(lines, 0, category);
      ContentsFrom(lines, 0, category)
  }

  /** The one-line playlist `#EXTINF http://#` makes the code throw, where
      the corrected pipeline parses it to no content. */
  lemma OneLinePlaylistDiffers(category: Option<string>)
    ensures AvContentsListAsWritten(Some(["#EXTINF http://#"]), category) == Err(IndexOutOfBounds)
    ensures AvContentsList(Some(["#EXTINF http://#"]), category) == Ok([])
  {
    AsWrittenSplitBreaksContents(category);
    IntendedSplitParses(category);
    var read := Some(["#EXTINF http://#"]);
    assert read.value[0] == "#EXTINF http://#";
    assert PlaylistLines(read) == Some(SplitIntended("#EXTINF http://#"));
  }

  lemma {:induction false} EntryCountBound(lines: seq<string>, i: nat)
    requires i <= |lines|
    ensures EntryCount(lines, i) <= |lines| - i
    decreases |lines| - i
  {
    if i < |lines| {
      EntryCountBound(lines, i + 1);
    }
  }

  /** An entry on the last line has no link line after it: the source reads
      past the end of the list. */
  lemma EntryOnLastLineFails(lines: seq<string>, category: Option<string>)
    requires |lines| > 0 && Contains(lines[|lines| - 1], EXTINF)
    ensures ContentsFrom(lines, 0, category).Err?
  {
  }

  /** Link first, entry second: the entry is on the last line. */
  lemma LinkFirstLinesFail(category: Option<string>)
    ensures ContentsFrom(["http://", "#EXTINF /"], 0, category) == Err(IndexOutOfBounds)
  {
    var lines := ["http://", "#EXTINF /"];
    assert OccursAt(lines[1], EXTINF, 0);
    assert !Contains(lines[0], EXTINF) by {
      assert lines[0][0..7][0] == 'h' != EXTINF[0];
    }
    assert ContentsFrom(lines, 1, category) == Err(IndexOutOfBounds);
  }

  /** The lines the as-written splitter returns for the example playlist make
      the content loop read past the end of the list. */
  lemma AsWrittenSplitBreaksContents(category: Option<string>)
    ensures SplitAsWritten("#EXTINF http://#").Ok?
    ensures ContentsFrom(SplitAsWritten("#EXTINF http://#").value, 0, category) == Err(IndexOutOfBounds)
  {
    SplitAsWrittenExample();
    LinkFirstLinesFail(category);
  }

  /** With the intended splitter the same playlist parses: its entry has no
      `tvg-name`, so it yields no content and no error. */
  lemma IntendedSplitParses(category: Option<string>)
    ensures ContentsFrom(SplitIntended("#EXTINF http://#"), 0, category) == Ok([])
  {
    SplitIntendedExample();
    ExampleLinesContents(category);
  }

  /** The entry line `#EXTINF` has no `tvg-name`, and the link line holds no
      `#EXTINF`. */
  lemma ExampleLinesFacts()
    ensures Contains("#EXTINF", EXTINF)
    ensures !Contains("http://", EXTINF)
    ensures FindAttribute(TvgName, "#EXTINF").None?
  {
    assert OccursAt("#EXTINF", EXTINF, 0);
    assert "http://"[0..7][0] == 'h';
    NoNameNoMatch("#EXTINF", "tvg-name");
  }

  /** The lines of the example yield no content and no error. */
  lemma ExampleLinesContents(category: Option<string>)
    ensures ContentsFrom(["#EXTINF", "http://"], 0, category) == Ok([])
  {
    var lines := ["#EXTINF", "http://"];
    ExampleLinesFacts();
    assert lines[0] == "#EXTINF" && lines[1] == "http://";
    assert ContentsFrom(lines, 1, category) == Ok([]);
    assert CreateAvContent(lines[0], lines[1], category) == Ok(None);
  }

  /** A line shorter than the attribute name cannot match its pattern. */
  lemma NoNameNoMatch(s: string, name: string)
    requires |s| < |name|
    ensures Find(s, name, 0).None?
  {
    assert forall k | 0 <= k <= |s| :: MatchEnd(s, name, k).None? by {
      forall k | 0 <= k <= |s| ensures MatchEnd(s, name, k).None? {
        assert !NameAt(s, name, k);
      }
    }
  }

  // ---------------------------------------------------------------------
  // Groups

  /** `getAvContentsGroup`: every group of the input exactly once (a set;
      the source returns it in hash order). */
  function Groups(contents: seq<AvContent>): (r: set<Option<string>>)
    ensures forall c | c in contents :: c.group in r
    ensures forall g | g in r :: exists c | c in contents :: c.group == g
    ensures |r| <= |contents|
  {
    if contents == [] then {}
    else
      var rest := Groups(contents[1..]);
      assert contents == [contents[0]] + contents[1..];
      rest + {contents[0].group}
  }
}

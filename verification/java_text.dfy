/** The `java.lang.String`, `Character` and `Integer` operations the library
    relies on, over `string` (a sequence of Unicode scalar values; the model
    does not split supplementary characters into UTF-16 surrogate pairs). */
module JavaText {
  import opened Wrappers
  import opened JavaInt

  // ---------------------------------------------------------------------
  // Searching

  /** `p` occurs in `s` starting at index `i`. */
  predicate OccursAt(s: string, p: string, i: int) {
    0 <= i && i + |p| <= |s| && s[i..i + |p|] == p
  }

  /** `String.startsWith`. */
  predicate StartsWith(s: string, p: string) {
    |p| <= |s| && s[..|p|] == p
  }

  /** `String.contains`. */
  predicate Contains(s: string, p: string) {
    exists i | 0 <= i <= |s| - |p| :: OccursAt(s, p, i)
  }

  /** `String.lastIndexOf(p)`: the greatest start index of an occurrence of
      `p`, or -1 when there is none. */
  function LastIndexOf(s: string, p: string): (r: int)
    ensures r == -1 || 0 <= r <= |s| - |p|
    ensures r >= 0 ==> OccursAt(s, p, r)
    ensures forall j | r < j <= |s| - |p| :: !OccursAt(s, p, j)
    ensures r == -1 <==> !Contains(s, p)
  {
    LastIndexBelow(s, p, |s| - |p|)
  }

  /** The greatest occurrence start of `p` that is at most `i`, or -1. */
  function LastIndexBelow(s: string, p: string, i: int): (r: int)
    requires i <= |s| - |p|
    ensures r == -1 || 0 <= r <= i
    ensures r >= 0 ==> OccursAt(s, p, r)
    ensures forall j | r < j <= i :: !OccursAt(s, p, j)
    decreases i + 1
  {
    if i < 0 then -1
    else if OccursAt(s, p, i) then i
    else LastIndexBelow(s, p, i - 1)
  }

  /** The first index at or after `from` holding `c`, or `|s|` when there
      is none. */
  function IndexOfChar(s: string, c: char, from: nat): (r: nat)
    requires from <= |s|
    ensures from <= r <= |s|
    ensures r < |s| ==> s[r] == c
    ensures forall k | from <= k < r :: s[k] != c
    decreases |s| - from
  {
    if from == |s| || s[from] == c then from else IndexOfChar(s, c, from + 1)
  }

  /** `indexOf` is pinned down by its contract: the first `c` at or after
      `from`, or the length. */
  lemma IndexOfCharIs(s: string, c: char, from: nat, r: nat)
    requires from <= r <= |s|
    requires r < |s| ==> s[r] == c
    requires forall k | from <= k < r :: s[k] != c
    ensures IndexOfChar(s, c, from) == r
  {
  }

  /** `String.replace(c, "")`: `s` with every `c` removed. */
  function RemoveChar(s: string, c: char): (r: string)
    ensures forall k | 0 <= k < |r| :: r[k] != c
    ensures |r| <= |s|
    ensures (forall k | 0 <= k < |s| :: s[k] != c) ==> r == s
    ensures forall x | x != c :: multiset(r)[x] == multiset(s)[x]
  {
    if s == [] then []
    else
      assert s == [s[0]] + s[1..];
      (if s[0] == c then [] else [s[0]]) + RemoveChar(s[1..], c)
  }

  // ---------------------------------------------------------------------
  // Characters

  /** `Character.isWhitespace`: the Unicode space separators other than the
      no-break spaces, plus the ASCII controls TAB..CR and FS..US. */
  predicate IsWhitespace(c: char) {
    ('\t' <= c <= '\r') || ('\U{1C}' <= c <= ' ') || c == '\U{1680}'
    || ('\U{2000}' <= c <= '\U{2006}') || ('\U{2008}' <= c <= '\U{200A}')
    || c == '\U{2028}' || c == '\U{2029}' || c == '\U{205F}' || c == '\U{3000}'
  }

  /** The characters `.` does not match in a `java.util.regex` pattern
      compiled without DOTALL. */
  predicate IsLineTerminator(c: char) {
    c == '\n' || c == '\r' || c == '\U{85}' || c == '\U{2028}' || c == '\U{2029}'
  }

  /** ASCII lower-casing, the folding `Pattern.CASE_INSENSITIVE` applies when
      UNICODE_CASE is not set. */
  function AsciiLower(c: char): (r: char)
    ensures 'A' <= c <= 'Z' ==> r as int == c as int + 32
    ensures !('A' <= c <= 'Z') ==> r == c
  {
    if 'A' <= c <= 'Z' then (c as int + 32) as char else c
  }

  // ---------------------------------------------------------------------
  // Trimming

  /** `String.trim`: drops every leading and trailing character at or below
      U+0020. */
  function Trim(s: string): (r: string)
    ensures exists a, b | 0 <= a <= b <= |s| ::
              (r == s[a..b]
               && (forall k | 0 <= k < a :: s[k] <= ' ')
               && (forall k | b <= k < |s| :: s[k] <= ' '))
    ensures r != [] ==> r[0] > ' ' && r[|r| - 1] > ' '
    ensures (forall k | 0 <= k < |s| :: s[k] <= ' ') <==> r == []
  {
    var a := LeadingBlanks(s, 0);
    var b := TrailingEnd(s, a, |s|);
    s[a..b]
  }

  /** The first index at or after `i` whose character is above U+0020. */
  function LeadingBlanks(s: string, i: nat): (a: nat)
    requires i <= |s|
    ensures i <= a <= |s|
    ensures forall k | i <= k < a :: s[k] <= ' '
    ensures a < |s| ==> s[a] > ' '
    decreases |s| - i
  {
    if i == |s| || s[i] > ' ' then i else LeadingBlanks(s, i + 1)
  }

  /** The end of `s[a..b]` once its trailing blanks are dropped. */
  function TrailingEnd(s: string, a: nat, b: nat): (e: nat)
    requires a <= b <= |s|
    requires a < |s| ==> s[a] > ' '
    ensures a <= e <= b
    ensures forall k | e <= k < b :: s[k] <= ' '
    ensures e > a ==> s[e - 1] > ' '
    ensures e == a ==> a == b || a == |s|
    decreases b
  {
    if b == a || s[b - 1] > ' ' then b else TrailingEnd(s, a, b - 1)
  }

  /** A prefix made of characters above U+0020 survives trimming. */
  lemma TrimKeepsPrefix(s: string, p: string)
    requires StartsWith(s, p) && p != []
    requires forall k | 0 <= k < |p| :: p[k] > ' '
    ensures StartsWith(Trim(s), p)
  {
    var a := LeadingBlanks(s, 0);
    assert s[0] == p[0];
    assert a == 0;
    var b := TrailingEnd(s, a, |s|);
    assert s[|p| - 1] == p[|p| - 1];
    assert Trim(s)[..|p|] == s[..|p|];
  }

  // ---------------------------------------------------------------------
  // String.hashCode

  /** The exact polynomial `s[0]*31^(n-1) + ... + s[n-1]`. */
  function Polynomial(s: string): int {
    if s == [] then 0 else 31 * Polynomial(s[..|s| - 1]) + s[|s| - 1] as int
  }

  /** `String.hashCode`: the polynomial hash reduced to a signed 32-bit int
      (the model hashes code points, not UTF-16 units). */
  function Hash(s: string): (h: int)
    ensures IsInt32(h)
    ensures (Polynomial(s) - h) % TWO_32 == 0
  {
    Wrap32(Polynomial(s))
  }

  /** The empty string hashes to 0, the id an entry without `tvg-id` gets. */
  lemma HashOfEmpty()
    ensures Hash("") == 0
  {
  }

  /** Java computes the hash in an `int` accumulator that overflows at every
      step (`h = 31 * h + c`); the per-step wrap gives the same value as
      reducing the exact polynomial once. */
  lemma {:induction false} HashStep(s: string, c: char)
    ensures Hash(s + [c]) == Wrap32(31 * Hash(s) + c as int)
  {
    assert (s + [c])[..|s|] == s;
    Wrap32MulAdd(Polynomial(s), 31, c as int);
  }

  // ---------------------------------------------------------------------
  // Decimal text: Integer.toString and Integer.parseInt

  predicate IsDigit(c: char) {
    '0' <= c <= '9'
  }

  /** The decimal digits of `n`, most significant first, without leading
      zeros. */
  function Digits(n: nat): (r: string)
    ensures r != []
    ensures forall k | 0 <= k < |r| :: IsDigit(r[k])
    decreases n
  {
    if n < 10 then [('0' as int + n) as char]
    else Digits(n / 10) + [('0' as int + n % 10) as char]
  }

  /** The value of a string of decimal digits. */
  function DigitsValue(s: string): nat
    requires forall k | 0 <= k < |s| :: IsDigit(s[k])
  {
    if s == [] then 0
    else
      assert IsDigit(s[|s| - 1]);
      10 * DigitsValue(s[..|s| - 1]) + (s[|s| - 1] as int - '0' as int)
  }

  lemma {:induction false} DigitsRoundTrip(n: nat)
    ensures DigitsValue(Digits(n)) == n
    decreases n
  {
    if n >= 10 {
      var d := Digits(n / 10);
      DigitsRoundTrip(n / 10);
      assert (d + [('0' as int + n % 10) as char])[..|d|] == d;
    }
  }

  /** `Integer.toString`. */
  function IntToString(n: int): (r: string)
    ensures r != []
    ensures n < 0 <==> r[0] == '-'
  {
    if n < 0 then "-" + Digits(-n) else Digits(n)
  }

  /** `Integer.parseInt` in radix 10: an optional sign followed by at least
      one digit, whose value fits an `int`; `None` where Java throws
      NumberFormatException. Only ASCII digits are modelled. */
  function ParseInt(s: string): (r: Option<int>)
    ensures r.Some? ==> IsInt32(r.value)
    ensures s == [] ==> r == None
  {
    if s == [] then None
    else
      var negative := s[0] == '-';
      var body := if s[0] == '-' || s[0] == '+' then s[1..] else s;
      if body == [] || !(forall k | 0 <= k < |body| :: IsDigit(body[k])) then None
      else
        var v: int := if negative then -(DigitsValue(body) as int) else DigitsValue(body);
        if IsInt32(v) then Some(v) else None
  }

  /** Reading back what `Integer.toString` wrote gives the same int. */
  lemma ParseIntToString(n: int)
    requires IsInt32(n)
    ensures ParseInt(IntToString(n)) == Some(n)
  {
    var s := IntToString(n);
    if n < 0 {
      var body := Digits(-n);
      assert s[1..] == body;
      DigitsRoundTrip(-n);
      assert forall k | 0 <= k < |body| :: IsDigit(body[k]);
    } else {
      var body := Digits(n);
      assert IsDigit(body[0]);
      DigitsRoundTrip(n);
      assert forall k | 0 <= k < |body| :: IsDigit(body[k]);
    }
  }
}

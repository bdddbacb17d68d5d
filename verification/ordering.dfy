/** `String.compareTo` order and the alphabetical sorting the persistence
    views and the `TreeMap` of group names rely on. */
module Ordering {

  /** `a.compareTo(b) <= 0`: lexicographic by character, a proper prefix
      first. */
  predicate LexLessEq(a: string, b: string) {
    if a == [] then true
    else if b == [] then false
    else if a[0] != b[0] then a[0] < b[0]
    else LexLessEq(a[1..], b[1..])
  }

  lemma {:induction false} LexTotal(a: string, b: string)
    ensures LexLessEq(a, b) || LexLessEq(b, a)
  {
    if a != [] && b != [] && a[0] == b[0] {
      LexTotal(a[1..], b[1..]);
    }
  }

  lemma {:induction false} LexTransitive(a: string, b: string, c: string)
    requires LexLessEq(a, b) && LexLessEq(b, c)
    ensures LexLessEq(a, c)
  {
    if a != [] && b != [] && c != [] && a[0] == b[0] && b[0] == c[0] {
      LexTransitive(a[1..], b[1..], c[1..]);
    }
  }

  lemma {:induction false} LexAntisymmetric(a: string, b: string)
    requires LexLessEq(a, b) && LexLessEq(b, a)
    ensures a == b
  {
    if a != [] && b != [] {
      LexAntisymmetric(a[1..], b[1..]);
      assert a == [a[0]] + a[1..];
      assert b == [b[0]] + b[1..];
    }
  }

  /** Every earlier element's key sorts at or before every later one's. */
  ghost predicate SortedBy<T>(s: seq<T>, key: T -> string) {
    forall i, j | 0 <= i < j < |s| :: LexLessEq(key(s[i]), key(s[j]))
  }

  /** Places `x` in front of the first element whose key is not below it. */
  function Insert<T(==)>(x: T, s: seq<T>, key: T -> string): (r: seq<T>)
    requires SortedBy(s, key)
    ensures multiset(r) == multiset(s) + multiset{x}
    ensures SortedBy(r, key)
  {
    if s == [] then [x]
    else if LexLessEq(key(x), key(s[0])) then
      assert forall j | 0 <= j < |s| :: LexLessEq(key(x), key(s[j])) by {
        forall j | 0 <= j < |s| ensures LexLessEq(key(x), key(s[j])) {
          if j > 0 { LexTransitive(key(x), key(s[0]), key(s[j])); }
        }
      }
      [x] + s
    else
      var rest := Insert(x, s[1..], key);
      HeadBelowInserted(x, s, rest, key);
      SortedCons(s[0], rest, key);
      assert s == [s[0]] + s[1..];
      [s[0]] + rest
  }

  /** When `x` sorts after the head of `s`, the head sorts at or before
      every element of `s`'s tail with `x` added. */
  lemma HeadBelowInserted<T>(x: T, s: seq<T>, rest: seq<T>, key: T -> string)
    requires s != [] && SortedBy(s, key) && !LexLessEq(key(x), key(s[0]))
    requires multiset(rest) == multiset(s[1..]) + multiset{x}
    ensures forall j | 0 <= j < |rest| :: LexLessEq(key(s[0]), key(rest[j]))
  {
    LexTotal(key(x), key(s[0]));
    forall j | 0 <= j < |rest| ensures LexLessEq(key(s[0]), key(rest[j])) {
      var z := rest[j];
      assert z in multiset(rest);
      assert z in multiset(s[1..]) + multiset{x};
      if z != x {
        assert z in s[1..];
        var i :| 0 <= i < |s[1..]| && s[1..][i] == z;
        assert s[i + 1] == z;
      }
    }
  }

  /** A sorted sequence stays sorted behind a head no greater than any of
      its elements. */
  lemma SortedCons<T>(h: T, rest: seq<T>, key: T -> string)
    requires SortedBy(rest, key)
    requires forall j | 0 <= j < |rest| :: LexLessEq(key(h), key(rest[j]))
    ensures SortedBy([h] + rest, key)
  {
    var r := [h] + rest;
    forall i, j | 0 <= i < j < |r| ensures LexLessEq(key(r[i]), key(r[j])) {
      assert r[j] == rest[j - 1];
      if i > 0 { assert r[i] == rest[i - 1]; }
    }
  }

  /** A permutation of `s` ordered by `key` (insertion sort; stable). */
  function SortBy<T(==)>(s: seq<T>, key: T -> string): (r: seq<T>)
    ensures multiset(r) == multiset(s)
    ensures |r| == |s|
    ensures SortedBy(r, key)
  {
    if s == [] then []
    else
      assert s == [s[0]] + s[1..];
      Insert(s[0], SortBy(s[1..], key), key)
  }
}

/** Grouping contents by their group into rows with a header, the way a
    `TreeMap<String, List<AvContent>>` keyed by group does: one row per
    distinct group, headers in alphabetical order, each row keeping the
    order of the input. */
module Grouping {
  import opened Wrappers
  import opened AvContentModel
  import opened Ordering
  import opened ContentStore

  /** A row of the browse or search screen: a header and its contents. */
  datatype Row = Row(header: string, items: seq<AvContent>)

  /** `TreeMap` with natural ordering throws `NullPointerException` on a
      `null` key. */
  datatype GroupError = NullGroup

  /** `a.compareTo(b) < 0`. */
  predicate LexLess(a: string, b: string) {
    LexLessEq(a, b) && a != b
  }

  /** Strictly increasing: sorted and without duplicates. */
  predicate StrictlySorted(s: seq<string>) {
    forall i, j | 0 <= i < j < |s| :: LexLess(s[i], s[j])
  }

  /** Adds a key to a strictly sorted key list, as `TreeMap.put` adds a key
      that may already be present. */
  function InsertKey(x: string, s: seq<string>): (r: seq<string>)
    requires StrictlySorted(s)
    ensures StrictlySorted(r)
    ensures forall y :: y in r <==> y == x || y in s
  {
    if s == [] then [x]
    else if x == s[0] then s
    else if LexLessEq(x, s[0]) then
      assert forall j | 0 <= j < |s| :: LexLess(x, s[j]) by {
        forall j | 0 <= j < |s| ensures LexLess(x, s[j]) {
          if j > 0 {
            LexTransitive(x, s[0], s[j]);
            if x == s[j] { LexAntisymmetric(s[0], s[j]); }
          }
        }
      }
      [x] + s
    else
      var rest := InsertKey(x, s[1..]);
      LexTotal(x, s[0]);
      assert forall j | 0 <= j < |rest| :: LexLess(s[0], rest[j]) by {
        forall j | 0 <= j < |rest| ensures LexLess(s[0], rest[j]) {
          assert rest[j] == x || rest[j] in s[1..];
          if rest[j] != x {
            var m :| 0 <= m < |s[1..]| && s[1..][m] == rest[j];
            assert s[m + 1] == rest[j];
          }
        }
      }
      assert forall y | y in s :: y == s[0] || y in s[1..];
      [s[0]] + rest
  }

  predicate HasNullGroup(cs: seq<AvContent>) {
    exists k | 0 <= k < |cs| :: cs[k].group.None?
  }

  /** The distinct groups of `cs`, in alphabetical order. */
  function GroupKeys(cs: seq<AvContent>): (r: seq<string>)
    requires !HasNullGroup(cs)
    ensures StrictlySorted(r)
    ensures forall g :: g in r <==> exists k | 0 <= k < |cs| :: cs[k].group == Some(g)
  {
    if cs == [] then []
    else
      var front := cs[..|cs| - 1];
      assert forall k | 0 <= k < |front| :: front[k] == cs[k];
      InsertKey(cs[|cs| - 1].group.value, GroupKeys(front))
  }

  function HasGroup(g: string): AvContent -> bool {
    (c: AvContent) => c.group == Some(g)
  }

  /** The headers of the rows, in order. */
  function Headers(rows: seq<Row>): (r: seq<string>)
    ensures |r| == |rows| && forall k | 0 <= k < |rows| :: r[k] == rows[k].header
  {
    seq(|rows|, k requires 0 <= k < |rows| => rows[k].header)
  }

  /** The rows: one per distinct group, in alphabetical order of the group,
      each holding that group's contents in input order. A content without
      a group makes the `TreeMap` throw. */
  function GroupRows(cs: seq<AvContent>): (r: Result<seq<Row>, GroupError>)
    ensures r.Err? <==> HasNullGroup(cs)
    ensures r.Ok? ==> StrictlySorted(Headers(r.value))
    ensures r.Ok? ==> forall g :: (exists k | 0 <= k < |r.value| :: r.value[k].header == g)
                                  <==> (exists k | 0 <= k < |cs| :: cs[k].group == Some(g))
    ensures r.Ok? ==> forall k | 0 <= k < |r.value| :: r.value[k].items == Where(cs, HasGroup(r.value[k].header))
    ensures r.Ok? ==> forall j, c | 0 <= j < |r.value| && c in r.value[j].items :: c in cs && c.group == Some(r.value[j].header)
  {
    if HasNullGroup(cs) then Err(NullGroup)
    else
      var keys := GroupKeys(cs);
      var rows := RowsOf(cs, keys);
      RowHeaders(rows, keys);
      Ok(rows)
  }

  /** One row per key, holding the contents of that group in input order. */
  function RowsOf(cs: seq<AvContent>, keys: seq<string>): (rows: seq<Row>)
    ensures |rows| == |keys|
    ensures forall k | 0 <= k < |keys| :: rows[k] == Row(keys[k], Where(cs, HasGroup(keys[k])))
  {
    seq(|keys|, k requires 0 <= k < |keys| => Row(keys[k], Where(cs, HasGroup(keys[k]))))
  }

  /** The rows' headers are the keys, so a header is present exactly when
      it is a key. */
  lemma RowHeaders(rows: seq<Row>, keys: seq<string>)
    requires |rows| == |keys| && forall k | 0 <= k < |keys| :: rows[k].header == keys[k]
    ensures Headers(rows) == keys
    ensures forall g :: (exists k | 0 <= k < |rows| :: rows[k].header == g) <==> g in keys
  {
    forall g ensures (exists k | 0 <= k < |rows| :: rows[k].header == g) <==> g in keys {
      if g in keys {
        var k :| 0 <= k < |keys| && keys[k] == g;
        assert rows[k].header == g;
      }
    }
  }

  /** Every content lands in the row of its group; with distinct headers
      that row is the only one holding it. */
  lemma GroupRowsCover(cs: seq<AvContent>)
    requires GroupRows(cs).Ok?
    ensures var rows := GroupRows(cs).value;
            forall k | 0 <= k < |cs| :: exists j | 0 <= j < |rows| ::
              Some(rows[j].header) == cs[k].group && cs[k] in rows[j].items
  {
    var rows := GroupRows(cs).value;
    forall k | 0 <= k < |cs|
      ensures exists j | 0 <= j < |rows| :: Some(rows[j].header) == cs[k].group && cs[k] in rows[j].items
    {
      var g := cs[k].group.value;
      var j :| 0 <= j < |rows| && rows[j].header == g;
      assert HasGroup(g)(cs[k]);
    }
  }

  /** No row is empty. */
  lemma GroupRowsNonEmpty(cs: seq<AvContent>)
    requires GroupRows(cs).Ok?
    ensures var rows := GroupRows(cs).value;
            forall j | 0 <= j < |rows| :: rows[j].items != []
  {
    var rows := GroupRows(cs).value;
    forall j | 0 <= j < |rows| ensures rows[j].items != [] {
      var g := rows[j].header;
      var k :| 0 <= k < |cs| && cs[k].group == Some(g);
      assert HasGroup(g)(cs[k]);
      assert cs[k] in rows[j].items;
    }
  }
}

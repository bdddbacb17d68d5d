/** The VOD section fragment: grouping a category's contents into rows,
    the catalogue sync run in the background, and the diff rule the rows
    use to update in place. */
module Vod {
  import opened Wrappers
  import opened AvContentModel
  import opened Constants
  import opened Attributes
  import opened Playlist
  import opened ContentStore
  import opened Grouping

  // ---------------------------------------------------------------------
  // getContentsByGroup as written

  /** The loop compares `currentGroup.equals(...)`: it throws when the group
      it holds is `null`, which happens when the first content, or any
      content but the last, has no group. */
  predicate RunLoopCrashes(cs: seq<AvContent>) {
    |cs| > 0 && (cs[0].group.None? || exists j | 0 < j < |cs| - 1 :: cs[j].group.None?)
  }

  /** `v` is the maximal run `cs[a..b]` of group `g`, and another group
      follows it. */
  ghost predicate StoredRun(cs: seq<AvContent>, g: string, v: seq<AvContent>) {
    exists a, b :: IsRun(cs, g, a, b) && v == cs[a..b]
  }

  /** `cs[a..b]` is a maximal run of group `g` and `cs[b]` starts another. */
  predicate IsRun(cs: seq<AvContent>, g: string, a: int, b: int) {
    0 <= a < b < |cs|
    && (forall k | a <= k < b :: cs[k].group == Some(g))
    && cs[b].group != Some(g)
    && (a == 0 || cs[a - 1].group != Some(g))
  }

  /** The group changes after content `j`. */
  predicate GroupChangesAt(cs: seq<AvContent>, j: int) {
    0 <= j < |cs| - 1 && cs[j].group != cs[j + 1].group
  }

  /** A run of group `g` ends at `j`: the next content has another group. */
  predicate EndsRunAt(cs: seq<AvContent>, g: string, j: int) {
    0 <= j < |cs| - 1 && cs[j].group == Some(g) && cs[j + 1].group != Some(g)
  }

  /** No run of group `g` ends at an index in `[lo, hi)`. */
  predicate NoRunEndBetween(cs: seq<AvContent>, g: string, lo: int, hi: int) {
    forall j | lo <= j < hi :: !EndsRunAt(cs, g, j)
  }

  /** The map holds, for each of its groups, the LAST run of that group
      whose end is before `hi`: a run `cs[a..b]` after which no run of the
      group ends before `hi` is the stored one. */
  predicate KeepsLastRuns(cs: seq<AvContent>, m: map<string, seq<AvContent>>, hi: int) {
    forall g, a, b {:trigger IsRun(cs, g, a, b)} | g in m && 0 <= a < b < |cs| && IsRun(cs, g, a, b) && b <= hi && NoRunEndBetween(cs, g, b, hi) :: m[g] == cs[a..b]
  }

  /** Two maximal runs of a group that end at the same index start at the
      same index. */
  lemma RunStartUnique(cs: seq<AvContent>, g: string, a: int, a': int, b: int)
    requires IsRun(cs, g, a, b)
    requires 0 <= a' < b && (forall k | a' <= k < b :: cs[k].group == Some(g))
    requires a' == 0 || cs[a' - 1].group != Some(g)
    ensures a == a'
  {
  }

  /** Storing the run `cs[start..i]` of `g` when `cs[i]` starts another
      group keeps the last run of every group ended before `i`. */
  lemma StoreKeepsLastRuns(cs: seq<AvContent>, i: nat, start: nat, acc: map<string, seq<AvContent>>, g: string)
    requires start < i < |cs|
    requires forall k | start <= k < i :: cs[k].group == Some(g)
    requires cs[i].group != Some(g)
    requires start == 0 || cs[start - 1].group != Some(g)
    requires KeepsLastRuns(cs, acc, start)
    ensures KeepsLastRuns(cs, acc[g := cs[start..i]], i)
  {
    var acc' := acc[g := cs[start..i]];
    forall h, a, b | h in acc' && 0 <= a < b < |cs| && IsRun(cs, h, a, b) && b <= i && NoRunEndBetween(cs, h, b, i)
      ensures acc'[h] == cs[a..b]
    {
      if h == g {
        assert EndsRunAt(cs, g, i - 1);
        assert b == i;
        RunStartUnique(cs, g, a, start, i);
      } else {
        assert cs[b - 1].group == Some(h);
        assert NoRunEndBetween(cs, h, b, start);
      }
    }
  }

  /** At the end of the loop the runs ended before `start` are all the runs
      that end before the last content. */
  lemma FinalKeepsLastRuns(cs: seq<AvContent>, start: nat, acc: map<string, seq<AvContent>>)
    requires start < |cs|
    requires forall k | start <= k < |cs| :: cs[k].group == cs[start].group
    requires KeepsLastRuns(cs, acc, start)
    ensures KeepsLastRuns(cs, acc, |cs| - 1)
  {
    forall h, a, b | h in acc && IsRun(cs, h, a, b) && b <= |cs| - 1 && NoRunEndBetween(cs, h, b, |cs| - 1)
      ensures acc[h] == cs[a..b]
    {
      assert cs[b - 1].group == Some(h);
      assert NoRunEndBetween(cs, h, b, start);
    }
  }

  /** The loop from content `i` on; the current run is `cs[start..i]` and
      `acc` the map built so far. */
  function RunsFrom(cs: seq<AvContent>, i: nat, start: nat, acc: map<string, seq<AvContent>>)
    : (r: Result<map<string, seq<AvContent>>, GroupError>)
    requires start < i <= |cs|
    requires forall k | 0 <= k < i :: cs[k].group.Some?
    requires forall k | start <= k < i :: cs[k].group == cs[start].group
    requires start == 0 || cs[start - 1].group != cs[start].group
    requires forall g | g in acc :: StoredRun(cs, g, acc[g])
    requires forall j | GroupChangesAt(cs, j) && j + 1 <= start :: cs[j].group.value in acc
    requires KeepsLastRuns(cs, acc, start)
    ensures r.Err? <==> exists j | i <= j < |cs| - 1 :: cs[j].group.None?
    ensures r.Ok? ==> forall g | g in r.value :: StoredRun(cs, g, r.value[g])
    ensures r.Ok? ==> forall j | GroupChangesAt(cs, j) ::
                        cs[j].group.Some? && cs[j].group.value in r.value
    ensures r.Ok? ==> KeepsLastRuns(cs, r.value, |cs| - 1)
    decreases |cs| - i
  {
    if i == |cs| then
      FinalKeepsLastRuns(cs, start, acc);
      Ok(acc)
    else if cs[i].group == cs[start].group then RunsFrom(cs, i + 1, start, acc)
    else
      var g := cs[start].group.value;
      assert IsRun(cs, g, start, i);
      var acc' := acc[g := cs[start..i]];
      StoreKeepsLastRuns(cs, i, start, acc, g);
      if cs[i].group.None? then
        if i + 1 < |cs| then Err(NullGroup) else Ok(acc')
      else RunsFrom(cs, i + 1, i, acc')
  }

  /** `getContentsByGroup` as written: a run is stored when the next group
      starts, so each stored list is a maximal run followed by another
      group, the final run is never stored, and a later run of a group
      replaces an earlier one: what stays is the group's last run followed
      by another group. */
  function ContentsByGroupAsWritten(cs: seq<AvContent>): (r: Result<map<string, seq<AvContent>>, GroupError>)
    ensures r.Err? <==> RunLoopCrashes(cs)
    ensures r.Ok? ==> forall g | g in r.value :: StoredRun(cs, g, r.value[g])
    ensures r.Ok? ==> forall j | GroupChangesAt(cs, j) ::
                        cs[j].group.Some? && cs[j].group.value in r.value
    ensures r.Ok? ==> forall g, a, b | g in r.value && IsRun(cs, g, a, b) && NoRunEndBetween(cs, g, b, |cs| - 1) ::
                        r.value[g] == cs[a..b]
  {
    if cs == [] then Ok(map[])
    else if cs[0].group.None? then Err(NullGroup)
    else RunsFrom(cs, 1, 0, map[])
  }

  /** A catalogue whose contents all share one group shows nothing. */
  lemma SingleGroupShowsNothing(cs: seq<AvContent>, g: string)
    requires forall k | 0 <= k < |cs| :: cs[k].group == Some(g)
    ensures ContentsByGroupAsWritten(cs) == Ok(map[])
  {
    var r := ContentsByGroupAsWritten(cs);
    assert !RunLoopCrashes(cs);
    if r.value != map[] {
      var h :| h in r.value;
      var a, b :| IsRun(cs, h, a, b) && r.value[h] == cs[a..b];
      NoRunInOneGroup(cs, g, h, a, b);
      assert false;
    }
  }

  /** A single-group catalogue has no run followed by another group. */
  lemma NoRunInOneGroup(cs: seq<AvContent>, g: string, h: string, a: int, b: int)
    requires forall k | 0 <= k < |cs| :: cs[k].group == Some(g)
    ensures !IsRun(cs, h, a, b)
  {
    if 0 <= a < |cs| {
      assert cs[a].group == Some(g);
    }
  }

  /** A content titled `title` in group `group`. */
  function Item(title: string, group: string): AvContent {
    AvContent(Some(title), Some(""), Some(group), Some("Vod"), Some("http://" + title), 0)
  }

  /** The catalogue of the example: titles a, b, c, d in groups g1, g2, g1,
      g3, already in title order. */
  function ExampleCatalogue(): (cs: seq<AvContent>)
    ensures |cs| == 4
    ensures cs[0].group == Some("g1") && cs[1].group == Some("g2")
    ensures cs[2].group == Some("g1") && cs[3].group == Some("g3")
  {
    [Item("a", "g1"), Item("b", "g2"), Item("c", "g1"), Item("d", "g3")]
  }

  /** The only groups with a run followed by another group are g1 and g2. */
  lemma ExampleKeys(cs: seq<AvContent>, h: string, a: int, b: int)
    requires cs == ExampleCatalogue() && IsRun(cs, h, a, b)
    ensures h == "g1" || h == "g2"
  {
    assert cs[a].group == Some(h);
  }

  /** In the title order g1, g2, g1, g3 the first g1 item is replaced by the
      second and the g3 item is lost. */
  lemma LaterRunReplacesExample()
    ensures var cs := ExampleCatalogue();
            ContentsByGroupAsWritten(cs) == Ok(map["g1" := [cs[2]], "g2" := [cs[1]]])
  {
    var cs := ExampleCatalogue();
    var r := ContentsByGroupAsWritten(cs);
    assert !RunLoopCrashes(cs);
    var m := map["g1" := [cs[2]], "g2" := [cs[1]]];
    assert cs[0].group != cs[1].group && cs[2].group != cs[3].group;
    assert "g1" in r.value && "g2" in r.value;
    assert IsRun(cs, "g1", 2, 3) && NoRunEndBetween(cs, "g1", 3, 3) && cs[2..3] == [cs[2]];
    assert IsRun(cs, "g2", 1, 2) && cs[1..2] == [cs[1]];
    assert !EndsRunAt(cs, "g2", 2);
    assert NoRunEndBetween(cs, "g2", 2, 3);
    forall h | h in r.value ensures h in m {
      var a, b :| IsRun(cs, h, a, b) && r.value[h] == cs[a..b];
      ExampleKeys(cs, h, a, b);
    }
    assert r.value == m;
  }

  // ---------------------------------------------------------------------
  // The rows, with the grouping corrected

  /** The name of the section's category (the fragment's class name). */
  type Category = string

  /** The rows the section shows: the category's contents in title order,
      grouped as the search screen groups them, so every content of the
      category is shown exactly once under its group. */
  function SectionRows(s: Store, category: Category): (r: Result<seq<Row>, GroupError>)
    ensures r.Err? <==> HasNullGroup(FromCategory(s, category, true))
    ensures r.Ok? ==> forall c | c in s && InCategory(c, category) ::
              exists j | 0 <= j < |r.value| :: Some(r.value[j].header) == c.group && c in r.value[j].items
    ensures r.Ok? ==> forall j, c | 0 <= j < |r.value| && c in r.value[j].items ::
              c in s && InCategory(c, category) && c.group == Some(r.value[j].header)
    ensures r.Ok? ==> StrictlySorted(Headers(r.value))
    ensures r.Ok? ==> forall k | 0 <= k < |r.value| ::
              r.value[k].items == Where(FromCategory(s, category, true), HasGroup(r.value[k].header))
  {
    var cs := FromCategory(s, category, true);
    var r := GroupRows(cs);
    if r.Ok? then
      GroupRowsCover(cs);
      assert forall c | c in s && InCategory(c, category) :: exists k | 0 <= k < |cs| :: cs[k] == c by {
        forall c | c in s && InCategory(c, category) ensures exists k | 0 <= k < |cs| :: cs[k] == c {
          assert c in cs;
        }
      }
      r
    else r
  }

  /** Where the code as written shows nothing, the corrected grouping shows
      one row holding the whole single-group catalogue. */
  lemma SingleGroupShowsOneRow(s: Store, category: Category, g: string)
    requires forall c | c in s && InCategory(c, category) :: c.group == Some(g)
    requires exists c :: c in s && InCategory(c, category)
    ensures var cs := FromCategory(s, category, true);
            ContentsByGroupAsWritten(cs) == Ok(map[])
            && SectionRows(s, category).Ok? && |SectionRows(s, category).value| == 1
            && SectionRows(s, category).value[0].items == cs
  {
    var cs := FromCategory(s, category, true);
    assert forall k | 0 <= k < |cs| :: cs[k].group == Some(g) by {
      forall k | 0 <= k < |cs| ensures cs[k].group == Some(g) {
        assert cs[k] in cs;
      }
    }
    SingleGroupShowsNothing(cs, g);
    var c :| c in s && InCategory(c, category);
    assert c in cs;
    SingleGroupRows(cs, g);
  }

  /** Contents that all share one group make one row holding them all. */
  lemma SingleGroupRows(cs: seq<AvContent>, g: string)
    requires |cs| > 0 && forall k | 0 <= k < |cs| :: cs[k].group == Some(g)
    ensures GroupRows(cs) == Ok([Row(g, cs)])
  {
    SingleKey(cs, g);
    AllOfGroup(cs, g);
    var rows := GroupRows(cs).value;
    assert |rows| == 1;
    assert rows[0] == Row(g, cs);
    assert rows == [Row(g, cs)];
  }

  /** Contents that all share one group have that group as their only key. */
  lemma SingleKey(cs: seq<AvContent>, g: string)
    requires |cs| > 0 && forall k | 0 <= k < |cs| :: cs[k].group == Some(g)
    ensures !HasNullGroup(cs) && GroupKeys(cs) == [g]
  {
    var keys := GroupKeys(cs);
    assert g in keys;
    assert forall j | 0 <= j < |keys| :: keys[j] == g by {
      forall j | 0 <= j < |keys| ensures keys[j] == g {
        assert keys[j] in keys;
      }
    }
  }

  /** Keeping the contents of a group every content belongs to keeps all. */
  lemma {:induction false} AllOfGroup(cs: seq<AvContent>, g: string)
    requires forall k | 0 <= k < |cs| :: cs[k].group == Some(g)
    ensures Where(cs, HasGroup(g)) == cs
  {
    if cs != [] {
      AllOfGroup(cs[1..], g);
      assert HasGroup(g)(cs[0]);
      assert cs == [cs[0]] + cs[1..];
    }
  }

  // ---------------------------------------------------------------------
  // The background sync

  /** The outcome of the background task: its boolean result and the store
      after it. */
  datatype SyncResult = SyncResult(ok: bool, store: Store)

  /** `doInBackground`: open the catalogue, and unless cancelled parse it
      and reconcile the category: insert on first load, replace when the
      size changed upstream, report failure when both are empty. `stream`
      is the catalogue as read; a parse error is not caught. `closeFails`
      is an `IOException` from the stream's `close()` at the end of the
      try-with-resources block: it turns the result to false but keeps the
      store as the block left it. */
  function Sync(s: Store, category: Category, stream: Fetch<Option<seq<string>>>, cancelled: bool, closeFails: bool)
    : (r: Result<SyncResult, ParseError>)
    ensures stream.IoFailure? ==> r == Ok(SyncResult(false, s))
    ensures stream.Fetched? && cancelled ==> r == Ok(SyncResult(!closeFails, s))
    ensures r.Err? <==> stream.Fetched? && !cancelled && AvContentsList(stream.value, Some(category)).Err?
    ensures r.Ok? && closeFails ==> !r.value.ok
    ensures r.Ok? && !r.value.ok && !closeFails ==> r.value.store == s
    ensures r.Ok? && r.value.store != s ==>
              var parsed := AvContentsList(stream.value, Some(category)).value;
              parsed != [] && |parsed| != SizeOf(s, category)
              && r.value.store == InsertAll(DeleteCategory(s, category), parsed)
    ensures r.Ok? && stream.Fetched? && !cancelled ==>
              var parsed := AvContentsList(stream.value, Some(category)).value;
              (r.value.ok <==> !closeFails && (parsed != [] || SizeOf(s, category) != 0))
              && (r.value.store == s <==> parsed == [] || |parsed| == SizeOf(s, category))
  {
    match stream
    case IoFailure => Ok(SyncResult(false, s))
    case Fetched(read) =>
      if cancelled then Ok(SyncResult(!closeFails, s))
      else
        match AvContentsList(read, Some(category))
        case Err(e) => Err(e)
        case Ok(parsed) =>
          var persisted := SizeOf(s, category);
          if |parsed| != persisted && persisted == 0 then
            EmptyCategoryDelete(s, category);
            Ok(SyncResult(!closeFails, InsertAll(s, parsed)))
          else if |parsed| != persisted && |parsed| != 0 then
            DeleteCategorySize(s, category);
            Ok(SyncResult(!closeFails, InsertAll(DeleteCategory(s, category), parsed)))
          else if persisted == 0 then Ok(SyncResult(false, s))
          else Ok(SyncResult(!closeFails, s))
  }

  /** Deleting a category that holds nothing changes nothing. */
  lemma EmptyCategoryDelete(s: Store, category: Category)
    requires SizeOf(s, category) == 0
    ensures DeleteCategory(s, category) == s
  {
    DeleteCategorySize(s, category);
    WhereCount(s, NotIn(category));
    WhereAll(s, NotIn(category));
  }

  /** Keeping every element keeps the sequence. */
  lemma {:induction false} WhereAll(s: seq<AvContent>, p: AvContent -> bool)
    requires |Where(s, p)| == |s|
    ensures Where(s, p) == s
  {
    if s != [] {
      var rest := Where(s[1..], p);
      if !p(s[0]) {
        assert false;
      }
      WhereAll(s[1..], p);
      assert s == [s[0]] + s[1..];
    }
  }

  /** After a sync that changed the store, the category holds exactly the
      parsed catalogue and the other categories are untouched. */
  lemma SyncReplacesCategory(s: Store, category: Category, stream: Fetch<Option<seq<string>>>, cancelled: bool, closeFails: bool)
    requires Sync(s, category, stream, cancelled, closeFails).Ok?
    requires Sync(s, category, stream, cancelled, closeFails).value.store != s
    ensures var parsed := AvContentsList(stream.value, Some(category)).value;
            var s' := Sync(s, category, stream, cancelled, closeFails).value.store;
            SizeOf(s', category) == |parsed|
            && (forall c :: c in FromCategory(s', category, false) <==> c in parsed)
            && (forall c | !InCategory(c, category) :: c in s' <==> c in s)
  {
    var parsed := AvContentsList(stream.value, Some(category)).value;
    assert forall c | c in parsed :: InCategory(c, category);
    ReplaceCategory(s, parsed, category);
  }

  /** Syncing again with the same catalogue leaves the store alone: the
      sizes now agree. */
  lemma SyncIdempotent(s: Store, category: Category, stream: Fetch<Option<seq<string>>>, cancelled: bool, closeFails: bool)
    requires Sync(s, category, stream, cancelled, closeFails).Ok?
    ensures var s' := Sync(s, category, stream, cancelled, closeFails).value.store;
            Sync(s', category, stream, cancelled, closeFails).Ok?
            && Sync(s', category, stream, cancelled, closeFails).value.store == s'
  {
    var s' := Sync(s, category, stream, cancelled, closeFails).value.store;
    if s' != s {
      SyncReplacesCategory(s, category, stream, cancelled, closeFails);
    }
  }

  // ---------------------------------------------------------------------
  // The diff rule of the rows

  /** `areItemsTheSame`: the same id. */
  predicate ItemsTheSame(a: AvContent, b: AvContent) {
    a.id == b.id
  }

  /** `areContentsTheSame`: equal links; the old item's link is dereferenced,
      so a `null` one throws. */
  function ContentsTheSame(before: AvContent, after: AvContent): (r: Option<bool>)
    ensures r.None? <==> before.link.None?
    ensures r.Some? ==> (r.value <==> after.link == before.link)
  {
    if before.link.None? then None else Some(before.link == after.link)
  }

  /** Two entries whose `tvg-id` values agree parse to the same item for
      the diff, whatever else differs. */
  lemma SameTvgIdSameItem(line1: string, link1: string, line2: string, link2: string, category: Option<string>)
    requires CreateAvContent(line1, link1, category).Ok? && CreateAvContent(line1, link1, category).value.Some?
    requires CreateAvContent(line2, link2, category).Ok? && CreateAvContent(line2, link2, category).value.Some?
    requires Extract(TvgId, line1) == Extract(TvgId, line2)
    ensures ItemsTheSame(CreateAvContent(line1, link1, category).value.value, CreateAvContent(line2, link2, category).value.value)
  {
  }

  /** Re-parsing the same entry gives contents the diff treats as unchanged. */
  lemma ReparseUnchanged(line: string, link: string, category: Option<string>)
    requires CreateAvContent(line, link, category).Ok? && CreateAvContent(line, link, category).value.Some?
    ensures var c := CreateAvContent(line, link, category).value.value;
            ItemsTheSame(c, c) && ContentsTheSame(c, c) == Some(true)
  {
  }
}

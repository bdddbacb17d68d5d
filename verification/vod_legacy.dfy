/** The legacy VOD section fragment: rows built from the maximal runs of
    equal group in the category's title-sorted contents, the error view for
    an empty category, and the background sync whose replacement of a
    changed catalogue waits until the fragment is destroyed. */
module VodLegacy {
  import opened Wrappers
  import opened AvContentModel
  import opened Attributes
  import opened Playlist
  import opened ContentStore
  import opened Grouping
  import opened Vod

  // ---------------------------------------------------------------------
  // Maximal runs

  /** The contents the rows show, row after row. */
  function Shown(rows: seq<Row>): seq<AvContent> {
    if rows == [] then [] else Shown(rows[..|rows| - 1]) + rows[|rows| - 1].items
  }

  /** `rows` cuts `cs` into its maximal runs of equal group: read in order
      they give back `cs`, no row is empty, every content of a row has the
      row's group, and neighbouring rows have different groups. */
  predicate IsRunRows(cs: seq<AvContent>, rows: seq<Row>) {
    Shown(rows) == cs
    && (forall k | 0 <= k < |rows| :: rows[k].items != [])
    && (forall k, c | 0 <= k < |rows| && c in rows[k].items :: c.group == Some(rows[k].header))
    && (forall k | 0 <= k && k + 1 < |rows| :: rows[k].header != rows[k + 1].header)
  }

  /** The last row with one more content. */
  function Extend(rows: seq<Row>, c: AvContent): (r: seq<Row>)
    requires rows != []
    ensures |r| == |rows| && r[..|r| - 1] == rows[..|rows| - 1]
    ensures r[|r| - 1] == Row(rows[|rows| - 1].header, rows[|rows| - 1].items + [c])
  {
    rows[..|rows| - 1] + [Row(rows[|rows| - 1].header, rows[|rows| - 1].items + [c])]
  }

  lemma ShownSnoc(rows: seq<Row>, row: Row)
    ensures Shown(rows + [row]) == Shown(rows) + row.items
  {
    assert (rows + [row])[..|rows|] == rows;
  }

  /** A content of the last row's group extends the last run. */
  lemma ExtendKeepsRuns(cs: seq<AvContent>, rows: seq<Row>, c: AvContent)
    requires IsRunRows(cs, rows) && rows != [] && c.group == Some(rows[|rows| - 1].header)
    ensures IsRunRows(cs + [c], Extend(rows, c))
  {
    var front := rows[..|rows| - 1];
    var last := rows[|rows| - 1];
    assert rows == front + [last];
    ShownSnoc(front, last);
    ShownSnoc(front, Row(last.header, last.items + [c]));
    assert Extend(rows, c) == front + [Row(last.header, last.items + [c])];
    var r := Extend(rows, c);
    forall k, d | 0 <= k < |r| && d in r[k].items ensures d.group == Some(r[k].header) {
      if k < |r| - 1 {
        assert r[k] == rows[k];
      }
    }
    forall k | 0 <= k && k + 1 < |r| ensures r[k].header != r[k + 1].header {
      assert r[k].header == rows[k].header && r[k + 1].header == rows[k + 1].header;
    }
  }

  /** A content of another group starts a new run. */
  lemma StartKeepsRuns(cs: seq<AvContent>, rows: seq<Row>, c: AvContent)
    requires IsRunRows(cs, rows) && c.group.Some?
    requires rows == [] || c.group != Some(rows[|rows| - 1].header)
    ensures IsRunRows(cs + [c], rows + [Row(c.group.value, [c])])
  {
    ShownSnoc(rows, Row(c.group.value, [c]));
    var r := rows + [Row(c.group.value, [c])];
    forall k, d | 0 <= k < |r| && d in r[k].items ensures d.group == Some(r[k].header) {
      if k < |rows| {
        assert r[k] == rows[k];
      }
    }
  }

  /** Every content has a group. */
  predicate AllGrouped(cs: seq<AvContent>) {
    forall k | 0 <= k < |cs| :: cs[k].group.Some?
  }

  /** The maximal runs of `cs` as rows headed by their group, read from the
      front: each content extends the last run or starts a new one. */
  function RunRows(cs: seq<AvContent>): (r: seq<Row>)
    requires AllGrouped(cs)
    ensures |r| == 0 <==> cs == []
  {
    if cs == [] then []
    else
      var front := cs[..|cs| - 1];
      var c := cs[|cs| - 1];
      assert forall k | 0 <= k < |front| :: front[k] == cs[k];
      var rows := RunRows(front);
      if rows != [] && Some(rows[|rows| - 1].header) == c.group then Extend(rows, c)
      else rows + [Row(c.group.value, [c])]
  }

  /** `RunRows` cuts the contents into their maximal runs. */
  lemma {:induction false} RunRowsAreRuns(cs: seq<AvContent>)
    requires AllGrouped(cs)
    ensures IsRunRows(cs, RunRows(cs))
  {
    if cs != [] {
      var front := cs[..|cs| - 1];
      var c := cs[|cs| - 1];
      assert cs == front + [c];
      RunRowsAreRuns(front);
      var rows := RunRows(front);
      if rows != [] && Some(rows[|rows| - 1].header) == c.group {
        ExtendKeepsRuns(front, rows, c);
      } else {
        StartKeepsRuns(front, rows, c);
      }
    }
  }

  /** All but the last element. */
  function DropLast(rows: seq<Row>): (r: seq<Row>)
    requires rows != []
    ensures |r| == |rows| - 1 && forall k | 0 <= k < |r| :: r[k] == rows[k]
  {
    rows[..|rows| - 1]
  }

  // ---------------------------------------------------------------------
  // updateRowsAdapter as written

  /** The rows `updateRowsAdapter` builds: an adapter is stored only when
      the group changes, so every maximal run but the last becomes a row.
      A last content without a group forms a run of its own, which is
      dropped in the same way. */
  function RowsAsWritten(cs: seq<AvContent>): (r: Result<seq<Row>, GroupError>)
    ensures r.Err? <==> RunLoopCrashes(cs)
    ensures r.Ok? && cs != [] && cs[|cs| - 1].group.Some? ==>
              AllGrouped(cs) && r.value == DropLast(RunRows(cs))
    ensures r.Ok? && cs != [] && cs[|cs| - 1].group.None? ==>
              AllGrouped(cs[..|cs| - 1]) && r.value == RunRows(cs[..|cs| - 1])
  {
    if RunLoopCrashes(cs) then Err(NullGroup)
    else if cs == [] then Ok([])
    else
      var front := cs[..|cs| - 1];
      assert forall k | 0 <= k < |front| :: front[k] == cs[k];
      if cs[|cs| - 1].group.None? then Ok(RunRows(front))
      else Ok(DropLast(RunRows(cs)))
  }

  /** The rows of the adapters stored so far, each headed by its group. */
  function Zip(groups: seq<Option<string>>, adapters: seq<seq<AvContent>>): (r: seq<Row>)
    requires |adapters| < |groups| && forall k | 0 <= k < |adapters| :: groups[k].Some?
    ensures |r| == |adapters|
    ensures forall k | 0 <= k < |r| :: r[k] == Row(groups[k].value, adapters[k])
  {
    seq(|adapters|, k requires 0 <= k < |adapters| => Row(groups[k].value, adapters[k]))
  }

  /** What the loop keeps after reading `cs[..i]`: the stored rows and the
      open adapter are the runs read so far, with the run cut off by a
      content without a group set apart. */
  ghost predicate LoopInv(cs: seq<AvContent>, i: nat, currentGroup: Option<string>, groups: seq<Option<string>>,
                          adapters: seq<seq<AvContent>>, adapter: seq<AvContent>) {
    0 < |cs| && i <= |cs|
    && |groups| == |adapters| + 1
    && (forall k | 0 <= k < |adapters| :: groups[k].Some?)
    && (i == 0 ==> adapter == [] && adapters == [] && currentGroup == cs[0].group && groups == [currentGroup])
    && (i > 0 ==> currentGroup == cs[i - 1].group && groups[|adapters|] == currentGroup)
    && (i > 0 ==> cs[0].group.Some? && forall j | 0 <= j < i - 1 :: cs[j].group.Some?)
    && (i > 0 && currentGroup.Some? ==>
          AllGrouped(cs[..i])
          && Zip(groups, adapters) + [Row(currentGroup.value, adapter)] == RunRows(cs[..i]))
    && (i > 0 && currentGroup.None? ==>
          AllGrouped(cs[..i - 1]) && Zip(groups, adapters) == RunRows(cs[..i - 1]))
  }

  /** The loop of `updateRowsAdapter` on the sorted contents: `groups`
      receives the first group and each new group, `adapters` receives the
      open adapter on each change of group, and the rows pair the first
      `|adapters|` groups with the adapters. `currentGroup.equals` throws on
      a `null` current group. */
  method RowsLoop(cs: seq<AvContent>) returns (r: Result<seq<Row>, GroupError>)
    ensures r == RowsAsWritten(cs)
  {
    if cs == [] {
      return Ok([]);
    }
    var currentGroup := cs[0].group;
    var adapter: seq<AvContent> := [];
    var groups: seq<Option<string>> := [currentGroup];
    var adapters: seq<seq<AvContent>> := [];
    for i := 0 to |cs|
      invariant LoopInv(cs, i, currentGroup, groups, adapters, adapter)
    {
      if currentGroup.None? {
        LoopCrash(cs, i, currentGroup, groups, adapters, adapter);
        return Err(NullGroup);
      }
      var c := cs[i];
      if currentGroup != c.group {
        NewGroupStep(cs, i, currentGroup, groups, adapters, adapter);
        adapters := adapters + [adapter];
        groups := groups + [c.group];
        adapter := [];
        currentGroup := c.group;
        assert adapter + [c] == [c];
      } else {
        SameGroupStep(cs, i, currentGroup, groups, adapters, adapter);
      }
      adapter := adapter + [c];
    }
    LoopEnd(cs, currentGroup, groups, adapters, adapter);
    r := Ok(Zip(groups, adapters));
  }

  /** A `null` current group before the last content is the crash. */
  lemma LoopCrash(cs: seq<AvContent>, i: nat, currentGroup: Option<string>, groups: seq<Option<string>>,
                  adapters: seq<seq<AvContent>>, adapter: seq<AvContent>)
    requires LoopInv(cs, i, currentGroup, groups, adapters, adapter)
    requires i < |cs| && currentGroup.None?
    ensures RowsAsWritten(cs) == Err(NullGroup)
  {
    if i > 1 {
      assert 0 < i - 1 < |cs| - 1 && cs[i - 1].group.None?;
    }
  }

  /** Storing the open adapter adds its row. */
  lemma ZipSnoc(groups: seq<Option<string>>, adapters: seq<seq<AvContent>>, g: Option<string>, adapter: seq<AvContent>)
    requires |adapters| + 1 == |groups| && forall k | 0 <= k < |groups| :: groups[k].Some?
    ensures Zip(groups + [g], adapters + [adapter]) == Zip(groups, adapters) + [Row(groups[|adapters|].value, adapter)]
  {
  }

  /** A content of the current group goes into the open adapter. */
  lemma SameGroupStep(cs: seq<AvContent>, i: nat, currentGroup: Option<string>, groups: seq<Option<string>>,
                      adapters: seq<seq<AvContent>>, adapter: seq<AvContent>)
    requires LoopInv(cs, i, currentGroup, groups, adapters, adapter)
    requires i < |cs| && currentGroup.Some? && cs[i].group == currentGroup
    ensures LoopInv(cs, i + 1, currentGroup, groups, adapters, adapter + [cs[i]])
  {
    var c := cs[i];
    assert cs[..i + 1] == cs[..i] + [c];
    if i == 0 {
      assert cs[..0] == [];
      RunRowsSnoc([], c);
      assert Zip(groups, adapters) == [];
    } else {
      RunRowsSnoc(cs[..i], c);
    }
  }

  /** A content of another group stores the open adapter and opens a new
      one. */
  lemma NewGroupStep(cs: seq<AvContent>, i: nat, currentGroup: Option<string>, groups: seq<Option<string>>,
                     adapters: seq<seq<AvContent>>, adapter: seq<AvContent>)
    requires LoopInv(cs, i, currentGroup, groups, adapters, adapter)
    requires i < |cs| && currentGroup.Some? && cs[i].group != currentGroup
    ensures LoopInv(cs, i + 1, cs[i].group, groups + [cs[i].group], adapters + [adapter], [cs[i]])
  {
    var c := cs[i];
    assert i > 0;
    ZipSnoc(groups, adapters, c.group, adapter);
    var rows := Zip(groups, adapters) + [Row(currentGroup.value, adapter)];
    assert rows == RunRows(cs[..i]);
    assert Zip(groups + [c.group], adapters + [adapter]) == rows;
    if c.group.Some? {
      NewGroupRows(cs, i, rows);
    } else {
      assert cs[..i + 1][..i] == cs[..i];
    }
  }

  /** The rows after a change to a grouped content: the runs so far and a
      new one. */
  lemma NewGroupRows(cs: seq<AvContent>, i: nat, rows: seq<Row>)
    requires 0 < i < |cs| && AllGrouped(cs[..i]) && cs[i].group.Some?
    requires rows == RunRows(cs[..i]) && rows != [] && Some(rows[|rows| - 1].header) != cs[i].group
    ensures AllGrouped(cs[..i + 1]) && rows + [Row(cs[i].group.value, [cs[i]])] == RunRows(cs[..i + 1])
  {
    assert cs[..i + 1] == cs[..i] + [cs[i]];
    RunRowsSnoc(cs[..i], cs[i]);
  }

  /** When the loop ends the stored rows are the as-written rows. */
  lemma LoopEnd(cs: seq<AvContent>, currentGroup: Option<string>, groups: seq<Option<string>>,
                adapters: seq<seq<AvContent>>, adapter: seq<AvContent>)
    requires LoopInv(cs, |cs|, currentGroup, groups, adapters, adapter)
    ensures RowsAsWritten(cs) == Ok(Zip(groups, adapters))
  {
    assert cs[..|cs|] == cs;
  }

  /** Reading one more content either extends the last run or starts a new
      one. */
  lemma RunRowsSnoc(cs: seq<AvContent>, c: AvContent)
    requires AllGrouped(cs) && c.group.Some?
    ensures AllGrouped(cs + [c])
    ensures var rows := RunRows(cs);
            RunRows(cs + [c]) ==
              if rows != [] && Some(rows[|rows| - 1].header) == c.group
              then Extend(rows, c)
              else rows + [Row(c.group.value, [c])]
  {
    assert (cs + [c])[..|cs|] == cs;
    assert forall k | 0 <= k < |cs| :: (cs + [c])[k] == cs[k];
  }

  /** A single-group catalogue is one run, so as written it gives no row at
      all, although the category is not empty. */
  lemma SingleGroupNoRows(cs: seq<AvContent>, g: string)
    requires |cs| > 0 && forall k | 0 <= k < |cs| :: cs[k].group == Some(g)
    ensures RowsAsWritten(cs) == Ok([])
  {
    OneRun(cs, g);
  }

  /** Contents that all share one group form a single run. */
  lemma OneRun(cs: seq<AvContent>, g: string)
    requires |cs| > 0 && forall k | 0 <= k < |cs| :: cs[k].group == Some(g)
    ensures AllGrouped(cs) && |RunRows(cs)| == 1
  {
    RunRowsAreRuns(cs);
    var rows := RunRows(cs);
    if |rows| > 1 {
      var c := rows[1].items[0];
      var d := rows[0].items[0];
      ShownHolds(rows, 0, d);
      ShownHolds(rows, 1, c);
      assert false;
    }
  }

  /** Every content of a row is among the contents shown. */
  lemma {:induction false} ShownHolds(rows: seq<Row>, k: nat, c: AvContent)
    requires k < |rows| && c in rows[k].items
    ensures c in Shown(rows)
  {
    if k < |rows| - 1 {
      assert rows[..|rows| - 1][k] == rows[k];
      ShownHolds(rows[..|rows| - 1], k, c);
    }
  }

  // ---------------------------------------------------------------------
  // The rows, with the last run kept

  /** The rows with the last adapter stored too: every maximal run becomes a
      row, so the rows show every content exactly once, in order. A content
      without a group has no header, as in the grouping of the search
      screen. */
  function LegacyRows(cs: seq<AvContent>): (r: Result<seq<Row>, GroupError>)
    ensures r.Err? <==> HasNullGroup(cs)
    ensures r.Ok? ==> IsRunRows(cs, r.value)
    ensures r.Ok? && cs != [] ==> |r.value| > 0
  {
    if HasNullGroup(cs) then Err(NullGroup)
    else
      RunRowsAreRuns(cs);
      Ok(RunRows(cs))
  }

  /** As written, the rows are the corrected rows without the last one, so
      the contents of the last run are never shown. */
  lemma AsWrittenDropsLastRun(cs: seq<AvContent>)
    requires cs != [] && !HasNullGroup(cs)
    ensures RowsAsWritten(cs).Ok? && LegacyRows(cs).Ok?
    ensures var rows := LegacyRows(cs).value;
            RowsAsWritten(cs).value + [rows[|rows| - 1]] == rows
            && rows[|rows| - 1].items != []
  {
    var rows := LegacyRows(cs).value;
    assert rows == DropLast(rows) + [rows[|rows| - 1]];
  }

  // ---------------------------------------------------------------------
  // The screen

  /** The rows adapter and whether the content-unavailable view is shown. */
  datatype Screen = Screen(rows: seq<Row>, errorShown: bool)

  /** What can go wrong on the screen: a content without a group, or the
      error view asked for while the scale frame is missing. */
  datatype ScreenError = GroupFailure | MissingFrame

  /** `showErrorView`: the view is added when the fragment is attached; the
      frame it goes into is not checked. */
  function ShowErrorView(screen: Screen, hasFrame: bool, added: bool): (r: Result<Screen, ScreenError>)
    ensures r.Err? <==> added && !hasFrame
    ensures r.Ok? ==> r.value.rows == screen.rows
    ensures r.Ok? ==> (r.value.errorShown <==> screen.errorShown || added)
  {
    if !added then Ok(screen)
    else if !hasFrame then Err(MissingFrame)
    else Ok(screen.(errorShown := true))
  }

  /** `updateRowsAdapter` with the last run kept: the category's contents in
      title order become rows when the adapter is still empty; an empty
      category shows the error view when the frame exists. */
  function UpdateRowsAdapter(screen: Screen, s: Store, category: Category, hasFrame: bool, added: bool)
    : (r: Result<Screen, ScreenError>)
    ensures var contents := FromCategory(s, category, true);
            (r == Err(GroupFailure) <==> contents != [] && HasNullGroup(contents))
            && r != Err(MissingFrame)
            && (r.Ok? && screen.rows != [] ==> r.value.rows == screen.rows)
            && (r.Ok? && screen.rows == [] && contents != [] ==>
                  r.value.rows != [] && Shown(r.value.rows) == contents && IsRunRows(contents, r.value.rows))
            && (r.Ok? ==> (r.value.errorShown <==> screen.errorShown || (contents == [] && hasFrame && added)))
  {
    var contents := FromCategory(s, category, true);
    if contents != [] then
      match LegacyRows(contents)
      case Err(_) => Err(GroupFailure)
      case Ok(rows) => Ok(if screen.rows == [] then screen.(rows := rows) else screen)
    else if hasFrame then ShowErrorView(screen, hasFrame, added)
    else Ok(screen)
  }

  // ---------------------------------------------------------------------
  // The background sync and its deferred replacement

  /** The `AsyncTask`'s boolean result, the store after it, and the parsed list
      kept for `onDestroy`. */
  datatype LegacySyncResult = LegacySyncResult(ok: bool, store: Store, modified: Option<seq<AvContent>>)

  /** `doInBackground`: open the catalogue, and unless cancelled parse it;
      insert it at once on first load, otherwise keep a list of a different
      size for `onDestroy`. The result is false only on an I/O failure,
      either opening the stream or, as `closeFails`, closing it after the
      block, which keeps the block's changes; a parse error is not caught. */
  function LegacySync(s: Store, category: Category, stream: Fetch<Option<seq<string>>>, cancelled: bool,
                      closeFails: bool, modified: Option<seq<AvContent>>): (r: Result<LegacySyncResult, ParseError>)
    ensures r.Ok? ==> (r.value.ok <==> stream.Fetched? && !closeFails)
    ensures r.Err? <==> stream.Fetched? && !cancelled && AvContentsList(stream.value, Some(category)).Err?
    ensures r.Ok? && (stream.IoFailure? || cancelled) ==>
              r.value == LegacySyncResult(stream.Fetched? && !closeFails, s, modified)
    ensures r.Ok? && r.value.store != s ==>
              SizeOf(s, category) == 0 && r.value.store == InsertAll(s, AvContentsList(stream.value, Some(category)).value)
    ensures r.Ok? && r.value.modified != modified ==>
              var parsed := AvContentsList(stream.value, Some(category)).value;
              r.value.modified == Some(parsed) && SizeOf(s, category) > 0 && |parsed| != SizeOf(s, category)
    ensures r.Ok? && stream.Fetched? && !cancelled ==>
              var parsed := AvContentsList(stream.value, Some(category)).value;
              (SizeOf(s, category) == 0 ==> r.value.store == InsertAll(s, parsed) && r.value.modified == modified)
              && (SizeOf(s, category) > 0 && |parsed| != SizeOf(s, category) ==>
                    r.value.store == s && r.value.modified == Some(parsed))
  {
    match stream
    case IoFailure => Ok(LegacySyncResult(false, s, modified))
    case Fetched(read) =>
      if cancelled then Ok(LegacySyncResult(!closeFails, s, modified))
      else
        match AvContentsList(read, Some(category))
        case Err(e) => Err(e)
        case Ok(parsed) =>
          var persisted := SizeOf(s, category);
          if |parsed| != persisted && persisted == 0 then
            Ok(LegacySyncResult(!closeFails, InsertAll(s, parsed), modified))
          else if |parsed| != persisted then
            Ok(LegacySyncResult(!closeFails, s, Some(parsed)))
          else Ok(LegacySyncResult(!closeFails, s, modified))
  }

  /** `onDestroy`: a kept list replaces the category. */
  function OnDestroy(s: Store, category: Category, modified: Option<seq<AvContent>>): (r: Store)
    ensures modified.None? ==> r == s
    ensures modified.Some? ==> r == InsertAll(DeleteCategory(s, category), modified.value)
  {
    match modified
    case None => s
    case Some(m) => InsertAll(DeleteCategory(s, category), m)
  }

  /** Once the fragment is destroyed, a sync of a non-empty catalogue
      leaves the store as the newer fragment's sync leaves it at once. */
  lemma LegacyAgreesOnDestroy(s: Store, category: Category, stream: Fetch<Option<seq<string>>>, cancelled: bool, closeFails: bool)
    requires LegacySync(s, category, stream, cancelled, closeFails, None).Ok?
    requires stream.Fetched? && !cancelled && AvContentsList(stream.value, Some(category)).value != []
    ensures var l := LegacySync(s, category, stream, cancelled, closeFails, None).value;
            Sync(s, category, stream, cancelled, closeFails).Ok?
            && l.ok == Sync(s, category, stream, cancelled, closeFails).value.ok
            && OnDestroy(l.store, category, l.modified) == Sync(s, category, stream, cancelled, closeFails).value.store
  {
    if SizeOf(s, category) == 0 {
      EmptyCategoryDelete(s, category);
    }
  }

  /** An empty catalogue read while the category holds contents is kept for
      `onDestroy`, which then empties the category; the newer fragment
      leaves the store alone in that case. */
  lemma EmptyCatalogueClearsCategory(s: Store, category: Category, stream: Fetch<Option<seq<string>>>, closeFails: bool)
    requires stream.Fetched? && AvContentsList(stream.value, Some(category)) == Ok([])
    requires SizeOf(s, category) > 0
    ensures var l := LegacySync(s, category, stream, false, closeFails, None).value;
            l.ok == !closeFails && l.modified == Some([])
            && SizeOf(OnDestroy(l.store, category, l.modified), category) == 0
            && Sync(s, category, stream, false, closeFails) == Ok(SyncResult(!closeFails, s))
  {
    DeleteCategorySize(s, category);
    assert InsertAll(DeleteCategory(s, category), []) == DeleteCategory(s, category);
  }
}

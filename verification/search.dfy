/** The search screen: the layout setting, the rows a submitted query
    produces (one row per group, or a single row of all results), and the
    no-results view. */
module Search {
  import opened Wrappers
  import opened AvContentModel
  import opened Ordering
  import opened ContentStore
  import opened Grouping

  /** The results as a single row. */
  const SEARCH_LAYOUT_SINGLE_ROW: int := 0
  /** The results in one row per group; the default. */
  const SEARCH_LAYOUT_GROUP_ROW: int := 1

  /** What a query can end with instead of rows: a layout other than the
      two, or a result without a group in the group layout (the `TreeMap`
      throws on a `null` key). */
  datatype SearchError = InvalidLayout(layout: int) | NullGroupKey

  /** The fragment's state: the layout, the rows on screen and how many
      times the no-results view is attached to the search frame. */
  datatype SearchState = SearchState(layout: int, rows: seq<Row>, emptyViews: nat)

  /** A freshly created fragment. */
  function Initial(): (st: SearchState)
    ensures st.layout == SEARCH_LAYOUT_GROUP_ROW && st.rows == [] && st.emptyViews == 0
  {
    SearchState(SEARCH_LAYOUT_GROUP_ROW, [], 0)
  }

  /** `setSearchLayout`: only the two layouts are accepted; any other value
      throws before the field is written. */
  function SetSearchLayout(st: SearchState, layout: int): (r: Result<SearchState, SearchError>)
    ensures r.Ok? <==> layout == SEARCH_LAYOUT_SINGLE_ROW || layout == SEARCH_LAYOUT_GROUP_ROW
    ensures r.Ok? ==> r.value == st.(layout := layout)
    ensures r.Err? ==> r.error == InvalidLayout(layout)
  {
    if !(layout == SEARCH_LAYOUT_SINGLE_ROW || layout == SEARCH_LAYOUT_GROUP_ROW) then Err(InvalidLayout(layout))
    else Ok(st.(layout := layout))
  }

  /** `doInBackground`: in the group layout the results in store order are
      grouped into alphabetically ordered rows; in any other layout one row
      titled `header` holds the results in title order. */
  function SearchRows(s: Store, layout: int, query: string, header: string): (r: Result<seq<Row>, SearchError>)
    ensures layout != SEARCH_LAYOUT_GROUP_ROW ==>
              r.Ok? && |r.value| == 1 && r.value[0].header == header
              && SortedBy(r.value[0].items, TitleKey)
              && multiset(r.value[0].items) == multiset(FromTitle(s, query, false))
    ensures layout == SEARCH_LAYOUT_GROUP_ROW ==>
              (r.Err? <==> HasNullGroup(FromTitle(s, query, false)))
    ensures layout == SEARCH_LAYOUT_GROUP_ROW && r.Ok? ==>
              StrictlySorted(Headers(r.value))
              && forall k | 0 <= k < |r.value| ::
                   r.value[k].items == Where(FromTitle(s, query, false), HasGroup(r.value[k].header))
  {
    if layout == SEARCH_LAYOUT_GROUP_ROW then
      match GroupRows(FromTitle(s, query, false))
      case Err(_) => Err(NullGroupKey)
      case Ok(rows) => Ok(rows)
    else Ok([Row(header, FromTitle(s, query, true))])
  }

  /** In the group layout every result is in the row of its group and in no
      other row, and every row holds results only. */
  lemma GroupLayoutExactlyOnce(s: Store, query: string, header: string)
    requires SearchRows(s, SEARCH_LAYOUT_GROUP_ROW, query, header).Ok?
    ensures var rows := SearchRows(s, SEARCH_LAYOUT_GROUP_ROW, query, header).value;
            (forall c | c in s && TitleMatches(c, query) ::
               exists j | 0 <= j < |rows| :: c in rows[j].items && c.group == Some(rows[j].header))
            && (forall c, i, j | 0 <= i < |rows| && 0 <= j < |rows| && c in rows[i].items && c in rows[j].items :: i == j)
            && (forall c, j | 0 <= j < |rows| && c in rows[j].items :: c in s && TitleMatches(c, query))
  {
    var results := FromTitle(s, query, false);
    var rows := SearchRows(s, SEARCH_LAYOUT_GROUP_ROW, query, header).value;
    assert GroupRows(results) == Ok(rows);
    ResultsCovered(results, rows);
    RowsDisjoint(rows);
  }

  /** Every content of the results is in a row of its group. */
  lemma ResultsCovered(results: seq<AvContent>, rows: seq<Row>)
    requires GroupRows(results) == Ok(rows)
    ensures forall c | c in results :: exists j | 0 <= j < |rows| :: c in rows[j].items && c.group == Some(rows[j].header)
  {
    GroupRowsCover(results);
    forall c | c in results
      ensures exists j | 0 <= j < |rows| :: c in rows[j].items && c.group == Some(rows[j].header)
    {
      var k :| 0 <= k < |results| && results[k] == c;
    }
  }

  /** Rows with distinct headers, each holding contents of its own group,
      share no content. */
  lemma RowsDisjoint(rows: seq<Row>)
    requires StrictlySorted(Headers(rows))
    requires forall j, c | 0 <= j < |rows| && c in rows[j].items :: c.group == Some(rows[j].header)
    ensures forall c, i, j | 0 <= i < |rows| && 0 <= j < |rows| && c in rows[i].items && c in rows[j].items :: i == j
  {
    forall c, i, j | 0 <= i < |rows| && 0 <= j < |rows| && c in rows[i].items && c in rows[j].items
      ensures i == j
    {
      assert c.group == Some(rows[i].header) && c.group == Some(rows[j].header);
      assert Headers(rows)[i] == Headers(rows)[j];
    }
  }

  /** The single layout always has exactly one row, so it never asks for
      the no-results view. */
  lemma SingleLayoutOneRow(s: Store, layout: int, query: string, header: string)
    requires layout == SEARCH_LAYOUT_SINGLE_ROW
    ensures SearchRows(s, layout, query, header).Ok? && |SearchRows(s, layout, query, header).value| == 1
  {
  }

  /** A query: `onPreExecute` clears the rows, `doInBackground` builds the
      new ones, and `onPostExecute` shows them and detaches the no-results
      view, or, when there are none, attaches that view unless it is
      already attached, so the view is never attached twice. Attaching and
      detaching happen only when the fragment is added and the search frame
      exists. */
  function Submit(st: SearchState, s: Store, query: string, header: string, added: bool, hasFrame: bool)
    : (r: Result<SearchState, SearchError>)
    ensures r.Err? <==> SearchRows(s, st.layout, query, header).Err?
    ensures r.Ok? ==> r.value.rows == SearchRows(s, st.layout, query, header).value
    ensures r.Ok? ==> r.value.layout == st.layout
    ensures r.Ok? && r.value.rows != [] && added && hasFrame ==> r.value.emptyViews == 0
    ensures r.Ok? && r.value.emptyViews > st.emptyViews ==>
              r.value.rows == [] && st.emptyViews == 0 && r.value.emptyViews == 1
    ensures r.Ok? && r.value.rows == [] && st.emptyViews == 0 && added && hasFrame ==> r.value.emptyViews == 1
    ensures r.Ok? && !(added && hasFrame) ==> r.value.emptyViews == st.emptyViews
    ensures r.Ok? && r.value.rows == [] && st.emptyViews > 0 ==> r.value.emptyViews == st.emptyViews
  {
    var cleared := st.(rows := []);
    match SearchRows(s, st.layout, query, header)
    case Err(e) => Err(e)
    case Ok(results) =>
      if results != [] then
        var views := if added && hasFrame then 0 else cleared.emptyViews;
        Ok(cleared.(rows := results, emptyViews := views))
      else if cleared.emptyViews == 0 then
        Ok(cleared.(emptyViews := if added && hasFrame then 1 else 0))
      else Ok(cleared)
  }

  /** In the single layout a query never attaches the no-results view. */
  lemma SingleLayoutNoEmptyView(st: SearchState, s: Store, query: string, header: string, added: bool, hasFrame: bool)
    requires st.layout == SEARCH_LAYOUT_SINGLE_ROW
    ensures Submit(st, s, query, header, added, hasFrame).Ok?
    ensures Submit(st, s, query, header, added, hasFrame).value.emptyViews <= st.emptyViews
  {
  }
}

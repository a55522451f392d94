/** The page as a whole (src/pages/index.tsx:58-97): the query state,
    the rows and total count of the last applied response, the user events
    that drive the query state, and when a new fetch is scheduled. */
module Session {
  import opened TableState
  import opened Query
  import opened Header
  import opened Cells

  /** The six `useState` fields of the page. */
  datatype Page = Page(state: State, collections: seq<Collection>, totalCount: int)

  /** The body of a successful response: `collections` and `total_count`. */
  datatype Response = Response(collections: seq<Collection>, totalCount: int)

  /** The page on mount: default query, no rows, total count 0. */
  function Mount(): (p: Page)
    ensures p.state == Initial() && p.collections == [] && p.totalCount == 0
  {
    Page(Initial(), [], 0)
  }

  /** The two setters run after a response arrives: the rows and total
      count are replaced wholesale, the query state is not touched. */
  function ApplyResponse(p: Page, resp: Response): (r: Page)
    ensures r.state == p.state
    ensures r.collections == resp.collections && r.totalCount == resp.totalCount
  {
    p.(collections := resp.collections, totalCount := resp.totalCount)
  }

  /** Applying a second response leaves no trace of the first. */
  lemma LastResponseWins(p: Page, a: Response, b: Response)
    ensures ApplyResponse(ApplyResponse(p, a), b) == ApplyResponse(p, b)
  {
  }

  /** The three handlers as events. */
  datatype Event = PageChanged(newPage: int) | RowsPerPageChanged(size: int) | SortRequested(id: string)

  function Dispatch(s: State, e: Event): (r: State)
    ensures e.PageChanged? ==> r.page == e.newPage && r.rowsPerPage == s.rowsPerPage
    ensures e.RowsPerPageChanged? ==> r.page == 0 && r.rowsPerPage == e.size
    ensures e.SortRequested? ==> r.orderBy == e.id && r.page == s.page && r.rowsPerPage == s.rowsPerPage
    ensures !e.SortRequested? ==> r.orderBy == s.orderBy && r.order == s.order
  {
    match e
    case PageChanged(p) => ChangePage(s, p)
    case RowsPerPageChanged(n) => ChangeRowsPerPage(s, n)
    case SortRequested(id) => RequestSort(s, id)
  }

  /** The effect depends on exactly the four fields of `State`, so a
      fetch is scheduled exactly when an event changed one of them. */
  predicate SchedulesFetch(before: State, after: State): (r: bool)
    ensures r <==> before != after
  {
    before.page != after.page || before.rowsPerPage != after.rowsPerPage
      || before.orderBy != after.orderBy || before.order != after.order
  }

  /** Every sort request schedules a fetch: it either moves the sort to a
      new column or flips the direction. */
  lemma SortAlwaysFetches(s: State, id: string)
    ensures SchedulesFetch(s, RequestSort(s, id))
  {
  }

  lemma ChangePageFetchesIff(s: State, p: int)
    ensures SchedulesFetch(s, ChangePage(s, p)) <==> p != s.page
  {
  }

  lemma ChangeRowsPerPageFetchesIff(s: State, n: int)
    ensures SchedulesFetch(s, ChangeRowsPerPage(s, n)) <==> n != s.rowsPerPage || s.page != 0
  {
  }

  /** The state after a sequence of events, first event first. */
  function Run(s: State, evs: seq<Event>): (r: State)
    ensures |evs| == 0 ==> r == s
    ensures (forall i :: 0 <= i < |evs| ==> !evs[i].RowsPerPageChanged?) ==> r.rowsPerPage == s.rowsPerPage
    ensures (forall i :: 0 <= i < |evs| ==> !evs[i].SortRequested?) ==> r.orderBy == s.orderBy && r.order == s.order
    decreases |evs|
  {
    if |evs| == 0 then s else Run(Dispatch(s, evs[0]), evs[1..])
  }

  lemma {:induction false} RunSnoc(s: State, evs: seq<Event>, e: Event)
    ensures Run(s, evs + [e]) == Dispatch(Run(s, evs), e)
    decreases |evs|
  {
    if |evs| > 0 {
      assert (evs + [e])[1..] == evs[1..] + [e];
      RunSnoc(Dispatch(s, evs[0]), evs[1..], e);
    }
  }

  /** Whatever happened before, a change of page size is followed by a
      fetch at offset 0 with the new limit. */
  lemma PageSizeResetsOffset(s: State, evs: seq<Event>, n: int)
    ensures QueryOf(Run(s, evs + [RowsPerPageChanged(n)])).offset == 0
    ensures QueryOf(Run(s, evs + [RowsPerPageChanged(n)])).limit == n
  {
    RunSnoc(s, evs, RowsPerPageChanged(n));
  }

  /** Sort requests never move the page or change its size. */
  lemma {:induction false} SortsKeepPaging(s: State, evs: seq<Event>)
    requires forall i :: 0 <= i < |evs| ==> evs[i].SortRequested?
    ensures Run(s, evs).page == s.page && Run(s, evs).rowsPerPage == s.rowsPerPage
    decreases |evs|
  {
    if |evs| > 0 {
      SortsKeepPaging(Dispatch(s, evs[0]), evs[1..]);
    }
  }

  /** A page-size change followed only by sort requests still fetches
      from offset 0. */
  lemma ResizeThenSortsFetchesFromStart(s: State, n: int, sorts: seq<Event>)
    requires forall i :: 0 <= i < |sorts| ==> sorts[i].SortRequested?
    ensures QueryOf(Run(s, [RowsPerPageChanged(n)] + sorts)).offset == 0
    ensures QueryOf(Run(s, [RowsPerPageChanged(n)] + sorts)).limit == n
  {
    assert ([RowsPerPageChanged(n)] + sorts)[1..] == sorts;
    SortsKeepPaging(ChangeRowsPerPage(s, n), sorts);
  }

  /** Sort requests from the view name a column flagged sortable, the
      only header cells with an `onClick`. Page and size events are not
      restricted, so this admits more events than the view produces. */
  predicate FromView(e: Event): (r: bool)
    ensures r <==> (e.SortRequested? ==>
                      exists i :: 0 <= i < |HeadCells| && HeadCells[i].sortable && HeadCells[i].id == e.id)
  {
    e.SortRequested? ==> e.id in SortableIds()
  }

  /** The table stays sorted by a sortable column, so exactly one header
      shows an active arrow after any sequence of view events. */
  lemma {:induction false} SortColumnStaysSortable(s: State, evs: seq<Event>)
    requires s.orderBy in SortableIds()
    requires forall i :: 0 <= i < |evs| ==> FromView(evs[i])
    ensures Run(s, evs).orderBy in SortableIds()
    ensures ActiveCount(ViewHeads(Run(s, evs))) == 1
    decreases |evs|
  {
    if |evs| > 0 {
      assert FromView(evs[0]);
      SortColumnStaysSortable(Dispatch(s, evs[0]), evs[1..]);
    } else {
      OneActiveArrow(s);
    }
  }

  /** From mount, any sequence of view events leaves one active arrow. */
  lemma OneActiveArrowFromMount(evs: seq<Event>)
    requires forall i :: 0 <= i < |evs| ==> FromView(evs[i])
    ensures ActiveCount(ViewHeads(Run(Initial(), evs))) == 1
  {
    SortableIdsAre();
    SortColumnStaysSortable(Initial(), evs);
  }

  /** Two clicks on the same label in a row: from descending, ascending
      then descending again. */
  lemma DoubleClickFromDesc(s: State)
    requires s.order == Desc
    ensures Run(s, [SortRequested(s.orderBy)]).order == Asc
    ensures Run(s, [SortRequested(s.orderBy), SortRequested(s.orderBy)]) == s
  {
    var e := SortRequested(s.orderBy);
    SortSameColumnTwice(s);
    assert [e, e][1..] == [e];
    var once := RequestSort(s, s.orderBy);
    assert Run(s, [e, e]) == Run(once, [e]);
    assert Run(once, [e]) == Run(RequestSort(once, s.orderBy), []);
  }
}

/** The query state of the collections table and the three user-event
    handlers that change it (src/pages/index.tsx). Each handler is a pure
    transition from the state before the event to the state React holds
    after both of its `set…` calls have been applied. */
module TableState {

  /** Sort direction: the page's `type Order = 'asc' | 'desc'`. */
  datatype Order = Asc | Desc

  /** The other direction. */
  function Flip(o: Order): (r: Order)
    ensures r != o
  {
    if o == Asc then Desc else Asc
  }

  lemma FlipInvolutive(o: Order)
    ensures Flip(Flip(o)) == o
  {
  }

  /** The four `useState` fields the fetch depends on. `page` and
      `rowsPerPage` are whatever the handlers were given: nothing clamps
      them. */
  datatype State = State(page: int, rowsPerPage: int, orderBy: string, order: Order)

  const DefaultRowsPerPage: int := 20
  const DefaultOrderBy: string := "domain_authority"

  /** The state on mount. */
  function Initial(): (s: State)
    ensures s.page == 0 && s.rowsPerPage == 20
    ensures s.orderBy == "domain_authority" && s.order == Desc
  {
    State(0, DefaultRowsPerPage, DefaultOrderBy, Desc)
  }

  /** `handleChangePage`: the page becomes exactly `newPage`. */
  function ChangePage(s: State, newPage: int): (r: State)
    ensures r.page == newPage
    ensures r.rowsPerPage == s.rowsPerPage && r.orderBy == s.orderBy && r.order == s.order
  {
    s.(page := newPage)
  }

  /** `handleChangeRowsPerPage`, with the already parsed size: the size
      changes and the page goes back to the first one. */
  function ChangeRowsPerPage(s: State, size: int): (r: State)
    ensures r.rowsPerPage == size && r.page == 0
    ensures r.orderBy == s.orderBy && r.order == s.order
  {
    s.(rowsPerPage := size, page := 0)
  }

  /** `handleRequestSort`: the order becomes `desc` only when the column
      is already the sort column in ascending order; every other request,
      in particular one for a new column, yields `asc`. */
  function RequestSort(s: State, id: string): (r: State)
    ensures r.orderBy == id
    ensures r.page == s.page && r.rowsPerPage == s.rowsPerPage
    ensures r.order == Desc <==> s.orderBy == id && s.order == Asc
  {
    var isAsc := s.orderBy == id && s.order == Asc;
    s.(order := if isAsc then Desc else Asc, orderBy := id)
  }

  /** Sorting by a column other than the current one: ascending, whatever
      the previous direction. */
  lemma SortNewColumn(s: State, id: string)
    requires s.orderBy != id
    ensures RequestSort(s, id) == State(s.page, s.rowsPerPage, id, Asc)
  {
  }

  /** Sorting again by the current column flips the direction. */
  lemma SortSameColumnFlips(s: State)
    ensures RequestSort(s, s.orderBy) == s.(order := Flip(s.order))
  {
  }

  /** Two requests for the current sort column give back the state:
      the toggle is a cycle of length two. */
  lemma SortSameColumnTwice(s: State)
    ensures RequestSort(RequestSort(s, s.orderBy), s.orderBy) == s
    ensures RequestSort(s, s.orderBy) != s
  {
  }

  /** Clicking a new column twice ends in descending order on it. */
  lemma SortNewColumnTwice(s: State, id: string)
    requires s.orderBy != id
    ensures RequestSort(RequestSort(s, id), id) == State(s.page, s.rowsPerPage, id, Desc)
  {
  }

  /** Changing the page twice: only the last page counts. */
  lemma ChangePageLastWins(s: State, p: int, q: int)
    ensures ChangePage(ChangePage(s, p), q) == ChangePage(s, q)
    ensures ChangePage(s, s.page) == s
  {
  }

  /** Changing the page size is idempotent, and it forgets the page the
      table was on. */
  lemma ChangeRowsPerPageIdempotent(s: State, p: int, size: int)
    ensures ChangeRowsPerPage(ChangeRowsPerPage(s, size), size) == ChangeRowsPerPage(s, size)
    ensures ChangeRowsPerPage(ChangePage(s, p), size) == ChangeRowsPerPage(s, size)
  {
  }
}

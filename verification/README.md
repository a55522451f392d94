# Collections table controller

A Dafny model of the data page of the HypeReveal dashboard
(`src/pages/index.tsx`): a table of "collections" that is fetched one page
at a time from a REST endpoint, sorted by a column the user picks. The
page keeps four pieces of query state (`page`, `rowsPerPage`, `orderBy`,
`order`), changes them in three event handlers (change page, change page
size, request sort), derives a `GET …/collections?limit=…&offset=…&sort=…&order=…`
request from them, and renders the rows of the last response with a few
display rules for missing values.

Modules, one per concern of the page:

- `Nullable`: JavaScript's `null`/`undefined` as one `Absent` case.
- `Decimal`: how an integral number is printed into the URL, with a parser
  that reads it back.
- `TableState`: the query state, its defaults, and the three handlers as pure
  transitions.
- `Query`: the offset, the query parameters, the request URL, and a parser
  showing that the URL determines the query.
- `Header`: the column schema and each header cell's sort arrow.
- `Cells`: the collection record and the website / authority cell rules.
- `Session`: the whole page state, the event sequence, when a fetch is
  scheduled, and how a response is applied.

Sorting by a column other than the current one sets the order to
**ascending** (`src/pages/index.tsx:83-84`): `isAsc` is false for a new
column, so the order becomes `asc`. `TableState.RequestSort` and
`TableState.SortNewColumn` state this.

The website rule checks the prefix `http` and not a full scheme. So a value
like `httpbin.org` is used unchanged as a relative link target. The model
keeps this behaviour as written (`Cells.LinkTarget`).

## Model

| member | source | states |
|---|---|---|
| TableState.Initial | src/pages/index.tsx:59-64 | On mount the state is page 0, 20 rows per page, sorted by `domain_authority`, descending |
| TableState.ChangePage | src/pages/index.tsx:73-78 | The page becomes exactly the given value, with no clamping; size, sort column and direction are unchanged |
| TableState.ChangePageLastWins | src/pages/index.tsx:73-78 | Two page changes equal the last one alone; changing to the current page changes nothing |
| TableState.ChangeRowsPerPage | src/pages/index.tsx:88-93 | The size becomes the given value and the page goes back to 0; sort column and direction are unchanged |
| TableState.ChangeRowsPerPageIdempotent | src/pages/index.tsx:88-93 | Repeating a size change changes nothing, and the page the table was on before is forgotten |
| TableState.RequestSort | src/pages/index.tsx:80-86 | The sort column becomes the requested id; page and size are unchanged; the order is `desc` exactly when the id was already the sort column in ascending order |
| TableState.SortNewColumn | src/pages/index.tsx:83-85 | Sorting by a column other than the current one gives that column, ascending, whatever the previous direction |
| TableState.SortSameColumnFlips | src/pages/index.tsx:83-85 | Sorting by the current column keeps it and flips the direction |
| TableState.SortSameColumnTwice | src/pages/index.tsx:83-85 | Two requests for the current column restore the state, and one request changes it: a cycle of length 2 |
| TableState.SortNewColumnTwice | src/pages/index.tsx:83-85 | Two clicks on a new column end sorted by it descending |
| TableState.Flip | src/pages/index.tsx:84 | Flipping a direction gives the other direction |
| TableState.FlipInvolutive | src/pages/index.tsx:84 | Flipping twice gives the original direction |
| Decimal.NatToString | src/pages/index.tsx:68 | An interpolated count prints as a non-empty string of digits with no leading zero |
| Decimal.DigitsValueOfNatToString | src/pages/index.tsx:68 | The printed digits denote the number printed |
| Decimal.IntToString | src/pages/index.tsx:68 | An interpolated integer prints as digits with an optional minus sign; only negative numbers get the sign |
| Decimal.IntToStringRoundTrip | src/pages/index.tsx:68 | The printed text parses back to the same integer |
| Decimal.IntToStringInjective | src/pages/index.tsx:68 | Two integers print alike exactly when they are equal |
| Query.Offset | src/pages/index.tsx:67 | The offset of page 0 is 0, of page 1 is one page size, and it is never negative for a non-negative page and size |
| Query.QueryOf | src/pages/index.tsx:67-68 | The request is derived from the state: limit is the page size, offset is page × size, sort is the sort column, order is the direction |
| Query.InitialQuery | src/pages/index.tsx:59-68 | The first request has limit 20, offset 0, sort `domain_authority`, order `desc` |
| Query.PageFromQuery | src/pages/index.tsx:67 | For a positive page size the offset is a whole multiple of the limit, and dividing gives the page back |
| Query.NextPageOffset | src/pages/index.tsx:67 | Page p+1 starts exactly one page size after page p |
| Query.OrderName | src/pages/index.tsx:68 | A direction is spelled `asc` or `desc` in the URL, and `asc` exactly for ascending |
| Query.ParseOrderName | src/pages/index.tsx:68 | Reading back the spelling of any direction gives that direction |
| Query.ParseOrder | src/pages/index.tsx:68 | A direction read from the URL prints back as the same text |
| Query.FieldOfJoin | src/pages/index.tsx:68 | One `key=value&` parameter of the query string is split back into its value and the rest |
| Query.QueryString | src/pages/index.tsx:68 | The query string starts with the printed limit and the `&offset=` key, and ends with `&order=` and the direction |
| Query.RequestUrl | src/pages/index.tsx:68 | The URL starts with the API base, `/collections?limit=`, the printed limit and `&offset=`, and ends with `&order=` and the direction |
| Query.QueryStringRoundTrip | src/pages/index.tsx:68 | The query string determines the query whenever the sort column contains no `&` |
| Query.RequestUrlRoundTrip | src/pages/index.tsx:68 | The full URL below any API base determines the query whenever the sort column contains no `&` |
| Query.QueryStringInjective | src/pages/index.tsx:68 | Two different queries never produce the same query string, whatever characters the sort column holds |
| Query.SortAndOrderInjective | src/pages/index.tsx:68 | The `sort=…&order=…` tail determines both the sort column, even one containing `&`, and the direction |
| Query.RequestUrlInjective | src/pages/index.tsx:68 | Two different queries never produce the same URL, whatever characters the sort column holds |
| Query.InitialRequestUrl | src/pages/index.tsx:59-68 | The first URL is `…/collections?limit=20&offset=0&sort=domain_authority&order=desc` |
| Header.SortableIdsAre | src/pages/index.tsx:32-56 | The sortable columns are exactly website, domain authority and page authority, and the default sort column is one of them |
| Header.ViewHead | src/pages/index.tsx:117-140 | A header cell has an `aria-sort` direction exactly when it is the sort column. It has a sort label exactly when the column is sortable. The label is active exactly when its column is the sort column. An active label shows the current direction and the hidden "sorted …" text. An inactive label points `asc` and has no hidden text |
| Header.HiddenText | src/pages/index.tsx:133 | The screen-reader text starts with `sorted `, and it reads "sorted descending" exactly for descending and "sorted ascending" exactly for ascending |
| Header.ViewHeads | src/pages/index.tsx:117 | The header has one cell per schema column, in schema order |
| Header.ActiveCount | src/pages/index.tsx:126 | The count of active labels is at most the number of cells, and it is zero exactly when no cell is active |
| Header.OneActiveArrow | src/pages/index.tsx:122-138 | Exactly one header shows an active arrow when the sort column is sortable, and none otherwise |
| Header.ClickInactiveLabel | src/pages/index.tsx:126-128 | Clicking an inactive label makes it active, pointing up, reading "sorted ascending" |
| Header.ClickActiveLabel | src/pages/index.tsx:126-128 | Clicking the active label keeps it active and reverses its arrow and hidden text |
| Header.InitialHeader | src/pages/index.tsx:59-64 | On mount only the domain authority label is active, pointing down; website and page authority are inactive, pointing up; rank and name have no label |
| Cells.LinkTarget | src/pages/index.tsx:162 | The link target always starts with `http`; a value starting with `http` is kept, any other gets `http://` in front |
| Cells.LinkTargetKeepsValue | src/pages/index.tsx:162 | The link target ends with the stored value, after at most the seven characters of `http://` |
| Cells.LinkTargetIdempotent | src/pages/index.tsx:162 | Normalising a link target again changes nothing |
| Cells.LinkTargetExamples | src/pages/index.tsx:162 | `example.com` links to `http://example.com`; `https://example.com` is kept |
| Cells.ViewWebsite | src/pages/index.tsx:161-164 | The website cell is `-` exactly when the value is absent or empty. Otherwise it is a link whose text is the stored value and whose target is the normalised value |
| Cells.ViewScore | src/pages/index.tsx:167-170 | An authority cell is `-` exactly when the value is null or absent; a present value is shown as itself |
| Cells.ZeroScoreShown | src/pages/index.tsx:167 | A score of 0 is shown as 0, not as `-` |
| Cells.ViewRow | src/pages/index.tsx:144-172 | A row is keyed by the record's name and shows its rank, name, website cell and both authority cells |
| Cells.ScoresReadBack | src/pages/index.tsx:167-170 | Both scores of the record can be read back from the row |
| Cells.ViewRows | src/pages/index.tsx:144 | The body has one row per record, in response order |
| Cells.SparseRecordRow | src/pages/index.tsx:144-172 | A record with rank 1, name Foo and domain authority 50 shows 50, and `-` for website and page authority |
| Session.Mount | src/pages/index.tsx:59-64 | The page starts with the default query, no rows and a total count of 0 |
| Session.ApplyResponse | src/pages/index.tsx:69-70 | A response replaces the rows and the total count and does not touch the query state |
| Session.LastResponseWins | src/pages/index.tsx:69-70 | After two responses only the second is visible |
| Session.SortAlwaysFetches | src/pages/index.tsx:80-86 | Every sort request changes a dependency of the fetch effect, so it always schedules a fetch |
| Session.ChangePageFetchesIff | src/pages/index.tsx:73-78 | A page change schedules a fetch exactly when the page differs from the current one |
| Session.ChangeRowsPerPageFetchesIff | src/pages/index.tsx:88-93 | A size change schedules a fetch exactly when the size differs or the table was not on page 0 |
| Session.Dispatch | src/pages/index.tsx:73-93 | A page event sets the page and keeps the size. A size event sets the size and resets the page to 0. A sort event sets the sort column and keeps page and size. Only sort events change the sort column or direction |
| Session.SchedulesFetch | src/pages/index.tsx:95-97 | A fetch is scheduled exactly when the state after an event differs from the state before, since the effect depends on all four fields |
| Session.Run | src/pages/index.tsx:73-97 | No events leave the state as it was. Events with no size change keep the page size. Events with no sort request keep the sort column and direction |
| Session.RunSnoc | src/pages/index.tsx:73-93 | Handling one more event applies its handler to the state the earlier events left |
| Session.PageSizeResetsOffset | src/pages/index.tsx:88-93 | After any events, a page-size change makes the next request use offset 0 and the new limit |
| Session.SortsKeepPaging | src/pages/index.tsx:80-86 | Any run of sort requests leaves page and size unchanged |
| Session.ResizeThenSortsFetchesFromStart | src/pages/index.tsx:80-93 | A page-size change followed only by sort requests still requests offset 0 with the new limit |
| Session.FromView | src/pages/index.tsx:124-128 | A sort request passes exactly when it names a schema column flagged sortable, the only cells with an `onClick`. Page and size events are not restricted, a superset of what the view produces |
| Session.SortColumnStaysSortable | src/pages/index.tsx:32-56 | If sort requests come only from sortable labels, the sort column stays sortable and exactly one header stays active |
| Session.OneActiveArrowFromMount | src/pages/index.tsx:59-64 | From mount, after any events the view can produce, exactly one header shows an active arrow |
| Session.DoubleClickFromDesc | src/pages/index.tsx:83-85 | From descending, one click on the current column gives ascending, and a second click restores the state |

## Left out

- The `fetch` call, the API base from `process.env.NEXT_PUBLIC_API_URL` and JSON parsing are network I/O and an unseen server contract. The API base is a parameter of `Query.RequestUrl`. A response is modelled only as the already parsed body (`Session.Response`).
- Failed or ill-shaped responses are not modelled; the page has no error branch. A network failure or a body that is not JSON rejects the promise, so the rows and total count stay as they were. But `fetch` resolves for any HTTP status, and line 68 never checks `res.ok`. So a 4xx or 5xx response with a JSON body of another shape reaches lines 69-70. There it stores `undefined` as the rows and the total count, and the next render fails at `collections.map` (line 144). `Session.ApplyResponse` covers only a well-shaped body.
- React's effect scheduling is not modelled: `useEffect`/`useCallback`, batching of the two `set…` calls in a handler, and the race between overlapping fetches are framework behaviour and concurrency. `Session.SchedulesFetch` models only which events change a dependency of the effect.
- `parseInt(event.target.value, 10)` is not modelled: `TableState.ChangeRowsPerPage` takes the already parsed integer.
- The `[5, 10, 20, 50]` size options are a view affordance; the handler does not enforce them, and neither does the model.
- JavaScript numbers are modelled as unbounded integers (page, size, offset) and reals (authority scores). So the model has no floating-point rounding, `NaN`, or exponent notation for numbers of 10^21 and above.
- The sort column is put into the URL without URL encoding, as in the code. `Query.QueryStringRoundTrip` and `Query.RequestUrlRoundTrip` hold only for sort columns without `&`, which covers every column of the schema. Injectivity (`Query.RequestUrlInjective`) holds for every sort column.
- Query.PageFromQuery: stated only for a positive page size; with size 0 every page gives offset 0 and the page cannot be recovered.
- The logo image and the popular badge in the name cell, all MUI layout, the `Head` metadata, and the page title are presentation. `Cells.Collection` carries `logo` and `popular`, but no rule renders them.
- `src/pages/_app.tsx` (theme, emotion cache, fonts) and `src/components/navbar/index.tsx` (static markup) are not part of this model.

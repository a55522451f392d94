/** The request `fetchCollections` sends for a table state
    (src/pages/index.tsx:66-71): the offset it derives, the four query
    parameters, and the URL text they are interpolated into. A parser
    for that URL shows that it determines the query. */
module Query {
  import opened Nullable
  import opened Decimal
  import opened TableState

  /** The query parameters of one `GET …/collections` request. */
  datatype Query = Query(limit: int, offset: int, sort: string, order: Order)

  /** `page * rowsPerPage`: the index of the first row of the page. */
  function Offset(s: State): (r: int)
    ensures s.page == 0 ==> r == 0
    ensures s.page >= 0 && s.rowsPerPage >= 0 ==> r >= 0
    ensures s.page == 1 ==> r == s.rowsPerPage
  {
    s.page * s.rowsPerPage
  }

  function QueryOf(s: State): (q: Query)
    ensures q.limit == s.rowsPerPage && q.offset == Offset(s)
    ensures q.sort == s.orderBy && q.order == s.order
  {
    Query(s.rowsPerPage, Offset(s), s.orderBy, s.order)
  }

  /** The first request after mount: limit 20, offset 0, sorted by
      domain authority, descending. */
  lemma InitialQuery()
    ensures QueryOf(Initial()) == Query(20, 0, "domain_authority", Desc)
  {
  }

  /** With a positive page size the query determines the page: the
      offset is a whole multiple of the limit and dividing gives the page
      back. */
  lemma PageFromQuery(s: State)
    requires s.rowsPerPage > 0
    ensures QueryOf(s).offset % QueryOf(s).limit == 0
    ensures QueryOf(s).offset / QueryOf(s).limit == s.page
  {
    MultipleDivides(s.page, s.rowsPerPage);
  }

  lemma MultipleDivides(p: int, n: int)
    requires n > 0
    ensures (p * n) % n == 0 && (p * n) / n == p
  {
    var x := p * n;
    var d := x / n;
    var m := x % n;
    var k := p - d;
    SubMul(p, d, n);
    assert k * n == m;
    ZeroMultiple(k, n, m);
  }

  lemma SubMul(a: int, b: int, n: int)
    ensures (a - b) * n == a * n - b * n
  {
  }

  /** A multiple of `n` that lies in `[0, n)` is `0 * n`. */
  lemma ZeroMultiple(k: int, n: int, m: int)
    requires n > 0 && 0 <= m < n && k * n == m
    ensures k == 0 && m == 0
  {
    if k >= 1 {
      assert k * n == (k - 1) * n + n;
      NonNegMul(k - 1, n);
    } else if k <= -1 {
      assert k * n == -((-k - 1) * n) - n;
      NonNegMul(-k - 1, n);
    }
  }

  lemma NonNegMul(a: int, b: int)
    requires a >= 0 && b >= 0
    ensures a * b >= 0
  {
  }

  /** Consecutive pages are adjacent windows of `rowsPerPage` rows. */
  lemma NextPageOffset(s: State, p: int)
    ensures Offset(ChangePage(s, p + 1)) == Offset(ChangePage(s, p)) + s.rowsPerPage
  {
  }

  /** `${order}`: the direction as the URL spells it. */
  function OrderName(o: Order): (r: string)
    ensures r == "asc" || r == "desc"
    ensures r == "asc" <==> o == Asc
  {
    if o == Asc then "asc" else "desc"
  }

  /** `ParseOrder` inverts the spelling of every direction. */
  lemma ParseOrderName(o: Order)
    ensures ParseOrder(OrderName(o)) == Present(o)
  {
  }

  function ParseOrder(t: string): (r: Nullable<Order>)
    ensures r.Present? ==> OrderName(r.value) == t
  {
    if t == "asc" then Present(Asc) else if t == "desc" then Present(Desc) else Absent
  }

  /** The query string, with the parameters in the page's order. The sort
      column is interpolated as it is, without URL encoding. */
  function QueryString(q: Query): (r: string)
    ensures "limit=" + IntToString(q.limit) + "&offset=" <= r
    ensures |r| >= 11 && r[|r| - |"&order=" + OrderName(q.order)|..] == "&order=" + OrderName(q.order)
  {
    "limit=" + IntToString(q.limit) + "&offset=" + IntToString(q.offset)
      + "&sort=" + q.sort + "&order=" + OrderName(q.order)
  }

  /** The full request URL below the configured API base. */
  function RequestUrl(apiBase: string, q: Query): (r: string)
    ensures apiBase + "/collections?limit=" + IntToString(q.limit) + "&offset=" <= r
    ensures r[|r| - |"&order=" + OrderName(q.order)|..] == "&order=" + OrderName(q.order)
  {
    var prefix := apiBase + "/collections?";
    var head := "limit=" + IntToString(q.limit) + "&offset=";
    PrefixAndSuffix(prefix, QueryString(q), head, "&order=" + OrderName(q.order));
    assert apiBase + "/collections?limit=" + IntToString(q.limit) + "&offset=" == prefix + head;
    prefix + QueryString(q)
  }

  /** Putting `p` in front of `s` keeps what `s` starts and ends with. */
  lemma PrefixAndSuffix(p: string, s: string, h: string, t: string)
    requires h <= s
    requires |t| <= |s| && s[|s| - |t|..] == t
    ensures p + h <= p + s
    ensures (p + s)[|p + s| - |t|..] == t
  {
    assert (p + s)[|p + s| - |t|..] == s[|s| - |t|..];
  }

  /** Position of the first `c` in `s`, or `|s|` when there is none. */
  function FindChar(s: string, c: char): (i: nat)
    ensures i <= |s|
    ensures i < |s| ==> s[i] == c
    ensures forall j :: 0 <= j < i ==> s[j] != c
  {
    if |s| == 0 then 0 else if s[0] == c then 0 else 1 + FindChar(s[1..], c)
  }

  /** `key=value&rest` split into `value` and `rest`. */
  function Field(s: string, key: string): (r: Nullable<(string, string)>)
    ensures r.Present? ==> s == key + r.value.0 + "&" + r.value.1
    ensures r.Present? ==> '&' !in r.value.0
  {
    if key <= s then
      var t := s[|key|..];
      var i := FindChar(t, '&');
      if i < |t| then
        assert t == t[..i] + "&" + t[i + 1..];
        assert s == key + t;
        assert forall j :: 0 <= j < i ==> t[..i][j] != '&';
        Present((t[..i], t[i + 1..]))
      else Absent
    else Absent
  }

  lemma FieldOfJoin(key: string, v: string, rest: string)
    requires '&' !in v
    ensures Field(key + v + "&" + rest, key) == Present((v, rest))
  {
    var s := key + v + "&" + rest;
    assert key <= s;
    var t := s[|key|..];
    assert t == v + "&" + rest;
    var i := FindChar(t, '&');
    assert t[|v|] == '&';
    assert t[..i] == v && t[i + 1..] == rest;
  }

  /** Reads a query string back; `Absent` when it is not of the shape
      `QueryString` produces. */
  function ParseQueryString(s: string): Nullable<Query> {
    match Field(s, "limit=")
    case Absent => Absent
    case Present((limitText, rest)) =>
      match (ParseInt(limitText), ParseFromOffset(rest))
      case (Present(limit), Present(q)) => Present(q.(limit := limit))
      case _ => Absent
  }

  /** The query string from `offset=` on; the limit is left at 0. */
  function ParseFromOffset(s: string): Nullable<Query> {
    match Field(s, "offset=")
    case Absent => Absent
    case Present((offsetText, rest)) =>
      match (ParseInt(offsetText), ParseFromSort(rest))
      case (Present(offset), Present(q)) => Present(q.(offset := offset))
      case _ => Absent
  }

  /** The query string from `sort=` on; limit and offset are left at 0. */
  function ParseFromSort(s: string): Nullable<Query> {
    match Field(s, "sort=")
    case Absent => Absent
    case Present((sort, rest)) =>
      if "order=" <= rest then
        match ParseOrder(rest[6..])
        case Present(order) => Present(Query(0, 0, sort, order))
        case Absent => Absent
      else Absent
  }

  function ParseRequestUrl(apiBase: string, url: string): Nullable<Query> {
    var prefix := apiBase + "/collections?";
    if prefix <= url then ParseQueryString(url[|prefix|..]) else Absent
  }

  lemma NoAmpInIntToString(i: int)
    ensures '&' !in IntToString(i)
  {
  }

  /** The query string determines the query whenever the sort column
      holds no `&`, which is so for every column of the table. */
  lemma QueryStringRoundTrip(q: Query)
    requires '&' !in q.sort
    ensures ParseQueryString(QueryString(q)) == Present(q)
  {
    var l := IntToString(q.limit);
    var o := IntToString(q.offset);
    var r3 := "order=" + OrderName(q.order);
    var r2 := "sort=" + q.sort + "&" + r3;
    var r1 := "offset=" + o + "&" + r2;
    assert QueryString(q) == "limit=" + l + "&" + r1;
    FromSortRoundTrip(q.sort, q.order);
    assert ParseFromSort(r2) == Present(Query(0, 0, q.sort, q.order));
    NoAmpInIntToString(q.offset);
    IntToStringRoundTrip(q.offset);
    FieldOfJoin("offset=", o, r2);
    assert ParseFromOffset(r1) == Present(Query(0, q.offset, q.sort, q.order));
    NoAmpInIntToString(q.limit);
    IntToStringRoundTrip(q.limit);
    FieldOfJoin("limit=", l, r1);
  }

  lemma FromSortRoundTrip(sort: string, order: Order)
    requires '&' !in sort
    ensures ParseFromSort("sort=" + sort + "&" + ("order=" + OrderName(order)))
         == Present(Query(0, 0, sort, order))
  {
    var r3 := "order=" + OrderName(order);
    FieldOfJoin("sort=", sort, r3);
    assert r3[6..] == OrderName(order);
  }

  /** The same for the whole URL, below any API base. */
  lemma RequestUrlRoundTrip(apiBase: string, q: Query)
    requires '&' !in q.sort
    ensures ParseRequestUrl(apiBase, RequestUrl(apiBase, q)) == Present(q)
  {
    var prefix := apiBase + "/collections?";
    var s := QueryString(q);
    assert RequestUrl(apiBase, q) == prefix + s;
    assert (prefix + s)[|prefix|..] == s;
    QueryStringRoundTrip(q);
  }

  /** Different queries are sent as different URLs. */
  lemma RequestUrlInjective(apiBase: string, q1: Query, q2: Query)
    requires RequestUrl(apiBase, q1) == RequestUrl(apiBase, q2)
    ensures q1 == q2
  {
    var prefix := apiBase + "/collections?";
    assert (prefix + QueryString(q1))[|prefix|..] == QueryString(q1);
    assert (prefix + QueryString(q2))[|prefix|..] == QueryString(q2);
    QueryStringInjective(q1, q2);
  }

  /** The query string determines the query, for every sort column: limit
      and offset end at the first `&` after their keys, the direction is
      told apart by the last four characters, and the sort column is what
      lies between. */
  lemma QueryStringInjective(q1: Query, q2: Query)
    requires QueryString(q1) == QueryString(q2)
    ensures q1 == q2
  {
    var l1, l2 := IntToString(q1.limit), IntToString(q2.limit);
    var o1, o2 := IntToString(q1.offset), IntToString(q2.offset);
    var t1 := "sort=" + q1.sort + "&order=" + OrderName(q1.order);
    var t2 := "sort=" + q2.sort + "&order=" + OrderName(q2.order);
    QueryStringShape(q1);
    QueryStringShape(q2);
    NoAmpInIntToString(q1.limit);
    NoAmpInIntToString(q2.limit);
    SplitAtFirstAmp("limit=", l1, "offset=" + o1 + "&" + t1, l2, "offset=" + o2 + "&" + t2);
    IntToStringInjective(q1.limit, q2.limit);
    NoAmpInIntToString(q1.offset);
    NoAmpInIntToString(q2.offset);
    SplitAtFirstAmp("offset=", o1, t1, o2, t2);
    IntToStringInjective(q1.offset, q2.offset);
    SortAndOrderInjective(q1.sort, q1.order, q2.sort, q2.order);
  }

  /** `QueryString` regrouped around the first two `&`. */
  lemma QueryStringShape(q: Query)
    ensures QueryString(q)
         == "limit=" + IntToString(q.limit) + "&"
            + ("offset=" + IntToString(q.offset) + "&"
               + ("sort=" + q.sort + "&order=" + OrderName(q.order)))
  {
  }

  /** Two `key` fields whose values hold no `&` are equal exactly when
      their values and the rests after the first `&` are. */
  lemma SplitAtFirstAmp(key: string, a: string, b: string, c: string, d: string)
    requires '&' !in a && '&' !in c
    requires key + a + "&" + b == key + c + "&" + d
    ensures a == c && b == d
  {
    FieldOfJoin(key, a, b);
    FieldOfJoin(key, c, d);
  }

  /** The tail `sort=…&order=…` determines the sort column, whatever it
      contains, and the direction. */
  lemma SortAndOrderInjective(s1: string, o1: Order, s2: string, o2: Order)
    requires "sort=" + s1 + "&order=" + OrderName(o1) == "sort=" + s2 + "&order=" + OrderName(o2)
    ensures s1 == s2 && o1 == o2
  {
    var p1 := "sort=" + s1 + "&order=";
    var p2 := "sort=" + s2 + "&order=";
    OrderSuffix(p1, o1);
    OrderSuffix(p2, o2);
    assert o1 == o2;
    var t := p1 + OrderName(o1);
    assert t == p2 + OrderName(o2);
    assert p1 == t[..|p1|] && p2 == t[..|p2|];
    assert s1 == p1[5..|p1| - 7] && s2 == p2[5..|p2| - 7];
  }

  /** The fourth character from the end of `p + direction` tells the
      directions apart when `p` ends with `=`: it is that `=` for `asc`
      and the `d` of `desc`. */
  lemma OrderSuffix(p: string, o: Order)
    requires |p| > 0 && p[|p| - 1] == '='
    ensures |p + OrderName(o)| >= 4
    ensures (p + OrderName(o))[|p + OrderName(o)| - 4] == if o == Asc then '=' else 'd'
  {
  }

  /** The first request after mount, as text. */
  lemma InitialRequestUrl(apiBase: string)
    ensures RequestUrl(apiBase, QueryOf(Initial()))
         == apiBase + "/collections?" + "limit=" + "20" + "&offset=" + "0"
              + "&sort=" + "domain_authority" + "&order=" + "desc"
  {
    assert NatToString(2) == "2";
    assert NatToString(20) == NatToString(2) + "0";
    assert IntToString(20) == "20";
    assert IntToString(0) == "0";
  }
}

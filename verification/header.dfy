/** The table header (src/pages/index.tsx:32-56, 117-140): the static
    column schema and, for a table state, what each header cell shows:
    its `aria-sort` direction, and for sortable columns the sort label
    with its active flag, arrow direction and hidden screen-reader text. */
module Header {
  import opened Nullable
  import opened TableState

  datatype HeadCell = HeadCell(id: string, caption: string, sortable: bool)

  /** `headCells`: five columns, the last three sortable. */
  const HeadCells: seq<HeadCell> := [
    HeadCell("rank", "Rank", false),
    HeadCell("name", "Name", false),
    HeadCell("website", "Website", true),
    HeadCell("domain_authority", "Domain Authority", true),
    HeadCell("page_authority", "Page Authority", true)
  ]

  /** The ids of the columns that carry a sort label. */
  function SortableIds(): set<string> {
    set i | 0 <= i < |HeadCells| && HeadCells[i].sortable :: HeadCells[i].id
  }

  lemma SortableIdsAre()
    ensures SortableIds() == {"website", "domain_authority", "page_authority"}
    ensures DefaultOrderBy in SortableIds()
  {
    var expected := {"website", "domain_authority", "page_authority"};
    assert HeadCells[2].id == "website" && HeadCells[3].id == "domain_authority"
      && HeadCells[4].id == "page_authority";
    forall id | id in SortableIds() ensures id in expected {
      var i :| 0 <= i < |HeadCells| && HeadCells[i].sortable && HeadCells[i].id == id;
      assert i == 2 || i == 3 || i == 4;
    }
  }

  /** The `TableSortLabel` of a sortable column. */
  datatype SortLabel = SortLabel(active: bool, direction: Order, hiddenText: Nullable<string>)

  /** One rendered header cell. */
  datatype HeaderView = HeaderView(id: string, caption: string, sortDirection: Nullable<Order>,
                                   sortLabel: Nullable<SortLabel>)

  /** The screen-reader text of the active label. */
  function HiddenText(o: Order): (r: string)
    ensures "sorted " <= r
    ensures r == "sorted descending" <==> o == Desc
    ensures r == "sorted ascending" <==> o == Asc
  {
    match o
    case Desc => "sorted descending"
    case Asc => "sorted ascending"
  }

  function ViewHead(cell: HeadCell, s: State): (r: HeaderView)
    ensures r.id == cell.id && r.caption == cell.caption
    ensures r.sortDirection.Present? <==> s.orderBy == cell.id
    ensures r.sortDirection.Present? ==> r.sortDirection.value == s.order
    ensures r.sortLabel.Present? <==> cell.sortable
    ensures r.sortLabel.Present? ==> (r.sortLabel.value.active <==> s.orderBy == cell.id)
    ensures r.sortLabel.Present? && r.sortLabel.value.active ==>
              r.sortLabel.value.direction == s.order
              && r.sortLabel.value.hiddenText == Present(HiddenText(s.order))
    ensures r.sortLabel.Present? && !r.sortLabel.value.active ==>
              r.sortLabel.value.direction == Asc && r.sortLabel.value.hiddenText == Absent
  {
    var active := s.orderBy == cell.id;
    HeaderView(
      cell.id,
      cell.caption,
      if active then Present(s.order) else Absent,
      if cell.sortable then
        Present(SortLabel(active, if active then s.order else Asc,
                          if active then Present(HiddenText(s.order)) else Absent))
      else Absent)
  }

  function ViewHeads(s: State): (r: seq<HeaderView>)
    ensures |r| == |HeadCells|
    ensures forall i :: 0 <= i < |r| ==> r[i] == ViewHead(HeadCells[i], s)
  {
    seq(|HeadCells|, i requires 0 <= i < |HeadCells| => ViewHead(HeadCells[i], s))
  }

  predicate ShowsActiveArrow(v: HeaderView) {
    v.sortLabel.Present? && v.sortLabel.value.active
  }

  function ActiveCount(vs: seq<HeaderView>): (n: nat)
    ensures n <= |vs|
    ensures n == 0 <==> forall i :: 0 <= i < |vs| ==> !ShowsActiveArrow(vs[i])
  {
    if |vs| == 0 then 0
    else (if ShowsActiveArrow(vs[0]) then 1 else 0) + ActiveCount(vs[1..])
  }

  /** Exactly one header shows an active sort arrow when the table is
      sorted by a sortable column, and none otherwise. */
  lemma OneActiveArrow(s: State)
    ensures ActiveCount(ViewHeads(s)) == if s.orderBy in SortableIds() then 1 else 0
  {
    SortableIdsAre();
    var vs := ViewHeads(s);
    assert vs[4..][1..] == vs[5..] == [];
    assert vs[3..][1..] == vs[4..] && vs[2..][1..] == vs[3..];
    assert vs[1..][1..] == vs[2..] && vs[0..] == vs;
    assert ActiveCount(vs[4..]) == (if s.orderBy == "page_authority" then 1 else 0);
    assert ActiveCount(vs[3..]) == (if s.orderBy in {"domain_authority", "page_authority"} then 1 else 0);
    assert ActiveCount(vs[2..]) == (if s.orderBy in SortableIds() then 1 else 0);
  }

  /** Clicking the label of a column that is not the sort column makes it
      the active one, with an ascending arrow. */
  lemma ClickInactiveLabel(s: State, i: nat)
    requires i < |HeadCells| && HeadCells[i].sortable && s.orderBy != HeadCells[i].id
    ensures ViewHeads(RequestSort(s, HeadCells[i].id))[i].sortLabel
         == Present(SortLabel(true, Asc, Present("sorted ascending")))
  {
  }

  /** Clicking the active label keeps it active and reverses its arrow. */
  lemma ClickActiveLabel(s: State, i: nat)
    requires i < |HeadCells| && HeadCells[i].sortable && s.orderBy == HeadCells[i].id
    ensures ViewHeads(RequestSort(s, HeadCells[i].id))[i].sortLabel
         == Present(SortLabel(true, Flip(s.order), Present(HiddenText(Flip(s.order)))))
  {
  }

  /** On mount the domain authority label is the active one, pointing
      down, and the other two sortable labels are inactive and point up. */
  lemma InitialHeader()
    ensures ViewHeads(Initial())[3].sortLabel == Present(SortLabel(true, Desc, Present("sorted descending")))
    ensures ViewHeads(Initial())[2].sortLabel == Present(SortLabel(false, Asc, Absent))
    ensures ViewHeads(Initial())[4].sortLabel == Present(SortLabel(false, Asc, Absent))
    ensures ViewHeads(Initial())[0].sortLabel == Absent && ViewHeads(Initial())[1].sortLabel == Absent
  {
  }
}

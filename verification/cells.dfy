/** One row of the table body (src/pages/index.tsx:144-173): the server's
    collection record and the rules that turn its optional fields into
    cells: the website link with its `http://` prefix, and the `-`
    shown for a missing website or authority score. */
module Cells {
  import opened Nullable

  /** A record of the server's `collections` array. Scores are JSON
      numbers, modelled as reals. */
  datatype Collection = Collection(
    rank: int,
    name: string,
    website: Nullable<string>,
    domainAuthority: Nullable<real>,
    pageAuthority: Nullable<real>,
    logo: Nullable<string>,
    popular: Nullable<bool>)

  predicate StartsWith(s: string, prefix: string) {
    prefix <= s
  }

  /** The `href` of the website link: a value that already starts with
      `http` is kept, any other gets `http://` in front. */
  function LinkTarget(w: string): (r: string)
    ensures StartsWith(r, "http")
    ensures StartsWith(w, "http") ==> r == w
    ensures !StartsWith(w, "http") ==> r == "http://" + w
  {
    if StartsWith(w, "http") then w else "http://" + w
  }

  /** The link target always ends with the stored value, and at most
      `http://` was put before it. */
  lemma LinkTargetKeepsValue(w: string)
    ensures |LinkTarget(w)| == |w| || |LinkTarget(w)| == |w| + 7
    ensures LinkTarget(w)[|LinkTarget(w)| - |w|..] == w
  {
  }

  /** Normalising a link target again changes nothing. */
  lemma LinkTargetIdempotent(w: string)
    ensures LinkTarget(LinkTarget(w)) == LinkTarget(w)
  {
  }

  lemma LinkTargetExamples()
    ensures LinkTarget("example.com") == "http://example.com"
    ensures LinkTarget("https://example.com") == "https://example.com"
  {
    assert !StartsWith("example.com", "http") by {
      assert "example.com"[0] != "http"[0];
    }
    assert StartsWith("https://example.com", "http") by {
      assert "https://example.com"[..4] == "http";
    }
  }

  datatype WebsiteCell = WebsiteLink(href: string, text: string) | WebsiteDash

  /** `row.website && <Link …>` then `!row.website && '-'`: only a present,
      non-empty string is truthy and becomes a link; its text is the stored
      value as it is. */
  function ViewWebsite(w: Nullable<string>): (r: WebsiteCell)
    ensures r.WebsiteDash? <==> w == Absent || w == Present("")
    ensures r.WebsiteLink? ==> r.text == w.value && r.href == LinkTarget(w.value)
  {
    match w
    case Present(v) => if |v| > 0 then WebsiteLink(LinkTarget(v), v) else WebsiteDash
    case Absent => WebsiteDash
  }

  datatype ScoreCell = Score(value: real) | ScoreDash

  /** `value ?? '-'`: the dash only for null or undefined; any number,
      0 included, is shown as itself. */
  function ViewScore(v: Nullable<real>): (r: ScoreCell)
    ensures r.ScoreDash? <==> v.Absent?
    ensures r.Score? ==> v == Present(r.value)
  {
    match v
    case Present(x) => Score(x)
    case Absent => ScoreDash
  }

  /** A score of zero is shown, not replaced by the dash. */
  lemma ZeroScoreShown()
    ensures ViewScore(Present(0.0)) == Score(0.0)
  {
  }

  /** The cells of one row; `key` is the React key, the record's name. */
  datatype RowView = RowView(key: string, rank: int, name: string, website: WebsiteCell,
                             domainAuthority: ScoreCell, pageAuthority: ScoreCell)

  function ViewRow(c: Collection): (r: RowView)
    ensures r.key == c.name && r.name == c.name && r.rank == c.rank
    ensures r.website == ViewWebsite(c.website)
    ensures r.domainAuthority == ViewScore(c.domainAuthority)
    ensures r.pageAuthority == ViewScore(c.pageAuthority)
  {
    RowView(c.name, c.rank, c.name, ViewWebsite(c.website),
            ViewScore(c.domainAuthority), ViewScore(c.pageAuthority))
  }

  /** The scores a row shows are exactly the record's: the record's
      scores can be read back from the row. */
  lemma ScoresReadBack(c: Collection)
    ensures (match ViewRow(c).domainAuthority
             case Score(x) => Present(x)
             case ScoreDash => Absent) == c.domainAuthority
    ensures (match ViewRow(c).pageAuthority
             case Score(x) => Present(x)
             case ScoreDash => Absent) == c.pageAuthority
  {
  }

  function ViewRows(cs: seq<Collection>): (r: seq<RowView>)
    ensures |r| == |cs|
    ensures forall i :: 0 <= i < |cs| ==> r[i] == ViewRow(cs[i])
  {
    seq(|cs|, i requires 0 <= i < |cs| => ViewRow(cs[i]))
  }

  /** A record with only a rank, a name and a domain authority of 50 is
      shown with that score and dashes for the other three fields. */
  lemma SparseRecordRow()
    ensures ViewRow(Collection(1, "Foo", Absent, Present(50.0), Absent, Absent, Absent))
         == RowView("Foo", 1, "Foo", WebsiteDash, Score(50.0), ScoreDash)
  {
  }
}

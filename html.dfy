/** The parts of a fetched catalog page that the scraper reads, already
    matched out of the HTML: the document model stays abstract. */
module Html {
  import opened Outcomes

  /** The first `<a>` inside an element, with its `href` attribute if it has one. */
  datatype Anchor = Anchor(href: Option<Url>)

  /** One `div` with the sub-series class signature, and the first anchor inside it. */
  datatype SubseriesElement = SubseriesElement(anchor: Option<Anchor>)

  /** The `table` with id `table_id`: the texts of all its `th` cells in
      document order, and for every `tr` the texts of its `td` cells. */
  datatype HtmlTable = HtmlTable(headerCells: seq<string>, rowCells: seq<seq<string>>)

  /** The `a#table_id_next.paginate_button.next` control: its class tokens
      and its `href`. */
  datatype NextControl = NextControl(classes: seq<string>, href: Option<Url>)

  datatype Page = Page(
    subseries: seq<SubseriesElement>,
    table: Option<HtmlTable>,
    next: Option<NextControl>)

  /** The site as the fetcher sees it: a URL that is not a key fails to fetch. */
  type Web = map<Url, Page>

  type Row = seq<string>

  /** A pandas DataFrame as the scraper uses it: column labels and rows. */
  datatype Table = Table(headers: seq<string>, rows: seq<Row>)

  /** `DataFrame.empty`: the frame holds no cell, because it has no rows or
      no columns. */
  predicate IsEmpty(t: Table): (b: bool)
    ensures b <==> |t.rows| * |t.headers| == 0
  {
    |t.rows| == 0 || |t.headers| == 0
  }

  /** `pd.DataFrame(rows, columns=headers)` pads rows narrower than the
      widest one with missing values and raises unless the widest row has
      exactly one cell per header (so it also raises when every row is
      narrower); the rows it is given are the `tr`s that have at least one
      `td`. The model asks for the stricter shape in which every such row
      has one cell per header, so padding never happens. */
  predicate WellShaped(t: Option<HtmlTable>)
  {
    t.Some? ==> forall k :: 0 <= k < |t.value.rowCells| && |t.value.rowCells[k]| > 0 ==>
      |t.value.rowCells[k]| == |t.value.headerCells|
  }

  /** Every page of the site satisfies the DataFrame construction. */
  predicate WellShapedWeb(web: Web)
  {
    forall u :: u in web ==> WellShaped(web[u].table)
  }
}

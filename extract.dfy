/** The two extractors of main.py: `find_subseries_links` and `scrape_table`. */
module Extract {
  import opened Outcomes
  import opened Html
  import opened Seqs
  import opened Text

  // ---------------------------------------------------------------------
  // find_subseries_links
  // ---------------------------------------------------------------------

  predicate HasAnchor(e: SubseriesElement) { e.anchor.Some? }

  predicate HasHref(e: SubseriesElement) { e.anchor.Some? && e.anchor.value.href.Some? }

  /** What `find_subseries_links` computes, element by element: the `href`
      of each element's anchor; indexing an anchor without `href` raises. */
  function SubseriesHrefs(elems: seq<SubseriesElement>): (r: Outcome<seq<Url>>)
    ensures r.Done? || r == Failed(MissingHref)
    ensures r.Done? ==> |r.value| <= |elems|
  {
    if elems == [] then Done([])
    else
      var prev := SubseriesHrefs(elems[..|elems| - 1]);
      var e := elems[|elems| - 1];
      if !prev.Done? || e.anchor.None? then prev
      else if e.anchor.value.href.None? then Failed(MissingHref)
      else Done(prev.value + [e.anchor.value.href.value])
  }

  /** The hrefs of elements that all have one, in order. */
  function Hrefs(es: seq<SubseriesElement>): seq<Url>
    requires forall e :: e in es ==> HasHref(e)
  {
    seq(|es|, k requires 0 <= k < |es| && HasHref(es[k]) => es[k].anchor.value.href.value)
  }

  /** The links are the hrefs of the elements that contain an anchor, in
      document order and with duplicates kept, so there are at most as many
      as elements; the only failure is an anchor without `href`. */
  lemma {:induction false} SubseriesHrefsSpec(elems: seq<SubseriesElement>)
    ensures SubseriesHrefs(elems).Done? <==> forall e :: e in elems && HasAnchor(e) ==> HasHref(e)
    ensures !SubseriesHrefs(elems).Done? ==> SubseriesHrefs(elems) == Failed(MissingHref)
    ensures SubseriesHrefs(elems).Done? ==>
      && |SubseriesHrefs(elems).value| <= |elems|
      && SubseriesHrefs(elems).value == Hrefs(Filter(HasAnchor, elems))
  {
    if elems != [] {
      var init, e := elems[..|elems| - 1], elems[|elems| - 1];
      assert elems == init + [e];
      SubseriesHrefsSpec(init);
      FilterAppend(HasAnchor, init, [e]);
      assert Filter(HasAnchor, [e]) == if HasAnchor(e) then [e] else [];
      assert forall x :: x in elems <==> x in init || x == e;
    }
  }

  /** Once an anchor without `href` has been met, later elements do not matter. */
  lemma {:induction false} SubseriesHrefsFailurePersists(elems: seq<SubseriesElement>, n: nat)
    requires n <= |elems| && !SubseriesHrefs(elems[..n]).Done?
    ensures SubseriesHrefs(elems) == SubseriesHrefs(elems[..n])
    decreases |elems|
  {
    if n < |elems| {
      var init := elems[..|elems| - 1];
      assert init[..n] == elems[..n];
      SubseriesHrefsFailurePersists(init, n);
    } else {
      assert elems[..n] == elems;
    }
  }

  /** `find_subseries_links(soup)`. */
  method FindSubseriesLinks(elems: seq<SubseriesElement>) returns (r: Outcome<seq<Url>>)
    ensures r == SubseriesHrefs(elems)
  {
    var links: seq<Url> := [];
    var i := 0;
    while i < |elems|
      invariant 0 <= i <= |elems|
      invariant SubseriesHrefs(elems[..i]) == Done(links)
    {
      assert elems[..i + 1][..i] == elems[..i];
      var linkTag := elems[i].anchor;
      if linkTag.Some? {
        if linkTag.value.href.None? {
          SubseriesHrefsFailurePersists(elems, i + 1);
          return Failed(MissingHref);
        }
        links := links + [linkTag.value.href.value];
      }
      i := i + 1;
    }
    assert elems[..i] == elems;
    return Done(links);
  }

  // ---------------------------------------------------------------------
  // scrape_table
  // ---------------------------------------------------------------------

  /** `[cell.text.strip() for cell in cells]`. */
  function StripCells(cells: seq<string>): Row
  {
    Map(Strip, cells)
  }

  predicate HasDataCells(cells: seq<string>) { |cells| > 0 }

  /** The row list `scrape_table` builds, `tr` by `tr`. */
  function DataRows(trs: seq<seq<string>>): (r: seq<Row>)
    ensures |r| <= |trs|
    ensures forall k :: 0 <= k < |r| ==> |r[k]| > 0
  {
    if trs == [] then []
    else
      var last := trs[|trs| - 1];
      DataRows(trs[..|trs| - 1]) + (if |last| > 0 then [StripCells(last)] else [])
  }

  /** The rows are the `tr`s that have a `td`, in order, each as its
      stripped cell texts: a `tr` without `td` is dropped, not kept empty. */
  lemma {:induction false} DataRowsSpec(trs: seq<seq<string>>)
    ensures DataRows(trs) == Map(StripCells, Filter(HasDataCells, trs))
  {
    if trs != [] {
      var init, last := trs[..|trs| - 1], trs[|trs| - 1];
      assert trs == init + [last];
      DataRowsSpec(init);
      FilterAppend(HasDataCells, init, [last]);
      assert Filter(HasDataCells, [last]) == if HasDataCells(last) then [last] else [];
    }
  }

  /** The DataFrame `scrape_table` returns, or `None` without the table. */
  function TableOf(t: Option<HtmlTable>): (r: Option<Table>)
    ensures r.None? <==> t.None?
    ensures r.Some? ==> r.value.headers == t.value.headerCells && |r.value.rows| <= |t.value.rowCells|
    ensures r.Some? ==> forall k :: 0 <= k < |r.value.rows| ==> |r.value.rows[k]| > 0
  {
    match t
    case None => None
    case Some(h) => Some(Table(h.headerCells, DataRows(h.rowCells)))
  }

  /** `scrape_table` answers "not found" exactly when the page has no
      `table_id` table, which differs from a table without rows; the
      headers are the `th` texts unstripped; every row has one cell per
      header and there are at most as many rows as `tr`s. */
  lemma TableOfSpec(t: Option<HtmlTable>)
    requires WellShaped(t)
    ensures TableOf(t).None? <==> t.None?
    ensures t.Some? ==> TableOf(t).value.headers == t.value.headerCells
    ensures t.Some? ==> TableOf(t).value.rows == Map(StripCells, Filter(HasDataCells, t.value.rowCells))
    ensures t.Some? ==> |TableOf(t).value.rows| <= |t.value.rowCells|
    ensures t.Some? ==> forall k :: 0 <= k < |TableOf(t).value.rows| ==>
      |TableOf(t).value.rows[k]| == |t.value.headerCells| > 0
  {
    if t.Some? {
      DataRowsSpec(t.value.rowCells);
      var kept := Filter(HasDataCells, t.value.rowCells);
      assert forall k :: 0 <= k < |kept| ==> |StripCells(kept[k])| == |kept[k]|;
    }
  }

  /** `scrape_table(soup)`; the requirement is the DataFrame constructor's. */
  method ScrapeTable(t: Option<HtmlTable>) returns (r: Option<Table>)
    requires WellShaped(t)
    ensures r == TableOf(t)
  {
    if t.None? {
      return None;
    }
    var headers := t.value.headerCells;
    var trs := t.value.rowCells;
    var rows: seq<Row> := [];
    var i := 0;
    while i < |trs|
      invariant 0 <= i <= |trs|
      invariant rows == DataRows(trs[..i])
    {
      assert trs[..i + 1][..i] == trs[..i];
      var cells := trs[i];
      if |cells| > 0 {
        rows := rows + [StripCells(cells)];
      }
      i := i + 1;
    }
    assert trs[..i] == trs;
    return Some(Table(headers, rows));
  }

  lemma DataRowsSnoc(init: seq<seq<string>>, last: seq<string>)
    ensures DataRows(init + [last]) == DataRows(init) + (if |last| > 0 then [StripCells(last)] else [])
  {
    assert (init + [last])[..|init|] == init;
  }

  lemma PaddedRowStripped()
    ensures StripCells([" 1 ", "2"]) == ["1", "2"]
  {
    StripSpaced("1");
    assert " " + "1" + " " == " 1 ";
    StripUnpadded("2");
  }

  lemma PlainRowStripped()
    ensures StripCells(["3", "4"]) == ["3", "4"]
  {
    StripUnpadded("3");
    StripUnpadded("4");
  }

  /** A header row without `td` is skipped and the data cells are stripped. */
  lemma ScrapeTableExample()
    ensures TableOf(Some(HtmlTable(["A", "B"], [[], [" 1 ", "2"]])))
         == Some(Table(["A", "B"], [["1", "2"]]))
  {
    PaddedRowStripped();
    var r0: seq<seq<string>> := [[]];
    DataRowsSnoc([], []);
    assert [] + [[]] == r0;
    assert DataRows(r0) == [];
    DataRowsSnoc(r0, [" 1 ", "2"]);
    assert r0 + [[" 1 ", "2"]] == [[], [" 1 ", "2"]];
    assert DataRows(r0 + [[" 1 ", "2"]]) == [] + [["1", "2"]];
    assert DataRows([[], [" 1 ", "2"]]) == [["1", "2"]];
  }

  /** The table behind the six-row scenario: a header row and two data rows. */
  lemma TableRowsExample()
    ensures TableOf(Some(HtmlTable(["A", "B"], [[], [" 1 ", "2"], ["3", "4"]])))
         == Some(Table(["A", "B"], [["1", "2"], ["3", "4"]]))
  {
    PaddedRowStripped();
    PlainRowStripped();
    var r0: seq<seq<string>> := [[]];
    var r1 := r0 + [[" 1 ", "2"]];
    DataRowsSnoc([], []);
    assert [] + [[]] == r0;
    assert DataRows(r0) == [];
    DataRowsSnoc(r0, [" 1 ", "2"]);
    assert DataRows(r1) == [["1", "2"]];
    DataRowsSnoc(r1, ["3", "4"]);
    assert r1 + [["3", "4"]] == [[], [" 1 ", "2"], ["3", "4"]];
    assert DataRows(r1 + [["3", "4"]]) == [["1", "2"]] + [["3", "4"]];
    assert DataRows([[], [" 1 ", "2"], ["3", "4"]]) == [["1", "2"], ["3", "4"]];
  }
}

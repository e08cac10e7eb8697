/** `scrape_paginated_table` in main.py: follow the "next" control from page
    to page, extracting each page's table, until the control is absent or
    disabled. The source has no cycle detection; here the walk fetches at
    most `fuel` pages and reports `OutOfFuel` where the source would go on. */
module Pagination {
  import opened Outcomes
  import opened Html
  import opened Seqs
  import opened Extract

  const DisabledClass: string := "disabled"

  /** What the walker does after a page, read off its next control. */
  datatype Step = Stop | Follow(url: Url) | NoHref

  /** Stop when the control is absent or carries the `disabled` class token;
      otherwise go to its `href`. */
  function NextStep(next: Option<NextControl>): (s: Step)
    ensures s == Stop <==> next.None? || DisabledClass in next.value.classes
    ensures s == NoHref <==> next.Some? && DisabledClass !in next.value.classes && next.value.href.None?
    ensures s.Follow? ==> next.Some? && next.value.href == Some(s.url)
  {
    match next
    case None => Stop
    case Some(c) =>
      if DisabledClass in c.classes then Stop
      else if c.href.None? then NoHref
      else Follow(c.href.value)
  }

  function Prepend(us: seq<Url>, o: Outcome<seq<Url>>): Outcome<seq<Url>>
  {
    if o.Done? then Done(us + o.value) else o
  }

  /** The URLs the walker fetches from `url` on, in order, when it stops
      within `fuel` pages. */
  function Chain(web: Web, url: Url, fuel: nat): (r: Outcome<seq<Url>>)
    ensures r.Done? ==> 1 <= |r.value| <= fuel && r.value[0] == url
    ensures r.Done? ==> forall k :: 0 <= k < |r.value| ==> r.value[k] in web
    decreases fuel
  {
    if fuel == 0 then OutOfFuel
    else if url !in web then Failed(FetchFailed(url))
    else match NextStep(web[url].next)
      case Stop => Done([url])
      case NoHref => Failed(MissingHref)
      case Follow(next) => Prepend([url], Chain(web, next, fuel - 1))
  }

  /** `us` is a run of fetchable pages, each one's control leading to the
      next and the last one's control saying stop. */
  predicate IsChain(web: Web, us: seq<Url>)
  {
    && |us| > 0
    && (forall k :: 0 <= k < |us| ==> us[k] in web)
    && (forall k :: 0 <= k < |us| - 1 ==> NextStep(web[us[k]].next) == Follow(us[k + 1]))
    && NextStep(web[us[|us| - 1]].next) == Stop
  }

  /** Every visit sequence the walker produces is such a run ... */
  lemma {:induction false} ChainSound(web: Web, url: Url, fuel: nat)
    ensures Chain(web, url, fuel).Done? ==> IsChain(web, Chain(web, url, fuel).value)
    decreases fuel
  {
    if fuel > 0 && url in web {
      match NextStep(web[url].next)
      case Follow(next) =>
        ChainSound(web, next, fuel - 1);
      case _ =>
    }
  }

  /** ... and every such run that fits the bound is what the walker visits. */
  lemma {:induction false} ChainComplete(web: Web, us: seq<Url>, fuel: nat)
    requires IsChain(web, us) && |us| <= fuel
    ensures Chain(web, us[0], fuel) == Done(us)
    decreases |us|
  {
    if |us| == 1 {
      assert us == [us[0]];
    } else {
      assert NextStep(web[us[0]].next) == Follow(us[1]);
      var rest := us[1..];
      assert forall k :: 0 <= k < |rest| ==> rest[k] == us[k + 1];
      assert IsChain(web, rest);
      ChainComplete(web, rest, fuel - 1);
      assert [us[0]] + rest == us;
    }
  }

  /** A walk that ends within `fuel` pages ends the same way with any larger bound. */
  lemma {:induction false} ChainFuelMonotone(web: Web, url: Url, fuel: nat, more: nat)
    requires fuel <= more && !Chain(web, url, fuel).OutOfFuel?
    ensures Chain(web, url, more) == Chain(web, url, fuel)
    decreases fuel
  {
    if url in web {
      match NextStep(web[url].next)
      case Follow(next) =>
        ChainFuelMonotone(web, next, fuel - 1, more - 1);
      case _ =>
    }
  }

  /** There is no cycle detection: a page whose enabled control links to
      itself is fetched again and again, whatever the bound. */
  lemma {:induction false} SelfLinkNeverStops(web: Web, url: Url, fuel: nat)
    requires url in web && NextStep(web[url].next) == Follow(url)
    ensures Chain(web, url, fuel) == OutOfFuel
    decreases fuel
  {
    if fuel > 0 {
      SelfLinkNeverStops(web, url, fuel - 1);
    }
  }

  /** The tables found on the visited pages, in visit order (`all_data`). */
  function FoundTables(web: Web, us: seq<Url>): seq<Table>
  {
    if us == [] then []
    else
      var last := us[|us| - 1];
      FoundTables(web, us[..|us| - 1]) + (if last in web then PageTables(web[last]) else [])
  }

  /** The table one visited page adds to `all_data`, if it has one. */
  function PageTables(p: Page): seq<Table>
  {
    match TableOf(p.table)
    case Some(t) => [t]
    case None => []
  }

  function RowsOf(t: Table): seq<Row> { t.rows }

  /** `pd.concat(all_data, ignore_index=True)` for tables with the same
      columns: the first table's labels over all rows in order. */
  function Concat(ts: seq<Table>): (r: Table)
    requires ts != []
    ensures r.headers == ts[0].headers
    ensures r.rows == [] <==> forall k :: 0 <= k < |ts| ==> ts[k].rows == []
  {
    FlattenEmpty(Map(RowsOf, ts));
    Table(ts[0].headers, Flatten(Map(RowsOf, ts)))
  }

  /** `pd.DataFrame()`. */
  const EmptyTable: Table := Table([], [])

  datatype WalkResult = WalkResult(table: Table, lastUrl: Url)

  /** What `scrape_paginated_table(url)` returns; `lastUrl` is the value of
      `url` after the loop, the one the "no data" warning names. */
  function Walk(web: Web, url: Url, fuel: nat): (r: Outcome<WalkResult>)
    ensures r.Done? <==> Chain(web, url, fuel).Done?
    ensures !r.Done? ==> r == Propagate(Chain(web, url, fuel))
    ensures r.Done? ==> r.value.lastUrl in web && NextStep(web[r.value.lastUrl].next) == Stop
  {
    match Chain(web, url, fuel)
    case Done(us) =>
      ChainSound(web, url, fuel);
      var found := FoundTables(web, us);
      Done(WalkResult(if found == [] then EmptyTable else Concat(found), us[|us| - 1]))
    case Failed(e) => Failed(e)
    case OutOfFuel => OutOfFuel
  }

  /** The rows one visited page contributes. */
  function PageRows(p: Page): seq<Row>
  {
    match TableOf(p.table)
    case Some(t) => t.rows
    case None => []
  }

  function VisitedRows(web: Web, us: seq<Url>): seq<seq<Row>>
  {
    seq(|us|, k requires 0 <= k < |us| => if us[k] in web then PageRows(web[us[k]]) else [])
  }

  lemma PageTablesRows(p: Page)
    ensures Flatten(Map(RowsOf, PageTables(p))) == PageRows(p)
  {
    assert Flatten<Row>([]) == [];
    if PageTables(p) != [] {
      assert Map(RowsOf, PageTables(p)) == [PageRows(p)];
      FlattenSingleton(PageRows(p));
    }
  }

  lemma VisitedRowsSnoc(web: Web, us: seq<Url>)
    requires us != [] && forall u :: u in us ==> u in web
    ensures VisitedRows(web, us) == VisitedRows(web, us[..|us| - 1]) + [PageRows(web[us[|us| - 1]])]
  {
  }

  lemma {:induction false} FoundTablesRows(web: Web, us: seq<Url>)
    requires forall u :: u in us ==> u in web
    ensures Flatten(Map(RowsOf, FoundTables(web, us))) == Flatten(VisitedRows(web, us))
  {
    if us != [] {
      var init, last := us[..|us| - 1], us[|us| - 1];
      FoundTablesRows(web, init);
      var extra := PageTables(web[last]);
      MapAppend(RowsOf, FoundTables(web, init), extra);
      FlattenAppend(Map(RowsOf, FoundTables(web, init)), Map(RowsOf, extra));
      PageTablesRows(web[last]);
      VisitedRowsSnoc(web, us);
      FlattenAppend(VisitedRows(web, init), [PageRows(web[last])]);
      FlattenSingleton(PageRows(web[last]));
    }
  }

  /** `us[k]` is the first of the visited pages that has a table. */
  predicate FirstWithTable(web: Web, us: seq<Url>, k: nat)
    requires forall u :: u in us ==> u in web
  {
    && k < |us|
    && TableOf(web[us[k]].table).Some?
    && forall j :: 0 <= j < k ==> TableOf(web[us[j]].table).None?
  }

  lemma {:induction false} FoundTablesNone(web: Web, us: seq<Url>)
    requires forall u :: u in us ==> u in web
    ensures FoundTables(web, us) == [] <==> forall k :: 0 <= k < |us| ==> TableOf(web[us[k]].table).None?
  {
    if us != [] {
      var init, last := us[..|us| - 1], us[|us| - 1];
      assert us == init + [last];
      FoundTablesSnoc(web, init, last);
      FoundTablesNone(web, init);
      assert forall k :: 0 <= k < |init| ==> init[k] == us[k];
      assert PageTables(web[last]) == [] <==> TableOf(web[last].table).None?;
    }
  }

  lemma {:induction false} FoundTablesHead(web: Web, us: seq<Url>, k: nat)
    requires forall u :: u in us ==> u in web
    requires FirstWithTable(web, us, k)
    ensures FoundTables(web, us) != [] && FoundTables(web, us)[0] == TableOf(web[us[k]].table).value
  {
    var init, last := us[..|us| - 1], us[|us| - 1];
    assert us == init + [last];
    FoundTablesSnoc(web, init, last);
    if k < |init| {
      assert forall j :: 0 <= j <= k ==> init[j] == us[j];
      assert FirstWithTable(web, init, k);
      FoundTablesHead(web, init, k);
    } else {
      assert forall j :: 0 <= j < |init| ==> init[j] == us[j];
      FoundTablesNone(web, init);
    }
  }

  /** Which visited page supplies the headers: the first one with a table. */
  lemma FoundTablesFirst(web: Web, us: seq<Url>)
    requires forall u :: u in us ==> u in web
    ensures FoundTables(web, us) == [] <==> forall k :: 0 <= k < |us| ==> TableOf(web[us[k]].table).None?
    ensures forall k: nat :: FirstWithTable(web, us, k) ==> FoundTables(web, us)[0] == TableOf(web[us[k]].table).value
  {
    FoundTablesNone(web, us);
    forall k: nat | FirstWithTable(web, us, k)
      ensures FoundTables(web, us)[0] == TableOf(web[us[k]].table).value
    {
      FoundTablesHead(web, us, k);
    }
  }

  /** The rows part of `WalkSpec`. */
  lemma WalkRows(web: Web, url: Url, fuel: nat)
    requires Chain(web, url, fuel).Done?
    ensures var us := Chain(web, url, fuel).value;
      && Walk(web, url, fuel).Done?
      && Walk(web, url, fuel).value.table.rows == Flatten(VisitedRows(web, us))
  {
    var us := Chain(web, url, fuel).value;
    FoundTablesRows(web, us);
    assert Flatten<Row>([]) == [];
    if FoundTables(web, us) == [] {
      assert Map(RowsOf, FoundTables(web, us)) == [];
    }
  }

  /** The headers part of `WalkSpec`. */
  lemma WalkHeaders(web: Web, url: Url, fuel: nat)
    requires Chain(web, url, fuel).Done?
    ensures var us := Chain(web, url, fuel).value;
      && ((forall k :: 0 <= k < |us| ==> TableOf(web[us[k]].table).None?) ==>
            Walk(web, url, fuel).value.table == EmptyTable)
      && (forall k: nat :: FirstWithTable(web, us, k) ==>
            Walk(web, url, fuel).value.table.headers == TableOf(web[us[k]].table).value.headers)
  {
    FoundTablesFirst(web, Chain(web, url, fuel).value);
  }

  /** The walk's result: its rows are those of every visited page with a
      table, concatenated in visit order, so they are empty exactly when no
      visited page had a table row; its headers are those of the first
      visited page that had a table, and without any it is `pd.DataFrame()`;
      it ends on a page whose control says stop. */
  lemma WalkSpec(web: Web, url: Url, fuel: nat)
    requires Chain(web, url, fuel).Done?
    ensures var us := Chain(web, url, fuel).value;
      && Walk(web, url, fuel).Done?
      && Walk(web, url, fuel).value.table.rows == Flatten(VisitedRows(web, us))
      && (Walk(web, url, fuel).value.table.rows == [] <==>
            forall k :: 0 <= k < |us| ==> PageRows(web[us[k]]) == [])
      && ((forall k :: 0 <= k < |us| ==> TableOf(web[us[k]].table).None?) ==>
            Walk(web, url, fuel).value.table == EmptyTable)
      && (forall k: nat :: FirstWithTable(web, us, k) ==>
            Walk(web, url, fuel).value.table.headers == TableOf(web[us[k]].table).value.headers)
      && Walk(web, url, fuel).value.lastUrl == us[|us| - 1]
      && NextStep(web[Walk(web, url, fuel).value.lastUrl].next) == Stop
  {
    var us := Chain(web, url, fuel).value;
    WalkRows(web, url, fuel);
    WalkHeaders(web, url, fuel);
    VisitedRowsEmpty(web, us);
    WalkLast(web, url, fuel);
  }

  /** The visited pages give no rows exactly when each of them gives none. */
  lemma VisitedRowsEmpty(web: Web, us: seq<Url>)
    requires forall k :: 0 <= k < |us| ==> us[k] in web
    ensures Flatten(VisitedRows(web, us)) == [] <==> forall k :: 0 <= k < |us| ==> PageRows(web[us[k]]) == []
  {
    FlattenEmpty(VisitedRows(web, us));
    assert forall k :: 0 <= k < |us| ==> VisitedRows(web, us)[k] == PageRows(web[us[k]]);
  }

  /** The URL a finished walk leaves in `url` is that of its last page,
      whose control says stop. */
  lemma WalkLast(web: Web, url: Url, fuel: nat)
    requires Chain(web, url, fuel).Done?
    ensures var us := Chain(web, url, fuel).value;
      && Walk(web, url, fuel).Done?
      && Walk(web, url, fuel).value.lastUrl == us[|us| - 1]
      && NextStep(web[us[|us| - 1]].next) == Stop
  {
    ChainSound(web, url, fuel);
  }

  /** The walker processes the current page before looking at the control:
      a page whose control is absent or disabled ends the walk, even the
      first one, with exactly that page's table. */
  lemma WalkSinglePage(web: Web, url: Url, fuel: nat)
    requires fuel >= 1 && url in web && NextStep(web[url].next) == Stop
    ensures TableOf(web[url].table).Some? ==>
      Walk(web, url, fuel) == Done(WalkResult(TableOf(web[url].table).value, url))
    ensures TableOf(web[url].table).None? ==>
      Walk(web, url, fuel) == Done(WalkResult(EmptyTable, url))
  {
    assert Chain(web, url, fuel) == Done([url]);
    FoundTablesSnoc(web, [], url);
    assert [] + [url] == [url];
    var t := TableOf(web[url].table);
    if t.Some? {
      assert FoundTables(web, [url]) == [t.value];
      assert Map(RowsOf, [t.value]) == [t.value.rows];
      FlattenSingleton(t.value.rows);
    } else {
      assert FoundTables(web, [url]) == [];
    }
  }

  lemma FoundTablesSnoc(web: Web, us: seq<Url>, u: Url)
    requires u in web
    ensures FoundTables(web, us + [u]) == FoundTables(web, us) + PageTables(web[u])
  {
    assert (us + [u])[..|us|] == us;
  }

  lemma PrependFollow(web: Web, url: Url, f: nat, next: Url, vs: seq<Url>)
    requires f >= 1 && url in web && NextStep(web[url].next) == Follow(next)
    ensures Prepend(vs, Chain(web, url, f)) == Prepend(vs + [url], Chain(web, next, f - 1))
  {
    var o := Chain(web, next, f - 1);
    if o.Done? {
      assert vs + ([url] + o.value) == (vs + [url]) + o.value;
    }
  }

  /** One visit of the loop keeps `all_data` equal to the tables found so far. */
  lemma VisitStep(web: Web, visited: seq<Url>, url: Url, allData: seq<Table>, data: Option<Table>)
    requires url in web && allData == FoundTables(web, visited) && data == TableOf(web[url].table)
    ensures data.Some? ==> FoundTables(web, visited + [url]) == allData + [data.value]
    ensures data.None? ==> FoundTables(web, visited + [url]) == allData
  {
    FoundTablesSnoc(web, visited, url);
  }

  /** What the walker does before fetching `url` with `f` pages of fuel
      left: out of fuel, or a failed fetch, ends the whole walk. */
  lemma BeforeVisit(web: Web, start: Url, fuel: nat, vs: seq<Url>, url: Url, f: nat)
    requires Chain(web, start, fuel) == Prepend(vs, Chain(web, url, f))
    ensures f == 0 ==> Walk(web, start, fuel) == OutOfFuel
    ensures f > 0 && url !in web ==> Walk(web, start, fuel) == Failed(FetchFailed(url))
  {
  }

  /** What the walker does after visiting `url`, by the page's control: the
      walk ends there, fails, or goes on from the linked page. */
  lemma AfterVisit(web: Web, start: Url, fuel: nat, vs: seq<Url>, url: Url, f: nat)
    requires f >= 1 && url in web
    requires Chain(web, start, fuel) == Prepend(vs, Chain(web, url, f))
    ensures NextStep(web[url].next) == Stop ==> Chain(web, start, fuel) == Done(vs + [url])
    ensures NextStep(web[url].next) == NoHref ==> Walk(web, start, fuel) == Failed(MissingHref)
    ensures NextStep(web[url].next).Follow? ==>
      Chain(web, start, fuel) == Prepend(vs + [url], Chain(web, NextStep(web[url].next).url, f - 1))
  {
    match NextStep(web[url].next)
    case Follow(next) => PrependFollow(web, url, f, next, vs);
    case _ =>
  }

  /** The result of a walk whose visits are known. */
  lemma WalkOfVisits(web: Web, start: Url, fuel: nat, visited: seq<Url>)
    requires Chain(web, start, fuel) == Done(visited)
    ensures Walk(web, start, fuel) == Done(WalkResult(
      if FoundTables(web, visited) == [] then EmptyTable else Concat(FoundTables(web, visited)),
      visited[|visited| - 1]))
  {
  }

  /** `scrape_paginated_table(url)`; the requirement is the DataFrame
      constructor's, on every page. */
  method ScrapePaginatedTable(web: Web, start: Url, fuel: nat) returns (r: Outcome<WalkResult>)
    requires WellShapedWeb(web)
    ensures r == Walk(web, start, fuel)
  {
    var url := start;
    var allData: seq<Table> := [];
    var steps: nat := 0;
    ghost var visited: seq<Url> := [];
    assert Prepend(visited, Chain(web, url, fuel)) == Chain(web, start, fuel) by {
      assert Chain(web, url, fuel).Done? ==> [] + Chain(web, url, fuel).value == Chain(web, url, fuel).value;
    }
    while true
      invariant steps == |visited| <= fuel
      invariant allData == FoundTables(web, visited)
      invariant Chain(web, start, fuel) == Prepend(visited, Chain(web, url, fuel - steps))
      decreases fuel - steps
    {
      BeforeVisit(web, start, fuel, visited, url, fuel - steps);
      if steps == fuel {
        return OutOfFuel;
      }
      if url !in web {
        return Failed(FetchFailed(url));
      }
      var page := web[url];
      var data := ScrapeTable(page.table);
      VisitStep(web, visited, url, allData, data);
      AfterVisit(web, start, fuel, visited, url, fuel - steps);
      if data.Some? {
        allData := allData + [data.value];
      }
      visited := visited + [url];
      steps := steps + 1;
      var nextButton := page.next;
      if nextButton.None? || DisabledClass in nextButton.value.classes {
        assert NextStep(nextButton) == Stop;
        break;
      }
      if nextButton.value.href.None? {
        assert NextStep(nextButton) == NoHref;
        return Failed(MissingHref);
      }
      assert NextStep(nextButton) == Follow(nextButton.value.href.value);
      url := nextButton.value.href.value;
    }
    WalkOfVisits(web, start, fuel, visited);
    var table: Table;
    if |allData| > 0 {
      table := Concat(allData);
    } else {
      table := EmptyTable;
    }
    return Done(WalkResult(table, url));
  }
}

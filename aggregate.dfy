/** The body of `main` in main.py: for every brand URL, walk every
    sub-series link of its landing page and collect the non-empty results,
    each behind a marker row naming the brand; save only if anything was
    collected. */
module Aggregate {
  import opened Outcomes
  import opened Html
  import opened Seqs
  import opened Brand
  import opened Extract
  import opened Pagination

  /** The origin prefixed to every sub-series link. */
  const SiteOrigin: string := "https://www.turbomaster.com"

  /** `[brand_name] + [''] * (len(data.columns) - 1)`: the brand in the first
      column and blanks in the others. */
  function MarkerRow(brand: string, width: nat): (r: Row)
    requires width >= 1
    ensures |r| == width && r[0] == brand
    ensures forall k :: 1 <= k < width ==> r[k] == ""
  {
    [brand] + seq(width - 1, _ => "")
  }

  predicate NonEmpty(t: Table) { !IsEmpty(t) }

  /** What one walker result adds to `all_data`: nothing when it is empty,
      otherwise a one-row marker frame and then the result's rows. */
  function Block(brand: string, t: Table): seq<seq<Row>>
  {
    if IsEmpty(t) then [] else [[MarkerRow(brand, |t.headers|)], t.rows]
  }

  /** The frames the walker results of one brand add, in link order. */
  function BrandFrames(brand: string, ts: seq<Table>): seq<seq<Row>>
  {
    if ts == [] then [] else BrandFrames(brand, ts[..|ts| - 1]) + Block(brand, ts[|ts| - 1])
  }

  /** The frames alternate: for the `i`-th non-empty result, its marker and
      then its rows; empty results leave no trace, not even a marker. */
  lemma {:induction false} BrandFramesSpec(brand: string, ts: seq<Table>)
    ensures var f := Filter(NonEmpty, ts);
      && |BrandFrames(brand, ts)| == 2 * |f|
      && forall i :: 0 <= i < |f| ==>
           && BrandFrames(brand, ts)[2 * i] == [MarkerRow(brand, |f[i].headers|)]
           && BrandFrames(brand, ts)[2 * i + 1] == f[i].rows
  {
    if ts != [] {
      var init, last := ts[..|ts| - 1], ts[|ts| - 1];
      assert ts == init + [last];
      BrandFramesSpec(brand, init);
      FilterAppend(NonEmpty, init, [last]);
      var f0, b0 := Filter(NonEmpty, init), BrandFrames(brand, init);
      if NonEmpty(last) {
        assert Filter(NonEmpty, [last]) == [last];
        assert BrandFrames(brand, ts) == b0 + [[MarkerRow(brand, |last.headers|)], last.rows];
        assert Filter(NonEmpty, ts) == f0 + [last];
      } else {
        assert Filter(NonEmpty, [last]) == [];
        assert BrandFrames(brand, ts) == b0 + [];
        assert Filter(NonEmpty, ts) == f0 + [];
      }
    }
  }

  /** The rows one walker result adds: its marker and its rows, or nothing. */
  lemma BlockRowCount(brand: string, t: Table)
    ensures var f := Filter(NonEmpty, [t]);
      |Flatten(Block(brand, t))| == |f| + |Flatten(Map(RowsOf, f))|
  {
    var f := Filter(NonEmpty, [t]);
    assert [t][..0] == [] && [t][1..] == [];
    if NonEmpty(t) {
      assert f == [t];
      var m := [MarkerRow(brand, |t.headers|)];
      assert Block(brand, t) == [m] + [t.rows];
      FlattenAppend([m], [t.rows]);
      FlattenSingleton(m);
      FlattenSingleton(t.rows);
      assert Map(RowsOf, f) == [t.rows];
    } else {
      assert f == [] && Block(brand, t) == [];
      assert Map(RowsOf, f) == [];
    }
  }

  /** The right-hand side of `BrandRowCount` splits over an appended sequence. */
  lemma RowCountAppend(a: seq<Table>, b: seq<Table>)
    ensures var f, fa, fb := Filter(NonEmpty, a + b), Filter(NonEmpty, a), Filter(NonEmpty, b);
      |f| + |Flatten(Map(RowsOf, f))|
        == (|fa| + |Flatten(Map(RowsOf, fa))|) + (|fb| + |Flatten(Map(RowsOf, fb))|)
  {
    var fa, fb := Filter(NonEmpty, a), Filter(NonEmpty, b);
    FilterAppend(NonEmpty, a, b);
    MapAppend(RowsOf, fa, fb);
    FlattenAppend(Map(RowsOf, fa), Map(RowsOf, fb));
  }

  /** Rows per brand: one marker per non-empty result plus that result's rows. */
  lemma {:induction false} BrandRowCount(brand: string, ts: seq<Table>)
    ensures var f := Filter(NonEmpty, ts);
      |Flatten(BrandFrames(brand, ts))| == |f| + |Flatten(Map(RowsOf, f))|
  {
    if ts != [] {
      var init, last := ts[..|ts| - 1], ts[|ts| - 1];
      assert ts == init + [last];
      BrandRowCount(brand, init);
      FlattenAppend(BrandFrames(brand, init), Block(brand, last));
      BlockRowCount(brand, last);
      RowCountAppend(init, [last]);
    }
  }

  /** A brand adds no frame exactly when every one of its walks came back empty. */
  lemma BrandFramesEmpty(brand: string, ts: seq<Table>)
    ensures BrandFrames(brand, ts) == [] <==> forall k :: 0 <= k < |ts| ==> IsEmpty(ts[k])
  {
    BrandFramesSpec(brand, ts);
    FilterEmpty(NonEmpty, ts);
  }

  /** Per-key outcomes joined in key order; the first one that does not
      finish ends the whole run with its failure. */
  function Collect<K, T>(step: K -> Outcome<seq<T>>, keys: seq<K>): Outcome<seq<T>>
  {
    if keys == [] then Done([])
    else
      var prev := Collect(step, keys[..|keys| - 1]);
      if !prev.Done? then prev
      else
        var o := step(keys[|keys| - 1]);
        if o.Done? then Done(prev.value + o.value) else Propagate(o)
  }

  lemma {:induction false} CollectFailurePersists<K, T>(step: K -> Outcome<seq<T>>, keys: seq<K>, n: nat)
    requires n <= |keys| && !Collect(step, keys[..n]).Done?
    ensures Collect(step, keys) == Collect(step, keys[..n])
    decreases |keys|
  {
    if n < |keys| {
      var init := keys[..|keys| - 1];
      assert init[..n] == keys[..n];
      CollectFailurePersists(step, init, n);
    } else {
      assert keys[..n] == keys;
    }
  }

  /** A run finishes exactly when every step does. */
  lemma {:induction false} CollectDone<K, T>(step: K -> Outcome<seq<T>>, keys: seq<K>)
    ensures Collect(step, keys).Done? <==> forall k :: 0 <= k < |keys| ==> step(keys[k]).Done?
  {
    if keys != [] {
      var init := keys[..|keys| - 1];
      CollectDone(step, init);
      assert forall k :: 0 <= k < |init| ==> init[k] == keys[k];
    }
  }

  /** Keys keep their order: a run over `a + b` gives the results for `a`
      followed by those for `b`. */
  lemma {:induction false} CollectAppend<K, T>(step: K -> Outcome<seq<T>>, a: seq<K>, b: seq<K>)
    requires Collect(step, a).Done? && Collect(step, b).Done?
    ensures Collect(step, a + b) == Done(Collect(step, a).value + Collect(step, b).value)
    decreases |b|
  {
    if b == [] {
      assert a + b == a;
      assert Collect(step, a).value + [] == Collect(step, a).value;
    } else {
      var init := b[..|b| - 1];
      assert (a + b)[..|a + b| - 1] == a + init;
      assert (a + b)[|a + b| - 1] == b[|b| - 1];
      CollectAppend(step, a, init);
      var o := step(b[|b| - 1]);
      assert Collect(step, a).value + Collect(step, init).value + o.value
          == Collect(step, a).value + (Collect(step, init).value + o.value);
    }
  }

  /** A run yields nothing exactly when every step finishes with nothing. */
  lemma {:induction false} CollectNil<K, T>(step: K -> Outcome<seq<T>>, keys: seq<K>)
    ensures Collect(step, keys) == Done([]) <==> forall k :: 0 <= k < |keys| ==> step(keys[k]) == Done([])
  {
    if keys != [] {
      var init, last := keys[..|keys| - 1], keys[|keys| - 1];
      CollectNil(step, init);
      assert forall k :: 0 <= k < |init| ==> init[k] == keys[k];
      var prev := Collect(step, init);
      var o := step(last);
      if !prev.Done? {
        assert Collect(step, keys) == prev;
        assert prev != Done([]);
      } else if !o.Done? {
        assert Collect(step, keys) == Propagate(o);
        assert step(keys[|keys| - 1]) != Done([]);
      } else {
        assert Collect(step, keys) == Done(prev.value + o.value);
        assert prev.value + o.value == [] <==> prev.value == [] && o.value == [];
      }
    }
  }

  /** A property held by every element of every step's result holds for
      every element of the run's result. */
  lemma {:induction false} CollectKeeps<K, T>(step: K -> Outcome<seq<T>>, keys: seq<K>, p: T -> bool)
    requires forall k :: 0 <= k < |keys| && step(keys[k]).Done? ==>
      forall j :: 0 <= j < |step(keys[k]).value| ==> p(step(keys[k]).value[j])
    ensures Collect(step, keys).Done? ==>
      forall j :: 0 <= j < |Collect(step, keys).value| ==> p(Collect(step, keys).value[j])
  {
    if keys != [] {
      var init := keys[..|keys| - 1];
      assert forall k :: 0 <= k < |init| ==> init[k] == keys[k];
      CollectKeeps(step, init, p);
    }
  }

  /** When every step yields exactly one element, a finished run yields
      one element per key, in key order. */
  lemma {:induction false} CollectSingletons<K, T>(step: K -> Outcome<seq<T>>, keys: seq<K>)
    requires Collect(step, keys).Done?
    requires forall k :: 0 <= k < |keys| && step(keys[k]).Done? ==> |step(keys[k]).value| == 1
    ensures forall k :: 0 <= k < |keys| ==> step(keys[k]).Done?
    ensures |Collect(step, keys).value| == |keys|
    ensures forall k :: 0 <= k < |keys| ==> Collect(step, keys).value[k] == step(keys[k]).value[0]
  {
    CollectDone(step, keys);
    if keys != [] {
      var init := keys[..|keys| - 1];
      assert forall k :: 0 <= k < |init| ==> init[k] == keys[k];
      CollectSingletons(step, init);
    }
  }

  /** One walker run as a step of a brand's link loop: the origin is
      prefixed to the link and the result is that walk's table. */
  function WalkStep(web: Web, fuel: nat): Url -> Outcome<seq<Table>>
  {
    link =>
      var o := Walk(web, SiteOrigin + link, fuel);
      if o.Done? then Done([o.value.table]) else Propagate(o)
  }

  /** The tables of walking every link, each prefixed with the site origin,
      in link order; the first walk that does not finish ends it all. */
  function WalkAll(web: Web, links: seq<Url>, fuel: nat): Outcome<seq<Table>>
  {
    Collect(WalkStep(web, fuel), links)
  }

  /** Walking the links finishes exactly when every walk does, and then
      gives one table per link: the walk of the origin plus that link. */
  lemma WalkAllSpec(web: Web, links: seq<Url>, fuel: nat)
    ensures WalkAll(web, links, fuel).Done? <==>
      forall k :: 0 <= k < |links| ==> Walk(web, SiteOrigin + links[k], fuel).Done?
    ensures WalkAll(web, links, fuel).Done? ==>
      && |WalkAll(web, links, fuel).value| == |links|
      && forall k :: 0 <= k < |links| ==>
           WalkAll(web, links, fuel).value[k] == Walk(web, SiteOrigin + links[k], fuel).value.table
  {
    var step := WalkStep(web, fuel);
    assert forall l :: step(l).Done? <==> Walk(web, SiteOrigin + l, fuel).Done?;
    assert forall l :: step(l).Done? ==> step(l).value == [Walk(web, SiteOrigin + l, fuel).value.table];
    CollectDone(step, links);
    if WalkAll(web, links, fuel).Done? {
      CollectSingletons(step, links);
    }
  }

  /** The frames one brand URL adds: label, landing page, links, walks. */
  function LandingFrames(web: Web, url: Url, fuel: nat): (r: Outcome<seq<seq<Row>>>)
    ensures url !in web ==> r == Failed(FetchFailed(url))
    ensures url in web && !SubseriesHrefs(web[url].subseries).Done? ==> r == Failed(MissingHref)
    ensures r.Done? ==> forall k :: 0 <= k < |r.value| ==> NonEmptyFrame(r.value[k])
  {
    if url !in web then Failed(FetchFailed(url))
    else match SubseriesHrefs(web[url].subseries)
      case Done(links) =>
        (match WalkAll(web, links, fuel)
         case Done(ts) =>
           BrandFramesNonEmpty(ExtractBrandName(url), ts);
           Done(BrandFrames(ExtractBrandName(url), ts))
         case Failed(e) => Failed(e)
         case OutOfFuel => OutOfFuel)
      case Failed(e) => Failed(e)
      case OutOfFuel => OutOfFuel
  }

  /** Every frame a brand adds holds at least one row. */
  lemma BrandFramesNonEmpty(brand: string, ts: seq<Table>)
    ensures forall k :: 0 <= k < |BrandFrames(brand, ts)| ==> NonEmptyFrame(BrandFrames(brand, ts)[k])
  {
    BrandFramesSpec(brand, ts);
    var f := Filter(NonEmpty, ts);
    var bf := BrandFrames(brand, ts);
    forall k | 0 <= k < |bf| ensures NonEmptyFrame(bf[k]) {
      var i := k / 2;
      assert k == 2 * i || k == 2 * i + 1;
      assert NonEmpty(f[i]);
    }
  }

  predicate NonEmptyFrame(f: seq<Row>) { f != [] }

  /** The per-URL outcome of a run. */
  function Landing(web: Web, fuel: nat): Url -> Outcome<seq<seq<Row>>>
  {
    u => LandingFrames(web, u, fuel)
  }

  /** `all_data` after processing the brand URLs in order. */
  function RunFrames(web: Web, urls: seq<Url>, fuel: nat): Outcome<seq<seq<Row>>>
  {
    Collect(Landing(web, fuel), urls)
  }

  datatype Report = Saved(rows: seq<Row>) | NoData

  /** What `main(urls)` ends with: the rows written to the spreadsheet, or the
      "no data" warning when nothing was collected. */
  function ScraperOutcome(web: Web, urls: seq<Url>, fuel: nat): (r: Outcome<Report>)
    ensures r.Done? <==> RunFrames(web, urls, fuel).Done?
    ensures r == Done(NoData) <==> RunFrames(web, urls, fuel) == Done([])
    ensures !r.Done? ==> r == Propagate(RunFrames(web, urls, fuel))
  {
    match RunFrames(web, urls, fuel)
    case Done(frames) => Done(if frames == [] then NoData else Saved(Flatten(frames)))
    case Failed(e) => Failed(e)
    case OutOfFuel => OutOfFuel
  }

  /** The spreadsheet is written only if some brand added a block, so an
      empty URL list, or brands whose walks all came back empty, give the
      "no data" outcome; a written spreadsheet is never empty; the run
      finishes exactly when every brand does. */
  lemma ScraperOutcomeSpec(web: Web, urls: seq<Url>, fuel: nat)
    ensures ScraperOutcome(web, urls, fuel) == Done(NoData) <==>
      forall k :: 0 <= k < |urls| ==> LandingFrames(web, urls[k], fuel) == Done([])
    ensures ScraperOutcome(web, urls, fuel).Done? <==>
      forall k :: 0 <= k < |urls| ==> LandingFrames(web, urls[k], fuel).Done?
    ensures ScraperOutcome(web, urls, fuel).Done? && ScraperOutcome(web, urls, fuel).value.Saved? ==>
      ScraperOutcome(web, urls, fuel).value.rows != []
  {
    var step := Landing(web, fuel);
    assert forall u :: step(u) == LandingFrames(web, u, fuel);
    CollectNil(step, urls);
    CollectDone(step, urls);
    CollectKeeps(step, urls, NonEmptyFrame);
    var o := RunFrames(web, urls, fuel);
    if o.Done? && o.value != [] {
      FlattenEmpty(o.value);
      assert NonEmptyFrame(o.value[0]);
    }
  }

  /** One more walk of a brand's link loop. */
  lemma WalkAllSnoc(web: Web, links: seq<Url>, j: nat, ts: seq<Table>, fuel: nat)
    requires j < |links| && WalkAll(web, links[..j], fuel) == Done(ts)
    ensures var o := Walk(web, SiteOrigin + links[j], fuel);
      && (o.Done? ==> WalkAll(web, links[..j + 1], fuel) == Done(ts + [o.value.table]))
      && (!o.Done? ==> WalkAll(web, links, fuel) == Propagate(o))
  {
    var step := WalkStep(web, fuel);
    assert links[..j + 1][..j] == links[..j];
    var o := Walk(web, SiteOrigin + links[j], fuel);
    if !o.Done? {
      assert step(links[j]) == Propagate(o);
      CollectFailurePersists(step, links, j + 1);
    }
  }

  lemma BrandFramesSnoc(brand: string, ts: seq<Table>, t: Table)
    ensures BrandFrames(brand, ts + [t]) == BrandFrames(brand, ts) + Block(brand, t)
  {
    assert (ts + [t])[..|ts|] == ts;
  }

  /** The frames of a brand whose links and walks are known. */
  lemma LandingDone(web: Web, url: Url, fuel: nat, links: seq<Url>, ts: seq<Table>)
    requires url in web && SubseriesHrefs(web[url].subseries) == Done(links)
    requires WalkAll(web, links, fuel) == Done(ts)
    ensures LandingFrames(web, url, fuel) == Done(BrandFrames(ExtractBrandName(url), ts))
  {
  }

  lemma LandingWalkFails(web: Web, url: Url, fuel: nat, links: seq<Url>)
    requires url in web && SubseriesHrefs(web[url].subseries) == Done(links)
    requires !WalkAll(web, links, fuel).Done?
    ensures LandingFrames(web, url, fuel) == Propagate(WalkAll(web, links, fuel))
  {
  }

  /** One iteration of the brand loop of `main`: label the brand, fetch its
      landing page, collect its links and walk each of them. */
  method ScrapeBrand(web: Web, url: Url, fuel: nat) returns (r: Outcome<seq<seq<Row>>>)
    requires WellShapedWeb(web)
    ensures r == LandingFrames(web, url, fuel)
  {
    var brandName := ExtractBrandName(url);
    if url !in web {
      return Failed(FetchFailed(url));
    }
    var soup := web[url];
    var subseriesLinks := FindSubseriesLinks(soup.subseries);
    if !subseriesLinks.Done? {
      return Propagate(subseriesLinks);
    }
    var links := subseriesLinks.value;
    var frames: seq<seq<Row>> := [];
    ghost var ts: seq<Table> := [];
    for j := 0 to |links|
      invariant WalkAll(web, links[..j], fuel) == Done(ts)
      invariant frames == BrandFrames(brandName, ts)
    {
      var fullLink := SiteOrigin + links[j];
      var data := ScrapePaginatedTable(web, fullLink, fuel);
      WalkAllSnoc(web, links, j, ts, fuel);
      if !data.Done? {
        LandingWalkFails(web, url, fuel, links);
        return Propagate(data);
      }
      BrandFramesSnoc(brandName, ts, data.value.table);
      if !IsEmpty(data.value.table) {
        var brandRow := MarkerRow(brandName, |data.value.table.headers|);
        frames := frames + [[brandRow], data.value.table.rows];
      }
      ts := ts + [data.value.table];
    }
    assert links[..|links|] == links;
    LandingDone(web, url, fuel, links, ts);
    return Done(frames);
  }

  /** `main(urls)`; the requirement is the DataFrame constructor's, on every page. */
  method RunScraper(web: Web, urls: seq<Url>, fuel: nat) returns (r: Outcome<Report>)
    requires WellShapedWeb(web)
    ensures r == ScraperOutcome(web, urls, fuel)
  {
    ghost var step := Landing(web, fuel);
    var allData: seq<seq<Row>> := [];
    for i := 0 to |urls|
      invariant Collect(step, urls[..i]) == Done(allData)
    {
      assert urls[..i + 1][..i] == urls[..i];
      var frames := ScrapeBrand(web, urls[i], fuel);
      assert step(urls[i]) == frames;
      if !frames.Done? {
        CollectFailurePersists(step, urls, i + 1);
        return Propagate(frames);
      }
      allData := allData + frames.value;
    }
    assert urls[..|urls|] == urls;
    if |allData| > 0 {
      return Done(Saved(Flatten(allData)));
    } else {
      return Done(NoData);
    }
  }

  /** A sub-series element whose anchor carries `href`. */
  function Linked(href: Url): SubseriesElement
  {
    SubseriesElement(Some(Anchor(Some(href))))
  }

  lemma TwoLinks(l1: Url, l2: Url)
    ensures SubseriesHrefs([Linked(l1), Linked(l2)]) == Done([l1, l2])
  {
    var es := [Linked(l1), Linked(l2)];
    assert es[..1] == [Linked(l1)] && es[..1][..0] == [];
    assert SubseriesHrefs(es[..1][..0]) == Done([]);
    assert [] + [l1] == [l1];
    assert SubseriesHrefs(es[..1]) == Done([l1]);
    assert [l1] + [l2] == [l1, l2];
  }

  lemma TwoWalks(web: Web, l1: Url, l2: Url, t: Table, fuel: nat)
    requires Walk(web, SiteOrigin + l1, fuel).Done? && Walk(web, SiteOrigin + l1, fuel).value.table == t
    requires Walk(web, SiteOrigin + l2, fuel).Done? && Walk(web, SiteOrigin + l2, fuel).value.table == t
    ensures WalkAll(web, [l1, l2], fuel) == Done([t, t])
  {
    WalkStepDone(web, fuel, l1);
    WalkStepDone(web, fuel, l2);
    CollectTwo(WalkStep(web, fuel), l1, l2);
    assert [t] + [t] == [t, t];
  }

  lemma WalkStepDone(web: Web, fuel: nat, l: Url)
    requires Walk(web, SiteOrigin + l, fuel).Done?
    ensures WalkStep(web, fuel)(l) == Done([Walk(web, SiteOrigin + l, fuel).value.table])
  {
  }

  /** Two keys whose steps finish collect both outputs, in key order. */
  lemma CollectTwo<K, T>(step: K -> Outcome<seq<T>>, a: K, b: K)
    requires step(a).Done? && step(b).Done?
    ensures Collect(step, [a, b]) == Done(step(a).value + step(b).value)
  {
    var ks := [a, b];
    assert ks[..1] == [a] && ks[..1][..0] == [];
    assert Collect(step, [a]) == Done([] + step(a).value);
    assert [] + step(a).value == step(a).value;
  }

  lemma TwoBlocks(brand: string, t: Table)
    requires !IsEmpty(t)
    ensures var m := MarkerRow(brand, |t.headers|);
      && BrandFrames(brand, [t, t]) == [[m], t.rows, [m], t.rows]
      && Flatten(BrandFrames(brand, [t, t])) == [m] + t.rows + [m] + t.rows
  {
    var m := MarkerRow(brand, |t.headers|);
    var ts := [t, t];
    assert ts[..1] == [t] && ts[..1][..0] == [];
    assert Block(brand, t) == [[m], t.rows];
    assert BrandFrames(brand, ts[..1]) == [] + [[m], t.rows];
    var fs := BrandFrames(brand, ts);
    assert fs == [[m], t.rows] + [[m], t.rows];
    FlattenAppend([[m], t.rows], [[m], t.rows]);
    assert [[m], t.rows] == [[m]] + [t.rows];
    FlattenAppend([[m]], [t.rows]);
    FlattenSingleton([m]);
    FlattenSingleton(t.rows);
  }

  /** The outcome of a run over a single brand that adds frames `fs`. */
  lemma SingleBrandRun(web: Web, url: Url, fuel: nat, fs: seq<seq<Row>>)
    requires LandingFrames(web, url, fuel) == Done(fs) && fs != []
    ensures ScraperOutcome(web, [url], fuel) == Done(Saved(Flatten(fs)))
  {
    var step := Landing(web, fuel);
    assert step(url) == Done(fs);
    assert [url][..0] == [];
    assert Collect(step, [url]) == Done([] + fs);
    assert [] + fs == fs;
  }

  /** A brand whose landing page lists two sub-catalogs, each one page with
      a non-empty table and no next control, yields its marker and rows
      twice, in link order. */
  lemma TwoLinkBrand(web: Web, u: Url, l1: Url, l2: Url, p: Page, t: Table, fuel: nat)
    requires fuel >= 1
    requires u in web && web[u].subseries == [Linked(l1), Linked(l2)]
    requires SiteOrigin + l1 in web && web[SiteOrigin + l1] == p
    requires SiteOrigin + l2 in web && web[SiteOrigin + l2] == p
    requires p.next == None && TableOf(p.table) == Some(t) && !IsEmpty(t)
    ensures var m := MarkerRow(ExtractBrandName(u), |t.headers|);
      ScraperOutcome(web, [u], fuel) == Done(Saved([m] + t.rows + [m] + t.rows))
  {
    TwoLinks(l1, l2);
    assert NextStep(p.next) == Stop;
    WalkSinglePage(web, SiteOrigin + l1, fuel);
    WalkSinglePage(web, SiteOrigin + l2, fuel);
    TwoWalks(web, l1, l2, t, fuel);
    var brand := ExtractBrandName(u);
    TwoBlocks(brand, t);
    var fs := BrandFrames(brand, [t, t]);
    assert LandingFrames(web, u, fuel) == Done(fs);
    SingleBrandRun(web, u, fuel, fs);
  }

  lemma SixRows(t: Table)
    requires t == Table(["A", "B"], [["1", "2"], ["3", "4"]])
    ensures var m := MarkerRow("Garrett", |t.headers|);
      [m] + t.rows + [m] + t.rows
        == [["Garrett", ""], ["1", "2"], ["3", "4"], ["Garrett", ""], ["1", "2"], ["3", "4"]]
  {
    assert MarkerRow("Garrett", 2) == ["Garrett", ""];
  }

  /** The scenario with a brand URL labelled "Garrett" (such as the
      `catalogs/garrett/` URL of `GarrettExample`) and a table with a header
      row and two data rows: two markers and four rows. */
  lemma SixRowExample(web: Web, u: Url, l1: Url, l2: Url, p: Page, fuel: nat)
    requires fuel >= 1 && ExtractBrandName(u) == "Garrett"
    requires u in web && web[u].subseries == [Linked(l1), Linked(l2)]
    requires SiteOrigin + l1 in web && web[SiteOrigin + l1] == p
    requires SiteOrigin + l2 in web && web[SiteOrigin + l2] == p
    requires p.next == None && p.table == Some(HtmlTable(["A", "B"], [[], [" 1 ", "2"], ["3", "4"]]))
    ensures ScraperOutcome(web, [u], fuel)
      == Done(Saved([["Garrett", ""], ["1", "2"], ["3", "4"], ["Garrett", ""], ["1", "2"], ["3", "4"]]))
  {
    var t := Table(["A", "B"], [["1", "2"], ["3", "4"]]);
    TableRowsExample();
    TwoLinkBrand(web, u, l1, l2, p, t, fuel);
    SixRows(t);
  }
}

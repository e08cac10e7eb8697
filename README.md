# Turbomaster catalog scraper, modelled in Dafny

The scraper `main.py` visits a fixed list of brand catalog URLs on
turbomaster.com. For each brand it works in four steps:

- It takes the brand label from the URL (`extract_brand_name`).
- It collects the sub-series links on the brand's landing page (`find_subseries_links`).
- It walks each sub-series table across its "next" pages (`scrape_paginated_table`, with `scrape_table` on every page).
- It appends the brand's results to one spreadsheet. Each non-empty result gets a marker row naming the brand.

The spreadsheet is written only when something was collected.

The model keeps the website abstract, as a map from URL to page (`Html.Web`).
A page holds three things:

- the sub-series elements, each with an optional anchor carrying an optional `href`;
- the optional `table_id` table, as header texts plus one cell list per `tr`;
- the optional next control, as its class tokens and an optional `href`.

Fetching a URL is a lookup in this map. A URL that is missing from the map is a failed fetch. As in the source, a failure ends the whole run (`Outcomes.Outcome`).

The files are:

- `seqs.dfy`: filter, map and flatten on sequences.
- `outcomes.dfy`: the `Option` and `Outcome` types.
- `text.dfy`: Python's `str.strip` and `str.capitalize`.
- `html.dfy`: pages and tables.
- `brand.dfy`: brand labels.
- `extract.dfy`: the two extractors.
- `pagination.dfy`: the walker.
- `aggregate.dfy`: the body of `main`.

Each loop of the source is a method proved equal to a specification function. The properties of the source are then proved about that function:

- `FindSubseriesLinks` and `ScrapeTable` are each a `while` loop.
- `ScrapePaginatedTable` is a `while true` loop with `break`.
- `ScrapeBrand` and `RunScraper` are the nested `for` loops of `main`.

## Model

| member | source | states |
|---|---|---|
| Text.Strip | main.py:42 | The result is a slice of the input that starts after the leading whitespace. Only whitespace follows it. It has no whitespace at either end. Whitespace is Python's per-character set. |
| Text.StripUnpadded | main.py:42 | Text that neither starts nor ends with whitespace is left unchanged by stripping. |
| Text.StripIdempotent | main.py:42 | Stripping an already stripped cell changes nothing. |
| Text.StripSpaced | main.py:42 | One space on each side of unpadded text is removed, and nothing else is. |
| Text.Capitalize | main.py:73 | The result has the same length and the same letters ignoring case. Characters that are not letters are unchanged. The first character is not lower case, and no later character is upper case. |
| Brand.MatchUnique | main.py:72 | At a given position the pattern `/catalogs/([^/]+)/` matches at most one segment. |
| Brand.Search | main.py:72 | The search finds the leftmost match of the pattern. It reports none exactly when no position matches. |
| Brand.ExtractBrandName | main.py:71-73 | The label is never empty. |
| Brand.BrandNameSpec | main.py:71-73 | The label is the capitalized segment of the leftmost `/catalogs/<seg>/` match. It is "Unknown" when no position matches. |
| Brand.BrandIgnoresPrefix | main.py:72 | A prefix that holds no match up to where it ends does not change the label. |
| Brand.SiteCatalogBrand | main.py:106-117 | A configured URL `https://www.turbomaster.com/eng/catalogs/<seg>/` with a slash-free, non-empty `seg` gets `seg` capitalized as its label. |
| Brand.GarrettExample | main.py:114 | `.../catalogs/garrett/` gives "Garrett". |
| Brand.BoschMahleExample | main.py:107 | `.../catalogs/bosch-mahle/` gives "Bosch-mahle". |
| Brand.UnterminatedSegmentBrand | main.py:72-73 | A catalog path whose segment has no closing `/` gives "Unknown". |
| Brand.NoMarkerBrand | main.py:71-73 | Any URL in which `/catalogs/` occurs nowhere gets "Unknown". |
| Brand.SiteRootExample | main.py:73 | The site root `https://www.turbomaster.com/eng/` gets "Unknown". |
| Extract.SubseriesHrefs | main.py:17-25 | Collecting the links either finishes or fails with a missing `href`, and no other failure occurs. A finished collection has at most one link per element. |
| Extract.SubseriesHrefsSpec | main.py:17-25 | The links finish exactly when every element that has an anchor has an `href`; the only failure is a missing `href`. The links are the hrefs of the anchored elements, in document order, with duplicates kept. There are at most as many links as elements. |
| Extract.SubseriesHrefsFailurePersists | main.py:21-23 | After an anchor without `href`, later elements do not change the outcome. |
| Extract.FindSubseriesLinks | main.py:17-25 | The loop returns the specified links, or the failure. |
| Extract.DataRowsSpec | main.py:38-42 | The rows are the `tr`s that have at least one `td`, in order, each given as its stripped cell texts. A `tr` without `td` is dropped, not kept as an empty row. |
| Extract.TableOf | main.py:28-44 | The table is reported missing exactly when the page has none. A found table keeps the `th` texts as headers. It has at most as many rows as `tr`s, and no row is empty. |
| Extract.TableOfSpec | main.py:28-44 | The result is "not found" exactly when the page has no table; a table without rows is still found. The headers are the `th` texts, unstripped. Every row has one cell per header, and there are at most as many rows as `tr`s. |
| Extract.ScrapeTable | main.py:28-44 | The loop returns the specified table. |
| Extract.ScrapeTableExample | main.py:39-42 | A header `tr` without `td` is skipped and cell text is stripped. |
| Extract.TableRowsExample | main.py:38-44 | A table with a `th`-only row and two data rows gives exactly the two stripped data rows. |
| Pagination.NextStep | main.py:57-62 | The walk stops exactly when the control is absent or has the `disabled` class. A control that is present and enabled but has no `href` is a missing-`href` failure. Otherwise the walk follows the control's `href`. |
| Pagination.Chain | main.py:51-62 | A finished walk visits between 1 and `fuel` pages. The first one is the start URL, and every one was fetched. |
| Pagination.ChainSound | main.py:51-62 | In a finished walk each visited page's control leads to the next visited page. The last page's control is absent or disabled. |
| Pagination.ChainComplete | main.py:51-62 | Every such chain that fits in the fuel is exactly the pages the walk visits. |
| Pagination.ChainFuelMonotone | main.py:51-62 | More fuel never changes a walk that did not run out of fuel. |
| Pagination.SelfLinkNeverStops | main.py:51-62 | A page whose next control links to itself makes the walk run out of fuel for every amount of fuel. The source has no cycle detection there. |
| Pagination.FoundTablesRows | main.py:53-55 | The rows of the collected tables are the visited pages' rows in visit order. |
| Pagination.FoundTablesFirst | main.py:53-55 | No table is collected exactly when no visited page has one. The first collected table is that of the first visited page that has a table. |
| Pagination.Concat | main.py:64-65 | The combined table has the first table's headers. Its rows are empty exactly when every input table has no rows. |
| Pagination.Walk | main.py:47-68 | The walk result exists exactly when the visit chain finishes; otherwise the chain's failure or fuel exhaustion is passed on. A finished walk's last URL is a fetched page whose control says stop. |
| Pagination.WalkSpec | main.py:47-68 | The result rows are the rows of every visited page, concatenated in visit order. They are empty exactly when every visited page contributes no rows. With no table anywhere the result is the empty table. The headers are those of the first page with a table. The URL left in `url` is the last visited page, whose control stops the walk. |
| Pagination.WalkSinglePage | main.py:51-65 | A page whose control is absent or disabled yields exactly that page's table, even on the first page. |
| Pagination.BeforeVisit | main.py:51-52 | A walk whose fuel is used up runs out of fuel. A walk that reaches a URL that cannot be fetched fails with that URL. |
| Pagination.AfterVisit | main.py:57-62 | After a page is visited, an absent or disabled control ends the walk with that page last. An enabled control without `href` fails the walk. Otherwise the walk goes on from the `href` with one page less of fuel. |
| Pagination.ScrapePaginatedTable | main.py:47-68 | The loop returns the specified walk result, or the failure. |
| Html.IsEmpty | main.py:89 | A result is empty exactly when it holds no cell, which is when its row count times its column count is zero. |
| Aggregate.MarkerRow | main.py:91 | The marker row has the result's width, the brand in column 0 and blanks elsewhere. |
| Aggregate.BrandFramesSpec | main.py:89-93 | A brand contributes, for its i-th non-empty result in link order, a marker frame and then that result's rows. Empty results contribute nothing. |
| Aggregate.BrandRowCount | main.py:85-93 | A brand's row count is the number of its non-empty results plus their rows. |
| Aggregate.BrandFramesEmpty | main.py:89 | A brand contributes nothing exactly when every one of its walks came back empty. |
| Aggregate.BrandFramesNonEmpty | main.py:91-93 | Every frame a brand adds holds at least one row. |
| Aggregate.WalkAllSpec | main.py:85-88 | A brand's walks all finish exactly when each walk of `https://www.turbomaster.com` + link finishes. There is then one result per link, in link order. |
| Aggregate.LandingFrames | main.py:79-93 | A brand whose landing page cannot be fetched fails with that URL. One whose landing page has an anchor without `href` fails with a missing `href`. Every frame a brand adds holds at least one row. |
| Aggregate.CollectDone | main.py:79-93 | A run finishes exactly when every brand does. |
| Aggregate.CollectAppend | main.py:79-93 | Brand order is kept: running `a + b` gives the output for `a` and then the output for `b`. |
| Aggregate.CollectNil | main.py:79-93 | A run collects nothing exactly when every brand adds nothing. |
| Aggregate.CollectFailurePersists | main.py:79-82 | After a failed brand, later brands do not change the outcome. |
| Aggregate.ScraperOutcome | main.py:95-102 | `main` finishes exactly when the brand loop does, and a failure is passed on. It gives "no data" exactly when the loop collected no frame at all. |
| Aggregate.ScraperOutcomeSpec | main.py:95-102 | Tells a saved spreadsheet apart from the "no data" warning. "No data" happens exactly when every brand adds nothing, including for an empty URL list. The run finishes exactly when every brand does. A saved spreadsheet is never empty. |
| Aggregate.ScrapeBrand | main.py:80-93 | One iteration of the brand loop returns the specified frames, or the failure. |
| Aggregate.RunScraper | main.py:76-102 | `main` ends with the specified outcome. |
| Aggregate.TwoLinkBrand | main.py:79-97 | A brand whose two sub-catalogs are single pages with the same non-empty table and no next control yields marker, rows, marker, rows. |
| Aggregate.SixRowExample | main.py:76-102 | With a header row and two data rows, that brand yields six rows: two markers and four data rows. |

## Left out

- Network I/O (`get_soup`, `requests.get`, `raise_for_status`): a fetch is a map lookup. An unknown URL ends the run with a fetch error, just as the raised exception would.
- BeautifulSoup matching (the class strings of the sub-series `div`s and of the next control, `find('a')`, `find_all('th'/'tr'/'td')`, `.text`): these are given directly as page fields.
- Text.Capitalize: models ASCII letters only, because Unicode case mapping is not available. Characters outside ASCII are left unchanged.
- Extract.ScrapeTable: requires every kept row to have as many cells as there are headers. The DataFrame constructor is less strict. It pads rows narrower than the widest row with missing values, and raises only when the widest row does not have one cell per header, which includes the case where every row is narrower. Padding is not modelled, and tables that need it are excluded.
- Pagination.ScrapePaginatedTable: `pd.concat` aligns columns by label. The model takes the first table's headers and concatenates the rows, so it assumes that every page has the same headers.
- Aggregate.RunScraper: returns the data rows that the spreadsheet would hold. Writing `scraped_data.xlsx` (`to_excel`) is not modelled. That includes the header row of column labels it writes, which `Report` does not carry.
- Aggregate.RunScraper: the final `pd.concat(all_data, ignore_index=True)` is modelled as positional concatenation of the frames' rows. This assumes every non-empty result, across all brands and sub-catalogs, has the same column labels. pandas aligns columns by label and would fill missing columns with blanks.
- Aggregate.RunScraper: the brand loop's body is the separate method `ScrapeBrand`, which returns that brand's frames. The outer loop appends them, so `all_data` ends up the same as in the source.
- Pagination.Chain: takes a `fuel` bound on the number of pages fetched and returns `OutOfFuel` when the bound is reached. The source has no cycle detection and would loop forever on a cycle of next links.
- Logging is not modelled. The one exception is the URL that the "No data found" warning reports. The code logs the variable `url` after the loop, which by then is the last visited page. It is not the chain's starting URL, so this model follows the code and exposes it as `lastUrl`.
- The unused `page` counter.
- The configured URL list is not modelled as data. Its shape, `https://www.turbomaster.com/eng/catalogs/<seg>/`, is covered by Brand.SiteCatalogBrand.
- Regular expressions in general: only the one pattern `/catalogs/([^/]+)/` is modelled, as a hand-written scan.

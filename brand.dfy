/** The brand label of a catalog URL: `extract_brand_name` in main.py, which
    runs `re.search(r'/catalogs/([^/]+)/', url)` and capitalizes group 1. */
module Brand {
  import opened Outcomes
  import opened Text

  const CatalogsMarker: string := "/catalogs/"
  const UnknownBrand: string := "Unknown"

  /** The pattern matches `url` at position `i` with `seg` as its group:
      `/catalogs/`, then a non-empty run of characters other than `/`, then `/`. */
  predicate MatchesAt(url: string, i: nat, seg: string)
  {
    && |seg| > 0
    && (forall k :: 0 <= k < |seg| ==> seg[k] != '/')
    && i + |CatalogsMarker| + |seg| < |url|
    && url[i..i + |CatalogsMarker|] == CatalogsMarker
    && url[i + |CatalogsMarker|..i + |CatalogsMarker| + |seg|] == seg
    && url[i + |CatalogsMarker| + |seg|] == '/'
  }

  /** The leftmost match, the one `re.search` reports: a match at `i` and none
      at any earlier position. */
  ghost predicate FirstMatchAt(url: string, i: nat, seg: string)
  {
    MatchesAt(url, i, seg) && NoMatchBefore(url, i)
  }

  /** No match starts before position `n`. */
  ghost predicate NoMatchBefore(url: string, n: nat)
  {
    forall j: nat, s :: j < n ==> !MatchesAt(url, j, s)
  }

  /** The first `/` at or after `j`, or the end of `url`. */
  function SegmentEnd(url: string, j: nat): (e: nat)
    requires j <= |url|
    ensures j <= e <= |url|
    ensures forall k :: j <= k < e ==> url[k] != '/'
    ensures e < |url| ==> url[e] == '/'
    decreases |url| - j
  {
    if j == |url| || url[j] == '/' then j else SegmentEnd(url, j + 1)
  }

  /** A match at `i` ends at the first `/` after the marker. */
  lemma {:induction false} MatchEndsSegment(url: string, i: nat, seg: string)
    requires MatchesAt(url, i, seg)
    ensures SegmentEnd(url, i + |CatalogsMarker|) == i + |CatalogsMarker| + |seg|
  {
    var b := i + |CatalogsMarker|;
    assert forall k :: b <= k < b + |seg| ==> url[k] == seg[k - b];
  }

  /** At one position the pattern has at most one group: `[^/]+` must run up
      to the next `/`. */
  lemma MatchUnique(url: string, i: nat, s1: string, s2: string)
    requires MatchesAt(url, i, s1) && MatchesAt(url, i, s2)
    ensures s1 == s2
  {
    MatchEndsSegment(url, i, s1);
    MatchEndsSegment(url, i, s2);
  }

  /** What a match at `i` says about the text after position `i`. */
  lemma MatchAtFacts(url: string, i: nat)
    ensures forall seg :: MatchesAt(url, i, seg) ==>
      && i + |CatalogsMarker| <= |url|
      && url[i..i + |CatalogsMarker|] == CatalogsMarker
      && SegmentEnd(url, i + |CatalogsMarker|) == i + |CatalogsMarker| + |seg|
  {
    forall seg | MatchesAt(url, i, seg)
      ensures SegmentEnd(url, i + |CatalogsMarker|) == i + |CatalogsMarker| + |seg|
    {
      MatchEndsSegment(url, i, seg);
    }
  }

  /** The marker at `i` followed by a non-empty run that a `/` closes is a match. */
  lemma MatchAtSegment(url: string, i: nat)
    requires i + |CatalogsMarker| <= |url| && url[i..i + |CatalogsMarker|] == CatalogsMarker
    requires i + |CatalogsMarker| < SegmentEnd(url, i + |CatalogsMarker|) < |url|
    ensures MatchesAt(url, i, url[i + |CatalogsMarker|..SegmentEnd(url, i + |CatalogsMarker|)])
  {
    var b := i + |CatalogsMarker|;
    var e := SegmentEnd(url, b);
    assert forall k :: 0 <= k < e - b ==> url[b..e][k] == url[b + k];
  }

  /** The group of a match at `i`, if the pattern matches there. */
  function MatchAt(url: string, i: nat): (r: Option<string>)
    ensures r.Some? ==> MatchesAt(url, i, r.value)
    ensures r.None? ==> forall seg :: !MatchesAt(url, i, seg)
  {
    var b := i + |CatalogsMarker|;
    if b <= |url| && url[i..b] == CatalogsMarker then
      var e := SegmentEnd(url, b);
      if b < e < |url| then
        MatchAtSegment(url, i);
        Some(url[b..e])
      else
        MatchAtFacts(url, i);
        None
    else
      MatchAtFacts(url, i);
      None
  }

  datatype Match = Match(start: nat, segment: string)

  /** The leftmost match at or after position `i`. */
  function SearchFrom(url: string, i: nat): (r: Option<Match>)
    ensures r.Some? ==> i <= r.value.start && MatchesAt(url, r.value.start, r.value.segment)
    ensures r.Some? ==> forall j: nat, s :: i <= j < r.value.start ==> !MatchesAt(url, j, s)
    ensures r.None? ==> forall j: nat, s :: i <= j ==> !MatchesAt(url, j, s)
    decreases |url| - i
  {
    if i >= |url| then None
    else match MatchAt(url, i)
      case Some(seg) => Some(Match(i, seg))
      case None => SearchFrom(url, i + 1)
  }

  /** `re.search`: the leftmost match anywhere in `url`. */
  function Search(url: string): (r: Option<Match>)
    ensures r.Some? ==> FirstMatchAt(url, r.value.start, r.value.segment)
    ensures r.None? ==> forall j: nat, s :: !MatchesAt(url, j, s)
  {
    SearchFrom(url, 0)
  }

  /** `extract_brand_name(url)`; never empty, so a marker row always names a brand. */
  function ExtractBrandName(url: string): (r: string)
    ensures |r| > 0
  {
    match Search(url)
    case Some(m) => Capitalize(m.segment)
    case None => UnknownBrand
  }

  /** `re.search` reports the leftmost match. */
  lemma SearchFindsFirstMatch(url: string, i: nat, seg: string)
    requires FirstMatchAt(url, i, seg)
    ensures Search(url) == Some(Match(i, seg))
  {
    var m := Search(url).value;
    assert m.start == i;
    MatchUnique(url, i, seg, m.segment);
  }

  /** The label is the capitalized group of the leftmost match, and the
      sentinel when the pattern matches nowhere. */
  lemma BrandNameSpec(url: string)
    ensures forall i: nat, seg :: FirstMatchAt(url, i, seg) ==> ExtractBrandName(url) == Capitalize(seg)
    ensures (forall i: nat, seg :: !MatchesAt(url, i, seg)) ==> ExtractBrandName(url) == UnknownBrand
  {
    forall i: nat, seg | FirstMatchAt(url, i, seg)
      ensures ExtractBrandName(url) == Capitalize(seg)
    {
      SearchFindsFirstMatch(url, i, seg);
    }
  }

  /** Matching does not depend on what precedes the matched text. */
  lemma ShiftMatch(a: string, b: string, j: nat, seg: string)
    ensures MatchesAt(a + b, |a| + j, seg) <==> MatchesAt(b, j, seg)
  {
    var n := |CatalogsMarker|;
    if j + n + |seg| < |b| {
      assert (a + b)[|a| + j..|a| + j + n] == b[j..j + n];
      assert (a + b)[|a| + j + n..|a| + j + n + |seg|] == b[j + n..j + n + |seg|];
    }
  }

  /** A prefix of the URL that holds no match start does not change the label. */
  lemma BrandIgnoresPrefix(a: string, b: string)
    requires NoMatchBefore(a + b, |a|)
    ensures ExtractBrandName(a + b) == ExtractBrandName(b)
  {
    if Search(b).Some? {
      ShiftedFirstMatch(a, b, Search(b).value);
    } else if Search(a + b).Some? {
      var m := Search(a + b).value;
      ShiftMatch(a, b, m.start - |a|, m.segment);
      assert false;
    }
  }

  /** The leftmost match of `b` is, shifted, the leftmost one of `a + b`. */
  lemma ShiftedFirstMatch(a: string, b: string, m: Match)
    requires NoMatchBefore(a + b, |a|)
    requires FirstMatchAt(b, m.start, m.segment)
    ensures Search(a + b) == Some(Match(|a| + m.start, m.segment))
  {
    ShiftMatch(a, b, m.start, m.segment);
    forall j: nat, seg | |a| <= j < |a| + m.start ensures !MatchesAt(a + b, j, seg) {
      ShiftMatch(a, b, j - |a|, seg);
    }
    assert FirstMatchAt(a + b, |a| + m.start, m.segment);
    SearchFindsFirstMatch(a + b, |a| + m.start, m.segment);
  }

  /** No match starts inside a piece without a `/`, since a match starts with one. */
  lemma SlashFreePrefix(a: string, b: string)
    requires '/' !in a
    ensures ExtractBrandName(a + b) == ExtractBrandName(b)
  {
    forall j: nat, seg | j < |a| ensures !MatchesAt(a + b, j, seg) {
      assert (a + b)[j] == a[j];
      if j + |CatalogsMarker| <= |a + b| {
        assert (a + b)[j..j + |CatalogsMarker|][0] == (a + b)[j];
      }
    }
    BrandIgnoresPrefix(a, b);
  }

  /** A `/` that is not followed by `c` does not start a match. */
  lemma LoneSlashPrefix(b: string)
    requires b != [] && b[0] != 'c'
    ensures ExtractBrandName("/" + b) == ExtractBrandName(b)
  {
    if 1 + |CatalogsMarker| <= |"/" + b| {
      assert ("/" + b)[0..|CatalogsMarker|][1] == b[0];
    }
    BrandIgnoresPrefix("/", b);
  }

  /** The label of `/catalogs/<seg>/` on its own. */
  lemma CatalogPathBrand(seg: string, rest: string)
    requires |seg| > 0 && '/' !in seg
    ensures ExtractBrandName(CatalogsMarker + seg + "/" + rest) == Capitalize(seg)
  {
    var tail := CatalogsMarker + seg + "/" + rest;
    assert tail[..|CatalogsMarker|] == CatalogsMarker;
    assert tail[|CatalogsMarker|..|CatalogsMarker| + |seg|] == seg;
    assert tail[|CatalogsMarker| + |seg|] == '/';
    assert FirstMatchAt(tail, 0, seg);
    BrandNameSpec(tail);
  }

  /** The site prefix `https://www.turbomaster.com/eng` holds no match
      start; shown one path piece at a time. */
  lemma PathPrefixBrand(t: string)
    requires t != [] && t[0] == '/'
    ensures ExtractBrandName("/eng" + t) == ExtractBrandName(t)
  {
    SlashFreePrefix("eng", t);
    LoneSlashPrefix("eng" + t);
    assert "/" + ("eng" + t) == "/eng" + t;
  }

  lemma HostPrefixBrand(t: string)
    requires t != [] && t[0] == '/'
    ensures ExtractBrandName("www.turbomaster.com/eng" + t) == ExtractBrandName(t)
  {
    PathPrefixBrand(t);
    SlashFreePrefix("www.turbomaster.com", "/eng" + t);
    assert "www.turbomaster.com" + ("/eng" + t) == "www.turbomaster.com/eng" + t;
  }

  lemma SchemePrefixBrand(t: string)
    requires t != [] && t[0] != 'c' && t[0] != '/'
    ensures ExtractBrandName("//" + t) == ExtractBrandName(t)
  {
    LoneSlashPrefix(t);
    LoneSlashPrefix("/" + t);
    assert "/" + ("/" + t) == "//" + t;
  }

  lemma SiteRootPieces()
    ensures "https:" + "//" + "www.turbomaster.com/eng" == "https://www.turbomaster.com/eng"
  {
  }

  lemma SitePrefixBrand(t: string)
    requires t != [] && t[0] == '/'
    ensures ExtractBrandName("https://www.turbomaster.com/eng" + t) == ExtractBrandName(t)
  {
    var h := "www.turbomaster.com/eng" + t;
    HostPrefixBrand(t);
    SchemePrefixBrand(h);
    SlashFreePrefix("https:", "//" + h);
    SiteRootPieces();
    Regroup("https:", "//", "www.turbomaster.com/eng", t);
  }

  lemma Regroup(a: string, b: string, c: string, t: string)
    ensures a + (b + (c + t)) == a + b + c + t
  {
  }

  /** The label of a catalog URL of the configured site. */
  lemma SiteCatalogBrand(seg: string)
    requires |seg| > 0 && '/' !in seg
    ensures ExtractBrandName("https://www.turbomaster.com/eng" + CatalogsMarker + seg + "/") == Capitalize(seg)
  {
    var t := CatalogsMarker + seg + "/" + "";
    CatalogPathBrand(seg, "");
    SitePrefixBrand(t);
    assert t == CatalogsMarker + seg + "/";
    assert "https://www.turbomaster.com/eng" + t == "https://www.turbomaster.com/eng" + CatalogsMarker + seg + "/";
  }

  lemma GarrettCapitalized()
    ensures Capitalize("garrett") == "Garrett"
  {
  }

  lemma GarrettExample(url: string)
    requires url == "https://www.turbomaster.com/eng" + CatalogsMarker + "garrett" + "/"
    ensures ExtractBrandName(url) == "Garrett"
  {
    SiteCatalogBrand("garrett");
    GarrettCapitalized();
  }

  lemma BoschMahleCapitalized()
    ensures Capitalize("bosch-mahle") == "Bosch-mahle"
  {
  }

  lemma BoschMahleExample(url: string)
    requires url == "https://www.turbomaster.com/eng" + CatalogsMarker + "bosch-mahle" + "/"
    ensures ExtractBrandName(url) == "Bosch-mahle"
  {
    SiteCatalogBrand("bosch-mahle");
    BoschMahleCapitalized();
  }

  /** The group must be followed by `/`: a catalog path that stops after the
      segment has no match, so the label is the sentinel. */
  lemma UnterminatedSegmentBrand(seg: string)
    requires '/' !in seg
    ensures ExtractBrandName(CatalogsMarker + seg) == UnknownBrand
  {
    var url := CatalogsMarker + seg;
    forall j: nat, s ensures !MatchesAt(url, j, s) {
      var k := j + |CatalogsMarker| + |s|;
      if k < |url| {
        assert k >= |CatalogsMarker| && url[k] == seg[k - |CatalogsMarker|];
      }
    }
    BrandNameSpec(url);
  }

  /** `/catalogs/` occurs in `url` at position `i`. */
  predicate MarkerAt(url: string, i: nat)
  {
    i + |CatalogsMarker| <= |url| && url[i..i + |CatalogsMarker|] == CatalogsMarker
  }

  /** A URL in which `/catalogs/` occurs nowhere gets the sentinel label. */
  lemma NoMarkerBrand(url: string)
    requires forall i: nat :: !MarkerAt(url, i)
    ensures ExtractBrandName(url) == UnknownBrand
  {
    forall i: nat, seg | MatchesAt(url, i, seg) ensures false {
      assert MarkerAt(url, i);
    }
    BrandNameSpec(url);
  }

  lemma SiteRootExample(url: string)
    requires url == "https://www.turbomaster.com/eng/"
    ensures ExtractBrandName(url) == UnknownBrand
  {
    SitePrefixBrand("/");
    BrandNameSpec("/");
    assert url == "https://www.turbomaster.com/eng" + "/";
  }

  lemma UnterminatedExample(url: string)
    requires url == "https://www.turbomaster.com/eng" + CatalogsMarker + "garrett"
    ensures ExtractBrandName(url) == UnknownBrand
  {
    var t := CatalogsMarker + "garrett";
    UnterminatedSegmentBrand("garrett");
    SitePrefixBrand(t);
    assert url == "https://www.turbomaster.com/eng" + t;
  }
}

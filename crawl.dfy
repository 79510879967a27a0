/**
 * The data-shaping half of the crawl. The network, the HTML parsing and the
 * browser are outside the model: their results arrive as sequences.
 *  - The country-page links of the network index become a location name
 *    and a page URL each (string slicing with `str.find`).
 *  - Each country page, once loaded, yields city names and camera links,
 *    merged pairwise into the running lists of all locations.
 */
module Crawl {
  import opened Text

  const NetworkPrefix: string := "https://earthcam.com/network/?"

  /** The index link that points at no country, skipped by the loop. */
  const NullCountryLink: string := "index.php?page=world&country="

  /** A link to a United States state page rather than to a world country page. */
  predicate IsUsLink(link: string) {
    HasSubstring(link, "country=us&")
  }

  /** The location name a country link contributes to `loc_names`. */
  function LocationName(link: string): string {
    if !IsUsLink(link) then SliceFrom(link, Find(link, "country=") + 8)
    else SliceFrom(link, Find(link, "page=") + 5) + ", United States"
  }

  /** The page URL a country link contributes to `full_links`. */
  function PageUrl(link: string): string {
    if !IsUsLink(link) then NetworkPrefix + SliceFrom(link, Find(link, "country="))
    else NetworkPrefix + SliceFrom(link, Find(link, "page=")) + "&" + Slice(link, Find(link, "country="), Find(link, "&page="))
  }

  /** For a world link, the name is the text after the first "country=" and the URL keeps "country=" onwards. */
  lemma WorldLink(link: string)
    requires !IsUsLink(link) && Find(link, "country=") >= 0
    ensures var i := Find(link, "country=");
      LocationName(link) == link[i + 8..] && PageUrl(link) == NetworkPrefix + link[i..]
  {
  }

  /**
   * A world link without "country=" is still sliced: `find` gives -1, so the
   * name is everything from index 7 and the URL keeps only the last character.
   */
  lemma WorldLinkWithoutCountry(link: string)
    requires !HasSubstring(link, "country=") && |link| >= 7
    ensures !IsUsLink(link)
    ensures LocationName(link) == link[7..]
    ensures PageUrl(link) == NetworkPrefix + [link[|link| - 1]]
  {
    if IsUsLink(link) {
      var j := Find(link, "country=us&");
      assert link[j..j + 8] == link[j..j + 11][..8];
      assert OccursAt(link, "country=", j);
      assert false;
    }
    assert Find(link, "country=") == -1;
    assert LocationName(link) == SliceFrom(link, 7);
    assert PageUrl(link) == NetworkPrefix + SliceFrom(link, -1);
  }

  /**
   * For a United States link with "&page=" after "country=", the name is the
   * text after the first "page=" plus ", United States", and the URL is the
   * page part followed by "&" and the country part.
   */
  lemma UsLink(link: string)
    requires IsUsLink(link)
    requires 0 <= Find(link, "page=") && 0 <= Find(link, "country=") <= Find(link, "&page=")
    ensures var p, c, q := Find(link, "page="), Find(link, "country="), Find(link, "&page=");
      LocationName(link) == link[p + 5..] + ", United States" &&
      PageUrl(link) == NetworkPrefix + link[p..] + "&" + link[c..q]
  {
  }

  /**
   * `links` without the null country link, in order. Every other link is kept
   * as often as it occurs; the order is `WithoutNullLinkAppend`.
   */
  function WithoutNullLink(links: seq<string>): (kept: seq<string>)
    ensures |kept| <= |links|
    ensures forall l :: l in kept <==> l in links && l != NullCountryLink
    ensures multiset(kept) == multiset(links)[NullCountryLink := 0]
    ensures NullCountryLink !in links ==> kept == links
  {
    if links == [] then []
    else
      var last := links[|links| - 1];
      var before := WithoutNullLink(links[..|links| - 1]);
      assert links == links[..|links| - 1] + [last];
      if last != NullCountryLink then before + [last] else before
  }

  /** Filtering a concatenation filters each half and keeps their order. */
  lemma {:induction false} WithoutNullLinkAppend(a: seq<string>, b: seq<string>)
    ensures WithoutNullLink(a + b) == WithoutNullLink(a) + WithoutNullLink(b)
  {
    if b != [] {
      var n := |b| - 1;
      WithoutNullLinkAppend(a, b[..n]);
      assert (a + b)[..|a + b| - 1] == a + b[..n];
    }
    else {
      assert a + b == a;
    }
  }

  /**
   * The links the index loop keeps. The "Russia" test is on the whole list,
   * not on the link: when the list holds the exact string "Russia" no link is
   * kept at all.
   */
  function KeptLinks(hrefs: seq<string>): (kept: seq<string>)
    ensures "Russia" in hrefs ==> kept == []
    ensures forall l :: l in kept ==> l in hrefs && l != NullCountryLink
    ensures "Russia" !in hrefs && NullCountryLink !in hrefs ==> kept == hrefs
  {
    if "Russia" in hrefs then [] else WithoutNullLink(hrefs)
  }

  /** The location names of `links`, one per link. */
  function NamesOfLinks(links: seq<string>): (names: seq<string>)
    ensures |names| == |links|
    ensures forall k :: 0 <= k < |links| ==> names[k] == LocationName(links[k])
  {
    seq(|links|, k requires 0 <= k < |links| => LocationName(links[k]))
  }

  /** The page URLs of `links`, one per link. */
  function UrlsOfLinks(links: seq<string>): (urls: seq<string>)
    ensures |urls| == |links|
    ensures forall k :: 0 <= k < |links| ==> urls[k] == PageUrl(links[k])
  {
    seq(|links|, k requires 0 <= k < |links| => PageUrl(links[k]))
  }

  /** Naming one more link appends its name and its URL. */
  lemma OneMoreLink(links: seq<string>, link: string)
    ensures NamesOfLinks(links + [link]) == NamesOfLinks(links) + [LocationName(link)]
    ensures UrlsOfLinks(links + [link]) == UrlsOfLinks(links) + [PageUrl(link)]
  {
  }

  /** The `loc_names` list built from the index links. */
  function Regions(hrefs: seq<string>): (names: seq<string>)
    ensures |names| == |KeptLinks(hrefs)|
  {
    NamesOfLinks(KeptLinks(hrefs))
  }

  /** The `full_links` list built from the index links. */
  function PageUrls(hrefs: seq<string>): (urls: seq<string>)
    ensures |urls| == |KeptLinks(hrefs)|
  {
    UrlsOfLinks(KeptLinks(hrefs))
  }

  /** Keeping one more link appends it unless it is the null country link. */
  lemma KeepOneMore(hrefs: seq<string>, i: nat)
    requires i < |hrefs|
    ensures WithoutNullLink(hrefs[..i + 1]) ==
      WithoutNullLink(hrefs[..i]) + (if hrefs[i] != NullCountryLink then [hrefs[i]] else [])
  {
    assert hrefs[..i + 1][..i] == hrefs[..i];
  }

  /** The loop over the index links that fills `loc_names` and `full_links`. */
  method ExtractCountryPages(hrefs: seq<string>) returns (locNames: seq<string>, fullLinks: seq<string>)
    ensures locNames == Regions(hrefs) && fullLinks == PageUrls(hrefs)
    ensures |locNames| == |fullLinks|
  {
    locNames, fullLinks := [], [];
    ghost var kept: seq<string> := [];
    for i := 0 to |hrefs|
      invariant kept == if "Russia" in hrefs then [] else WithoutNullLink(hrefs[..i])
      invariant locNames == NamesOfLinks(kept) && fullLinks == UrlsOfLinks(kept)
    {
      var link := hrefs[i];
      KeepOneMore(hrefs, i);
      if "Russia" !in hrefs && link != NullCountryLink {
        OneMoreLink(kept, link);
        locNames := locNames + [LocationName(link)];
        fullLinks := fullLinks + [PageUrl(link)];
        kept := kept + [link];
      }
    }
    assert hrefs[..|hrefs|] == hrefs;
  }

  /** What the browser gives for one country page. */
  datatype PageFetch =
    | Loaded(cities: seq<string>, camLinks: seq<string>)  // the page's city names and camera links
    | Crashed                                             // the browser failed on `get`: relaunched, page skipped
    | TimedOut                                            // the page did not finish loading in time

  function Min(a: nat, b: nat): nat {
    if a <= b then a else b
  }

  /** The location names a fetched page contributes: each city name followed by ", " and the region. */
  function PageNames(page: PageFetch, region: string): (names: seq<string>)
    ensures |names| == |PageLinks(page)|
    ensures forall j :: 0 <= j < |names| ==> names[j] == page.cities[j] + ", " + region
  {
    match page
    case Loaded(cities, camLinks) =>
      var m := Min(|cities|, |camLinks|);
      seq(m, j requires 0 <= j < m => cities[j] + ", " + region)
    case _ => []
  }

  /** The camera links a fetched page contributes, as many as it has names for. */
  function PageLinks(page: PageFetch): (links: seq<string>)
    ensures !page.Loaded? ==> links == []
    ensures page.Loaded? ==> links <= page.camLinks && |links| <= |page.cities|
  {
    match page
    case Loaded(cities, camLinks) => camLinks[..Min(|cities|, |camLinks|)]
    case _ => []
  }

  /** The merged names of the pages `pages`, each with the region at its own index. */
  function NamesOf(pages: seq<PageFetch>, regions: seq<string>): (names: seq<string>)
    requires |pages| <= |regions|
    ensures |names| == |LinksOf(pages)|
  {
    if pages == [] then []
    else
      var n := |pages| - 1;
      NamesOf(pages[..n], regions) + PageNames(pages[n], regions[n])
  }

  /** The merged camera links of the pages `pages`. */
  function LinksOf(pages: seq<PageFetch>): seq<string> {
    if pages == [] then [] else LinksOf(pages[..|pages| - 1]) + PageLinks(pages[|pages| - 1])
  }

  /** The index of the first page that timed out, or the number of pages if none did. */
  function FirstTimeout(pages: seq<PageFetch>): (n: nat)
    ensures n <= |pages|
    ensures forall i :: 0 <= i < n ==> !pages[i].TimedOut?
    ensures n < |pages| ==> pages[n].TimedOut?
  {
    if pages == [] || pages[0].TimedOut? then 0 else 1 + FirstTimeout(pages[1..])
  }

  /**
   * The merge of one loaded page (the loops building `l_names_processed` and
   * appending to `every_location_name` / `every_location_link`): exactly
   * `min(#names, #links)` pairs are appended, name `j` suffixed with the region.
   */
  method MergePage(allNames: seq<string>, allLinks: seq<string>, cities: seq<string>, camLinks: seq<string>, region: string)
    returns (names: seq<string>, links: seq<string>)
    ensures var m := Min(|cities|, |camLinks|);
      && |names| == |allNames| + m && names[..|allNames|] == allNames
      && |links| == |allLinks| + m && links[..|allLinks|] == allLinks
      && (forall j :: 0 <= j < m ==> names[|allNames| + j] == cities[j] + ", " + region && links[|allLinks| + j] == camLinks[j])
  {
    var processed: seq<string> := [];
    for j := 0 to |cities|
      invariant |processed| == j
      invariant forall k :: 0 <= k < j ==> processed[k] == cities[k] + ", " + region
    {
      processed := processed + [cities[j] + ", " + region];
    }
    names, links := allNames, allLinks;
    var m := Min(|processed|, |camLinks|);
    for j := 0 to m
      invariant |names| == |allNames| + j && names[..|allNames|] == allNames
      invariant |links| == |allLinks| + j && links[..|allLinks|] == allLinks
      invariant forall k :: 0 <= k < j ==> names[|allNames| + k] == processed[k] && links[|allLinks| + k] == camLinks[k]
    {
      links := links + [camLinks[j]];
      names := names + [processed[j]];
    }
  }

  /** What `MergePage` appends is exactly what the page contributes to the merged lists. */
  lemma MergedPage(allNames: seq<string>, allLinks: seq<string>, cities: seq<string>, camLinks: seq<string>, region: string,
                   names: seq<string>, links: seq<string>)
    requires var m := Min(|cities|, |camLinks|);
      && |names| == |allNames| + m && names[..|allNames|] == allNames
      && |links| == |allLinks| + m && links[..|allLinks|] == allLinks
      && (forall j :: 0 <= j < m ==> names[|allNames| + j] == cities[j] + ", " + region && links[|allLinks| + j] == camLinks[j])
    ensures names == allNames + PageNames(Loaded(cities, camLinks), region)
    ensures links == allLinks + PageLinks(Loaded(cities, camLinks))
  {
    var page := Loaded(cities, camLinks);
    assert names == names[..|allNames|] + names[|allNames|..];
    assert names[|allNames|..] == PageNames(page, region);
    assert links == links[..|allLinks|] + links[|allLinks|..];
    assert links[|allLinks|..] == PageLinks(page);
  }

  /** Merging one more page appends that page's contribution to both lists. */
  lemma MergeOneMore(pages: seq<PageFetch>, regions: seq<string>, i: nat)
    requires i < |pages| <= |regions|
    ensures NamesOf(pages[..i + 1], regions) == NamesOf(pages[..i], regions) + PageNames(pages[i], regions[i])
    ensures LinksOf(pages[..i + 1]) == LinksOf(pages[..i]) + PageLinks(pages[i])
  {
    assert pages[..i + 1][..i] == pages[..i];
  }

  /** Some page timed out exactly when the first timeout lies within the pages. */
  lemma TimeoutFound(pages: seq<PageFetch>)
    ensures FirstTimeout(pages) < |pages| <==> exists i :: 0 <= i < |pages| && pages[i].TimedOut?
  {
    var n := FirstTimeout(pages);
    if n < |pages| {
      assert pages[n].TimedOut?;
    }
  }

  /**
   * The loop over the country pages. A crashed page is skipped (decrementing
   * the loop variable of a Python `for` does not repeat the item); the first
   * page that times out stops the loop and marks the crawl failed.
   */
  method CollectLocations(pages: seq<PageFetch>, regions: seq<string>)
    returns (names: seq<string>, links: seq<string>, failed: bool)
    requires |pages| == |regions|
    ensures failed <==> exists i :: 0 <= i < |pages| && pages[i].TimedOut?
    ensures names == NamesOf(pages[..FirstTimeout(pages)], regions)
    ensures links == LinksOf(pages[..FirstTimeout(pages)])
    ensures |names| == |links|
  {
    names, links, failed := [], [], false;
    var i := 0;
    while i < |pages|
      invariant 0 <= i <= FirstTimeout(pages)
      invariant names == NamesOf(pages[..i], regions) && links == LinksOf(pages[..i])
      invariant !failed
    {
      var page := pages[i];
      if page.TimedOut? {
        failed := true;
        break;
      }
      if page.Loaded? {
        var names', links' := MergePage(names, links, page.cities, page.camLinks, regions[i]);
        MergedPage(names, links, page.cities, page.camLinks, regions[i], names', links');
        names, links := names', links';
      }
      MergeOneMore(pages, regions, i);
      i := i + 1;
    }
    assert i == FirstTimeout(pages) && (failed <==> i < |pages|);
    TimeoutFound(pages);
  }
}

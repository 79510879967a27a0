/**
 * The once-per-session build of the camera registry: index links to
 * country pages, pages to labelled camera links, the cities table to the
 * gazetteer, and the labels to (longitude, URL) entries.
 */
module Session {
  import opened Wrappers
  import opened Gazetteer
  import opened Registry
  import opened Crawl

  /**
   * `pages[i]` is what the browser gave for the `i`-th country page URL.
   * A timed-out page fails the whole build and no registry is made;
   * otherwise the registry is built from every page before it.
   */
  method BuildSession(hrefs: seq<string>, pages: seq<PageFetch>, rows: seq<Row>, lookup: string -> Option<string>)
    returns (registry: Option<seq<CameraEntry>>)
    requires |pages| == |KeptLinks(hrefs)|
    ensures registry.None? <==> exists i :: 0 <= i < |pages| && pages[i].TimedOut?
    ensures registry.Some? ==>
      var crawled := pages[..FirstTimeout(pages)];
      registry.value == RegistryOf(NamesOf(crawled, Regions(hrefs)), LinksOf(crawled), Locate(GazetteerOf(rows), lookup))
  {
    var locNames, fullLinks := ExtractCountryPages(hrefs);
    var names, links, failed := CollectLocations(pages, locNames);
    if failed {
      return None;
    }
    var cities := BuildGazetteer(rows);
    var cams := BuildRegistry(names, links, cities, lookup);
    return Some(cams);
  }
}

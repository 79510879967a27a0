# Always a sunset — geo-matching core in Dafny

"Always a sunset" is a Streamlit page that crawls a network of live outdoor
cameras, works out which longitude the sun is currently rising or setting
over, and links the camera nearest to that line. This project models the
deterministic core of `Always-A-Sunset.py`:

- **Circular longitude distance** (`find_longdist`): `Geo.LongDist`. It is symmetric, handles the ±180° seam and stays within [0, 180] for longitudes in range.
- **Terminator estimator** (`calc_timediff` and the first half of `load_sun_time`): `Terminator`. It has the two fixed 12-entry tables of UTC clock times, the signed time-of-day difference in hours, 15° per hour and a single wrap. The result always lies in [-180, 180].
- **Nearest-camera search** (second half of `load_sun_time`): `Nearest.FindNearest`. It is a loop proved to return the first camera at the minimal circular distance.
- **Place resolver** (`country_to_code`, `get_coords`): `Resolver`. It splits the label on commas, strips the parts and needs at least two of them. The last part goes through the country-name normaliser, and the result is the gazetteer entry under `"city,cc"`. Middle parts are ignored.
- **Gazetteer build** (the `cities` loop): `Gazetteer.BuildGazetteer`. The first row seen for a key wins.
- **Registry build** (the `cam_details` loop): `Registry.BuildRegistry`. It is an order-preserving filter that pairs each resolved longitude with the URL at the same index.
- **Crawl shaping**: `Crawl`. This covers the index-link slicing with `str.find` and its -1 on a miss, the per-page merge of `min(#names, #links)` name/link pairs, and the page loop. In that loop a browser crash skips the page and a timeout stops the build.
- **Session build and lookups**: `Session.BuildSession` and `Lookup`. The buttons report a feed only when `dist * 69 < 250`. "Best" picks sunrise only when it is strictly closer.

Longitudes, hours and distances are exact `real`s. A time of day is an
integer number of microseconds, the resolution of `datetime.time`. The
current UTC instant is a parameter: `Lookup.Instant` holds the month and the
time of day. The cities table arrives as a sequence of `Gazetteer.Row`. The
country-name normaliser is a function parameter `string -> Option<string>`.
The crawler's results arrive as the index links (`hrefs`) and one
`Crawl.PageFetch` per country page.

Four behaviours of the code are easy to misread; the model follows the code:

- A browser crash on a page (lines 96-100) does not retry the page. `i -= 1` inside a Python `for` has no effect, so the page is skipped (`Crawl.PageFetch.Crashed`).
- A page-load timeout (lines 102-110) leaves the session without a registry. The lists collected so far are not turned into cameras (`Session.BuildSession` returns `None`).
- The "Russia" test on line 76 checks the whole list of index links, not the link. If the exact string `"Russia"` is one of the links, no link is kept (`Crawl.KeptLinks`).
- A single wrap is enough for any reference time of day in [00:00, 24:00), not only for the calibrated tables (`Terminator.SingleWrapSuffices`).

## Model

| member | source | states |
|---|---|---|
| Wrappers.Get | Always-A-Sunset.py:171 | `dict.get`: a value exactly when the key is present, and then the stored value |
| Text.Strip | Always-A-Sunset.py:146-147 | `str.strip()` with Python's ASCII whitespace; what it keeps is pinned by `Text.StripKeepsSlice` |
| Text.StripLeftKeepsSuffix | Always-A-Sunset.py:160 | left strip keeps a suffix, drops only whitespace and leaves no leading whitespace |
| Text.StripRightKeepsPrefix | Always-A-Sunset.py:160 | right strip keeps a prefix, drops only whitespace and leaves no trailing whitespace |
| Text.StripKeepsSlice | Always-A-Sunset.py:146-147 | `strip()` keeps a slice `s[i..j]`; everything outside it is whitespace; the result has no whitespace at either end |
| Text.StripTrimmed | Always-A-Sunset.py:160 | a string without surrounding whitespace is unchanged by `strip()` |
| Text.StripIdempotent | Always-A-Sunset.py:156 | stripping again, as `country_to_code` does, changes nothing |
| Text.LowerChar | Always-A-Sunset.py:146-147 | 'A'..'Z' become the matching letter in 'a'..'z'; every other character is kept |
| Text.Lower | Always-A-Sunset.py:146-147 | `lower()` keeps the length and lower-cases each character in place: upper-case ASCII letters become their lower-case counterparts, every other character is kept |
| Text.LowerIdempotent | Always-A-Sunset.py:146-170 | a general property of `lower()`: lower-casing twice is lower-casing once, so a key that is already lower case, such as a stored gazetteer key, is unchanged |
| Text.FindFrom | Always-A-Sunset.py:79-83 | first occurrence at or after a start index, and none before it, or -1 when there is none |
| Text.Find | Always-A-Sunset.py:79-83 | `str.find`: index of the first occurrence and none earlier, or -1 exactly when the pattern occurs nowhere |
| Text.HasSubstringOccurs | Always-A-Sunset.py:78 | `sub in s` holds exactly when `sub` occurs at some index |
| Text.FindChar | Always-A-Sunset.py:160 | for one character, `find` is -1 exactly when the character is absent, otherwise its first index |
| Text.SliceFrom | Always-A-Sunset.py:79-82 | `s[a:]` equals Dafny's `s[a..]` in range, is empty past the end, and counts negative starts from the end |
| Text.Slice | Always-A-Sunset.py:83 | `s[a:b]` equals Dafny's `s[a..b]` for in-range `a <= b` and is never longer than `s` |
| Text.Split | Always-A-Sunset.py:160 | `split(',')` yields at least one part |
| Text.SplitParts | Always-A-Sunset.py:160-161 | no part contains the separator; there are two or more parts exactly when the string contains it |
| Text.SplitNoSeparator | Always-A-Sunset.py:160-162 | a string without the separator splits into itself alone |
| Text.SplitFirst | Always-A-Sunset.py:160 | splitting cuts at the first separator and then splits the rest |
| Text.JoinSplit | Always-A-Sunset.py:160 | joining the parts back with the separator gives the original string |
| Text.SplitJoin | Always-A-Sunset.py:160 | splitting a join of separator-free parts gives those parts back |
| Geo.LongDist | Always-A-Sunset.py:194-198 | distance is non-negative, no more than the direct difference, one of the three candidate differences, and at most 180 for longitudes in [-180, 180] |
| Geo.LongDistSymmetric | Always-A-Sunset.py:194-198 | `find_longdist(a, b) == find_longdist(b, a)` |
| Geo.LongDistZero | Always-A-Sunset.py:194-198 | distance zero exactly when the longitudes coincide or are a full turn apart |
| Geo.LongDistAcrossSeam | Always-A-Sunset.py:194-198 | 179 and -179 are 2 degrees apart, not 358 |
| Geo.LongDistShorterWay | Always-A-Sunset.py:194-198 | in range, the distance is the shorter way round: the direct difference or 360 minus it |
| Terminator.SunTime | Always-A-Sunset.py:200-212 | the table time of the month lies between 04:30 and 21:00; sunrise entries are no later than 08:00 and sunset entries no earlier than 16:00 |
| Terminator.SunriseBeforeSunset | Always-A-Sunset.py:201-208 | every month's sunrise entry is earlier than its sunset entry |
| Terminator.TimeDiffHours | Always-A-Sunset.py:188-192 | signed same-day difference in hours, strictly between -24 and 24, positive exactly when the first time is later |
| Terminator.Wrap | Always-A-Sunset.py:218-222 | changes the value by 0 or one full turn, leaves in-range values alone, and maps [-540, 540] into [-180, 180] |
| Terminator.SingleWrapSuffices | Always-A-Sunset.py:213-222 | for any reference time and time of day, 15 degrees per hour wrapped once lands in [-180, 180] |
| Terminator.TerminatorLongitude | Always-A-Sunset.py:209-222 | 15 × (table time − now) in hours, up to one full turn, and exactly that value when it is already in [-180, 180]; always in [-180, 180] for a single date reading |
| Terminator.TerminatorAtTableTime | Always-A-Sunset.py:214-216 | at the table time itself the terminator is at longitude 0 |
| Terminator.TerminatorMovesWest | Always-A-Sunset.py:214-222 | one hour later the terminator is 15 degrees further west, or 345 east after crossing the seam |
| Gazetteer.GazetteerOf | Always-A-Sunset.py:142-152 | every row's key is in the dictionary |
| Gazetteer.GazetteerKeys | Always-A-Sunset.py:142-152 | the dictionary's keys are exactly the row keys |
| Gazetteer.GazetteerFirstWins | Always-A-Sunset.py:150-152 | each key maps to the latitude and longitude of the earliest row with that key |
| Gazetteer.GazetteerGrows | Always-A-Sunset.py:150-152 | later rows never overwrite: the dictionary of a prefix of the rows is contained in the final one |
| Gazetteer.BuildGazetteer | Always-A-Sunset.py:142-152 | the loop builds exactly the first-write-wins dictionary of the rows |
| Resolver.CountryToCode | Always-A-Sunset.py:154-158 | `country_to_code`: the normaliser's code for the name without surrounding whitespace; that whitespace never matters (`Resolver.CountryToCodeIgnoresSpace`) |
| Resolver.CountryToCodeIgnoresSpace | Always-A-Sunset.py:154-158 | the code found does not depend on surrounding whitespace of the country name |
| Resolver.Parts | Always-A-Sunset.py:160 | one part per comma-separated field, part k being field k stripped |
| Resolver.GetCoords | Always-A-Sunset.py:159-171 | a result is always one of the gazetteer's coordinates |
| Resolver.GetCoordsNeedsComma | Always-A-Sunset.py:160-162 | a label without a comma has fewer than 2 parts and gives `None` |
| Resolver.GetCoordsFirstAndLast | Always-A-Sunset.py:159-171 | for two or more comma-free fields the result is the gazetteer entry under lower(strip(first)) + "," + lower(code of the last field), `None` when the code is missing or empty or the key absent; middle fields are ignored |
| Resolver.PlaceFields | Always-A-Sunset.py:160 | every label with a comma is such a join of at least two comma-free fields |
| Resolver.ResolvesParis | Always-A-Sunset.py:159-171 | "Paris, France" resolves to the gazetteer's "paris,fr" entry when France has code FR |
| Resolver.UnknownCountryFails | Always-A-Sunset.py:166-168 | "City, Atlantis" gives `None` when the country is unknown |
| Resolver.SinglePartFails | Always-A-Sunset.py:160-162 | "Nowhereville" gives `None` |
| Registry.RegistryOf | Always-A-Sunset.py:173-178 | the registry has no more entries than there are labels |
| Registry.ResolvedIndices | Always-A-Sunset.py:175-178 | the indices of the labels that resolve, strictly increasing, and all of them |
| Registry.RegistryIsFilter | Always-A-Sunset.py:173-178 | entry k is `[lon, urls[i]]` for the k-th resolving label i, in label order |
| Registry.RegistrySize | Always-A-Sunset.py:175-182 | the registry has exactly one entry per label that resolves, the count the build reports |
| Registry.BuildRegistry | Always-A-Sunset.py:173-178 | the loop builds exactly that filtered registry |
| Nearest.FindNearest | Always-A-Sunset.py:226-234 | for a non-empty registry, returns the URL and distance of the first camera whose circular distance to the goal is minimal; the distance is no more than any camera's |
| Nearest.NearestUnique | Always-A-Sunset.py:226-234 | two answers meeting that specification are equal, so the strict `<` fixes the answer |
| Nearest.NearestWithinHalfTurn | Always-A-Sunset.py:226-234 | with goal and cameras in range the distance found is in [0, 180] |
| Nearest.NearestOfOne | Always-A-Sunset.py:226-227 | a one-camera registry gives that camera with its own distance |
| Nearest.NearestAcrossSeam | Always-A-Sunset.py:226-234 | cameras at -170, 0, 170 and goal 175 give the camera at 170 at distance 5 |
| Crawl.WorldLink | Always-A-Sunset.py:78-80 | a world link gives the text after the first "country=" as its name, and a URL from "country=" on |
| Crawl.WorldLinkWithoutCountry | Always-A-Sunset.py:79-80 | without "country=", `find` gives -1: the name is the link from index 7 and the URL keeps only the last character |
| Crawl.LocationName | Always-A-Sunset.py:78-82 | the `loc_names` entry of one link; its value for world links, for world links without "country=" and for US links is `Crawl.WorldLink`, `Crawl.WorldLinkWithoutCountry` and `Crawl.UsLink` |
| Crawl.PageUrl | Always-A-Sunset.py:78-83 | the `full_links` entry of one link, pinned by the same three lemmas |
| Crawl.UsLink | Always-A-Sunset.py:81-83 | a US link gives the text after "page=" plus ", United States", and the page part, "&" and the country part as its URL |
| Crawl.WithoutNullLink | Always-A-Sunset.py:75-77 | keeps every link other than the null country link exactly as often as it occurs (equal multisets after dropping that link), and a list without it unchanged |
| Crawl.WithoutNullLinkAppend | Always-A-Sunset.py:75-77 | the filter of a concatenation is the concatenation of the filters, so kept links stay in their order |
| Crawl.KeptLinks | Always-A-Sunset.py:75-77 | no link at all when the list holds "Russia"; otherwise only listed links other than the null link, and the whole list when neither occurs |
| Crawl.NamesOfLinks | Always-A-Sunset.py:78-82 | name k is the location name of link k, one per link |
| Crawl.UrlsOfLinks | Always-A-Sunset.py:78-82 | URL k is the page URL of link k, one per link |
| Crawl.Regions | Always-A-Sunset.py:75-83 | `loc_names` has one entry per kept link |
| Crawl.PageUrls | Always-A-Sunset.py:75-83 | `full_links` has one entry per kept link |
| Crawl.ExtractCountryPages | Always-A-Sunset.py:73-83 | the loop yields the names and URLs of exactly the kept links, pairwise aligned |
| Crawl.PageNames | Always-A-Sunset.py:122-128 | a page contributes as many names as links; name j is city j followed by ", " and the region |
| Crawl.PageLinks | Always-A-Sunset.py:122-128 | a loaded page contributes a prefix of its camera links, at most one per city name; a crashed or timed-out page contributes nothing |
| Crawl.LinksOf | Always-A-Sunset.py:122-128 | the merged camera links, page by page; one more page appends its links (`Crawl.MergeOneMore`) |
| Crawl.MergeOneMore | Always-A-Sunset.py:122-128 | merging one more page appends that page's names and links to the merged lists |
| Crawl.NamesOf | Always-A-Sunset.py:122-128 | the merged name list is as long as the merged link list |
| Crawl.FirstTimeout | Always-A-Sunset.py:102-110 | the index of the first timed-out page, or the page count |
| Crawl.MergePage | Always-A-Sunset.py:122-128 | appends exactly min(#names, #links) pairs; name j is `names[j] + ", " + region` and link j is `links[j]`; the earlier entries are kept |
| Crawl.MergedPage | Always-A-Sunset.py:122-128 | what the merge appends is the page's contribution to the merged lists |
| Crawl.CollectLocations | Always-A-Sunset.py:88-128 | failed exactly when some page timed out; the lists are the merge of the pages before the first timeout, crashed pages contributing nothing, and stay equally long |
| Session.BuildSession | Always-A-Sunset.py:66-185 | no registry exactly when a page timed out; otherwise the registry of the merged labels and links over the first-write-wins gazetteer |
| Lookup.LoadSunTime | Always-A-Sunset.py:200-234 | the answer is the first nearest camera to the terminator of the event at that instant |
| Lookup.SingleReport | Always-A-Sunset.py:241-246 | a feed is shown exactly when `dist*69 < 250`, with the event, URL and distance found |
| Lookup.ReachBoundary | Always-A-Sunset.py:242 | 3.6 degrees is shown and 3.7 degrees is not |
| Lookup.BestReport | Always-A-Sunset.py:256-267 | a feed exactly when either distance is within reach; sunrise exactly when strictly closer; the distance shown is the smaller one and is itself within reach |
| Lookup.LoadBest | Always-A-Sunset.py:256-265 | both searches meet the nearest-camera specification for their own clock reading, and the report is their best-of decision |
| Lookup.LoadedDistanceBounded | Always-A-Sunset.py:226-234 | with camera longitudes in range, a lookup's distance is within [0, 180] for any month, event and time |

## Left out

- Streamlit page, buttons, spinners, progress bars, captions and `st.session_state`: these are user interface and framework state. The registry is a value passed to the lookups. The "already built" gating and the deletion of the temporary lists are not modelled.
- `launch_browser`, `requests`, BeautifulSoup and Selenium's `WebDriverWait`: these are network and browser I/O. The index links and each page's city names and camera links are inputs. A page's fate is a `PageFetch`: loaded, crashed or timed out.
- `href` values that are `None`, and HTML that lacks the expected elements: both are outside the string model.
- Reading and CSV-parsing `cities500.txt`, including `float()` of the coordinates and rows with too few columns: this is file I/O and number parsing. Rows arrive already split into name, latitude, longitude and country.
- `pycountry.countries.lookup`: a foreign library, modelled as a function parameter.
- Unicode behaviour of `strip()` and `lower()`: only ASCII whitespace and ASCII letters are modelled.
- `datetime.now(timezone.utc)` and `date.today()`: the clock. The instant is a parameter. The model reads the date once, so it cancels out of the difference.
- Terminator.TimeDiffHours: `calc_timediff` (lines 189-190) calls `date.today()` twice. If the date changes between the two calls, the source's difference is off by a whole day. The model uses a single reading and does not capture that shift.
- Terminator.TerminatorLongitude: "always in [-180, 180]" holds for a single date reading only. In the source, a date change between the two `date.today()` calls shifts the raw longitude by 360 degrees, and one wrap (lines 219-222) cannot always bring it back into range.
- Floating-point rounding, `round()` and the miles/kilometres display strings (`*69`, `*111`): presentation only. Exact reals stand in for floats in distances and the threshold.
- Lookups on an empty registry: the source fails with an index error. `Nearest.FindNearest` requires a non-empty registry.
- Lookups after a failed build: `cam_details` is then missing.

/**
 * The three lookups a user can trigger: the camera nearest to the current
 * sunrise line, to the current sunset line, and the better of the two,
 * each reported only when within 250 miles (69 miles per degree).
 */
module Lookup {
  import opened Geo
  import opened Terminator
  import opened Registry
  import opened Nearest

  /** A UTC reading of the clock: its calendar month and its time of day. */
  datatype Instant = Instant(month: Month, time: TimeOfDay)

  const MilesPerDegree: real := 69.0
  const ReachMiles: real := 250.0

  /** A camera this many degrees from the terminator is close enough to show (`dist*69 < 250`). */
  predicate WithinReach(dist: real) {
    dist * MilesPerDegree < ReachMiles
  }

  /** What a lookup shows: no feed, or a feed for an event with its distance in degrees. */
  datatype Report = NoFeed | Feed(event: Event, url: string, dist: real)

  /** `load_sun_time`: the terminator for `event` at `now`, then the nearest camera to it. */
  method LoadSunTime(event: Event, now: Instant, reg: seq<CameraEntry>) returns (url: string, dist: real)
    requires |reg| > 0
    ensures IsNearest(reg, TerminatorLongitude(event, now.month, now.time), url, dist)
  {
    var goal := TerminatorLongitude(event, now.month, now.time);
    url, dist := FindNearest(reg, goal);
  }

  /** The "Load sunrise" and "Load sunset" buttons: the feed is shown only when within reach. */
  function SingleReport(event: Event, url: string, dist: real): (r: Report)
    ensures r.Feed? <==> WithinReach(dist)
    ensures r.Feed? ==> r.event == event && r.url == url && r.dist == dist
  {
    if WithinReach(dist) then Feed(event, url, dist) else NoFeed
  }

  /** 3.6 degrees (about 248 miles) is shown; 3.7 degrees (about 255 miles) is not. */
  lemma ReachBoundary(event: Event, url: string)
    ensures SingleReport(event, url, 3.6).Feed?
    ensures SingleReport(event, url, 3.7).NoFeed?
  {
  }

  /**
   * The "Load best" button: a feed is shown when either event is within
   * reach; sunrise is chosen only when strictly closer, so ties go to sunset.
   * The feed shown is the closer of the two, and is itself within reach.
   */
  function BestReport(riseUrl: string, riseDist: real, setUrl: string, setDist: real): (r: Report)
    ensures r.Feed? <==> WithinReach(riseDist) || WithinReach(setDist)
    ensures r.Feed? ==> (r.event == Sunrise <==> riseDist < setDist)
    ensures r.Feed? ==> r.url == (if r.event == Sunrise then riseUrl else setUrl)
    ensures r.Feed? ==> r.dist <= riseDist && r.dist <= setDist && (r.dist == riseDist || r.dist == setDist)
    ensures r.Feed? ==> WithinReach(r.dist)
  {
    if WithinReach(riseDist) || WithinReach(setDist) then
      if riseDist < setDist then Feed(Sunrise, riseUrl, riseDist)
      else Feed(Sunset, setUrl, setDist)
    else NoFeed
  }

  /**
   * The "Load best" button end to end. The clock is read once per event, so
   * the two searches may see different instants.
   */
  method LoadBest(riseAt: Instant, setAt: Instant, reg: seq<CameraEntry>)
    returns (riseUrl: string, riseDist: real, setUrl: string, setDist: real, report: Report)
    requires |reg| > 0
    ensures IsNearest(reg, TerminatorLongitude(Sunrise, riseAt.month, riseAt.time), riseUrl, riseDist)
    ensures IsNearest(reg, TerminatorLongitude(Sunset, setAt.month, setAt.time), setUrl, setDist)
    ensures report == BestReport(riseUrl, riseDist, setUrl, setDist)
  {
    riseUrl, riseDist := LoadSunTime(Sunrise, riseAt, reg);
    setUrl, setDist := LoadSunTime(Sunset, setAt, reg);
    report := BestReport(riseUrl, riseDist, setUrl, setDist);
  }

  /**
   * With every camera longitude in range, a reported distance never exceeds
   * half a turn, whatever the month, event and time of day.
   */
  lemma LoadedDistanceBounded(event: Event, now: Instant, reg: seq<CameraEntry>, url: string, dist: real)
    requires forall j :: 0 <= j < |reg| ==> -180.0 <= reg[j].lon <= 180.0
    requires IsNearest(reg, TerminatorLongitude(event, now.month, now.time), url, dist)
    ensures 0.0 <= dist <= 180.0
  {
    NearestWithinHalfTurn(reg, TerminatorLongitude(event, now.month, now.time), url, dist);
  }
}

/**
 * The nearest-camera search (second half of `load_sun_time`): a linear scan
 * of the registry for the camera whose longitude is closest to a target
 * longitude under circular distance; the first camera at the minimum wins.
 */
module Nearest {
  import opened Geo
  import opened Registry

  /** Camera `k` is at least as close to `goal` as every camera, and strictly closer than every earlier one. */
  ghost predicate FirstClosest(reg: seq<CameraEntry>, goal: real, k: int)
  {
    && 0 <= k < |reg|
    && (forall j :: 0 <= j < |reg| ==> LongDist(reg[k].lon, goal) <= LongDist(reg[j].lon, goal))
    && (forall j :: 0 <= j < k ==> LongDist(reg[k].lon, goal) < LongDist(reg[j].lon, goal))
  }

  /** `(url, dist)` is the feed URL and distance of the first camera closest to `goal`. */
  ghost predicate IsNearest(reg: seq<CameraEntry>, goal: real, url: string, dist: real)
  {
    exists k :: FirstClosest(reg, goal, k) && url == reg[k].url && dist == LongDist(reg[k].lon, goal)
  }

  /** The search has exactly one correct answer: two results meeting the specification agree. */
  lemma NearestUnique(reg: seq<CameraEntry>, goal: real, url1: string, dist1: real, url2: string, dist2: real)
    requires IsNearest(reg, goal, url1, dist1) && IsNearest(reg, goal, url2, dist2)
    ensures url1 == url2 && dist1 == dist2
  {
    var k1 :| FirstClosest(reg, goal, k1) && url1 == reg[k1].url && dist1 == LongDist(reg[k1].lon, goal);
    var k2 :| FirstClosest(reg, goal, k2) && url2 == reg[k2].url && dist2 == LongDist(reg[k2].lon, goal);
    if k1 != k2 {
      assert false;
    }
  }

  /** The scan: start from camera 0 and replace the best only on a strictly smaller distance. */
  method FindNearest(reg: seq<CameraEntry>, goal: real) returns (url: string, dist: real)
    requires |reg| > 0
    ensures IsNearest(reg, goal, url, dist)
    ensures forall j :: 0 <= j < |reg| ==> dist <= LongDist(reg[j].lon, goal)
  {
    ghost var best := 0;
    url := reg[0].url;
    dist := LongDist(reg[0].lon, goal);
    for i := 1 to |reg|
      invariant 0 <= best < i
      invariant url == reg[best].url && dist == LongDist(reg[best].lon, goal)
      invariant forall j :: 0 <= j < i ==> dist <= LongDist(reg[j].lon, goal)
      invariant forall j :: 0 <= j < best ==> dist < LongDist(reg[j].lon, goal)
    {
      var d := LongDist(reg[i].lon, goal);
      if d < dist {
        dist := d;
        url := reg[i].url;
        best := i;
      }
    }
    assert FirstClosest(reg, goal, best);
  }

  /** With every longitude in range, the distance found is at most half a turn. */
  lemma NearestWithinHalfTurn(reg: seq<CameraEntry>, goal: real, url: string, dist: real)
    requires IsNearest(reg, goal, url, dist)
    requires -180.0 <= goal <= 180.0
    requires forall j :: 0 <= j < |reg| ==> -180.0 <= reg[j].lon <= 180.0
    ensures 0.0 <= dist <= 180.0
  {
    var k :| FirstClosest(reg, goal, k) && url == reg[k].url && dist == LongDist(reg[k].lon, goal);
  }

  /** A registry of one camera gives that camera and its own distance. */
  lemma NearestOfOne(cam: CameraEntry, goal: real, url: string, dist: real)
    requires IsNearest([cam], goal, url, dist)
    ensures url == cam.url && dist == LongDist(cam.lon, goal)
  {
    var k :| FirstClosest([cam], goal, k) && url == [cam][k].url && dist == LongDist([cam][k].lon, goal);
  }

  /** Cameras at -170, 0 and 170 with the target at 175: the camera at 170 wins, 5 degrees away. */
  lemma NearestAcrossSeam(url: string, dist: real)
    requires IsNearest([CameraEntry(-170.0, "west"), CameraEntry(0.0, "mid"), CameraEntry(170.0, "east")], 175.0, url, dist)
    ensures url == "east" && dist == 5.0
  {
    var reg := [CameraEntry(-170.0, "west"), CameraEntry(0.0, "mid"), CameraEntry(170.0, "east")];
    assert LongDist(-170.0, 175.0) == 15.0;
    assert LongDist(0.0, 175.0) == 175.0;
    assert LongDist(170.0, 175.0) == 5.0;
    var k :| FirstClosest(reg, 175.0, k) && url == reg[k].url && dist == LongDist(reg[k].lon, 175.0);
    assert dist <= LongDist(reg[2].lon, 175.0);
  }
}

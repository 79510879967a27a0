/** Circular distance between two longitudes, in degrees (`find_longdist`). */
module Geo {

  function Abs(x: real): (r: real)
    ensures r >= 0.0
    ensures r == x || r == -x
  {
    if x < 0.0 then -x else x
  }

  function Min3(x: real, y: real, z: real): (r: real)
    ensures r <= x && r <= y && r <= z
    ensures r == x || r == y || r == z
  {
    if x <= y && x <= z then x else if y <= z then y else z
  }

  /**
   * The distance from longitude `a` to longitude `b`, also trying `a`
   * shifted once east and once west by a full turn, so that the seam at
   * +/-180 degrees is crossed when that is shorter.
   */
  function LongDist(a: real, b: real): (r: real)
    ensures 0.0 <= r <= Abs(a - b)
    ensures r == Abs(a - b) || r == Abs(a + 360.0 - b) || r == Abs(a - 360.0 - b)
    ensures -180.0 <= a <= 180.0 && -180.0 <= b <= 180.0 ==> r <= 180.0
  {
    Min3(Abs(a - b), Abs((a + 360.0) - b), Abs((a - 360.0) - b))
  }

  /** The distance does not depend on the order of its arguments. */
  lemma LongDistSymmetric(a: real, b: real)
    ensures LongDist(a, b) == LongDist(b, a)
  {
    assert Abs(a - b) == Abs(b - a);
    assert Abs(a + 360.0 - b) == Abs(b - 360.0 - a);
    assert Abs(a - 360.0 - b) == Abs(b + 360.0 - a);
  }

  /** Two longitudes are at distance zero exactly when they coincide or are a full turn apart. */
  lemma LongDistZero(a: real, b: real)
    ensures LongDist(a, b) == 0.0 <==> (a == b || a - b == 360.0 || b - a == 360.0)
  {
  }

  /** 179 and -179 degrees are 2 degrees apart across the seam, not 358. */
  lemma LongDistAcrossSeam()
    ensures LongDist(179.0, -179.0) == 2.0
  {
  }

  /** Within the longitude range the distance is the shorter of the two ways round the circle. */
  lemma LongDistShorterWay(a: real, b: real)
    requires -180.0 <= a <= 180.0 && -180.0 <= b <= 180.0
    ensures Abs(a - b) <= 180.0 ==> LongDist(a, b) == Abs(a - b)
    ensures Abs(a - b) >= 180.0 ==> LongDist(a, b) == 360.0 - Abs(a - b)
  {
  }
}

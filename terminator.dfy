/**
 * The coarse terminator estimator (`calc_timediff` and the first half of
 * `load_sun_time`): the longitude where the sun is currently rising or
 * setting, from a fixed per-month table of UTC clock times.
 */
module Terminator {

  datatype Event = Sunrise | Sunset

  const MicrosPerHour: int := 3600 * 1000000
  const MicrosPerDay: int := 24 * MicrosPerHour

  /** A calendar month, January = 1, as `datetime.month` gives it. */
  type Month = m: int | 1 <= m <= 12 witness 1

  /** A clock time of day in microseconds since midnight, the resolution of `datetime.time`. */
  type TimeOfDay = t: int | 0 <= t < MicrosPerDay witness 0

  /** Sunrise clock times per month, in minutes after midnight UTC (January first). */
  const SunriseMinutes: seq<int> :=
    [8 * 60, 7 * 60 + 15, 6 * 60 + 15, 5 * 60 + 30, 4 * 60 + 45, 4 * 60 + 30,
     4 * 60 + 45, 5 * 60 + 30, 6 * 60 + 15, 7 * 60, 7 * 60 + 45, 8 * 60]

  /** Sunset clock times per month, in minutes after midnight UTC (January first). */
  const SunsetMinutes: seq<int> :=
    [16 * 60, 17 * 60, 18 * 60, 19 * 60 + 30, 20 * 60 + 30, 21 * 60,
     20 * 60 + 45, 20 * 60, 19 * 60, 18 * 60, 16 * 60 + 30, 16 * 60]

  /** The table time for `event` in `month`; every entry lies between 04:30 and 21:00. */
  function SunTime(event: Event, month: Month): (t: TimeOfDay)
    ensures 4 * MicrosPerHour + 30 * 60 * 1000000 <= t <= 21 * MicrosPerHour
    ensures event == Sunrise ==> t <= 8 * MicrosPerHour
    ensures event == Sunset ==> 16 * MicrosPerHour <= t
  {
    var table := if event == Sunrise then SunriseMinutes else SunsetMinutes;
    table[month - 1] * 60 * 1000000
  }

  /** In every month the sunrise entry is earlier in the day than the sunset entry. */
  lemma SunriseBeforeSunset(month: Month)
    ensures SunTime(Sunrise, month) < SunTime(Sunset, month)
  {
  }

  /**
   * `calc_timediff(time1, time2)`: the signed difference `time1 - time2` of two
   * clock times taken on the same day, in hours.
   */
  function TimeDiffHours(t1: TimeOfDay, t2: TimeOfDay): (h: real)
    ensures -24.0 < h < 24.0
    ensures h * (MicrosPerHour as real) == (t1 - t2) as real
    ensures h > 0.0 <==> t1 > t2
  {
    (t1 - t2) as real / (MicrosPerHour as real)
  }

  /** Bring a longitude into [-180, 180] with at most one full turn, first eastwards, then westwards. */
  function Wrap(x: real): (r: real)
    ensures r == x || r == x + 360.0 || r == x - 360.0
    ensures -180.0 <= x <= 180.0 ==> r == x
    ensures -540.0 <= x <= 540.0 ==> -180.0 <= r <= 180.0
  {
    var y := if x < -180.0 then x + 360.0 else x;
    if y > 180.0 then y - 360.0 else y
  }

  /** One wrap suffices for any reference clock time, not only for the entries of the two tables. */
  lemma SingleWrapSuffices(reference: TimeOfDay, now: TimeOfDay)
    ensures -180.0 <= Wrap(TimeDiffHours(reference, now) * 15.0) <= 180.0
  {
  }

  /**
   * The estimated terminator longitude for `event` at clock time `now` in
   * `month`: 15 degrees per hour between the table time and now, wrapped once.
   */
  function TerminatorLongitude(event: Event, month: Month, now: TimeOfDay): (lon: real)
    ensures -180.0 <= lon <= 180.0
    ensures var raw := TimeDiffHours(SunTime(event, month), now) * 15.0;
      lon == raw || lon == raw + 360.0 || lon == raw - 360.0
    ensures var raw := TimeDiffHours(SunTime(event, month), now) * 15.0;
      -180.0 <= raw <= 180.0 ==> lon == raw
  {
    Wrap(TimeDiffHours(SunTime(event, month), now) * 15.0)
  }

  /** At the table time itself the terminator is on the prime meridian. */
  lemma TerminatorAtTableTime(event: Event, month: Month)
    ensures TerminatorLongitude(event, month, SunTime(event, month)) == 0.0
  {
  }

  /** One hour later on the clock moves the terminator 15 degrees west, unless the seam is crossed. */
  lemma TerminatorMovesWest(event: Event, month: Month, now: TimeOfDay)
    requires now + MicrosPerHour < MicrosPerDay
    ensures var before, after := TerminatorLongitude(event, month, now), TerminatorLongitude(event, month, now + MicrosPerHour);
      after == before - 15.0 || after == before + 345.0
  {
  }
}

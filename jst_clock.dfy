/**
 * Japan Standard Time clock arithmetic.
 *
 * An instant is a whole number of seconds since 1970-01-01T00:00:00Z. The
 * providers convert their readings to the fixed zone UTC+9 before the
 * detector looks at them, so the local hour of an instant is the hour of
 * `t + 9 h`. Dafny's `/` and `%` on `int` round toward negative infinity
 * for a positive divisor, which is what a calendar does for instants
 * before the epoch as well.
 */
module JstClock {
  const SecondsPerMinute: int := 60
  const SecondsPerHour: int := 3600
  const SecondsPerDay: int := 86400
  /** UTC+9 */
  const JstOffset: int := 9 * SecondsPerHour
  /** The night window is the local hours [0, NightEndHour). */
  const NightEndHour: int := 6

  /** Local (JST) wall-clock seconds of an instant. */
  function JstSeconds(t: int): int {
    t + JstOffset
  }

  /** `datetime.hour` of the instant seen in JST. */
  function JstHour(t: int): (h: int)
    ensures 0 <= h < 24
  {
    (JstSeconds(t) / SecondsPerHour) % 24
  }

  /** `is_night_hour`: the JST hour lies in [0, 6). */
  predicate IsNightHour(t: int) {
    0 <= JstHour(t) < NightEndHour
  }

  /** Euclidean division by a positive constant of `q * m + r` with `0 <= r < m`. */
  lemma {:induction false} DivModOf(x: int, m: int, q: int, r: int)
    requires 0 < m && 0 <= r < m && x == q * m + r
    ensures x / m == q && x % m == r
  {
    var q', r' := x / m, x % m;
    assert (q - q') * m == r' - r;
    MulAwayFromZero(q - q', m);
  }

  /** A non-zero multiple of a positive `m` is at least `m` away from zero. */
  lemma MulAwayFromZero(a: int, m: int)
    requires 0 < m
    ensures a >= 1 ==> a * m >= m
    ensures a <= -1 ==> a * m <= -m
  {
  }

  /**
   * The JST hour of the instant that reads `h:mm:ss` on local day `d` is `h`:
   * the hour computed by `JstHour` agrees with a calendar decomposition.
   */
  lemma {:induction false} JstHourOfWallClock(d: int, h: int, s: int)
    requires 0 <= h < 24 && 0 <= s < SecondsPerHour
    ensures JstHour(d * SecondsPerDay + h * SecondsPerHour + s - JstOffset) == h
  {
    var x := d * SecondsPerDay + h * SecondsPerHour + s;
    assert JstSeconds(x - JstOffset) == x;
    assert x == (d * 24 + h) * SecondsPerHour + s;
    DivModOf(x, SecondsPerHour, d * 24 + h, s);
    DivModOf(d * 24 + h, 24, d, h);
  }

  /**
   * Night is exactly the first six hours of the JST day: both directions,
   * stated on the second-of-day rather than on the hour.
   */
  lemma {:induction false} NightIsStartOfJstDay(t: int)
    ensures IsNightHour(t) <==> JstSeconds(t) % SecondsPerDay < NightEndHour * SecondsPerHour
  {
    var x := JstSeconds(t);
    var d, sod := x / SecondsPerDay, x % SecondsPerDay;
    var h, s := sod / SecondsPerHour, sod % SecondsPerHour;
    assert x == d * SecondsPerDay + sod;
    assert sod == h * SecondsPerHour + s;
    JstHourOfWallClock(d, h, s);
    assert t == d * SecondsPerDay + h * SecondsPerHour + s - JstOffset;
    assert sod < NightEndHour * SecondsPerHour <==> h < NightEndHour by {
      if h >= NightEndHour {
        assert h * SecondsPerHour >= NightEndHour * SecondsPerHour;
      }
    }
  }

  /** Boundaries: 00:00 JST is night, 05:59:59 is night, 06:00:00 is day. */
  lemma {:induction false} NightBoundaries(d: int)
    ensures IsNightHour(d * SecondsPerDay - JstOffset)
    ensures IsNightHour(d * SecondsPerDay + NightEndHour * SecondsPerHour - 1 - JstOffset)
    ensures !IsNightHour(d * SecondsPerDay + NightEndHour * SecondsPerHour - JstOffset)
  {
    JstHourOfWallClock(d, 0, 0);
    JstHourOfWallClock(d, NightEndHour - 1, SecondsPerHour - 1);
    JstHourOfWallClock(d, NightEndHour, 0);
  }

  /** The night rule repeats every day. */
  lemma {:induction false} NightIsDaily(t: int, k: int)
    ensures IsNightHour(t + k * SecondsPerDay) == IsNightHour(t)
  {
    var x := JstSeconds(t);
    var d, sod := x / SecondsPerDay, x % SecondsPerDay;
    assert JstSeconds(t + k * SecondsPerDay) == (d + k) * SecondsPerDay + sod;
    DivModOf(JstSeconds(t + k * SecondsPerDay), SecondsPerDay, d + k, sod);
    NightIsStartOfJstDay(t);
    NightIsStartOfJstDay(t + k * SecondsPerDay);
  }
}

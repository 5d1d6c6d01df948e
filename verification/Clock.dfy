/** Instants are whole microseconds in UTC; hours and days are aligned to multiples of their length. */
module Clock {

  const SECOND: int := 1_000_000
  const HOUR: int := 3600 * SECOND
  const DAY: int := 24 * HOUR

  /** The start of the hour that contains `t`: date_trunc('hour', t). */
  function HourOf(t: int): (h: int)
    ensures h <= t < h + HOUR
    ensures h % HOUR == 0
  {
    t - t % HOUR
  }

  /** Midnight of the day that contains `t`. */
  function StartOfDay(t: int): (d: int)
    ensures d <= t < d + DAY
  {
    t - t % DAY
  }

  /** An hour is determined by any instant inside it. */
  lemma HourIsUnique(t: int, b: int)
    requires b % HOUR == 0 && b <= t < b + HOUR
    ensures HourOf(t) == b
  {
  }

  /** Before an aligned boundary an hour has ended completely. */
  lemma HourBeforeBoundary(t: int, boundary: int)
    requires boundary % HOUR == 0
    ensures t < boundary <==> HourOf(t) + HOUR <= boundary
    ensures t >= boundary <==> HourOf(t) >= boundary
  {
  }

  lemma HoursGrow(s: int, t: int)
    requires s <= t
    ensures HourOf(s) <= HourOf(t)
  {
  }

  function Max(a: int, b: int): int { if a >= b then a else b }

  function Min(a: int, b: int): int { if a <= b then a else b }
}

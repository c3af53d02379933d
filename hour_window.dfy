/** The window of hours whose archive files the report fetches: `past_n_hours` and
    the call `past_n_hours(ct - timedelta(hours=1), 24)` in `create_plot`. */
module HourWindow {

  /** An aware UTC `datetime`, as microseconds since 1970-01-01T00:00:00Z. */
  type Instant = int

  const MicrosPerHour: int := 3_600_000_000

  /** Minute, second and microsecond are all zero. */
  predicate HourAligned(t: Instant) {
    t % MicrosPerHour == 0
  }

  /** `dt.replace(minute=0, second=0, microsecond=0)`: the top of the hour holding `t`
      (Dafny's `%` is never negative, so this also floors instants before 1970). */
  function FloorHour(t: Instant): (f: Instant)
    ensures HourAligned(f)
    ensures f <= t < f + MicrosPerHour
  {
    t - t % MicrosPerHour
  }

  /** Whole hours before or after an aligned instant are aligned. */
  lemma AlignedShift(f: Instant, k: int)
    requires HourAligned(f)
    ensures HourAligned(f + k * MicrosPerHour)
  {
    var q := f / MicrosPerHour;
    assert f == q * MicrosPerHour;
    assert f + k * MicrosPerHour == (q + k) * MicrosPerHour;
  }

  /** The top of the hour is the only aligned instant at most an hour before `t`. */
  lemma FloorHourUnique(t: Instant, f: Instant)
    requires HourAligned(f) && f <= t < f + MicrosPerHour
    ensures f == FloorHour(t)
  {
    var g := FloorHour(t);
    var p, q := f / MicrosPerHour, g / MicrosPerHour;
    assert f == p * MicrosPerHour && g == q * MicrosPerHour;
    assert (p - q) * MicrosPerHour < MicrosPerHour && (q - p) * MicrosPerHour < MicrosPerHour;
    assert p == q;
  }

  /** Shifting by whole hours shifts the top of the hour by the same amount. */
  lemma FloorHourShift(t: Instant, k: int)
    ensures FloorHour(t + k * MicrosPerHour) == FloorHour(t) + k * MicrosPerHour
  {
    AlignedShift(FloorHour(t), k);
    FloorHourUnique(t + k * MicrosPerHour, FloorHour(t) + k * MicrosPerHour);
  }

  lemma FloorHourIdempotent(t: Instant)
    ensures FloorHour(FloorHour(t)) == FloorHour(t)
  {
    FloorHourUnique(FloorHour(t), FloorHour(t));
  }

  /** The `[::-1]` slice. */
  function Reverse<T>(s: seq<T>): (r: seq<T>)
    ensures |r| == |s|
    ensures forall i :: 0 <= i < |s| ==> r[i] == s[|s| - 1 - i]
  {
    if s == [] then [] else Reverse(s[1..]) + [s[0]]
  }

  /** `[floored - i * timedelta(hours=1) for i in range(1, n + 1)]`: newest first;
      `range(1, n + 1)` is empty when `n <= 0`. */
  function HoursBack(floored: Instant, n: int): (r: seq<Instant>)
    ensures |r| == if n <= 0 then 0 else n
    ensures |r| > 0 ==> r[0] == floored - MicrosPerHour
    ensures forall i :: 0 < i < |r| ==> r[i] == r[i - 1] - MicrosPerHour
  {
    if n <= 0 then [] else seq(n, i => floored - (i + 1) * MicrosPerHour)
  }

  /** `past_n_hours(dt, n)`: element `i` lies `n - i` whole hours before the top of
      `dt`'s hour, so the list runs oldest first and ends an hour before that top. */
  function PastNHours(dt: Instant, n: int): (r: seq<Instant>)
    ensures |r| == if n <= 0 then 0 else n
    ensures forall i :: 0 <= i < |r| ==> r[i] == FloorHour(dt) - (|r| - i) * MicrosPerHour
  {
    Reverse(HoursBack(FloorHour(dt), n))
  }

  /** Every element is hour-aligned. */
  lemma PastNHoursAligned(dt: Instant, n: int, i: int)
    requires 0 <= i < |PastNHours(dt, n)|
    ensures HourAligned(PastNHours(dt, n)[i])
  {
    var r := PastNHours(dt, n);
    AlignedShift(FloorHour(dt), -(|r| - i));
  }

  /** Consecutive elements are exactly one hour apart, so the list is strictly ascending. */
  lemma PastNHoursAscending(dt: Instant, n: int)
    ensures forall i :: 0 <= i < |PastNHours(dt, n)| - 1 ==>
      PastNHours(dt, n)[i + 1] == PastNHours(dt, n)[i] + MicrosPerHour
    ensures forall i, j :: 0 <= i < j < |PastNHours(dt, n)| ==>
      PastNHours(dt, n)[i] < PastNHours(dt, n)[j]
  {
  }

  /** The newest element is one hour before the top of `dt`'s hour, the oldest `n` hours before. */
  lemma PastNHoursEnds(dt: Instant, n: int)
    requires n >= 1
    ensures PastNHours(dt, n)[n - 1] == FloorHour(dt) - MicrosPerHour
    ensures PastNHours(dt, n)[0] == FloorHour(dt) - n * MicrosPerHour
  {
  }

  /** The list holds exactly the hour-aligned instants in the `n` hours before the top of
      `dt`'s hour; in particular each is strictly before `dt`'s own hour. */
  lemma PastNHoursMembers(dt: Instant, n: int, t: Instant)
    ensures t in PastNHours(dt, n) <==>
      HourAligned(t) && FloorHour(dt) - n * MicrosPerHour <= t < FloorHour(dt)
  {
    var r, f := PastNHours(dt, n), FloorHour(dt);
    if t in r {
      var i :| 0 <= i < |r| && r[i] == t;
      PastNHoursAligned(dt, n, i);
    }
    if HourAligned(t) && f - n * MicrosPerHour <= t < f {
      var k := (f - t) / MicrosPerHour;
      assert f == (f / MicrosPerHour) * MicrosPerHour;
      assert t == (t / MicrosPerHour) * MicrosPerHour;
      assert f - t == k * MicrosPerHour;
      assert 1 <= k <= n;
      assert r[n - k] == t;
    }
  }

  /** Only the hour of `dt` matters, not its minutes, seconds or microseconds. */
  lemma PastNHoursOnlyHourMatters(dt: Instant, n: int)
    ensures PastNHours(dt, n) == PastNHours(FloorHour(dt), n)
  {
    FloorHourIdempotent(dt);
  }

  /** The hours `create_plot` fetches, given the current time `ct` (the clock is a parameter). */
  function ReportWindow(ct: Instant): (w: seq<Instant>)
    ensures |w| == 24
  {
    PastNHours(ct - MicrosPerHour, 24)
  }

  /** The report covers 24 consecutive hours, the newest starting two hours before the top
      of the current hour: the hour in progress and the hour before it are not fetched. */
  lemma ReportWindowHours(ct: Instant)
    ensures forall i :: 0 <= i < 24 ==>
      ReportWindow(ct)[i] == FloorHour(ct) - (25 - i) * MicrosPerHour
    ensures ReportWindow(ct)[23] == FloorHour(ct) - 2 * MicrosPerHour
    ensures ReportWindow(ct)[0] == FloorHour(ct) - 25 * MicrosPerHour
  {
    FloorHourShift(ct, -1);
  }
}

/** Wind resolution: `get_wind_direction_at_hour` in wind.py. The environment
    lookup, the HTTP request and the clock are parameters. Time is counted in
    integer microseconds of local wall-clock time, with no time zone or
    daylight-saving shifts; forecast timestamps are integer seconds. */
module Wind {
  import opened Cells

  const MicrosPerSecond: int := 1_000_000
  const MicrosPerMinute: int := 60 * MicrosPerSecond
  const MicrosPerHour: int := 60 * MicrosPerMinute
  const MicrosPerDay: int := 24 * MicrosPerHour

  const CardinalDirections: seq<string> := ["N", "NE", "E", "SE", "S", "SW", "W", "NW"]

  // ---------------------------------------------------------------------
  // Degree quantisation

  /** Python's `round` on a float: the nearest integer, ties to the even one. */
  function RoundHalfEven(x: real): (r: int)
    ensures x - 0.5 <= r as real <= x + 0.5
    ensures (r as real == x - 0.5 || r as real == x + 0.5) ==> r % 2 == 0
  {
    var f := x.Floor;
    var frac := x - f as real;
    if frac < 0.5 then f
    else if frac > 0.5 then f + 1
    else if f % 2 == 0 then f
    else f + 1
  }

  /** `round(wind_deg / 45) % 8`; Python's `%` by a positive divisor is never
      negative, like Dafny's. */
  function DirectionIndex(deg: int): (k: int)
    ensures 0 <= k < |CardinalDirections|
  {
    RoundHalfEven(deg as real / 45.0) % 8
  }

  function Label(deg: int): (s: string)
    ensures s in CardinalDirections
  {
    CardinalDirections[DirectionIndex(deg)]
  }

  /** An integer degree is never at a tie (45 is odd), so the rounding is the
      integer division `(deg + 22) / 45`, for negative degrees too. */
  lemma DirectionIndexIntegerForm(deg: int)
    ensures DirectionIndex(deg) == ((deg + 22) / 45) % 8
  {
    var q, r := deg / 45, deg % 45;
    assert deg == 45 * q + r;
    var x := deg as real / 45.0;
    assert x == q as real + r as real / 45.0;
    var up := if r <= 22 then 0 else 1;
    assert (deg + 22) / 45 == q + up by {
      assert q * 45 + up * 45 <= deg + 22 < q * 45 + up * 45 + 45;
    }
    var n := RoundHalfEven(x);
    if r <= 22 {
      assert r as real / 45.0 < 0.5;
      assert n == q;
    } else {
      assert r as real / 45.0 > 0.5;
      assert n == q + 1;
    }
  }

  /** Spot checks at the edges of the first two sectors; in particular 44
      reads as NE, because `round(44 / 45)` is 1. */
  lemma LabelFixedPoints()
    ensures Label(0) == "N" && Label(22) == "N"
    ensures Label(23) == "NE" && Label(44) == "NE" && Label(46) == "NE"
    ensures Label(360) == Label(0)
  {
    DirectionIndexIntegerForm(0);
    DirectionIndexIntegerForm(22);
    DirectionIndexIntegerForm(23);
    DirectionIndexIntegerForm(44);
    DirectionIndexIntegerForm(46);
    DirectionIndexIntegerForm(360);
  }

  /** Over one turn, N is exactly the sector 0..22 together with 338..359. */
  lemma LabelNorthSector(deg: int)
    requires 0 <= deg < 360
    ensures Label(deg) == "N" <==> deg <= 22 || 338 <= deg
  {
    DirectionIndexIntegerForm(deg);
    var q := (deg + 22) / 45;
    assert 0 <= q <= 8 by {
      assert q * 45 <= deg + 22 < q * 45 + 45;
    }
    assert q == 0 <==> deg <= 22;
    assert q == 8 <==> 338 <= deg;
    var k := DirectionIndex(deg);
    assert k == 0 <==> q == 0 || q == 8;
    assert CardinalDirections[k] == "N" <==> k == 0;
  }

  /** A full turn does not change the label. */
  lemma LabelPeriodic(deg: int)
    ensures Label(deg + 360) == Label(deg)
  {
    var a := (deg + 22) / 45;
    assert (deg + 360 + 22) / 45 == a + 8 by {
      assert a * 45 <= deg + 22 < a * 45 + 45;
      assert (a + 8) * 45 <= deg + 360 + 22 < (a + 8) * 45 + 45;
    }
    assert (a + 8) % 8 == a % 8;
    DirectionIndexIntegerForm(deg);
    DirectionIndexIntegerForm(deg + 360);
    assert DirectionIndex(deg + 360) == DirectionIndex(deg);
  }

  // ---------------------------------------------------------------------
  // Target time

  function DayStart(t: int): int {
    t - t % MicrosPerDay
  }

  function HourOf(t: int): int { (t % MicrosPerDay) / MicrosPerHour }
  function MinuteOf(t: int): int { (t % MicrosPerHour) / MicrosPerMinute }
  function SecondOf(t: int): int { (t % MicrosPerMinute) / MicrosPerSecond }
  function MicrosecondOf(t: int): int { t % MicrosPerSecond }

  /** `datetime.replace` accepts an hour only in 0..23; otherwise it raises
      `ValueError`. */
  predicate ValidHour(hour: int) {
    0 <= hour < 24
  }

  /** Today's slot: today at `hour:00:00.000000`. */
  function TodaySlot(now: int, hour: int): int {
    DayStart(now) + hour * MicrosPerHour
  }

  lemma {:induction false} TimeOfDay(day: int, hour: int)
    requires ValidHour(hour)
    ensures var t := day * MicrosPerDay + hour * MicrosPerHour;
      HourOf(t) == hour && MinuteOf(t) == 0 && SecondOf(t) == 0 && MicrosecondOf(t) == 0 &&
      DayStart(t) == day * MicrosPerDay
  {
    var t := day * MicrosPerDay + hour * MicrosPerHour;
    var k := day * 24 + hour;
    assert t == k * MicrosPerHour;
    assert t % MicrosPerDay == hour * MicrosPerHour;
    assert t % MicrosPerHour == 0;
    assert t % MicrosPerMinute == 0 by { assert t == (k * 60) * MicrosPerMinute; }
    assert t % MicrosPerSecond == 0 by { assert t == (k * 3600) * MicrosPerSecond; }
  }

  /** The resolved target: today's slot, or tomorrow's when today's is
      strictly before now. It is on the requested hour exactly, lies in
      [now, now + 1 day), and moves to tomorrow exactly when today's slot has
      passed. */
  function TargetTime(now: int, hour: int): (t: int)
    requires ValidHour(hour)
    ensures HourOf(t) == hour && MinuteOf(t) == 0 && SecondOf(t) == 0 && MicrosecondOf(t) == 0
    ensures now <= t < now + MicrosPerDay
    ensures t == TodaySlot(now, hour) <==> now <= TodaySlot(now, hour)
    ensures t != TodaySlot(now, hour) ==> t == TodaySlot(now, hour) + MicrosPerDay
  {
    var day := now / MicrosPerDay;
    assert DayStart(now) == day * MicrosPerDay;
    var slot := TodaySlot(now, hour);
    if slot < now then
      TimeOfDay(day + 1, hour);
      slot + MicrosPerDay
    else
      TimeOfDay(day, hour);
      slot
  }

  /** At 14:30 on some day, hour 10 resolves to 10:00 the next day and
      hour 18 to 18:00 the same day. */
  lemma RolloverExample(day: int)
    ensures var now := day * MicrosPerDay + 14 * MicrosPerHour + 30 * MicrosPerMinute;
      TargetTime(now, 10) == (day + 1) * MicrosPerDay + 10 * MicrosPerHour &&
      TargetTime(now, 18) == day * MicrosPerDay + 18 * MicrosPerHour
  {
    var now := day * MicrosPerDay + 14 * MicrosPerHour + 30 * MicrosPerMinute;
    assert now % MicrosPerDay == 14 * MicrosPerHour + 30 * MicrosPerMinute;
    assert DayStart(now) == day * MicrosPerDay;
  }

  // ---------------------------------------------------------------------
  // The forecast feed and the search

  /** One entry of `response['list']`: its `dt` (seconds) and its
      `wind.deg`, each absent when the key is missing. */
  datatype ForecastItem = ForecastItem(dt: Option<int>, deg: Option<int>)

  /** What `requests.get(url).json()` gives: a request failure (which
      includes an undecodable body), or a document whose `list` key may be
      missing. */
  datatype Fetch = RequestFailed | Response(list: Option<seq<ForecastItem>>)

  /** What `get_wind_direction_at_hour` produces:
      `None` (no API key), `(label, time)`,
      `(None, "Forecast not available for the requested time.")`,
      `(None, None)` (request or key error), or the `ValueError` that
      `now.replace` raises for an hour outside 0..23. */
  datatype WindOutcome =
    | NoApiKey
    | Found(cardinal: string, time: int)
    | NotAvailable
    | LookupFailed
    | HourRejected

  /** Python truthiness of the returned value: only `None` is false; a
      tuple is true whatever it holds. */
  predicate Truthy(w: WindOutcome)
    requires !w.HourRejected?
  {
    !w.NoApiKey?
  }

  /** The first component of the returned tuple. */
  function Direction(w: WindOutcome): Option<string> {
    if w.Found? then Some(w.cardinal) else None
  }

  /** `if not api_key`: absent or empty. */
  predicate HasApiKey(apiKey: Option<string>) {
    apiKey.Some? && apiKey.value != ""
  }

  function Micros(seconds: int): int {
    seconds * MicrosPerSecond
  }

  /** The first k entries all carry a timestamp, and it is before the target. */
  ghost predicate AllEarlier(items: seq<ForecastItem>, k: nat, target: int)
    requires k <= |items|
  {
    forall j :: 0 <= j < k ==> items[j].dt.Some? && Micros(items[j].dt.value) < target
  }

  /** The outcome of the scan over `response['list']` for a target. */
  ghost predicate ScanOutcome(items: seq<ForecastItem>, target: int, w: WindOutcome) {
    match w
    case Found(cardinal, time) =>
      exists k :: 0 <= k < |items| && AllEarlier(items, k, target) &&
        items[k].dt == Some(time) && Micros(time) >= target &&
        items[k].deg.Some? && cardinal == Label(items[k].deg.value)
    case NotAvailable =>
      AllEarlier(items, |items|, target)
    case LookupFailed =>
      exists k :: 0 <= k < |items| && AllEarlier(items, k, target) &&
        (items[k].dt.None? || (Micros(items[k].dt.value) >= target && items[k].deg.None?))
    case _ => false
  }

  /** What `get_wind_direction_at_hour(hour)` returns at time `now`. */
  ghost predicate Resolves(apiKey: Option<string>, fetch: Fetch, now: int, hour: int, w: WindOutcome) {
    if !HasApiKey(apiKey) then w == NoApiKey
    else if fetch.RequestFailed? then w == LookupFailed
    else if !ValidHour(hour) then w == HourRejected
    else if fetch.list.None? then w == LookupFailed
    else ScanOutcome(fetch.list.value, TargetTime(now, hour), w)
  }

  method GetWindDirectionAtHour(apiKey: Option<string>, fetch: Fetch, now: int, targetHour: int)
    returns (w: WindOutcome)
    ensures Resolves(apiKey, fetch, now, targetHour, w)
  {
    if !HasApiKey(apiKey) {
      return NoApiKey;
    }
    if fetch.RequestFailed? {
      return LookupFailed;
    }
    if !ValidHour(targetHour) {
      return HourRejected;
    }
    var target := TargetTime(now, targetHour);
    if fetch.list.None? {
      return LookupFailed;
    }
    var items := fetch.list.value;
    for i := 0 to |items|
      invariant AllEarlier(items, i, target)
    {
      if items[i].dt.None? {
        return LookupFailed;
      }
      var forecastTime := items[i].dt.value;
      if Micros(forecastTime) >= target {
        if items[i].deg.None? {
          return LookupFailed;
        }
        return Found(Label(items[i].deg.value), forecastTime);
      }
    }
    return NotAvailable;
  }

  /** The description pins the outcome down: at most one outcome resolves. */
  lemma ResolvesUnique(apiKey: Option<string>, fetch: Fetch, now: int, hour: int, w1: WindOutcome, w2: WindOutcome)
    requires Resolves(apiKey, fetch, now, hour, w1)
    requires Resolves(apiKey, fetch, now, hour, w2)
    ensures w1 == w2
  {
    if HasApiKey(apiKey) && fetch.Response? && ValidHour(hour) && fetch.list.Some? {
      var items, target := fetch.list.value, TargetTime(now, hour);
      var k1 := StopIndex(items, target, w1);
      var k2 := StopIndex(items, target, w2);
    }
  }

  /** Where the scan stopped: the entry it returned on, or the length. */
  lemma StopIndex(items: seq<ForecastItem>, target: int, w: WindOutcome) returns (k: nat)
    requires ScanOutcome(items, target, w)
    ensures k <= |items| && AllEarlier(items, k, target)
    ensures k == |items| <==> w.NotAvailable?
    ensures k < |items| ==> w.Found? || w.LookupFailed?
    ensures k < |items| ==> (items[k].dt.None? || Micros(items[k].dt.value) >= target)
    ensures w.Found? ==> k < |items| && items[k].dt == Some(w.time) && items[k].deg.Some? && w.cardinal == Label(items[k].deg.value)
    ensures w.LookupFailed? ==> k < |items| && (items[k].dt.None? || items[k].deg.None?)
  {
    match w
    case Found(cardinal, time) =>
      k :| 0 <= k < |items| && AllEarlier(items, k, target) &&
        items[k].dt == Some(time) && Micros(time) >= target &&
        items[k].deg.Some? && cardinal == Label(items[k].deg.value);
    case NotAvailable =>
      k := |items|;
    case LookupFailed =>
      k :| 0 <= k < |items| && AllEarlier(items, k, target) &&
        (items[k].dt.None? || (Micros(items[k].dt.value) >= target && items[k].deg.None?));
  }
}

/** The `pickroute` command of bot.py: the per-user request counter, the early
    exits, the filter on the ideal wind direction, the stable closest-distance
    choice and the shaping of the notes. Sending messages, logging and the
    counter file are outside the model; the reply is a value. */
module Bot {
  import opened Cells
  import Repo
  import Wind

  const DefaultNotes: string := "No additional notes."
  const NotesLimit: nat := 90

  /** What the handler ends with: one of its three replies, or an exception
      that escapes it (the `ValueError` of an hour outside 0..23, an
      exception from downloading or opening the route workbook, or a
      `TypeError` from a distance or notes cell of the wrong type). */
  datatype Reply =
    | WindUnavailable(hour: int)           // "Could not retrieve wind direction for {hour}:00."
    | NoSuitableRoute                       // "No suitable routes found for the specified wind direction."
    | Recommend(route: Record, notes: string)
    | Raised

  // ---------------------------------------------------------------------
  // Filter

  /** `route.get("Ideal Wind Direction") == direction`. When the direction is
      `None`, a route with that cell empty or missing matches. */
  predicate DirectionMatches(route: Record, direction: Option<string>) {
    Get(route, WindDirectionField) == (if direction.Some? then Str(direction.value) else Empty)
  }

  /** `[route for route in routes if route.get("Ideal Wind Direction") == direction]`. */
  function Filter(routes: seq<Record>, direction: Option<string>): (r: seq<Record>)
    ensures forall x :: x in r <==> x in routes && DirectionMatches(x, direction)
    ensures |r| <= |routes|
  {
    if routes == [] then []
    else (if DirectionMatches(routes[0], direction) then [routes[0]] else []) + Filter(routes[1..], direction)
  }

  /** The filter keeps the original order: it distributes over concatenation. */
  lemma {:induction false} FilterAppend(a: seq<Record>, b: seq<Record>, direction: Option<string>)
    ensures Filter(a + b, direction) == Filter(a, direction) + Filter(b, direction)
  {
    if a == [] {
      assert a + b == b;
    } else {
      assert (a + b)[0] == a[0];
      assert (a + b)[1..] == a[1..] + b;
      FilterAppend(a[1..], b, direction);
    }
  }

  // ---------------------------------------------------------------------
  // Closest distance

  /** `route.get("Distance (mi)", 0)`. */
  function DistanceOrZero(route: Record): Cell {
    if DistanceField in route then route[DistanceField] else Num(0.0)
  }

  /** The key function can be evaluated: subtracting a float from anything
      but a number raises `TypeError`. */
  predicate DistanceUsable(route: Record) {
    DistanceOrZero(route).Num?
  }

  function Abs(x: real): real {
    if x < 0.0 then -x else x
  }

  /** `abs(route.get("Distance (mi)", 0) - mile)`. */
  function Gap(route: Record, mile: real): real
    requires DistanceUsable(route)
  {
    Abs(DistanceOrZero(route).n - mile)
  }

  /** The index `min(routes, key=...)` picks: a smallest gap, and the first
      one when several tie (Python's `min` keeps the earliest minimum). */
  function Closest(routes: seq<Record>, mile: real): (k: nat)
    requires |routes| > 0
    requires forall x | x in routes :: DistanceUsable(x)
    ensures k < |routes|
    ensures forall j :: 0 <= j < |routes| ==> Gap(routes[k], mile) <= Gap(routes[j], mile)
    ensures forall j :: 0 <= j < k ==> Gap(routes[k], mile) < Gap(routes[j], mile)
    decreases |routes|
  {
    if |routes| == 1 then 0
    else
      var init := routes[..|routes| - 1];
      assert forall x | x in init :: x in routes;
      var k := Closest(init, mile);
      assert init[k] == routes[k];
      if Gap(routes[|routes| - 1], mile) < Gap(routes[k], mile) then |routes| - 1 else k
  }

  /** Worked example: distances 18, 22 and 40 with a hint of 25
      pick the 22-mile route. */
  lemma ClosestExample()
    ensures
      var routes := [map[DistanceField := Num(18.0)], map[DistanceField := Num(22.0)], map[DistanceField := Num(40.0)]];
      Closest(routes, 25.0) == 1
  {
    var routes := [map[DistanceField := Num(18.0)], map[DistanceField := Num(22.0)], map[DistanceField := Num(40.0)]];
    var k := Closest(routes, 25.0);
    assert Gap(routes[0], 25.0) == 7.0 && Gap(routes[1], 25.0) == 3.0 && Gap(routes[2], 25.0) == 15.0;
  }

  // ---------------------------------------------------------------------
  // Notes

  /** `notes[:90]` for `notes = route.get("Notes", "No additional notes.")`,
      with `None` replaced by the same default. A number in the cell cannot be
      sliced: `None` here is the `TypeError`. */
  function DisplayNotes(route: Record): (r: Option<string>)
    ensures Get(route, NotesField) == Empty ==> r == Some(DefaultNotes)
    ensures Get(route, NotesField).Str? ==>
      var s := Get(route, NotesField).s;
      r.Some? && r.value <= s && |r.value| == Min(|s|, NotesLimit)
    ensures Get(route, NotesField).Num? ==> r == None
    ensures r.Some? ==> |r.value| <= NotesLimit
  {
    var notes := if NotesField in route then route[NotesField] else Str(DefaultNotes);
    var notes := if notes == Empty then Str(DefaultNotes) else notes;
    match notes
    case Str(s) => Some(if |s| <= NotesLimit then s else s[..NotesLimit])
    case _ => None
  }

  // ---------------------------------------------------------------------
  // The reply

  /** From the filtered list on: no match, or the closest route and its
      notes, or a `TypeError` while computing them. */
  function Select(routes: seq<Record>, direction: Option<string>, mile: real): (r: Reply)
    ensures r == NoSuitableRoute <==> Filter(routes, direction) == []
    ensures !r.WindUnavailable?
    ensures r.Recommend? ==> r.route in routes && DirectionMatches(r.route, direction)
    ensures r.Recommend? ==> DisplayNotes(r.route) == Some(r.notes)
    ensures r.Recommend? ==>
      var f := Filter(routes, direction);
      (forall x | x in f :: DistanceUsable(x)) &&
      exists k :: 0 <= k < |f| && f[k] == r.route &&
        (forall j :: 0 <= j < |f| ==> Gap(r.route, mile) <= Gap(f[j], mile)) &&
        (forall j :: 0 <= j < k ==> Gap(r.route, mile) < Gap(f[j], mile))
    ensures r.Raised? ==>
      var f := Filter(routes, direction);
      (exists x | x in f :: !DistanceUsable(x)) || DisplayNotes(f[Closest(f, mile)]).None?
  {
    var filtered := Filter(routes, direction);
    if filtered == [] then NoSuitableRoute
    else if exists x | x in filtered :: !DistanceUsable(x) then Raised
    else
      var k := Closest(filtered, mile);
      var closestRoute := filtered[k];
      match DisplayNotes(closestRoute)
      case None => Raised
      case Some(notes) => Recommend(closestRoute, notes)
  }

  /** The handler from the call to `get_wind_direction_at_hour` on. The
      catalog download is reached only after a truthy wind result, and an
      exception it raises escapes the handler. */
  function Answer(wind: Wind.WindOutcome, download: Repo.Download, mile: real, hour: int): (r: Reply)
    ensures wind.HourRejected? ==> r == Raised
    ensures wind.NoApiKey? ==> r == WindUnavailable(hour)
    ensures !wind.HourRejected? && !wind.NoApiKey? && download.DownloadRaised? ==> r == Raised
    ensures r.Recommend? ==>
      download.Downloaded? &&
      r.route in Repo.Catalog(download.status, download.rows) &&
      DirectionMatches(r.route, Wind.Direction(wind))
    ensures r == NoSuitableRoute <==>
      !wind.HourRejected? && !wind.NoApiKey? && download.Downloaded? &&
      Filter(Repo.Catalog(download.status, download.rows), Wind.Direction(wind)) == []
  {
    if wind.HourRejected? then Raised
    else if !Wind.Truthy(wind) then WindUnavailable(hour)
    else match download
      case DownloadRaised => Raised
      case Downloaded(status, rows) => Select(Repo.Catalog(status, rows), Wind.Direction(wind), mile)
  }

  /** The failure tuples `(None, ...)` are truthy, so the handler goes on with
      direction `None`: it recommends a route whose direction cell is empty
      or missing, and answers "no suitable route" only when there is none. */
  lemma FailedForecastPicksBlankDirection(wind: Wind.WindOutcome, status: int, rows: seq<seq<Cell>>, mile: real, hour: int)
    requires wind.NotAvailable? || wind.LookupFailed?
    ensures var r := Answer(wind, Repo.Downloaded(status, rows), mile, hour);
      r.Recommend? ==> Get(r.route, WindDirectionField) == Empty
    ensures var routes := Repo.Catalog(status, rows);
      Answer(wind, Repo.Downloaded(status, rows), mile, hour) == NoSuitableRoute <==>
      forall x | x in routes :: Get(x, WindDirectionField) != Empty
  {
    var routes := Repo.Catalog(status, rows);
    var f := Filter(routes, None);
    if f == [] {
      forall x | x in routes ensures Get(x, WindDirectionField) != Empty {
        assert x !in f;
      }
    } else {
      assert f[0] in f;
    }
  }

  /** On the catalog the parser produces, every distance is a number, so the
      closest-distance choice never raises; a recommended route is 20 to 50
      miles long, and the only exception left is a number in the notes
      column of the chosen route. */
  lemma CatalogSelection(status: int, rows: seq<seq<Cell>>, direction: Option<string>, mile: real)
    ensures var routes := Repo.Catalog(status, rows);
      forall x | x in Filter(routes, direction) :: DistanceUsable(x)
    ensures var r := Select(Repo.Catalog(status, rows), direction, mile);
      r.Recommend? ==> Repo.MinDistance <= Get(r.route, DistanceField).n <= Repo.MaxDistance
    ensures var routes := Repo.Catalog(status, rows);
      var r := Select(routes, direction, mile);
      var f := Filter(routes, direction);
      r.Raised? ==> Get(f[Closest(f, mile)], NotesField).Num?
  {
    var routes := Repo.Catalog(status, rows);
    var f := Filter(routes, direction);
    forall x | x in f ensures DistanceUsable(x) {
      assert Repo.InBand(x);
    }
  }

  // ---------------------------------------------------------------------
  // The request counter and the handler

  /** `request_counts`: a `defaultdict(int)` from user name to count, loaded
      from the counter file at start-up. */
  class RequestCounts {
    var counts: map<string, int>

    constructor (saved: map<string, int>)
      ensures counts == saved
    {
      counts := saved;
    }

    /** `request_counts[user]`, 0 for a user not seen yet. */
    function Count(user: string): int
      reads this
    {
      if user in counts then counts[user] else 0
    }

    /** `request_counts[user_name] += 1`. */
    method Increment(user: string)
      modifies this
      ensures counts == old(counts)[user := old(Count(user)) + 1]
      ensures Count(user) == old(Count(user)) + 1
      ensures forall u :: u != user ==> Count(u) == old(Count(u))
    {
      counts := counts[user := Count(user) + 1];
    }
  }

  /** `pickroute(ctx, hour, mile)` for the user `user`. The wind and route
      sources are the inputs of `get_wind_direction_at_hour` and of
      `download_and_parse_xlsx`; the JSON round trip between the parser and
      the handler is the identity. Its three failure branches cannot fire:
      `json.dumps` of a list is a non-empty string that decodes to a list. */
  method PickRoute(counts: RequestCounts, user: string, hour: int, mile: real,
                   apiKey: Option<string>, fetch: Wind.Fetch, now: int,
                   download: Repo.Download)
    returns (reply: Reply)
    modifies counts
    ensures counts.counts == old(counts.counts)[user := old(counts.Count(user)) + 1]
    ensures exists w ::
              Wind.Resolves(apiKey, fetch, now, hour, w) &&
              reply == Answer(w, download, mile, hour)
  {
    counts.Increment(user);
    var result := Wind.GetWindDirectionAtHour(apiKey, fetch, now, hour);
    if result.HourRejected? {
      reply := Raised;
    } else if !Wind.Truthy(result) {
      reply := WindUnavailable(hour);
    } else {
      var direction := Wind.Direction(result);
      match download {
        case DownloadRaised =>
          reply := Raised;
        case Downloaded(status, rows) =>
          var routes := Repo.DownloadAndParseXlsx(status, rows);
          reply := Select(routes, direction, mile);
      }
    }
    assert Wind.Resolves(apiKey, fetch, now, hour, result);
  }
}

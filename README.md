# Route recommendation core, modelled in Dafny

This project models the sequential core of a chat bot that recommends a
cycling route for the wind forecast at a requested hour. It covers three pieces:

- **The route catalog parser** (`repo.py`, module `Repo`). The row loop of
  `download_and_parse_xlsx` is a small state machine over the sheet's rows.
  Its state is "inside a data section" plus the current header list.
  A blank row closes a section. A row starting with `Route name` opens or
  reopens one and sets the headers to its non-falsy cells. Every other row
  inside a section is zipped with the headers. It is kept only when its
  `Distance (mi)` is a number from 20 to 50 inclusive. The imperative loop
  (`Repo.DownloadAndParseXlsx`) is proved equal to the functional
  specification `Repo.Catalog`, and the properties are lemmas about that function.
- **Wind resolution** (`wind.py`, module `Wind`). This covers Python's
  half-to-even `round` of degrees into eight labels. It also covers the
  rollover of the target time to tomorrow when today's slot has passed, and
  the scan for the first forecast entry at or after the target. Each way
  `get_wind_direction_at_hour` can end on a well-typed feed (integer `dt`
  and `deg`, a `list` of objects) is modelled: no API key gives `None`,
  a request or key error gives `(None, None)`, no entry late enough gives
  `(None, "Forecast not available…")`, and an hour outside 0..23 makes
  `datetime.replace` raise `ValueError`.
- **The `pickroute` handler** (`bot.py`, module `Bot`). This covers the
  per-user request counter and the early exit when the wind result is falsy.
  It also covers the exact-equality filter on `Ideal Wind Direction`, the
  stable closest-distance `min`, and the notes default plus 90-character
  truncation.

`cells.dfy` (module `Cells`) holds the shared cell values. A cell is
`Empty` (Python `None`), `Str` or `Num`, where `Num` covers int and float as
an exact real. The module also holds Python's truthiness of a cell (`None`,
`""` and `0` are falsy) and the record type, a map from header cell to cell.

Time is counted in integer microseconds of local wall-clock time. Forecast
timestamps are integer seconds. A day is 86 400 000 000 microseconds.

Some facts about the code that the model keeps:

- The parser keeps distances from 20 to 50 miles inclusive (`repo.py:43`).
- The forecast and the catalog are fetched afresh on every call; nothing is
  cached.
- `pickroute` always takes a mile value and picks the closest distance
  (`bot.py:152-154`).
- Degree 44 reads `NE`, because `round(44/45)` is 1. Over one turn the `N`
  sector is 0..22 together with 338..359 (`Wind.LabelNorthSector`).
- Rounding is Python's round-half-to-even. Integer degrees never reach a
  tie, so the index equals `((deg + 22) / 45) % 8`.

One quirk of the code is kept on purpose. A failed lookup returns the tuple
`(None, …)`, and a tuple is truthy. So the `if not result` guard passes, and
the handler filters with direction `None`. That matches routes whose
direction cell is empty or missing. `Bot.FailedForecastPicksBlankDirection`
states this.

## Model

| member | source | states |
|---|---|---|
| `Repo.NonFalsy` | repo.py:31 | the captured headers are exactly the row's non-falsy cells (membership both ways), never more than the row |
| `Repo.NonFalsyAppend` | repo.py:31 | capturing keeps the row's order: it distributes over concatenation |
| `Repo.ZipKeys` | repo.py:39 | a key is in the record iff it is one of the first min(\|headers\|, \|row\|) headers |
| `Repo.ZipLastWins` | repo.py:39 | a header maps to the row's cell in the column of its last occurrence among the zipped ones; later duplicates overwrite earlier ones |
| `Repo.Catalog` | repo.py:11-47 | a status other than 200 gives no records; a 200 gives the parse of the rows, and every record has a numeric distance in 20..50 |
| `Repo.DownloadAndParseXlsx` | repo.py:10-44 | the row loop over `in_data_section` and `headers` produces exactly `Catalog(status, rows)` |
| `Repo.ParseInBand` | repo.py:41-44 | every emitted record's `Distance (mi)` is a number d with 20 <= d <= 50 |
| `Repo.ParsePrefixInBand` | repo.py:41-44 | the band holds for the records of every prefix of the sheet |
| `Repo.ParseProvenance` | repo.py:22-44 | output records come one each, in sheet order, from strictly increasing row indices, which are exactly the rows that contribute; each such row is non-blank, not a header and inside a section, and its record is the zip of the headers in force with it |
| `Repo.SectionHasHeaders` | repo.py:29-36 | inside a data section the headers are non-empty and start with `Route name`, so the `not headers` test never fires |
| `Repo.OutsideBeforeFirstHeader` | repo.py:18-36 | before the first header row the loop is outside every data section |
| `Repo.NothingBeforeFirstHeader` | repo.py:18-36 | a data row before the first header row is never emitted |
| `Repo.BlankClosesSection` | repo.py:24-36 | after a blank row and until the next header row nothing is emitted, while the old headers are retained |
| `Repo.HeaderRowOpensSection` | repo.py:29-32 | a header row is never emitted; afterwards the loop is inside a section whose headers are that row's non-falsy cells |
| `Repo.ExampleStates` | repo.py:22-32 | loop states on the example sheet: outside before the first header, closed by the blank row, reopened by the second header |
| `Repo.ExampleRecords` | repo.py:35-44 | the stray row and the 51-mile row of the example contribute nothing; the 25- and 50-mile rows contribute their zipped records |
| `Repo.TwoBlocksExample` | repo.py:18-44 | a stray row before any header is dropped, and two stacked blocks separated by a blank row both contribute, in order |
| `Wind.RoundHalfEven` | wind.py:28 | Python `round`: the result is within 1/2 of x, and it is even when x lies exactly halfway |
| `Wind.DirectionIndex` | wind.py:28 | `round(deg / 45) % 8` is always in 0..7 |
| `Wind.Label` | wind.py:27-29 | the label is always one of the eight `cardinal_directions` |
| `Wind.DirectionIndexIntegerForm` | wind.py:28 | for every integer degree the rounding equals `((deg + 22) / 45) % 8` |
| `Wind.LabelFixedPoints` | wind.py:27-28 | 0 and 22 read N; 23, 44 and 46 read NE; 360 reads like 0 |
| `Wind.LabelNorthSector` | wind.py:27-28 | for a degree in 0..359 the label is N exactly when the degree is at most 22 or at least 338 |
| `Wind.LabelPeriodic` | wind.py:28 | adding 360 degrees never changes the label |
| `Wind.TimeOfDay` | wind.py:19 | a day boundary plus a whole hour has that hour and zero minutes, seconds and microseconds |
| `Wind.TargetTime` | wind.py:19-21 | the target is on the requested hour with minute, second and microsecond 0; it lies in [now, now + 1 day); it is today's slot exactly when that slot is not before now, and tomorrow's otherwise |
| `Wind.RolloverExample` | wind.py:18-21 | at 14:30, hour 10 resolves to 10:00 the next day and hour 18 to 18:00 the same day |
| `Wind.GetWindDirectionAtHour` | wind.py:5-36 | a missing or empty API key gives `None`; a request failure or a missing `list` gives `(None, None)`; an hour outside 0..23 raises; otherwise the result is the first entry in feed order with timestamp >= target, all earlier ones being < target, labelled by its degree; a missing `dt` before that, or a missing `deg` on it, gives `(None, None)`; no such entry gives "not available" |
| `Wind.StopIndex` | wind.py:23-30 | every scan outcome has a stopping index: the returned entry, the entry whose key was missing, or the end of the feed |
| `Wind.ResolvesUnique` | wind.py:15-36 | the description of the outcome admits exactly one outcome for given inputs |
| `Bot.Filter` | bot.py:141-143 | the filtered list holds exactly the routes whose direction cell equals the direction, and is no longer than the input |
| `Bot.FilterAppend` | bot.py:141-143 | filtering keeps the original order: it distributes over concatenation |
| `Bot.Closest` | bot.py:152-154 | the picked route minimises \|distance - mile\| (a missing distance counting as 0), and no earlier route ties it |
| `Bot.ClosestExample` | bot.py:152-154 | distances 18, 22, 40 with mile 25 pick the 22-mile route |
| `Bot.DisplayNotes` | bot.py:156-165 | missing or `None` notes show "No additional notes."; string notes show their prefix of length min(\|notes\|, 90); a number cannot be sliced |
| `Bot.Select` | bot.py:141-171 | no match gives the "No suitable routes" reply and nothing else does; a recommendation is a matching route of the list with the smallest gap, the earliest among ties, shown with its shaped notes; an exception comes only from an unusable distance or unsliceable notes |
| `Bot.Answer` | bot.py:108-171 | a `None` wind result stops with "Could not retrieve wind direction" before any route is looked at; a rejected hour raises; after a truthy wind result a raising catalog download escapes as an exception; a recommendation is a route of the parsed catalog matching the wind result's direction, and "no suitable route" comes exactly when the download succeeded and no catalog route matches |
| `Bot.FailedForecastPicksBlankDirection` | bot.py:111-143 | after `(None, …)` and a successful download a recommended route has an empty or missing direction cell, and "no suitable route" comes exactly when no route has one |
| `Bot.CatalogSelection` | bot.py:152-165 | on the parsed catalog the distance key never raises, a recommended route is 20..50 miles, and an exception can only come from a number in the chosen route's notes |
| `Bot.RequestCounts.constructor` | bot.py:38-46 | the counter starts from the loaded map, unseen users counting 0 |
| `Bot.RequestCounts.Increment` | bot.py:95 | `request_counts[user]` rises by exactly 1 (from 0 for a new user) and every other user's count is unchanged |
| `Bot.PickRoute` | bot.py:92-171 | the user's count is incremented first, whatever follows; the reply is `Answer` applied to the outcome the wind lookup resolves to and to the catalog download, whose rows go through the parser's loop |

The parse is deterministic because `Repo.Catalog` is a function of the rows
and the status, and the loop is proved equal to it.

## Left out

- HTTP fetches (`requests.get`), `.json()` decoding and the xlsx decoding (`openpyxl.load_workbook`). These are foreign calls. The model starts from a `Repo.Download` value (an exception, or the status and decoded rows) and from a `Wind.Fetch` value.
- `requests` raising on `.json()`: the model treats an undecodable forecast body as a request failure. Recent versions of `requests` raise an exception derived from `RequestException` for it.
- Cell types other than `None`, strings and numbers are not modelled. This covers booleans, dates and formulas' error values. Python also treats `True == 1` as the same dict key, and the model does not.
- The JSON round trip between the parser and the handler is the identity. When `json.dumps` turns non-string header keys into strings, those keys could merge, and the model does not capture that.
- The three handler branches after the JSON step (`bot.py:121-138`: `not json_data`, the decode error and the list check) cannot fire in the source: `json.dumps` of a list always gives a non-empty string, and that string always decodes to a list. They are not modelled.
- `Wind.GetWindDirectionAtHour`: a `dt` or `deg` of the wrong type, or a body, `list` or item of the wrong shape, raises `TypeError` in the source. That error escapes the handler and is not modelled; `Wind.ForecastItem` can only say that a key is missing. A fractional `deg`, which the source rounds like any number, is not modelled either: degrees are integers.
- Reading and writing `request_counts.json` is file I/O. Only the in-memory update is modelled. The constructor takes the loaded map.
- Discord setup, `on_ready`, `synccommands`, `ping`, `wind_forecast`, message sending, the token check and `bot.run` are chat-framework plumbing and not part of this model.
- Environment and `.env` loading are configuration I/O. The API key is a parameter.
- Logging and `print`.
- `datetime.now`, `fromtimestamp` and `strftime`, with time zones and daylight saving. Time is abstract integer microseconds, and the returned time is the entry's raw `dt`.
- The text of the recommendation message: the formatting of name, distance, direction and link with `N/A` defaults. The reply carries the chosen record and its shaped notes instead.
- Floating-point arithmetic on `mile` and distances. These are exact reals.
- Python strings holding lone surrogate code points, which a Dafny string cannot hold, are not modelled.
- The unused `random` import.

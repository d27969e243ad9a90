/** The route catalog: `download_and_parse_xlsx` in repo.py. The HTTP download
    and the xlsx decoding are outside the model; it starts from the response
    status and the already decoded rows of the active sheet. The row loop is a
    small state machine whose state is `in_data_section` and `headers`. */
module Repo {
  import opened Cells

  const HttpOk: int := 200
  const MinDistance: real := 20.0
  const MaxDistance: real := 50.0

  /** `not any(row)`: every cell is falsy (an empty row included). */
  predicate Blank(row: seq<Cell>) {
    forall c | c in row :: Falsy(c)
  }

  /** `row[0] == 'Route name'`. */
  predicate IsHeaderRow(row: seq<Cell>) {
    |row| > 0 && row[0] == RouteNameField
  }

  /** `[cell for cell in row if cell]`. */
  function NonFalsy(row: seq<Cell>): (r: seq<Cell>)
    ensures forall c :: c in r <==> c in row && !Falsy(c)
    ensures |r| <= |row|
  {
    if row == [] then []
    else if Falsy(row[0]) then NonFalsy(row[1..])
    else [row[0]] + NonFalsy(row[1..])
  }

  lemma {:induction false} NonFalsyAppend(a: seq<Cell>, b: seq<Cell>)
    ensures NonFalsy(a + b) == NonFalsy(a) + NonFalsy(b)
  {
    if a == [] {
      assert a + b == b;
    } else {
      assert (a + b)[0] == a[0];
      assert (a + b)[1..] == a[1..] + b;
      NonFalsyAppend(a[1..], b);
    }
  }

  /** `dict(zip(headers, row))`: pairs up to the shorter of the two; a later
      duplicate header overwrites an earlier one. */
  function Zip(headers: seq<Cell>, row: seq<Cell>): Record
    decreases |headers|
  {
    var n := Min(|headers|, |row|);
    if n == 0 then map[]
    else Zip(headers[..n - 1], row[..n - 1])[headers[n - 1] := row[n - 1]]
  }

  /** The keys of the record are exactly the headers that have a cell beside them. */
  lemma {:induction false} ZipKeys(headers: seq<Cell>, row: seq<Cell>, k: Cell)
    ensures k in Zip(headers, row) <==> exists j :: 0 <= j < Min(|headers|, |row|) && headers[j] == k
    decreases |headers|
  {
    var n := Min(|headers|, |row|);
    if n > 0 {
      var h, r := headers[..n - 1], row[..n - 1];
      assert Min(|h|, |r|) == n - 1;
      ZipKeys(h, r, k);
      if k in Zip(h, r) {
        var j :| 0 <= j < n - 1 && h[j] == k;
        assert headers[j] == k;
      }
      if exists j :: 0 <= j < n && headers[j] == k {
        var j :| 0 <= j < n && headers[j] == k;
        if j < n - 1 { assert h[j] == k; }
      }
    }
  }

  /** Each header maps to the cell in the column of its LAST occurrence. */
  lemma {:induction false} ZipLastWins(headers: seq<Cell>, row: seq<Cell>, j: nat)
    requires j < Min(|headers|, |row|)
    requires forall i :: j < i < Min(|headers|, |row|) ==> headers[i] != headers[j]
    ensures headers[j] in Zip(headers, row) && Zip(headers, row)[headers[j]] == row[j]
    decreases |headers|
  {
    var n := Min(|headers|, |row|);
    if j < n - 1 {
      var h, r := headers[..n - 1], row[..n - 1];
      assert Min(|h|, |r|) == n - 1;
      ZipLastWins(h, r, j);
    }
  }

  /** `isinstance(distance, (int, float)) and 20 <= distance <= 50` for
      `distance = row_data.get('Distance (mi)')`. */
  predicate InBand(rec: Record) {
    Get(rec, DistanceField).Num? && MinDistance <= Get(rec, DistanceField).n <= MaxDistance
  }

  /** The loop state: `in_data_section` and `headers`. */
  datatype SheetState = SheetState(inDataSection: bool, headers: seq<Cell>)

  const Start: SheetState := SheetState(false, [])

  /** How one row changes the loop state. */
  function Step(st: SheetState, row: seq<Cell>): SheetState {
    if Blank(row) then st.(inDataSection := false)
    else if IsHeaderRow(row) then SheetState(true, NonFalsy(row))
    else st
  }

  /** What one row appends to `filtered_data`, given the state before it. */
  function Emit(st: SheetState, row: seq<Cell>): Option<Record> {
    if Blank(row) || IsHeaderRow(row) || !st.inDataSection || st.headers == [] then None
    else
      var rec := Zip(st.headers, row);
      if InBand(rec) then Some(rec) else None
  }

  /** The loop state before row i. */
  function StateAt(rows: seq<seq<Cell>>, i: nat): SheetState
    requires i <= |rows|
  {
    if i == 0 then Start else Step(StateAt(rows, i - 1), rows[i - 1])
  }

  /** The record row i contributes, if any. */
  function RecordAt(rows: seq<seq<Cell>>, i: nat): Option<Record>
    requires i < |rows|
  {
    Emit(StateAt(rows, i), rows[i])
  }

  /** `filtered_data` after the first n rows. */
  function ParsePrefix(rows: seq<seq<Cell>>, n: nat): seq<Record>
    requires n <= |rows|
  {
    if n == 0 then []
    else ParsePrefix(rows, n - 1) + (if RecordAt(rows, n - 1).Some? then [RecordAt(rows, n - 1).value] else [])
  }

  function Parse(rows: seq<seq<Cell>>): seq<Record> {
    ParsePrefix(rows, |rows|)
  }

  /** The records `download_and_parse_xlsx` hands on (before the JSON hop):
      nothing unless the download answered 200, and every record in band. */
  function Catalog(status: int, rows: seq<seq<Cell>>): (r: seq<Record>)
    ensures status != HttpOk ==> r == []
    ensures status == HttpOk ==> r == Parse(rows)
    ensures forall rec | rec in r :: InBand(rec)
  {
    if status == HttpOk then ParseInBand(rows); Parse(rows) else []
  }

  /** What `requests.get(url)` and, for a 200, `openpyxl.load_workbook`
      hand over: either one of them raised (no connection, a body that is
      not a workbook), or the response status and the rows of the active
      sheet. The rows are read only when the status is 200. */
  datatype Download = DownloadRaised | Downloaded(status: int, rows: seq<seq<Cell>>)

  /** The row loop itself, run on the decoded rows. */
  method DownloadAndParseXlsx(status: int, rows: seq<seq<Cell>>) returns (filteredData: seq<Record>)
    ensures filteredData == Catalog(status, rows)
  {
    filteredData := [];
    if status == HttpOk {
      var inDataSection := false;
      var headers: seq<Cell> := [];
      for i := 0 to |rows|
        invariant StateAt(rows, i) == SheetState(inDataSection, headers)
        invariant filteredData == ParsePrefix(rows, i)
      {
        var row := rows[i];
        if Blank(row) {
          inDataSection := false;
          continue;
        }
        if row[0] == RouteNameField {
          inDataSection := true;
          headers := NonFalsy(row);
          continue;
        }
        if !inDataSection || headers == [] {
          continue;
        }
        var rowData := Zip(headers, row);
        var distance := Get(rowData, DistanceField);
        if distance.Num? && MinDistance <= distance.n <= MaxDistance {
          filteredData := filteredData + [rowData];
        }
      }
    }
  }

  // ---------------------------------------------------------------------
  // Properties of the parse

  lemma {:induction false} ParsePrefixInBand(rows: seq<seq<Cell>>, n: nat)
    requires n <= |rows|
    ensures forall rec | rec in ParsePrefix(rows, n) :: InBand(rec)
  {
    if n > 0 {
      ParsePrefixInBand(rows, n - 1);
    }
  }

  /** Every emitted record has a numeric distance in 20..50, bounds included. */
  lemma ParseInBand(rows: seq<seq<Cell>>)
    ensures forall rec | rec in Parse(rows) :: InBand(rec)
  {
    ParsePrefixInBand(rows, |rows|);
  }

  /** The indices of the rows that contribute a record, in sheet order. */
  function EmittedRows(rows: seq<seq<Cell>>, n: nat): seq<nat>
    requires n <= |rows|
  {
    if n == 0 then []
    else EmittedRows(rows, n - 1) + (if RecordAt(rows, n - 1).Some? then [n - 1] else [])
  }

  /** The output lists, in sheet order and one each, the records of exactly
      those rows that contribute one; such a row is a non-blank, non-header
      row inside a data section, and its record is the zip of the headers in
      force with that row. */
  lemma {:induction false} ParseProvenance(rows: seq<seq<Cell>>, n: nat)
    requires n <= |rows|
    ensures |EmittedRows(rows, n)| == |ParsePrefix(rows, n)|
    ensures forall k, l :: 0 <= k < l < |EmittedRows(rows, n)| ==> EmittedRows(rows, n)[k] < EmittedRows(rows, n)[l]
    ensures forall k :: 0 <= k < |EmittedRows(rows, n)| ==>
      EmittedRows(rows, n)[k] < n && RecordAt(rows, EmittedRows(rows, n)[k]) == Some(ParsePrefix(rows, n)[k])
    ensures forall i :: 0 <= i < n && RecordAt(rows, i).Some? ==> i in EmittedRows(rows, n)
    ensures forall i :: 0 <= i < n && RecordAt(rows, i).Some? ==>
      !Blank(rows[i]) && !IsHeaderRow(rows[i]) && StateAt(rows, i).inDataSection &&
      RecordAt(rows, i).value == Zip(StateAt(rows, i).headers, rows[i])
  {
    if n > 0 {
      ParseProvenance(rows, n - 1);
    }
  }

  /** Inside a data section the headers are never empty and start with the
      marker, so the `not headers` test never fires. */
  lemma {:induction false} SectionHasHeaders(rows: seq<seq<Cell>>, i: nat)
    requires i <= |rows|
    ensures StateAt(rows, i).inDataSection ==>
      |StateAt(rows, i).headers| > 0 && StateAt(rows, i).headers[0] == RouteNameField
  {
    if i > 0 {
      SectionHasHeaders(rows, i - 1);
      var row := rows[i - 1];
      if !Blank(row) && IsHeaderRow(row) {
        NonFalsyAppend([row[0]], row[1..]);
        assert [row[0]] + row[1..] == row;
        assert !Falsy(row[0]);
      }
    }
  }

  /** Until the first header row the loop is outside any data section. */
  lemma {:induction false} OutsideBeforeFirstHeader(rows: seq<seq<Cell>>, i: nat)
    requires i <= |rows|
    requires forall j :: 0 <= j < i ==> !IsHeaderRow(rows[j])
    ensures !StateAt(rows, i).inDataSection
  {
    if i > 0 {
      OutsideBeforeFirstHeader(rows, i - 1);
    }
  }

  /** Data rows before the first header row are never emitted. */
  lemma NothingBeforeFirstHeader(rows: seq<seq<Cell>>, i: nat)
    requires i < |rows|
    requires forall j :: 0 <= j < i ==> !IsHeaderRow(rows[j])
    ensures RecordAt(rows, i) == None
  {
    OutsideBeforeFirstHeader(rows, i);
  }

  /** After a blank row and until the next header row, the loop is outside a
      data section, while the headers of the closed section are retained. */
  lemma {:induction false} BlankClosesSection(rows: seq<seq<Cell>>, b: nat, i: nat)
    requires b < i <= |rows|
    requires Blank(rows[b])
    requires forall j :: b < j < i ==> !IsHeaderRow(rows[j])
    ensures !StateAt(rows, i).inDataSection
    ensures StateAt(rows, i).headers == StateAt(rows, b).headers
    ensures i < |rows| ==> RecordAt(rows, i) == None
  {
    if i > b + 1 {
      BlankClosesSection(rows, b, i - 1);
    }
  }

  /** A header row is never emitted; it opens a section whose headers are its
      non-falsy cells in order. */
  lemma HeaderRowOpensSection(rows: seq<seq<Cell>>, i: nat)
    requires i < |rows|
    requires IsHeaderRow(rows[i])
    ensures RecordAt(rows, i) == None
    ensures StateAt(rows, i + 1) == SheetState(true, NonFalsy(rows[i]))
  {
    assert !Falsy(rows[i][0]);
  }

  /** A sheet with a stray data row before any header, then two stacked
      header/data blocks separated by a blank row. */
  const ExampleHeader: seq<Cell> := [RouteNameField, DistanceField, Empty]
  const ExampleSheet: seq<seq<Cell>> :=
    [[Str("Stray"), Num(30.0)],
     ExampleHeader, [Str("Loop A"), Num(25.0)],
     [Empty, Str("")],
     ExampleHeader, [Str("Loop B"), Num(50.0)], [Str("Loop C"), Num(51.0)]]

  lemma ExampleStates()
    ensures StateAt(ExampleSheet, 1) == Start
    ensures StateAt(ExampleSheet, 3) == SheetState(true, [RouteNameField, DistanceField])
    ensures StateAt(ExampleSheet, 4) == SheetState(false, [RouteNameField, DistanceField])
    ensures StateAt(ExampleSheet, 6) == SheetState(true, [RouteNameField, DistanceField])
  {
    var rows := ExampleSheet;
    var headers := [RouteNameField, DistanceField];
    assert NonFalsy(ExampleHeader) == headers by {
      assert NonFalsy([Empty]) == [];
      assert NonFalsy([DistanceField, Empty]) == [DistanceField];
    }
    assert rows[0][0] in rows[0] && rows[2][0] in rows[2] && rows[5][0] in rows[5];
    assert rows[1][0] in rows[1] && rows[4][0] in rows[4];
    assert StateAt(rows, 1) == Start;
    assert StateAt(rows, 2) == SheetState(true, headers);
    assert StateAt(rows, 3) == SheetState(true, headers);
    assert StateAt(rows, 4) == SheetState(false, headers);
    assert StateAt(rows, 5) == SheetState(true, headers);
  }

  lemma ExampleRecords()
    ensures RecordAt(ExampleSheet, 0) == None
    ensures RecordAt(ExampleSheet, 2) == Some(map[RouteNameField := Str("Loop A"), DistanceField := Num(25.0)])
    ensures RecordAt(ExampleSheet, 5) == Some(map[RouteNameField := Str("Loop B"), DistanceField := Num(50.0)])
    ensures RecordAt(ExampleSheet, 6) == None
  {
    var rows := ExampleSheet;
    var headers := [RouteNameField, DistanceField];
    ExampleStates();
    assert StateAt(rows, 2) == StateAt(rows, 3);
    assert StateAt(rows, 5) == StateAt(rows, 6);
    assert headers[..1] == [RouteNameField];
    assert rows[2][..1] == [Str("Loop A")] && rows[5][..1] == [Str("Loop B")] && rows[6][..1] == [Str("Loop C")];
    assert Zip([RouteNameField], [Str("Loop A")]) == map[RouteNameField := Str("Loop A")];
    assert Zip([RouteNameField], [Str("Loop B")]) == map[RouteNameField := Str("Loop B")];
    assert Zip([RouteNameField], [Str("Loop C")]) == map[RouteNameField := Str("Loop C")];
    assert rows[2][0] in rows[2] && rows[5][0] in rows[5] && rows[6][0] in rows[6];
  }

  /** Worked example: the stray row is dropped, both blocks contribute, and
      the 51-mile loop is outside the band. */
  lemma TwoBlocksExample()
    ensures Parse(ExampleSheet) == [map[RouteNameField := Str("Loop A"), DistanceField := Num(25.0)],
                                    map[RouteNameField := Str("Loop B"), DistanceField := Num(50.0)]]
  {
    var rows := ExampleSheet;
    ExampleRecords();
    assert rows[1][0] in rows[1] && rows[4][0] in rows[4] && rows[3] == [Empty, Str("")];
    assert RecordAt(rows, 1) == None && RecordAt(rows, 3) == None && RecordAt(rows, 4) == None;
    assert ParsePrefix(rows, 1) == [];
    assert ParsePrefix(rows, 2) == [];
    var a := map[RouteNameField := Str("Loop A"), DistanceField := Num(25.0)];
    var b := map[RouteNameField := Str("Loop B"), DistanceField := Num(50.0)];
    assert ParsePrefix(rows, 3) == [a];
    assert ParsePrefix(rows, 4) == [a];
    assert ParsePrefix(rows, 5) == [a];
    assert ParsePrefix(rows, 6) == [a, b];
    assert ParsePrefix(rows, 7) == [a, b];
  }
}

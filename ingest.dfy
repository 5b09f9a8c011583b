/** Ingestion of one weather-station CSV export: the row loop of `process_csv`.
    The file has already been read and split into named columns; a row holds
    the two cells the loop looks at, each of which may be null. */
module Ingest {
  import opened Wrappers

  /** Header of the date column. */
  const DateColumn: string := "Data"
  /** Header of the hourly dry-bulb air-temperature column. */
  const TemperatureColumn: string := "TEMPERATURA DO AR - BULBO SECO, HORARIA (°C)"

  /** One data row: the date cell and the temperature cell. A cell of a column
      the file does not have is never looked at. */
  datatype Row = Row(date: Option<string>, temperature: Option<string>)

  /** A parsed file: the set of column headers and the rows in file order. */
  datatype Frame = Frame(columns: set<string>, rows: seq<Row>)

  /** The one record kind the ingester builds (`DadosMeteorologicos`): the date
      text as read, and the temperature text with a decimal point. */
  datatype WeatherRecord = WeatherRecord(date: string, airTemperature: string)

  /** Looking up a column the file lacks raises a key error naming it. */
  datatype KeyError = MissingColumn(name: string)

  /** A row is kept exactly when neither of its two cells is null. */
  predicate Complete(row: Row) {
    row.date.Some? && row.temperature.Some?
  }

  /** The temperature text with every decimal comma replaced by a point. */
  function DecimalPoint(s: string): (r: string)
    ensures |r| == |s|
    ensures forall i :: 0 <= i < |s| ==> r[i] == (if s[i] == ',' then '.' else s[i])
    ensures ',' !in r
  {
    if s == [] then [] else [if s[0] == ',' then '.' else s[0]] + DecimalPoint(s[1..])
  }

  /** Normalising an already normalised text changes nothing. */
  lemma DecimalPointIdempotent(s: string)
    ensures DecimalPoint(DecimalPoint(s)) == DecimalPoint(s)
  {
    var r := DecimalPoint(s);
    DecimalPointFixed(r);
  }

  /** A text is left unchanged exactly when it holds no comma. */
  lemma DecimalPointFixed(s: string)
    ensures DecimalPoint(s) == s <==> ',' !in s
  {
    if ',' !in s {
      var r := DecimalPoint(s);
      assert forall i :: 0 <= i < |s| ==> r[i] == s[i];
    }
  }

  /** The record a complete row becomes. */
  function ToRecord(row: Row): WeatherRecord
    requires Complete(row)
  {
    WeatherRecord(row.date.value, DecimalPoint(row.temperature.value))
  }

  /** The records of the complete rows, in row order (specification of the loop). */
  function Kept(rows: seq<Row>): seq<WeatherRecord> {
    if rows == [] then []
    else
      var last := rows[|rows| - 1];
      Kept(rows[..|rows| - 1]) + (if Complete(last) then [ToRecord(last)] else [])
  }

  /** The positions of the complete rows, in increasing order. */
  function CompleteIndices(rows: seq<Row>): (r: seq<nat>)
    ensures |r| <= |rows|
    ensures forall k :: 0 <= k < |r| ==> r[k] < |rows| && Complete(rows[r[k]])
    ensures forall k, l :: 0 <= k < l < |r| ==> r[k] < r[l]
    ensures |r| == |rows| <==> forall i :: 0 <= i < |rows| ==> Complete(rows[i])
  {
    if rows == [] then []
    else
      var n := |rows| - 1;
      var init := rows[..n];
      var r := CompleteIndices(init) + (if Complete(rows[n]) then [n] else []);
      assert forall i :: 0 <= i < n ==> init[i] == rows[i];
      assert |r| == |rows| ==> Complete(rows[n]) && |CompleteIndices(init)| == n;
      r
  }

  /** Every complete row's position is listed. */
  lemma {:induction false} CompleteIndicesCover(rows: seq<Row>, i: nat)
    requires i < |rows| && Complete(rows[i])
    ensures i in CompleteIndices(rows)
  {
    var n := |rows| - 1;
    if i < n {
      CompleteIndicesCover(rows[..n], i);
    }
  }

  /** `Kept` selects the complete rows: its k-th record is built from the row
      at the k-th complete position, and nothing else is in it. */
  lemma {:induction false} KeptSelects(rows: seq<Row>)
    ensures |Kept(rows)| == |CompleteIndices(rows)|
    ensures forall k :: 0 <= k < |Kept(rows)| ==>
      Kept(rows)[k] == ToRecord(rows[CompleteIndices(rows)[k]])
  {
    if rows != [] {
      var n := |rows| - 1;
      var init := rows[..n];
      KeptSelects(init);
      var ci := CompleteIndices(init);
      forall k | 0 <= k < |ci|
        ensures rows[ci[k]] == init[ci[k]]
      {
      }
    }
  }

  /** No more records than rows, and as many exactly when no row is skipped. */
  lemma {:induction false} KeptLength(rows: seq<Row>)
    ensures |Kept(rows)| <= |rows|
    ensures |Kept(rows)| == |rows| <==> forall i :: 0 <= i < |rows| ==> Complete(rows[i])
  {
    KeptSelects(rows);
  }

  /** Every record is built from some complete row. */
  lemma KeptFromCompleteRows(rows: seq<Row>)
    ensures forall k :: 0 <= k < |Kept(rows)| ==>
      exists i :: 0 <= i < |rows| && Complete(rows[i]) && Kept(rows)[k] == ToRecord(rows[i])
  {
    KeptSelects(rows);
    var ci := CompleteIndices(rows);
    forall k | 0 <= k < |Kept(rows)|
      ensures exists i :: 0 <= i < |rows| && Complete(rows[i]) && Kept(rows)[k] == ToRecord(rows[i])
    {
      var i := ci[k];
      assert 0 <= i < |rows| && Complete(rows[i]);
      assert Kept(rows)[k] == ToRecord(rows[i]);
    }
  }

  /** Every complete row yields a record (exactly one, in row order: see
      `KeptSelects` and the increasing `CompleteIndices`). */
  lemma CompleteRowsKept(rows: seq<Row>, i: nat)
    requires i < |rows| && Complete(rows[i])
    ensures exists k :: 0 <= k < |Kept(rows)| && Kept(rows)[k] == ToRecord(rows[i])
  {
    KeptSelects(rows);
    CompleteIndicesCover(rows, i);
    var ci := CompleteIndices(rows);
    var k :| 0 <= k < |ci| && ci[k] == i;
    assert Kept(rows)[k] == ToRecord(rows[i]);
  }

  /** Each record keeps its row's date text verbatim, and its temperature is
      the row's text, same length, with commas turned into points and every
      other character in place. */
  lemma KeptRecordsNormalised(rows: seq<Row>, k: nat)
    requires k < |Kept(rows)|
    ensures k < |CompleteIndices(rows)|
    ensures var i := CompleteIndices(rows)[k];
      var rec := Kept(rows)[k];
      var t := rows[i].temperature.value;
      && rec.date == rows[i].date.value
      && ',' !in rec.airTemperature
      && |rec.airTemperature| == |t|
      && forall j :: 0 <= j < |t| && t[j] != ',' ==> rec.airTemperature[j] == t[j]
  {
    KeptSelects(rows);
  }

  /** Ingesting two row blocks one after the other gives the two record lists
      one after the other. */
  lemma {:induction false} KeptAppend(a: seq<Row>, b: seq<Row>)
    ensures Kept(a + b) == Kept(a) + Kept(b)
  {
    if b == [] {
      assert a + b == a;
    } else {
      var n := |b| - 1;
      assert (a + b)[..|a + b| - 1] == a + b[..n];
      KeptAppend(a, b[..n]);
    }
  }

  /** What `process_csv` returns for a frame, or the key error it raises. The
      date cell is read for every row, so a frame with rows but no date column
      fails; the temperature cell is read only for rows whose date is not null. */
  function ProcessSpec(frame: Frame): Result<seq<WeatherRecord>, KeyError> {
    if |frame.rows| > 0 && DateColumn !in frame.columns then
      Failure(MissingColumn(DateColumn))
    else if TemperatureColumn !in frame.columns
            && exists j :: 0 <= j < |frame.rows| && frame.rows[j].date.Some? then
      Failure(MissingColumn(TemperatureColumn))
    else
      Success(Kept(frame.rows))
  }

  /** The row loop: skip rows with a null date or a null temperature, rewrite
      the temperature's decimal comma, append one record per surviving row. */
  method ProcessCsv(frame: Frame) returns (r: Result<seq<WeatherRecord>, KeyError>)
    ensures r == ProcessSpec(frame)
    ensures r.Success? ==> |r.value| <= |frame.rows|
  {
    var records: seq<WeatherRecord> := [];
    var rows := frame.rows;
    for i := 0 to |rows|
      invariant records == Kept(rows[..i])
      invariant i > 0 ==> DateColumn in frame.columns
      invariant TemperatureColumn !in frame.columns ==>
        forall j :: 0 <= j < i ==> rows[j].date.None?
    {
      assert rows[..i + 1][..i] == rows[..i];
      var row := rows[i];
      if DateColumn !in frame.columns {
        return Failure(MissingColumn(DateColumn));
      }
      if row.date.None? {
        continue;
      }
      if TemperatureColumn !in frame.columns {
        return Failure(MissingColumn(TemperatureColumn));
      }
      if row.temperature.None? {
        continue;
      }
      var temperature := DecimalPoint(row.temperature.value);
      records := records + [WeatherRecord(row.date.value, temperature)];
    }
    assert rows[..|rows|] == rows;
    KeptLength(rows);
    r := Success(records);
  }
}

# Weather-station ingestion and forecast window, modelled in Dafny

The program reads hourly weather-station CSV exports (INMET files for the
Três Rios station), keeps the rows that carry both a date and a dry-bulb air
temperature, merges the per-file results, and forecasts the air temperature
for the five days after the latest observed date with a linear regression.

This project models the deterministic part of that pipeline:

- `Ingest` (`ingest.dfy`): the row loop of `process_csv`. A parsed file is a
  `Frame`: its column headers and its rows, each row holding the `Data` cell
  and the `TEMPERATURA DO AR - BULBO SECO, HORARIA (°C)` cell as
  `Option<string>` (a null cell is `None`). Rows with a null date or a null
  temperature are skipped. In each surviving row every `,` of the temperature
  text becomes `.`, and the row becomes a `WeatherRecord` (the source's
  `DadosMeteorologicos`). The temperature stays text. `ProcessCsv` is the
  loop itself, proved equal to the specification `ProcessSpec`. `Kept`
  specifies the records, and `CompleteIndices` lists the positions of the
  complete rows.
- `Collect` (`collect.dfy`): the per-file results are handed back in path
  order and appended (`extend`) to one total list. `Merge` is that loop and
  `Flatten` its specification. `CollectAll` ingests every file and then
  merges. `Collected` specifies the outcome: every file's records in path
  order, or the error of the first file, in path order, that fails.
- `Forecast` (`forecast.dfy`): the latest date (`MaxDate`) and the five
  consecutive days after it (`ForecastWindow`). Dates are integer day numbers.
- `Wrappers` (`wrappers.dfy`): `Option` for nullable cells and `Result` for
  an operation that raises.

Error behaviour follows the code. The date cell is read before the
`'Data' not in row` test, so that test can never skip a row. A file with at
least one row and no `Data` column therefore raises a key error. A file without
the temperature column raises as soon as a row has a non-null date. An
empty series makes the regression fit raise, and the model reports this as
`NoObservations`.

Of the forecast's failures, the model captures only the empty series. With
a single observation, or with all dates identical, the fit at main.py:60 does
not raise. The temperature stays text throughout ingestion, and the merge
keeps path order.

The specifications the rows below refer to:
- `Ingest.WeatherRecord` is the `DadosMeteorologicos` record (main.py:10-13).
- `Ingest.ToRecord` builds one record from a complete row (main.py:35-38).
- `Ingest.Kept` gives the records of the complete rows in row order.
- `Ingest.ProcessSpec` gives the result of `process_csv`, or the key error it raises.
- `Collect.Flatten` is the concatenation of the per-file lists in path order.
- `Collect.Collected` is the outcome of ingesting and merging all files.

## Model

| member | source | states |
|---|---|---|
| Ingest.DecimalPoint | main.py:32 | the result has the input's length and no `,`; each `,` becomes `.` and every other character is unchanged at its position |
| Ingest.DecimalPointIdempotent | main.py:32 | normalising an already normalised temperature text changes nothing |
| Ingest.DecimalPointFixed | main.py:32 | a text is left unchanged by the replacement exactly when it contains no `,` |
| Ingest.CompleteIndices | main.py:23-30 | lists the positions of the rows with both cells non-null, strictly increasing and in range; there are at most as many as rows, and exactly as many only when every row is complete |
| Ingest.CompleteIndicesCover | main.py:25-30 | every row whose date and temperature are both non-null has its position listed |
| Ingest.KeptSelects | main.py:23-41 | the k-th record is the record of the row at the k-th complete position, so the output is the ordered subsequence of complete rows |
| Ingest.KeptLength | main.py:23-43 | no more records than rows, and the same number exactly when no row is skipped |
| Ingest.KeptFromCompleteRows | main.py:25-41 | every record is built from some row whose date and temperature cells are both non-null |
| Ingest.CompleteRowsKept | main.py:25-41 | every row with both cells non-null yields a record |
| Ingest.KeptRecordsNormalised | main.py:32-38 | a record's date equals its row's `Data` cell verbatim; its temperature has no `,`, the cell's length, and every non-comma character of the cell in place |
| Ingest.KeptAppend | main.py:23-43 | ingesting two row blocks in sequence yields their record lists in sequence |
| Ingest.ProcessCsv | main.py:17-43 | the row loop returns exactly `ProcessSpec`: the kept records, or a key error for a missing `Data` column (any row) or temperature column (a row with a date) |
| Collect.FlattenAppend | main.py:97-98 | merging the results of two path lists yields the first merged list followed by the second |
| Collect.FlattenLength | main.py:97-98 | the merged list's length is the sum of the per-file list lengths |
| Collect.FlattenAt | main.py:91-98 | record j of file f sits in the merged list at the total length of the earlier files plus j |
| Collect.Merge | main.py:91-98 | the extend loop yields the concatenation of the per-file lists in path order, with length the sum of theirs |
| Collect.CollectedMerges | main.py:92-98 | when every file is ingested, the collected list is the path-order concatenation of the per-file record lists |
| Collect.CollectedFirstFailure | main.py:94-98 | when some file fails, the collection fails with the error of the first failing file in path order |
| Collect.CollectAll | main.py:91-98 | ingesting all files and merging returns exactly `Collected` of the frames |
| Forecast.MaxDate | main.py:63 | the maximum is one of the input dates and no input date exceeds it |
| Forecast.MaxDateOfSameDates | main.py:63 | two series with the same set of dates have the same maximum, whatever their order or repetitions |
| Forecast.MaxDateAppend | main.py:63 | the maximum of two merged series is the larger of their maxima |
| Forecast.ForecastWindow | main.py:60-64 | an empty series fails; otherwise exactly 5 days, each one day after the previous, all after every input date, the first the day after an input date |
| Forecast.ForecastWindowUnique | main.py:63-64 | any five consecutive days starting the day after an input date and after every input date are exactly the forecast window |
| Forecast.ForecastWindowOfSameDates | main.py:63-64 | the window depends only on the set of input dates, not on merge order or repetitions |

## Left out

- Reading the files (`pd.read_csv` with `;` and ISO-8859-1): the model starts from a `Frame` of already split rows.
- A temperature column that the CSV reader parsed as numbers: calling `.replace` on a float cell raises. The model takes every cell as text.
- The thread pool: the worker threads are not modelled. The model keeps only their observable effect, which is that results come back in path order.
- The linear regression fit and prediction: floating-point numerics inside a foreign library. So is the mismatch between the fitted time axis (dates) and the predicted one (nanosecond floats).
- Parsing date text into dates (`pd.to_datetime`): `ForecastWindow` takes integer day numbers instead of records.
- The report printing: it uses a fixed start date of 2023-04-01, ignores the computed window, and rounds floats.
- The hard-coded list of file paths.
- Forecast.ForecastWindow: its failure condition covers only an empty series. It does not cover two other failures. The fit at main.py:60 raises when a kept temperature text is not a number after the rewrite (the cell "1,2,3" becomes "1.2.3"). `pd.to_datetime` at main.py:54 raises on a date text it cannot parse.
- Forecast.ForecastWindow: produces only the window's dates, not the predicted temperatures, because those come from the regression.

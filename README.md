# PICARD housekeeping ingestion, modelled in Dafny

This project models the non-UI core of `SLPicardFlightPlotter.py`. That
script turns the PICARD instrument's housekeeping packets, fetched from the
aircraft telemetry API, into a time-indexed table. It then decides whether
the instrument is recording and whether its last packet is fresh. Four
stages are modelled and proved:

1. **Record extraction** (`scrape_data`, without the HTTP fetch),
   `extract.dfy` on top of `text.dfy`:
   - the payload is split on the sentinel `"PICARD"`;
   - fragments whose unstripped length is at most one are discarded;
   - the last three characters of every kept fragment are cut off;
   - the first kept fragment is dropped.

   Python's `str.split` is modelled exactly: leftmost, non-overlapping
   occurrences. It is proved to round-trip through `join`.
2. **Table building** (`clean_data` lines 27-34), `table.dfy`:
   - every record is split on `,`;
   - field 1 becomes the time index and field 0 is discarded;
   - fields 2..13 go under `Status` … `pidtec_cold`;
   - every cell is converted to a number;
   - one bad record fails the whole build.
3. **Validity masking and the derived column** (`clean_data` lines 35-37),
   `mask.dfy` and `derive.dfy`:
   - in every listed column, a value outside `[minval, maxval]` becomes
     missing; both bounds are inclusive, and the defaults are -10.0, 100.0
     and the ten channels `COLNAMES[2:-1]`;
   - then `pipe_temp_diff = pidtec_hot - dctec_cold` is added.

   `clean.dfy` composes the three table stages. `CleanData` is the
   imperative `clean_data`: a loop that masks one listed column at a time.
   It is proved equal to the composition `Clean`, and the properties of the
   whole run are proved about `Clean`.
4. **Status verdicts** (`display_status` lines 79-94), `status.dfy`:
   - recording when the last `Status` is exactly 2;
   - fresh when the last timestamp is present (not NaT) and
     `now - last timestamp <= freshness` seconds.

   The verdicts are also tied back to the fields of the last record.

Representation choices:
- A missing value (pandas NaN) is `None` in a `Cell = Option<real>`.
- A timestamp is a `Stamp`: `At(seconds)`, in integer seconds, or `NaT`
  (pandas' missing time).
- `float()` and `pd.to_datetime` are abstract parameters. `parseNumber`
  returns `Unparseable`, or `Parsed(cell)`, where a parsed `"nan"` is a
  missing cell. `parseTime` returns `NotATime` (the conversion raises), or
  `ParsedTime(stamp)`, where an empty field or `"NaT"` parses to `NaT`.
- `now` is a parameter.

Three behaviours of the code that are easy to misread:
- **Length test.** Line 23 tests the unstripped length `len(l) > 1` and
  slices `l[:-3]` afterwards, so a 2- or 3-character fragment is kept, as
  `""`.
- **Masked columns.** The default mask `COLNAMES[2:-1]` lists ten channels,
  from `ambient_temp` to `pidtec_cold`, `shutter` and `power_board`
  included.
- **Preamble.** The first fragment that survives the length test is the
  preamble before the first record. `msglst[1:]` (line 24) drops it, and
  only it.

## Model

| member | source | states |
|---|---|---|
| Text.Find | SLPicardFlightPlotter.py:23 | The leftmost occurrence of the separator at or after `from`: the result is an occurrence, no earlier position is one, and `None` means there is no occurrence from `from` on |
| Text.Split | SLPicardFlightPlotter.py:23 | `str.split` always yields at least one piece |
| Text.SplitJoin | SLPicardFlightPlotter.py:23 | Joining the pieces with the separator gives back the input (`sep.join(s.split(sep)) == s`) |
| Text.SplitPiecesFree | SLPicardFlightPlotter.py:23 | No piece of the split contains the separator |
| Text.SplitSingle | SLPicardFlightPlotter.py:23 | The split has exactly one piece iff the separator does not occur |
| RecordExtractor.Trim | SLPicardFlightPlotter.py:23 | `l[:-3]` is the prefix of `l` of length `len(l) - 3`, or `""` when `l` has at most three characters (Python clamps the slice) |
| RecordExtractor.KeepTrimmed | SLPicardFlightPlotter.py:23 | The comprehension never yields more elements than there are fragments |
| RecordExtractor.Extract | SLPicardFlightPlotter.py:23-24 | There are fewer records than split fragments: the first survivor, the preamble, is always dropped |
| RecordExtractor.LongPositions | SLPicardFlightPlotter.py:23 | Reference set of survivors: increasing positions, each of a fragment longer than one character |
| RecordExtractor.LongPositionsComplete | SLPicardFlightPlotter.py:23 | Every fragment longer than one character has its position listed, so no survivor is missed |
| RecordExtractor.KeepTrimmedAtLongPositions | SLPicardFlightPlotter.py:23 | The comprehension `[l[:-3] for l in ... if len(l) > 1]` holds exactly the trimmed long fragments, in payload order |
| RecordExtractor.ExtractSelectsLongFragments | SLPicardFlightPlotter.py:23-24 | The records are the trimmed long fragments without the first one: max(survivors - 1, 0) records, record k from survivor k + 1 |
| RecordExtractor.ExtractedRecordsHaveNoSentinel | SLPicardFlightPlotter.py:23-24 | No extracted record contains `"PICARD"` |
| RecordExtractor.NoSentinelNoRecords | SLPicardFlightPlotter.py:23-24 | A payload without the sentinel yields no records |
| TableBuilder.ColumnNamed | SLPicardFlightPlotter.py:16-18 | Label lookup: a found column carries that label, and `None` means no column has it |
| TableBuilder.ColumnNamedInvertsName | SLPicardFlightPlotter.py:16-18 | Looking up a column's own label finds that column, so the `COLNAMES` labels are distinct |
| TableBuilder.MeasuredAt | SLPicardFlightPlotter.py:32 | Every column but `pipe_temp_diff` is in `COLNAMES[:-1]`, at the position of its record field minus two |
| TableBuilder.MeasuredDistinct | SLPicardFlightPlotter.py:32 | The twelve names given to the measured fields are pairwise distinct and exclude `pipe_temp_diff` |
| TableBuilder.Fields | SLPicardFlightPlotter.py:27 | `line.split(",")` gives at least one field, and joining the fields with `,` gives the line back |
| TableBuilder.FieldRows | SLPicardFlightPlotter.py:27 | One field list per record, in order, record i split on `,` |
| TableBuilder.FirstWrongWidth | SLPicardFlightPlotter.py:28 | Reports the first row whose field count is not 14 (every row before it has 14 fields), and none exactly when every row has 14 fields |
| TableBuilder.ParseIndex | SLPicardFlightPlotter.py:29-31 | Either every row's field 1 converts (possibly to NaT) and the index is those timestamps in row order, or the error names the first row whose field 1 does not convert |
| TableBuilder.ParseColumn | SLPicardFlightPlotter.py:34 | Either every row's given field parses and the column is those values in row order, or the error names the first row where it does not |
| TableBuilder.ParseColumns | SLPicardFlightPlotter.py:30-34 | Either all cells of the given fields parse and column j holds field `field + j` of every row, or the error names an unparseable cell, with every cell of the earlier fields and every earlier cell of its field parsed |
| TableBuilder.Assemble | SLPicardFlightPlotter.py:32 | With distinct names, the table is well shaped and column `names[j]` holds `cells[j]` |
| TableBuilder.Build | SLPicardFlightPlotter.py:28-34 | Succeeds iff there is a row and every row conforms. Then: one table row per record row, in order, indexed by field 1, with field k + 2 under `COLNAMES[k]`. Otherwise the error names an offending row and nothing is built |
| ValidityMasker.MaskColumn | SLPicardFlightPlotter.py:36 | A cell of the masked column is kept iff its value lies in `[minval, maxval]` and becomes missing otherwise; the index, the column order, the set of columns and every other column stay |
| ValidityMasker.MaskAll | SLPicardFlightPlotter.py:35-36 | Masking never changes the index, the column order, the set of columns or any column's length |
| ValidityMasker.MaskAllAt | SLPicardFlightPlotter.py:35-36 | Per cell: a listed column keeps a cell iff its value lies in `[lo, hi]` (inclusive), and an unlisted column keeps every cell |
| ValidityMasker.MaskedCell | SLPicardFlightPlotter.py:35-36 | The same, for one given cell |
| ValidityMasker.MaskAllWellShaped | SLPicardFlightPlotter.py:35-36 | Masking keeps a table well shaped |
| ValidityMasker.MaskedCellsInRange | SLPicardFlightPlotter.py:35-36 | After masking, every cell of a listed column is missing or within `[lo, hi]` |
| ValidityMasker.MaskAllIdempotent | SLPicardFlightPlotter.py:35-36 | Masking twice with the same columns and bounds equals masking once |
| ValidityMasker.DefaultSparesStatusAndPressure | SLPicardFlightPlotter.py:26 | `Status` and `Pressure` are not among the default masked columns |
| DerivedMetric.Difference | SLPicardFlightPlotter.py:37 | One difference per row, present iff both operands are, and then `hot - cold` |
| DerivedMetric.WithDifference | SLPicardFlightPlotter.py:37 | Adding `pipe_temp_diff` changes nothing else: it leaves the index and every other column as they were, and appends the name to the column order |
| DerivedMetric.DifferenceAt | SLPicardFlightPlotter.py:37 | `pipe_temp_diff[i]` is present iff both operands are present, and then equals `pidtec_hot[i] - dctec_cold[i]` |
| DerivedMetric.WithDifferenceWellShaped | SLPicardFlightPlotter.py:37 | Adding the difference keeps a table well shaped |
| DerivedMetric.WithDifferenceDistinct | SLPicardFlightPlotter.py:37 | Adding the difference never lists a column twice |
| Cleaning.Resolve | SLPicardFlightPlotter.py:35-36 | Every label to mask resolves to a measured column of that label, or the error is a label that names none (the `KeyError` of `df[column_name]`) |
| Cleaning.Clean | SLPicardFlightPlotter.py:26-38 | `clean_data` as build, mask, add the difference: a cleaned table has one row per record, and at least one |
| Cleaning.CleanData | SLPicardFlightPlotter.py:26-38 | The loop over the labels computes exactly the composition: build, mask each listed column, add the difference |
| Cleaning.ResolveStopsAtFailure | SLPicardFlightPlotter.py:35-36 | Once a label fails to resolve, the whole run fails with that label's error |
| Cleaning.CleanSucceedsIff | SLPicardFlightPlotter.py:26-38 | `clean_data` succeeds iff there is a record, every record conforms and every label names a measured column. Otherwise there is no table at all |
| Cleaning.CleanedShape | SLPicardFlightPlotter.py:28-37 | A cleaned table is well shaped, with the thirteen `COLNAMES` columns in order and one row per record, row i indexed by the timestamp of record i |
| Cleaning.ColNamesDistinct | SLPicardFlightPlotter.py:16-18 | No column of a cleaned table is listed twice |
| Cleaning.CleanedNonEmpty | SLPicardFlightPlotter.py:29 | A cleaned table comes from at least one record |
| Cleaning.CleanedIndexAt | SLPicardFlightPlotter.py:29-31 | Row i of a cleaned table is indexed by the timestamp of record i |
| Cleaning.CleanedRowAt | SLPicardFlightPlotter.py:29-36 | Row i of a cleaned table carries the timestamp of record i and, in each measured column, that record's parsed field after masking |
| Cleaning.ResolvedMembership | SLPicardFlightPlotter.py:35-36 | A column is masked iff its label is listed |
| Cleaning.BuiltCellAt | SLPicardFlightPlotter.py:30-34 | Every built cell is the parsed value of its record's field for that column |
| Cleaning.CleanedCellAt | SLPicardFlightPlotter.py:26-36 | Every measured cell of the cleaned table is the parsed field, except that a listed column's out-of-range value becomes missing |
| Cleaning.CleanedDifferenceAt | SLPicardFlightPlotter.py:35-37 | `pipe_temp_diff[i]` is the difference of the parsed fields 12 and 11 when both survive masking, and missing otherwise |
| Cleaning.CleanedDifferenceOfCleaned | SLPicardFlightPlotter.py:37 | In the cleaned table, the difference is taken of the masked operands |
| Cleaning.DifferenceOfCells | SLPicardFlightPlotter.py:37 | The difference of two masked cells equals the difference of the raw cells when both survive, and is missing otherwise |
| Cleaning.DefaultMaskResolves | SLPicardFlightPlotter.py:26 | The default labels `COLNAMES[2:-1]` resolve to every measured column after `Pressure` |
| Cleaning.DefaultLabelsSpareStatusAndPressure | SLPicardFlightPlotter.py:26 | The default labels do not list `Status` or `Pressure` |
| Cleaning.DefaultMaskSparesStatusAndPressure | SLPicardFlightPlotter.py:26-36 | With the default mask, `Status` and `Pressure` cells are the parsed fields 2 and 3, whatever their value |
| Cleaning.UnlistedCellKept | SLPicardFlightPlotter.py:35-36 | A cell of an unlisted column is the parsed field, whatever its value |
| StatusVerdicts.Evaluate | SLPicardFlightPlotter.py:79-94 | No verdict iff there is no `Status` column or no row. The missing-column error is reported iff `Status` is absent |
| StatusVerdicts.VerdictOfLastRow | SLPicardFlightPlotter.py:79-94 | Recording iff the last `Status` equals exactly 2 (a missing value is not 2). Fresh iff the last timestamp is not NaT and `now - last timestamp <= freshness` |
| StatusVerdicts.FreshAtBoundary | SLPicardFlightPlotter.py:87-94 | A packet exactly `freshness` seconds old is fresh, and one a second older is stale |
| StatusVerdicts.MissingTimeIsStale | SLPicardFlightPlotter.py:87-94 | A table whose last timestamp is NaT is stale at every time and under every window (`now - NaT <= window` is False) |
| StatusVerdicts.FreshnessMonotone | SLPicardFlightPlotter.py:87-94 | A fresh packet stays fresh at any earlier time and under any longer window |
| StatusVerdicts.VerdictsIndependent | SLPicardFlightPlotter.py:79-94 | The recording verdict does not depend on the time or the window, and the freshness verdict does not depend on the status values |
| StatusVerdicts.CleanedLastTime | SLPicardFlightPlotter.py:87 | The last index of a cleaned table is the last record's timestamp |
| StatusVerdicts.VerdictOfMaskedRow | SLPicardFlightPlotter.py:79-94 | With a masked last status, recording iff the raw status is 2 and 2 survives the mask |
| StatusVerdicts.VerdictOfCleanedRow | SLPicardFlightPlotter.py:79-94 | For a table whose last row holds the last record's timestamp and masked status field: recording iff that field parses to 2 and survives masking, fresh iff that timestamp is not NaT and within `freshness` of `now` |
| StatusVerdicts.CleanedVerdict | SLPicardFlightPlotter.py:79-94 | A cleaned table always has a verdict. It is recording iff the last record's status parses to 2 and survives masking, and fresh iff that record's timestamp is not NaT and is within `freshness` of `now` |
| StatusVerdicts.DefaultRecordingVerdict | SLPicardFlightPlotter.py:79-84 | With the default mask, recording iff the last record's status field parses to exactly 2 |

## Left out

- The HTTP fetch and `str(r.content)` (lines 21-22) are not modelled: they are network I/O and the bytes-repr artifact. The payload is an input string.
- The Streamlit calls (`st.columns`, `st.success`, `st.error`, `slmain`) are not modelled: they are UI. Only the two boolean verdicts are.
- Plotting (`plot_temp_data`, `plot_pressure_data`) is not modelled: it is rendering.
- `save_data` with its HDF5 store, and the base64 download link, are not modelled: they are file I/O and a library encoder.
- `dt.datetime.now()` is not called: `now` is a parameter.
- The parsing rules of `float()`/`astype(float)` and `pd.to_datetime` are left out; they are abstract parameters. IEEE NaN and infinities are left out; a missing cell is `None`.
- Timestamps are whole seconds, so sub-second precision of `time_diff` is not modelled.
- `df.index.name = 'Time'` (line 33) is not modelled: it is a display label.
- TableBuilder.Build: pandas pads ragged rows with `None`, and the model rejects them instead. A row whose field count is not 14 is a `WrongFieldCount` error.
- TableBuilder.Build: the model reports one error in a fixed order when a row fails in several ways. The order is: no records, then field count, then timestamps, then numbers, column by column. It does not model which pandas exception text would appear.
- StatusVerdicts.Evaluate: time zones are not modelled. With a tz-aware index, `now - last_timestamp` (line 88) raises `TypeError` against the naive `dt.datetime.now()`, after the recording light is shown; the model always compares.
- StatusVerdicts.Evaluate: the freshness window is any integer. The UI bound of 2..200000 seconds (line 101) is left out.

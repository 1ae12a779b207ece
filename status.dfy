/**
 * The two status decisions of `display_status` (lines 79-94), without the
 * dashboard widgets: is the instrument recording, and is the last packet
 * fresh. Both are read off the last row of a cleaned table; the current
 * time is a parameter.
 */
module StatusVerdicts {
  import opened Wrappers
  import opened TableBuilder
  import opened ValidityMasker
  import opened Cleaning

  /** The `Status` value that means the instrument is recording. */
  const RecordingCode: real := 2.0

  /** The default freshness window of `display_status`, in seconds. */
  const DefaultFreshness: int := 15

  /** The two lights of the status panel. */
  datatype Verdict = Verdict(recording: bool, statusFresh: bool)

  /** Why no verdict can be given: `df["Status"]` or `[-1]` fails. */
  datatype StatusError = MissingStatus | NoRows

  /** The last element of a non-empty sequence (`[-1]`). */
  function Last<T>(s: seq<T>): T
    requires |s| > 0
  {
    s[|s| - 1]
  }

  /**
   * The verdicts for table `t` at time `now` (seconds): recording when the
   * last `Status` is exactly 2 (a missing value is not 2), fresh when the
   * last timestamp is present and at most `freshness` seconds before `now`
   * (NaT compares false, so a missing timestamp is stale). There is no
   * verdict without a `Status` column or without rows.
   */
  function Evaluate(t: Table, now: int, freshness: int): (r: Result<Verdict, StatusError>)
    ensures r.Failure? <==> Status !in t.columns || |t.columns[Status]| == 0 || |t.index| == 0
    ensures r.Failure? ==> (r.error == MissingStatus <==> Status !in t.columns)
  {
    if Status !in t.columns then Failure(MissingStatus)
    else if |t.columns[Status]| == 0 || |t.index| == 0 then Failure(NoRows)
    else
      var status := Last(t.columns[Status]);
      var lastTime := Last(t.index);
      Success(Verdict(status == Some(RecordingCode), lastTime.At? && now - lastTime.seconds <= freshness))
  }

  /**
   * Freshness is inclusive at the boundary: a packet exactly `freshness`
   * seconds old is fresh, one a second older is stale.
   */
  lemma FreshAtBoundary(t: Table, freshness: int)
    requires Evaluate(t, 0, freshness).Success? && Last(t.index).At?
    ensures Evaluate(t, Last(t.index).seconds + freshness, freshness).Success?
    ensures Evaluate(t, Last(t.index).seconds + freshness, freshness).value.statusFresh
    ensures !Evaluate(t, Last(t.index).seconds + freshness + 1, freshness).value.statusFresh
  {
  }

  /** A table whose last timestamp is missing (NaT) is stale at every time and under every window. */
  lemma MissingTimeIsStale(t: Table, now: int, freshness: int)
    requires Evaluate(t, 0, 0).Success? && Last(t.index).NaT?
    ensures Evaluate(t, now, freshness).Success? && !Evaluate(t, now, freshness).value.statusFresh
  {
  }

  /**
   * A packet that is fresh stays fresh at any earlier time and under any
   * longer window.
   */
  lemma FreshnessMonotone(t: Table, now: int, freshness: int, earlier: int, longer: int)
    requires Evaluate(t, now, freshness).Success? && Evaluate(t, now, freshness).value.statusFresh
    requires earlier <= now && freshness <= longer
    ensures Evaluate(t, earlier, longer).Success? && Evaluate(t, earlier, longer).value.statusFresh
  {
  }

  /**
   * The two verdicts are independent: the recording verdict does not depend
   * on the time or the window, and the freshness verdict does not depend on
   * the status values.
   */
  lemma VerdictsIndependent(t: Table, now: int, freshness: int, now': int, freshness': int, status: seq<Cell>)
    requires Evaluate(t, now, freshness).Success? && |status| > 0
    ensures Evaluate(t, now', freshness').Success?
    ensures Evaluate(t, now', freshness').value.recording == Evaluate(t, now, freshness).value.recording
    ensures var u := t.(columns := t.columns[Status := status]);
      && Evaluate(u, now, freshness).Success?
      && Evaluate(u, now, freshness).value.statusFresh == Evaluate(t, now, freshness).value.statusFresh
  {
  }

  /** The verdicts of a table with rows, in terms of its last status and last timestamp. */
  lemma VerdictOfLastRow(t: Table, now: int, freshness: int, status: Cell, lastTime: Stamp)
    requires Status in t.columns && |t.columns[Status]| > 0 && |t.index| > 0
    requires Last(t.columns[Status]) == status && Last(t.index) == lastTime
    ensures Evaluate(t, now, freshness)
         == Success(Verdict(status == Some(RecordingCode), lastTime.At? && now - lastTime.seconds <= freshness))
  {
  }

  /** The last timestamp of a cleaned table is the last record's. */
  lemma CleanedLastTime(rows: seq<seq<string>>, maskcols: seq<string>, minval: real, maxval: real,
                        parseTime: string -> TimeParse, parseNumber: string -> NumberParse, t: Table)
    requires Clean(rows, maskcols, minval, maxval, parseTime, parseNumber) == Success(t)
    ensures |rows| > 0 && TimeOk(rows[|rows| - 1], parseTime)
    ensures |t.index| == |rows| && Last(t.index) == TimeOf(rows[|rows| - 1], parseTime)
  {
    CleanedNonEmpty(rows, maskcols, minval, maxval, parseTime, parseNumber);
    CleanedIndexAt(rows, maskcols, minval, maxval, parseTime, parseNumber, |rows| - 1);
  }

  /**
   * The verdicts of a table whose last status is a masked cell `raw`: it
   * reads 2 exactly when `raw` does and 2 is in range or unmasked.
   */
  lemma VerdictOfMaskedRow(t: Table, now: int, freshness: int, raw: Cell, listed: bool, lo: real, hi: real, lastTime: Stamp)
    requires Status in t.columns && |t.columns[Status]| > 0 && |t.index| > 0
    requires Last(t.columns[Status]) == AfterMask(raw, listed, lo, hi) && Last(t.index) == lastTime
    ensures var r := Evaluate(t, now, freshness);
      && r.Success?
      && (r.value.recording <==> raw == Some(RecordingCode) && (listed ==> lo <= RecordingCode <= hi))
      && (r.value.statusFresh <==> lastTime.At? && now - lastTime.seconds <= freshness)
  {
    VerdictOfLastRow(t, now, freshness, Last(t.columns[Status]), lastTime);
  }

  /**
   * The verdicts of a table whose last row holds the last record's
   * timestamp and its masked status field, as a cleaned table's does.
   */
  lemma VerdictOfCleanedRow(rows: seq<seq<string>>, maskcols: seq<string>, minval: real, maxval: real,
                            parseTime: string -> TimeParse, parseNumber: string -> NumberParse,
                            t: Table, now: int, freshness: int)
    requires |rows| > 0 && TimeOk(rows[|rows| - 1], parseTime)
    requires |t.index| == |rows| && t.index[|rows| - 1] == TimeOf(rows[|rows| - 1], parseTime)
    requires Status in t.columns && |t.columns[Status]| == |rows|
    requires t.columns[Status][|rows| - 1]
          == AfterMask(RawCell(rows, parseNumber, |rows| - 1, FieldOf(Status)), Name(Status) in maskcols, minval, maxval)
    ensures var n := |rows| - 1;
            var status := RawCell(rows, parseNumber, n, FieldOf(Status));
            var last := TimeOf(rows[n], parseTime);
            var r := Evaluate(t, now, freshness);
      && r.Success?
      && (r.value.recording <==> status == Some(RecordingCode) && (Name(Status) in maskcols ==> minval <= RecordingCode <= maxval))
      && (r.value.statusFresh <==> last.At? && now - last.seconds <= freshness)
  {
    var n := |rows| - 1;
    VerdictOfMaskedRow(t, now, freshness, RawCell(rows, parseNumber, n, FieldOf(Status)), Name(Status) in maskcols,
                       minval, maxval, TimeOf(rows[n], parseTime));
  }

  /**
   * A cleaned table always has a verdict. It is recording exactly when the
   * last record's status field parses to 2 and survives masking, and fresh
   * exactly when that record's timestamp is not NaT and is at most
   * `freshness` seconds before `now`.
   */
  lemma CleanedVerdict(rows: seq<seq<string>>, maskcols: seq<string>, minval: real, maxval: real,
                       parseTime: string -> TimeParse, parseNumber: string -> NumberParse,
                       t: Table, now: int, freshness: int)
    requires Clean(rows, maskcols, minval, maxval, parseTime, parseNumber) == Success(t)
    ensures |rows| > 0
    ensures var n := |rows| - 1;
            var status := RawCell(rows, parseNumber, n, FieldOf(Status));
            var last := TimeOf(rows[n], parseTime);
            var r := Evaluate(t, now, freshness);
      && r.Success?
      && (r.value.recording <==> status == Some(RecordingCode) && (Name(Status) in maskcols ==> minval <= RecordingCode <= maxval))
      && (r.value.statusFresh <==> last.At? && now - last.seconds <= freshness)
  {
    CleanedRowAt(rows, maskcols, minval, maxval, parseTime, parseNumber, t, Status, |rows| - 1);
    VerdictOfCleanedRow(rows, maskcols, minval, maxval, parseTime, parseNumber, t, now, freshness);
  }

  /**
   * With the default mask the recording verdict is exactly "the last
   * record's status field parses to 2": the status column is never masked.
   */
  lemma DefaultRecordingVerdict(rows: seq<seq<string>>, parseTime: string -> TimeParse,
                                parseNumber: string -> NumberParse, t: Table, now: int)
    requires Clean(rows, DefaultMaskHeaders, DefaultMin, DefaultMax, parseTime, parseNumber) == Success(t)
    ensures |rows| > 0
    ensures var r := Evaluate(t, now, DefaultFreshness);
      && r.Success?
      && (r.value.recording <==> RawCell(rows, parseNumber, |rows| - 1, FieldOf(Status)) == Some(RecordingCode))
  {
    DefaultLabelsSpareStatusAndPressure();
    CleanedVerdict(rows, DefaultMaskHeaders, DefaultMin, DefaultMax, parseTime, parseNumber, t, now, DefaultFreshness);
  }
}

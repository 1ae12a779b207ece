/**
 * `clean_data` as a whole: build the table, mask the listed columns one
 * after another in a loop, then add the derived difference column.
 */
module Cleaning {
  import opened Wrappers
  import opened TableBuilder
  import opened ValidityMasker
  import opened DerivedMetric

  /** The column order of a cleaned table (`COLNAMES`). */
  const ColNames: seq<Column> := Measured + [PipeTempDiff]

  /** The labels of `COLNAMES`, in order. */
  const ColNameLabels: seq<string> := seq(|ColNames|, j requires 0 <= j < |ColNames| => Name(ColNames[j]))

  /** The labels `clean_data` masks when called without `maskcols` (`COLNAMES[2:-1]`). */
  const DefaultMaskHeaders: seq<string> := ColNameLabels[2..|ColNameLabels| - 1]

  /** `header` names a column of a freshly built table, so `df[header]` succeeds. */
  predicate IsMeasuredName(header: string) {
    ColumnNamed(header).Some? && ColumnNamed(header).value in Measured
  }

  /**
   * The columns the labels `headers` name in a built table, in order, or
   * the first label that names none of them.
   */
  function Resolve(headers: seq<string>): (r: Result<seq<Column>, CleanError>)
    decreases |headers|
    ensures r.Success? <==> forall j {:trigger IsMeasuredName(headers[j])} | 0 <= j < |headers| :: IsMeasuredName(headers[j])
    ensures r.Success? ==> |r.value| == |headers|
    ensures r.Success? ==> forall j {:trigger r.value[j]} | 0 <= j < |headers| :: r.value[j] in Measured && Name(r.value[j]) == headers[j]
    ensures r.Failure? ==> r.error.UnknownColumn? && r.error.header in headers && !IsMeasuredName(r.error.header)
  {
    if |headers| == 0 then Success([])
    else
      var init := headers[..|headers| - 1];
      var last := headers[|headers| - 1];
      assert headers == init + [last];
      match Resolve(init)
      case Failure(e) => Failure(e)
      case Success(cols) =>
        if IsMeasuredName(last) then Success(cols + [ColumnNamed(last).value])
        else Failure(UnknownColumn(last))
  }

  /**
   * The outcome of `clean_data` on the split records `rows`: the built
   * table, masked, with the difference column added; a cleaned table has
   * one row per record.
   */
  function Clean(rows: seq<seq<string>>, maskcols: seq<string>, minval: real, maxval: real,
                 parseTime: string -> TimeParse, parseNumber: string -> NumberParse)
    : (r: Result<Table, CleanError>)
    ensures r.Success? ==> 0 < |r.value.index| == |rows|
  {
    match Build(rows, parseTime, parseNumber)
    case Failure(e) => Failure(e)
    case Success(t) =>
      match Resolve(maskcols)
      case Failure(e) => Failure(e)
      case Success(cols) => Success(WithDifference(MaskAll(t, cols, minval, maxval)))
  }

  /**
   * `clean_data(msglst, maskcols, minval, maxval)`: the table is built,
   * then the loop masks one listed column at a time (a label that is not a
   * column stops the run), then the difference column is added.
   */
  method CleanData(records: seq<string>, maskcols: seq<string>, minval: real, maxval: real,
                   parseTime: string -> TimeParse, parseNumber: string -> NumberParse)
    returns (r: Result<Table, CleanError>)
    ensures r == Clean(FieldRows(records), maskcols, minval, maxval, parseTime, parseNumber)
  {
    var rows := FieldRows(records);
    var built := Build(rows, parseTime, parseNumber);
    if built.Failure? {
      return Failure(built.error);
    }
    var df := built.value;
    ghost var cols: seq<Column> := [];
    var i := 0;
    while i < |maskcols|
      invariant 0 <= i <= |maskcols|
      invariant Resolve(maskcols[..i]) == Success(cols)
      invariant df == MaskAll(built.value, cols, minval, maxval)
    {
      var header := maskcols[i];
      var column := ColumnNamed(header);
      ResolveStep(maskcols, i);
      if column.None? || column.value !in df.columns {
        ResolveStopsAtFailure(maskcols, i + 1);
        return Failure(UnknownColumn(header));
      }
      MaskAllStep(built.value, cols, column.value, minval, maxval);
      df := MaskColumn(df, column.value, minval, maxval);
      cols := cols + [column.value];
      i := i + 1;
    }
    assert maskcols[..|maskcols|] == maskcols;
    df := WithDifference(df);
    return Success(df);
  }

  /** Resolving one more label extends the resolved columns or stops at that label. */
  lemma ResolveStep(headers: seq<string>, i: nat)
    requires i < |headers| && Resolve(headers[..i]).Success?
    ensures var h := headers[i];
      Resolve(headers[..i + 1])
        == if IsMeasuredName(h) then Success(Resolve(headers[..i]).value + [ColumnNamed(h).value])
           else Failure(UnknownColumn(h))
  {
    assert headers[..i + 1][..i] == headers[..i];
  }

  /** Masking one more column is masking the extended list. */
  lemma MaskAllStep(t: Table, cols: seq<Column>, c: Column, lo: real, hi: real)
    requires forall d | d in cols :: d in t.columns
    requires c in t.columns
    ensures MaskAll(t, cols + [c], lo, hi) == MaskColumn(MaskAll(t, cols, lo, hi), c, lo, hi)
  {
    assert (cols + [c])[..|cols|] == cols;
  }

  /** Once a prefix of the labels fails to resolve, the whole list fails with the same error. */
  lemma {:induction false} ResolveStopsAtFailure(headers: seq<string>, n: nat)
    requires n <= |headers| && Resolve(headers[..n]).Failure?
    decreases |headers|
    ensures Resolve(headers) == Resolve(headers[..n])
  {
    if n < |headers| {
      var init := headers[..|headers| - 1];
      assert init[..n] == headers[..n];
      ResolveStopsAtFailure(init, n);
    } else {
      assert headers[..n] == headers;
    }
  }

  /**
   * The run fails fast: it succeeds exactly when there is a record, every
   * record conforms and every label to mask names a measured column, and
   * otherwise no table at all is produced.
   */
  lemma CleanSucceedsIff(rows: seq<seq<string>>, maskcols: seq<string>, minval: real, maxval: real,
                         parseTime: string -> TimeParse, parseNumber: string -> NumberParse)
    ensures Clean(rows, maskcols, minval, maxval, parseTime, parseNumber).Success?
      <==> && |rows| > 0
           && (forall i | 0 <= i < |rows| :: Conforms(rows[i], parseTime, parseNumber))
           && (forall j | 0 <= j < |maskcols| :: IsMeasuredName(maskcols[j]))
  {
    var built := Build(rows, parseTime, parseNumber);
    if built.Success? {
      assert Resolve(maskcols).Success? <==> forall j | 0 <= j < |maskcols| :: IsMeasuredName(maskcols[j]);
    }
  }

  /**
   * A cleaned table has one row per record, in record order, indexed by
   * field 1, and the thirteen columns of `COLNAMES` in that order.
   */
  lemma CleanedShape(rows: seq<seq<string>>, maskcols: seq<string>, minval: real, maxval: real,
                     parseTime: string -> TimeParse, parseNumber: string -> NumberParse)
    requires Clean(rows, maskcols, minval, maxval, parseTime, parseNumber).Success?
    ensures var t := Clean(rows, maskcols, minval, maxval, parseTime, parseNumber).value;
      && WellShaped(t)
      && t.names == ColNames
      && 0 < |t.index| == |rows|
      && forall i {:trigger t.index[i]} | 0 <= i < |rows| :: t.index[i] == TimeOf(rows[i], parseTime)
  {
    var built := Build(rows, parseTime, parseNumber).value;
    var cols := Resolve(maskcols).value;
    var masked := MaskAll(built, cols, minval, maxval);
    MaskAllWellShaped(built, cols, minval, maxval);
    assert masked.names == Measured;
    MeasuredDistinct();
    WithDifferenceWellShaped(masked);
  }

  /** No column of a cleaned table is listed twice. */
  lemma ColNamesDistinct()
    ensures Distinct(ColNames)
  {
    MeasuredDistinct();
    var t := Table([], Measured, map c | c in Measured :: []);
    WithDifferenceDistinct(t);
    assert WithDifference(t).names == ColNames;
  }

  /** A cleaned table comes from at least one record. */
  lemma CleanedNonEmpty(rows: seq<seq<string>>, maskcols: seq<string>, minval: real, maxval: real,
                        parseTime: string -> TimeParse, parseNumber: string -> NumberParse)
    requires Clean(rows, maskcols, minval, maxval, parseTime, parseNumber).Success?
    ensures |rows| > 0
  {
  }

  /** Row `i` of a cleaned table is indexed by the timestamp of record `i`. */
  lemma CleanedIndexAt(rows: seq<seq<string>>, maskcols: seq<string>, minval: real, maxval: real,
                       parseTime: string -> TimeParse, parseNumber: string -> NumberParse, i: nat)
    requires Clean(rows, maskcols, minval, maxval, parseTime, parseNumber).Success?
    requires i < |rows|
    ensures TimeOk(rows[i], parseTime)
    ensures var t := Clean(rows, maskcols, minval, maxval, parseTime, parseNumber).value;
      |t.index| == |rows| && t.index[i] == TimeOf(rows[i], parseTime)
  {
    CleanedShape(rows, maskcols, minval, maxval, parseTime, parseNumber);
  }

  /** Field `field` of row `i` as parsed, the value the masking starts from. */
  function RawCell(rows: seq<seq<string>>, parseNumber: string -> NumberParse, i: nat, field: nat): Cell
  {
    if i < |rows| && CellOk(rows[i], parseNumber, field) then CellOf(rows[i], parseNumber, field) else None
  }

  /** A raw cell survives masking: present, and in range if its column is listed. */
  predicate Survives(cell: Cell, listed: bool, lo: real, hi: real) {
    cell.Some? && (listed ==> InRange(cell, lo, hi))
  }

  /**
   * The difference of two parsed cells after masking: present exactly when
   * both survive, and then `hot - cold`.
   */
  function SurvivingDifference(hot: Cell, cold: Cell, hotListed: bool, coldListed: bool, lo: real, hi: real): Cell {
    if Survives(hot, hotListed, lo, hi) && Survives(cold, coldListed, lo, hi) then Some(hot.value - cold.value) else None
  }

  /** The columns a successful resolution lists are exactly those whose label is listed. */
  lemma ResolvedMembership(maskcols: seq<string>, c: Column)
    requires Resolve(maskcols).Success?
    ensures c in Resolve(maskcols).value <==> Name(c) in maskcols
  {
    var cols := Resolve(maskcols).value;
    if Name(c) in maskcols {
      var j :| 0 <= j < |maskcols| && maskcols[j] == Name(c);
      ColumnNamedInvertsName(c);
      ColumnNamedInvertsName(cols[j]);
    }
  }

  /** Every cell of a built table is the parsed field of its record that its column is read from. */
  lemma BuiltCellAt(rows: seq<seq<string>>, parseTime: string -> TimeParse, parseNumber: string -> NumberParse,
                    c: Column, i: nat)
    requires Build(rows, parseTime, parseNumber).Success?
    requires c != PipeTempDiff && i < |rows|
    ensures var built := Build(rows, parseTime, parseNumber).value;
      && c in built.columns && |built.columns[c]| == |rows|
      && built.columns[c][i] == RawCell(rows, parseNumber, i, FieldOf(c))
  {
    MeasuredAt(c);
  }

  /**
   * Every measured cell of the cleaned table is the parsed field of its
   * record, except that a cell of a listed column whose value lies outside
   * `[minval, maxval]` is missing.
   */
  lemma CleanedCellAt(rows: seq<seq<string>>, maskcols: seq<string>, minval: real, maxval: real,
                      parseTime: string -> TimeParse, parseNumber: string -> NumberParse, c: Column, i: nat)
    requires Clean(rows, maskcols, minval, maxval, parseTime, parseNumber).Success?
    requires c != PipeTempDiff && i < |rows|
    ensures var t := Clean(rows, maskcols, minval, maxval, parseTime, parseNumber).value;
            var raw := RawCell(rows, parseNumber, i, FieldOf(c));
      && c in t.columns && |t.columns[c]| == |rows|
      && t.columns[c][i] == AfterMask(raw, Name(c) in maskcols, minval, maxval)
  {
    var built := Build(rows, parseTime, parseNumber).value;
    var cols := Resolve(maskcols).value;
    BuiltCellAt(rows, parseTime, parseNumber, c, i);
    MaskedCell(built, cols, minval, maxval, c, i);
    ResolvedMembership(maskcols, c);
  }

  /**
   * The difference in row `i` is `pidtec_hot - dctec_cold` of the parsed
   * values when both survive masking, and missing otherwise: an
   * out-of-range operand never yields a difference.
   */
  lemma CleanedDifferenceAt(rows: seq<seq<string>>, maskcols: seq<string>, minval: real, maxval: real,
                            parseTime: string -> TimeParse, parseNumber: string -> NumberParse, t: Table, i: nat)
    requires Clean(rows, maskcols, minval, maxval, parseTime, parseNumber) == Success(t)
    requires i < |rows|
    ensures PipeTempDiff in t.columns && |t.columns[PipeTempDiff]| == |rows|
    ensures t.columns[PipeTempDiff][i]
         == SurvivingDifference(RawCell(rows, parseNumber, i, FieldOf(PidtecHot)), RawCell(rows, parseNumber, i, FieldOf(DctecCold)),
                                Name(PidtecHot) in maskcols, Name(DctecCold) in maskcols, minval, maxval)
  {
    CleanedCellAt(rows, maskcols, minval, maxval, parseTime, parseNumber, PidtecHot, i);
    CleanedCellAt(rows, maskcols, minval, maxval, parseTime, parseNumber, DctecCold, i);
    CleanedDifferenceOfCleaned(rows, maskcols, minval, maxval, parseTime, parseNumber, t, i);
    DifferenceOfCells(t.columns[PipeTempDiff][i], t.columns[PidtecHot][i], t.columns[DctecCold][i],
                      RawCell(rows, parseNumber, i, FieldOf(PidtecHot)), RawCell(rows, parseNumber, i, FieldOf(DctecCold)),
                      Name(PidtecHot) in maskcols, Name(DctecCold) in maskcols, minval, maxval);
  }

  /** In the cleaned table the difference is taken of the cleaned (masked) operands. */
  lemma CleanedDifferenceOfCleaned(rows: seq<seq<string>>, maskcols: seq<string>, minval: real, maxval: real,
                                   parseTime: string -> TimeParse, parseNumber: string -> NumberParse, t: Table, i: nat)
    requires Clean(rows, maskcols, minval, maxval, parseTime, parseNumber) == Success(t)
    requires i < |rows|
    ensures PidtecHot in t.columns && DctecCold in t.columns && PipeTempDiff in t.columns
    ensures |t.columns[PidtecHot]| == |t.columns[DctecCold]| == |t.columns[PipeTempDiff]| == |rows|
    ensures var d := t.columns[PipeTempDiff][i];
      && (d.Some? <==> t.columns[PidtecHot][i].Some? && t.columns[DctecCold][i].Some?)
      && (d.Some? ==> d.value == t.columns[PidtecHot][i].value - t.columns[DctecCold][i].value)
  {
    var built := Build(rows, parseTime, parseNumber).value;
    var masked := MaskAll(built, Resolve(maskcols).value, minval, maxval);
    BuiltCellAt(rows, parseTime, parseNumber, PidtecHot, i);
    BuiltCellAt(rows, parseTime, parseNumber, DctecCold, i);
    DifferenceAt(masked, i);
  }

  /** The masked difference of two cells, in terms of the cells before masking. */
  lemma DifferenceOfCells(d: Cell, maskedHot: Cell, maskedCold: Cell, hot: Cell, cold: Cell,
                          hotListed: bool, coldListed: bool, lo: real, hi: real)
    requires maskedHot == AfterMask(hot, hotListed, lo, hi)
    requires maskedCold == AfterMask(cold, coldListed, lo, hi)
    requires d.Some? <==> maskedHot.Some? && maskedCold.Some?
    requires d.Some? ==> d.value == maskedHot.value - maskedCold.value
    ensures d == SurvivingDifference(hot, cold, hotListed, coldListed, lo, hi)
  {
  }

  /** The default labels resolve to the default masked columns, every channel after `Pressure`. */
  lemma DefaultMaskResolves()
    ensures Resolve(DefaultMaskHeaders) == Success(DefaultMasked)
  {
    assert |DefaultMaskHeaders| == |DefaultMasked|;
    forall j | 0 <= j < |DefaultMaskHeaders|
      ensures IsMeasuredName(DefaultMaskHeaders[j])
    {
      assert DefaultMaskHeaders[j] == Name(DefaultMasked[j]);
      ColumnNamedInvertsName(DefaultMasked[j]);
    }
    var cols := Resolve(DefaultMaskHeaders).value;
    forall j | 0 <= j < |DefaultMaskHeaders|
      ensures cols[j] == DefaultMasked[j]
    {
      assert Name(cols[j]) == Name(DefaultMasked[j]);
      ColumnNamedInvertsName(cols[j]);
      ColumnNamedInvertsName(DefaultMasked[j]);
    }
    assert cols == DefaultMasked;
  }

  /** The default labels do not list `Status` or `Pressure`. */
  lemma DefaultLabelsSpareStatusAndPressure()
    ensures Name(Status) !in DefaultMaskHeaders && Name(Pressure) !in DefaultMaskHeaders
  {
    DefaultMaskResolves();
    DefaultSparesStatusAndPressure();
    ResolvedMembership(DefaultMaskHeaders, Status);
    ResolvedMembership(DefaultMaskHeaders, Pressure);
  }

  /**
   * With the default labels the status and pressure cells (the columns
   * before the masked channels) are never masked: they are the parsed
   * fields 2 and 3 of the record, whatever their value.
   */
  lemma DefaultMaskSparesStatusAndPressure(rows: seq<seq<string>>, parseTime: string -> TimeParse,
                                            parseNumber: string -> NumberParse, c: Column, i: nat)
    requires Clean(rows, DefaultMaskHeaders, DefaultMin, DefaultMax, parseTime, parseNumber).Success?
    requires (c == Status || c == Pressure) && i < |rows|
    ensures var t := Clean(rows, DefaultMaskHeaders, DefaultMin, DefaultMax, parseTime, parseNumber).value;
      && c in t.columns && |t.columns[c]| == |rows|
      && t.columns[c][i] == RawCell(rows, parseNumber, i, FieldOf(c))
  {
    DefaultLabelsSpareStatusAndPressure();
    UnlistedCellKept(rows, DefaultMaskHeaders, DefaultMin, DefaultMax, parseTime, parseNumber, c, i);
  }

  /** Row `i` of a cleaned table `t`: the timestamp of record `i` and, in column `c`, its masked field. */
  lemma CleanedRowAt(rows: seq<seq<string>>, maskcols: seq<string>, minval: real, maxval: real,
                     parseTime: string -> TimeParse, parseNumber: string -> NumberParse, t: Table, c: Column, i: nat)
    requires Clean(rows, maskcols, minval, maxval, parseTime, parseNumber) == Success(t)
    requires c != PipeTempDiff && i < |rows|
    ensures TimeOk(rows[i], parseTime) && |t.index| == |rows| && t.index[i] == TimeOf(rows[i], parseTime)
    ensures c in t.columns && |t.columns[c]| == |rows|
    ensures t.columns[c][i] == AfterMask(RawCell(rows, parseNumber, i, FieldOf(c)), Name(c) in maskcols, minval, maxval)
  {
    CleanedIndexAt(rows, maskcols, minval, maxval, parseTime, parseNumber, i);
    CleanedCellAt(rows, maskcols, minval, maxval, parseTime, parseNumber, c, i);
  }

  /** A cell of a column whose label is not listed is the parsed field, whatever its value. */
  lemma UnlistedCellKept(rows: seq<seq<string>>, maskcols: seq<string>, minval: real, maxval: real,
                         parseTime: string -> TimeParse, parseNumber: string -> NumberParse, c: Column, i: nat)
    requires Clean(rows, maskcols, minval, maxval, parseTime, parseNumber).Success?
    requires c != PipeTempDiff && i < |rows| && Name(c) !in maskcols
    ensures var t := Clean(rows, maskcols, minval, maxval, parseTime, parseNumber).value;
      && c in t.columns && |t.columns[c]| == |rows|
      && t.columns[c][i] == RawCell(rows, parseNumber, i, FieldOf(c))
  {
    CleanedCellAt(rows, maskcols, minval, maxval, parseTime, parseNumber, c, i);
  }
}

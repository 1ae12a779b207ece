/**
 * Table building (`clean_data`, the part before masking): every record is
 * split on ",", field 1 becomes the time index, field 0 is discarded and the
 * remaining twelve fields are converted to numbers under the canonical
 * column names. Any bad record fails the whole build.
 */
module TableBuilder {
  import opened Wrappers
  import opened Text

  /** A numeric cell; `None` is pandas' NaN (missing). */
  type Cell = Option<real>

  /** Outcome of `float(text)`: not a number at all, or a value (NaN counts as missing). */
  datatype NumberParse = Unparseable | Parsed(cell: Cell)

  /** A timestamp in whole seconds, or pandas' NaT (not a time). */
  datatype Stamp = NaT | At(seconds: int)

  /** Outcome of `pd.to_datetime(text)`: not a date-time at all, or a stamp (an empty field or "NaT" is missing). */
  datatype TimeParse = NotATime | ParsedTime(stamp: Stamp)

  /** The columns of the telemetry table (`COLNAMES`). */
  datatype Column =
    | Status | Pressure | AmbientTemp | HeaterBlowerOut | Shutter | Case | PowerBoard
    | VnirDetFocuser | DctecHot | DctecCold | PidtecHot | PidtecCold | PipeTempDiff

  /** The pandas label of a column. */
  function Name(c: Column): string {
    match c
    case Status => "Status"
    case Pressure => "Pressure"
    case AmbientTemp => "ambient_temp"
    case HeaterBlowerOut => "heater_blower_out"
    case Shutter => "shutter"
    case Case => "case"
    case PowerBoard => "power_board"
    case VnirDetFocuser => "vnir_det_focuser"
    case DctecHot => "dctec_hot"
    case DctecCold => "dctec_cold"
    case PidtecHot => "pidtec_hot"
    case PidtecCold => "pidtec_cold"
    case PipeTempDiff => "pipe_temp_diff"
  }

  /** The column a label names, if any: the lookup `df[label]` performs. */
  function ColumnNamed(header: string): (r: Option<Column>)
    ensures r.Some? ==> Name(r.value) == header
    ensures r.None? ==> forall c: Column :: Name(c) != header
  {
    if header == "Status" then Some(Status)
    else if header == "Pressure" then Some(Pressure)
    else if header == "ambient_temp" then Some(AmbientTemp)
    else if header == "heater_blower_out" then Some(HeaterBlowerOut)
    else if header == "shutter" then Some(Shutter)
    else if header == "case" then Some(Case)
    else if header == "power_board" then Some(PowerBoard)
    else if header == "vnir_det_focuser" then Some(VnirDetFocuser)
    else if header == "dctec_hot" then Some(DctecHot)
    else if header == "dctec_cold" then Some(DctecCold)
    else if header == "pidtec_hot" then Some(PidtecHot)
    else if header == "pidtec_cold" then Some(PidtecCold)
    else if header == "pipe_temp_diff" then Some(PipeTempDiff)
    else None
  }

  /** Looking a column up by its label finds that column, so labels are distinct. */
  lemma ColumnNamedInvertsName(c: Column)
    ensures ColumnNamed(Name(c)) == Some(c)
  {
  }

  /** The columns given to fields 2..13, in order (`COLNAMES[:-1]`). */
  const Measured: seq<Column> := [Status, Pressure, AmbientTemp, HeaterBlowerOut, Shutter, Case,
                                  PowerBoard, VnirDetFocuser, DctecHot, DctecCold, PidtecHot, PidtecCold]

  /** Discriminator, timestamp and the twelve measurements. */
  const FieldCount: nat := 14

  /** The record field a measured column is read from: its place in `COLNAMES` plus two. */
  function FieldOf(c: Column): nat
    requires c != PipeTempDiff
  {
    match c
    case Status => 2
    case Pressure => 3
    case AmbientTemp => 4
    case HeaterBlowerOut => 5
    case Shutter => 6
    case Case => 7
    case PowerBoard => 8
    case VnirDetFocuser => 9
    case DctecHot => 10
    case DctecCold => 11
    case PidtecHot => 12
    case PidtecCold => 13
  }

  /** Every column but the derived one is measured, at position `FieldOf(c) - 2`. */
  lemma MeasuredAt(c: Column)
    requires c != PipeTempDiff
    ensures 2 <= FieldOf(c) < FieldCount && Measured[FieldOf(c) - 2] == c
  {
  }

  /** A time-indexed table: row timestamps, column order, and the cells of each column. */
  datatype Table = Table(index: seq<Stamp>, names: seq<Column>, columns: map<Column, seq<Cell>>)

  /** Why a run of the pipeline produced no table. */
  datatype CleanError =
    | EmptyFeed                            // no records: there is no column 1 to index by
    | WrongFieldCount(row: nat)            // the record does not have exactly FieldCount fields
    | BadTimestamp(row: nat)               // field 1 is not a date-time
    | BadNumber(row: nat, field: nat)      // a measured field is not a number
    | UnknownColumn(header: string)        // a column to mask does not exist

  /** The column order lists exactly the columns, and every column has one cell per row. */
  ghost predicate WellShaped(t: Table) {
    && (forall name :: name in t.columns <==> name in t.names)
    && (forall name | name in t.columns :: |t.columns[name]| == |t.index|)
  }

  /** No column appears twice in a column order. */
  ghost predicate Distinct(names: seq<Column>) {
    forall i, j | 0 <= i < j < |names| :: names[i] != names[j]
  }

  /** `record.split(",")`: at least one field, and the fields joined by "," give the record back. */
  function Fields(record: string): (fields: seq<string>)
    ensures |fields| >= 1
    ensures Join(fields, ",") == record
  {
    SplitJoin(record, ",");
    Split(record, ",")
  }

  /** `[line.split(",") for line in records]`. */
  function FieldRows(records: seq<string>): (rows: seq<seq<string>>)
    ensures |rows| == |records|
    ensures forall i | 0 <= i < |records| :: rows[i] == Fields(records[i])
  {
    seq(|records|, i requires 0 <= i < |records| => Fields(records[i]))
  }

  /** Field 1 of a row parses as a date-time (possibly NaT). */
  predicate TimeOk(row: seq<string>, parseTime: string -> TimeParse) {
    |row| >= 2 && parseTime(row[1]).ParsedTime?
  }

  function TimeOf(row: seq<string>, parseTime: string -> TimeParse): Stamp
    requires TimeOk(row, parseTime)
  {
    parseTime(row[1]).stamp
  }

  /** Field `field` of a row parses as a number. */
  predicate CellOk(row: seq<string>, parseNumber: string -> NumberParse, field: nat) {
    field < |row| && parseNumber(row[field]).Parsed?
  }

  function CellOf(row: seq<string>, parseNumber: string -> NumberParse, field: nat): Cell
    requires CellOk(row, parseNumber, field)
  {
    parseNumber(row[field]).cell
  }

  /** A row the build accepts: the right width, a timestamp and twelve numbers. */
  ghost predicate Conforms(row: seq<string>, parseTime: string -> TimeParse, parseNumber: string -> NumberParse) {
    && |row| == FieldCount
    && TimeOk(row, parseTime)
    && forall field | 2 <= field < FieldCount :: CellOk(row, parseNumber, field)
  }

  /** The first row at or after `from` whose field count is wrong. */
  function FirstWrongWidth(rows: seq<seq<string>>, from: nat): (r: Option<nat>)
    requires from <= |rows|
    decreases |rows| - from
    ensures r.Some? ==> from <= r.value < |rows| && |rows[r.value]| != FieldCount
    ensures r.Some? ==> forall i | from <= i < r.value :: |rows[i]| == FieldCount
    ensures r.None? <==> forall i | from <= i < |rows| :: |rows[i]| == FieldCount
  {
    if from == |rows| then None
    else if |rows[from]| != FieldCount then Some(from)
    else FirstWrongWidth(rows, from + 1)
  }

  /** `pd.to_datetime` over the index taken from `rows[from..]`: all timestamps, or the first bad row. */
  function ParseIndex(rows: seq<seq<string>>, parseTime: string -> TimeParse, from: nat)
    : (r: Result<seq<Stamp>, CleanError>)
    requires from <= |rows|
    decreases |rows| - from
    ensures r.Success? <==> forall i {:trigger TimeOk(rows[i], parseTime)} | from <= i < |rows| :: TimeOk(rows[i], parseTime)
    ensures r.Success? ==> |r.value| == |rows| - from
    ensures r.Success? ==> forall i {:trigger TimeOf(rows[i], parseTime)} | from <= i < |rows| :: r.value[i - from] == TimeOf(rows[i], parseTime)
    ensures r.Failure? ==> r.error.BadTimestamp? && from <= r.error.row < |rows|
                           && !TimeOk(rows[r.error.row], parseTime)
    ensures r.Failure? ==> forall i {:trigger TimeOk(rows[i], parseTime)} | from <= i < r.error.row :: TimeOk(rows[i], parseTime)
  {
    if from == |rows| then Success([])
    else if !TimeOk(rows[from], parseTime) then Failure(BadTimestamp(from))
    else match ParseIndex(rows, parseTime, from + 1)
      case Failure(e) => Failure(e)
      case Success(rest) => Success([TimeOf(rows[from], parseTime)] + rest)
  }

  /** `float()` over field `field` of `rows[from..]`: the column, or the first bad row. */
  function ParseColumn(rows: seq<seq<string>>, parseNumber: string -> NumberParse, field: nat, from: nat)
    : (r: Result<seq<Cell>, CleanError>)
    requires from <= |rows|
    decreases |rows| - from
    ensures r.Success? <==> forall i {:trigger CellOk(rows[i], parseNumber, field)} | from <= i < |rows| :: CellOk(rows[i], parseNumber, field)
    ensures r.Success? ==> |r.value| == |rows| - from
    ensures r.Success? ==> forall i {:trigger CellOf(rows[i], parseNumber, field)} | from <= i < |rows| :: r.value[i - from] == CellOf(rows[i], parseNumber, field)
    ensures r.Failure? ==> r.error.BadNumber? && r.error.field == field && from <= r.error.row < |rows|
                           && !CellOk(rows[r.error.row], parseNumber, field)
    ensures r.Failure? ==> forall i {:trigger CellOk(rows[i], parseNumber, field)} | from <= i < r.error.row :: CellOk(rows[i], parseNumber, field)
  {
    if from == |rows| then Success([])
    else if !CellOk(rows[from], parseNumber, field) then Failure(BadNumber(from, field))
    else match ParseColumn(rows, parseNumber, field, from + 1)
      case Failure(e) => Failure(e)
      case Success(rest) => Success([CellOf(rows[from], parseNumber, field)] + rest)
  }

  /** The columns of `Measured` are pairwise distinct, and the derived column is not among them. */
  lemma MeasuredDistinct()
    ensures Distinct(Measured)
    ensures PipeTempDiff !in Measured
  {
    forall i, j | 0 <= i < j < |Measured|
      ensures Measured[i] != Measured[j]
    {
      assert FieldOf(Measured[i]) == i + 2 && FieldOf(Measured[j]) == j + 2;
    }
  }

  /**
   * `astype(float)` over `n` columns, the `j`-th holding field `field + j`
   * of every row, column after column: the columns, or the first bad cell.
   */
  function ParseColumns(rows: seq<seq<string>>, parseNumber: string -> NumberParse, n: nat, field: nat)
    : (r: Result<seq<seq<Cell>>, CleanError>)
    decreases n
    ensures r.Success? <==> forall i, f | 0 <= i < |rows| && field <= f < field + n :: CellOk(rows[i], parseNumber, f)
    ensures r.Success? ==> |r.value| == n
    ensures r.Success? ==> forall j | 0 <= j < n ::
      |r.value[j]| == |rows|
      && forall i {:trigger r.value[j][i]} | 0 <= i < |rows| ::
           CellOk(rows[i], parseNumber, field + j) && r.value[j][i] == CellOf(rows[i], parseNumber, field + j)
    ensures r.Failure? ==> r.error.BadNumber? && r.error.row < |rows| && field <= r.error.field < field + n
                           && !CellOk(rows[r.error.row], parseNumber, r.error.field)
    ensures r.Failure? ==> forall i, f | 0 <= i < |rows| && field <= f < r.error.field :: CellOk(rows[i], parseNumber, f)
    ensures r.Failure? ==> forall i {:trigger CellOk(rows[i], parseNumber, r.error.field)} | 0 <= i < r.error.row :: CellOk(rows[i], parseNumber, r.error.field)
  {
    if n == 0 then Success([])
    else match ParseColumn(rows, parseNumber, field, 0)
      case Failure(e) => Failure(e)
      case Success(column) =>
        match ParseColumns(rows, parseNumber, n - 1, field + 1)
        case Failure(e) => Failure(e)
        case Success(rest) => Success([column] + rest)
  }

  /** The table whose columns `names` hold `cells`, position by position. */
  function Assemble(index: seq<Stamp>, names: seq<Column>, cells: seq<seq<Cell>>): (t: Table)
    requires |cells| == |names|
    requires Distinct(names)
    requires forall j | 0 <= j < |cells| :: |cells[j]| == |index|
    ensures WellShaped(t) && t.index == index && t.names == names
    ensures forall j {:trigger t.columns[names[j]]} | 0 <= j < |names| :: t.columns[names[j]] == cells[j]
  {
    var columns := map j | 0 <= j < |names| :: names[j] := cells[j];
    Table(index, names, columns)
  }

  /**
   * The table built from the split records (`clean_data` lines 28-34). It
   * exists exactly when there is at least one row and every row conforms;
   * it then has one table row per record row in order, indexed by field 1,
   * with field `k + 2` of each row under the column `Measured[k]`.
   * Otherwise the error names an offending row.
   */
  function Build(rows: seq<seq<string>>, parseTime: string -> TimeParse, parseNumber: string -> NumberParse)
    : (r: Result<Table, CleanError>)
    ensures r.Success? <==> |rows| > 0 && forall i | 0 <= i < |rows| :: Conforms(rows[i], parseTime, parseNumber)
    ensures r.Success? ==> WellShaped(r.value) && r.value.names == Measured && |r.value.index| == |rows|
    ensures r.Success? ==> forall i {:trigger r.value.index[i]} | 0 <= i < |rows| :: r.value.index[i] == TimeOf(rows[i], parseTime)
    ensures r.Success? ==> forall i, k {:trigger r.value.columns[Measured[k]][i]} | 0 <= i < |rows| && 0 <= k < |Measured| ::
      r.value.columns[Measured[k]][i] == CellOf(rows[i], parseNumber, k + 2)
    ensures r.Failure? ==> match r.error
      case EmptyFeed => |rows| == 0
      case WrongFieldCount(i) => i < |rows| && |rows[i]| != FieldCount
      case BadTimestamp(i) => i < |rows| && !TimeOk(rows[i], parseTime)
      case BadNumber(i, field) => i < |rows| && 2 <= field < FieldCount && !CellOk(rows[i], parseNumber, field)
      case UnknownColumn(_) => false
  {
    if |rows| == 0 then Failure(EmptyFeed)
    else match FirstWrongWidth(rows, 0)
      case Some(i) => Failure(WrongFieldCount(i))
      case None =>
        match ParseIndex(rows, parseTime, 0)
        case Failure(e) => Failure(e)
        case Success(index) =>
          MeasuredDistinct();
          match ParseColumns(rows, parseNumber, |Measured|, 2)
          case Failure(e) => Failure(e)
          case Success(cells) => Success(Assemble(index, Measured, cells))
  }
}

/**
 * Validity masking (`clean_data` lines 35-36): in every column named for
 * masking, a cell outside `[minval, maxval]` (both bounds inclusive) becomes
 * missing; nothing else in the table changes.
 */
module ValidityMasker {
  import opened Wrappers
  import opened TableBuilder

  /** The default lower plausibility bound. */
  const DefaultMin: real := -10.0

  /** The default upper plausibility bound. */
  const DefaultMax: real := 100.0

  /** The columns masked by default (`COLNAMES[2:-1]`): every channel after `Pressure`. */
  const DefaultMasked: seq<Column> := Measured[2..]

  /** `Status` and `Pressure` are not masked by default. */
  lemma DefaultSparesStatusAndPressure()
    ensures Status !in DefaultMasked && Pressure !in DefaultMasked
  {
  }

  /** `Series.between(lo, hi)` on one cell; a missing cell is never in range. */
  predicate InRange(c: Cell, lo: real, hi: real) {
    c.Some? && lo <= c.value <= hi
  }

  /** A cell after masking: kept unless its column is listed and the value is out of range. */
  function AfterMask(c: Cell, listed: bool, lo: real, hi: real): Cell {
    if listed && !InRange(c, lo, hi) then None else c
  }

  /** `where(between(lo, hi), NaN)` on one column. */
  function MaskCells(cells: seq<Cell>, lo: real, hi: real): seq<Cell>
  {
    seq(|cells|, i requires 0 <= i < |cells| => AfterMask(cells[i], true, lo, hi))
  }

  /**
   * `df[column] = df[column].where(df[column].between(lo, hi), np.nan)`:
   * each cell of `column` is kept when it lies in `[lo, hi]` and is missing
   * otherwise; the index, the column order and every other column stay.
   */
  function MaskColumn(t: Table, column: Column, lo: real, hi: real): (m: Table)
    requires column in t.columns
    ensures m.index == t.index && m.names == t.names && m.columns.Keys == t.columns.Keys
    ensures forall c | c in t.columns && c != column :: m.columns[c] == t.columns[c]
    ensures |m.columns[column]| == |t.columns[column]|
    ensures forall i | 0 <= i < |t.columns[column]| ::
      m.columns[column][i] == (if InRange(t.columns[column][i], lo, hi) then t.columns[column][i] else None)
  {
    t.(columns := t.columns[column := MaskCells(t.columns[column], lo, hi)])
  }

  /**
   * The table after masking `cols` one after another. Masking leaves the
   * index, the column order, the set of columns and their lengths as they
   * are.
   */
  function MaskAll(t: Table, cols: seq<Column>, lo: real, hi: real): (m: Table)
    requires forall c | c in cols :: c in t.columns
    decreases |cols|
    ensures m.index == t.index && m.names == t.names && m.columns.Keys == t.columns.Keys
    ensures forall c | c in t.columns :: |m.columns[c]| == |t.columns[c]|
  {
    if |cols| == 0 then t
    else MaskColumn(MaskAll(t, cols[..|cols| - 1], lo, hi), cols[|cols| - 1], lo, hi)
  }

  /**
   * Masking acts cell by cell: in a listed column a cell is kept when its
   * value lies in `[lo, hi]` and is missing otherwise; every cell of an
   * unlisted column is kept.
   */
  lemma {:induction false} MaskAllAt(t: Table, cols: seq<Column>, lo: real, hi: real)
    requires forall c | c in cols :: c in t.columns
    decreases |cols|
    ensures forall c, i | c in t.columns && 0 <= i < |t.columns[c]| ::
      MaskAll(t, cols, lo, hi).columns[c][i]
        == AfterMask(t.columns[c][i], c in cols, lo, hi)
  {
    if |cols| > 0 {
      var init := cols[..|cols| - 1];
      var last := cols[|cols| - 1];
      MaskAllAt(t, init, lo, hi);
      forall c | c in t.columns
        ensures c in cols <==> c in init || c == last
      {
        assert cols == init + [last];
      }
    }
  }

  /** `MaskAllAt` for one cell. */
  lemma MaskedCell(t: Table, cols: seq<Column>, lo: real, hi: real, c: Column, i: nat)
    requires forall c | c in cols :: c in t.columns
    requires c in t.columns && i < |t.columns[c]|
    ensures MaskAll(t, cols, lo, hi).columns[c][i]
      == AfterMask(t.columns[c][i], c in cols, lo, hi)
  {
    MaskAllAt(t, cols, lo, hi);
  }

  /** Masking keeps a table well shaped. */
  lemma MaskAllWellShaped(t: Table, cols: seq<Column>, lo: real, hi: real)
    requires WellShaped(t)
    requires forall c | c in cols :: c in t.columns
    ensures WellShaped(MaskAll(t, cols, lo, hi))
  {
    MaskAllAt(t, cols, lo, hi);
  }

  /** After masking, every cell of a listed column is missing or lies in `[lo, hi]`. */
  lemma MaskedCellsInRange(t: Table, cols: seq<Column>, lo: real, hi: real, c: Column, i: nat)
    requires forall c | c in cols :: c in t.columns
    requires c in cols && i < |t.columns[c]|
    ensures MaskAll(t, cols, lo, hi).columns[c][i].None? || InRange(MaskAll(t, cols, lo, hi).columns[c][i], lo, hi)
  {
    MaskAllAt(t, cols, lo, hi);
  }

  /** Masking twice with the same columns and bounds gives the table masking once gives. */
  lemma MaskAllIdempotent(t: Table, cols: seq<Column>, lo: real, hi: real)
    requires forall c | c in cols :: c in t.columns
    ensures MaskAll(MaskAll(t, cols, lo, hi), cols, lo, hi) == MaskAll(t, cols, lo, hi)
  {
    var once := MaskAll(t, cols, lo, hi);
    var twice := MaskAll(once, cols, lo, hi);
    MaskAllAt(t, cols, lo, hi);
    MaskAllAt(once, cols, lo, hi);
    forall c | c in t.columns
      ensures twice.columns[c] == once.columns[c]
    {
    }
    assert twice.columns == once.columns;
  }
}

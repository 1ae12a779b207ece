/**
 * The derived column (`clean_data` line 37):
 * `pipe_temp_diff = pidtec_hot - dctec_cold`, row by row, where a missing
 * operand gives a missing difference.
 */
module DerivedMetric {
  import opened Wrappers
  import opened TableBuilder

  /** Row-wise `hot - cold`; NaN on either side gives NaN. */
  function Difference(hot: seq<Cell>, cold: seq<Cell>): (d: seq<Cell>)
    requires |hot| == |cold|
    ensures |d| == |hot|
    ensures forall i | 0 <= i < |hot| ::
      && (d[i].Some? <==> hot[i].Some? && cold[i].Some?)
      && (d[i].Some? ==> d[i].value == hot[i].value - cold[i].value)
  {
    seq(|hot|, i requires 0 <= i < |hot| =>
      if hot[i].Some? && cold[i].Some? then Some(hot[i].value - cold[i].value) else None)
  }

  /**
   * `df['pipe_temp_diff'] = df['pidtec_hot'] - df['dctec_cold']`: the
   * difference column is set (appended to the column order if it was not
   * there yet); the index and every other column stay as they were.
   */
  function WithDifference(t: Table): (d: Table)
    requires PidtecHot in t.columns && DctecCold in t.columns
    requires |t.columns[PidtecHot]| == |t.columns[DctecCold]|
    ensures d.index == t.index
    ensures d.names == if PipeTempDiff in t.names then t.names else t.names + [PipeTempDiff]
    ensures d.columns.Keys == t.columns.Keys + {PipeTempDiff}
    ensures forall c | c in t.columns && c != PipeTempDiff :: d.columns[c] == t.columns[c]
  {
    Table(t.index,
          if PipeTempDiff in t.names then t.names else t.names + [PipeTempDiff],
          t.columns[PipeTempDiff := Difference(t.columns[PidtecHot], t.columns[DctecCold])])
  }

  /**
   * Row `i` of the difference is present exactly when both operands are,
   * and then equals `pidtec_hot[i] - dctec_cold[i]`.
   */
  lemma DifferenceAt(t: Table, i: nat)
    requires PidtecHot in t.columns && DctecCold in t.columns
    requires |t.columns[PidtecHot]| == |t.columns[DctecCold]|
    requires i < |t.columns[PidtecHot]|
    ensures var d := WithDifference(t).columns[PipeTempDiff];
      && |d| == |t.columns[PidtecHot]|
      && (d[i].Some? <==> t.columns[PidtecHot][i].Some? && t.columns[DctecCold][i].Some?)
      && (d[i].Some? ==> d[i].value == t.columns[PidtecHot][i].value - t.columns[DctecCold][i].value)
  {
  }

  /** Adding the difference keeps a table well shaped. */
  lemma WithDifferenceWellShaped(t: Table)
    requires WellShaped(t) && PidtecHot in t.columns && DctecCold in t.columns
    ensures WellShaped(WithDifference(t))
  {
  }

  /** Adding the difference never lists a column twice. */
  lemma WithDifferenceDistinct(t: Table)
    requires PidtecHot in t.columns && DctecCold in t.columns
    requires |t.columns[PidtecHot]| == |t.columns[DctecCold]|
    requires Distinct(t.names)
    ensures Distinct(WithDifference(t).names)
  {
    var d := WithDifference(t);
    forall i, j | 0 <= i < j < |d.names|
      ensures d.names[i] != d.names[j]
    {
      if PipeTempDiff !in t.names && j == |t.names| {
        assert d.names[j] == PipeTempDiff;
        assert d.names[i] == t.names[i];
      }
    }
  }
}

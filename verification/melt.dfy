/**
  The wide-to-long reshape (`wide_to_long`, a pandas melt with `timestamp`
  as the identifier column). Every cell of a measurement column becomes one
  record (timestamp, measurand, value): the measurement columns are taken
  one after the other, in column order, and within a column the rows in
  order. A missing cell stays a missing value.
*/
module Melt {
  import opened Tables

  /** One line of the long output: its three columns. */
  datatype Record = Record(timestamp: Cell, measurand: Name, value: Cell)

  /** A table the melt accepts: well formed, with a `timestamp` column. */
  predicate Meltable(t: Table)
  {
    WellFormed(t) && TimestampColumn in ColumnSet(t)
  }

  /** The measurement columns: every column except `timestamp`, in order. */
  function Measurands(cols: seq<Name>): (ms: seq<Name>)
    ensures Elems(ms) == Elems(cols) - {TimestampColumn}
    ensures Distinct(cols) ==> Distinct(ms)
    ensures forall i, j :: 0 <= i < j < |ms| ==> Before(cols, ms[i], ms[j])
    ensures Distinct(cols) && TimestampColumn in cols ==> |ms| == |cols| - 1
  {
    var ms := KeepIn(cols, Elems(cols) - {TimestampColumn});
    if Distinct(cols) && TimestampColumn in cols then
      DistinctCard(cols);
      DistinctCard(ms);
      ms
    else ms
  }

  /** The record of row `i` and measurement column `m`. */
  function CellRecord(t: Table, i: int, m: Name): Record
    requires Meltable(t) && 0 <= i < |t.rows| && m in ColumnSet(t)
  {
    Record(t.rows[i][TimestampColumn], m, t.rows[i][m])
  }

  /** One block of the melt: column `m` of every row. */
  function MeltColumn(t: Table, m: Name): seq<Record>
    requires Meltable(t) && m in ColumnSet(t)
  {
    seq(|t.rows|, i requires 0 <= i < |t.rows| => CellRecord(t, i, m))
  }

  /** The blocks of the columns `ms`, one after the other. */
  function MeltColumns(t: Table, ms: seq<Name>): (r: seq<Record>)
    requires Meltable(t) && Elems(ms) <= ColumnSet(t)
    ensures |r| == |t.rows| * |ms|
  {
    if ms == [] then []
    else
      assert ms[0] in Elems(ms);
      assert Elems(ms[1..]) <= Elems(ms);
      var rest := MeltColumns(t, ms[1..]);
      assert |t.rows| * |ms| == |t.rows| + |t.rows| * |ms[1..]|;
      MeltColumn(t, ms[0]) + rest
  }

  /** `wide_to_long`: melt every measurement column against `timestamp`. */
  function WideToLong(t: Table): (r: seq<Record>)
    requires Meltable(t)
    ensures |r| == |t.rows| * (|t.columns| - 1)
  {
    MeltColumns(t, Measurands(t.columns))
  }

  /** Record `j * n + i` of the blocks is row `i` of the `j`-th column. */
  lemma {:induction false} MeltColumnsAt(t: Table, ms: seq<Name>, j: int, i: int)
    requires Meltable(t) && Elems(ms) <= ColumnSet(t)
    requires 0 <= j < |ms| && 0 <= i < |t.rows|
    ensures 0 <= j * |t.rows| + i < |MeltColumns(t, ms)|
    ensures ms[j] in ColumnSet(t)
    ensures MeltColumns(t, ms)[j * |t.rows| + i] == CellRecord(t, i, ms[j])
  {
    var n := |t.rows|;
    assert ms[0] in Elems(ms);
    assert Elems(ms[1..]) <= Elems(ms);
    if j == 0 {
    } else {
      MeltColumnsAt(t, ms[1..], j - 1, i);
      assert j * n + i == n + ((j - 1) * n + i);
      assert ms[1..][j - 1] == ms[j];
    }
  }

  /** Every record of the blocks is the cell of some row under one of the columns `ms`. */
  lemma {:induction false} MeltColumnsSound(t: Table, ms: seq<Name>, k: int)
    requires Meltable(t) && Elems(ms) <= ColumnSet(t)
    requires 0 <= k < |MeltColumns(t, ms)|
    ensures MeltColumns(t, ms)[k].measurand in Elems(ms)
    ensures exists i :: 0 <= i < |t.rows| && MeltColumns(t, ms)[k] == CellRecord(t, i, MeltColumns(t, ms)[k].measurand)
  {
    var n := |t.rows|;
    assert ms[0] in Elems(ms);
    assert Elems(ms[1..]) <= Elems(ms);
    if k < n {
      assert MeltColumns(t, ms)[k] == CellRecord(t, k, ms[0]);
    } else {
      MeltColumnsSound(t, ms[1..], k - n);
      assert MeltColumns(t, ms)[k] == MeltColumns(t, ms[1..])[k - n];
    }
  }

  /** Record `j * n + i` of the long output is row `i` of the `j`-th measurement column. */
  lemma WideToLongAt(t: Table, j: int, i: int)
    requires Meltable(t)
    requires 0 <= j < |t.columns| - 1 && 0 <= i < |t.rows|
    ensures Measurands(t.columns)[j] in ColumnSet(t)
    ensures 0 <= j * |t.rows| + i < |WideToLong(t)|
    ensures WideToLong(t)[j * |t.rows| + i] == CellRecord(t, i, Measurands(t.columns)[j])
  {
    MeltColumnsAt(t, Measurands(t.columns), j, i);
  }

  /**
    Every record of the long output is a cell of the input: some row's
    timestamp, a measurement column, and that row's value in that column.
    In particular no record has the measurand `timestamp`.
  */
  lemma WideToLongSound(t: Table, k: int)
    requires Meltable(t) && 0 <= k < |WideToLong(t)|
    ensures WideToLong(t)[k].measurand in ColumnSet(t)
    ensures WideToLong(t)[k].measurand != TimestampColumn
    ensures exists i :: 0 <= i < |t.rows| && WideToLong(t)[k] == CellRecord(t, i, WideToLong(t)[k].measurand)
  {
    MeltColumnsSound(t, Measurands(t.columns), k);
  }

  /** Every cell of every measurement column appears in the long output. */
  lemma WideToLongComplete(t: Table, i: int, m: Name)
    requires Meltable(t) && 0 <= i < |t.rows|
    requires m in ColumnSet(t) && m != TimestampColumn
    ensures CellRecord(t, i, m) in WideToLong(t)
  {
    var ms := Measurands(t.columns);
    assert m in Elems(ms);
    var j :| 0 <= j < |ms| && ms[j] == m;
    WideToLongAt(t, j, i);
  }

  /** With at least one measurement column, every input timestamp reaches the output. */
  lemma TimestampsKept(t: Table, i: int)
    requires Meltable(t) && 0 <= i < |t.rows|
    requires |t.columns| >= 2
    ensures exists k :: 0 <= k < |WideToLong(t)| && WideToLong(t)[k].timestamp == t.rows[i][TimestampColumn]
  {
    WideToLongAt(t, 0, i);
  }
}

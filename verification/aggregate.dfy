/**
  Aggregation of the loaded files (the loop in `main`): every file is loaded
  in enumeration order, skipped files are dropped, and the tables that did
  load are concatenated into one.
*/
module Aggregate {
  import opened Wrappers
  import opened Tables
  import opened Loader

  predicate AllParserOutputs(files: seq<CsvParse>)
  {
    forall i :: 0 <= i < |files| ==> ParserOutput(files[i])
  }

  /** The load outcome of every file, in enumeration order. */
  function Loads(files: seq<CsvParse>, fields: FieldMap): seq<LoadOutcome>
    requires AllParserOutputs(files) && Injective(fields)
  {
    seq(|files|, i requires 0 <= i < |files| => LoadFile(files[i], fields))
  }

  /** How many outcomes are loaded tables. */
  function CountLoaded(outs: seq<LoadOutcome>): nat
  {
    if outs == [] then 0
    else CountLoaded(outs[..|outs| - 1]) + (if outs[|outs| - 1].Loaded? then 1 else 0)
  }

  /** The loaded tables, in order; skipped files leave no trace. */
  function Successes(outs: seq<LoadOutcome>): (ts: seq<Table>)
    ensures |ts| == CountLoaded(outs) <= |outs|
    ensures forall t :: t in ts <==> Loaded(t) in outs
  {
    if outs == [] then []
    else
      var init := outs[..|outs| - 1];
      var last := outs[|outs| - 1];
      assert outs == init + [last];
      Successes(init) + (if last.Loaded? then [last.table] else [])
  }

  /** The position of the first fatal outcome, or `|outs|` when there is none. */
  function FirstFatalIndex(outs: seq<LoadOutcome>): (k: nat)
    ensures k <= |outs|
    ensures k < |outs| ==> outs[k].Fatal?
    ensures forall j :: 0 <= j < k ==> !outs[j].Fatal?
  {
    if outs == [] then 0
    else if outs[0].Fatal? then 0
    else 1 + FirstFatalIndex(outs[1..])
  }

  /** The reason of the first fatal outcome, if there is one. */
  function FirstFatal(outs: seq<LoadOutcome>): Option<FatalReason>
  {
    var k := FirstFatalIndex(outs);
    if k < |outs| then Some(outs[k].reason) else None
  }

  /** The run fails exactly when some load is fatal. */
  lemma FirstFatalNone(outs: seq<LoadOutcome>)
    ensures FirstFatal(outs).None? <==> forall i :: 0 <= i < |outs| ==> !outs[i].Fatal?
  {
  }

  /** One more outcome: its table, if any, joins the end; a first fatal one becomes the first failure. */
  lemma Snoc(a: seq<LoadOutcome>, x: LoadOutcome)
    ensures Successes(a + [x]) == Successes(a) + (if x.Loaded? then [x.table] else [])
    ensures FirstFatal(a).None? && x.Fatal? ==> FirstFatal(a + [x]) == Some(x.reason)
    ensures FirstFatal(a).None? && !x.Fatal? ==> FirstFatal(a + [x]).None?
  {
    assert (a + [x])[..|a|] == a;
    FirstFatalAppend(a, [x]);
  }

  /** No outcome is a loaded table. */
  predicate NoneLoaded(outs: seq<LoadOutcome>)
  {
    forall i :: 0 <= i < |outs| ==> !outs[i].Loaded?
  }

  /** No table comes out exactly when no file loads. */
  lemma NothingLoaded(outs: seq<LoadOutcome>)
    ensures Successes(outs) == [] <==> NoneLoaded(outs)
  {
    if Successes(outs) != [] {
      assert Successes(outs)[0] in Successes(outs);
    }
  }

  /** Loading two runs of files one after the other keeps the tables of both, in order. */
  lemma {:induction false} SuccessesAppend(a: seq<LoadOutcome>, b: seq<LoadOutcome>)
    ensures Successes(a + b) == Successes(a) + Successes(b)
  {
    if b == [] {
      assert a + b == a;
    } else {
      var init := b[..|b| - 1];
      assert a + b == (a + init) + [b[|b| - 1]];
      assert (a + b)[..|a + b| - 1] == a + init;
      SuccessesAppend(a, init);
    }
  }

  /** A skipped (or fatal) file contributes no table: removing it changes nothing. */
  lemma SkippedIsInvisible(a: seq<LoadOutcome>, x: LoadOutcome, b: seq<LoadOutcome>)
    requires !x.Loaded?
    ensures Successes(a + [x] + b) == Successes(a + b)
  {
    SuccessesAppend(a + [x], b);
    SuccessesAppend(a, [x]);
    SuccessesAppend(a, b);
    assert [x][..0] == [];
  }

  /** The first fatal outcome of a concatenation lies in its first part if that has one. */
  lemma FirstFatalAppend(a: seq<LoadOutcome>, b: seq<LoadOutcome>)
    ensures FirstFatal(a + b) == if FirstFatal(a).Some? then FirstFatal(a) else FirstFatal(b)
  {
    FirstFatalIndexAppend(a, b);
  }

  lemma {:induction false} FirstFatalIndexAppend(a: seq<LoadOutcome>, b: seq<LoadOutcome>)
    ensures FirstFatalIndex(a + b) ==
      if FirstFatalIndex(a) < |a| then FirstFatalIndex(a) else |a| + FirstFatalIndex(b)
  {
    if a == [] {
      assert a + b == b;
    } else {
      assert (a + b)[0] == a[0];
      assert (a + b)[1..] == a[1..] + b;
      FirstFatalIndexAppend(a[1..], b);
    }
  }

  /**
    A file that is skipped can be taken out of the directory without changing
    which tables load or whether the run fails.
  */
  lemma SkippedFileIsDropped(files: seq<CsvParse>, fields: FieldMap, k: int)
    requires AllParserOutputs(files) && Injective(fields)
    requires 0 <= k < |files| && LoadFile(files[k], fields).Skipped?
    ensures AllParserOutputs(files[..k] + files[k + 1..])
    ensures Successes(Loads(files[..k] + files[k + 1..], fields)) == Successes(Loads(files, fields))
    ensures FirstFatal(Loads(files[..k] + files[k + 1..], fields)) == FirstFatal(Loads(files, fields))
  {
    var outs := Loads(files, fields);
    var rest := files[..k] + files[k + 1..];
    LoadsDropOne(files, fields, k);
    DropOne(outs, k);
  }

  /** Loading all files but the `k`-th gives all outcomes but the `k`-th. */
  lemma LoadsDropOne(files: seq<CsvParse>, fields: FieldMap, k: int)
    requires AllParserOutputs(files) && Injective(fields) && 0 <= k < |files|
    ensures AllParserOutputs(files[..k] + files[k + 1..])
    ensures Loads(files[..k] + files[k + 1..], fields) == Loads(files, fields)[..k] + Loads(files, fields)[k + 1..]
  {
    var rest := files[..k] + files[k + 1..];
    var all := Loads(files, fields);
    var dropped := all[..k] + all[k + 1..];
    assert AllParserOutputs(rest) by {
      forall i | 0 <= i < |rest|
        ensures ParserOutput(rest[i])
      {
        assert rest[i] == if i < k then files[i] else files[i + 1];
      }
    }
    var loaded := Loads(rest, fields);
    assert |loaded| == |dropped|;
    forall i | 0 <= i < |loaded|
      ensures loaded[i] == dropped[i]
    {
      if i < k {
        assert rest[i] == files[i];
        assert loaded[i] == LoadFile(files[i], fields) == all[i];
        assert dropped[i] == all[i];
      } else {
        assert rest[i] == files[i + 1];
        assert loaded[i] == LoadFile(files[i + 1], fields) == all[i + 1];
        assert dropped[i] == all[i + 1];
      }
    }
  }

  /** Dropping an outcome that is not a loaded table changes neither the tables nor the first failure. */
  lemma DropOne(outs: seq<LoadOutcome>, k: int)
    requires 0 <= k < |outs| && outs[k].Skipped?
    ensures Successes(outs[..k] + outs[k + 1..]) == Successes(outs)
    ensures FirstFatal(outs[..k] + outs[k + 1..]) == FirstFatal(outs)
  {
    var a, x, b := outs[..k], outs[k], outs[k + 1..];
    assert outs == a + [x] + b;
    SkippedIsInvisible(a, x, b);
    NonFatalIsInvisible(a, x, b);
  }

  /** An outcome that is not fatal cannot be the first fatal one. */
  lemma NonFatalIsInvisible(a: seq<LoadOutcome>, x: LoadOutcome, b: seq<LoadOutcome>)
    requires !x.Fatal?
    ensures FirstFatal(a + [x] + b) == FirstFatal(a + b)
  {
    FirstFatalAppend(a + [x], b);
    FirstFatalAppend(a, [x]);
    FirstFatalAppend(a, b);
    assert [x][1..] == [];
  }

  /** A row widened to the columns `cols`; a column it lacks gets a missing cell. */
  function Pad(row: Row, cols: set<Name>): Row
  {
    map c | c in cols :: if c in row then row[c] else None
  }

  /** A row that already has exactly the columns is unchanged by padding. */
  lemma PadExact(row: Row, cols: set<Name>)
    requires row.Keys == cols
    ensures Pad(row, cols) == row
  {
  }

  /** The columns of `a`, then the columns of `b` that `a` lacks, in `b`'s order. */
  function UnionColumns(a: seq<Name>, b: seq<Name>): (r: seq<Name>)
    requires Distinct(a) && Distinct(b)
    ensures Distinct(r)
    ensures Elems(r) == Elems(a) + Elems(b)
    ensures |r| >= |a| && r[..|a|] == a
    ensures Elems(b) <= Elems(a) ==> r == a
  {
    var extra := KeepIn(b, Elems(b) - Elems(a));
    ElemsAppend(a, extra);
    EmptyElems(extra);
    assert (a + extra)[..|a|] == a;
    assert Distinct(a + extra) by {
      forall i, j | 0 <= i < j < |a + extra|
        ensures (a + extra)[i] != (a + extra)[j]
      {
        if i < |a| && j >= |a| {
          assert (a + extra)[j] in Elems(extra);
        }
      }
    }
    a + extra
  }

  /** The rows of a table, each padded to the columns `cols`. */
  function PadRows(rows: seq<Row>, cols: set<Name>): (r: seq<Row>)
    ensures |r| == |rows|
    ensures forall i :: 0 <= i < |rows| ==> r[i].Keys == cols
  {
    seq(|rows|, i requires 0 <= i < |rows| => Pad(rows[i], cols))
  }

  /**
    The concatenation of two tables: columns of `a`, then the new columns of
    `b` in their order; rows of `a`, then rows of `b`, each padded with
    missing cells to the combined columns.
  */
  function Append(a: Table, b: Table): (r: Table)
    requires WellFormed(a) && WellFormed(b)
    ensures WellFormed(r)
    ensures ColumnSet(r) == ColumnSet(a) + ColumnSet(b)
    ensures |r.columns| >= |a.columns| && r.columns[..|a.columns|] == a.columns
    ensures ColumnSet(b) <= ColumnSet(a) ==> r.columns == a.columns
    ensures |r.rows| == |a.rows| + |b.rows|
    ensures forall i :: 0 <= i < |a.rows| ==> r.rows[i] == Pad(a.rows[i], ColumnSet(r))
    ensures forall i :: 0 <= i < |b.rows| ==> r.rows[|a.rows| + i] == Pad(b.rows[i], ColumnSet(r))
  {
    var cols := UnionColumns(a.columns, b.columns);
    var all := Elems(cols);
    Table(cols, PadRows(a.rows, all) + PadRows(b.rows, all))
  }

  predicate AllWellFormed(ts: seq<Table>)
  {
    forall i :: 0 <= i < |ts| ==> WellFormed(ts[i])
  }

  /** The rows of all tables, one table after the other. */
  function AllRows(ts: seq<Table>): seq<Row>
  {
    if ts == [] then [] else AllRows(ts[..|ts| - 1]) + ts[|ts| - 1].rows
  }

  /** The union of the tables' column sets. */
  function AllColumns(ts: seq<Table>): set<Name>
  {
    if ts == [] then {} else AllColumns(ts[..|ts| - 1]) + ColumnSet(ts[|ts| - 1])
  }

  /** `pd.concat` of a non-empty list of tables. */
  function Concat(ts: seq<Table>): (r: Table)
    requires |ts| > 0 && AllWellFormed(ts)
    ensures WellFormed(r)
    ensures ColumnSet(r) == AllColumns(ts)
    ensures |r.rows| == |AllRows(ts)|
    ensures |r.columns| >= |ts[0].columns| && r.columns[..|ts[0].columns|] == ts[0].columns
    decreases |ts|
  {
    if |ts| == 1 then
      assert ts[..0] == [];
      ts[0]
    else
      var init := ts[..|ts| - 1];
      assert init[0] == ts[0];
      Append(Concat(init), ts[|ts| - 1])
  }

  /**
    When every table has the same columns, as every table loaded with one
    field map does, the concatenation keeps exactly those columns, in the
    first table's order, and its rows are the tables' rows, unchanged.
  */
  lemma {:induction false} ConcatUniform(ts: seq<Table>, cols: set<Name>)
    requires |ts| > 0 && AllWellFormed(ts)
    requires forall i :: 0 <= i < |ts| ==> ColumnSet(ts[i]) == cols
    ensures ColumnSet(Concat(ts)) == cols
    ensures Concat(ts).columns == ts[0].columns
    ensures Concat(ts).rows == AllRows(ts)
    decreases |ts|
  {
    if |ts| == 1 {
      assert ts[..0] == [];
    } else {
      var init := ts[..|ts| - 1];
      var last := ts[|ts| - 1];
      ConcatUniform(init, cols);
      assert init[0] == ts[0];
      AppendUniform(Concat(init), last, cols);
    }
  }

  /** Appending a table with the same columns pads nothing. */
  lemma AppendUniform(a: Table, b: Table, cols: set<Name>)
    requires WellFormed(a) && WellFormed(b)
    requires ColumnSet(a) == cols && ColumnSet(b) == cols
    ensures Append(a, b).columns == a.columns
    ensures Append(a, b).rows == a.rows + b.rows
  {
    var r := Append(a, b);
    forall i | 0 <= i < |a.rows|
      ensures r.rows[i] == a.rows[i]
    {
      PadExact(a.rows[i], cols);
    }
    forall i | 0 <= i < |b.rows|
      ensures r.rows[|a.rows| + i] == b.rows[i]
    {
      PadExact(b.rows[i], cols);
    }
  }
}

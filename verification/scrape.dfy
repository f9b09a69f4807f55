/**
  The processing part of `main`: load every downloaded file, keep the ones
  that load, stop without output when none does, otherwise concatenate them
  and reshape the result to long form. Downloading, the temporary directory
  and writing the CSV are outside the model; the files arrive as the
  parser's outcomes, in directory-listing order.
*/
module Scrape {
  import opened Wrappers
  import opened Tables
  import opened Loader
  import opened Aggregate
  import opened Melt

  datatype RunOutcome =
    | Written(records: seq<Record>)   // the long table handed to `to_csv`
    | NoCleanData                     // no file loaded: nothing is written
    | Crashed(reason: FatalReason)    // an exception escaped `load_file`

  /** What the loading loop leaves behind. */
  datatype Collected = Kept(tables: seq<Table>) | Abort(reason: FatalReason)

  /**
    The loading loop: each file in turn, a skipped file is passed over, a
    fatal error leaves the loop and the run.
  */
  method CollectLoads(files: seq<CsvParse>, fields: FieldMap) returns (c: Collected)
    requires AllParserOutputs(files) && Injective(fields)
    ensures c.Abort? <==> FirstFatal(Loads(files, fields)).Some?
    ensures c.Abort? ==> c.reason == FirstFatal(Loads(files, fields)).value
    ensures c.Kept? ==> c.tables == Successes(Loads(files, fields))
  {
    ghost var outs := Loads(files, fields);
    var dfs: seq<Table> := [];
    var i := 0;
    while i < |files|
      invariant 0 <= i <= |files|
      invariant dfs == Successes(outs[..i])
      invariant FirstFatal(outs[..i]).None?
    {
      var df := LoadFile(files[i], fields);
      assert df == outs[i];
      assert outs[..i + 1] == outs[..i] + [df];
      Snoc(outs[..i], df);
      if df.Fatal? {
        FatalStops(outs, i);
        return Abort(df.reason);
      }
      if df.Loaded? {
        dfs := dfs + [df.table];
      }
      i := i + 1;
    }
    assert outs[..i] == outs;
    c := Kept(dfs);
  }

  /** The first fatal outcome after a fatal-free prefix is the next one. */
  lemma FatalStops(outs: seq<LoadOutcome>, i: int)
    requires 0 <= i < |outs| && outs[i].Fatal?
    requires FirstFatal(outs[..i]).None?
    ensures FirstFatal(outs) == Some(outs[i].reason)
  {
    var a, x, b := outs[..i], outs[i], outs[i + 1..];
    assert outs == (a + [x]) + b;
    FirstFatalAppend(a, [x]);
    FirstFatalAppend(a + [x], b);
  }

  method ProcessFiles(files: seq<CsvParse>, fields: FieldMap) returns (out: RunOutcome)
    requires AllParserOutputs(files) && Injective(fields)
    ensures out.Crashed? <==> FirstFatal(Loads(files, fields)).Some?
    ensures out.Crashed? ==> out.reason == FirstFatal(Loads(files, fields)).value
    ensures out.NoCleanData? <==>
      FirstFatal(Loads(files, fields)).None? && NoneLoaded(Loads(files, fields))
    ensures out.Written? ==>
      var tables := Successes(Loads(files, fields));
      && tables != []
      && Meltable(Table(tables[0].columns, AllRows(tables)))
      && out.records == WideToLong(Table(tables[0].columns, AllRows(tables)))
      && |out.records| == |AllRows(tables)| * (|fields| - 1)
  {
    var c := CollectLoads(files, fields);
    if c.Abort? {
      return Crashed(c.reason);
    }
    var dfs := c.tables;
    NothingLoaded(Loads(files, fields));
    if |dfs| < 1 {
      return NoCleanData;
    }
    LoadedTablesAgree(files, fields, dfs);
    CombinedIsMeltable(dfs, fields);
    var combined := Concat(dfs);
    out := Written(WideToLong(combined));
  }

  /**
    Tables loaded with one field map combine into a table with the
    canonical columns whose rows are all their rows.
  */
  lemma CombinedIsMeltable(dfs: seq<Table>, fields: FieldMap)
    requires |dfs| > 0
    requires forall j :: 0 <= j < |dfs| ==>
      && WellFormed(dfs[j])
      && ColumnSet(dfs[j]) == fields.Values
      && TimestampColumn in ColumnSet(dfs[j])
      && |dfs[j].columns| == |fields|
    ensures Concat(dfs) == Table(dfs[0].columns, AllRows(dfs))
    ensures Meltable(Concat(dfs))
    ensures |WideToLong(Concat(dfs))| == |AllRows(dfs)| * (|fields| - 1)
  {
    var c := Concat(dfs);
    ConcatUniform(dfs, fields.Values);
    assert c.columns == dfs[0].columns && c.rows == AllRows(dfs);
    assert TimestampColumn in ColumnSet(c);
    MeltLength(c, |AllRows(dfs)|, |fields| - 1);
  }

  /** The melt of an n-row table with m measurement columns has n × m records. */
  lemma MeltLength(t: Table, n: nat, m: nat)
    requires Meltable(t) && |t.rows| == n && |t.columns| == m + 1
    ensures |WideToLong(t)| == n * m
  {
  }

  /** Every loaded table is well formed, has the canonical columns and as many as the field map. */
  lemma LoadedTablesAgree(files: seq<CsvParse>, fields: FieldMap, dfs: seq<Table>)
    requires AllParserOutputs(files) && Injective(fields)
    requires dfs == Successes(Loads(files, fields))
    ensures forall j :: 0 <= j < |dfs| ==>
      && WellFormed(dfs[j])
      && ColumnSet(dfs[j]) == fields.Values
      && TimestampColumn in ColumnSet(dfs[j])
      && |dfs[j].columns| == |fields|
  {
    var outs := Loads(files, fields);
    forall j | 0 <= j < |dfs|
      ensures WellFormed(dfs[j]) && ColumnSet(dfs[j]) == fields.Values
      ensures TimestampColumn in ColumnSet(dfs[j]) && |dfs[j].columns| == |fields|
    {
      assert dfs[j] in dfs;
      assert Loaded(dfs[j]) in outs;
      var i :| 0 <= i < |outs| && outs[i] == Loaded(dfs[j]);
      LoadedShape(files[i], fields, dfs[j]);
    }
  }

  /** The shape of one loaded table, as `LoadFile` promises it. */
  lemma LoadedShape(parse: CsvParse, fields: FieldMap, t: Table)
    requires ParserOutput(parse) && Injective(fields)
    requires LoadFile(parse, fields) == Loaded(t)
    ensures WellFormed(t) && ColumnSet(t) == fields.Values
    ensures TimestampColumn in ColumnSet(t) && |t.columns| == |fields|
  {
  }
}

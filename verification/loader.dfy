/**
  Loading one raw air-quality log: the part of `load_file` that follows the
  CSV parser. The parser itself is opaque; its outcome is an input.

  On success the table is cut down to the raw columns named as keys of the
  field map, every column is renamed to its canonical label, and the
  `timestamp` column is converted from an Excel day count to a timestamp.
  A file the parser finds empty or malformed is skipped. The errors raised
  after the parser (no `timestamp` column after renaming, a timestamp cell
  that is not a number) are not caught by `load_file` and end the run.
*/
module Loader {
  import opened Wrappers
  import opened Tables
  import ExcelTime

  /** Raw label -> canonical label, as read from the field configuration. */
  type FieldMap = map<Name, Name>

  /** Two raw labels never share a canonical label. */
  predicate Injective(fields: FieldMap)
  {
    forall a, b :: a in fields && b in fields && a != b ==> fields[a] != fields[b]
  }

  /** What the CSV parser makes of a file, before column selection. */
  datatype CsvParse =
    | Parsed(table: Table)
    | EmptyData     // the file holds no columns at all
    | ParserError   // a structural or value error while parsing

  /** The parser yields a rectangular table with unique header labels and no timestamp values. */
  predicate ParserOutput(p: CsvParse)
  {
    p.Parsed? ==> WellFormed(p.table) && NoStamps(p.table)
  }

  /** A parser reads numbers and text; timestamps only come from the conversion. */
  predicate NoStamps(t: Table)
  {
    forall i, c :: 0 <= i < |t.rows| && c in t.rows[i] && t.rows[i][c].Some? ==> !t.rows[i][c].value.Stamp?
  }

  datatype SkipReason = EmptyInput | MalformedInput

  /** Errors raised outside the loader's `try`: they end the whole run. */
  datatype FatalReason = MissingTimestamp | BadTimestamp

  datatype LoadOutcome =
    | Loaded(table: Table)
    | Skipped(why: SkipReason)
    | Fatal(reason: FatalReason)

  /**
    Column selection by the parser's `usecols`: the columns named in `keys`,
    in file order, or `None` when the header lacks one of them.
  */
  function UseColumns(t: Table, keys: set<Name>): (r: Option<Table>)
    requires WellFormed(t)
    ensures r.None? <==> !(keys <= ColumnSet(t))
    ensures r.Some? ==> WellFormed(r.value) && ColumnSet(r.value) == keys
    ensures r.Some? ==> |r.value.columns| == |keys|
    ensures r.Some? ==> forall i, j :: 0 <= i < j < |r.value.columns| ==> Before(t.columns, r.value.columns[i], r.value.columns[j])
    ensures r.Some? ==> |r.value.rows| == |t.rows|
    ensures r.Some? ==> forall i, c :: 0 <= i < |t.rows| && c in keys ==> r.value.rows[i][c] == t.rows[i][c]
  {
    if !(keys <= ColumnSet(t)) then None
    else
      var cols := KeepIn(t.columns, keys);
      DistinctCard(cols);
      Some(Table(cols, seq(|t.rows|, i requires 0 <= i < |t.rows| =>
        map c | c in t.rows[i] && c in keys :: t.rows[i][c])))
  }

  /** The canonical labels of some raw labels. */
  function Image(fields: FieldMap, raw: set<Name>): set<Name>
    requires raw <= fields.Keys
  {
    set c | c in raw :: fields[c]
  }

  /** Column labels renamed one by one; no two collide. */
  function RenameColumns(cs: seq<Name>, fields: FieldMap): (r: seq<Name>)
    requires Distinct(cs) && Injective(fields) && Elems(cs) <= fields.Keys
    ensures |r| == |cs| && Distinct(r)
    ensures Elems(r) == Image(fields, Elems(cs))
    ensures forall j :: 0 <= j < |cs| ==> r[j] == fields[cs[j]]
  {
    var r := seq(|cs|, j requires 0 <= j < |cs| => fields[cs[j]]);
    assert Elems(r) == Image(fields, Elems(cs)) by {
      forall c | c in Elems(cs)
        ensures fields[c] in Elems(r)
      {
        var j :| 0 <= j < |cs| && cs[j] == c;
        assert r[j] == fields[c];
      }
    }
    r
  }

  /** One row with its cells filed under the canonical labels. */
  function RenameRow(row: Row, fields: FieldMap): (r: Row)
    requires Injective(fields) && row.Keys <= fields.Keys
    ensures r.Keys == Image(fields, row.Keys)
    ensures forall c :: c in row ==> r[fields[c]] == row[c]
  {
    map c | c in row :: fields[c] := row[c]
  }

  /** Every column renamed through the field map; cells follow their column. */
  function Rename(t: Table, fields: FieldMap): (r: Table)
    requires WellFormed(t) && Injective(fields) && ColumnSet(t) <= fields.Keys
    ensures WellFormed(r)
    ensures ColumnSet(r) == Image(fields, ColumnSet(t))
    ensures |r.columns| == |t.columns|
    ensures forall j :: 0 <= j < |t.columns| ==> r.columns[j] == fields[t.columns[j]]
    ensures |r.rows| == |t.rows|
    ensures forall i, c :: 0 <= i < |t.rows| && c in ColumnSet(t) ==> r.rows[i][fields[c]] == t.rows[i][c]
  {
    Table(RenameColumns(t.columns, fields),
      seq(|t.rows|, i requires 0 <= i < |t.rows| => RenameRow(t.rows[i], fields)))
  }

  /** A cell the Excel conversion accepts: missing, or a number. */
  predicate Convertible(c: Cell)
  {
    c.None? || c.value.Num?
  }

  /** The Excel conversion of one cell; a missing cell stays missing. */
  function ConvertCell(c: Cell): (r: Cell)
    requires Convertible(c)
    ensures r.None? <==> c.None?
    ensures r.Some? ==> r.value.Stamp? && ExcelTime.Err(r.value.t, c.value.x * ExcelTime.SecondsPerDay as real) <= 0.5
  {
    match c
    case None => None
    case Some(v) => Some(Stamp(ExcelTime.ConvertExcelTime(v.x)))
  }

  /**
    Replaces the `timestamp` column by its conversion. Fails when there is no
    such column or when one of its cells is not a number.
  */
  function ConvertTimestampColumn(t: Table): (r: LoadOutcome)
    requires WellFormed(t)
    ensures !r.Skipped?
    ensures r == Fatal(MissingTimestamp) <==> TimestampColumn !in ColumnSet(t)
    ensures r == Fatal(BadTimestamp) <==>
      TimestampColumn in ColumnSet(t) && exists i :: 0 <= i < |t.rows| && !Convertible(t.rows[i][TimestampColumn])
    ensures r.Loaded? ==> WellFormed(r.table) && r.table.columns == t.columns && |r.table.rows| == |t.rows|
    ensures r.Loaded? ==> forall i :: 0 <= i < |t.rows| ==>
      && Convertible(t.rows[i][TimestampColumn])
      && r.table.rows[i][TimestampColumn] == ConvertCell(t.rows[i][TimestampColumn])
    ensures r.Loaded? ==> forall i, c :: 0 <= i < |t.rows| && c in ColumnSet(t) && c != TimestampColumn ==>
      r.table.rows[i][c] == t.rows[i][c]
  {
    if TimestampColumn !in ColumnSet(t) then Fatal(MissingTimestamp)
    else if exists i :: 0 <= i < |t.rows| && !Convertible(t.rows[i][TimestampColumn]) then Fatal(BadTimestamp)
    else
      Loaded(Table(t.columns, seq(|t.rows|, i requires 0 <= i < |t.rows| =>
        t.rows[i][TimestampColumn := ConvertCell(t.rows[i][TimestampColumn])])))
  }

  /** The cell of the raw column that the field map sends to `timestamp`. */
  predicate BadRawTimestamp(raw: Table, fields: FieldMap)
    requires WellFormed(raw) && fields.Keys <= ColumnSet(raw)
  {
    exists i, k :: 0 <= i < |raw.rows| && k in fields && fields[k] == TimestampColumn
                   && !Convertible(raw.rows[i][k])
  }

  /** Selection, renaming and conversion of a table whose header has every key. */
  function Project(raw: Table, fields: FieldMap): LoadOutcome
    requires WellFormed(raw) && Injective(fields) && fields.Keys <= ColumnSet(raw)
  {
    ConvertTimestampColumn(Rename(UseColumns(raw, fields.Keys).value, fields))
  }

  /** The selected and renamed table: canonical columns, raw cells under their new labels. */
  lemma RenamedFacts(raw: Table, fields: FieldMap)
    requires WellFormed(raw) && Injective(fields) && fields.Keys <= ColumnSet(raw)
    ensures var renamed := Rename(UseColumns(raw, fields.Keys).value, fields);
      && WellFormed(renamed)
      && ColumnSet(renamed) == fields.Values
      && |renamed.columns| == |fields|
      && |renamed.rows| == |raw.rows|
      && forall i, k :: 0 <= i < |raw.rows| && k in fields ==> renamed.rows[i][fields[k]] == raw.rows[i][k]
  {
    ImageOfAllKeys(fields);
  }

  /** How the projection of a table with every key ends, and the shape of a loaded table. */
  lemma ProjectOutcome(raw: Table, fields: FieldMap)
    requires WellFormed(raw) && Injective(fields) && fields.Keys <= ColumnSet(raw)
    ensures !Project(raw, fields).Skipped?
    ensures Project(raw, fields) == Fatal(MissingTimestamp) <==> TimestampColumn !in fields.Values
    ensures Project(raw, fields) == Fatal(BadTimestamp) <==>
      TimestampColumn in fields.Values && BadRawTimestamp(raw, fields)
    ensures Project(raw, fields).Loaded? ==>
      && TimestampColumn in ColumnSet(Project(raw, fields).table)
      && WellFormed(Project(raw, fields).table)
      && ColumnSet(Project(raw, fields).table) == fields.Values
      && |Project(raw, fields).table.columns| == |fields|
      && |Project(raw, fields).table.rows| == |raw.rows|
  {
    RenamedFacts(raw, fields);
    var renamed := Rename(UseColumns(raw, fields.Keys).value, fields);
    if TimestampColumn in fields.Values {
      BadTimestampCarries(raw, renamed, fields);
    }
  }

  /** The cells of a loaded projection, traced back to the raw table. */
  lemma ProjectCells(raw: Table, fields: FieldMap)
    requires WellFormed(raw) && Injective(fields) && fields.Keys <= ColumnSet(raw)
    requires Project(raw, fields).Loaded?
    ensures forall i, k :: 0 <= i < |raw.rows| && k in fields && fields[k] != TimestampColumn ==>
      Project(raw, fields).table.rows[i][fields[k]] == raw.rows[i][k]
    ensures forall i, k :: 0 <= i < |raw.rows| && k in fields && fields[k] == TimestampColumn ==>
      && Convertible(raw.rows[i][k])
      && Project(raw, fields).table.rows[i][TimestampColumn] == ConvertCell(raw.rows[i][k])
  {
    RenamedFacts(raw, fields);
    var renamed := Rename(UseColumns(raw, fields.Keys).value, fields);
    LoadedCells(raw, renamed, Project(raw, fields).table, fields);
  }

  /** The cells of a converted table, traced back to the raw table. */
  lemma LoadedCells(raw: Table, renamed: Table, converted: Table, fields: FieldMap)
    requires WellFormed(raw) && fields.Keys <= ColumnSet(raw)
    requires WellFormed(renamed) && ColumnSet(renamed) == fields.Values && |renamed.rows| == |raw.rows|
    requires forall i, k :: 0 <= i < |raw.rows| && k in fields ==> renamed.rows[i][fields[k]] == raw.rows[i][k]
    requires TimestampColumn in fields.Values
    requires ConvertTimestampColumn(renamed) == Loaded(converted)
    ensures forall i, k :: 0 <= i < |raw.rows| && k in fields && fields[k] != TimestampColumn ==>
      converted.rows[i][fields[k]] == raw.rows[i][k]
    ensures forall i, k :: 0 <= i < |raw.rows| && k in fields && fields[k] == TimestampColumn ==>
      && Convertible(raw.rows[i][k])
      && converted.rows[i][TimestampColumn] == ConvertCell(raw.rows[i][k])
  {
    forall i, k | 0 <= i < |raw.rows| && k in fields
      ensures fields[k] != TimestampColumn ==> converted.rows[i][fields[k]] == raw.rows[i][k]
      ensures fields[k] == TimestampColumn ==>
        Convertible(raw.rows[i][k]) && converted.rows[i][TimestampColumn] == ConvertCell(raw.rows[i][k])
    {
      assert renamed.rows[i][fields[k]] == raw.rows[i][k];
      assert fields[k] in ColumnSet(renamed);
    }
  }

  /** A bad raw timestamp cell is a bad cell of the renamed `timestamp` column, and back. */
  lemma BadTimestampCarries(raw: Table, renamed: Table, fields: FieldMap)
    requires WellFormed(raw) && fields.Keys <= ColumnSet(raw)
    requires WellFormed(renamed) && ColumnSet(renamed) == fields.Values && |renamed.rows| == |raw.rows|
    requires forall i, k :: 0 <= i < |raw.rows| && k in fields ==> renamed.rows[i][fields[k]] == raw.rows[i][k]
    requires TimestampColumn in fields.Values
    ensures BadRawTimestamp(raw, fields) <==>
      exists i :: 0 <= i < |renamed.rows| && !Convertible(renamed.rows[i][TimestampColumn])
  {
    if BadRawTimestamp(raw, fields) {
      BadRawIsBadRenamed(raw, renamed, fields);
    }
    if exists i :: 0 <= i < |renamed.rows| && !Convertible(renamed.rows[i][TimestampColumn]) {
      var i :| 0 <= i < |renamed.rows| && !Convertible(renamed.rows[i][TimestampColumn]);
      var k :| k in fields && fields[k] == TimestampColumn;
      assert renamed.rows[i][fields[k]] == raw.rows[i][k];
    }
  }

  lemma BadRawIsBadRenamed(raw: Table, renamed: Table, fields: FieldMap)
    requires WellFormed(raw) && fields.Keys <= ColumnSet(raw)
    requires WellFormed(renamed) && ColumnSet(renamed) == fields.Values && |renamed.rows| == |raw.rows|
    requires forall i, k :: 0 <= i < |raw.rows| && k in fields ==> renamed.rows[i][fields[k]] == raw.rows[i][k]
    requires BadRawTimestamp(raw, fields)
    ensures exists i :: 0 <= i < |renamed.rows| && !Convertible(renamed.rows[i][TimestampColumn])
  {
    var i, k :| 0 <= i < |raw.rows| && k in fields && fields[k] == TimestampColumn
                && !Convertible(raw.rows[i][k]);
    assert renamed.rows[i][fields[k]] == raw.rows[i][k];
  }

  /**
    `load_file` after the parser: select, rename, convert. `Skipped` is the
    `None` that `load_file` returns; `Fatal` is an exception it lets through.
  */
  function LoadFile(parse: CsvParse, fields: FieldMap): (r: LoadOutcome)
    requires ParserOutput(parse) && Injective(fields)
    ensures r == Skipped(EmptyInput) <==> parse.EmptyData?
    ensures r == Skipped(MalformedInput) <==>
      parse.ParserError? || (parse.Parsed? && !(fields.Keys <= ColumnSet(parse.table)))
    ensures r == Fatal(MissingTimestamp) <==>
      parse.Parsed? && fields.Keys <= ColumnSet(parse.table) && TimestampColumn !in fields.Values
    ensures r == Fatal(BadTimestamp) <==>
      && parse.Parsed? && fields.Keys <= ColumnSet(parse.table) && TimestampColumn in fields.Values
      && BadRawTimestamp(parse.table, fields)
    ensures r.Loaded? ==>
      && parse.Parsed?
      && TimestampColumn in ColumnSet(r.table)
      && WellFormed(r.table)
      && ColumnSet(r.table) == fields.Values
      && |r.table.columns| == |fields|
      && |r.table.rows| == |parse.table.rows|
  {
    match parse
    case EmptyData => Skipped(EmptyInput)
    case ParserError => Skipped(MalformedInput)
    case Parsed(raw) =>
      if UseColumns(raw, fields.Keys).None? then Skipped(MalformedInput)
      else
        ProjectOutcome(raw, fields);
        Project(raw, fields)
  }

  /**
    A good file loads: a parsed table whose header has every key, with a key
    renamed to `timestamp` and numeric day counts in that column.
  */
  lemma LoadFileSucceeds(parse: CsvParse, fields: FieldMap)
    requires ParserOutput(parse) && Injective(fields)
    ensures LoadFile(parse, fields).Loaded? <==>
      && parse.Parsed? && fields.Keys <= ColumnSet(parse.table) && TimestampColumn in fields.Values
      && !BadRawTimestamp(parse.table, fields)
  {
  }

  /**
    Every cell of a loaded table comes from the raw table: a measurement
    cell unchanged, a timestamp cell through the Excel conversion.
  */
  lemma LoadFileCells(parse: CsvParse, fields: FieldMap)
    requires ParserOutput(parse) && Injective(fields)
    requires LoadFile(parse, fields).Loaded?
    ensures forall i, k :: 0 <= i < |parse.table.rows| && k in fields && fields[k] != TimestampColumn ==>
      LoadFile(parse, fields).table.rows[i][fields[k]] == parse.table.rows[i][k]
    ensures forall i, k :: 0 <= i < |parse.table.rows| && k in fields && fields[k] == TimestampColumn ==>
      && Convertible(parse.table.rows[i][k])
      && LoadFile(parse, fields).table.rows[i][TimestampColumn] == ConvertCell(parse.table.rows[i][k])
  {
    ProjectCells(parse.table, fields);
  }

  /**
    A loaded table keeps the file's column order: a raw column before
    another one is, after renaming, still before it.
  */
  lemma LoadFileColumnOrder(parse: CsvParse, fields: FieldMap)
    requires ParserOutput(parse) && Injective(fields)
    requires LoadFile(parse, fields).Loaded?
    ensures forall a, b :: a in fields && b in fields && Before(parse.table.columns, a, b) ==>
      Before(LoadFile(parse, fields).table.columns, fields[a], fields[b])
  {
    var raw := parse.table;
    var sel := UseColumns(raw, fields.Keys).value;
    var ren := Rename(sel, fields);
    assert LoadFile(parse, fields).table.columns == ren.columns;
    forall a, b | a in fields && b in fields && Before(raw.columns, a, b)
      ensures Before(ren.columns, fields[a], fields[b])
    {
      assert a in Elems(sel.columns) && b in Elems(sel.columns);
      SelectionKeepsOrder(raw.columns, sel.columns, a, b);
      var i, j :| 0 <= i < j < |sel.columns| && sel.columns[i] == a && sel.columns[j] == b;
      assert ren.columns[i] == fields[a] && ren.columns[j] == fields[b];
    }
  }

  /** Renaming every key of the field map yields exactly its values. */
  lemma ImageOfAllKeys(fields: FieldMap)
    ensures Image(fields, fields.Keys) == fields.Values
  {
    forall v | v in fields.Values
      ensures v in Image(fields, fields.Keys)
    {
      var k :| k in fields && fields[k] == v;
    }
  }
}

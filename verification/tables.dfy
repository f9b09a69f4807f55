/**
  The in-memory tables of the loader: an ordered list of column labels and
  a sequence of rows, each row mapping every column label to a cell. A cell
  is either missing (pandas' NaN / NaT) or holds a value.
*/
module Tables {
  import opened Wrappers
  import ExcelTime

  /** A column label. */
  type Name = string

  /** A cell value: a number as parsed, text, or a converted timestamp. */
  datatype Value = Num(x: real) | Text(s: string) | Stamp(t: ExcelTime.Timestamp)

  /** A cell; `None` is the missing-value marker. */
  type Cell = Option<Value>

  type Row = map<Name, Cell>

  datatype Table = Table(columns: seq<Name>, rows: seq<Row>)

  /** The label of the time column every loaded table carries. */
  const TimestampColumn: Name := "timestamp"

  /** The elements of a sequence, as a set. */
  function Elems<T>(s: seq<T>): set<T>
  {
    set x | x in s
  }

  predicate Distinct<T(==)>(s: seq<T>)
  {
    forall i, j :: 0 <= i < j < |s| ==> s[i] != s[j]
  }

  /** `a` occurs somewhere before `b` in `s`. */
  predicate Before<T(==)>(s: seq<T>, a: T, b: T)
  {
    exists p, q :: 0 <= p < q < |s| && s[p] == a && s[q] == b
  }

  /**
    The elements of `s` that are in `keys`, in their order in `s`: the
    selection that keeps a header's order.
  */
  function KeepIn<T(==)>(s: seq<T>, keys: set<T>): (r: seq<T>)
    ensures Elems(r) == Elems(s) * keys
    ensures Distinct(s) ==> Distinct(r)
    ensures forall i, j :: 0 <= i < j < |r| ==> Before(s, r[i], r[j])
  {
    if s == [] then []
    else
      var init := s[..|s| - 1];
      var last := s[|s| - 1];
      var tail := if last in keys then [last] else [];
      var prefix := KeepIn(init, keys);
      assert s == init + [last];
      ElemsAppend(init, [last]);
      ElemsAppend(prefix, tail);
      assert Distinct(s) ==> last !in Elems(init);
      BeforeSnoc(init, last, prefix, tail);
      prefix + tail
  }

  /** In a sequence without repeats, two elements occur in one order only. */
  lemma BeforeAsymmetric<T>(s: seq<T>, a: T, b: T)
    requires Distinct(s) && Before(s, a, b)
    ensures !Before(s, b, a)
  {
    var p, q :| 0 <= p < q < |s| && s[p] == a && s[q] == b;
    assert forall k :: 0 <= k < |s| && s[k] == a ==> k == p;
    assert forall k :: 0 <= k < |s| && s[k] == b ==> k == q;
  }

  /** A selection listed in the order of `s` orders any two of its elements as `s` does. */
  lemma SelectionKeepsOrder<T>(s: seq<T>, r: seq<T>, a: T, b: T)
    requires Distinct(s)
    requires forall i, j :: 0 <= i < j < |r| ==> Before(s, r[i], r[j])
    requires a in Elems(r) && b in Elems(r) && Before(s, a, b)
    ensures Before(r, a, b)
  {
    var i :| 0 <= i < |r| && r[i] == a;
    var j :| 0 <= j < |r| && r[j] == b;
    BeforeAsymmetric(s, a, b);
    assert j < i ==> Before(s, b, a);
    assert i != j by {
      var p, q :| 0 <= p < q < |s| && s[p] == a && s[q] == b;
    }
  }

  /** Order in a prefix carries over when one element is appended to both sides. */
  lemma BeforeSnoc<T>(init: seq<T>, last: T, prefix: seq<T>, tail: seq<T>)
    requires forall i, j :: 0 <= i < j < |prefix| ==> Before(init, prefix[i], prefix[j])
    requires Elems(prefix) <= Elems(init)
    requires tail == [] || tail == [last]
    ensures forall i, j :: 0 <= i < j < |prefix + tail| ==>
      Before(init + [last], (prefix + tail)[i], (prefix + tail)[j])
  {
    var s := init + [last];
    forall i, j | 0 <= i < j < |prefix + tail|
      ensures Before(s, (prefix + tail)[i], (prefix + tail)[j])
    {
      var a := prefix[i];
      if j < |prefix| {
        assert Before(init, a, prefix[j]);
        var p, q :| 0 <= p < q < |init| && init[p] == a && init[q] == prefix[j];
        assert s[p] == a && s[q] == prefix[j];
      } else {
        assert a in Elems(init);
        var p :| 0 <= p < |init| && init[p] == a;
        assert s[p] == a && s[|s| - 1] == (prefix + tail)[j];
      }
    }
  }

  function ColumnSet(t: Table): set<Name>
  {
    Elems(t.columns)
  }

  /** Column labels are unique and every row has a cell for exactly the columns. */
  predicate WellFormed(t: Table)
  {
    && Distinct(t.columns)
    && forall i :: 0 <= i < |t.rows| ==> t.rows[i].Keys == ColumnSet(t)
  }

  lemma ElemsAppend<T>(a: seq<T>, b: seq<T>)
    ensures Elems(a + b) == Elems(a) + Elems(b)
  {
    assert forall x :: x in a + b <==> x in a || x in b;
  }

  lemma EmptyElems<T>(s: seq<T>)
    ensures Elems(s) == {} <==> s == []
  {
    if s != [] {
      assert s[0] in Elems(s);
    }
  }

  /** A sequence without repeats has as many elements as its set. */
  lemma {:induction false} DistinctCard<T>(s: seq<T>)
    requires Distinct(s)
    ensures |Elems(s)| == |s|
  {
    if s != [] {
      var last := s[|s| - 1];
      var init := s[..|s| - 1];
      assert Elems(s) == Elems(init) + {last};
      assert last !in Elems(init);
      DistinctCard(init);
    }
  }
}

/**
 * The part of a pandas DataFrame the aggregator relies on, and
 * `pd.concat(frames, ignore_index=True)`: rows stacked in order, columns
 * united by name in order of first appearance, cells of a column a frame
 * lacks filled with NaN, and the row labels reset to 0, 1, ..., n-1.
 */
module DataFrames {

  /** A cell: text as read from a file, or NaN where the row's file had no such column. */
  datatype Cell = Value(text: string) | Missing

  /** A row maps each column name to its cell. */
  type Row = map<string, Cell>

  /** Column names in order, the row labels, and the rows. */
  datatype Table = Table(columns: seq<string>, index: seq<int>, rows: seq<Row>)

  function ColumnSet(columns: seq<string>): set<string> {
    set c | c in columns
  }

  predicate Distinct(columns: seq<string>) {
    forall i, j :: 0 <= i < j < |columns| ==> columns[i] != columns[j]
  }

  /** The labels 0, 1, ..., n-1 (a `RangeIndex`). */
  function RangeIndex(n: nat): (r: seq<int>)
    ensures |r| == n
  {
    seq(n, i => i)
  }

  /** Distinct columns, one label per row, and every row has exactly the table's columns. */
  predicate WellFormed(t: Table) {
    && Distinct(t.columns)
    && |t.index| == |t.rows|
    && forall k :: 0 <= k < |t.rows| ==> t.rows[k].Keys == ColumnSet(t.columns)
  }

  /** `acc` followed by the names of `columns` it does not hold yet, in their order. */
  function AppendNew(acc: seq<string>, columns: seq<string>): (r: seq<string>)
    ensures ColumnSet(r) == ColumnSet(acc) + ColumnSet(columns)
    ensures |acc| <= |r| && r[..|acc|] == acc
    ensures Distinct(acc) ==> Distinct(r)
    decreases |columns|
  {
    if columns == [] then acc
    else if columns[0] in acc then
      assert ColumnSet(columns) == {columns[0]} + ColumnSet(columns[1..]);
      AppendNew(acc, columns[1..])
    else
      var acc' := acc + [columns[0]];
      assert ColumnSet(columns) == {columns[0]} + ColumnSet(columns[1..]);
      assert ColumnSet(acc') == ColumnSet(acc) + {columns[0]};
      var r := AppendNew(acc', columns[1..]);
      assert r[..|acc|] == r[..|acc'|][..|acc|];
      r
  }

  /** Every column name of every table. */
  function AllColumns(tables: seq<Table>): set<string> {
    if tables == [] then {} else ColumnSet(tables[0].columns) + AllColumns(tables[1..])
  }

  /** The column union `Index.union(other, sort=False)` builds, folded over the tables. */
  function UnionFrom(acc: seq<string>, tables: seq<Table>): (r: seq<string>)
    ensures ColumnSet(r) == ColumnSet(acc) + AllColumns(tables)
    ensures |acc| <= |r| && r[..|acc|] == acc
    ensures Distinct(acc) ==> Distinct(r)
    decreases |tables|
  {
    if tables == [] then acc
    else
      var acc' := AppendNew(acc, tables[0].columns);
      var r := UnionFrom(acc', tables[1..]);
      assert r[..|acc|] == r[..|acc'|][..|acc|];
      r
  }

  function UnionColumns(tables: seq<Table>): seq<string> {
    UnionFrom([], tables)
  }

  /** A row widened to `columns`: its own cells kept, NaN in the columns it lacks. */
  function Pad(row: Row, columns: seq<string>): (r: Row)
    ensures r.Keys == ColumnSet(columns)
    ensures forall c :: c in columns && c in row ==> r[c] == row[c]
    ensures forall c :: c in columns && c !in row ==> r[c] == Missing
  {
    map c | c in columns :: if c in row then row[c] else Missing
  }

  /** The rows of every table in order, each widened to `columns`. */
  function StackRows(tables: seq<Table>, columns: seq<string>): seq<Row> {
    if tables == [] then []
    else
      var t := tables[0];
      seq(|t.rows|, j requires 0 <= j < |t.rows| => Pad(t.rows[j], columns))
        + StackRows(tables[1..], columns)
  }

  /** `pd.concat(tables, ignore_index=True)`; pandas refuses an empty list and the caller never passes one. */
  function Concat(tables: seq<Table>): (r: Table)
    requires tables != []
    ensures |r.rows| == TotalRows(tables) && |r.index| == |r.rows|
    ensures ColumnSet(r.columns) == AllColumns(tables) && Distinct(r.columns)
  {
    var columns := UnionColumns(tables);
    var rows := StackRows(tables, columns);
    StackRowsLength(tables, columns);
    Table(columns, RangeIndex(|rows|), rows)
  }

  /** Total number of rows over all tables. */
  function TotalRows(tables: seq<Table>): nat {
    if tables == [] then 0 else |tables[0].rows| + TotalRows(tables[1..])
  }

  lemma {:induction false} StackRowsLength(tables: seq<Table>, columns: seq<string>)
    ensures |StackRows(tables, columns)| == TotalRows(tables)
  {
    if tables != [] {
      StackRowsLength(tables[1..], columns);
    }
  }

  lemma {:induction false} StackRowsAt(tables: seq<Table>, columns: seq<string>, k: nat, j: nat)
    requires k < |tables| && j < |tables[k].rows|
    ensures TotalRows(tables[..k]) + j < |StackRows(tables, columns)|
    ensures StackRows(tables, columns)[TotalRows(tables[..k]) + j] == Pad(tables[k].rows[j], columns)
  {
    StackRowsLength(tables, columns);
    var t := tables[0];
    var head := seq(|t.rows|, i requires 0 <= i < |t.rows| => Pad(t.rows[i], columns));
    assert StackRows(tables, columns) == head + StackRows(tables[1..], columns);
    if k == 0 {
      assert tables[..0] == [];
    } else {
      StackRowsAt(tables[1..], columns, k - 1, j);
      assert tables[..k][1..] == tables[1..][..k - 1];
      assert TotalRows(tables[..k]) == |t.rows| + TotalRows(tables[1..][..k - 1]);
    }
  }

  /** The merged table has as many rows as all inputs together, labelled 0..n-1. */
  lemma ConcatRowCount(tables: seq<Table>)
    requires tables != []
    ensures |Concat(tables).rows| == TotalRows(tables)
    ensures Concat(tables).index == RangeIndex(TotalRows(tables))
    ensures forall i :: 0 <= i < |Concat(tables).index| ==> Concat(tables).index[i] == i
  {
    StackRowsLength(tables, UnionColumns(tables));
  }

  /**
   * Row j of input k lands at position (rows of inputs 0..k-1) + j, with its
   * own cells and NaN in the columns its table lacks: input order and the
   * order within each input are kept.
   */
  lemma ConcatRowAt(tables: seq<Table>, k: nat, j: nat)
    requires k < |tables| && j < |tables[k].rows|
    requires WellFormed(tables[k])
    ensures TotalRows(tables[..k]) + j < |Concat(tables).rows|
    ensures var row, merged := tables[k].rows[j], Concat(tables).rows[TotalRows(tables[..k]) + j];
            && merged.Keys == ColumnSet(Concat(tables).columns)
            && (forall c :: c in row ==> c in merged && merged[c] == row[c])
            && (forall c :: c in merged && c !in row ==> merged[c] == Missing)
  {
    var columns := UnionColumns(tables);
    StackRowsAt(tables, columns, k, j);
    AllColumnsHas(tables, k);
    assert tables[k].rows[j].Keys == ColumnSet(tables[k].columns);
  }

  /** Row j of input k is the merged row at its offset, widened to the merged columns. */
  lemma ConcatRowPadded(tables: seq<Table>, k: nat, j: nat)
    requires k < |tables| && j < |tables[k].rows|
    ensures TotalRows(tables[..k]) + j < |Concat(tables).rows|
    ensures Concat(tables).rows[TotalRows(tables[..k]) + j] == Pad(tables[k].rows[j], Concat(tables).columns)
  {
    StackRowsAt(tables, UnionColumns(tables), k, j);
  }

  /** The columns of input k are among all the columns. */
  lemma {:induction false} AllColumnsHas(tables: seq<Table>, k: nat)
    requires k < |tables|
    ensures ColumnSet(tables[k].columns) <= AllColumns(tables)
  {
    if k > 0 {
      AllColumnsHas(tables[1..], k - 1);
    }
  }

  /** The merged columns: each name of each input exactly once, the first input's in front, in its order. */
  lemma ConcatColumns(tables: seq<Table>)
    requires tables != []
    ensures ColumnSet(Concat(tables).columns) == AllColumns(tables)
    ensures Distinct(Concat(tables).columns)
    ensures Distinct(tables[0].columns) ==>
              |tables[0].columns| <= |Concat(tables).columns| &&
              Concat(tables).columns[..|tables[0].columns|] == tables[0].columns
  {
    if Distinct(tables[0].columns) {
      AppendNewFresh([], tables[0].columns);
      var first := AppendNew([], tables[0].columns);
      var r := UnionFrom(first, tables[1..]);
      assert UnionColumns(tables) == r;
    }
  }

  /** Appending names none of which is held yet, and none twice, appends them all. */
  lemma {:induction false} AppendNewFresh(acc: seq<string>, columns: seq<string>)
    requires Distinct(columns)
    requires forall c :: c in columns ==> c !in acc
    ensures AppendNew(acc, columns) == acc + columns
    decreases |columns|
  {
    if columns != [] {
      var acc' := acc + [columns[0]];
      forall c | c in columns[1..] ensures c !in acc' {
        var i :| 0 <= i < |columns[1..]| && columns[1..][i] == c;
        assert columns[i + 1] == c;
      }
      AppendNewFresh(acc', columns[1..]);
      assert acc' + columns[1..] == acc + columns;
    }
  }

  /** Whatever the inputs, the merged table is well formed. */
  lemma ConcatWellFormed(tables: seq<Table>)
    requires tables != []
    ensures WellFormed(Concat(tables))
  {
    var columns := UnionColumns(tables);
    StackRowsKeys(tables, columns);
  }

  lemma {:induction false} StackRowsKeys(tables: seq<Table>, columns: seq<string>)
    ensures forall k :: 0 <= k < |StackRows(tables, columns)| ==> StackRows(tables, columns)[k].Keys == ColumnSet(columns)
  {
    if tables != [] {
      StackRowsKeys(tables[1..], columns);
    }
  }

  /** Merging a single well-formed table gives it back with its rows relabelled 0..n-1. */
  lemma ConcatSingle(t: Table)
    requires WellFormed(t)
    ensures Concat([t]) == Table(t.columns, RangeIndex(|t.rows|), t.rows)
  {
    AppendNewFresh([], t.columns);
    assert [] + t.columns == t.columns;
    assert [t][1..] == [];
    assert UnionColumns([t]) == UnionFrom(t.columns, []) == t.columns;
    var rows := StackRows([t], t.columns);
    StackRowsLength([t], t.columns);
    forall j | 0 <= j < |t.rows| ensures rows[j] == t.rows[j] {
      StackRowsAt([t], t.columns, 0, j);
      assert [t][..0] == [];
    }
  }

  /** Row totals add up over a concatenation of lists of tables. */
  lemma {:induction false} TotalRowsAppend(a: seq<Table>, b: seq<Table>)
    ensures TotalRows(a + b) == TotalRows(a) + TotalRows(b)
  {
    if a != [] {
      assert (a + b)[1..] == a[1..] + b;
      TotalRowsAppend(a[1..], b);
    } else {
      assert a + b == b;
    }
  }
}

/**
 * `CSVProcessor.read_and_concat_csvs`: read each path in turn, keep the
 * tables that were read, skip a file that raises `EmptyDataError` or any
 * other exception, and merge what was kept; `None` when there is nothing.
 */
module CsvProcessor {
  import opened Wrappers
  import opened DataFrames
  import opened Disk

  /** The tables read from the paths, in path order; failed reads contribute nothing. */
  function SuccessfulTables(fs: FileSystem, paths: seq<string>): seq<Table>
  {
    if paths == [] then []
    else
      var outcome := fs.ReadCsv(paths[|paths| - 1]);
      SuccessfulTables(fs, paths[..|paths| - 1]) + (if outcome.Parsed? then [outcome.table] else [])
  }

  /** The rows a read of the path yields: none when the read fails. */
  function RowsRead(fs: FileSystem, path: string): nat
  {
    if fs.ReadCsv(path).Parsed? then |fs.ReadCsv(path).table.rows| else 0
  }

  /** Rows read over a list of paths. */
  function TotalRowsRead(fs: FileSystem, paths: seq<string>): nat
  {
    if paths == [] then 0 else RowsRead(fs, paths[0]) + TotalRowsRead(fs, paths[1..])
  }

  /**
   * The read-and-merge loop: `None` for no paths, and `None` when every read
   * failed; otherwise the merge of the tables read, in path order.
   */
  method ReadAndConcatCsvs(fs: FileSystem, filePaths: seq<string>) returns (merged: Option<Table>)
    ensures filePaths == [] ==> merged == None
    ensures merged == None <==> forall p :: p in filePaths ==> !fs.ReadCsv(p).Parsed?
    ensures merged == None ==> SuccessfulTables(fs, filePaths) == []
    ensures merged != None ==> SuccessfulTables(fs, filePaths) != [] &&
                               merged.value == Concat(SuccessfulTables(fs, filePaths))
  {
    if filePaths == [] {
      return None;
    }
    var dataframes: seq<Table> := [];
    for i := 0 to |filePaths|
      invariant dataframes == SuccessfulTables(fs, filePaths[..i])
    {
      assert filePaths[..i + 1][..i] == filePaths[..i];
      match fs.ReadCsv(filePaths[i])
      case Parsed(df) =>
        dataframes := dataframes + [df];
      case EmptyData =>
        // logged as an empty file and skipped
      case ReadFailed =>
        // logged as an error and skipped
    }
    assert filePaths[..|filePaths|] == filePaths;
    SuccessfulTablesEmpty(fs, filePaths);
    if dataframes != [] {
      return Some(Concat(dataframes));
    }
    return None;
  }

  /** No table is kept exactly when no read succeeds. */
  lemma {:induction false} SuccessfulTablesEmpty(fs: FileSystem, paths: seq<string>)
    ensures SuccessfulTables(fs, paths) == [] <==> forall p :: p in paths ==> !fs.ReadCsv(p).Parsed?
    decreases |paths|
  {
    if paths != [] {
      var init := paths[..|paths| - 1];
      SuccessfulTablesEmpty(fs, init);
      assert paths == init + [paths[|paths| - 1]];
    }
  }

  /** Reading works file by file: the tables of a concatenation are the tables of its parts, in order. */
  lemma {:induction false} SuccessfulTablesAppend(fs: FileSystem, a: seq<string>, b: seq<string>)
    ensures SuccessfulTables(fs, a + b) == SuccessfulTables(fs, a) + SuccessfulTables(fs, b)
    decreases |b|
  {
    if b == [] {
      assert a + b == a;
    } else {
      var b' := b[..|b| - 1];
      assert (a + b)[..|a + b| - 1] == a + b';
      assert (a + b)[|a + b| - 1] == b[|b| - 1];
      SuccessfulTablesAppend(fs, a, b');
    }
  }

  /** The tables kept hold every row read, and only those. */
  lemma {:induction false} SuccessfulTablesRows(fs: FileSystem, paths: seq<string>)
    ensures TotalRows(SuccessfulTables(fs, paths)) == TotalRowsRead(fs, paths)
    decreases |paths|
  {
    if paths != [] {
      var rest := paths[1..];
      assert paths == [paths[0]] + rest;
      SuccessfulTablesAppend(fs, [paths[0]], rest);
      SuccessfulTablesRows(fs, rest);
      var first := SuccessfulTables(fs, [paths[0]]);
      assert [paths[0]][..0] == [];
      TotalRowsAppend(first, SuccessfulTables(fs, rest));
    }
  }

  /** When something was read, the merged table has exactly the rows read, labelled 0..n-1. */
  lemma MergedRowCount(fs: FileSystem, paths: seq<string>)
    requires SuccessfulTables(fs, paths) != []
    ensures |Concat(SuccessfulTables(fs, paths)).rows| == TotalRowsRead(fs, paths)
    ensures Concat(SuccessfulTables(fs, paths)).index == RangeIndex(TotalRowsRead(fs, paths))
  {
    SuccessfulTablesRows(fs, paths);
    ConcatRowCount(SuccessfulTables(fs, paths));
  }

  /** A single path yields its table when the read succeeds, and nothing otherwise. */
  lemma SuccessfulTablesSingle(fs: FileSystem, p: string)
    ensures SuccessfulTables(fs, [p]) == if fs.ReadCsv(p).Parsed? then [fs.ReadCsv(p).table] else []
  {
    assert [p][..0] == [];
  }

  /** A file with a header and no rows is read, not skipped: it still contributes its columns. */
  lemma HeaderOnlyFileKept(fs: FileSystem, path: string, columns: seq<string>)
    requires fs.ReadCsv(path) == Parsed(Table(columns, [], []))
    requires Distinct(columns)
    ensures SuccessfulTables(fs, [path]) == [Table(columns, [], [])]
    ensures Concat(SuccessfulTables(fs, [path])) == Table(columns, [], [])
  {
    assert [path][..0] == [];
    ConcatSingle(Table(columns, [], []));
  }
}

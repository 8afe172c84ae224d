/**
 * The file system as the aggregator sees it: which paths exist and what they
 * are, what `pd.read_csv` makes of each file, on which paths a probe raises,
 * where a write fails, and what a failed write leaves behind.
 */
module Disk {
  import opened DataFrames

  datatype Kind = RegularFile | Directory | Special

  /** What `pd.read_csv` does with a file: a table, `EmptyDataError`, or any other exception. */
  datatype ReadOutcome = Parsed(table: Table) | EmptyData | ReadFailed

  /**
   * `kinds`: the existing paths and what each one is; `contents`: what reading
   * each regular file as CSV yields; `faulty`: paths on which `os.path.exists`
   * or `os.path.isfile` raises; `unwritable`: paths where writing raises (a
   * read-only directory, a full disk, ...); `truncated`: for a path whose
   * write raises after the file was opened, what the file then reads as.
   *
   * CPython's `os.path.exists` and `os.path.isfile` catch `OSError` and
   * `ValueError` and answer `False`, so for a `str` path they do not raise:
   * `faulty` is then empty. It stands for the `except` branch of the
   * validation loop, which the model keeps.
   */
  datatype FileSystem = FileSystem(
    kinds: map<string, Kind>,
    contents: map<string, ReadOutcome>,
    faulty: set<string>,
    unwritable: set<string>,
    truncated: map<string, ReadOutcome>)
  {
    /** `os.path.exists`: a path that does not exist is no file, cannot be read, and a write creates it. */
    predicate Exists(path: string)
      ensures !Exists(path) ==> !IsFile(path) && ReadCsv(path) == ReadFailed && Opens(path)
    {
      path in kinds
    }

    /** `os.path.isfile`: the path exists and is a regular file, which a write may replace. */
    predicate IsFile(path: string)
      ensures IsFile(path) ==> path in kinds && Opens(path)
    {
      path in kinds && kinds[path] == RegularFile
    }

    /** `pd.read_csv(path)`: a missing path, a directory or a file without known content raises. */
    function ReadCsv(path: string): (r: ReadOutcome)
      ensures !IsFile(path) ==> r == ReadFailed
      ensures r != ReadFailed ==> IsFile(path) && path in contents && r == contents[path]
    {
      if IsFile(path) && path in contents then contents[path] else ReadFailed
    }

    /** Opening for writing (mode `"w"`) works on a new path or on a regular file. */
    predicate Opens(path: string) {
      path !in kinds || kinds[path] == RegularFile
    }

    /** Writing succeeds when the path opens and the write does not raise. */
    predicate CanWrite(path: string) {
      Opens(path) && path !in unwritable
    }

    /** The file system after a write that raised: a file opened and then cut short is left as it was written so far. */
    function AfterFailedWrite(path: string): (after: FileSystem)
      ensures Opens(path) && path in truncated ==>
                after.IsFile(path) && after.ReadCsv(path) == truncated[path]
      ensures !(Opens(path) && path in truncated) ==> after == this
      ensures forall q :: q != path ==>
                && (after.Exists(q) <==> Exists(q))
                && (after.IsFile(q) <==> IsFile(q))
                && after.ReadCsv(q) == ReadCsv(q)
    {
      if Opens(path) && path in truncated then
        this.(kinds := kinds[path := RegularFile], contents := contents[path := truncated[path]])
      else this
    }

    /**
     * `DataFrame.to_csv(path, index=False)`: when it works, the path is a
     * regular file that reads back as the table; when it raises, the path may
     * be left truncated. Either way no other path changes.
     */
    function WriteCsv(path: string, t: Table): (r: WriteOutcome)
      ensures r.Written? <==> CanWrite(path)
      ensures r.Written? ==> r.after.IsFile(path) && r.after.ReadCsv(path) == Parsed(t)
      ensures r.WriteRaised? ==> r.after == AfterFailedWrite(path)
      ensures forall q :: q != path ==>
                && (r.after.Exists(q) <==> Exists(q))
                && (r.after.IsFile(q) <==> IsFile(q))
                && r.after.ReadCsv(q) == ReadCsv(q)
      ensures r.after.faulty == faulty && r.after.unwritable == unwritable
    {
      if CanWrite(path) then
        Written(this.(kinds := kinds[path := RegularFile], contents := contents[path := Parsed(t)]))
      else WriteRaised(AfterFailedWrite(path))
    }
  }

  /** A write that worked, or one that raised; each with the file system afterwards. */
  datatype WriteOutcome = Written(after: FileSystem) | WriteRaised(after: FileSystem)
}

/**
 * `FileWriter.save_dataframe`: write the table to `join(base_path, filename)`
 * without the row labels and return that path; a failed write is logged and
 * re-raised to the caller.
 */
module FileWriter {
  import opened Wrappers
  import opened DataFrames
  import opened Disk
  import PosixPath

  const DefaultFilename: string := "aggregated_data.csv"

  /** The exception `to_csv` raised, passed on to the caller. */
  datatype WriteError = WriteError(path: string)

  /**
   * The output path is the file name joined onto the base directory. On
   * success it is returned together with the file system after the write, the
   * file there reading back as the table; on failure the error is passed on,
   * and the output path may be left truncated while no other file changes.
   */
  method SaveDataframe(fs: FileSystem, dataframe: Table, basePath: string, filename: string := DefaultFilename)
    returns (r: Result<string, WriteError>, fs': FileSystem)
    ensures var out := PosixPath.Join(basePath, filename);
            && (r.Success? <==> fs.CanWrite(out))
            && (r.Success? ==> r.value == out && fs.WriteCsv(out, dataframe) == Written(fs'))
            && (r.Success? ==> fs'.ReadCsv(out) == Parsed(dataframe))
            && (r.Failure? ==> r.error == WriteError(out) && fs' == fs.AfterFailedWrite(out))
            && (forall q :: q != out ==> fs'.ReadCsv(q) == fs.ReadCsv(q))
  {
    var outFile := PosixPath.Join(basePath, filename);
    var written := fs.WriteCsv(outFile, dataframe);
    if written.WriteRaised? {
      // logged, then raised again
      return Failure(WriteError(outFile)), written.after;
    }
    return Success(outFile), written.after;
  }
}

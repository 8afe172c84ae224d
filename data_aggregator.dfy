/**
 * `DataAggregator` and `main`: parse the file string, validate the paths,
 * read and merge the tables, and write the result next to the working
 * directory; every failure below turns into a `None` result, never an
 * exception.
 */
module DataAggregation {
  import opened Wrappers
  import opened DataFrames
  import opened Disk
  import PosixPath
  import FileParser
  import FileValidator
  import CsvProcessor
  import FileWriter

  /** The table the pipeline merges for a file string on a base directory, or `None` when nothing was read. */
  function Aggregate(fs: FileSystem, fileString: string, basePath: string): (r: Option<Table>)
    ensures var kept := FileValidator.KeptPaths(fs, FileParser.ParseFileString(fileString, basePath));
            r.Some? ==> |r.value.rows| == CsvProcessor.TotalRowsRead(fs, kept)
                        && r.value.index == RangeIndex(|r.value.rows|)
  {
    var paths := FileValidator.KeptPaths(fs, FileParser.ParseFileString(fileString, basePath));
    var tables := CsvProcessor.SuccessfulTables(fs, paths);
    if tables == [] then None
    else
      CsvProcessor.MergedRowCount(fs, paths);
      Some(Concat(tables))
  }

  /** Where the aggregate is written: `aggregated_data.csv` in the base directory, or alone when the base is empty. */
  function OutputPath(basePath: string): (r: string)
    ensures PosixPath.EndsWith(r, FileWriter.DefaultFilename)
    ensures basePath == [] ==> r == FileWriter.DefaultFilename
    ensures basePath != [] ==>
              && |basePath| <= |r| && r[..|basePath|] == basePath
              && |r| > |FileWriter.DefaultFilename|
              && r[|r| - |FileWriter.DefaultFilename| - 1] == PosixPath.Separator
  {
    var name := FileWriter.DefaultFilename;
    assert name[0] == 'a';
    PosixPath.Join(basePath, name)
  }

  class DataAggregator {
    const fileString: string
    /** The working directory at construction time. */
    const basePath: string
    /** The merged table of the last run, `None` before any run. */
    var dataframe: Option<Table>

    constructor (fileString: string, cwd: string)
      ensures this.fileString == fileString && basePath == cwd && dataframe == None
    {
      this.fileString := fileString;
      basePath := cwd;
      dataframe := None;
    }

    /**
     * One run of the pipeline. It never raises: the output path is returned
     * exactly when something was read and the write succeeded, and the file
     * there then reads back as the merged table. Otherwise it returns `None`:
     * with the files as before when nothing was read, or as the failed write
     * left them.
     */
    method Process(fs: FileSystem) returns (result: Option<string>, fs': FileSystem)
      modifies this
      ensures dataframe == Aggregate(fs, fileString, basePath)
      ensures result.Some? <==> dataframe.Some? && fs.CanWrite(OutputPath(basePath))
      ensures result.Some? ==> result.value == OutputPath(basePath)
                               && fs.WriteCsv(OutputPath(basePath), dataframe.value) == Written(fs')
                               && fs'.ReadCsv(result.value) == Parsed(dataframe.value)
      ensures dataframe.None? ==> fs' == fs
      ensures dataframe.Some? && result.None? ==>
                fs.WriteCsv(OutputPath(basePath), dataframe.value) == WriteRaised(fs')
    {
      var filePaths := FileParser.ParseFileString(fileString, basePath);
      var validPaths := FileValidator.ValidateFilePaths(fs, filePaths);
      dataframe := CsvProcessor.ReadAndConcatCsvs(fs, validPaths);
      if dataframe.None? {
        // logged: no data to save
        return None, fs;
      }
      var saved;
      saved, fs' := FileWriter.SaveDataframe(fs, dataframe.value, basePath);
      if saved.Failure? {
        // the re-raised write error is logged here and reported as no result
        return None, fs';
      }
      return Some(saved.value), fs';
    }
  }

  /** What `main` prints, or the usage error it logs. */
  datatype Report = UsageError | Complete(outputPath: string) | ProcessingFailed | UnexpectedError

  /**
   * `main`: with fewer than two command-line entries it exits with status 1;
   * when the working directory cannot be determined the exception is logged
   * and it exits with status 1; otherwise it runs the aggregator on
   * `argv[1]` and exits with status 0, reporting the output path or a failure.
   */
  method RunMain(fs: FileSystem, argv: seq<string>, cwd: Option<string>)
    returns (status: int, report: Report, fs': FileSystem)
    ensures |argv| < 2 ==> status == 1 && report == UsageError && fs' == fs
    ensures |argv| >= 2 && cwd.None? ==> status == 1 && report == UnexpectedError && fs' == fs
    ensures |argv| >= 2 && cwd.Some? ==>
              var merged, out := Aggregate(fs, argv[1], cwd.value), OutputPath(cwd.value);
              && status == 0
              && (report.Complete? <==> merged.Some? && fs.CanWrite(out))
              && (report.Complete? ==> report.outputPath == out && fs.WriteCsv(out, merged.value) == Written(fs'))
              && (!report.Complete? ==> report == ProcessingFailed)
              && (merged.None? ==> fs' == fs)
              && (merged.Some? && !report.Complete? ==> fs.WriteCsv(out, merged.value) == WriteRaised(fs'))
  {
    if |argv| < 2 {
      return 1, UsageError, fs;
    }
    if cwd.None? {
      // os.getcwd raised inside the constructor: logged, exit status 1
      return 1, UnexpectedError, fs;
    }
    var aggregator := new DataAggregator(argv[1], cwd.value);
    var result;
    result, fs' := aggregator.Process(fs);
    if result.Some? && result.value != [] {
      return 0, Complete(result.value), fs';
    }
    return 0, ProcessingFailed, fs';
  }

  /**
   * Nothing is merged, and so nothing written, exactly when no token of the
   * file string names a path that passes validation and reads as a table.
   */
  lemma AggregateNone(fs: FileSystem, fileString: string, basePath: string)
    ensures Aggregate(fs, fileString, basePath).None? <==>
            forall t :: t in FileParser.Tokens(fileString) ==>
              var p := PosixPath.Join(basePath, t);
              FileValidator.Classify(fs, p) != FileValidator.Accepted || !fs.ReadCsv(p).Parsed?
  {
    var paths := FileParser.ParseFileString(fileString, basePath);
    var kept := FileValidator.KeptPaths(fs, paths);
    FileParser.ParsedPathsMembers(fileString, basePath);
    FileValidator.KeptPathsMembers(fs, paths);
    CsvProcessor.SuccessfulTablesEmpty(fs, kept);
  }

  /**
   * A file string naming one file: the result is that file's table, relabelled,
   * when it passes validation and reads as a table, and `None` otherwise.
   */
  lemma AggregateSingle(fs: FileSystem, name: string, basePath: string)
    requires FileParser.IsToken(name)
    ensures var p := PosixPath.Join(basePath, name);
            Aggregate(fs, name, basePath) ==
              if FileValidator.Classify(fs, p) == FileValidator.Accepted && fs.ReadCsv(p).Parsed?
              then Some(Concat([fs.ReadCsv(p).table]))
              else None
  {
    var p := PosixPath.Join(basePath, name);
    ParseSingleToken(name, basePath);
    FileValidator.KeptPathsSingle(fs, p);
    CsvProcessor.SuccessfulTablesSingle(fs, p);
    assert CsvProcessor.SuccessfulTables(fs, []) == [];
  }

  /** The output file passes the extension test, wherever the working directory is. */
  lemma OutputIsCsv(basePath: string)
    ensures FileValidator.HasCsvExtension(OutputPath(basePath))
  {
    assert FileWriter.DefaultFilename == "aggregated_data" + FileValidator.CsvSuffix;
    FileValidator.CsvNamePasses("aggregated_data");
    FileValidator.JoinKeepsExtension(basePath, FileWriter.DefaultFilename);
  }

  /**
   * After a successful write the output file is accepted by the validator
   * unless probing it raises, and reads back as the merged table: naming it in
   * a later file string brings the table back.
   */
  lemma OutputPathAccepted(fs: FileSystem, fs': FileSystem, basePath: string, t: Table)
    requires fs.WriteCsv(OutputPath(basePath), t) == Written(fs')
    requires OutputPath(basePath) !in fs.faulty
    ensures FileValidator.Classify(fs', OutputPath(basePath)) == FileValidator.Accepted
    ensures fs'.ReadCsv(OutputPath(basePath)) == Parsed(t)
  {
    OutputIsCsv(basePath);
  }

  /** A merged table with no rows is still written: a single header-only file produces output. */
  lemma HeaderOnlyInputIsWritten(fs: FileSystem, name: string, basePath: string, columns: seq<string>)
    requires FileParser.IsToken(name)
    requires var p := PosixPath.Join(basePath, name);
             && FileValidator.Classify(fs, p) == FileValidator.Accepted
             && fs.ReadCsv(p) == Parsed(Table(columns, [], []))
    requires Distinct(columns)
    ensures Aggregate(fs, name, basePath) == Some(Table(columns, [], []))
  {
    AggregateSingle(fs, name, basePath);
    ConcatSingle(Table(columns, [], []));
  }

  /** A lone token is tokenized as itself. */
  lemma SingleToken(name: string)
    requires FileParser.IsToken(name)
    ensures FileParser.Tokens(name) == [name]
  {
    var gaps := ["", ""];
    assert FileParser.WellSeparated([name], gaps);
    assert FileParser.Layout([name], gaps) == name by {
      assert [name][1..] == [];
      assert "" + name + "" == name;
    }
    FileParser.LayoutTokens([name], gaps);
  }

  /** A file string holding one token parses to that one name joined onto the base directory. */
  lemma ParseSingleToken(name: string, basePath: string)
    requires FileParser.IsToken(name)
    ensures FileParser.ParseFileString(name, basePath) == [PosixPath.Join(basePath, name)]
  {
    SingleToken(name);
    FileParser.ParsedPaths(name, basePath);
  }

  /** `notacsv.txt` fails the extension test wherever it lives. */
  lemma NotCsvName(basePath: string)
    ensures !FileValidator.HasCsvExtension(PosixPath.Join(basePath, "notacsv.txt"))
  {
    var name := "notacsv.txt";
    FileValidator.JoinKeepsExtension(basePath, name);
    assert FileValidator.Lower(name)[|name| - 1] == 't';
  }

  /** A single file name without the `.csv` extension produces nothing, whatever the files. */
  lemma NotACsvProducesNothing(fs: FileSystem, basePath: string)
    ensures Aggregate(fs, "notacsv.txt", basePath) == None
  {
    assert FileParser.IsToken("notacsv.txt");
    AggregateSingle(fs, "notacsv.txt", basePath);
    NotCsvName(basePath);
  }
}

# CSV aggregator — a verified Dafny model

This project models the CSV-aggregation pipeline of `tool/ExampleProgram.py`. The program is called with one command-line argument: a string of file names separated by commas and/or whitespace. It runs four stages:

1. **`FileParser.parse_file_string`** (`file_parser.dfy`, module `FileParser`). It finds the matches of `[^,\s]+`, strips each one and joins it onto the working directory. The tokenizer is a pure function (`Tokens`) and is characterised completely:
   - every string is its gaps and tokens interleaved (`Decompose`, `GapsSeparateTokens`);
   - the tokens of any such layout are the tokens laid out (`LayoutTokens`).

   Together these say the tokens are exactly the maximal runs without a comma or whitespace, in order. `os.path.join` follows its POSIX rules (module `PosixPath`).
2. **`FileValidator.validate_file_paths`** (`file_validator.dfy`). This is a loop that keeps, in order, each path that:
   - exists,
   - is a regular file,
   - and whose lower-cased text ends in `.csv`.

   A path on which a check raises is dropped and the loop goes on. The method is proved against the specification function `KeptPaths`, and facts about `KeptPaths` are proved as lemmas: it is an order-preserving subsequence, membership is exact, and it works entry by entry.
3. **`CSVProcessor.read_and_concat_csvs`** (`csv_processor.dfy`). This is a loop that reads each path and keeps each table that was read. It skips `EmptyDataError` and every other exception. It returns `None` when nothing was read, and otherwise the merge. `pd.concat(..., ignore_index=True)` is modelled in `data_frames.dfy`:
   - rows are stacked in input order;
   - columns are united by name in order of first appearance;
   - a missing cell is `Missing` (NaN);
   - rows are relabelled 0..n-1.
4. **`FileWriter.save_dataframe`** (`file_writer.dfy`), **`DataAggregator`** and **`main`** (`data_aggregator.dfy`).
   - The writer writes to `join(base_path, filename)`, with the default name `aggregated_data.csv`. A write failure comes back to the caller as an error value.
   - `DataAggregator` is a class that keeps the file string and the working directory. Its `Process` assigns the `dataframe` field. It turns every failure into `None` and writes exactly when something was read.
   - `RunMain` models `main`: the argument-count check, the exit status and the message chosen.

The file system is a value (`Disk.FileSystem`). It records:
- which paths exist and what they are;
- what `pd.read_csv` makes of each file: a table, `EmptyDataError` or another exception;
- which paths make `os.path.exists`/`os.path.isfile` raise;
- where a write fails;
- what a write that fails after opening its file (mode `"w"`) leaves there.

A write yields the file system after it, whether it worked or raised. Methods that write return the new file system.

Two facts about the code are worth stating plainly:
- **An empty merge is still written.** `process` writes the merge whenever at least one file was read (lines 239-241 and 375-377), even when the merge has zero rows. A header-only file is read as a table with columns and no rows; it is not an `EmptyDataError` (`HeaderOnlyInputIsWritten`).
- **`main` exits with status 1 in two cases.** The first is a missing argument. The second is an exception that reaches `main`'s handler (lines 433-437). The model shows the second case for the one such exception it knows of: `os.getcwd` raising while the aggregator is constructed.

## Model

| member | source | states |
|---|---|---|
| PosixPath.Join | tool/ExampleProgram.py:163 | `os.path.join(base, name)`: the result ends with the name; an absolute name replaces the base; otherwise the base is kept in front, with a separator right before the name when the base is non-empty |
| FileParser.DelimiterRun | tool/ExampleProgram.py:155-157 | the longest prefix made only of commas and whitespace: all delimiters, and the next character is not one |
| FileParser.WordRun | tool/ExampleProgram.py:155-157 | the greedy `+` of `[^,\s]+`: the longest delimiter-free prefix, followed by a delimiter or the end |
| FileParser.Tokens | tool/ExampleProgram.py:155-157 | `re.findall(r'[^,\s]+', s)`: every match is non-empty and holds no comma or whitespace |
| FileParser.Gaps | tool/ExampleProgram.py:155-157 | the delimiter runs around the matches: one more than there are matches |
| FileParser.WellSeparatedCons | tool/ExampleProgram.py:155-157 | a layout of tokens and gaps is well separated exactly when its first token and gap are, and so is the rest |
| FileParser.GapsSeparateTokens | tool/ExampleProgram.py:155-157 | the matches and the runs between them are well separated: the runs are all delimiters and non-empty between two matches |
| FileParser.Decompose | tool/ExampleProgram.py:155-157 | the input is its gaps and matches interleaved: no character is lost or reordered |
| FileParser.DelimiterRunOver | tool/ExampleProgram.py:155-157 | a delimiter run stops exactly where the delimiters end |
| FileParser.WordRunOver | tool/ExampleProgram.py:155-157 | a match stops exactly where the first delimiter starts |
| FileParser.LayoutStart | tool/ExampleProgram.py:155-157 | a layout starts with a delimiter exactly when its first gap is non-empty |
| FileParser.LayoutTokens | tool/ExampleProgram.py:155-157 | the matches of any well-separated layout are exactly the tokens laid out, and its gaps the gaps: the tokens are the maximal runs, in order |
| FileParser.TokensCharacterized | tool/ExampleProgram.py:155-157 | a sequence is the match list of a string exactly when some well-separated gaps lay it out as that string (both directions) |
| FileParser.TokensEmpty | tool/ExampleProgram.py:155-157 | there is no match exactly when the input is empty or made only of commas and whitespace |
| FileParser.WhitespaceCodePoints | tool/ExampleProgram.py:155-163 | `FileParser.IsWhitespace`, which stands for what `\s` matches and what `str.strip()` removes, holds exactly on the 29 code points Python's `str.isspace` accepts, listed one by one in `PythonWhitespace` |
| FileParser.LeftStrip | tool/ExampleProgram.py:163 | `str.lstrip()` with no argument: the result is a suffix of the input, everything removed is whitespace, and the result does not start with whitespace |
| FileParser.RightStrip | tool/ExampleProgram.py:163 | `str.rstrip()` with no argument: the result is a prefix of the input, everything removed is whitespace, and the result does not end with whitespace |
| FileParser.WhitespaceEnd | tool/ExampleProgram.py:163 | the whitespace run starting at an index ends at the first character that is not whitespace |
| FileParser.WhitespaceStart | tool/ExampleProgram.py:163 | the whitespace run ending at an index starts right after the last character that is not whitespace |
| FileParser.Strip | tool/ExampleProgram.py:163 | `match.strip()`: the result neither starts nor ends with whitespace, is no longer than the input, and is the input itself when it holds no whitespace |
| FileParser.StripTrims | tool/ExampleProgram.py:163 | `.strip()` removes exactly the leading and the trailing whitespace: the result is the run of the input that starts after the leading whitespace, and only whitespace follows it |
| FileParser.StripKeepsToken | tool/ExampleProgram.py:155-163 | `.strip()` leaves every match unchanged |
| FileParser.ParseFileString | tool/ExampleProgram.py:131-167 | one path per match |
| FileParser.ParsedPaths | tool/ExampleProgram.py:157-167 | path i is match i joined onto the base directory |
| FileParser.JoinedMembers | tool/ExampleProgram.py:163 | when path i is name i joined onto the base, a name is among the names exactly when its joined path is among the paths (both directions) |
| FileParser.ParsedPathsMembers | tool/ExampleProgram.py:157-167 | the parsed paths are exactly the tokens joined onto the base directory, as sets |
| FileParser.ParseEmpty | tool/ExampleProgram.py:157-167 | no path exactly when the input is empty or only commas and whitespace |
| FileValidator.Lower | tool/ExampleProgram.py:105 | `str.lower()` keeps the length |
| FileValidator.HasCsvExtension | tool/ExampleProgram.py:105 | `path.lower().endswith('.csv')`: holds exactly when the path has at least four characters and its last four lower-case to `.csv` |
| FileValidator.Classify | tool/ExampleProgram.py:81-119 | the checks in source order: `CheckRaised` exactly when a check raises; otherwise `Missing` exactly when the path does not exist, `NotAFile` exactly when it exists but is not a regular file, `NotCsv` exactly when it is a file without the `.csv` ending, and `Accepted` exactly when all pass |
| FileValidator.ValidateFilePaths | tool/ExampleProgram.py:47-123 | the loop returns the accepted paths: an order-preserving subsequence of its input holding exactly the accepted entries |
| FileValidator.KeptPathsSubsequence | tool/ExampleProgram.py:77-123 | the kept paths are a subsequence of the input in the same order |
| FileValidator.KeptPathsMembers | tool/ExampleProgram.py:85-119 | a path is kept exactly when it is in the input and accepted |
| FileValidator.KeptPathsAppend | tool/ExampleProgram.py:79-121 | validation works entry by entry: a bad or raising entry drops only itself and never stops the loop |
| FileValidator.KeptPathsSingle | tool/ExampleProgram.py:79-113 | a single path is kept exactly when it is accepted |
| FileValidator.ExtensionIgnoresCase | tool/ExampleProgram.py:105 | the extension test ignores case: `X.CSV` and `data.Csv` pass; `x.csv.txt` and `csv` do not |
| FileValidator.CsvNamePasses | tool/ExampleProgram.py:105 | every name ending in `.csv` passes the extension test |
| FileValidator.LowerSuffix | tool/ExampleProgram.py:105 | lower-casing keeps equal endings equal |
| FileValidator.JoinKeepsExtension | tool/ExampleProgram.py:105-163 | joining a name onto a directory does not change whether the extension test passes |
| Disk.FileSystem.WriteCsv | tool/ExampleProgram.py:297 | `to_csv` works exactly when the path opens and is writable; after it works, the path is a regular file that reads back as the table; after it raises, the file system is as the failed write left it; either way every other path is unchanged |
| Disk.FileSystem.AfterFailedWrite | tool/ExampleProgram.py:297 | a write that raises after opening its file leaves that path a regular file with what had been written; a write that raises at opening changes nothing; no other path changes |
| Disk.FileSystem.Exists | tool/ExampleProgram.py:85 | `os.path.exists`: a path that does not exist is not a file, reading it raises, and a write may create it |
| Disk.FileSystem.IsFile | tool/ExampleProgram.py:95 | `os.path.isfile`: a regular file exists, and a write may replace it |
| Disk.FileSystem.ReadCsv | tool/ExampleProgram.py:213 | `pd.read_csv`: anything that is not a regular file raises; a read that does not raise gives what the file holds |
| CsvProcessor.ReadAndConcatCsvs | tool/ExampleProgram.py:175-247 | `None` for no paths (no read is attempted) and `None` exactly when no read yields a table; otherwise the merge of the tables read, in path order |
| CsvProcessor.SuccessfulTablesEmpty | tool/ExampleProgram.py:207-247 | no table is kept exactly when every read fails, with `EmptyDataError` or any other exception |
| CsvProcessor.SuccessfulTablesAppend | tool/ExampleProgram.py:207-233 | reading works file by file: the tables of a concatenation of path lists are the tables of each part, in order |
| CsvProcessor.SuccessfulTablesRows | tool/ExampleProgram.py:207-233 | the kept tables hold exactly the rows read |
| CsvProcessor.MergedRowCount | tool/ExampleProgram.py:207-241 | when something was read, the merge has as many rows as were read, labelled 0..n-1 |
| CsvProcessor.SuccessfulTablesSingle | tool/ExampleProgram.py:213-223 | a single path gives its table when the read succeeds and nothing otherwise |
| CsvProcessor.HeaderOnlyFileKept | tool/ExampleProgram.py:213-241 | a header-only file is kept, not skipped, and the merge is that header with no rows |
| DataFrames.RangeIndex | tool/ExampleProgram.py:241 | the labels 0..n-1 of `ignore_index=True`, one per row |
| DataFrames.Concat | tool/ExampleProgram.py:241 | `pd.concat(dataframes, ignore_index=True)`: as many rows as the inputs together, one label per row, and exactly the inputs' column names, each once (ConcatRowCount, ConcatRowAt, ConcatColumns and ConcatWellFormed state the rest) |
| DataFrames.AppendNew | tool/ExampleProgram.py:241 | the column union adds the new names after the existing ones: the set is the union, the old order is a prefix, and no name appears twice |
| DataFrames.UnionFrom | tool/ExampleProgram.py:241 | the column union folded over the tables: the set of all names, the start kept in front, no duplicates |
| DataFrames.Pad | tool/ExampleProgram.py:241 | a row widened to the merged columns keeps its own cells and is NaN elsewhere |
| DataFrames.StackRowsLength | tool/ExampleProgram.py:241 | the stacked rows are as many as all inputs together |
| DataFrames.StackRowsAt | tool/ExampleProgram.py:241 | row j of input k sits after the rows of the inputs before it |
| DataFrames.ConcatRowCount | tool/ExampleProgram.py:241 | the merge has the total row count and labels 0..n-1 |
| DataFrames.ConcatRowAt | tool/ExampleProgram.py:241 | row j of input k lands at (rows before input k) + j, with its own cells, and NaN in the columns its table lacks |
| DataFrames.ConcatRowPadded | tool/ExampleProgram.py:241 | for any inputs, row j of input k is the merged row at the offset of the earlier inputs plus j, widened to the merged columns |
| DataFrames.AllColumnsHas | tool/ExampleProgram.py:241 | every input's columns are among all the columns |
| DataFrames.ConcatColumns | tool/ExampleProgram.py:241 | the merged columns are every input column exactly once, with the first input's columns in front in their order |
| DataFrames.AppendNewFresh | tool/ExampleProgram.py:241 | adding only new, distinct names appends them all in order |
| DataFrames.ConcatWellFormed | tool/ExampleProgram.py:241 | the merge is well formed: distinct columns, one label per row, and every row has exactly the merged columns |
| DataFrames.StackRowsKeys | tool/ExampleProgram.py:241 | every stacked row has exactly the merged columns |
| DataFrames.ConcatSingle | tool/ExampleProgram.py:241 | merging one well-formed table gives it back, relabelled 0..n-1 |
| DataFrames.TotalRowsAppend | tool/ExampleProgram.py:241 | row totals add up over concatenated lists of tables |
| FileWriter.SaveDataframe | tool/ExampleProgram.py:255-311 | the output path is `join(base_path, filename)`; success, returning that path with the file reading back as the table, exactly when the write works; otherwise the error is passed to the caller with the output path as the failed write left it; no other file changes |
| DataAggregation.DataAggregator.constructor | tool/ExampleProgram.py:317-335 | keeps the file string and the working directory; no table yet |
| DataAggregation.DataAggregator.Process | tool/ExampleProgram.py:339-391 | sets `dataframe` to the merge of what was read from the accepted paths; returns the output path exactly when something was read and the write worked, the output then reading back as the merge; otherwise `None`: with the files unchanged when nothing was read, and as the failed write left them otherwise |
| DataAggregation.RunMain | tool/ExampleProgram.py:395-437 | fewer than two argv entries: exit status 1 and a usage error; no working directory: status 1; in both cases no file changes. Otherwise status 0, reporting completion with the output path exactly when the pipeline produced a table and the write worked; the returned file system is the one the write produced, or the unchanged one when nothing was merged |
| DataAggregation.Aggregate | tool/ExampleProgram.py:357-369 | the parse, validate and read-and-merge stages in order: when a table comes out, it has as many rows as were read from the accepted paths, labelled 0..n-1 (its body is `Concat` of those tables, whose contents ConcatRowPadded and ConcatRowAt state) |
| DataAggregation.OutputPath | tool/ExampleProgram.py:291 | `os.path.join(base_path, 'aggregated_data.csv')`: ends with the file name; the base directory comes first with a separator before the name, or the name stands alone when the base is empty |
| DataAggregation.AggregateNone | tool/ExampleProgram.py:353-383 | nothing is merged or written exactly when no match names a path that is accepted and reads as a table |
| DataAggregation.AggregateSingle | tool/ExampleProgram.py:353-383 | a file string naming one file gives that file's table, relabelled, when it is accepted and read, and `None` otherwise |
| DataAggregation.OutputIsCsv | tool/ExampleProgram.py:261-291 | the output path passes the extension test, wherever the working directory is |
| DataAggregation.OutputPathAccepted | tool/ExampleProgram.py:291-297 | after a successful write the output file is accepted by the validator (unless probing it raises) and reads back as the merge |
| DataAggregation.HeaderOnlyInputIsWritten | tool/ExampleProgram.py:369-377 | a single header-only file produces a merge with its columns and no rows, which `Process` writes when the output path is writable |
| DataAggregation.SingleToken | tool/ExampleProgram.py:155-157 | a lone token is its own match list |
| DataAggregation.ParseSingleToken | tool/ExampleProgram.py:157-163 | a lone token parses to that name joined onto the base directory |
| DataAggregation.NotCsvName | tool/ExampleProgram.py:105 | `notacsv.txt` fails the extension test wherever it lives |
| DataAggregation.NotACsvProducesNothing | tool/ExampleProgram.py:103-109 | a lone name without the `.csv` extension produces nothing, whatever the files |

## Left out

- `tool/Python2Exe.py` and `tests/Python2ExeTests.py` are not part of this model. They are console input, subprocess and packager glue, with no logic of their own to state.
- pandas CSV parsing and serialisation: quoting, type inference and the text written by `to_csv`. A read is an outcome value (a table, `EmptyDataError`, any other exception). A write succeeds or fails. That a written file reads back as the table written is assumed by the definition of `Disk.FileSystem.WriteCsv`, not derived; `SaveDataframe`, `Process`, `RunMain` and `OutputPathAccepted` inherit it. pandas does not always read back what it wrote: with its default `na_values`, cells such as an empty string, `NA` or `null` come back as NaN. Cells are text; this NaN conversion and the rest of pandas' type inference, and so the values a column takes after a merge, are not modelled.
- `os.path.exists`, `os.path.isfile`, `os.getcwd` and the real file system become the `Disk.FileSystem` value and a working-directory parameter. What `os.getcwd` returns is a parameter of `RunMain` (`None` when it raises). Symbolic links and races between the checks and the reads are not modelled.
- What a write that raises partway leaves in its file is recorded per path in `Disk.FileSystem.truncated` as a read outcome. The model does not compute it from the bytes `to_csv` had written.
- CPython's `os.path.exists` and `os.path.isfile` answer `False` instead of raising for a `str` path. The validator's `except` branch is kept as the `faulty` set of paths, which is empty for such paths.
- Only the POSIX rules of `os.path.join` are modelled. Windows drive letters and backslash separators are not.
- FileValidator.Lower: does not model non-ASCII case mapping. `str.lower()` maps only `A`–`Z` in this model and leaves every other character as it is. The extension test compares the last four characters with ASCII `.csv`, so the model can differ only on a path whose ending lower-cases to `.csv` through non-ASCII characters.
- FileParser.IsWhitespace: a fixed list of the 29 code points Python's `str.isspace` accepts, which both `\s` and `str.strip()` use (`WhitespaceCodePoints`). Python takes this list from its Unicode database, so whitespace added by a later Unicode version is not followed.
- Logging and the messages `print`ed by `main` are left out. `RunMain` returns which message it would print as a `Report` value.
- `process` also catches exceptions raised inside the parser, the merge or the validator's bookkeeping. None of those can arise in this model, so the only failure the model turns into `None` is the writer's re-raised error.
- `DataAggregation.DataAggregator.Process` is proved against a value file system: it returns the new file system rather than updating a shared one in place.

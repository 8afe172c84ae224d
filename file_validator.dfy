/**
 * `FileValidator.validate_file_paths`: keep, in order, the paths that exist,
 * are regular files and whose lower-cased text ends in `.csv`; a path that
 * fails a check, or on which a check raises, is logged and dropped, and the
 * loop goes on with the next one.
 */
module FileValidator {
  import PosixPath
  import opened Disk

  /** `str.lower()` on one character, for the ASCII letters. */
  function LowerChar(c: char): char {
    if 'A' <= c <= 'Z' then (c as int + 32) as char else c
  }

  function Lower(s: string): (r: string)
    ensures |r| == |s|
  {
    seq(|s|, i requires 0 <= i < |s| => LowerChar(s[i]))
  }

  const CsvSuffix: string := ".csv"

  /** `path.lower().endswith('.csv')`. */
  predicate HasCsvExtension(path: string)
    ensures HasCsvExtension(path) <==> |path| >= 4 && Lower(path[|path| - 4..]) == CsvSuffix
  {
    assert |path| >= 4 ==> Lower(path)[|path| - 4..] == Lower(path[|path| - 4..]);
    PosixPath.EndsWith(Lower(path), CsvSuffix)
  }

  /** Why a path is kept or dropped, in the order the checks run. */
  datatype Verdict = Accepted | CheckRaised | Missing | NotAFile | NotCsv

  /**
   * The verdict on one path: accepted exactly when no check raises and all
   * three pass; otherwise the first check that raised or failed.
   */
  function Classify(fs: FileSystem, path: string): (v: Verdict)
    ensures v == Accepted <==>
            path !in fs.faulty && fs.Exists(path) && fs.IsFile(path) && HasCsvExtension(path)
    ensures v == CheckRaised <==> path in fs.faulty
    ensures v == Missing <==> path !in fs.faulty && !fs.Exists(path)
    ensures v == NotAFile <==> path !in fs.faulty && fs.Exists(path) && !fs.IsFile(path)
    ensures v == NotCsv <==> path !in fs.faulty && fs.IsFile(path) && !HasCsvExtension(path)
  {
    if path in fs.faulty then CheckRaised
    else if !fs.Exists(path) then Missing
    else if !fs.IsFile(path) then NotAFile
    else if !HasCsvExtension(path) then NotCsv
    else Accepted
  }

  /** The accepted paths of a list, in list order. */
  function KeptPaths(fs: FileSystem, paths: seq<string>): seq<string>
  {
    if paths == [] then []
    else
      var last := paths[|paths| - 1];
      KeptPaths(fs, paths[..|paths| - 1]) + (if Classify(fs, last) == Accepted then [last] else [])
  }

  /** `a` is `b` with some elements left out, the others in their order. */
  predicate IsSubsequence(a: seq<string>, b: seq<string>)
    decreases |b|
  {
    if a == [] then true
    else if b == [] then false
    else
      || (a[|a| - 1] == b[|b| - 1] && IsSubsequence(a[..|a| - 1], b[..|b| - 1]))
      || IsSubsequence(a, b[..|b| - 1])
  }

  /**
   * The validation loop. Its result is the accepted paths, in input order:
   * an order-preserving subsequence holding exactly the accepted entries.
   */
  method ValidateFilePaths(fs: FileSystem, filePaths: seq<string>) returns (validPaths: seq<string>)
    ensures validPaths == KeptPaths(fs, filePaths)
    ensures IsSubsequence(validPaths, filePaths)
    ensures forall p :: p in validPaths <==> p in filePaths && Classify(fs, p) == Accepted
  {
    validPaths := [];
    for i := 0 to |filePaths|
      invariant validPaths == KeptPaths(fs, filePaths[..i])
    {
      var path := filePaths[i];
      assert filePaths[..i + 1][..i] == filePaths[..i];
      // each failed check, and a check that raises, is logged and skips the path
      if path in fs.faulty {
        continue;
      }
      if !fs.Exists(path) {
        continue;
      }
      if !fs.IsFile(path) {
        continue;
      }
      if !PosixPath.EndsWith(Lower(path), CsvSuffix) {
        continue;
      }
      validPaths := validPaths + [path];
    }
    assert filePaths[..|filePaths|] == filePaths;
    KeptPathsSubsequence(fs, filePaths);
    KeptPathsMembers(fs, filePaths);
  }

  lemma {:induction false} KeptPathsSubsequence(fs: FileSystem, paths: seq<string>)
    ensures IsSubsequence(KeptPaths(fs, paths), paths)
    decreases |paths|
  {
    if paths != [] {
      var init := paths[..|paths| - 1];
      var kept := KeptPaths(fs, init);
      KeptPathsSubsequence(fs, init);
      if Classify(fs, paths[|paths| - 1]) == Accepted {
        var r := kept + [paths[|paths| - 1]];
        assert r[..|r| - 1] == kept;
      } else {
        assert KeptPaths(fs, paths) == kept + [] == kept;
      }
    }
  }

  /** A path is kept exactly when it is in the input and accepted. */
  lemma {:induction false} KeptPathsMembers(fs: FileSystem, paths: seq<string>)
    ensures forall p :: p in KeptPaths(fs, paths) <==> p in paths && Classify(fs, p) == Accepted
    decreases |paths|
  {
    if paths != [] {
      var init := paths[..|paths| - 1];
      KeptPathsMembers(fs, init);
      assert paths == init + [paths[|paths| - 1]];
    }
  }

  /**
   * Validation works entry by entry: the result for a concatenation is the
   * concatenation of the results, so a bad entry drops only itself.
   */
  lemma {:induction false} KeptPathsAppend(fs: FileSystem, a: seq<string>, b: seq<string>)
    ensures KeptPaths(fs, a + b) == KeptPaths(fs, a) + KeptPaths(fs, b)
    decreases |b|
  {
    if b == [] {
      assert a + b == a;
    } else {
      var b' := b[..|b| - 1];
      assert (a + b)[..|a + b| - 1] == a + b';
      assert (a + b)[|a + b| - 1] == b[|b| - 1];
      KeptPathsAppend(fs, a, b');
    }
  }

  /** A single path is kept exactly when it is accepted. */
  lemma KeptPathsSingle(fs: FileSystem, p: string)
    ensures KeptPaths(fs, [p]) == if Classify(fs, p) == Accepted then [p] else []
  {
    assert [p][..0] == [];
  }

  /** The extension test ignores case: `X.CSV` passes, `x.csv.txt` does not. */
  lemma ExtensionIgnoresCase(path: string)
    ensures HasCsvExtension(path) == HasCsvExtension(Lower(path))
    ensures HasCsvExtension("X.CSV") && HasCsvExtension("data.Csv")
    ensures !HasCsvExtension("x.csv.txt") && !HasCsvExtension("csv")
  {
    assert Lower(Lower(path)) == Lower(path);
    assert Lower("X.CSV") == ".csv"[..0] + "x.csv";
    assert Lower("data.Csv") == "data.csv";
    assert Lower("x.csv.txt") == "x.csv.txt";
  }

  /** Any name ending in `.csv` passes the extension test. */
  lemma CsvNamePasses(stem: string)
    ensures HasCsvExtension(stem + CsvSuffix)
  {
    var name := stem + CsvSuffix;
    var tail := Lower(name)[|name| - 4..];
    forall k | 0 <= k < 4 ensures tail[k] == CsvSuffix[k] {
      assert name[|stem| + k] == CsvSuffix[k];
    }
  }

  /** Lower-casing works character by character, so equal endings stay equal. */
  lemma LowerSuffix(a: string, b: string, n: nat)
    requires n <= |a| && n <= |b| && a[|a| - n..] == b[|b| - n..]
    ensures Lower(a)[|a| - n..] == Lower(b)[|b| - n..]
  {
    var la, lb := Lower(a)[|a| - n..], Lower(b)[|b| - n..];
    forall k | 0 <= k < n ensures la[k] == lb[k] {
      assert a[|a| - n..][k] == b[|b| - n..][k];
    }
  }

  /** Joining a file name onto a directory does not change whether the extension test passes. */
  lemma JoinKeepsExtension(base: string, name: string)
    requires name != []
    ensures HasCsvExtension(PosixPath.Join(base, name)) == HasCsvExtension(name)
  {
    var r := PosixPath.Join(base, name);
    if !PosixPath.IsAbsolute(name) && base != [] {
      if |name| >= 4 {
        assert r[|r| - 4..] == name[|name| - 4..] by {
          assert r[|r| - |name|..] == name;
        }
        LowerSuffix(r, name, 4);
      } else if |r| >= 4 {
        var k := |r| - |name| - 1;
        assert Lower(r)[k] == '/';
        assert Lower(r)[|r| - 4..][k - (|r| - 4)] == '/';
      }
    }
  }
}

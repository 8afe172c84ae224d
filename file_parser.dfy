/**
 * `FileParser.parse_file_string`: the regular expression `[^,\s]+` applied
 * with `re.findall`, each match stripped and joined onto a base directory.
 *
 * The tokenizer is characterised completely: every string is a layout of its
 * tokens separated by delimiter runs (GapsSeparateTokens, Decompose), and the tokens of any such
 * layout are exactly the tokens laid out (LayoutTokens). Together these say
 * the tokens are the maximal delimiter-free runs, in order.
 */
module FileParser {
  import PosixPath

  /** What `\s` matches in a `str` pattern (Python's `str.isspace`). */
  predicate IsWhitespace(c: char) {
    || c == ' '
    || ('\t' <= c <= '\r')
    || ('\U{1C}' <= c <= '\U{1F}')
    || c == '\U{85}' || c == '\U{A0}' || c == '\U{1680}'
    || ('\U{2000}' <= c <= '\U{200A}')
    || c == '\U{2028}' || c == '\U{2029}' || c == '\U{202F}' || c == '\U{205F}' || c == '\U{3000}'
  }

  /** Python's whitespace code points, listed one by one: 29 of them. */
  const PythonWhitespace: set<char> := {
    ' ', '\t', '\n', '\U{0B}', '\U{0C}', '\r', '\U{1C}', '\U{1D}', '\U{1E}', '\U{1F}',
    '\U{85}', '\U{A0}', '\U{1680}',
    '\U{2000}', '\U{2001}', '\U{2002}', '\U{2003}', '\U{2004}', '\U{2005}',
    '\U{2006}', '\U{2007}', '\U{2008}', '\U{2009}', '\U{200A}',
    '\U{2028}', '\U{2029}', '\U{202F}', '\U{205F}', '\U{3000}'}

  /** `IsWhitespace` holds exactly on the listed code points. */
  lemma WhitespaceCodePoints(c: char)
    ensures IsWhitespace(c) <==> c in PythonWhitespace
  {
    var n := c as int;
    if '\t' <= c <= '\r' {
      assert c == n as char;
    } else if '\U{1C}' <= c <= '\U{1F}' {
      assert c == n as char;
    } else if '\U{2000}' <= c <= '\U{200A}' {
      assert c == n as char;
    }
  }

  /** The characters outside the class `[^,\s]`. */
  predicate IsDelimiter(c: char) {
    c == ',' || IsWhitespace(c)
  }

  predicate AllDelimiters(s: string) {
    forall i :: 0 <= i < |s| ==> IsDelimiter(s[i])
  }

  predicate NoDelimiters(s: string) {
    forall i :: 0 <= i < |s| ==> !IsDelimiter(s[i])
  }

  /** A possible match of `[^,\s]+`. */
  predicate IsToken(t: string) {
    |t| > 0 && NoDelimiters(t)
  }

  /** Length of the longest prefix made only of delimiters. */
  function DelimiterRun(s: string): (n: nat)
    ensures n <= |s| && AllDelimiters(s[..n])
    ensures n < |s| ==> !IsDelimiter(s[n])
  {
    if s == [] || !IsDelimiter(s[0]) then 0
    else
      var m := DelimiterRun(s[1..]);
      assert s[..1 + m] == [s[0]] + s[1..][..m];
      1 + m
  }

  /** Length of the longest prefix free of delimiters: the greedy `+`. */
  function WordRun(s: string): (n: nat)
    ensures n <= |s| && NoDelimiters(s[..n])
    ensures n < |s| ==> IsDelimiter(s[n])
  {
    if s == [] || IsDelimiter(s[0]) then 0
    else
      var m := WordRun(s[1..]);
      assert s[..1 + m] == [s[0]] + s[1..][..m];
      1 + m
  }

  /** The list `re.findall(r'[^,\s]+', s)`: skip delimiters, take a maximal run, repeat. */
  function Tokens(s: string): (r: seq<string>)
    ensures forall i :: 0 <= i < |r| ==> IsToken(r[i])
    decreases |s|
  {
    var d := DelimiterRun(s);
    if d == |s| then []
    else
      var rest := s[d..];
      var n := WordRun(rest);
      [rest[..n]] + Tokens(rest[n..])
  }

  /** The delimiter runs around the tokens of `s`: before, between and after them. */
  function Gaps(s: string): (g: seq<string>)
    ensures |g| == |Tokens(s)| + 1
    decreases |s|
  {
    var d := DelimiterRun(s);
    if d == |s| then [s]
    else
      var rest := s[d..];
      var n := WordRun(rest);
      [s[..d]] + Gaps(rest[n..])
  }

  /** `gaps[0] + toks[0] + gaps[1] + ... + toks[k-1] + gaps[k]`. */
  function Layout(toks: seq<string>, gaps: seq<string>): string
    requires |gaps| == |toks| + 1
  {
    if toks == [] then gaps[0] else gaps[0] + toks[0] + Layout(toks[1..], gaps[1..])
  }

  /** Tokens separated by delimiter runs, the runs between two tokens non-empty. */
  predicate WellSeparated(toks: seq<string>, gaps: seq<string>) {
    && |gaps| == |toks| + 1
    && (forall i :: 0 <= i < |toks| ==> IsToken(toks[i]))
    && (forall i :: 0 <= i < |gaps| ==> AllDelimiters(gaps[i]))
    && (forall i :: 0 < i < |toks| ==> gaps[i] != [])
  }

  /** Well-separation, one token and the gap before it at a time. */
  lemma WellSeparatedCons(w: string, g: string, toks: seq<string>, gaps: seq<string>)
    requires |gaps| == |toks| + 1
    ensures WellSeparated([w] + toks, [g] + gaps) <==>
            IsToken(w) && AllDelimiters(g) && WellSeparated(toks, gaps) && (toks != [] ==> gaps[0] != [])
  {
    var t', g' := [w] + toks, [g] + gaps;
    if IsToken(w) && AllDelimiters(g) && WellSeparated(toks, gaps) && (toks != [] ==> gaps[0] != []) {
      forall i | 0 <= i < |t'| ensures IsToken(t'[i]) {
        if i > 0 { assert t'[i] == toks[i - 1]; }
      }
      forall i | 0 <= i < |g'| ensures AllDelimiters(g'[i]) {
        if i > 0 { assert g'[i] == gaps[i - 1]; }
      }
      forall i | 0 < i < |t'| ensures g'[i] != [] {
        assert g'[i] == gaps[i - 1];
      }
    }
    if WellSeparated(t', g') {
      assert t'[0] == w && g'[0] == g;
      forall i | 0 <= i < |toks| ensures IsToken(toks[i]) {
        assert toks[i] == t'[i + 1];
      }
      forall i | 0 <= i < |gaps| ensures AllDelimiters(gaps[i]) {
        assert gaps[i] == g'[i + 1];
      }
      forall i | 0 < i < |toks| ensures gaps[i] != [] {
        assert gaps[i] == g'[i + 1];
      }
      if toks != [] {
        assert gaps[0] == g'[1];
      }
    }
  }

  /** The gaps of a string separate its tokens: delimiter runs, non-empty between two tokens. */
  lemma {:induction false} GapsSeparateTokens(s: string)
    ensures WellSeparated(Tokens(s), Gaps(s))
    decreases |s|
  {
    var d := DelimiterRun(s);
    if d == |s| {
      assert s[..d] == s;
    } else {
      var rest := s[d..];
      var n := WordRun(rest);
      var tail, word := rest[n..], rest[..n];
      GapsSeparateTokens(tail);
      var toks, gaps := Tokens(tail), Gaps(tail);
      assert Tokens(s) == [word] + toks && Gaps(s) == [s[..d]] + gaps;
      assert IsToken(word) by {
        assert rest[0] == s[d];
      }
      assert toks != [] ==> gaps[0] != [] by {
        if toks != [] {
          assert tail != [] && IsDelimiter(tail[0]);
          assert gaps[0] == tail[..DelimiterRun(tail)];
        }
      }
      WellSeparatedCons(word, s[..d], toks, gaps);
    }
  }

  /** One step of the tokenizer: a gap, a word, and the tokens and gaps of what follows. */
  lemma TokensStep(s: string)
    requires DelimiterRun(s) < |s|
    ensures var rest := s[DelimiterRun(s)..];
            var n := WordRun(rest);
            && Tokens(s) == [rest[..n]] + Tokens(rest[n..])
            && Gaps(s) == [s[..DelimiterRun(s)]] + Gaps(rest[n..])
  {
  }

  /** A string is its prefix, then a prefix of the remainder, then the rest. */
  lemma SplitThree(s: string, i: nat, j: nat)
    requires i <= |s| && j <= |s| - i
    ensures s[..i] + s[i..][..j] + s[i..][j..] == s
  {
  }

  /** Layout of a first gap and token in front of a shorter layout. */
  lemma LayoutCons(w: string, g: string, toks: seq<string>, gaps: seq<string>)
    requires |gaps| == |toks| + 1
    ensures Layout([w] + toks, [g] + gaps) == g + w + Layout(toks, gaps)
  {
    assert ([w] + toks)[1..] == toks;
    assert ([g] + gaps)[1..] == gaps;
  }

  /** Laying the tokens of a string out between its gaps gives back the string. */
  lemma {:induction false} Decompose(s: string)
    ensures Layout(Tokens(s), Gaps(s)) == s
    decreases |s|
  {
    var d := DelimiterRun(s);
    if d == |s| {
      assert s[..d] == s;
    } else {
      TokensStep(s);
      var rest := s[d..];
      var n := WordRun(rest);
      Decompose(rest[n..]);
      LayoutCons(rest[..n], s[..d], Tokens(rest[n..]), Gaps(rest[n..]));
      SplitThree(s, d, n);
    }
  }

  lemma {:induction false} DelimiterRunOver(g: string, x: string)
    requires AllDelimiters(g)
    requires x == [] || !IsDelimiter(x[0])
    ensures DelimiterRun(g + x) == |g|
    decreases |g|
  {
    if g == [] {
      assert g + x == x;
    } else {
      assert (g + x)[1..] == g[1..] + x;
      DelimiterRunOver(g[1..], x);
    }
  }

  lemma {:induction false} WordRunOver(w: string, y: string)
    requires NoDelimiters(w)
    requires y == [] || IsDelimiter(y[0])
    ensures WordRun(w + y) == |w|
    decreases |w|
  {
    if w == [] {
      assert w + y == y;
    } else {
      assert (w + y)[1..] == w[1..] + y;
      WordRunOver(w[1..], y);
    }
  }

  /** A layout starts with its first gap, or with its first token when that gap is empty. */
  lemma LayoutStart(toks: seq<string>, gaps: seq<string>)
    requires WellSeparated(toks, gaps)
    requires gaps[0] != [] || toks != []
    ensures Layout(toks, gaps) != []
    ensures IsDelimiter(Layout(toks, gaps)[0]) <==> gaps[0] != []
  {
  }

  /** The tokens of a well-separated layout are the tokens laid out, and so are its gaps. */
  lemma {:induction false} LayoutTokens(toks: seq<string>, gaps: seq<string>)
    requires WellSeparated(toks, gaps)
    ensures Tokens(Layout(toks, gaps)) == toks
    ensures Gaps(Layout(toks, gaps)) == gaps
    decreases |toks|
  {
    var s := Layout(toks, gaps);
    if toks == [] {
      DelimiterRunOver(gaps[0], []);
      assert gaps[0] + [] == gaps[0];
    } else {
      var t, g := toks[1..], gaps[1..];
      assert toks == [toks[0]] + t && gaps == [gaps[0]] + g;
      WellSeparatedCons(toks[0], gaps[0], t, g);
      var tail := Layout(t, g);
      if g[0] != [] || t != [] {
        LayoutStart(t, g);
      }
      assert s == gaps[0] + (toks[0] + tail);
      DelimiterRunOver(gaps[0], toks[0] + tail);
      WordRunOver(toks[0], tail);
      assert (toks[0] + tail)[..|toks[0]|] == toks[0];
      assert (toks[0] + tail)[|toks[0]|..] == tail;
      assert s[|gaps[0]|..] == toks[0] + tail;
      assert s[..|gaps[0]|] == gaps[0];
      LayoutTokens(t, g);
    }
  }

  /** `toks` is what `findall` returns on `s` exactly when `s` lays out `toks`. */
  lemma TokensCharacterized(s: string, toks: seq<string>)
    ensures Tokens(s) == toks <==>
            exists gaps :: WellSeparated(toks, gaps) && Layout(toks, gaps) == s
  {
    GapsSeparateTokens(s);
    Decompose(s);
    if exists gaps :: WellSeparated(toks, gaps) && Layout(toks, gaps) == s {
      var gaps :| WellSeparated(toks, gaps) && Layout(toks, gaps) == s;
      LayoutTokens(toks, gaps);
    }
  }

  /** No token at all exactly when the input is empty or only commas and whitespace. */
  lemma TokensEmpty(s: string)
    ensures Tokens(s) == [] <==> AllDelimiters(s)
  {
    var d := DelimiterRun(s);
    if d == |s| {
      assert s[..d] == s;
    } else {
      assert !IsDelimiter(s[d]);
    }
  }

  /** `t` without its leading whitespace: what is removed is all whitespace, and what is left does not start with any. */
  function LeftStrip(t: string): (r: string)
    ensures r == [] || !IsWhitespace(r[0])
    ensures |r| <= |t| && r == t[|t| - |r|..]
    ensures forall i :: 0 <= i < |t| - |r| ==> IsWhitespace(t[i])
  {
    t[WhitespaceEnd(t, 0)..]
  }

  /** The first index from `i` on that does not hold whitespace. */
  function WhitespaceEnd(t: string, i: nat): (n: nat)
    requires i <= |t|
    ensures i <= n <= |t|
    ensures forall k :: i <= k < n ==> IsWhitespace(t[k])
    ensures n < |t| ==> !IsWhitespace(t[n])
    decreases |t| - i
  {
    if i < |t| && IsWhitespace(t[i]) then WhitespaceEnd(t, i + 1) else i
  }

  /** `t` without its trailing whitespace: what is removed is all whitespace, and what is left does not end with any. */
  function RightStrip(t: string): (r: string)
    ensures r == [] || !IsWhitespace(r[|r| - 1])
    ensures |r| <= |t| && r == t[..|r|]
    ensures forall i :: |r| <= i < |t| ==> IsWhitespace(t[i])
  {
    t[..WhitespaceStart(t, |t|)]
  }

  /** The start of the whitespace run that ends at index `j`. */
  function WhitespaceStart(t: string, j: nat): (n: nat)
    requires j <= |t|
    ensures n <= j
    ensures forall k :: n <= k < j ==> IsWhitespace(t[k])
    ensures n > 0 ==> !IsWhitespace(t[n - 1])
  {
    if j > 0 && IsWhitespace(t[j - 1]) then WhitespaceStart(t, j - 1) else j
  }

  /**
   * `str.strip()` with no argument: what is left neither starts nor ends with
   * whitespace, and text without whitespace is left as it is.
   */
  function Strip(t: string): (r: string)
    ensures r == [] || (!IsWhitespace(r[0]) && !IsWhitespace(r[|r| - 1]))
    ensures |r| <= |t|
    ensures (forall i :: 0 <= i < |t| ==> !IsWhitespace(t[i])) ==> r == t
  {
    var l := LeftStrip(t);
    var r := RightStrip(l);
    assert r != [] ==> r[0] == l[0];
    r
  }

  /** `.strip()` removes exactly the leading and the trailing whitespace: what is left is the run of `t` between them. */
  lemma StripTrims(t: string)
    ensures var r, i := Strip(t), |t| - |LeftStrip(t)|;
            && i + |r| <= |t| && r == t[i..i + |r|]
            && (forall k :: 0 <= k < i ==> IsWhitespace(t[k]))
            && (forall k :: i + |r| <= k < |t| ==> IsWhitespace(t[k]))
  {
    var l := LeftStrip(t);
    var r := RightStrip(l);
    var i := |t| - |l|;
    assert r == t[i..i + |r|];
    forall k | i + |r| <= k < |t|
      ensures IsWhitespace(t[k])
    {
      assert t[k] == l[k - i];
    }
  }

  /** `.strip()` never changes a match of `[^,\s]+`. */
  lemma StripKeepsToken(t: string)
    requires IsToken(t)
    ensures Strip(t) == t
  {
    assert !IsDelimiter(t[0]) && !IsDelimiter(t[|t| - 1]);
  }

  /** `parse_file_string`: one path per match, in order, each match stripped and joined onto the base directory. */
  function ParseFileString(fileString: string, basePath: string): (paths: seq<string>)
    ensures |paths| == |Tokens(fileString)|
  {
    var matches := Tokens(fileString);
    seq(|matches|, i requires 0 <= i < |matches| => PosixPath.Join(basePath, Strip(matches[i])))
  }

  /** Path i is token i joined onto the base directory: stripping never changes a match. */
  lemma ParsedPaths(fileString: string, basePath: string)
    ensures var paths, toks := ParseFileString(fileString, basePath), Tokens(fileString);
            forall i :: 0 <= i < |paths| ==> paths[i] == PosixPath.Join(basePath, toks[i])
  {
    var paths, toks := ParseFileString(fileString, basePath), Tokens(fileString);
    forall i | 0 <= i < |paths| ensures paths[i] == PosixPath.Join(basePath, toks[i]) {
      StripKeepsToken(toks[i]);
    }
  }

  /** When path i is name i joined onto the base, the paths are exactly the joined names, as sets. */
  lemma JoinedMembers(basePath: string, names: seq<string>, paths: seq<string>)
    requires |paths| == |names|
    requires forall i :: 0 <= i < |paths| ==> paths[i] == PosixPath.Join(basePath, names[i])
    ensures forall t :: t in names ==> PosixPath.Join(basePath, t) in paths
    ensures forall p :: p in paths ==> exists t :: t in names && p == PosixPath.Join(basePath, t)
  {
    forall t | t in names ensures PosixPath.Join(basePath, t) in paths {
      var i :| 0 <= i < |names| && names[i] == t;
      assert paths[i] == PosixPath.Join(basePath, t);
    }
    forall p | p in paths ensures exists t :: t in names && p == PosixPath.Join(basePath, t) {
      var i :| 0 <= i < |paths| && paths[i] == p;
      assert names[i] in names;
    }
  }

  /** The paths are exactly the tokens joined onto the base directory, as sets. */
  lemma ParsedPathsMembers(fileString: string, basePath: string)
    ensures var paths, toks := ParseFileString(fileString, basePath), Tokens(fileString);
            && (forall t :: t in toks ==> PosixPath.Join(basePath, t) in paths)
            && (forall p :: p in paths ==> exists t :: t in toks && p == PosixPath.Join(basePath, t))
  {
    ParsedPaths(fileString, basePath);
    JoinedMembers(basePath, Tokens(fileString), ParseFileString(fileString, basePath));
  }

  /** An empty input, or one made only of commas and whitespace, gives no path. */
  lemma ParseEmpty(fileString: string, basePath: string)
    ensures ParseFileString(fileString, basePath) == [] <==> AllDelimiters(fileString)
  {
    TokensEmpty(fileString);
  }
}

/** The string operations of Python the SQL splitters and printers rely on. */
module Text {

  /** `str.isspace` for one character: what `strip` removes. */
  predicate IsSpace(c: char) {
    || '\t' <= c <= '\r' || '\U{1c}' <= c <= ' '
    || c == '\U{85}' || c == '\U{a0}' || c == '\U{1680}' || '\U{2000}' <= c <= '\U{200a}'
    || c == '\U{2028}' || c == '\U{2029}' || c == '\U{202f}' || c == '\U{205f}' || c == '\U{3000}'
  }

  /** The characters `str.splitlines` breaks at. */
  predicate IsBreak(c: char) {
    '\n' <= c <= '\r' || '\U{1c}' <= c <= '\U{1e}' || c == '\U{85}' || c == '\U{2028}' || c == '\U{2029}'
  }

  /** The white space of Python, one by one. */
  lemma SpacesAre(c: char)
    ensures IsSpace(c) <==>
      c in ['\t', '\n', '\U{b}', '\U{c}', '\r', '\U{1c}', '\U{1d}', '\U{1e}', '\U{1f}', ' ', '\U{85}', '\U{a0}', '\U{1680}',
            '\U{2000}', '\U{2001}', '\U{2002}', '\U{2003}', '\U{2004}', '\U{2005}', '\U{2006}', '\U{2007}', '\U{2008}', '\U{2009}',
            '\U{200a}', '\U{2028}', '\U{2029}', '\U{202f}', '\U{205f}', '\U{3000}']
  {
  }

  /** The line breaks of Python, one by one; all of them are white space. */
  lemma BreaksAre(c: char)
    ensures IsBreak(c) <==> c in ['\n', '\U{b}', '\U{c}', '\r', '\U{1c}', '\U{1d}', '\U{1e}', '\U{85}', '\U{2028}', '\U{2029}']
    ensures IsBreak(c) ==> IsSpace(c)
  {
  }

  /** No character of `s` is a line break. */
  predicate OneLine(s: string) {
    forall i :: 0 <= i < |s| ==> !IsBreak(s[i])
  }

  lemma OneLineConcat(a: string, b: string)
    requires OneLine(a) && OneLine(b)
    ensures OneLine(a + b)
  {
  }

  function TrimLeft(s: string): string {
    if s != "" && IsSpace(s[0]) then TrimLeft(s[1..]) else s
  }

  /** `str.rstrip`. */
  function TrimRight(s: string): string {
    if s != "" && IsSpace(s[|s| - 1]) then TrimRight(s[..|s| - 1]) else s
  }

  /** `str.strip`. */
  function Strip(s: string): string {
    TrimLeft(TrimRight(s))
  }

  /** White space only. */
  predicate Blank(s: string) {
    forall i :: 0 <= i < |s| ==> IsSpace(s[i])
  }

  /** Nothing to strip, and not empty. */
  predicate Solid(s: string) {
    s != "" && !IsSpace(s[0]) && !IsSpace(s[|s| - 1])
  }

  predicate StartsWith(s: string, p: string) {
    p <= s
  }

  predicate EndsWith(s: string, p: string) {
    |p| <= |s| && s[|s| - |p|..] == p
  }

  /** `rstrip` cuts exactly the white space behind the last visible character. */
  lemma {:induction false} TrimRightCuts(s: string)
    ensures |TrimRight(s)| <= |s| && TrimRight(s) == s[..|TrimRight(s)|]
    ensures TrimRight(s) != "" ==> !IsSpace(TrimRight(s)[|TrimRight(s)| - 1])
    ensures forall i :: |TrimRight(s)| <= i < |s| ==> IsSpace(s[i])
    decreases |s|
  {
    if s != "" && IsSpace(s[|s| - 1]) {
      TrimRightCuts(s[..|s| - 1]);
    }
  }

  /** `lstrip` cuts exactly the white space before the first visible character. */
  lemma {:induction false} TrimLeftCuts(s: string)
    ensures |TrimLeft(s)| <= |s| && TrimLeft(s) == s[|s| - |TrimLeft(s)|..]
    ensures TrimLeft(s) != "" ==> !IsSpace(TrimLeft(s)[0])
    ensures forall i :: 0 <= i < |s| - |TrimLeft(s)| ==> IsSpace(s[i])
    decreases |s|
  {
    if s != "" && IsSpace(s[0]) {
      TrimLeftCuts(s[1..]);
    }
  }

  lemma {:induction false} TrimRightSplit(s: string) returns (z: string)
    ensures s == TrimRight(s) + z && Blank(z)
    decreases |s|
  {
    if s != "" && IsSpace(s[|s| - 1]) {
      var y := TrimRightSplit(s[..|s| - 1]);
      z := y + [s[|s| - 1]];
      assert s == s[..|s| - 1] + [s[|s| - 1]];
    } else {
      z := "";
    }
  }

  lemma {:induction false} TrimLeftSplit(s: string) returns (a: string)
    ensures s == a + TrimLeft(s) && Blank(a)
    decreases |s|
  {
    if s != "" && IsSpace(s[0]) {
      var b := TrimLeftSplit(s[1..]);
      a := [s[0]] + b;
      assert s == [s[0]] + s[1..];
    } else {
      a := "";
    }
  }

  /** What `strip` cuts is white space at both ends. */
  lemma StripCuts(s: string) returns (a: string, z: string)
    ensures s == a + Strip(s) + z && Blank(a) && Blank(z)
  {
    z := TrimRightSplit(s);
    a := TrimLeftSplit(TrimRight(s));
  }

  lemma SolidIsStripped(s: string)
    requires Solid(s)
    ensures TrimRight(s) == s && TrimLeft(s) == s && Strip(s) == s
  {
  }

  lemma TrimRightIdempotent(s: string)
    ensures TrimRight(TrimRight(s)) == TrimRight(s) && Strip(TrimRight(s)) == Strip(s)
  {
  }

  /** What `strip` returns is empty or solid, and ends what `rstrip` returns. */
  lemma StripIsSolid(s: string)
    ensures Strip(s) == "" || Solid(Strip(s))
    ensures EndsWith(TrimRight(s), Strip(s))
  {
    TrimRightCuts(s);
    TrimLeftCuts(TrimRight(s));
    var t, r := TrimRight(s), Strip(s);
    if r != "" {
      assert r[|r| - 1] == t[|t| - 1];
    }
  }

  lemma Assoc<T>(a: seq<T>, b: seq<T>, c: seq<T>)
    ensures (a + b) + c == a + (b + c)
  {
  }

  /** Trailing white space does not matter to `rstrip`. */
  lemma {:induction false} TrimRightOfPadded(s: string, pad: string)
    requires s == "" || !IsSpace(s[|s| - 1])
    requires forall i :: 0 <= i < |pad| ==> IsSpace(pad[i])
    ensures TrimRight(s + pad) == s
    decreases |pad|
  {
    if pad == "" {
      assert s + pad == s;
    } else {
      assert (s + pad)[..|s + pad| - 1] == s + pad[..|pad| - 1];
      TrimRightOfPadded(s, pad[..|pad| - 1]);
    }
  }

  // ---------------------------------------------------------------------------------------
  // Lines
  // ---------------------------------------------------------------------------------------

  /** The length of the first line. */
  function LineLength(s: string): (n: nat)
    ensures n <= |s|
    ensures OneLine(s[..n])
    ensures n < |s| ==> IsBreak(s[n])
  {
    if s == "" || IsBreak(s[0]) then 0
    else
      var n := 1 + LineLength(s[1..]);
      assert s[..n] == [s[0]] + s[1..][..n - 1];
      n
  }

  /** How many characters end the first line: `\r\n` counts as one break. */
  function BreakLength(s: string, n: nat): (k: nat)
    requires n < |s|
    ensures 1 <= k <= 2 && n + k <= |s|
  {
    if s[n] == '\r' && n + 1 < |s| && s[n + 1] == '\n' then 2 else 1
  }

  /** `str.splitlines`. */
  function SplitLines(s: string): (lines: seq<string>)
    ensures forall i :: 0 <= i < |lines| ==> OneLine(lines[i])
    decreases |s|
  {
    if s == "" then []
    else
      var n := LineLength(s);
      if n == |s| then
        assert s[..n] == s;
        [s]
      else [s[..n]] + SplitLines(s[n + BreakLength(s, n)..])
  }

  /** Every line followed by its break. */
  function Broken(lines: seq<string>, breaks: seq<string>): string
    requires |lines| == |breaks|
  {
    if lines == [] then "" else lines[0] + breaks[0] + Broken(lines[1..], breaks[1..])
  }

  /** A line break as it stands in the text. */
  predicate BreakText(b: string) {
    b == "\r\n" || (|b| == 1 && IsBreak(b[0]))
  }

  /** Every line has a break, only the last one may have none, and no `\r\n` is taken for two breaks. */
  predicate BreaksOf(lines: seq<string>, breaks: seq<string>) {
    && |breaks| == |lines|
    && (forall k :: 0 <= k < |breaks| ==> BreakText(breaks[k]) || (k == |breaks| - 1 && breaks[k] == "" && lines[k] != ""))
    && (forall k :: 0 <= k < |breaks| - 1 && breaks[k] == "\r" && lines[k + 1] == "" ==> breaks[k + 1] != "\n")
  }

  lemma BreaksOfMore(line: string, b: string, lines: seq<string>, breaks: seq<string>)
    requires BreaksOf(lines, breaks) && BreakText(b)
    requires b == "\r" && lines != [] && lines[0] == "" ==> breaks[0] != "\n"
    ensures BreaksOf([line] + lines, [b] + breaks)
    ensures Broken([line] + lines, [b] + breaks) == line + b + Broken(lines, breaks)
  {
    var all, allBreaks := [line] + lines, [b] + breaks;
    assert all[1..] == lines && allBreaks[1..] == breaks;
    forall k | 0 <= k < |allBreaks|
      ensures BreakText(allBreaks[k]) || (k == |allBreaks| - 1 && allBreaks[k] == "" && all[k] != "")
    {
      assert k > 0 ==> allBreaks[k] == breaks[k - 1] && all[k] == lines[k - 1];
    }
    forall k | 0 <= k < |allBreaks| - 1 && allBreaks[k] == "\r" && all[k + 1] == "" ensures allBreaks[k + 1] != "\n" {
      assert all[k + 1] == lines[k] && allBreaks[k + 1] == breaks[k];
      assert k > 0 ==> allBreaks[k] == breaks[k - 1];
    }
  }

  lemma FirstBreak(s: string, n: nat)
    requires n < |s| && IsBreak(s[n])
    ensures var k := BreakLength(s, n); BreakText(s[n..n + k]) && s == s[..n] + s[n..n + k] + s[n + k..]
  {
    var k := BreakLength(s, n);
    assert k == 2 ==> s[n..n + k] == "\r\n";
  }

  lemma NoHalfBreak(s: string, n: nat, lines: seq<string>, breaks: seq<string>)
    requires n < |s| && |lines| == |breaks| && Broken(lines, breaks) == s[n + BreakLength(s, n)..]
    ensures s[n..n + BreakLength(s, n)] == "\r" && lines != [] && lines[0] == "" ==> breaks[0] != "\n"
  {
    assert lines != [] ==> Broken(lines, breaks) == lines[0] + breaks[0] + Broken(lines[1..], breaks[1..]);
  }

  /** The lines and their breaks are the text, character for character. */
  lemma {:induction false} SplitLinesKeepsText(s: string) returns (breaks: seq<string>)
    ensures BreaksOf(SplitLines(s), breaks) && Broken(SplitLines(s), breaks) == s
    decreases |s|
  {
    if s == "" {
      return [];
    }
    var n := LineLength(s);
    if n == |s| {
      LastLine(s);
      return [""];
    }
    var k := BreakLength(s, n);
    var more := SplitLinesKeepsText(s[n + k..]);
    FirstBreak(s, n);
    NoHalfBreak(s, n, SplitLines(s[n + k..]), more);
    BreaksOfMore(s[..n], s[n..n + k], SplitLines(s[n + k..]), more);
    breaks := [s[n..n + k]] + more;
  }

  lemma LastLine(s: string)
    requires s != ""
    ensures BreaksOf([s], [""]) && Broken([s], [""]) == s
  {
    assert [s][1..] == [] && [""][1..] == [];
  }

  /** Every line followed by a newline. */
  function Unlines(lines: seq<string>): string {
    if lines == [] then "" else lines[0] + "\n" + Unlines(lines[1..])
  }

  /** `sep.join(parts)`. */
  function Join(sep: string, parts: seq<string>): string {
    if parts == [] then ""
    else if |parts| == 1 then parts[0]
    else parts[0] + sep + Join(sep, parts[1..])
  }

  lemma {:induction false} LineLengthOf(line: string, rest: string)
    requires OneLine(line) && (rest == "" || IsBreak(rest[0]))
    ensures LineLength(line + rest) == |line|
    decreases |line|
  {
    if line == "" {
      assert line + rest == rest;
    } else {
      assert (line + rest)[1..] == line[1..] + rest;
      LineLengthOf(line[1..], rest);
    }
  }

  /** Lines printed with newlines are read back. */
  lemma {:induction false} SplitLinesOfUnlines(lines: seq<string>)
    requires forall i :: 0 <= i < |lines| ==> OneLine(lines[i])
    ensures SplitLines(Unlines(lines)) == lines
    decreases |lines|
  {
    if lines != [] {
      var rest := "\n" + Unlines(lines[1..]);
      var s := Unlines(lines);
      assert s == lines[0] + rest;
      LineLengthOf(lines[0], rest);
      assert s[..|lines[0]|] == lines[0] && s[|lines[0]|] == '\n';
      assert s[|lines[0]| + 1..] == Unlines(lines[1..]);
      SplitLinesOfUnlines(lines[1..]);
    }
  }

  lemma {:induction false} UnlinesConcat(a: seq<string>, b: seq<string>)
    ensures Unlines(a + b) == Unlines(a) + Unlines(b)
    decreases |a|
  {
    if a == [] {
      assert a + b == b;
    } else {
      assert (a + b)[1..] == a[1..] + b;
      UnlinesConcat(a[1..], b);
    }
  }

  lemma {:induction false} UnlinesIsJoin(lines: seq<string>)
    requires lines != []
    ensures Unlines(lines) == Join("\n", lines) + "\n"
    decreases |lines|
  {
    if |lines| > 1 {
      UnlinesIsJoin(lines[1..]);
    }
  }

  /** Appending to the last line appends to the joined text. */
  lemma {:induction false} JoinExtendLast(sep: string, lines: seq<string>, d: string)
    requires lines != []
    ensures Join(sep, lines[|lines| - 1 := lines[|lines| - 1] + d]) == Join(sep, lines) + d
    decreases |lines|
  {
    var more := lines[|lines| - 1 := lines[|lines| - 1] + d];
    if |lines| > 1 {
      assert more[1..] == lines[1..][|lines| - 2 := lines[1..][|lines| - 2] + d];
      JoinExtendLast(sep, lines[1..], d);
      assert more[0] == lines[0];
    }
  }
}

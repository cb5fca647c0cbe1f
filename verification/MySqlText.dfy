/**
 SQL text: string literals as MySQL reads them (MySQL 8.0 Reference Manual, section 11.1.1), and
 the statement splitter of `auth_harness/perms/service.py`.
 */
module MySqlText {
  import opened Text

  // ---------------------------------------------------------------------------------------
  // Escaping
  // ---------------------------------------------------------------------------------------

  /** `s.replace(c, by)` for a one-character pattern. */
  function Replace(s: string, c: char, replacement: string): string {
    if s == "" then "" else (if s[0] == c then replacement else [s[0]]) + Replace(s[1..], c, replacement)
  }

  /** `_escape`: two replacements, one after the other. */
  function Escape(value: string): string {
    Replace(Replace(value, '\\', "\\\\"), '\'', "\\'")
  }

  /** What the two replacements make of one character. */
  function EscapeChar(c: char): string {
    if c == '\\' then "\\\\" else if c == '\'' then "\\'" else [c]
  }

  /** The per-character reading of `_escape`. */
  function EscapeEach(s: string): string {
    if s == "" then "" else EscapeChar(s[0]) + EscapeEach(s[1..])
  }

  lemma {:induction false} ReplaceConcat(a: string, b: string, c: char, replacement: string)
    ensures Replace(a + b, c, replacement) == Replace(a, c, replacement) + Replace(b, c, replacement)
    decreases |a|
  {
    if a == "" {
      assert a + b == b;
    } else {
      assert (a + b)[1..] == a[1..] + b;
      ReplaceConcat(a[1..], b, c, replacement);
    }
  }

  /** The chained replacements never touch each other's output. */
  lemma {:induction false} EscapeIsPerCharacter(s: string)
    ensures Escape(s) == EscapeEach(s)
    decreases |s|
  {
    if s != "" {
      var first := if s[0] == '\\' then "\\\\" else [s[0]];
      ReplaceConcat(first, Replace(s[1..], '\\', "\\\\"), '\'', "\\'");
      assert Replace(first, '\'', "\\'") == EscapeChar(s[0]) by {
        if s[0] == '\\' {
          assert first[1..] == "\\" && first[1..][1..] == "";
        } else {
          assert first[1..] == "";
        }
      }
      EscapeIsPerCharacter(s[1..]);
    }
  }

  // ---------------------------------------------------------------------------------------
  // Reading literals
  // ---------------------------------------------------------------------------------------

  datatype Lexed = Lexed(value: string, rest: string) | Unterminated

  /** The characters an escape sequence stands for. */
  function EscapeSequence(c: char): string {
    match c
    case '0' => "\0"
    case 'b' => "\U{8}"
    case 'n' => "\n"
    case 'r' => "\r"
    case 't' => "\t"
    case 'Z' => "\U{1a}"
    case '%' => "\\%"
    case '_' => "\\_"
    case _ => [c]
  }

  /** The escape sequences of table 11.1 of the manual; a backslash before any other character is dropped. */
  lemma EscapeSequenceTable(c: char)
    ensures EscapeSequence('0') == ['\0'] && EscapeSequence('b') == ['\U{8}'] && EscapeSequence('n') == ['\n']
    ensures EscapeSequence('r') == ['\r'] && EscapeSequence('t') == ['\t'] && EscapeSequence('Z') == ['\U{1a}']
    ensures EscapeSequence('%') == ['\\', '%'] && EscapeSequence('_') == ['\\', '_']
    ensures c !in ['0', 'b', 'n', 'r', 't', 'Z', '%', '_'] ==> EscapeSequence(c) == [c]
  {
  }

  function Prepend(s: string, l: Lexed): Lexed {
    if l.Lexed? then Lexed(s + l.value, l.rest) else l
  }

  /** Reads a literal from behind its opening quote. */
  function LexLiteral(s: string): Lexed
    decreases |s|
  {
    if s == "" then Unterminated
    else if s[0] == '\\' then
      if |s| == 1 then Unterminated else Prepend(EscapeSequence(s[1]), LexLiteral(s[2..]))
    else if s[0] == '\'' then
      if |s| > 1 && s[1] == '\'' then Prepend("'", LexLiteral(s[2..])) else Lexed("", s[1..])
    else Prepend([s[0]], LexLiteral(s[1..]))
  }

  /** Inside a literal two quotes stand for one, wherever they are; one quote ends it. */
  lemma QuotesAreRead(more: string)
    ensures LexLiteral("''" + more) == Prepend("'", LexLiteral(more))
    ensures more == "" || more[0] != '\'' ==> LexLiteral("'" + more) == Lexed("", more)
    ensures LexLiteral("") == LexLiteral("\\") == Unterminated
  {
    assert ("''" + more)[2..] == more && ("'" + more)[1..] == more;
  }

  /** What is left behind a literal is shorter. */
  lemma {:induction false} LexLiteralConsumes(s: string)
    ensures LexLiteral(s).Lexed? ==> |LexLiteral(s).rest| < |s|
    decreases |s|
  {
    if s == "" {
    } else if s[0] == '\\' {
      if |s| > 1 {
        LexLiteralConsumes(s[2..]);
      }
    } else if s[0] == '\'' {
      if |s| > 1 && s[1] == '\'' {
        LexLiteralConsumes(s[2..]);
      }
    } else {
      LexLiteralConsumes(s[1..]);
    }
  }

  /** The single-quoted literals of a statement, in order. */
  function Literals(s: string): seq<string>
    decreases |s|
  {
    if s == "" then []
    else if s[0] == '\'' then
      LexLiteralConsumes(s[1..]);
      match LexLiteral(s[1..])
      case Lexed(value, rest) => [value] + Literals(rest)
      case Unterminated => []
    else Literals(s[1..])
  }

  /** One escaped character is read as that character. */
  lemma EscapedCharIsRead(c: char, more: string)
    ensures LexLiteral(EscapeChar(c) + more) == Prepend([c], LexLiteral(more))
  {
    var e := EscapeChar(c);
    assert (e + more)[|e|..] == more && (e + more)[0] == e[0];
    if |e| == 2 {
      assert (e + more)[1] == c && EscapeSequence(c) == [c];
    }
  }

  /** MySQL reads an escaped value back, whatever it contains. */
  lemma {:induction false} EscapeIsReadBack(value: string, rest: string)
    requires rest == "" || rest[0] != '\''
    ensures LexLiteral(EscapeEach(value) + "'" + rest) == Lexed(value, rest)
    decreases |value|
  {
    if value == "" {
      var tail := "'" + rest;
      assert EscapeEach(value) + "'" + rest == tail;
      assert tail[1..] == rest;
    } else {
      var e, more := EscapeChar(value[0]), EscapeEach(value[1..]);
      EscapeIsReadBack(value[1..], rest);
      EscapedCharIsRead(value[0], more + "'" + rest);
      Assoc(e, more, "'");
      Assoc(e, more + "'", rest);
      assert value == [value[0]] + value[1..];
    }
  }

  /** `_escape` is injective: two values with one escaped form are equal. */
  lemma EscapeIsInjective(a: string, b: string)
    requires Escape(a) == Escape(b)
    ensures a == b
  {
    EscapeIsPerCharacter(a);
    EscapeIsPerCharacter(b);
    EscapeIsReadBack(a, "");
    EscapeIsReadBack(b, "");
  }

  // ---------------------------------------------------------------------------------------
  // Statements as fragments
  // ---------------------------------------------------------------------------------------

  /** A line of a printed statement: plain SQL text and quoted values. */
  datatype Fragment = Sql(text: string) | Quoted(value: string)

  type Line = seq<Fragment>

  function RenderFragment(f: Fragment): string {
    match f
    case Sql(text) => text
    case Quoted(value) => "'" + Escape(value) + "'"
  }

  function Render(line: Line): string {
    if line == [] then "" else RenderFragment(line[0]) + Render(line[1..])
  }

  function Values(line: Line): seq<string> {
    if line == [] then []
    else (if line[0].Quoted? then [line[0].value] else []) + Values(line[1..])
  }

  predicate QuoteFree(s: string) {
    forall i :: 0 <= i < |s| ==> s[i] != '\''
  }

  /** The plain text has no quote, and plain text stands between any two quoted values. */
  predicate WellSpaced(line: Line) {
    && (line != [] && line[0].Sql? ==> QuoteFree(line[0].text))
    && (line != [] && line[0].Quoted? && |line| > 1 ==> line[1].Sql? && line[1].text != "")
    && (line != [] ==> WellSpaced(line[1..]))
  }

  lemma {:induction false} LiteralsSkip(plain: string, rest: string)
    requires QuoteFree(plain)
    ensures Literals(plain + rest) == Literals(rest)
    decreases |plain|
  {
    if plain == "" {
      assert plain + rest == rest;
    } else {
      assert (plain + rest)[1..] == plain[1..] + rest;
      LiteralsSkip(plain[1..], rest);
    }
  }

  lemma LiteralsAtQuote(s: string, value: string, rest: string)
    requires LexLiteral(s) == Lexed(value, rest)
    ensures Literals("'" + s) == [value] + Literals(rest)
  {
  }

  lemma LiteralsRead(value: string, rest: string)
    requires rest == "" || rest[0] != '\''
    ensures Literals(RenderFragment(Quoted(value)) + rest) == [value] + Literals(rest)
  {
    EscapeIsPerCharacter(value);
    EscapeIsReadBack(value, rest);
    var tail := EscapeEach(value) + "'" + rest;
    LiteralsAtQuote(tail, value, rest);
    assert RenderFragment(Quoted(value)) + rest == "'" + tail;
  }

  /** The literals of a rendered line are its quoted values. */
  lemma {:induction false} LiteralsOfRender(line: Line, rest: string)
    requires WellSpaced(line) && (rest == "" || rest[0] != '\'')
    ensures Literals(Render(line) + rest) == Values(line) + Literals(rest)
    decreases |line|
  {
    if line == [] {
      assert Render(line) + rest == rest;
    } else {
      var tail := Render(line[1..]) + rest;
      Assoc(RenderFragment(line[0]), Render(line[1..]), rest);
      LiteralsOfRender(line[1..], rest);
      if line[0].Sql? {
        LiteralsSkip(line[0].text, tail);
      } else {
        if |line| > 1 {
          assert line[1..][0] == line[1];
          assert tail[0] == line[1].text[0];
        } else {
          assert tail == rest;
        }
        LiteralsRead(line[0].value, tail);
      }
      Assoc(if line[0].Quoted? then [line[0].value] else [], Values(line[1..]), Literals(rest));
    }
  }

  function RenderAll(lines: seq<Line>): seq<string> {
    if lines == [] then [] else [Render(lines[0])] + RenderAll(lines[1..])
  }

  function AllValues(lines: seq<Line>): seq<string> {
    if lines == [] then [] else Values(lines[0]) + AllValues(lines[1..])
  }

  /** The literals of a printed statement are its quoted values, line by line. */
  lemma {:induction false} LiteralsOfLines(lines: seq<Line>)
    requires forall k :: 0 <= k < |lines| ==> WellSpaced(lines[k])
    ensures Literals(Join("\n", RenderAll(lines))) == AllValues(lines)
    decreases |lines|
  {
    if |lines| == 1 {
      assert RenderAll(lines) == [Render(lines[0])];
      LiteralsOfRender(lines[0], "");
      assert Render(lines[0]) + "" == Render(lines[0]);
      assert lines[1..] == [];
    } else if lines != [] {
      var first, more := lines[0], lines[1..];
      LiteralsOfLines(more);
      assert RenderAll(lines)[1..] == RenderAll(more);
      var tail := "\n" + Join("\n", RenderAll(more));
      Assoc(Render(first), "\n", Join("\n", RenderAll(more)));
      LiteralsOfRender(first, tail);
      LiteralsSkip("\n", Join("\n", RenderAll(more)));
    }
  }

  // ---------------------------------------------------------------------------------------
  // Characters a printed line does not contain
  // ---------------------------------------------------------------------------------------

  /** No character of `s` is bad. */
  predicate Avoids(s: string, bad: char -> bool) {
    forall i :: 0 <= i < |s| ==> !bad(s[i])
  }

  predicate IsSemicolon(c: char) {
    c == ';'
  }

  predicate FragmentAvoids(f: Fragment, bad: char -> bool) {
    match f
    case Sql(text) => Avoids(text, bad)
    case Quoted(value) => Avoids(value, bad)
  }

  lemma AvoidsConcat(a: string, b: string, bad: char -> bool)
    ensures Avoids(a + b, bad) <==> Avoids(a, bad) && Avoids(b, bad)
  {
    var s := a + b;
    if Avoids(s, bad) {
      forall i | 0 <= i < |a| ensures !bad(a[i]) {
        assert s[i] == a[i];
      }
      forall i | 0 <= i < |b| ensures !bad(b[i]) {
        assert s[|a| + i] == b[i];
      }
    }
  }

  /** Escaping only adds backslashes. */
  lemma {:induction false} EscapeAvoids(value: string, bad: char -> bool)
    requires !bad('\\') && !bad('\'')
    ensures Avoids(Escape(value), bad) <==> Avoids(value, bad)
    decreases |value|
  {
    EscapeIsPerCharacter(value);
    if value != "" {
      EscapeAvoids(value[1..], bad);
      EscapeIsPerCharacter(value[1..]);
      var c, e := [value[0]], EscapeChar(value[0]);
      assert value == c + value[1..];
      AvoidsConcat(c, value[1..], bad);
      AvoidsConcat(e, EscapeEach(value[1..]), bad);
      assert Avoids(e, bad) <==> Avoids(c, bad) by {
        assert c[0] == value[0] && (|e| == 1 ==> e == c);
      }
    }
  }

  lemma QuotedAvoids(value: string, bad: char -> bool)
    requires !bad('\\') && !bad('\'')
    ensures Avoids(RenderFragment(Quoted(value)), bad) <==> Avoids(value, bad)
  {
    EscapeAvoids(value, bad);
    AvoidsConcat("'" + Escape(value), "'", bad);
    AvoidsConcat("'", Escape(value), bad);
  }

  predicate LineAvoids(line: Line, bad: char -> bool) {
    forall k :: 0 <= k < |line| ==> FragmentAvoids(line[k], bad)
  }

  /** A rendered line contains a bad character exactly when one of its fragments does. */
  lemma {:induction false} RenderAvoids(line: Line, bad: char -> bool)
    requires !bad('\\') && !bad('\'')
    ensures Avoids(Render(line), bad) <==> LineAvoids(line, bad)
    decreases |line|
  {
    if line != [] {
      RenderAvoids(line[1..], bad);
      AvoidsConcat(RenderFragment(line[0]), Render(line[1..]), bad);
      if line[0].Quoted? {
        QuotedAvoids(line[0].value, bad);
      }
      assert line == [line[0]] + line[1..];
    }
  }

  lemma {:induction false} JoinAvoids(sep: string, parts: seq<string>, bad: char -> bool)
    requires Avoids(sep, bad)
    ensures Avoids(Join(sep, parts), bad) <==> forall k :: 0 <= k < |parts| ==> Avoids(parts[k], bad)
    decreases |parts|
  {
    if |parts| > 1 {
      JoinAvoids(sep, parts[1..], bad);
      AvoidsConcat(parts[0] + sep, Join(sep, parts[1..]), bad);
      AvoidsConcat(parts[0], sep, bad);
      assert parts == [parts[0]] + parts[1..];
    }
  }

  // ---------------------------------------------------------------------------------------
  // Splitting into statements
  // ---------------------------------------------------------------------------------------

  /** `s.split(c)`. */
  function SplitOn(s: string, c: char): (parts: seq<string>)
    ensures parts != []
  {
    if s == "" then [""]
    else
      var more := SplitOn(s[1..], c);
      if s[0] == c then [""] + more else [[s[0]] + more[0]] + more[1..]
  }

  /** Joining undoes splitting. */
  lemma {:induction false} JoinOfSplitOn(s: string, c: char)
    ensures Join([c], SplitOn(s, c)) == s
    decreases |s|
  {
    if s != "" {
      JoinOfSplitOn(s[1..], c);
      var more := SplitOn(s[1..], c);
      if s[0] == c {
        assert ([""] + more)[1..] == more;
        assert "" + [c] + s[1..] == s;
      } else {
        assert ([[s[0]] + more[0]] + more[1..])[1..] == more[1..];
        if |more| == 1 {
          assert [s[0]] + s[1..] == s;
        } else {
          assert s == [s[0]] + s[1..];
          assert [s[0]] + more[0] + [c] + Join([c], more[1..]) == [s[0]] + (more[0] + [c] + Join([c], more[1..]));
        }
      }
    }
  }

  /** `[part.strip() for part in parts if part.strip()]`. */
  function StripParts(parts: seq<string>): seq<string> {
    if parts == [] then []
    else (if Strip(parts[0]) == "" then [] else [Strip(parts[0])]) + StripParts(parts[1..])
  }

  /** The lines the splitter keeps: neither blank nor a comment. */
  predicate KeptLine(line: string) {
    Strip(line) != "" && !StartsWith(Strip(line), "--")
  }

  function KeptLines(lines: seq<string>): seq<string> {
    if lines == [] then [] else (if KeptLine(lines[0]) then [lines[0]] else []) + KeptLines(lines[1..])
  }

  /** What `_split_statements` returns. */
  function StatementsOf(sql: string): seq<string> {
    StripParts(SplitOn(Join("\n", KeptLines(SplitLines(sql))), ';'))
  }

  lemma {:induction false} KeptLinesConcat(a: seq<string>, b: seq<string>)
    ensures KeptLines(a + b) == KeptLines(a) + KeptLines(b)
    decreases |a|
  {
    if a == [] {
      assert a + b == b;
    } else {
      assert (a + b)[1..] == a[1..] + b;
      KeptLinesConcat(a[1..], b);
    }
  }

  /** `_split_statements`. */
  method SplitStatements(sql: string) returns (statements: seq<string>)
    ensures statements == StatementsOf(sql)
  {
    var lines := SplitLines(sql);
    var cleaned: seq<string> := [];
    for i := 0 to |lines|
      invariant cleaned == KeptLines(lines[..i])
    {
      var stripped := Strip(lines[i]);
      assert lines[..i + 1] == lines[..i] + [lines[i]];
      KeptLinesConcat(lines[..i], [lines[i]]);
      assert [lines[i]][1..] == [];
      if stripped == "" || StartsWith(stripped, "--") {
      } else {
        cleaned := cleaned + [lines[i]];
      }
    }
    assert lines[..|lines|] == lines;
    statements := StripParts(SplitOn(Join("\n", cleaned), ';'));
  }

  lemma {:induction false} SplitAtSemicolon(a: string, b: string)
    requires Avoids(a, IsSemicolon)
    ensures SplitOn(a + ";" + b, ';') == [a] + SplitOn(b, ';')
    decreases |a|
  {
    var s := a + ";" + b;
    if a == "" {
      assert s[1..] == b && s[0] == ';';
    } else {
      assert s[1..] == a[1..] + ";" + b && s[0] == a[0];
      SplitAtSemicolon(a[1..], b);
      assert a == [a[0]] + a[1..];
    }
  }

  lemma {:induction false} SplitPartsAvoid(s: string)
    ensures forall k :: 0 <= k < |SplitOn(s, ';')| ==> Avoids(SplitOn(s, ';')[k], IsSemicolon)
    decreases |s|
  {
    if s != "" {
      SplitPartsAvoid(s[1..]);
      AvoidsConcat([s[0]], SplitOn(s[1..], ';')[0], IsSemicolon);
    }
  }

  lemma {:induction false} StripPartsAvoid(parts: seq<string>)
    requires forall k :: 0 <= k < |parts| ==> Avoids(parts[k], IsSemicolon)
    ensures forall k :: 0 <= k < |StripParts(parts)| ==> Avoids(StripParts(parts)[k], IsSemicolon)
    decreases |parts|
  {
    if parts != [] {
      StripPartsAvoid(parts[1..]);
      var p := parts[0];
      TrimRightCuts(p);
      TrimLeftCuts(TrimRight(p));
      assert Avoids(TrimRight(p), IsSemicolon);
      assert Avoids(Strip(p), IsSemicolon);
    }
  }

  /** No statement the splitter returns contains a semicolon. */
  lemma StatementsAreSemicolonFree(sql: string)
    ensures forall k :: 0 <= k < |StatementsOf(sql)| ==> Avoids(StatementsOf(sql)[k], IsSemicolon)
  {
    SplitPartsAvoid(Join("\n", KeptLines(SplitLines(sql))));
    StripPartsAvoid(SplitOn(Join("\n", KeptLines(SplitLines(sql))), ';'));
  }
}

/** The DELIMITER-aware script splitter of `auth_harness/infrastructure/db.py`. */
module SqlScript {
  import opened Wrappers
  import opened Text

  const DELIMITER := "DELIMITER "

  /** `c.upper() == k`; the dotless i is the one non-ASCII letter that becomes a letter of DELIMITER. */
  predicate UpperIs(c: char, k: char) {
    c == k || ('A' <= k <= 'Z' && c == k - 'A' + 'a') || (k == 'I' && c == '\U{131}')
  }

  /** `stripped.upper().startswith("DELIMITER ")`. */
  predicate IsDirective(line: string) {
    var s := Strip(line);
    |s| >= |DELIMITER| && forall i :: 0 <= i < |DELIMITER| ==> UpperIs(s[i], DELIMITER[i])
  }

  /** A stripped line that starts with `DELIMITER ` goes on after the blank. */
  lemma ArgumentIsSolid(line: string)
    requires IsDirective(line)
    ensures Solid(TrimLeft(Strip(line)[|DELIMITER|..]))
  {
    StripIsSolid(line);
    var s := Strip(line);
    var tail := s[|DELIMITER|..];
    assert UpperIs(s[|DELIMITER| - 1], DELIMITER[|DELIMITER| - 1]) && s[|DELIMITER| - 1] == ' ';
    assert tail != "" && tail[|tail| - 1] == s[|s| - 1];
    TrimLeftKeepsEnd(tail);
    TrimLeftCuts(tail);
  }

  /** `stripped.split(maxsplit=1)[1]`. */
  function DirectiveArgument(line: string): (d: string)
    requires IsDirective(line)
    ensures Solid(d)
  {
    ArgumentIsSolid(line);
    TrimLeft(Strip(line)[|DELIMITER|..])
  }

  lemma {:induction false} TrimLeftKeepsEnd(s: string)
    requires s != "" && !IsSpace(s[|s| - 1])
    ensures TrimLeft(s) != "" && TrimLeft(s)[|TrimLeft(s)| - 1] == s[|s| - 1]
    decreases |s|
  {
    if IsSpace(s[0]) {
      TrimLeftKeepsEnd(s[1..]);
    }
  }

  /** The buffered text ends the statement on this line. */
  predicate Closes(line: string, d: string) {
    EndsWith(Strip(line), d)
  }

  lemma EndsWithTrans(a: string, b: string, c: string)
    requires EndsWith(a, b) && EndsWith(b, c)
    ensures EndsWith(a, c)
  {
  }

  lemma EndsWithAppended(a: string, b: string, d: string)
    requires EndsWith(b, d)
    ensures EndsWith(a + b, d)
  {
  }

  /** A line is its trimmed part and white space. */
  lemma LineAndPadding(line: string) returns (pad: string)
    ensures line + "\n" == TrimRight(line) + pad
    ensures forall i :: 0 <= i < |pad| ==> IsSpace(pad[i])
  {
    TrimRightCuts(line);
    pad := line[|TrimRight(line)|..] + "\n";
  }

  /** The end of the line is the end of the buffered text: the ValueError cannot be reached. */
  lemma ClosedBufferEndsWithDelimiter(buffer: string, line: string, d: string)
    requires Solid(d) && Closes(line, d)
    ensures EndsWith(TrimRight(buffer + line + "\n"), d)
  {
    var r := TrimRight(line);
    StripIsSolid(line);
    EndsWithTrans(r, Strip(line), d);
    EndsWithAppended(buffer, r, d);
    var pad := LineAndPadding(line);
    Assoc(buffer, line, "\n");
    Assoc(buffer, r, pad);
    LastOfSuffix(buffer + r, d);
    TrimRightOfPadded(buffer + r, pad);
  }

  lemma LastOfSuffix(s: string, d: string)
    requires Solid(d) && EndsWith(s, d)
    ensures s != "" && !IsSpace(s[|s| - 1])
  {
  }

  // ---------------------------------------------------------------------------------------
  // Lines, character by character
  // ---------------------------------------------------------------------------------------

  /** The text of the line, up to trailing white space, ends with `d`. */
  ghost predicate VisiblyEnds(line: string, d: string) {
    exists a, z :: line == a + d + z && Blank(z)
  }

  /** DELIMITER in any mixture of cases, and a blank; the dotless i counts as an i. */
  predicate SpellsDelimiter(word: string) {
    && |word| == 10
    && forall i :: 0 <= i < 10 ==>
         word[i] == "DELIMITER "[i] || word[i] == "delimiter "[i] || ("DELIMITER "[i] == 'I' && word[i] == '\U{131}')
  }

  /** White space, that word, white space, the argument, white space. */
  ghost predicate Declares(line: string, argument: string) {
    exists pad, word, gap, z ::
      && line == pad + word + gap + argument + z && SpellsDelimiter(word)
      && Blank(pad) && Blank(gap) && Blank(z) && Solid(argument)
  }

  lemma ClosingEndsVisibly(line: string, d: string)
    requires Solid(d) && Closes(line, d)
    ensures VisiblyEnds(line, d)
  {
    var pad, z := StripCuts(line);
    var s := Strip(line);
    var a := s[..|s| - |d|];
    assert s == a + d;
    Assoc(pad, a, d);
  }

  lemma VisibleEndCloses(a: string, d: string, z: string)
    requires Solid(d) && Blank(z)
    ensures Closes(a + d + z, d)
  {
    LastOfSuffix(a + d, d);
    TrimRightOfPadded(a + d, z);
    TrimLeftKeepsSuffix(a, d);
  }

  /** A line closes the statement exactly when its visible text ends with the delimiter. */
  lemma ClosesIff(line: string, d: string)
    requires Solid(d)
    ensures Closes(line, d) <==> VisiblyEnds(line, d)
  {
    if Closes(line, d) {
      ClosingEndsVisibly(line, d);
    }
    if VisiblyEnds(line, d) {
      var a, z :| line == a + d + z && Blank(z);
      VisibleEndCloses(a, d, z);
    }
  }

  lemma {:induction false} TrimLeftKeepsSuffix(a: string, d: string)
    requires Solid(d)
    ensures EndsWith(TrimLeft(a + d), d)
    decreases |a|
  {
    if a == "" {
      assert a + d == d;
    } else if IsSpace(a[0]) {
      assert (a + d)[1..] == a[1..] + d;
      TrimLeftKeepsSuffix(a[1..], d);
    }
  }

  lemma {:induction false} TrimLeftOfPadded(pad: string, s: string)
    requires Blank(pad) && Solid(s)
    ensures TrimLeft(pad + s) == s
    decreases |pad|
  {
    if pad == "" {
      assert pad + s == s;
    } else {
      assert (pad + s)[1..] == pad[1..] + s;
      TrimLeftOfPadded(pad[1..], s);
    }
  }

  lemma StripOfPadded(pad: string, s: string, z: string)
    requires Blank(pad) && Blank(z) && Solid(s)
    ensures Strip(pad + s + z) == s
  {
    assert (pad + s)[|pad + s| - 1] == s[|s| - 1];
    TrimRightOfPadded(pad + s, z);
    TrimLeftOfPadded(pad, s);
  }

  /** `word` is DELIMITER and a blank, in any case. */
  predicate IsKeyword(word: string) {
    |word| == |DELIMITER| && forall i :: 0 <= i < |DELIMITER| ==> UpperIs(word[i], DELIMITER[i])
  }

  lemma KeywordIff(word: string)
    ensures IsKeyword(word) <==> SpellsDelimiter(word)
  {
    if |word| == 10 {
      forall i | 0 <= i < 10
        ensures UpperIs(word[i], DELIMITER[i]) <==>
                word[i] == "DELIMITER "[i] || word[i] == "delimiter "[i] || ("DELIMITER "[i] == 'I' && word[i] == '\U{131}')
      {
        assert i == 9 ==> DELIMITER[i] == ' ';
      }
    }
  }

  lemma DeclaringLine(pad: string, word: string, gap: string, argument: string, z: string)
    requires Blank(pad) && Blank(gap) && Blank(z) && Solid(argument) && IsKeyword(word)
    ensures var line := pad + word + gap + argument + z; IsDirective(line) && DirectiveArgument(line) == argument
  {
    var core := word + gap + argument;
    assert core[0] == word[0] && UpperIs(word[0], DELIMITER[0]);
    assert core[|core| - 1] == argument[|argument| - 1];
    assert pad + word + gap + argument + z == pad + core + z;
    StripOfPadded(pad, core, z);
    assert core[..|DELIMITER|] == word && core[|DELIMITER|..] == gap + argument;
    TrimLeftOfPadded(gap, argument);
  }

  lemma DirectiveDeclares(line: string)
    requires IsDirective(line)
    ensures Declares(line, DirectiveArgument(line))
  {
    var pad, z := StripCuts(line);
    var s := Strip(line);
    var word, tail := s[..|DELIMITER|], s[|DELIMITER|..];
    var gap := TrimLeftSplit(tail);
    KeywordIff(word);
    var d := DirectiveArgument(line);
    DeclaringParts(pad, word, gap, d, z, s, tail);
  }

  lemma DeclaringParts(pad: string, word: string, gap: string, d: string, z: string, s: string, tail: string)
    requires SpellsDelimiter(word) && Blank(pad) && Blank(gap) && Blank(z) && Solid(d)
    requires s == word + tail && tail == gap + d
    ensures Declares(pad + s + z, d)
  {
    Assoc(word, gap, d);
    Assoc(pad, word + gap, d);
    Assoc(pad, word, gap);
    assert pad + s + z == pad + word + gap + d + z;
  }

  lemma DeclaredIsRead(line: string, d: string)
    requires Declares(line, d)
    ensures IsDirective(line) && DirectiveArgument(line) == d
  {
    var pad, word, gap, z :|
      && line == pad + word + gap + d + z && SpellsDelimiter(word)
      && Blank(pad) && Blank(gap) && Blank(z) && Solid(d);
    KeywordIff(word);
    DeclaringLine(pad, word, gap, d, z);
  }

  /** A line is a directive exactly when it declares a delimiter, and then that one is read. */
  lemma DirectiveIff(line: string)
    ensures IsDirective(line) <==> exists d :: Declares(line, d)
    ensures forall d :: Declares(line, d) ==> IsDirective(line) && DirectiveArgument(line) == d
  {
    if IsDirective(line) {
      DirectiveDeclares(line);
    }
    forall d | Declares(line, d) ensures IsDirective(line) && DirectiveArgument(line) == d {
      DeclaredIsRead(line, d);
    }
  }

  // ---------------------------------------------------------------------------------------
  // What a split is
  // ---------------------------------------------------------------------------------------

  /** A piece of the script as it stands in the file, and the delimiter that closed it, if any. */
  datatype Chunk = Chunk(raw: string, closedBy: string)

  /** What one line does: the pieces it completes, the delimiter and the buffer it leaves. */
  datatype Step = Step(chunks: seq<Chunk>, delimiter: string, buffer: string)

  function Next(line: string, d: string, buffer: string): (n: Step)
    requires Solid(d)
    ensures Solid(n.delimiter)
  {
    if IsDirective(line) then Step([Chunk(buffer, "")], DirectiveArgument(line), "")
    else
      var raw := buffer + line + "\n";
      if Closes(line, d) then Step([Chunk(raw, d)], d, "") else Step([], d, raw)
  }

  /** The pieces into which the remaining lines are cut, given the delimiter and the buffer. */
  function Chunks(lines: seq<string>, d: string, buffer: string): seq<Chunk>
    requires Solid(d)
    decreases |lines|
  {
    if lines == [] then [Chunk(buffer, "")]
    else
      var n := Next(lines[0], d, buffer);
      n.chunks + Chunks(lines[1..], n.delimiter, n.buffer)
  }

  /** Edge white space and a custom delimiter are all a piece loses. */
  function Trimmed(c: Chunk): string {
    var kept := TrimRight(c.raw);
    if c.closedBy != "" && c.closedBy != ";" && EndsWith(kept, c.closedBy) then Strip(kept[..|kept| - |c.closedBy|])
    else Strip(c.raw)
  }

  /** The statement a piece contributes: none when nothing is left of it. */
  function Statements(chunks: seq<Chunk>): seq<string> {
    if chunks == [] then []
    else (if Trimmed(chunks[0]) == "" then [] else [Trimmed(chunks[0])]) + Statements(chunks[1..])
  }

  /** The statements of a script. */
  function Split(lines: seq<string>, d: string, buffer: string): seq<string>
    requires Solid(d)
  {
    Statements(Chunks(lines, d, buffer))
  }

  lemma {:induction false} StatementsConcat(a: seq<Chunk>, b: seq<Chunk>)
    ensures Statements(a + b) == Statements(a) + Statements(b)
    decreases |a|
  {
    if a == [] {
      assert a + b == b;
    } else {
      assert (a + b)[1..] == a[1..] + b;
      StatementsConcat(a[1..], b);
    }
  }

  /** One line at a time. */
  lemma SplitStep(line: string, rest: seq<string>, d: string, buffer: string)
    requires Solid(d)
    ensures var n := Next(line, d, buffer);
            Split([line] + rest, d, buffer) == Statements(n.chunks) + Split(rest, n.delimiter, n.buffer)
  {
    assert ([line] + rest)[1..] == rest;
    var n := Next(line, d, buffer);
    StatementsConcat(n.chunks, Chunks(rest, n.delimiter, n.buffer));
  }

  lemma OneStatement(c: Chunk)
    ensures Statements([c]) == if Trimmed(c) == "" then [] else [Trimmed(c)]
  {
  }

  /** The pieces completed by these lines, and the delimiter and buffer they leave. */
  function After(lines: seq<string>): (s: Step)
    ensures Solid(s.delimiter)
    decreases |lines|
  {
    if lines == [] then Step([], ";", "")
    else
      var s := After(lines[..|lines| - 1]);
      var n := Next(lines[|lines| - 1], s.delimiter, s.buffer);
      Step(s.chunks + n.chunks, n.delimiter, n.buffer)
  }

  lemma ChunksStep(line: string, rest: seq<string>, d: string, buffer: string)
    requires Solid(d)
    ensures var n := Next(line, d, buffer);
            Chunks([line] + rest, d, buffer) == n.chunks + Chunks(rest, n.delimiter, n.buffer)
  {
    assert ([line] + rest)[1..] == rest;
  }

  lemma {:induction false} ChunksAfter(before: seq<string>, rest: seq<string>)
    ensures var s := After(before);
            Chunks(before + rest, ";", "") == s.chunks + Chunks(rest, s.delimiter, s.buffer)
    decreases |before|
  {
    if before == [] {
      assert before + rest == rest;
    } else {
      var init, last := before[..|before| - 1], before[|before| - 1];
      assert before == init + [last];
      Assoc(init, [last], rest);
      ChunksAfter(init, [last] + rest);
      var s := After(init);
      ChunksStep(last, rest, s.delimiter, s.buffer);
      var n := Next(last, s.delimiter, s.buffer);
      Assoc(s.chunks, n.chunks, Chunks(rest, n.delimiter, n.buffer));
    }
  }

  /** The pieces of a whole script. */
  lemma ChunksOfScript(lines: seq<string>)
    ensures Chunks(lines, ";", "") == After(lines).chunks + [Chunk(After(lines).buffer, "")]
  {
    ChunksAfter(lines, []);
    assert lines + [] == lines;
  }

  /** What one line does, by its characters. */
  lemma LineDecides(line: string, d: string, buffer: string)
    requires Solid(d)
    ensures forall argument :: Declares(line, argument) ==> Next(line, d, buffer) == Step([Chunk(buffer, "")], argument, "")
    ensures (forall argument :: !Declares(line, argument)) ==>
              Next(line, d, buffer) == if VisiblyEnds(line, d) then Step([Chunk(buffer + line + "\n", d)], d, "")
                                       else Step([], d, buffer + line + "\n")
  {
    DirectiveIff(line);
    ClosesIff(line, d);
  }

  /**
   Where any script is cut, line by line: a declaration ends the piece in front of it and changes the
   delimiter; a line whose visible text ends with the current delimiter ends a piece; every other line
   only adds itself to the piece.  The last piece is what is left.
   */
  lemma LinesDecidePieces(lines: seq<string>, k: nat)
    requires k < |lines|
    ensures After([]) == Step([], ";", "") && Chunks(lines, ";", "") == After(lines).chunks + [Chunk(After(lines).buffer, "")]
    ensures var line, s, t := lines[k], After(lines[..k]), After(lines[..k + 1]);
            && (forall d :: Declares(line, d) ==> t == Step(s.chunks + [Chunk(s.buffer, "")], d, ""))
            && ((forall d :: !Declares(line, d)) ==>
                  t == if VisiblyEnds(line, s.delimiter) then Step(s.chunks + [Chunk(s.buffer + line + "\n", s.delimiter)], s.delimiter, "")
                       else Step(s.chunks, s.delimiter, s.buffer + line + "\n"))
  {
    ChunksOfScript(lines);
    var s := After(lines[..k]);
    AfterOneMore(lines, k);
    LineDecides(lines[k], s.delimiter, s.buffer);
    assert s.chunks + [] == s.chunks;
  }

  lemma AfterOneMore(lines: seq<string>, k: nat)
    requires k < |lines|
    ensures var s := After(lines[..k]);
            var n := Next(lines[k], s.delimiter, s.buffer);
            After(lines[..k + 1]) == Step(s.chunks + n.chunks, n.delimiter, n.buffer)
  {
    assert lines[..k + 1][..k] == lines[..k];
  }

  /** A completed statement: the custom delimiter cut off behind the check that it is there. */
  method CloseStatement(more: string, delimiter: string) returns (r: Result<string, string>)
    requires delimiter != "" && EndsWith(TrimRight(more), delimiter)
    ensures r == Ok(Trimmed(Chunk(more, delimiter)))
  {
    var chunk := TrimRight(more);
    TrimRightIdempotent(more);
    if delimiter != ";" {
      if !EndsWith(chunk, delimiter) {
        return Err("statement does not end with the delimiter");
      }
      return Ok(Strip(chunk[..|chunk| - |delimiter|]));
    }
    r := Ok(Strip(chunk));
  }

  /** The body of the loop: what one line adds to the statements. */
  method ReadLine(line: string, delimiter: string, buffer: string) returns (r: Result<Step, string>, added: seq<string>)
    requires Solid(delimiter)
    ensures r == Ok(Next(line, delimiter, buffer)) && added == Statements(Next(line, delimiter, buffer).chunks)
  {
    if IsDirective(line) {
      var pending := Strip(buffer);
      OneStatement(Chunk(buffer, ""));
      return Ok(Step([Chunk(buffer, "")], DirectiveArgument(line), "")), if pending != "" then [pending] else [];
    }
    var more := buffer + line + "\n";
    if !EndsWith(Strip(line), delimiter) {
      return Ok(Step([], delimiter, more)), [];
    }
    ClosedBufferEndsWithDelimiter(buffer, line, delimiter);
    OneStatement(Chunk(more, delimiter));
    var closed := CloseStatement(more, delimiter);
    match closed
    case Err(e) => return Err(e), [];
    case Ok(chunk) => return Ok(Step([Chunk(more, delimiter)], delimiter, "")), if chunk != "" then [chunk] else [];
  }

  /** What is left in the buffer at the end of the script. */
  lemma SplitEnd(d: string, buffer: string)
    requires Solid(d)
    ensures Split([], d, buffer) == if Strip(buffer) == "" then [] else [Strip(buffer)]
  {
    OneStatement(Chunk(buffer, ""));
  }

  /** The state of the loop after the first `i` lines. */
  ghost predicate Read(lines: seq<string>, i: nat, delimiter: string, buffer: string, statements: seq<string>) {
    && i <= |lines| && Solid(delimiter)
    && statements + Split(lines[i..], delimiter, buffer) == Split(lines, ";", "")
  }

  lemma ReadOneMore(lines: seq<string>, i: nat, delimiter: string, buffer: string, statements: seq<string>)
    requires i < |lines| && Read(lines, i, delimiter, buffer, statements)
    ensures var n := Next(lines[i], delimiter, buffer);
            Read(lines, i + 1, n.delimiter, n.buffer, statements + Statements(n.chunks))
  {
    var n := Next(lines[i], delimiter, buffer);
    assert lines[i..] == [lines[i]] + lines[i + 1..];
    SplitStep(lines[i], lines[i + 1..], delimiter, buffer);
    Assoc(statements, Statements(n.chunks), Split(lines[i + 1..], n.delimiter, n.buffer));
  }

  /** `_split_sql_statements`; `Err` is the ValueError at db.py:108, which no content raises. */
  method SplitSqlStatements(content: string) returns (r: Result<seq<string>, string>)
    ensures r == Ok(Split(SplitLines(content), ";", ""))
    ensures r.Ok? && Conserved(PlainText(SplitLines(content)), r.value, Declared(SplitLines(content)))
  {
    StatementsConserveText(SplitLines(content));
    var delimiter := ";";
    var statements: seq<string> := [];
    var buffer := "";
    var lines := SplitLines(content);
    assert lines[0..] == lines;
    for i := 0 to |lines|
      invariant Read(lines, i, delimiter, buffer, statements)
    {
      ReadOneMore(lines, i, delimiter, buffer, statements);
      var step, added := ReadLine(lines[i], delimiter, buffer);
      match step {
        case Err(e) =>
          return Err(e);
        case Ok(n) =>
          statements := statements + added;
          delimiter, buffer := n.delimiter, n.buffer;
      }
    }
    assert lines[|lines|..] == [];
    SplitEnd(delimiter, buffer);
    var tail := Strip(buffer);
    assert statements + [] == statements;
    if tail != "" {
      statements := statements + [tail];
    }
    r := Ok(statements);
  }

  // ---------------------------------------------------------------------------------------
  // Conservation
  // ---------------------------------------------------------------------------------------

  function LineText(line: string): string {
    if IsDirective(line) then "" else line + "\n"
  }

  /** The script without its directive lines. */
  function PlainText(lines: seq<string>): string {
    if lines == [] then "" else LineText(lines[0]) + PlainText(lines[1..])
  }

  function RawText(chunks: seq<Chunk>): string {
    if chunks == [] then "" else chunks[0].raw + RawText(chunks[1..])
  }

  lemma {:induction false} RawTextConcat(a: seq<Chunk>, b: seq<Chunk>)
    ensures RawText(a + b) == RawText(a) + RawText(b)
    decreases |a|
  {
    if a == [] {
      assert a + b == b;
    } else {
      assert (a + b)[1..] == a[1..] + b;
      RawTextConcat(a[1..], b);
    }
  }

  /** Every piece closed by a delimiter ends with it, up to white space. */
  predicate ProperlyClosed(c: Chunk) {
    c.closedBy != "" ==> EndsWith(TrimRight(c.raw), c.closedBy)
  }

  /** A line adds itself to the text, a directive adds nothing. */
  lemma StepConserves(line: string, d: string, buffer: string)
    requires Solid(d)
    ensures var n := Next(line, d, buffer);
            && RawText(n.chunks) + n.buffer == buffer + LineText(line)
            && forall c :: c in n.chunks ==> ProperlyClosed(c)
  {
    var n := Next(line, d, buffer);
    assert n.chunks != [] ==> n.chunks[1..] == [];
    if !IsDirective(line) && Closes(line, d) {
      ClosedBufferEndsWithDelimiter(buffer, line, d);
    }
  }

  /**
   Conservation: the pieces put together are the script without its directive lines, character
   for character.  (The statements are these pieces trimmed, in order, without the empty ones.)
   */
  lemma {:induction false} SplitConservesText(lines: seq<string>, d: string, buffer: string)
    requires Solid(d)
    ensures RawText(Chunks(lines, d, buffer)) == buffer + PlainText(lines)
    decreases |lines|
  {
    if lines == [] {
      RawTextConcat([Chunk(buffer, "")], []);
    } else {
      var line, more := lines[0], lines[1..];
      var n := Next(line, d, buffer);
      SplitConservesText(more, n.delimiter, n.buffer);
      StepConserves(line, d, buffer);
      RawTextConcat(n.chunks, Chunks(more, n.delimiter, n.buffer));
      Assoc(RawText(n.chunks), n.buffer, PlainText(more));
      Assoc(buffer, LineText(line), PlainText(more));
      assert "" + PlainText(more) == PlainText(more);
    }
  }

  /** The closing delimiter that is cut off: any but `;`. */
  function CutDelimiter(c: Chunk): string {
    if c.closedBy == ";" then "" else c.closedBy
  }

  /** The custom delimiters a script declares. */
  function Declared(lines: seq<string>): set<string> {
    if lines == [] then {}
    else (if IsDirective(lines[0]) && DirectiveArgument(lines[0]) != ";" then {DirectiveArgument(lines[0])} else {}) + Declared(lines[1..])
  }

  /** Every piece closed by a delimiter ends with it, and that delimiter is `;`, the current one or a declared one. */
  lemma {:induction false} ChunksAreProperlyClosed(lines: seq<string>, d: string, buffer: string)
    requires Solid(d)
    ensures forall c :: c in Chunks(lines, d, buffer) ==> ProperlyClosed(c) && CutDelimiter(c) in Declared(lines) + {"", CutDelimiter(Chunk("", d))}
    decreases |lines|
  {
    if lines != [] {
      var n := Next(lines[0], d, buffer);
      ChunksAreProperlyClosed(lines[1..], n.delimiter, n.buffer);
      StepConserves(lines[0], d, buffer);
    }
  }

  /** Trimming a piece removes white space at both ends and a custom delimiter that closed it, and nothing else. */
  lemma TrimmedCuts(c: Chunk) returns (a: string, m: string, z: string)
    requires ProperlyClosed(c)
    ensures c.raw == a + Trimmed(c) + m + CutDelimiter(c) + z && Blank(a) && Blank(m) && Blank(z)
  {
    if CutDelimiter(c) == "" {
      a, z := StripCuts(c.raw);
      m := "";
      assert a + Trimmed(c) + m + CutDelimiter(c) == a + Trimmed(c);
    } else {
      z := TrimRightSplit(c.raw);
      a, m := StripCuts(BeforeSuffix(TrimRight(c.raw), c.closedBy));
    }
  }

  function BeforeSuffix(s: string, d: string): (t: string)
    requires EndsWith(s, d)
    ensures s == t + d
  {
    s[..|s| - |d|]
  }

  function Concat(parts: seq<string>): string {
    if parts == [] then "" else parts[0] + Concat(parts[1..])
  }

  lemma {:induction false} ConcatAppend(a: seq<string>, b: seq<string>)
    ensures Concat(a + b) == Concat(a) + Concat(b)
    decreases |a|
  {
    if a == [] {
      assert a + b == b;
    } else {
      assert (a + b)[1..] == a[1..] + b;
      ConcatAppend(a[1..], b);
      Assoc(a[0], Concat(a[1..]), Concat(b));
    }
  }

  /** White space and delimiters, in any order. */
  ghost predicate Filler(g: string, delimiters: set<string>) {
    exists parts: seq<string> :: Concat(parts) == g && forall p :: p in parts ==> Blank(p) || p in delimiters
  }

  lemma FillerConcat(a: string, b: string, delimiters: set<string>)
    requires Filler(a, delimiters) && Filler(b, delimiters)
    ensures Filler(a + b, delimiters)
  {
    var x: seq<string> :| Concat(x) == a && forall p :: p in x ==> Blank(p) || p in delimiters;
    var y: seq<string> :| Concat(y) == b && forall p :: p in y ==> Blank(p) || p in delimiters;
    ConcatAppend(x, y);
    assert forall p :: p in x + y ==> p in x || p in y;
  }

  lemma OneFiller(g: string, delimiters: set<string>)
    requires Blank(g) || g in delimiters
    ensures Filler(g, delimiters)
  {
    assert Concat([g]) == g + Concat([g][1..]) && [g][1..] == [];
  }

  /** Statements with the text between and around them. */
  function Weave(gaps: seq<string>, statements: seq<string>): string
    requires |gaps| == |statements| + 1
    decreases |statements|
  {
    if statements == [] then gaps[0] else gaps[0] + statements[0] + Weave(gaps[1..], statements[1..])
  }

  /** The text is the statements in order, with only white space and delimiters between and around them. */
  ghost predicate Conserved(text: string, statements: seq<string>, delimiters: set<string>) {
    exists gaps: seq<string> :: |gaps| == |statements| + 1 && Weave(gaps, statements) == text
                                && forall k :: 0 <= k < |gaps| ==> Filler(gaps[k], delimiters)
  }

  /** Filler in front of a conserved text belongs to the first gap. */
  lemma FillerInFront(g: string, text: string, statements: seq<string>, delimiters: set<string>)
    requires Filler(g, delimiters) && Conserved(text, statements, delimiters)
    ensures Conserved(g + text, statements, delimiters)
  {
    var gaps: seq<string> :| |gaps| == |statements| + 1 && Weave(gaps, statements) == text
                             && forall k :: 0 <= k < |gaps| ==> Filler(gaps[k], delimiters);
    FillerConcat(g, gaps[0], delimiters);
    var more := gaps[0 := g + gaps[0]];
    if statements != [] {
      assert more[1..] == gaps[1..];
      Assoc(g, gaps[0], statements[0]);
      Assoc(g, gaps[0] + statements[0], Weave(gaps[1..], statements[1..]));
    }
    assert Weave(more, statements) == g + text;
  }

  /** One more statement in front, behind white space. */
  lemma StatementInFront(a: string, statement: string, text: string, statements: seq<string>, delimiters: set<string>)
    requires Filler(a, delimiters) && Conserved(text, statements, delimiters)
    ensures Conserved(a + statement + text, [statement] + statements, delimiters)
  {
    var gaps: seq<string> :| |gaps| == |statements| + 1 && Weave(gaps, statements) == text
                             && forall k :: 0 <= k < |gaps| ==> Filler(gaps[k], delimiters);
    var more, all := [a] + gaps, [statement] + statements;
    assert more[1..] == gaps && all[1..] == statements;
    assert Weave(more, all) == a + statement + text;
  }

  /** The pieces conserve their text in the statements they contribute. */
  lemma {:induction false} ChunksConserve(chunks: seq<Chunk>, delimiters: set<string>)
    requires forall c :: c in chunks ==> ProperlyClosed(c) && CutDelimiter(c) in delimiters + {""}
    ensures Conserved(RawText(chunks), Statements(chunks), delimiters)
    decreases |chunks|
  {
    if chunks == [] {
      OneFiller("", delimiters);
      assert Weave([""], []) == "";
      assert forall k :: 0 <= k < |[""]| ==> Filler([""][k], delimiters);
    } else {
      var c, rest := chunks[0], RawText(chunks[1..]);
      ChunksConserve(chunks[1..], delimiters);
      var a, m, z := TrimmedCuts(c);
      OneFiller(a, delimiters);
      ClosingFiller(m, CutDelimiter(c), z, delimiters);
      Assoc(a + Trimmed(c), m, CutDelimiter(c));
      Assoc(a + Trimmed(c), m + CutDelimiter(c), z);
      ChunkConserves(c, a, m + CutDelimiter(c) + z, rest, Statements(chunks[1..]), delimiters);
    }
  }

  lemma ClosingFiller(m: string, d: string, z: string, delimiters: set<string>)
    requires Blank(m) && Blank(z) && d in delimiters + {""}
    ensures Filler(m + d + z, delimiters)
  {
    OneFiller(m, delimiters);
    OneFiller(z, delimiters);
    OneFiller(d, delimiters);
    FillerConcat(m, d, delimiters);
    FillerConcat(m + d, z, delimiters);
  }

  lemma ChunkConserves(c: Chunk, a: string, tail: string, rest: string, statements: seq<string>, delimiters: set<string>)
    requires c.raw == a + Trimmed(c) + tail && Filler(a, delimiters) && Filler(tail, delimiters)
    requires Conserved(rest, statements, delimiters)
    ensures Conserved(c.raw + rest, (if Trimmed(c) == "" then [] else [Trimmed(c)]) + statements, delimiters)
  {
    FillerInFront(tail, rest, statements, delimiters);
    Assoc(a + Trimmed(c), tail, rest);
    if Trimmed(c) == "" {
      FillerInFront(a, tail + rest, statements, delimiters);
      assert a + Trimmed(c) == a && [] + statements == statements;
    } else {
      StatementInFront(a, Trimmed(c), tail + rest, statements, delimiters);
    }
  }

  /**
   Conservation of what the splitter returns: the script without its directive lines is the
   statements in order, with only white space and declared delimiters between and around them.
   */
  lemma StatementsConserveText(lines: seq<string>)
    ensures Conserved(PlainText(lines), Split(lines, ";", ""), Declared(lines))
  {
    SplitConservesText(lines, ";", "");
    ChunksAreProperlyClosed(lines, ";", "");
    assert "" + PlainText(lines) == PlainText(lines);
    ChunksConserve(Chunks(lines, ";", ""), Declared(lines));
  }

  // ---------------------------------------------------------------------------------------
  // Round trip
  // ---------------------------------------------------------------------------------------

  /** A statement, as the lines it is written on. */
  type Statement = seq<string>

  function StatementText(s: Statement): string {
    Join("\n", s)
  }

  /** A script: statements that end in `;` themselves, and blocks with a delimiter of their own. */
  datatype Section = Plain(statements: seq<Statement>) | Block(delimiter: string, statements: seq<Statement>)

  /** The lines on which a statement is printed: the terminator goes to the end of the last one. */
  function Printed(s: Statement, terminator: string): seq<string> {
    if s == [] then [] else s[|s| - 1 := s[|s| - 1] + terminator]
  }

  /**
   No printed line is a directive, only the last one ends with the delimiter, and the text starts
   and ends visibly.
   */
  ghost predicate WellFormed(s: Statement, terminator: string, d: string) {
    && s != [] && Solid(StatementText(s))
    && (forall i :: 0 <= i < |s| ==> OneLine(s[i]))
    && (forall i, argument :: 0 <= i < |s| ==> !Declares(Printed(s, terminator)[i], argument))
    && (forall i :: 0 <= i < |s| - 1 ==> !VisiblyEnds(s[i], d))
    && (terminator == "" ==> VisiblyEnds(s[|s| - 1], d))
  }

  ghost predicate AllWellFormed(statements: seq<Statement>, terminator: string, d: string) {
    forall k :: 0 <= k < |statements| ==> WellFormed(statements[k], terminator, d)
  }

  ghost predicate WellFormedSection(x: Section) {
    match x
    case Plain(statements) => AllWellFormed(statements, "", ";")
    case Block(d, statements) => Solid(d) && OneLine(d) && d != ";" && AllWellFormed(statements, d, d)
  }

  function PrintStatements(statements: seq<Statement>, terminator: string): seq<string> {
    if statements == [] then [] else Printed(statements[0], terminator) + PrintStatements(statements[1..], terminator)
  }

  function PrintSection(x: Section): seq<string> {
    match x
    case Plain(statements) => PrintStatements(statements, "")
    case Block(d, statements) => [DELIMITER + d] + PrintStatements(statements, d) + [DELIMITER + ";"]
  }

  function PrintScript(script: seq<Section>): seq<string> {
    if script == [] then [] else PrintSection(script[0]) + PrintScript(script[1..])
  }

  function Texts(statements: seq<Statement>): seq<string> {
    if statements == [] then [] else [StatementText(statements[0])] + Texts(statements[1..])
  }

  function ScriptTexts(script: seq<Section>): seq<string> {
    if script == [] then [] else Texts(script[0].statements) + ScriptTexts(script[1..])
  }

  /** The lines before the closing one only fill the buffer. */
  lemma {:induction false} BufferFills(lines: seq<string>, rest: seq<string>, d: string, buffer: string)
    requires Solid(d)
    requires forall i :: 0 <= i < |lines| ==> !IsDirective(lines[i]) && !Closes(lines[i], d)
    ensures Split(lines + rest, d, buffer) == Split(rest, d, buffer + Unlines(lines))
    decreases |lines|
  {
    if lines == [] {
      assert lines + rest == rest && buffer + Unlines(lines) == buffer;
    } else {
      var line, more := lines[0], lines[1..];
      assert lines + rest == [line] + (more + rest);
      SplitStep(line, more + rest, d, buffer);
      BufferFills(more, rest, d, buffer + line + "\n");
      Assoc(buffer, line, "\n");
      Assoc(buffer, line + "\n", Unlines(more));
    }
  }

  lemma EmptyBufferFills(lines: seq<string>, rest: seq<string>, d: string)
    requires Solid(d)
    requires forall i :: 0 <= i < |lines| ==> !IsDirective(lines[i]) && !Closes(lines[i], d)
    ensures Split(lines + rest, d, "") == Split(rest, d, Unlines(lines))
  {
    BufferFills(lines, rest, d, "");
    assert "" + Unlines(lines) == Unlines(lines);
  }

  /** Trimming a printed statement gives its text back. */
  lemma TrimmedPrinted(s: Statement, terminator: string, d: string)
    requires Solid(d) && s != [] && Solid(StatementText(s))
    requires (terminator == "" && d == ";") || (terminator == d && d != ";")
    ensures Trimmed(Chunk(Unlines(Printed(s, terminator)), d)) == StatementText(s)
  {
    var text := StatementText(s);
    var raw := Unlines(Printed(s, terminator));
    UnlinesIsJoin(Printed(s, terminator));
    JoinExtendLast("\n", s, terminator);
    assert raw == (text + terminator) + "\n";
    TrimRightOfPadded(text + terminator, "\n");
    SolidIsStripped(text);
    if terminator == d {
      assert (text + d)[..|text + d| - |d|] == text;
      assert EndsWith(text + d, d);
    } else {
      assert text + terminator == text;
    }
  }

  /** Only the last line of a printed statement closes it. */
  lemma OnlyLastCloses(s: Statement, terminator: string, d: string)
    requires Solid(d) && WellFormed(s, terminator, d) && (terminator == "" || terminator == d)
    ensures var printed := Printed(s, terminator);
            && (forall i :: 0 <= i < |s| ==> !IsDirective(printed[i]) && (Closes(printed[i], d) <==> i == |s| - 1))
  {
    var printed := Printed(s, terminator);
    forall i | 0 <= i < |s| ensures !IsDirective(printed[i]) && (Closes(printed[i], d) <==> i == |s| - 1) {
      DirectiveIff(printed[i]);
      ClosesIff(printed[i], d);
      if i == |s| - 1 {
        LastVisiblyEnds(s[i], terminator, d);
      }
    }
  }

  lemma LastVisiblyEnds(last: string, terminator: string, d: string)
    requires terminator == d || (terminator == "" && VisiblyEnds(last, d))
    ensures VisiblyEnds(last + terminator, d)
  {
    if terminator == d {
      var z := "";
      assert last + terminator == last + d + z && Blank(z);
    } else {
      assert last + terminator == last;
    }
  }

  lemma UnlinesOfLast(init: seq<string>, last: string)
    ensures Unlines(init + [last]) == Unlines(init) + last + "\n"
  {
    UnlinesConcat(init, [last]);
    assert Unlines([last]) == last + "\n" + Unlines([]);
    Assoc(Unlines(init), last, "\n");
  }

  lemma ClosingStep(last: string, rest: seq<string>, d: string, buffer: string)
    requires Solid(d) && !IsDirective(last) && Closes(last, d)
    ensures Split([last] + rest, d, buffer) == Statements([Chunk(buffer + last + "\n", d)]) + Split(rest, d, "")
  {
  }

  /** A closing line behind lines that do not close. */
  lemma LastLineCloses(init: seq<string>, last: string, d: string, rest: seq<string>)
    requires Solid(d) && !IsDirective(last) && Closes(last, d)
    requires forall i :: 0 <= i < |init| ==> !IsDirective(init[i]) && !Closes(init[i], d)
    ensures Split((init + [last]) + rest, d, "") == Statements([Chunk(Unlines(init + [last]), d)]) + Split(rest, d, "")
  {
    Assoc(init, [last], rest);
    EmptyBufferFills(init, [last] + rest, d);
    UnlinesOfLast(init, last);
    ClosingStep(last, rest, d, Unlines(init));
  }

  lemma StatementIsSplitOff(s: Statement, terminator: string, d: string, rest: seq<string>)
    requires Solid(d) && WellFormed(s, terminator, d)
    requires (terminator == "" && d == ";") || (terminator == d && d != ";")
    ensures Split(Printed(s, terminator) + rest, d, "") == [StatementText(s)] + Split(rest, d, "")
  {
    var printed := Printed(s, terminator);
    var init, last := printed[..|s| - 1], printed[|s| - 1];
    assert printed == init + [last];
    OnlyLastCloses(s, terminator, d);
    LastLineCloses(init, last, d, rest);
    TrimmedPrinted(s, terminator, d);
    OneStatement(Chunk(Unlines(printed), d));
  }

  lemma {:induction false} StatementsAreSplitOff(statements: seq<Statement>, terminator: string, d: string, rest: seq<string>)
    requires Solid(d) && AllWellFormed(statements, terminator, d)
    requires (terminator == "" && d == ";") || (terminator == d && d != ";")
    ensures Split(PrintStatements(statements, terminator) + rest, d, "") == Texts(statements) + Split(rest, d, "")
    decreases |statements|
  {
    if statements == [] {
      assert PrintStatements(statements, terminator) + rest == rest;
    } else {
      var first, more := statements[0], statements[1..];
      assert WellFormed(first, terminator, d) && AllWellFormed(more, terminator, d);
      Assoc(Printed(first, terminator), PrintStatements(more, terminator), rest);
      StatementIsSplitOff(first, terminator, d, PrintStatements(more, terminator) + rest);
      StatementsAreSplitOff(more, terminator, d, rest);
      Assoc([StatementText(first)], Texts(more), Split(rest, d, ""));
    }
  }

  /** A printed DELIMITER line is read as one, and yields the delimiter it was printed with. */
  lemma DirectiveIsRead(d: string)
    requires Solid(d)
    ensures IsDirective(DELIMITER + d) && DirectiveArgument(DELIMITER + d) == d
  {
  }

  /** A printed DELIMITER line only changes the delimiter. */
  lemma DirectiveIsStep(d: string, rest: seq<string>, current: string)
    requires Solid(d) && Solid(current)
    ensures Split([DELIMITER + d] + rest, current, "") == Split(rest, d, "")
  {
    DirectiveIsRead(d);
    SplitStep(DELIMITER + d, rest, current, "");
    OneStatement(Chunk("", ""));
  }

  lemma BlockIsSplit(d: string, statements: seq<Statement>, rest: seq<string>)
    requires Solid(d) && d != ";" && AllWellFormed(statements, d, d)
    ensures Split(PrintSection(Block(d, statements)) + rest, ";", "") == Texts(statements) + Split(rest, ";", "")
  {
    var open, printed, close := [DELIMITER + d], PrintStatements(statements, d), [DELIMITER + ";"];
    Assoc(open + printed, close, rest);
    Assoc(open, printed, close + rest);
    DirectiveIsStep(d, printed + (close + rest), ";");
    StatementsAreSplitOff(statements, d, d, close + rest);
    DirectiveIsStep(";", rest, d);
  }

  lemma SectionIsSplit(x: Section, rest: seq<string>)
    requires WellFormedSection(x)
    ensures Split(PrintSection(x) + rest, ";", "") == Texts(x.statements) + Split(rest, ";", "")
  {
    match x
    case Plain(statements) => StatementsAreSplitOff(statements, "", ";", rest);
    case Block(d, statements) => BlockIsSplit(d, statements, rest);
  }

  lemma {:induction false} ScriptIsSplit(script: seq<Section>)
    requires forall k :: 0 <= k < |script| ==> WellFormedSection(script[k])
    ensures Split(PrintScript(script), ";", "") == ScriptTexts(script)
    decreases |script|
  {
    if script == [] {
      SplitEnd(";", "");
    } else {
      ScriptIsSplit(script[1..]);
      SectionIsSplit(script[0], PrintScript(script[1..]));
    }
  }

  predicate AllOneLine(lines: seq<string>) {
    forall i :: 0 <= i < |lines| ==> OneLine(lines[i])
  }

  lemma {:induction false} PrintedLinesAreLines(statements: seq<Statement>, terminator: string, d: string)
    requires OneLine(terminator) && AllWellFormed(statements, terminator, d)
    ensures AllOneLine(PrintStatements(statements, terminator))
    decreases |statements|
  {
    if statements != [] {
      PrintedLinesAreLines(statements[1..], terminator, d);
      var first := Printed(statements[0], terminator);
      forall i | 0 <= i < |first| ensures OneLine(first[i]) {
        assert OneLine(statements[0][i]);
      }
      AllOneLineConcat(first, PrintStatements(statements[1..], terminator));
    }
  }

  lemma SectionLinesAreLines(x: Section)
    requires WellFormedSection(x)
    ensures AllOneLine(PrintSection(x))
  {
    match x
    case Plain(statements) => PrintedLinesAreLines(statements, "", ";");
    case Block(d, statements) =>
      PrintedLinesAreLines(statements, d, d);
      DirectiveIsLine(d);
      DirectiveIsLine(";");
      var open, printed, close := [DELIMITER + d], PrintStatements(statements, d), [DELIMITER + ";"];
      AllOneLineConcat(open, printed);
      AllOneLineConcat(open + printed, close);
  }

  lemma DirectiveIsLine(d: string)
    requires OneLine(d)
    ensures AllOneLine([DELIMITER + d])
  {
  }

  lemma AllOneLineConcat(a: seq<string>, b: seq<string>)
    requires AllOneLine(a) && AllOneLine(b)
    ensures AllOneLine(a + b)
  {
  }

  lemma {:induction false} ScriptLinesAreLines(script: seq<Section>)
    requires forall k :: 0 <= k < |script| ==> WellFormedSection(script[k])
    ensures AllOneLine(PrintScript(script))
    decreases |script|
  {
    if script != [] {
      ScriptLinesAreLines(script[1..]);
      SectionLinesAreLines(script[0]);
      AllOneLineConcat(PrintSection(script[0]), PrintScript(script[1..]));
    }
  }

  /** Any list of well-formed statements, printed in `;` sections and DELIMITER blocks, is read back. */
  lemma ScriptRoundTrip(script: seq<Section>)
    requires forall k :: 0 <= k < |script| ==> WellFormedSection(script[k])
    ensures Split(SplitLines(Unlines(PrintScript(script))), ";", "") == ScriptTexts(script)
  {
    ScriptLinesAreLines(script);
    SplitLinesOfUnlines(PrintScript(script));
    ScriptIsSplit(script);
  }
}

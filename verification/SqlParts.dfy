/**
 Scripts made of comments and statements, in the layout `auth_harness/perms/seed_sql.py` prints,
 and what the statement splitter makes of them.
 */
module SqlParts {
  import opened Text
  import opened MySqlText
  import opened LineScan

  /** A part of a script: a lone comment, or a comment and a statement. */
  datatype Part = Note(comment: string) | Statement(comment: string, lines: seq<Line>)

  /** The statement without its semicolon. */
  function StatementText(lines: seq<Line>): string {
    Join("\n", RenderAll(lines))
  }

  function PartText(p: Part): string {
    match p
    case Note(comment) => comment
    case Statement(comment, lines) => comment + "\n" + StatementText(lines) + ";"
  }

  function PartTexts(parts: seq<Part>): (texts: seq<string>)
    ensures |texts| == |parts|
  {
    if parts == [] then [] else [PartText(parts[0])] + PartTexts(parts[1..])
  }

  /** The parts, a blank line between any two of them. */
  function ScriptText(parts: seq<Part>): string {
    Join("\n\n", PartTexts(parts)) + "\n"
  }

  /** The physical lines of the statement of a part, with its semicolon. */
  function StatementLines(p: Part): seq<string> {
    if p.Statement? then SplitOn(StatementText(p.lines) + ";", '\n') else []
  }

  function PartLines(p: Part): seq<string> {
    [p.comment] + StatementLines(p)
  }

  /** The lines of the whole script. */
  function ScriptLines(parts: seq<Part>): seq<string> {
    if parts == [] then []
    else if |parts| == 1 then PartLines(parts[0])
    else PartLines(parts[0]) + [""] + ScriptLines(parts[1..])
  }

  /** The statements of the script, in order. */
  function ScriptStatements(parts: seq<Part>): seq<string> {
    if parts == [] then []
    else (if parts[0].Statement? then [StatementText(parts[0].lines)] else []) + ScriptStatements(parts[1..])
  }

  /** Comments are comments, and no line of the statement gets lost. */
  predicate GoodPart(p: Part) {
    && OneLine(p.comment) && !KeptLine(p.comment)
    && (p.Statement? ==> Solid(StatementText(p.lines)) && TextSurvives(StatementText(p.lines)))
  }

  lemma GoodPartLines(p: Part)
    requires GoodPart(p)
    ensures forall line :: line in StatementLines(p) ==> OneLine(line) && KeptLine(line)
  {
    if p.Statement? {
      var text := StatementText(p.lines);
      ScanConcat(Fresh, text, ";");
      ScanOne(Scan(Fresh, text), ';');
      AvoidsConcat(text, ";", IsOddBreak);
      SurvivingLines(text + ";");
    }
  }

  lemma {:induction false} RenderAllLength(lines: seq<Line>)
    ensures |RenderAll(lines)| == |lines|
    ensures forall k :: 0 <= k < |lines| ==> RenderAll(lines)[k] == Render(lines[k])
    decreases |lines|
  {
    if lines != [] {
      RenderAllLength(lines[1..]);
    }
  }

  lemma PartTextIsLines(p: Part)
    ensures PartLines(p) != [] && Unlines(PartLines(p)) == PartText(p) + "\n"
  {
    UnlinesIsJoin(PartLines(p));
    if p.Statement? {
      JoinOfSplitOn(StatementText(p.lines) + ";", '\n');
      assert PartLines(p)[1..] == StatementLines(p) && "\n" == ['\n'];
      Assoc(p.comment + "\n", StatementText(p.lines), ";");
    }
  }

  lemma JoinedByBlankLine(first: seq<string>, more: seq<string>, text: string, rest: string)
    requires Unlines(first) == text + "\n" && Unlines(more) == rest + "\n"
    ensures Unlines(first + [""] + more) == text + "\n\n" + rest + "\n"
  {
    UnlinesConcat(first + [""], more);
    UnlinesConcat(first, [""]);
    assert Unlines([""]) == "\n";
    assert text + "\n" + "\n" == text + "\n\n";
    Assoc(text + "\n\n", rest, "\n");
  }

  lemma {:induction false} ScriptTextIsLines(parts: seq<Part>)
    requires parts != [] && forall k :: 0 <= k < |parts| ==> GoodPart(parts[k])
    ensures ScriptText(parts) == Unlines(ScriptLines(parts))
    decreases |parts|
  {
    PartTextIsLines(parts[0]);
    if |parts| == 1 {
      assert PartTexts(parts) == [PartText(parts[0])];
    } else {
      var more := parts[1..];
      ScriptTextIsLines(more);
      assert PartTexts(parts)[1..] == PartTexts(more);
      JoinedByBlankLine(PartLines(parts[0]), ScriptLines(more), PartText(parts[0]), Join("\n\n", PartTexts(more)));
    }
  }

  lemma {:induction false} KeepAll(lines: seq<string>)
    requires forall line :: line in lines ==> KeptLine(line)
    ensures KeptLines(lines) == lines
    decreases |lines|
  {
    if lines != [] {
      KeepAll(lines[1..]);
    }
  }

  lemma KeptOfPart(p: Part)
    requires GoodPart(p)
    ensures KeptLines(PartLines(p)) == StatementLines(p)
    ensures forall line :: line in PartLines(p) ==> OneLine(line)
  {
    assert [p.comment][1..] == [];
    GoodPartLines(p);
    KeptLinesConcat([p.comment], StatementLines(p));
    KeepAll(StatementLines(p));
  }

  function AllStatementLines(parts: seq<Part>): seq<string> {
    if parts == [] then [] else StatementLines(parts[0]) + AllStatementLines(parts[1..])
  }

  lemma KeptAcrossBlankLine(first: seq<string>, more: seq<string>)
    ensures KeptLines(first + [""] + more) == KeptLines(first) + KeptLines(more)
  {
    KeptLinesConcat(first + [""], more);
    KeptLinesConcat(first, [""]);
    assert Strip("") == "";
    assert [""][1..] == [] && KeptLines([""]) == [];
    assert KeptLines(first) + [] == KeptLines(first);
  }

  lemma {:induction false} KeptOfScript(parts: seq<Part>)
    requires forall k :: 0 <= k < |parts| ==> GoodPart(parts[k])
    ensures KeptLines(ScriptLines(parts)) == AllStatementLines(parts)
    ensures forall line :: line in ScriptLines(parts) ==> OneLine(line)
    decreases |parts|
  {
    if parts != [] {
      KeptOfPart(parts[0]);
      KeptOfScript(parts[1..]);
      if |parts| == 1 {
        assert AllStatementLines(parts[1..]) == [];
        assert StatementLines(parts[0]) + [] == StatementLines(parts[0]);
      } else {
        KeptAcrossBlankLine(PartLines(parts[0]), ScriptLines(parts[1..]));
      }
    }
  }

  /** Cutting the kept lines at the semicolons gives the statements. */
  lemma {:induction false} CutStatements(parts: seq<Part>)
    requires forall k :: 0 <= k < |parts| ==> GoodPart(parts[k])
    requires forall k :: 0 <= k < |parts| && parts[k].Statement? ==> Avoids(StatementText(parts[k].lines), IsSemicolon)
    ensures StripParts(SplitOn(Unlines(AllStatementLines(parts)), ';')) == ScriptStatements(parts)
    ensures StripParts(SplitOn("\n" + Unlines(AllStatementLines(parts)), ';')) == ScriptStatements(parts)
    decreases |parts|
  {
    if parts == [] {
      assert "\n"[1..] == "" && ['\n'] + "" == "\n" && "\n" + "" == "\n";
      assert SplitOn("\n", ';') == ["\n"];
      assert Strip("\n") == "" && Strip("") == "";
      assert StripParts([""]) == [] && StripParts(["\n"]) == [];
    } else if parts[0].Note? {
      CutStatements(parts[1..]);
      assert AllStatementLines(parts) == AllStatementLines(parts[1..]);
    } else {
      CutStatements(parts[1..]);
      var text := StatementText(parts[0].lines);
      var rest := AllStatementLines(parts[1..]);
      UnlinesConcat(StatementLines(parts[0]), rest);
      JoinOfSplitOn(text + ";", '\n');
      UnlinesIsJoin(StatementLines(parts[0]));
      CutOne(text, Unlines(rest), ScriptStatements(parts[1..]));
    }
  }

  lemma CutOne(text: string, rest: string, statements: seq<string>)
    requires Solid(text) && Avoids(text, IsSemicolon)
    requires StripParts(SplitOn("\n" + rest, ';')) == statements
    ensures StripParts(SplitOn(text + ";" + "\n" + rest, ';')) == [text] + statements
    ensures StripParts(SplitOn("\n" + (text + ";" + "\n" + rest), ';')) == [text] + statements
  {
    var tail := "\n" + rest;
    assert text + ";" + "\n" + rest == text + ";" + tail;
    SplitAtSemicolon(text, tail);
    SolidIsStripped(text);
    var padded := "\n" + text;
    assert "\n" + (text + ";" + "\n" + rest) == padded + ";" + tail;
    assert Avoids(padded, IsSemicolon);
    SplitAtSemicolon(padded, tail);
    assert padded[1..] == text;
    assert TrimRight(padded) == padded && TrimLeft(padded) == TrimLeft(text);
  }

  /** Splitting a script of good parts without inner semicolons yields exactly its statements. */
  lemma ScriptIsSplit(parts: seq<Part>)
    requires parts != [] && forall k :: 0 <= k < |parts| ==> GoodPart(parts[k])
    requires forall k :: 0 <= k < |parts| && parts[k].Statement? ==> Avoids(StatementText(parts[k].lines), IsSemicolon)
    ensures StatementsOf(ScriptText(parts)) == ScriptStatements(parts)
  {
    ScriptTextIsLines(parts);
    KeptOfScript(parts);
    SplitLinesOfUnlines(ScriptLines(parts));
    var kept := AllStatementLines(parts);
    CutStatements(parts);
    if kept == [] {
      assert Join("\n", kept) == Unlines(kept);
    } else {
      UnlinesIsJoin(kept);
      DropLastNewline(Join("\n", kept));
    }
  }

  lemma {:induction false} StripPartsConcat(a: seq<string>, b: seq<string>)
    ensures StripParts(a + b) == StripParts(a) + StripParts(b)
    decreases |a|
  {
    if a == [] {
      assert a + b == b;
    } else {
      assert (a + b)[1..] == a[1..] + b;
      StripPartsConcat(a[1..], b);
    }
  }

  /** A newline at the very end changes no statement. */
  lemma DropLastNewline(s: string)
    ensures StripParts(SplitOn(s + "\n", ';')) == StripParts(SplitOn(s, ';'))
  {
    SplitOnPadded(s);
    var parts := SplitOn(s, ';');
    var n := |parts| - 1;
    assert parts == parts[..n] + [parts[n]];
    assert PadLast(parts, "\n") == parts[..n] + [parts[n] + "\n"];
    StripPartsConcat(parts[..n], [parts[n]]);
    StripPartsConcat(parts[..n], [parts[n] + "\n"]);
    var p := parts[n];
    assert (p + "\n")[..|p + "\n"| - 1] == p;
    assert Strip(p + "\n") == Strip(p);
    assert StripParts([p + "\n"]) == StripParts([p]) by {
      assert [p][1..] == [] && [p + "\n"][1..] == [];
    }
  }

  /** `parts` with `pad` behind its last element. */
  function PadLast(parts: seq<string>, pad: string): seq<string>
    requires parts != []
  {
    parts[|parts| - 1 := parts[|parts| - 1] + pad]
  }

  lemma PadBehind(c: char, more: seq<string>, pad: string)
    requires more != []
    ensures PadLast([""] + more, pad) == [""] + PadLast(more, pad)
    ensures var parts, padded := [[c] + more[0]] + more[1..], PadLast(more, pad);
            PadLast(parts, pad) == [[c] + padded[0]] + padded[1..]
  {
    var n := |more| - 1;
    Assoc([c], more[n], pad);
  }

  lemma {:induction false} SplitOnPadded(s: string)
    ensures SplitOn(s + "\n", ';') == PadLast(SplitOn(s, ';'), "\n")
    decreases |s|
  {
    if s == "" {
      assert s + "\n" == "\n" && "\n"[1..] == "" && ['\n'] + "" == "\n";
    } else {
      assert (s + "\n")[1..] == s[1..] + "\n" && (s + "\n")[0] == s[0];
      SplitOnPadded(s[1..]);
      PadBehind(s[0], SplitOn(s[1..], ';'), "\n");
    }
  }
}

/**
 Texts with embedded line breaks in front of the statement splitter: a scanner that reads a text
 character by character and knows whether the splitter would drop one of its lines.
 */
module LineScan {
  import opened Text
  import opened MySqlText

  /** A line break other than the newline the splitter joins with. */
  predicate IsOddBreak(c: char) {
    IsBreak(c) && c != '\n'
  }

  predicate IsNewline(c: char) {
    c == '\n'
  }

  /**
   What is known of the current line: white space so far, one dash, something visible that is no
   comment, a comment; or an earlier line is lost.
   */
  datatype State = Fresh | Dash | Visible | Comment | Lost {
    /** The line is kept if it ends here. */
    predicate Keeps() {
      Dash? || Visible?
    }

    /** The line can still be kept. */
    predicate Open() {
      !Comment? && !Lost?
    }
  }

  function Advance(s: State, c: char): State {
    if s.Lost? then Lost
    else if c == '\n' then (if s.Keeps() then Fresh else Lost)
    else
      match s
      case Fresh => if IsSpace(c) then Fresh else if c == '-' then Dash else Visible
      case Dash => if c == '-' then Comment else Visible
      case Visible => Visible
      case _ => Comment
  }

  function Scan(s: State, t: string): State
    decreases |t|
  {
    if t == "" then s else Scan(Advance(s, t[0]), t[1..])
  }

  lemma {:induction false} ScanConcat(s: State, a: string, b: string)
    ensures Scan(s, a + b) == Scan(Scan(s, a), b)
    decreases |a|
  {
    if a == "" {
      assert a + b == b;
    } else {
      assert (a + b)[1..] == a[1..] + b && (a + b)[0] == a[0];
      ScanConcat(Advance(s, a[0]), a[1..], b);
    }
  }

  lemma ScanOne(s: State, c: char)
    ensures Scan(s, [c]) == Advance(s, c)
  {
    assert [c][1..] == "";
  }

  /** Once a line is visible or a comment, only a newline changes that. */
  lemma {:induction false} ScanStays(s: State, t: string)
    requires (s.Visible? || s.Comment? || s.Lost?) && Avoids(t, IsNewline)
    ensures Scan(s, t) == s
    decreases |t|
  {
    if t != "" {
      ScanStays(s, t[1..]);
    }
  }

  /** A lost or comment line never becomes one that can be kept. */
  lemma {:induction false} ClosedStaysClosed(s: State, t: string)
    requires !s.Open()
    ensures !Scan(s, t).Open()
    decreases |t|
  {
    if t != "" {
      ClosedStaysClosed(Advance(s, t[0]), t[1..]);
    }
  }

  lemma {:induction false} ScanBlank(t: string)
    requires Blank(t) && Avoids(t, IsNewline)
    ensures Scan(Fresh, t) == Fresh
    decreases |t|
  {
    if t != "" {
      ScanBlank(t[1..]);
    }
  }

  /** A visible character that is no dash makes every open line visible. */
  lemma VisibleFrom(s: State, t: string)
    requires s.Open() && t != "" && !IsSpace(t[0]) && t[0] != '-'
    ensures Scan(s, t) == Scan(Visible, t)
  {
  }

  // ---------------------------------------------------------------------------------------
  // Single lines
  // ---------------------------------------------------------------------------------------

  /** On one line the scanner finds what the splitter tests: blank, a comment, or kept. */
  lemma ScanOfLine(line: string)
    requires Avoids(line, IsNewline)
    ensures Scan(Fresh, line).Keeps() <==> KeptLine(line)
    ensures Scan(Fresh, line).Open() <==> !StartsWith(Strip(line), "--")
  {
    var a, z := StripCuts(line);
    var s := Strip(line);
    StripIsSolid(line);
    AvoidsConcat(a + s, z, IsNewline);
    AvoidsConcat(a, s, IsNewline);
    ScanConcat(Fresh, a + s, z);
    ScanConcat(Fresh, a, s);
    ScanBlank(a);
    if s == "" {
      ScanBlank(z);
    } else {
      ScanOfSolid(s, z);
    }
  }

  lemma ScanOfSolid(s: string, z: string)
    requires Solid(s) && Blank(z) && Avoids(s, IsNewline) && Avoids(z, IsNewline)
    ensures var end := Scan(Scan(Fresh, s), z); if StartsWith(s, "--") then end == Comment else end.Keeps()
  {
    var rest := s[1..];
    assert Avoids(rest, IsNewline);
    if s[0] != '-' {
      ScanStays(Visible, rest);
      ScanStays(Visible, z);
    } else if rest == "" {
      DashThenBlank(z);
    } else {
      assert Avoids(rest[1..], IsNewline);
      assert StartsWith(s, "--") <==> rest[0] == '-';
      var next := if rest[0] == '-' then Comment else Visible;
      ScanStays(next, rest[1..]);
      ScanStays(next, z);
    }
  }

  lemma DashThenBlank(z: string)
    requires Blank(z) && Avoids(z, IsNewline)
    ensures Scan(Dash, z).Keeps()
  {
    if z != "" {
      assert z[0] != '-' && Avoids(z[1..], IsNewline);
      ScanStays(Visible, z[1..]);
    }
  }

  // ---------------------------------------------------------------------------------------
  // Several lines
  // ---------------------------------------------------------------------------------------

  /** Texts joined by newlines keep all their lines exactly when each of them does. */
  lemma {:induction false} ScanOfJoin(texts: seq<string>)
    requires texts != []
    ensures Scan(Fresh, Join("\n", texts)).Keeps() <==> forall k :: 0 <= k < |texts| ==> Scan(Fresh, texts[k]).Keeps()
    decreases |texts|
  {
    if |texts| > 1 {
      var more := texts[1..];
      ScanOfJoin(more);
      ScanAcrossNewline(Fresh, texts[0], Join("\n", more));
      assert texts == [texts[0]] + more;
      if !Scan(Fresh, texts[0]).Keeps() {
        ClosedStaysClosed(Lost, Join("\n", more));
      }
    }
  }

  lemma ScanAcrossNewline(s: State, a: string, b: string)
    ensures Scan(s, a + "\n" + b) == Scan(if Scan(s, a).Keeps() then Fresh else Lost, b)
  {
    ScanConcat(s, a + "\n", b);
    ScanConcat(s, a, "\n");
    ScanOne(Scan(s, a), '\n');
  }

  /** The same when the last line may still go on. */
  lemma {:induction false} ScanOfOpenJoin(lines: seq<string>)
    requires lines != []
    ensures Scan(Fresh, Join("\n", lines)).Open()
       <==> (forall k :: 0 <= k < |lines| - 1 ==> Scan(Fresh, lines[k]).Keeps()) && Scan(Fresh, lines[|lines| - 1]).Open()
    decreases |lines|
  {
    if |lines| > 1 {
      var more := lines[1..];
      ScanOfOpenJoin(more);
      ScanAcrossNewline(Fresh, lines[0], Join("\n", more));
      assert lines == [lines[0]] + more;
      if !Scan(Fresh, lines[0]).Keeps() {
        ClosedStaysClosed(Lost, Join("\n", more));
      }
    }
  }

  lemma {:induction false} SplitOnAvoids(s: string, bad: char -> bool)
    ensures forall k :: 0 <= k < |SplitOn(s, '\n')| ==> Avoids(SplitOn(s, '\n')[k], IsNewline)
    ensures Avoids(s, bad) ==> forall k :: 0 <= k < |SplitOn(s, '\n')| ==> Avoids(SplitOn(s, '\n')[k], bad)
    decreases |s|
  {
    if s != "" {
      SplitOnAvoids(s[1..], bad);
      var first := SplitOn(s[1..], '\n')[0];
      AvoidsConcat([s[0]], first, IsNewline);
      AvoidsConcat([s[0]], first, bad);
    }
  }

  /** The splitter keeps a text as it is: every break is a newline, and no line is blank or a comment. */
  predicate TextSurvives(t: string) {
    Avoids(t, IsOddBreak) && Scan(Fresh, t).Keeps()
  }

  /** The lines of a surviving text are lines the splitter keeps. */
  lemma SurvivingLines(t: string)
    requires TextSurvives(t)
    ensures forall line :: line in SplitOn(t, '\n') ==> OneLine(line) && KeptLine(line)
  {
    var lines := SplitOn(t, '\n');
    JoinOfSplitOn(t, '\n');
    SplitOnAvoids(t, IsOddBreak);
    ScanOfJoin(lines);
    forall k | 0 <= k < |lines| ensures OneLine(lines[k]) && KeptLine(lines[k]) {
      assert Avoids(lines[k], IsNewline) && Avoids(lines[k], IsOddBreak);
      ScanOfLine(lines[k]);
    }
  }

  // ---------------------------------------------------------------------------------------
  // What the splitter returns
  // ---------------------------------------------------------------------------------------

  function Cleaned(sql: string): string {
    Join("\n", KeptLines(SplitLines(sql)))
  }

  lemma {:induction false} KeptLinesAreKept(lines: seq<string>)
    requires forall k :: 0 <= k < |lines| ==> OneLine(lines[k])
    ensures forall k :: 0 <= k < |KeptLines(lines)| ==> OneLine(KeptLines(lines)[k]) && KeptLine(KeptLines(lines)[k])
    decreases |lines|
  {
    if lines != [] {
      KeptLinesAreKept(lines[1..]);
    }
  }

  /** Behind the line filter nothing is left to lose. */
  lemma CleanedSurvives(sql: string)
    ensures Avoids(Cleaned(sql), IsOddBreak)
    ensures Scan(Fresh, Cleaned(sql)).Open()
  {
    var kept := KeptLines(SplitLines(sql));
    KeptLinesAreKept(SplitLines(sql));
    forall k | 0 <= k < |kept| ensures Avoids(kept[k], IsOddBreak) && Scan(Fresh, kept[k]).Keeps() {
      assert OneLine(kept[k]);
      ScanOfLine(kept[k]);
    }
    JoinAvoids("\n", kept, IsOddBreak);
    if kept != [] {
      ScanOfJoin(kept);
    }
  }

  /** The parts of a text cut at semicolons are passages of it, and so are the statements. */
  lemma {:induction false} PartIsInside(s: string, c: char, k: nat) returns (x: string, y: string)
    requires k < |SplitOn(s, c)|
    ensures s == x + SplitOn(s, c)[k] + y && (k == 0 ==> x == "")
    decreases |s|
  {
    if s == "" {
      x, y := "", "";
    } else {
      var more := SplitOn(s[1..], c);
      var x', y' := PartIsInside(s[1..], c, if s[0] == c then (if k == 0 then 0 else k - 1) else k);
      if s[0] == c {
        x, y := if k == 0 then "" else [c] + x', if k == 0 then s else y';
        if k == 0 {
          assert "" + "" + s == s;
        } else {
          assert s == [c] + (x' + more[k - 1] + y');
        }
      } else if k == 0 {
        x, y := "", y';
        assert s == [s[0]] + (more[0] + y');
      } else {
        x, y := [s[0]] + x', y';
        assert s == [s[0]] + (x' + more[k] + y');
      }
    }
  }

  lemma {:induction false} StripPartsMember(parts: seq<string>, st: string)
    requires st in StripParts(parts)
    ensures st != "" && exists k :: 0 <= k < |parts| && st == Strip(parts[k])
    decreases |parts|
  {
    if st !in StripParts(parts[1..]) {
      assert st == Strip(parts[0]);
    } else {
      StripPartsMember(parts[1..], st);
      var k :| 0 <= k < |parts[1..]| && st == Strip(parts[1..][k]);
      assert parts[k + 1] == parts[1..][k];
    }
  }

  lemma StatementIsInside(sql: string, st: string) returns (x: string, y: string)
    requires st in StatementsOf(sql)
    ensures Solid(st) && Cleaned(sql) == x + st + y
  {
    var parts := SplitOn(Cleaned(sql), ';');
    StripPartsMember(parts, st);
    var k: nat :| k < |parts| && st == Strip(parts[k]);
    StripIsSolid(parts[k]);
    var a, b := PartIsInside(Cleaned(sql), ';', k);
    var c, d := StripCuts(parts[k]);
    x, y := a + c, d + b;
    Regroup(a, c, st, d, b);
  }

  lemma Regroup(a: string, c: string, s: string, d: string, b: string)
    ensures a + (c + s + d) + b == (a + c) + s + (d + b)
  {
    Assoc(a, c + s, d);
    Assoc(a, c, s);
    Assoc(a + c + s, d, b);
  }

  /** A statement the splitter returns, and that starts visibly, has lost nothing and holds no other break. */
  lemma ReturnedSurvives(sql: string, st: string)
    requires st in StatementsOf(sql) && st != "" && st[0] != '-'
    ensures TextSurvives(st)
  {
    var x, y := StatementIsInside(sql, st);
    CleanedSurvives(sql);
    AvoidsConcat(x + st, y, IsOddBreak);
    AvoidsConcat(x, st, IsOddBreak);
    ScanConcat(Fresh, x + st, y);
    ScanConcat(Fresh, x, st);
    if !Scan(Fresh, x).Open() {
      ClosedStaysClosed(Scan(Fresh, x), st);
    }
    if !Scan(Fresh, x + st).Open() {
      ClosedStaysClosed(Scan(Fresh, x + st), y);
    }
    VisibleFrom(Scan(Fresh, x), st);
    VisibleFrom(Fresh, st);
    EndsVisibly(Fresh, st);
  }

  /** Behind a visible character an open line is not blank. */
  lemma EndsVisibly(s: State, t: string)
    requires t != "" && !IsSpace(t[|t| - 1]) && Scan(s, t).Open()
    ensures Scan(s, t).Keeps()
  {
    var init, c := t[..|t| - 1], t[|t| - 1];
    assert t == init + [c];
    ScanConcat(s, init, [c]);
    ScanOne(Scan(s, init), c);
  }

  // ---------------------------------------------------------------------------------------
  // Values inside a statement
  // ---------------------------------------------------------------------------------------

  /**
   A quoted value that the splitter leaves alone: every break is a newline, no line between two
   breaks is blank or a comment, and what follows the last break does not start a comment.
   */
  predicate LineSafe(v: string) {
    && Avoids(v, IsOddBreak)
    && var lines := SplitOn(v, '\n');
       && (forall k :: 0 < k < |lines| - 1 ==> KeptLine(lines[k]))
       && (|lines| > 1 ==> !StartsWith(Strip(lines[|lines| - 1]), "--"))
  }

  /** In terms of the scanner: from behind the opening quote the value leaves the line open. */
  lemma LineSafeIsOpen(v: string)
    ensures LineSafe(v) <==> Avoids(v, IsOddBreak) && Scan(Visible, v).Open()
  {
    var lines := SplitOn(v, '\n');
    JoinOfSplitOn(v, '\n');
    SplitOnAvoids(v, IsOddBreak);
    forall k | 0 <= k < |lines|
      ensures Scan(Fresh, lines[k]).Keeps() <==> KeptLine(lines[k])
      ensures Scan(Fresh, lines[k]).Open() <==> !StartsWith(Strip(lines[k]), "--")
    {
      ScanOfLine(lines[k]);
    }
    if |lines| == 1 {
      ScanStays(Visible, v);
    } else {
      var more := lines[1..];
      ScanAcrossNewline(Visible, lines[0], Join("\n", more));
      ScanStays(Visible, lines[0]);
      ScanOfOpenJoin(more);
      assert forall k :: 0 <= k < |more| ==> more[k] == lines[k + 1];
      assert forall k :: 0 < k < |lines| - 1 ==> lines[k] == more[k - 1];
    }
  }

  /** Escaping changes nothing for the scanner. */
  lemma {:induction false} ScanOfEscape(s: State, v: string)
    ensures Scan(s, Escape(v)) == Scan(s, v)
    decreases |v|
  {
    EscapeIsPerCharacter(v);
    if v != "" {
      EscapeIsPerCharacter(v[1..]);
      var e := EscapeChar(v[0]);
      ScanConcat(s, e, EscapeEach(v[1..]));
      assert Scan(s, e) == Advance(s, v[0]) by {
        if |e| == 2 {
          assert e[1..] == [e[1]];
          ScanOne(Advance(s, e[0]), e[1]);
        } else {
          ScanOne(s, v[0]);
        }
      }
      ScanOfEscape(Advance(s, v[0]), v[1..]);
    }
  }

  /** A quoted value keeps a visible line visible exactly when it leaves it open. */
  lemma ScanOfQuoted(v: string)
    ensures var end := Scan(Visible, RenderFragment(Quoted(v)));
            if Scan(Visible, v).Open() then end == Visible else !end.Open()
  {
    ScanConcat(Visible, "'" + Escape(v), "'");
    ScanConcat(Visible, "'", Escape(v));
    ScanOne(Visible, '\'');
    ScanOfEscape(Visible, v);
    ScanOne(Scan(Visible, v), '\'');
  }

  /** A line with quoted values, from a visible character on, survives exactly when all the values leave it open. */
  lemma {:induction false} ScanOfRender(line: Line)
    requires forall k :: 0 <= k < |line| && line[k].Sql? ==> Avoids(line[k].text, IsNewline)
    ensures var end := Scan(Visible, Render(line));
            if forall k :: 0 <= k < |line| && line[k].Quoted? ==> Scan(Visible, line[k].value).Open() then end == Visible else !end.Open()
    decreases |line|
  {
    if line != [] {
      var first, more := line[0], line[1..];
      assert line == [first] + more;
      ScanConcat(Visible, RenderFragment(first), Render(more));
      ScanOfRender(more);
      if first.Sql? {
        ScanStays(Visible, first.text);
      } else {
        ScanOfQuoted(first.value);
        var next := Scan(Visible, RenderFragment(first));
        if !next.Open() {
          ClosedStaysClosed(next, Render(more));
        }
      }
    }
  }
}

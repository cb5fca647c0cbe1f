/**
 The synchronisation script: `build_sync_sql`, and the round trip from entries and codes through
 the printed text, the statement splitter and MySQL's reading of the literals.
 */
module SyncSql {
  import opened Text
  import opened MySqlText
  import opened LineScan
  import opened SqlParts
  import opened SeedSql

  /** The parts `build_sync_sql` collects. */
  function SyncParts(entries: seq<Entry>, codes: seq<string>, stamp: Stamp, prune: bool): seq<Part> {
    (if entries != [] then [Statement(INSERT_COMMENT, InsertLines(entries, stamp))] else if !prune then [Note(NO_MISSING)] else [])
    + (if !prune then [] else if codes == [] then [Note(NO_ORPHANS)] else [Statement(PRUNE_COMMENT, PruneLines(codes))])
  }

  lemma StatementEndsVisibly(comment: string, lines: seq<Line>)
    ensures TrimRight(PartText(Statement(comment, lines)) + "\n") == PartText(Statement(comment, lines))
  {
  }

  lemma NotesEndVisibly()
    ensures TrimRight(NO_MISSING + "\n") == NO_MISSING && TrimRight(NO_ORPHANS + "\n") == NO_ORPHANS
  {
  }

  /** The texts of at most two parts. */
  lemma SyncPartTexts(entries: seq<Entry>, codes: seq<string>, stamp: Stamp, prune: bool, first: seq<string>, second: seq<string>)
    requires entries != [] ==> first == [PartText(Statement(INSERT_COMMENT, InsertLines(entries, stamp)))]
    requires entries == [] ==> first == if prune then [] else [NO_MISSING]
    requires !prune ==> second == []
    requires prune ==> second == if codes == [] then [NO_ORPHANS] else [PartText(Statement(PRUNE_COMMENT, PruneLines(codes)))]
    ensures first + second == PartTexts(SyncParts(entries, codes, stamp, prune)) && first + second != []
  {
    var parts := SyncParts(entries, codes, stamp, prune);
    forall p: Part ensures PartTexts([p]) == [PartText(p)] {
      assert [p][1..] == [];
    }
    if |parts| == 2 {
      assert parts == [parts[0], parts[1]] && parts[1..] == [parts[1]];
      assert first + second == [PartText(parts[0]), PartText(parts[1])];
    } else {
      assert parts == [parts[0]];
    }
  }

  /** The first part of `build_sync_sql`: the INSERT, or the note that nothing is missing. */
  method InsertParts(entries: seq<Entry>, stamp: Stamp, prune: bool) returns (parts: seq<string>)
    ensures entries != [] ==> parts == [PartText(Statement(INSERT_COMMENT, InsertLines(entries, stamp)))]
    ensures entries == [] ==> parts == if prune then [] else [NO_MISSING]
  {
    parts := [];
    var insertSql := BuildUpsertSql(entries, stamp);
    NotesEndVisibly();
    if entries != [] || !prune {
      StatementEndsVisibly(INSERT_COMMENT, InsertLines(entries, stamp));
      parts := parts + [TrimRight(insertSql)];
    }
  }

  /** The second part: the DELETE, or the note that there is nothing to prune. */
  method PruneParts(codes: seq<string>, prune: bool) returns (parts: seq<string>)
    ensures !prune ==> parts == []
    ensures prune ==> parts == if codes == [] then [NO_ORPHANS] else [PartText(Statement(PRUNE_COMMENT, PruneLines(codes)))]
  {
    parts := [];
    if prune {
      NotesEndVisibly();
      PruneSqlIsPart(codes);
      StatementEndsVisibly(PRUNE_COMMENT, PruneLines(codes));
      parts := parts + [TrimRight(BuildPruneSql(codes))];
    }
  }

  /** `build_sync_sql`. */
  method BuildSyncSql(entries: seq<Entry>, codes: seq<string>, stamp: Stamp, prune: bool) returns (sql: string)
    ensures sql == ScriptText(SyncParts(entries, codes, stamp, prune))
  {
    var first := InsertParts(entries, stamp, prune);
    var second := PruneParts(codes, prune);
    SyncPartTexts(entries, codes, stamp, prune, first, second);
    var parts := first + second;
    if parts == [] {
      return "-- nothing to sync\n";
    }
    sql := Join("\n\n", parts) + "\n";
  }

  // ---------------------------------------------------------------------------------------
  // Texts and values the splitter leaves alone
  // ---------------------------------------------------------------------------------------

  /** The splitter neither cuts the text nor loses a line of it. */
  predicate SafeText(t: string) {
    Avoids(t, IsSemicolon) && TextSurvives(t)
  }

  /** A printed value that comes back: no semicolon, and its lines survive. */
  predicate Survives(v: string) {
    Avoids(v, IsSemicolon) && LineSafe(v)
  }

  predicate AllSurvive(values: seq<string>) {
    forall k :: 0 <= k < |values| ==> Survives(values[k])
  }

  lemma SafeJoin(texts: seq<string>)
    requires texts != []
    ensures SafeText(Join("\n", texts)) <==> forall k :: 0 <= k < |texts| ==> SafeText(texts[k])
  {
    JoinAvoids("\n", texts, IsSemicolon);
    JoinAvoids("\n", texts, IsOddBreak);
    ScanOfJoin(texts);
  }

  lemma SafeStatement(lines: seq<Line>)
    requires lines != []
    ensures SafeText(StatementText(lines)) <==> AllSafe(lines)
  {
    RenderAllLength(lines);
    SafeJoin(RenderAll(lines));
    assert forall k :: 0 <= k < |lines| ==> RenderAll(lines)[k] == Render(lines[k]);
  }

  lemma {:induction false} JoinEnds(sep: string, parts: seq<string>)
    requires parts != [] && parts[0] != "" && parts[|parts| - 1] != ""
    ensures Join(sep, parts) != "" && Join(sep, parts)[0] == parts[0][0]
    ensures var last := parts[|parts| - 1]; Join(sep, parts)[|Join(sep, parts)| - 1] == last[|last| - 1]
    decreases |parts|
  {
    if |parts| > 1 {
      var init := parts[..|parts| - 1];
      assert parts == init + [parts[|parts| - 1]];
      JoinConcat(sep, init, [parts[|parts| - 1]]);
      assert Join(sep, parts) == parts[0] + sep + Join(sep, parts[1..]);
    }
  }

  /** The edges of a rendered line are the edges of its first and last fragments. */
  lemma {:induction false} RenderEdges(line: Line)
    requires line != [] && RenderFragment(line[0]) != "" && RenderFragment(line[|line| - 1]) != ""
    ensures Render(line) != "" && Render(line)[0] == RenderFragment(line[0])[0]
    ensures var last := RenderFragment(line[|line| - 1]); Render(line)[|Render(line)| - 1] == last[|last| - 1]
  {
    var init, last := line[..|line| - 1], [line[|line| - 1]];
    assert line == init + last;
    RenderConcat(init, last);
    assert last[1..] == [] && Render(last) == RenderFragment(last[0]) + "";
  }

  /** Printable ASCII without quote and semicolon: what the fixed text of the statements is made of. */
  predicate Printable(s: string) {
    forall i :: 0 <= i < |s| ==> ' ' <= s[i] <= '~' && s[i] != ';' && s[i] != '\''
  }

  /** A line of fixed text that starts and ends visibly. */
  predicate FixedText(body: Line) {
    && body != []
    && (forall k :: 0 <= k < |body| ==> body[k].Sql? && body[k].text != "" && Printable(body[k].text))
    && var first, last := body[0].text, body[|body| - 1].text;
       first[0] != ' ' && first[0] != '-' && last[|last| - 1] != ' '
  }

  lemma {:induction false} FixedTextIsPrintable(body: Line)
    requires forall k :: 0 <= k < |body| ==> body[k].Sql? && Printable(body[k].text)
    ensures Printable(Render(body)) && WellSpaced(body)
    decreases |body|
  {
    if body != [] {
      FixedTextIsPrintable(body[1..]);
    }
  }

  /** A line a statement is framed with: safe, ending visibly, and without quoted values. */
  ghost predicate FrameLine(line: Line) {
    && SafeText(Render(line)) && Render(line) != "" && !IsSpace(Render(line)[|Render(line)| - 1])
    && WellSpaced(line) && Values(line) == []
  }

  lemma {:induction false} FixedTextHasNoValues(body: Line)
    requires forall k :: 0 <= k < |body| ==> body[k].Sql? && Printable(body[k].text)
    ensures Values(body) == []
    decreases |body|
  {
    if body != [] {
      FixedTextHasNoValues(body[1..]);
    }
  }

  /** Starts and ends visibly, and is no comment. */
  predicate Prominent(s: string) {
    Solid(s) && s[0] != '-'
  }

  lemma PrintableIsSafe(pad: string, s: string)
    requires Blank(pad) && Printable(pad) && Printable(s) && Prominent(s)
    ensures SafeText(pad + s)
  {
    AvoidsConcat(pad, s, IsSemicolon);
    AvoidsConcat(pad, s, IsOddBreak);
    ScanConcat(Fresh, pad, s);
    ScanBlank(pad);
    VisibleFrom(Fresh, s);
    ScanStays(Visible, s);
  }

  lemma FixedTextIsProminent(body: Line)
    requires FixedText(body)
    ensures Prominent(Render(body)) && Printable(Render(body))
  {
    RenderEdges(body);
    FixedTextIsPrintable(body);
  }

  /** A line of fixed text, unindented. */
  lemma FixedLine(body: Line)
    requires FixedText(body)
    ensures FrameLine(body) && Prominent(Render(body)) && Printable(Render(body))
  {
    FixedTextIsProminent(body);
    FixedTextIsPrintable(body);
    FixedTextHasNoValues(body);
    PrintableIsSafe("", Render(body));
    assert "" + Render(body) == Render(body);
  }

  /** A line of fixed text, indented. */
  lemma IndentedFixedLine(pad: string, body: Line)
    requires Blank(pad) && Printable(pad)
    requires FixedText(body)
    ensures FrameLine([Sql(pad)] + body)
  {
    FixedLine(body);
    var line := [Sql(pad)] + body;
    FixedTextIsPrintable(line);
    FixedTextHasNoValues(line);
    assert line[1..] == body;
    assert Render(line) == pad + Render(body);
    PrintableIsSafe(pad, Render(body));
  }

  /** What is needed of the fixed lines of a statement. */
  ghost predicate GoodFrame(head: seq<Line>, last: Line) {
    && head != [] && Prominent(Render(head[0])) && FrameLine(last)
    && forall k :: 0 <= k < |head| ==> FrameLine(head[k])
  }

  /** A nonempty piece of fixed text. */
  predicate Piece(s: string) {
    s != "" && Printable(s)
  }

  /** An unindented line of two pieces. */
  lemma LineOfTwo(a: string, b: string)
    requires Piece(a) && Piece(b) && a[0] != ' ' && a[0] != '-' && b[|b| - 1] != ' '
    ensures FrameLine([Sql(a), Sql(b)]) && Prominent(Render([Sql(a), Sql(b)]))
  {
    FixedLine([Sql(a), Sql(b)]);
  }

  /** An indented line of three pieces. */
  lemma IndentedThree(pad: string, a: string, b: string, c: string)
    requires Blank(pad) && Printable(pad)
    requires Piece(a) && Piece(b) && Piece(c) && a[0] != ' ' && a[0] != '-' && c[|c| - 1] != ' '
    ensures FrameLine([Sql(pad), Sql(a), Sql(b), Sql(c)])
  {
    var body := [Sql(a), Sql(b), Sql(c)];
    IndentedFixedLine(pad, body);
    assert [Sql(pad), Sql(a), Sql(b), Sql(c)] == [Sql(pad)] + body;
  }

  lemma InsertIntoIsFixed()
    ensures FrameLine(InsertInto()) && Prominent(Render(InsertInto()))
  {
    LineOfTwo("INSERT INTO ", "sys_permission");
  }

  lemma ColumnsOneIsFixed()
    ensures FrameLine(ColumnsOne())
  {
    IndentedThree("  ", "(permission_code, ", "permission_name, ", "order_num, status,");
  }

  lemma ColumnsTwoIsFixed()
    ensures FrameLine(ColumnsTwo())
  {
    IndentedThree("   ", "created_at, updated_at, ", "created_by, updated_by, ", "version, remark)");
  }

  lemma OnDuplicateIsFixed()
    ensures FrameLine(OnDuplicate())
  {
    LineOfTwo("ON DUPLICATE KEY ", "UPDATE updated_at = updated_at");
  }

  lemma ValuesIsFixed()
    ensures FrameLine([Sql("VALUES")])
  {
    assert Printable("VALUES");
    FixedLine([Sql("VALUES")]);
  }

  lemma ClosingIsFixed()
    ensures FrameLine([Sql(")")])
  {
    assert Printable(")");
    FixedLine([Sql(")")]);
  }

  lemma FrameOfFour(a: Line, b: Line, c: Line, d: Line, last: Line)
    requires FrameLine(a) && FrameLine(b) && FrameLine(c) && FrameLine(d) && FrameLine(last) && Prominent(Render(a))
    ensures GoodFrame([a, b, c, d], last)
  {
    var head := [a, b, c, d];
    forall k | 0 <= k < |head| ensures FrameLine(head[k]) {
      assert head[k] == a || head[k] == b || head[k] == c || head[k] == d;
    }
  }

  lemma InsertFrame()
    ensures GoodFrame(InsertHead(), OnDuplicate())
  {
    InsertIntoIsFixed();
    ColumnsOneIsFixed();
    ColumnsTwoIsFixed();
    OnDuplicateIsFixed();
    ValuesIsFixed();
    FrameOfFour(InsertInto(), ColumnsOne(), ColumnsTwo(), [Sql("VALUES")], OnDuplicate());
  }

  lemma DeleteFromIsFixed()
    ensures FrameLine(DeleteFrom()) && Prominent(Render(DeleteFrom()))
  {
    LineOfTwo("DELETE FROM ", "sys_permission");
  }

  lemma WhereInIsFixed()
    ensures FrameLine(WhereIn())
  {
    LineOfTwo("WHERE ", "permission_code IN (");
  }

  lemma PruneFrame()
    ensures GoodFrame(PruneHead(), [Sql(")")])
  {
    DeleteFromIsFixed();
    WhereInIsFixed();
    ClosingIsFixed();
    assert forall k :: 0 <= k < 2 ==> PruneHead()[k] == if k == 0 then DeleteFrom() else WhereIn();
  }

  lemma CommentsAreDropped(comment: string)
    requires |comment| > 2 && comment[..2] == "--" && !IsSpace(comment[|comment| - 1])
    ensures !KeptLine(comment)
  {
  }

  lemma InsertCommentIsGood()
    ensures OneLine(INSERT_COMMENT) && !KeptLine(INSERT_COMMENT)
  {
    CommentsAreDropped(INSERT_COMMENT);
  }

  lemma PruneCommentIsGood()
    ensures OneLine(PRUNE_COMMENT) && !KeptLine(PRUNE_COMMENT)
  {
    var a, b, c := "-- 删除代码中已不存在的权限码", "（会 CASCADE 清理 ", "sys_role_permission）";
    assert OneLine(a) && OneLine(b) && OneLine(c);
    OneLineConcat(a, b);
    OneLineConcat(a + b, c);
    CommentsAreDropped(PRUNE_COMMENT);
  }

  lemma NoteIsGood(note: string)
    requires |note| > 2 && note[..2] == "--" && Printable(note) && note[|note| - 1] != ' '
    ensures GoodPart(Note(note))
  {
  }

  lemma NoMissingIsGood()
    ensures GoodPart(Note(NO_MISSING))
  {
    NoteIsGood(NO_MISSING);
  }

  lemma NoOrphansIsGood()
    ensures GoodPart(Note(NO_ORPHANS))
  {
    NoteIsGood(NO_ORPHANS);
  }

  lemma {:induction false} InsertRowsAt(entries: seq<Entry>, stamp: Stamp)
    ensures forall k :: 0 <= k < |entries| ==> InsertRows(entries, stamp)[k] == InsertRow(entries[k], stamp)
    decreases |entries|
  {
    if entries != [] {
      InsertRowsAt(entries[1..], stamp);
    }
  }

  lemma {:induction false} PruneRowsAt(codes: seq<string>)
    ensures forall k :: 0 <= k < |codes| ==> PruneRows(codes)[k] == PruneRow(codes[k])
    decreases |codes|
  {
    if codes != [] {
      PruneRowsAt(codes[1..]);
    }
  }

  // ---------------------------------------------------------------------------------------
  // A statement is safe exactly when its values are
  // ---------------------------------------------------------------------------------------

  /** Fixed text without breaks and semicolons. */
  predicate Harmless(f: Fragment) {
    f.Sql? ==> Avoids(f.text, IsNewline) && Avoids(f.text, IsOddBreak) && Avoids(f.text, IsSemicolon)
  }

  /** An indented row whose fixed text is harmless and whose first character behind the indentation is visible. */
  ghost predicate RowShape(row: Line) {
    && row != [] && row[0] == Sql("  ")
    && (forall k :: 0 <= k < |row| ==> Harmless(row[k]))
    && StartsProminent(Render(row[1..]))
  }

  predicate StartsProminent(s: string) {
    s != "" && !IsSpace(s[0]) && s[0] != '-'
  }

  lemma {:induction false} ValuesMembers(line: Line)
    ensures forall v :: v in Values(line) <==> Quoted(v) in line
    decreases |line|
  {
    if line != [] {
      ValuesMembers(line[1..]);
      assert line == [line[0]] + line[1..];
    }
  }

  /** A row, with or without a comma, is safe exactly when its values survive. */
  lemma RowIsSafeIff(row: Line)
    requires RowShape(row)
    ensures SafeText(Render(row)) <==> AllSurvive(Values(row))
  {
    var rest := Render(row[1..]);
    RenderAvoids(row, IsSemicolon);
    RenderAvoids(row, IsOddBreak);
    assert Render(row) == "  " + rest;
    ScanConcat(Fresh, "  ", rest);
    ScanBlank("  ");
    VisibleFrom(Fresh, rest);
    assert forall k :: 0 <= k < |row[1..]| ==> row[1..][k] == row[k + 1] && Harmless(row[k + 1]);
    ScanOfRender(row[1..]);
    ValuesMembers(row);
    SafeByValues(row);
  }

  /** The three conditions on the fragments, gathered by value. */
  lemma SafeByValues(row: Line)
    requires RowShape(row)
    ensures AllSurvive(Values(row))
       <==> && LineAvoids(row, IsSemicolon) && LineAvoids(row, IsOddBreak)
            && forall k :: 0 <= k < |row[1..]| && row[1..][k].Quoted? ==> Scan(Visible, row[1..][k].value).Open()
  {
    AvoidsByValues(row, IsSemicolon);
    AvoidsByValues(row, IsOddBreak);
    OpenByValues(row);
    AllSurviveMembers(Values(row));
    forall v ensures Survives(v) <==> Avoids(v, IsSemicolon) && Avoids(v, IsOddBreak) && Scan(Visible, v).Open() {
      LineSafeIsOpen(v);
    }
  }

  lemma AvoidsByValues(row: Line, bad: char -> bool)
    requires forall k :: 0 <= k < |row| && row[k].Sql? ==> Avoids(row[k].text, bad)
    ensures LineAvoids(row, bad) <==> forall v :: v in Values(row) ==> Avoids(v, bad)
  {
    ValuesMembers(row);
    if forall v :: v in Values(row) ==> Avoids(v, bad) {
      forall k | 0 <= k < |row| ensures FragmentAvoids(row[k], bad) {
        assert row[k].Quoted? ==> row[k].value in Values(row);
      }
    }
  }

  lemma OpenByValues(row: Line)
    requires row != [] && row[0].Sql?
    ensures (forall k :: 0 <= k < |row[1..]| && row[1..][k].Quoted? ==> Scan(Visible, row[1..][k].value).Open())
       <==> forall v :: v in Values(row) ==> Scan(Visible, v).Open()
  {
    var rest := row[1..];
    ValuesMembers(rest);
    assert Values(row) == Values(rest);
    if forall v :: v in Values(row) ==> Scan(Visible, v).Open() {
      forall k | 0 <= k < |rest| && rest[k].Quoted? ensures Scan(Visible, rest[k].value).Open() {
        assert rest[k].value in Values(rest);
      }
    }
  }

  lemma AllSurviveMembers(values: seq<string>)
    ensures AllSurvive(values) <==> forall v :: v in values ==> Survives(v)
  {
  }

  lemma CommaKeepsShape(row: Line)
    requires RowShape(row)
    ensures RowShape(row + [Sql(",")])
  {
    var longer, comma := row + [Sql(",")], [Sql(",")];
    HarmlessNumbers(",");
    assert forall k :: 0 <= k < |longer| ==> longer[k] == if k < |row| then row[k] else comma[0];
    assert longer[1..] == row[1..] + comma;
    RenderConcat(row[1..], comma);
    assert Render(longer[1..])[0] == Render(row[1..])[0];
  }

  lemma CommaAddsNoValue(row: Line)
    ensures Values(row + [Sql(",")]) == Values(row)
  {
    ValuesConcat(row, [Sql(",")]);
    assert Values([Sql(",")]) == [] && Values(row) + [] == Values(row);
  }

  predicate AllSafe(lines: seq<Line>) {
    forall k :: 0 <= k < |lines| ==> SafeText(Render(lines[k]))
  }

  lemma AllSafeConcat(a: seq<Line>, b: seq<Line>)
    ensures AllSafe(a + b) <==> AllSafe(a) && AllSafe(b)
  {
    var all := a + b;
    assert forall k :: 0 <= k < |a| ==> a[k] == all[k];
    assert forall k :: 0 <= k < |b| ==> b[k] == all[|a| + k];
  }

  /** The printed rows are safe exactly when all their values survive. */
  lemma {:induction false} CommasAreSafeIff(rows: seq<Line>)
    requires forall k :: 0 <= k < |rows| ==> RowShape(rows[k])
    ensures AllSafe(Commas(rows)) <==> AllSurvive(AllValues(rows))
    decreases |rows|
  {
    if rows != [] {
      var first, more := rows[0], rows[1..];
      CommasAreSafeIff(more);
      AllSurviveConcat(Values(first), AllValues(more));
      if |rows| == 1 {
        RowIsSafeIff(first);
        assert AllValues(rows) == Values(first) + [] == Values(first);
        assert Commas(rows) == [first];
      } else {
        CommaKeepsShape(first);
        CommaAddsNoValue(first);
        RowIsSafeIff(first + [Sql(",")]);
        var printed := first + [Sql(",")];
        AllSafeConcat([printed], Commas(more));
        assert Commas(rows) == [printed] + Commas(more);
        assert [printed][0] == printed && (AllSafe([printed]) <==> SafeText(Render(printed)));
      }
    }
  }

  lemma AllSurviveConcat(a: seq<string>, b: seq<string>)
    ensures AllSurvive(a + b) <==> AllSurvive(a) && AllSurvive(b)
  {
    var all := a + b;
    assert forall k :: 0 <= k < |a| ==> a[k] == all[k];
    assert forall k :: 0 <= k < |b| ==> b[k] == all[|a| + k];
  }

  /** A framed statement is safe exactly when the values of its rows survive. */
  lemma FramedIsSafeIff(head: seq<Line>, rows: seq<Line>, last: Line)
    requires GoodFrame(head, last) && forall k :: 0 <= k < |rows| ==> RowShape(rows[k])
    ensures SafeText(StatementText(head + Commas(rows) + [last])) <==> AllSurvive(AllValues(rows))
  {
    SafeStatement(head + Commas(rows) + [last]);
    CommasAreSafeIff(rows);
    AllSafeConcat(head + Commas(rows), [last]);
    AllSafeConcat(head, Commas(rows));
    FrameIsSafe(head, last);
  }

  lemma FrameIsSafe(head: seq<Line>, last: Line)
    requires GoodFrame(head, last)
    ensures AllSafe(head) && AllSafe([last])
  {
  }

  lemma FramedIsProminent(head: seq<Line>, rows: seq<Line>, last: Line)
    requires GoodFrame(head, last)
    ensures Prominent(StatementText(head + rows + [last]))
  {
    var lines := head + rows + [last];
    RenderAllLength(lines);
    assert lines[0] == head[0] && lines[|lines| - 1] == last;
    JoinEnds("\n", RenderAll(lines));
  }

  lemma TwelveHarmless(row: Line)
    requires |row| == 12 && row[0] == Sql("  ") && StartsProminent(Render(row[1..]))
    requires Harmless(row[0]) && Harmless(row[1]) && Harmless(row[2]) && Harmless(row[3]) && Harmless(row[4]) && Harmless(row[5])
    requires Harmless(row[6]) && Harmless(row[7]) && Harmless(row[8]) && Harmless(row[9]) && Harmless(row[10]) && Harmless(row[11])
    ensures RowShape(row)
  {
  }

  lemma InsertRowShape(e: Entry, stamp: Stamp)
    ensures RowShape(InsertRow(e, stamp))
  {
    var row := InsertRow(e, stamp);
    HarmlessNumbers(row[5].text);
    HarmlessNumbers(row[9].text);
    HarmlessNumbers("  ");
    HarmlessNumbers("(");
    HarmlessNumbers(", ");
    HarmlessNumbers(")");
    RenderEdges(row[1..]);
    TwelveHarmless(row);
  }

  lemma HarmlessNumbers(s: string)
    requires forall i :: 0 <= i < |s| ==> ' ' <= s[i] <= '9'
    ensures Avoids(s, IsNewline) && Avoids(s, IsOddBreak) && Avoids(s, IsSemicolon)
  {
  }

  lemma PruneRowShape(code: string)
    ensures RowShape(PruneRow(code)) && Values(PruneRow(code)) == [code]
  {
    var row := PruneRow(code);
    HarmlessNumbers("  ");
    assert row[1..] == [Quoted(code)] && row[1..][1..] == [];
    assert Render(row[1..]) == "'" + Escape(code) + "'" + "";
    assert Values(row[1..]) == [code] + Values([]);
  }

  lemma InsertTextIsSafeIff(entries: seq<Entry>, stamp: Stamp)
    ensures (SafeText(InsertText(entries, stamp)) <==> AllSurvive(InsertValues(entries, stamp))) && Prominent(InsertText(entries, stamp))
  {
    var rows := InsertRows(entries, stamp);
    InsertRowsAt(entries, stamp);
    forall k | 0 <= k < |rows| ensures RowShape(rows[k]) {
      InsertRowShape(entries[k], stamp);
    }
    InsertFrame();
    FramedIsSafeIff(InsertHead(), rows, OnDuplicate());
    FramedIsProminent(InsertHead(), Commas(rows), OnDuplicate());
    InsertRowsValues(entries, stamp);
  }

  lemma PruneTextIsSafeIff(codes: seq<string>)
    ensures (SafeText(PruneText(codes)) <==> AllSurvive(codes)) && Prominent(PruneText(codes))
  {
    var rows := PruneRows(codes);
    PruneRowsAt(codes);
    forall k | 0 <= k < |rows| ensures RowShape(rows[k]) {
      PruneRowShape(codes[k]);
    }
    PruneFrame();
    FramedIsSafeIff(PruneHead(), rows, [Sql(")")]);
    FramedIsProminent(PruneHead(), Commas(rows), [Sql(")")]);
    PruneRowsValues(codes);
  }

  // ---------------------------------------------------------------------------------------
  // Round trip
  // ---------------------------------------------------------------------------------------

  function InsertText(entries: seq<Entry>, stamp: Stamp): string {
    StatementText(InsertLines(entries, stamp))
  }

  function PruneText(codes: seq<string>): string {
    StatementText(PruneLines(codes))
  }

  /** The statements the synchronisation is meant to execute. */
  function Intended(entries: seq<Entry>, codes: seq<string>, stamp: Stamp, prune: bool): seq<string> {
    (if entries != [] then [InsertText(entries, stamp)] else []) + (if prune && codes != [] then [PruneText(codes)] else [])
  }

  /** Every value the script prints survives. */
  predicate PrintsSafely(entries: seq<Entry>, codes: seq<string>, stamp: Stamp, prune: bool) {
    AllSurvive(InsertValues(entries, stamp)) && (prune ==> AllSurvive(codes))
  }

  /** A part that comes back whole. */
  predicate SafePart(p: Part) {
    GoodPart(p) && (p.Statement? ==> Avoids(StatementText(p.lines), IsSemicolon))
  }

  lemma SyncPartsAreGood(entries: seq<Entry>, codes: seq<string>, stamp: Stamp, prune: bool)
    requires PrintsSafely(entries, codes, stamp, prune)
    ensures forall p :: p in SyncParts(entries, codes, stamp, prune) ==> SafePart(p)
  {
    NoMissingIsGood();
    NoOrphansIsGood();
    var insert, delete := Statement(INSERT_COMMENT, InsertLines(entries, stamp)), Statement(PRUNE_COMMENT, PruneLines(codes));
    InsertPartIsGood(entries, stamp);
    if prune {
      PrunePartIsGood(codes);
    }
    forall p | p in SyncParts(entries, codes, stamp, prune) ensures SafePart(p) {
      assert p == insert || p == Note(NO_MISSING) || p == Note(NO_ORPHANS) || (prune && p == delete);
    }
  }

  lemma SafePartsAreSplit(parts: seq<Part>)
    requires parts != [] && forall p :: p in parts ==> SafePart(p)
    ensures StatementsOf(ScriptText(parts)) == ScriptStatements(parts)
  {
    forall k | 0 <= k < |parts| ensures SafePart(parts[k]) {
      assert parts[k] in parts;
    }
    ScriptIsSplit(parts);
  }

  lemma InsertPartIsGood(entries: seq<Entry>, stamp: Stamp)
    requires AllSurvive(InsertValues(entries, stamp))
    ensures GoodPart(Statement(INSERT_COMMENT, InsertLines(entries, stamp))) && Avoids(InsertText(entries, stamp), IsSemicolon)
  {
    InsertCommentIsGood();
    InsertTextIsSafeIff(entries, stamp);
  }

  lemma PrunePartIsGood(codes: seq<string>)
    requires AllSurvive(codes)
    ensures GoodPart(Statement(PRUNE_COMMENT, PruneLines(codes))) && Avoids(PruneText(codes), IsSemicolon)
  {
    PruneCommentIsGood();
    PruneTextIsSafeIff(codes);
  }

  lemma SyncStatements(entries: seq<Entry>, codes: seq<string>, stamp: Stamp, prune: bool)
    ensures ScriptStatements(SyncParts(entries, codes, stamp, prune)) == Intended(entries, codes, stamp, prune)
  {
    StatementsOfAtMostTwo(SyncParts(entries, codes, stamp, prune));
  }

  lemma StatementsOfAtMostTwo(parts: seq<Part>)
    requires |parts| <= 2
    ensures ScriptStatements(parts)
         == (if |parts| > 0 && parts[0].Statement? then [StatementText(parts[0].lines)] else [])
            + (if |parts| > 1 && parts[1].Statement? then [StatementText(parts[1].lines)] else [])
  {
  }

  /**
   Printing and splitting round-trip exactly when every printed value survives: it contains no
   semicolon, every break in it is a newline, no line between two breaks is blank or a comment, and
   what follows the last break does not start a comment.  Then the splitter returns the INSERT when
   there are entries and the DELETE when there is something to prune, and nothing else; otherwise it
   never does.
   */
  lemma SyncSqlRoundTripIff(entries: seq<Entry>, codes: seq<string>, stamp: Stamp, prune: bool)
    ensures StatementsOf(ScriptText(SyncParts(entries, codes, stamp, prune))) == Intended(entries, codes, stamp, prune)
       <==> PrintsSafely(entries, codes, stamp, prune)
  {
    var parts := SyncParts(entries, codes, stamp, prune);
    var sql := ScriptText(parts);
    var intended := Intended(entries, codes, stamp, prune);
    SyncStatements(entries, codes, stamp, prune);
    if PrintsSafely(entries, codes, stamp, prune) {
      SyncPartsAreGood(entries, codes, stamp, prune);
      SafePartsAreSplit(parts);
    } else if StatementsOf(sql) == intended {
      ReturnedTextsAreSafe(sql, entries, codes, stamp, prune);
    }
  }

  /** What the splitter returned is safe, so its values survive. */
  lemma ReturnedTextsAreSafe(sql: string, entries: seq<Entry>, codes: seq<string>, stamp: Stamp, prune: bool)
    requires StatementsOf(sql) == Intended(entries, codes, stamp, prune)
    ensures PrintsSafely(entries, codes, stamp, prune)
  {
    if entries != [] {
      InsertTextIsSafeIff(entries, stamp);
      assert StatementsOf(sql)[0] == InsertText(entries, stamp);
      ReturnedIsSafe(sql, 0);
    }
    if prune && codes != [] {
      PruneTextIsSafeIff(codes);
      var n := |StatementsOf(sql)| - 1;
      assert StatementsOf(sql)[n] == PruneText(codes);
      ReturnedIsSafe(sql, n);
    }
  }

  lemma ReturnedIsSafe(sql: string, k: nat)
    requires k < |StatementsOf(sql)| && Prominent(StatementsOf(sql)[k])
    ensures SafeText(StatementsOf(sql)[k])
  {
    StatementsAreSemicolonFree(sql);
    ReturnedSurvives(sql, StatementsOf(sql)[k]);
  }

  // ---------------------------------------------------------------------------------------
  // What MySQL reads
  // ---------------------------------------------------------------------------------------

  /** The literals of the INSERT: five to a row. */
  function InsertValues(entries: seq<Entry>, stamp: Stamp): seq<string> {
    if entries == [] then []
    else [entries[0].code, entries[0].name, stamp.now, stamp.now, stamp.remark] + InsertValues(entries[1..], stamp)
  }

  lemma {:induction false} ValuesConcat(a: Line, b: Line)
    ensures Values(a + b) == Values(a) + Values(b)
    decreases |a|
  {
    if a == [] {
      assert a + b == b;
    } else {
      assert (a + b)[1..] == a[1..] + b;
      ValuesConcat(a[1..], b);
    }
  }

  lemma {:induction false} AllValuesConcat(a: seq<Line>, b: seq<Line>)
    ensures AllValues(a + b) == AllValues(a) + AllValues(b)
    decreases |a|
  {
    if a == [] {
      assert a + b == b;
    } else {
      assert (a + b)[1..] == a[1..] + b;
      AllValuesConcat(a[1..], b);
      Assoc(Values(a[0]), AllValues(a[1..]), AllValues(b));
    }
  }

  /** Frame lines hold no values. */
  lemma {:induction false} FrameHasNoValues(lines: seq<Line>)
    requires forall k :: 0 <= k < |lines| ==> Values(lines[k]) == []
    ensures AllValues(lines) == []
    decreases |lines|
  {
    if lines != [] {
      FrameHasNoValues(lines[1..]);
    }
  }

  lemma {:induction false} WellSpacedComma(line: Line)
    requires WellSpaced(line)
    ensures WellSpaced(line + [Sql(",")])
    decreases |line|
  {
    if line != [] {
      assert (line + [Sql(",")])[1..] == line[1..] + [Sql(",")];
      WellSpacedComma(line[1..]);
    }
  }

  /** The commas change neither the values nor the spacing. */
  lemma {:induction false} CommasKeepValues(rows: seq<Line>)
    requires forall k :: 0 <= k < |rows| ==> WellSpaced(rows[k])
    ensures AllValues(Commas(rows)) == AllValues(rows)
    ensures forall k :: 0 <= k < |rows| ==> WellSpaced(Commas(rows)[k])
    decreases |rows|
  {
    if |rows| > 1 {
      CommasKeepValues(rows[1..]);
      ValuesConcat(rows[0], [Sql(",")]);
      assert Values([Sql(",")]) == [] && Values(rows[0]) + [] == Values(rows[0]);
      WellSpacedComma(rows[0]);
      assert Commas(rows)[1..] == Commas(rows[1..]);
    }
  }

  lemma FramedIsWellSpaced(head: seq<Line>, rows: seq<Line>, last: Line)
    requires GoodFrame(head, last) && forall k :: 0 <= k < |rows| ==> WellSpaced(rows[k])
    ensures forall k :: 0 <= k < |head + Commas(rows) + [last]| ==> WellSpaced((head + Commas(rows) + [last])[k])
  {
    var lines := head + Commas(rows) + [last];
    CommasKeepValues(rows);
    forall k | 0 <= k < |lines| ensures WellSpaced(lines[k]) {
      if k < |head| {
        assert lines[k] == head[k];
      } else if k < |head| + |rows| {
        assert lines[k] == Commas(rows)[k - |head|];
      }
    }
  }

  lemma AllValuesBetween(head: seq<Line>, rows: seq<Line>, last: seq<Line>)
    requires AllValues(head) == [] && AllValues(last) == []
    ensures AllValues(head + rows + last) == AllValues(rows)
  {
    AllValuesConcat(head + rows, last);
    AllValuesConcat(head, rows);
    assert [] + AllValues(rows) + [] == AllValues(rows);
  }

  lemma FramedValues(head: seq<Line>, rows: seq<Line>, last: Line)
    requires GoodFrame(head, last) && forall k :: 0 <= k < |rows| ==> WellSpaced(rows[k])
    ensures AllValues(head + Commas(rows) + [last]) == AllValues(rows)
  {
    CommasKeepValues(rows);
    FrameHasNoValues(head);
    FrameHasNoValues([last]);
    AllValuesBetween(head, Commas(rows), [last]);
  }

  /** The literals of a framed statement are the values of its rows. */
  lemma FramedLiterals(head: seq<Line>, rows: seq<Line>, last: Line)
    requires GoodFrame(head, last) && forall k :: 0 <= k < |rows| ==> WellSpaced(rows[k])
    ensures Literals(StatementText(head + Commas(rows) + [last])) == AllValues(rows)
  {
    FramedIsWellSpaced(head, rows, last);
    FramedValues(head, rows, last);
    LiteralsOfLines(head + Commas(rows) + [last]);
  }

  /** Plain text that may stand between values. */
  predicate Spacer(f: Fragment) {
    f.Sql? && f.text != "" && QuoteFree(f.text)
  }

  lemma FiveValues(row: Line, v: seq<string>)
    requires |row| == 12 && |v| == 5
    requires Spacer(row[0]) && Spacer(row[1]) && Spacer(row[3]) && Spacer(row[5]) && Spacer(row[7]) && Spacer(row[9]) && Spacer(row[11])
    requires row[2] == Quoted(v[0]) && row[4] == Quoted(v[1]) && row[6] == Quoted(v[2]) && row[8] == Quoted(v[3]) && row[10] == Quoted(v[4])
    ensures Values(row) == v && WellSpaced(row)
  {
    assert row[12..] == [];
    PairAt(row, 10, v[4]);
    PairAt(row, 8, v[3]);
    PairAt(row, 6, v[2]);
    PairAt(row, 4, v[1]);
    PairAt(row, 2, v[0]);
    assert row == [row[0]] + ([row[1]] + row[2..]);
    SqlAddsNoValue(row[1], row[2..]);
    SqlAddsNoValue(row[0], [row[1]] + row[2..]);
    assert v == [v[0], v[1], v[2], v[3], v[4]];
  }

  lemma PairAt(row: Line, k: nat, value: string)
    requires k + 1 < |row| && row[k] == Quoted(value) && Spacer(row[k + 1])
    ensures Values(row[k..]) == [value] + Values(row[k + 2..])
    ensures WellSpaced(row[k..]) <==> WellSpaced(row[k + 2..])
  {
  }

  lemma InsertRowValues(e: Entry, stamp: Stamp)
    ensures Values(InsertRow(e, stamp)) == [e.code, e.name, stamp.now, stamp.now, stamp.remark]
    ensures WellSpaced(InsertRow(e, stamp))
  {
    FiveValues(InsertRow(e, stamp), [e.code, e.name, stamp.now, stamp.now, stamp.remark]);
  }

  lemma SqlAddsNoValue(text: Fragment, rest: Line)
    requires text.Sql? && QuoteFree(text.text)
    ensures Values([text] + rest) == Values(rest)
    ensures WellSpaced([text] + rest) <==> WellSpaced(rest)
  {
  }

  lemma {:induction false} InsertRowsValues(entries: seq<Entry>, stamp: Stamp)
    ensures AllValues(InsertRows(entries, stamp)) == InsertValues(entries, stamp)
    ensures forall k :: 0 <= k < |entries| ==> WellSpaced(InsertRows(entries, stamp)[k])
    decreases |entries|
  {
    if entries != [] {
      InsertRowsValues(entries[1..], stamp);
      InsertRowValues(entries[0], stamp);
    }
  }

  lemma {:induction false} PruneRowsValues(codes: seq<string>)
    ensures AllValues(PruneRows(codes)) == codes
    ensures forall k :: 0 <= k < |codes| ==> WellSpaced(PruneRows(codes)[k])
    decreases |codes|
  {
    if codes != [] {
      PruneRowsValues(codes[1..]);
      var tail := [Quoted(codes[0])];
      assert tail[1..] == [] && Values(tail) == [codes[0]] + Values([]) && WellSpaced(tail);
      SqlAddsNoValue(Sql("  "), tail);
      assert PruneRow(codes[0]) == [Sql("  ")] + tail;
    }
  }

  /** MySQL reads every printed code and name back, whatever characters they contain. */
  lemma PrintedLiteralsAreReadBack(entries: seq<Entry>, codes: seq<string>, stamp: Stamp)
    ensures Literals(InsertText(entries, stamp)) == InsertValues(entries, stamp)
    ensures Literals(PruneText(codes)) == codes
  {
    InsertFrame();
    PruneFrame();
    InsertRowsValues(entries, stamp);
    PruneRowsValues(codes);
    FramedLiterals(InsertHead(), InsertRows(entries, stamp), OnDuplicate());
    FramedLiterals(PruneHead(), PruneRows(codes), [Sql(")")]);
  }
}

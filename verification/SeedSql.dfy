/** The SQL printers of `auth_harness/perms/seed_sql.py`. */
module SeedSql {
  import opened Text
  import opened MySqlText
  import opened SqlParts

  datatype Entry = Entry(code: string, name: string, order: int)

  /** What is the same in every inserted row; `now` is the formatted clock. */
  datatype Stamp = Stamp(now: string, remark: string, createdBy: int)

  /** Decimal digits, as an f-string prints an int. */
  function NatText(n: nat): (s: string)
    ensures s != "" && forall i :: 0 <= i < |s| ==> '0' <= s[i] <= '9'
  {
    var digit := ['0' + (n % 10) as char];
    if n < 10 then digit else NatText(n / 10) + digit
  }

  function IntText(n: int): (s: string)
    ensures s != "" && forall i :: 0 <= i < |s| ==> '0' <= s[i] <= '9' || s[i] == '-'
  {
    if n < 0 then "-" + NatText(-n) else NatText(n)
  }

  /** The number decimal digits stand for. */
  function ReadNat(s: string): nat
    requires forall i :: 0 <= i < |s| ==> '0' <= s[i] <= '9'
  {
    if s == "" then 0 else ReadNat(s[..|s| - 1]) * 10 + (s[|s| - 1] - '0') as nat
  }

  /** A printed number is the number. */
  lemma {:induction false} NatIsReadBack(n: nat)
    ensures ReadNat(NatText(n)) == n
    decreases n
  {
    var digit := ['0' + (n % 10) as char];
    if n >= 10 {
      NatIsReadBack(n / 10);
      assert (NatText(n / 10) + digit)[..|NatText(n / 10)|] == NatText(n / 10);
    } else {
      assert digit[..0] == "";
    }
  }

  lemma IntIsReadBack(n: int)
    ensures n >= 0 ==> IntText(n) == NatText(n) && ReadNat(NatText(n)) == n
    ensures n < 0 ==> IntText(n) == "-" + NatText(-n) && ReadNat(NatText(-n)) == -n
  {
    NatIsReadBack(if n < 0 then -n else n);
  }

  const NO_MISSING := "-- no missing permissions"
  const NO_ORPHANS := "-- no orphan permissions to prune"
  const INSERT_COMMENT := "-- 仅插入缺失权限码；已存在的行不改名"
  const PRUNE_COMMENT := "-- 删除代码中已不存在的权限码" + "（会 CASCADE 清理 " + "sys_role_permission）"

  /** One value tuple of the INSERT. */
  function InsertRow(e: Entry, stamp: Stamp): Line {
    [Sql("  "), Sql("("), Quoted(e.code), Sql(", "), Quoted(e.name), Sql(", " + IntText(e.order) + ", 1, "),
     Quoted(stamp.now), Sql(", "), Quoted(stamp.now),
     Sql(", " + IntText(stamp.createdBy) + ", " + IntText(stamp.createdBy) + ", 0, "), Quoted(stamp.remark), Sql(")")]
  }

  function InsertRows(entries: seq<Entry>, stamp: Stamp): (rows: seq<Line>)
    ensures |rows| == |entries|
  {
    if entries == [] then [] else [InsertRow(entries[0], stamp)] + InsertRows(entries[1..], stamp)
  }

  /** One code of the DELETE. */
  function PruneRow(code: string): Line {
    [Sql("  "), Quoted(code)]
  }

  function PruneRows(codes: seq<string>): (rows: seq<Line>)
    ensures |rows| == |codes|
  {
    if codes == [] then [] else [PruneRow(codes[0])] + PruneRows(codes[1..])
  }

  /** Every row but the last is followed by a comma. */
  function Commas(rows: seq<Line>): (r: seq<Line>)
    ensures |r| == |rows|
  {
    if |rows| <= 1 then rows else [rows[0] + [Sql(",")]] + Commas(rows[1..])
  }

  function InsertInto(): Line {
    [Sql("INSERT INTO "), Sql("sys_permission")]
  }

  function ColumnsOne(): Line {
    [Sql("  "), Sql("(permission_code, "), Sql("permission_name, "), Sql("order_num, status,")]
  }

  function ColumnsTwo(): Line {
    [Sql("   "), Sql("created_at, updated_at, "), Sql("created_by, updated_by, "), Sql("version, remark)")]
  }

  function InsertHead(): seq<Line> {
    [InsertInto(), ColumnsOne(), ColumnsTwo(), [Sql("VALUES")]]
  }

  function OnDuplicate(): Line {
    [Sql("ON DUPLICATE KEY "), Sql("UPDATE updated_at = updated_at")]
  }

  function InsertLines(entries: seq<Entry>, stamp: Stamp): seq<Line> {
    InsertHead() + Commas(InsertRows(entries, stamp)) + [OnDuplicate()]
  }

  function DeleteFrom(): Line {
    [Sql("DELETE FROM "), Sql("sys_permission")]
  }

  function WhereIn(): Line {
    [Sql("WHERE "), Sql("permission_code IN (")]
  }

  function PruneHead(): seq<Line> {
    [DeleteFrom(), WhereIn()]
  }

  function PruneLines(codes: seq<string>): seq<Line> {
    PruneHead() + Commas(PruneRows(codes)) + [[Sql(")")]]
  }

  // ---------------------------------------------------------------------------------------
  // The printers
  // ---------------------------------------------------------------------------------------

  /** The loop of `build_upsert_sql` over the entries. */
  method BuildValueSql(entries: seq<Entry>, stamp: Stamp) returns (valueSql: seq<string>)
    ensures valueSql == RenderAll(InsertRows(entries, stamp))
  {
    valueSql := [];
    for i := 0 to |entries|
      invariant valueSql == RenderAll(InsertRows(entries[..i], stamp))
    {
      OneMoreRow(entries, i, stamp);
      valueSql := valueSql + [Render(InsertRow(entries[i], stamp))];
    }
    assert entries[..|entries|] == entries;
  }

  /** `build_upsert_sql`. */
  method BuildUpsertSql(entries: seq<Entry>, stamp: Stamp) returns (sql: string)
    ensures sql == if entries == [] then NO_MISSING + "\n" else PartText(Statement(INSERT_COMMENT, InsertLines(entries, stamp))) + "\n"
  {
    if entries == [] {
      return NO_MISSING + "\n";
    }
    var lines := [INSERT_COMMENT] + RenderAll(InsertHead());
    var valueSql := BuildValueSql(entries, stamp);
    lines := lines + [Join(",\n", valueSql)];
    lines := lines + [Render(OnDuplicate()) + ";"];
    lines := lines + [""];
    PrintedRows(INSERT_COMMENT, InsertHead(), InsertRows(entries, stamp), OnDuplicate());
    sql := Join("\n", lines);
  }

  /** `build_prune_sql`. */
  function BuildPruneSql(codes: seq<string>): string {
    if codes == [] then NO_ORPHANS + "\n"
    else
      PRUNE_COMMENT + "\n" + (Render(DeleteFrom()) + "\n") + (Render(WhereIn()) + "\n" + Join(",\n", RenderAll(PruneRows(codes))) + "\n);\n")
  }

  // ---------------------------------------------------------------------------------------
  // The printers print parts
  // ---------------------------------------------------------------------------------------

  lemma {:induction false} InsertRowsSnoc(entries: seq<Entry>, e: Entry, stamp: Stamp)
    ensures InsertRows(entries + [e], stamp) == InsertRows(entries, stamp) + [InsertRow(e, stamp)]
    decreases |entries|
  {
    if entries == [] {
      assert [e][1..] == [] && entries + [e] == [e];
    } else {
      assert (entries + [e])[1..] == entries[1..] + [e];
      InsertRowsSnoc(entries[1..], e, stamp);
    }
  }

  lemma OneMoreRow(entries: seq<Entry>, i: nat, stamp: Stamp)
    requires i < |entries|
    ensures RenderAll(InsertRows(entries[..i + 1], stamp)) == RenderAll(InsertRows(entries[..i], stamp)) + [Render(InsertRow(entries[i], stamp))]
  {
    var row := InsertRow(entries[i], stamp);
    assert entries[..i + 1] == entries[..i] + [entries[i]];
    InsertRowsSnoc(entries[..i], entries[i], stamp);
    RenderAllConcat(InsertRows(entries[..i], stamp), [row]);
    assert [row][1..] == [] && RenderAll([row]) == [Render(row)];
  }

  lemma {:induction false} RenderAllConcat(a: seq<Line>, b: seq<Line>)
    ensures RenderAll(a + b) == RenderAll(a) + RenderAll(b)
    decreases |a|
  {
    if a == [] {
      assert a + b == b;
    } else {
      assert (a + b)[1..] == a[1..] + b;
      RenderAllConcat(a[1..], b);
    }
  }

  lemma {:induction false} RenderConcat(a: Line, b: Line)
    ensures Render(a + b) == Render(a) + Render(b)
    decreases |a|
  {
    if a == [] {
      assert a + b == b;
    } else {
      assert (a + b)[1..] == a[1..] + b;
      RenderConcat(a[1..], b);
    }
  }

  /** A printed text value. */
  function QuotedText(value: string): string {
    "'" + Escape(value) + "'"
  }

  /** The ten columns of a row: code, name, order number, status 1, both times, both users, version 0, remark. */
  function RowColumns(e: Entry, stamp: Stamp): seq<string> {
    [QuotedText(e.code), QuotedText(e.name), IntText(e.order), "1", QuotedText(stamp.now), QuotedText(stamp.now),
     IntText(stamp.createdBy), IntText(stamp.createdBy), "0", QuotedText(stamp.remark)]
  }

  lemma JoinFrom(sep: string, t: seq<string>, k: nat)
    requires k + 1 < |t|
    ensures Join(sep, t[k..]) == t[k] + sep + Join(sep, t[k + 1..])
  {
    assert t[k..][1..] == t[k + 1..];
  }

  lemma RenderFrom(line: Line, k: nat)
    requires k < |line|
    ensures Render(line[k..]) == RenderFragment(line[k]) + Render(line[k + 1..])
  {
    assert line[k..][1..] == line[k + 1..];
  }

  /** A value, the text behind it, and the rest of the row. */
  lemma RenderPair(line: Line, k: nat, value: string, text: string)
    requires k + 1 < |line| && line[k] == Quoted(value) && line[k + 1] == Sql(text)
    ensures Render(line[k..]) == QuotedText(value) + (text + Render(line[k + 2..]))
  {
    RenderFrom(line, k);
    RenderFrom(line, k + 1);
  }

  lemma OneColumn(t: seq<string>, k: nat, line: string, rest: string)
    requires k + 1 < |t| && rest == Join(", ", t[k + 1..]) + ")" && line == t[k] + (", " + rest)
    ensures line == Join(", ", t[k..]) + ")"
  {
    JoinFrom(", ", t, k);
    Assoc(t[k] + ", ", Join(", ", t[k + 1..]), ")");
    Assoc(t[k], ", ", Join(", ", t[k + 1..]) + ")");
  }

  lemma RowEnd(row: Line, t: seq<string>, stamp: Stamp)
    requires |row| == 12 && |t| == 10
    requires row[8] == Quoted(stamp.now) && row[9] == Sql(", " + IntText(stamp.createdBy) + ", " + IntText(stamp.createdBy) + ", 0, ")
    requires row[10] == Quoted(stamp.remark) && row[11] == Sql(")")
    requires t[5] == QuotedText(stamp.now) && t[6] == t[7] == IntText(stamp.createdBy) && t[8] == "0" && t[9] == QuotedText(stamp.remark)
    ensures Render(row[8..]) == Join(", ", t[5..]) + ")"
  {
    assert row[12..] == [] && t[9..] == [t[9]];
    RenderPair(row, 10, stamp.remark, ")");
    assert Render(row[10..]) == Join(", ", t[9..]) + ")";
    RenderPair(row, 8, stamp.now, ", " + IntText(stamp.createdBy) + ", " + IntText(stamp.createdBy) + ", 0, ");
    UsersAndVersion(t, stamp, Render(row[10..]), Render(row[8..]));
  }

  lemma RowStart(row: Line, t: seq<string>, e: Entry, stamp: Stamp)
    requires |row| == 12 && |t| == 10 && Render(row[8..]) == Join(", ", t[5..]) + ")"
    requires row[2] == Quoted(e.code) && row[3] == Sql(", ") && row[4] == Quoted(e.name)
    requires row[5] == Sql(", " + IntText(e.order) + ", 1, ") && row[6] == Quoted(stamp.now) && row[7] == Sql(", ")
    requires t[0] == QuotedText(e.code) && t[1] == QuotedText(e.name) && t[2] == IntText(e.order) && t[3] == "1" && t[4] == QuotedText(stamp.now)
    ensures Render(row[2..]) == Join(", ", t) + ")"
  {
    RenderPair(row, 6, stamp.now, ", ");
    OneColumn(t, 4, Render(row[6..]), Render(row[8..]));
    RenderPair(row, 4, e.name, ", " + IntText(e.order) + ", 1, ");
    OrderAndStatus(t, e, Render(row[6..]), Render(row[4..]));
    RenderPair(row, 2, e.code, ", ");
    OneColumn(t, 0, Render(row[2..]), Render(row[4..]));
    assert t[0..] == t;
  }

  /** A printed row is the ten columns between parentheses. */
  lemma InsertRowText(e: Entry, stamp: Stamp)
    ensures Render(InsertRow(e, stamp)) == "  " + ("(" + (Join(", ", RowColumns(e, stamp)) + ")"))
  {
    var row, t := InsertRow(e, stamp), RowColumns(e, stamp);
    RowEnd(row, t, stamp);
    RowStart(row, t, e, stamp);
    RenderFrom(row, 1);
    RenderFrom(row, 0);
    assert row[0..] == row;
  }

  lemma UsersAndVersion(t: seq<string>, stamp: Stamp, rest: string, line: string)
    requires |t| == 10 && t[6] == t[7] == IntText(stamp.createdBy) && t[8] == "0"
    requires rest == Join(", ", t[9..]) + ")"
    requires line == t[5] + ((", " + IntText(stamp.createdBy) + ", " + IntText(stamp.createdBy) + ", 0, ") + rest)
    ensures line == Join(", ", t[5..]) + ")"
  {
    var u := IntText(stamp.createdBy);
    OneColumn(t, 8, t[8] + (", " + rest), rest);
    var third := t[8] + (", " + rest);
    OneColumn(t, 7, t[7] + (", " + third), third);
    var second := t[7] + (", " + third);
    OneColumn(t, 6, t[6] + (", " + second), second);
    var first := t[6] + (", " + second);
    OneColumn(t, 5, t[5] + (", " + first), first);
    assert (", " + u + ", " + u + ", 0, ") + rest == ", " + first by {
      assert ", 0, " == ", " + ("0" + ", ");
    }
  }

  lemma OrderAndStatus(t: seq<string>, e: Entry, rest: string, line: string)
    requires |t| == 10 && t[2] == IntText(e.order) && t[3] == "1"
    requires rest == Join(", ", t[4..]) + ")"
    requires line == t[1] + ((", " + IntText(e.order) + ", 1, ") + rest)
    ensures line == Join(", ", t[1..]) + ")"
  {
    OneColumn(t, 3, t[3] + (", " + rest), rest);
    var second := t[3] + (", " + rest);
    OneColumn(t, 2, t[2] + (", " + second), second);
    var first := t[2] + (", " + second);
    OneColumn(t, 1, t[1] + (", " + first), first);
    assert (", " + t[2] + ", 1, ") + rest == ", " + first by {
      assert ", 1, " == ", " + ("1" + ", ");
    }
  }

  lemma {:induction false} JoinConcat(sep: string, a: seq<string>, b: seq<string>)
    requires a != [] && b != []
    ensures Join(sep, a + b) == Join(sep, a) + sep + Join(sep, b)
    decreases |a|
  {
    assert (a + b)[1..] == a[1..] + b;
    if |a| == 1 {
      assert a[1..] + b == b;
    } else {
      JoinConcat(sep, a[1..], b);
    }
  }

  /** Joining the rows with commas and newlines is joining the comma lines with newlines. */
  lemma {:induction false} JoinCommas(rows: seq<Line>)
    requires rows != []
    ensures Join(",\n", RenderAll(rows)) == Join("\n", RenderAll(Commas(rows)))
    decreases |rows|
  {
    RenderAllLength(rows);
    if |rows| > 1 {
      var more := rows[1..];
      JoinCommas(more);
      RenderAllLength(more);
      RenderAllLength(Commas(more));
      RenderConcat(rows[0], [Sql(",")]);
      assert Render([Sql(",")]) == ",";
      var first := rows[0] + [Sql(",")];
      assert RenderAll(rows)[1..] == RenderAll(more);
      assert RenderAll(Commas(rows)) == [Render(first)] + RenderAll(Commas(more)) by {
        assert Commas(rows)[1..] == Commas(more);
      }
      assert RenderAll(Commas(rows))[1..] == RenderAll(Commas(more));
      assert Render(rows[0]) + ",\n" == Render(first) + "\n";
    }
  }

  /** The text of a statement with a head, rows and a closing line. */
  lemma StatementOfRows(head: seq<Line>, rows: seq<Line>, last: Line)
    requires head != [] && rows != []
    ensures StatementText(head + Commas(rows) + [last])
         == Join("\n", RenderAll(head)) + "\n" + Join(",\n", RenderAll(rows)) + "\n" + Render(last)
  {
    RenderAllConcat(head + Commas(rows), [last]);
    RenderAllConcat(head, Commas(rows));
    RenderAllLength(head);
    RenderAllLength(Commas(rows));
    assert RenderAll([last]) == [Render(last)];
    JoinConcat("\n", RenderAll(head) + RenderAll(Commas(rows)), [Render(last)]);
    JoinConcat("\n", RenderAll(head), RenderAll(Commas(rows)));
    JoinCommas(rows);
  }

  lemma RenderSql(text: string)
    ensures Render([Sql(text)]) == text
  {
  }

  lemma UpsertAssembly(comment: string, head: string, rows: string, last: string)
    ensures comment + "\n" + head + "\n" + rows + "\n" + (last + ";") + "\n" + ""
         == comment + "\n" + (head + "\n" + rows + "\n" + last) + ";" + "\n"
  {
  }

  /** The list of lines `build_upsert_sql` joins is a commented statement. */
  lemma PrintedRows(comment: string, head: seq<Line>, rows: seq<Line>, last: Line)
    requires head != [] && rows != []
    ensures Join("\n", [comment] + RenderAll(head) + [Join(",\n", RenderAll(rows))] + [Render(last) + ";"] + [""])
         == PartText(Statement(comment, head + Commas(rows) + [last])) + "\n"
  {
    var h, r, l := RenderAll(head), Join(",\n", RenderAll(rows)), Render(last);
    UpsertAssembly(comment, Join("\n", h), r, l);
    RenderAllLength(head);
    StatementOfRows(head, rows, last);
    JoinConcat("\n", [comment] + h + [r] + [l + ";"], [""]);
    JoinConcat("\n", [comment] + h + [r], [l + ";"]);
    JoinConcat("\n", [comment] + h, [r]);
    JoinConcat("\n", [comment], h);
  }

  /** `build_prune_sql` prints a commented statement too. */
  lemma PruneSqlIsPart(codes: seq<string>)
    ensures BuildPruneSql(codes) == (if codes == [] then NO_ORPHANS else PartText(Statement(PRUNE_COMMENT, PruneLines(codes)))) + "\n"
  {
    if codes != [] {
      var rows := PruneRows(codes);
      StatementOfRows(PruneHead(), rows, [Sql(")")]);
      RenderSql(")");
      var h := RenderAll(PruneHead());
      RenderAllLength(PruneHead());
      assert h == [Render(DeleteFrom()), Render(WhereIn())];
      assert Join("\n", h) == h[0] + "\n" + h[1];
      PruneAssembly(PRUNE_COMMENT, h[0], h[1], Join(",\n", RenderAll(rows)));
    }
  }

  lemma PruneAssembly(comment: string, a: string, b: string, rows: string)
    ensures comment + "\n" + (a + "\n") + (b + "\n" + rows + "\n);\n")
         == comment + "\n" + ((a + "\n" + b) + "\n" + rows + "\n" + ")") + ";" + "\n"
  {
  }
}

/**
 Permission synchronisation (`auth_harness/perms/service.py`, `catalog.py`, `scan.py`): the diff
 of the scanned codes against the database, the plan, and its execution through the printed SQL.
 */
module PermSync {
  import opened Wrappers
  import opened Text
  import opened Ordering
  import opened MySqlText
  import opened SqlParts
  import opened SeedSql
  import opened SyncSql

  // ---------------------------------------------------------------------------------------
  // The catalog
  // ---------------------------------------------------------------------------------------

  /** `PermissionsCatalog`, without the two fields only the scan uses. */
  datatype Catalog = Catalog(
    resources: map<string, string>,
    actions: map<string, string>,
    overrides: map<string, string>,
    protectPrefixes: seq<string>)
  {
    /** `resolve_name`: an override, or resource and action names around the last colon. */
    function ResolveName(code: string): Option<string> {
      if code in overrides then Some(overrides[code])
      else
        var parts := SplitOn(code, ':');
        if |parts| < 2 then None
        else
          var action := parts[|parts| - 1];
          var resource := Join(":", parts[..|parts| - 1]);
          var resourceName := if resource in resources then resources[resource] else "";
          var actionName := if action in actions then actions[action] else "";
          if resourceName == "" || actionName == "" then None else Some(resourceName + "-" + actionName)
    }

    /** `is_prune_protected`. */
    predicate IsPruneProtected(code: string) {
      exists p :: p in protectPrefixes && StartsWith(code, p)
    }
  }

  lemma {:induction false} SplitBehindLastColon(resource: string, action: string)
    requires forall i :: 0 <= i < |action| ==> action[i] != ':'
    ensures SplitOn(resource + ":" + action, ':') == SplitOn(resource, ':') + [action]
    decreases |resource|
  {
    var s := resource + ":" + action;
    if resource == "" {
      assert s[1..] == action && s[0] == ':';
      NothingToSplit(action);
    } else {
      assert s[1..] == resource[1..] + ":" + action && s[0] == resource[0];
      SplitBehindLastColon(resource[1..], action);
    }
  }

  lemma {:induction false} NothingToSplit(s: string)
    requires forall i :: 0 <= i < |s| ==> s[i] != ':'
    ensures SplitOn(s, ':') == [s]
    decreases |s|
  {
    if s != "" {
      NothingToSplit(s[1..]);
      assert [s[0]] + s[1..] == s;
    }
  }

  /**
   What a name resolves to: an override is taken as it is; without one, a code without a colon has
   no name, and `resource:action` (split at the last colon) has one exactly when both parts are
   named.
   */
  lemma ResolveNameByShape(c: Catalog, resource: string, action: string)
    requires forall i :: 0 <= i < |action| ==> action[i] != ':'
    ensures forall code :: code in c.overrides ==> c.ResolveName(code) == Some(c.overrides[code])
    ensures action !in c.overrides ==> c.ResolveName(action) == None
    ensures var code := resource + ":" + action;
            code !in c.overrides ==>
              c.ResolveName(code)
              == if resource in c.resources && c.resources[resource] != "" && action in c.actions && c.actions[action] != ""
                 then Some(c.resources[resource] + "-" + c.actions[action]) else None
  {
    NothingToSplit(action);
    SplitBehindLastColon(resource, action);
    JoinOfSplitOn(resource, ':');
    assert [':'] == ":";
    var parts := SplitOn(resource, ':') + [action];
    assert parts[..|parts| - 1] == SplitOn(resource, ':');
  }

  // ---------------------------------------------------------------------------------------
  // Diff
  // ---------------------------------------------------------------------------------------

  /** `PermissionDiff`, without the source positions. */
  datatype Diff = Diff(codes: seq<string>, baseline: set<string>, missing: seq<string>, orphan: seq<string>, unresolved: seq<string>)

  function SetOf(s: seq<string>): set<string> {
    set x | x in s
  }

  /** `unique_codes`: the scanned codes without the ignored ones, each once, in order. */
  function UniqueCodes(hits: seq<string>, ignored: set<string>): seq<string> {
    SortedSet(SetOf(hits) - ignored)
  }

  /** The scan result is one sorted list of the codes hit and not ignored, each once. */
  lemma UniqueCodesMeaning(hits: seq<string>, ignored: set<string>)
    ensures var codes := UniqueCodes(hits, ignored);
            && Sorted(codes) && (forall i, j :: 0 <= i < j < |codes| ==> codes[i] != codes[j])
            && (forall c :: c in codes <==> c in hits && c !in ignored)
  {
    SortedSetIsSorted(SetOf(hits) - ignored);
  }

  /** `[x for x in s if p(x)]`. */
  function Select(s: seq<string>, p: string -> bool): (r: seq<string>)
    ensures forall x :: x in r <==> x in s && p(x)
  {
    if s == [] then [] else (if p(s[0]) then [s[0]] else []) + Select(s[1..], p)
  }

  /** `check_permissions` on a given baseline. */
  function CheckPermissions(codes: seq<string>, baseline: set<string>, catalog: Catalog): Diff {
    Diff(codes, baseline,
         SortedSet(SetOf(codes) - baseline),
         Select(SortedSet(baseline - SetOf(codes)), code => !catalog.IsPruneProtected(code)),
         Select(codes, code => catalog.ResolveName(code) == None))
  }

  /** `exit_code_for_diff`. */
  function ExitCode(diff: Diff, failOnOrphan: bool): int {
    if diff.missing != [] || diff.unresolved != [] then 1
    else if failOnOrphan && diff.orphan != [] then 1
    else 0
  }

  /** What a diff says about the scan and the baseline, as sets: an orphan starts with no protected prefix. */
  lemma DiffMeaning(codes: seq<string>, baseline: set<string>, catalog: Catalog)
    ensures var d := CheckPermissions(codes, baseline, catalog);
            && SetOf(d.missing) == SetOf(codes) - baseline && Sorted(d.missing)
            && (forall c :: c in d.orphan <==> c in baseline && c !in codes && forall p :: p in catalog.protectPrefixes ==> !(p <= c))
            && (forall c :: c in d.unresolved <==> c in codes && catalog.ResolveName(c) == None)
  {
    SortedSetIsSorted(SetOf(codes) - baseline);
    forall c ensures catalog.IsPruneProtected(c) <==> exists p :: p in catalog.protectPrefixes && p <= c {
    }
  }

  /** When the check passes: no code is missing or without a name and, in strict mode, none is an unprotected orphan. */
  lemma ExitCodeIff(codes: seq<string>, baseline: set<string>, catalog: Catalog, failOnOrphan: bool)
    ensures var code := ExitCode(CheckPermissions(codes, baseline, catalog), failOnOrphan);
            && (code == 0 || code == 1)
            && (code == 0 <==>
                  && (forall c :: c in codes ==> c in baseline && catalog.ResolveName(c) != None)
                  && (failOnOrphan ==> forall c :: c in baseline && c !in codes ==> exists p :: p in catalog.protectPrefixes && p <= c))
  {
    var d := CheckPermissions(codes, baseline, catalog);
    DiffMeaning(codes, baseline, catalog);
    EmptyOrInhabited(d.missing);
    EmptyOrInhabited(d.orphan);
    EmptyOrInhabited(d.unresolved);
    forall c ensures c in d.missing <==> c in codes && c !in baseline {
      assert c in d.missing <==> c in SetOf(d.missing);
    }
  }

  // ---------------------------------------------------------------------------------------
  // Plan
  // ---------------------------------------------------------------------------------------

  /** `_next_order_num`: ten above the largest order number in use; 10 for an empty list. */
  function NextOrderNum(orders: seq<int>): int {
    if orders == [] then 10 else MaxOf(orders) + 10
  }

  function MaxOf(s: seq<int>): (m: int)
    requires s != []
    ensures m in s && forall x :: x in s ==> x <= m
  {
    if |s| == 1 then s[0]
    else
      var rest := MaxOf(s[1..]);
      assert s == [s[0]] + s[1..];
      if s[0] > rest then s[0] else rest
  }

  /** The entries for the missing codes, numbered from `order` on: a code without a name leaves a gap. */
  function PlanEntries(missing: seq<string>, catalog: Catalog, order: int, step: int): seq<Entry>
    decreases |missing|
  {
    if missing == [] then []
    else
      var more := PlanEntries(missing[1..], catalog, order + step, step);
      match catalog.ResolveName(missing[0])
      case None => more
      case Some(name) => [Entry(missing[0], name, order)] + more
  }

  /** `SyncPlan`. */
  datatype SyncPlan = SyncPlan(sql: string, inserts: seq<Entry>, pruneCodes: seq<string>, diff: Diff)

  /** The loop of `build_sync_plan` over the missing codes. */
  method PlanMissing(missing: seq<string>, catalog: Catalog, start: int, step: int) returns (entries: seq<Entry>)
    ensures entries == PlanEntries(missing, catalog, start, step)
  {
    entries := [];
    assert missing[0..] == missing;
    for index := 0 to |missing|
      invariant PlannedSoFar(missing, index, catalog, start, step, entries)
    {
      PlanStep(missing, index, catalog, start, step, entries);
      var name := catalog.ResolveName(missing[index]);
      if name.Some? {
        entries := entries + [Entry(missing[index], name.value, start + index * step)];
      }
    }
  }

  /** The entries made, and those still to make. */
  predicate PlannedSoFar(missing: seq<string>, index: nat, catalog: Catalog, start: int, step: int, entries: seq<Entry>) {
    && index <= |missing|
    && entries + PlanEntries(missing[index..], catalog, start + index * step, step) == PlanEntries(missing, catalog, start, step)
  }

  lemma PlanStep(missing: seq<string>, index: nat, catalog: Catalog, start: int, step: int, entries: seq<Entry>)
    requires index < |missing| && PlannedSoFar(missing, index, catalog, start, step, entries)
    ensures var name := catalog.ResolveName(missing[index]);
            PlannedSoFar(missing, index + 1, catalog, start, step,
                         if name.Some? then entries + [Entry(missing[index], name.value, start + index * step)] else entries)
  {
    PlanFrom(missing, index, catalog, start + index * step, step, entries);
    NextOrder(start, index, step);
  }

  lemma NextOrder(start: int, index: nat, step: int)
    ensures start + index * step + step == start + step + index * step == start + (index + 1) * step
  {
  }

  /** The entries from one index on, behind those before it, and the same from the next index. */
  lemma PlanFrom(missing: seq<string>, index: nat, catalog: Catalog, order: int, step: int, before: seq<Entry>)
    requires index < |missing|
    ensures var rest, more := PlanEntries(missing[index..], catalog, order, step), PlanEntries(missing[index + 1..], catalog, order + step, step);
            match catalog.ResolveName(missing[index])
            case None => before + rest == before + more
            case Some(name) => before + rest == (before + [Entry(missing[index], name, order)]) + more
  {
    assert missing[index..][1..] == missing[index + 1..];
  }

  /** `build_sync_plan`. */
  method BuildSyncPlan(codes: seq<string>, baseline: set<string>, catalog: Catalog, start: int, step: int, stamp: Stamp, prune: bool)
    returns (plan: SyncPlan)
    ensures plan.diff == CheckPermissions(codes, baseline, catalog)
    ensures plan.inserts == PlanEntries(plan.diff.missing, catalog, start, step)
    ensures plan.pruneCodes == if prune then plan.diff.orphan else []
    ensures plan.sql == ScriptText(SyncParts(plan.inserts, plan.pruneCodes, stamp, prune))
  {
    var diff := CheckPermissions(codes, baseline, catalog);
    var entries := PlanMissing(diff.missing, catalog, start, step);
    var pruneCodes := if prune then diff.orphan else [];
    var sql := BuildSyncSql(entries, pruneCodes, stamp, prune);
    plan := SyncPlan(sql, entries, pruneCodes, diff);
  }

  /** The planned entries are the missing codes that have a name, each with that name. */
  lemma {:induction false} PlanCoversResolvable(missing: seq<string>, catalog: Catalog, start: int, step: int)
    ensures var entries := PlanEntries(missing, catalog, start, step);
            && (forall e :: e in entries ==> e.code in missing && catalog.ResolveName(e.code) == Some(e.name))
            && (forall c :: c in missing && catalog.ResolveName(c) != None ==> exists e :: e in entries && e.code == c)
    decreases |missing|
  {
    if missing != [] {
      PlanCoversResolvable(missing[1..], catalog, start + step, step);
      assert missing == [missing[0]] + missing[1..];
      match catalog.ResolveName(missing[0])
      case None =>
      case Some(name) =>
        assert Entry(missing[0], name, start) in PlanEntries(missing, catalog, start, step);
    }
  }

  lemma {:induction false} PlannedHasPosition(missing: seq<string>, catalog: Catalog, start: int, step: int, e: Entry) returns (k: nat)
    requires e in PlanEntries(missing, catalog, start, step)
    ensures k < |missing| && missing[k] == e.code && catalog.ResolveName(missing[k]) == Some(e.name) && e.order == start + k * step
    decreases |missing|
  {
    if e in PlanEntries(missing[1..], catalog, start + step, step) {
      var j := PlannedHasPosition(missing[1..], catalog, start + step, step, e);
      NextOrder(start, j, step);
      return j + 1;
    }
    return 0;
  }

  lemma {:induction false} PositionIsPlanned(missing: seq<string>, catalog: Catalog, start: int, step: int, k: nat)
    requires k < |missing| && catalog.ResolveName(missing[k]).Some?
    ensures Entry(missing[k], catalog.ResolveName(missing[k]).value, start + k * step) in PlanEntries(missing, catalog, start, step)
    decreases |missing|
  {
    if k > 0 {
      var rest := missing[1..];
      assert rest[k - 1] == missing[k];
      PositionIsPlanned(rest, catalog, start + step, step, k - 1);
      NextOrder(start, k - 1, step);
    } else {
      assert start + 0 * step == start;
    }
  }

  /** The k-th missing code, if it has a name, is planned with number start + k * step, and nothing else is planned. */
  lemma PlanNumbersByPosition(missing: seq<string>, catalog: Catalog, start: int, step: int, e: Entry)
    ensures e in PlanEntries(missing, catalog, start, step)
       <==> exists k :: && 0 <= k < |missing| && missing[k] == e.code && catalog.ResolveName(missing[k]) == Some(e.name)
                        && e.order == start + k * step
  {
    if e in PlanEntries(missing, catalog, start, step) {
      var k := PlannedHasPosition(missing, catalog, start, step, e);
    }
    forall k: nat | k < |missing| && catalog.ResolveName(missing[k]).Some?
      ensures Entry(missing[k], catalog.ResolveName(missing[k]).value, start + k * step) in PlanEntries(missing, catalog, start, step)
    {
      PositionIsPlanned(missing, catalog, start, step, k);
    }
  }

  ghost predicate IncreasingFrom(entries: seq<Entry>, low: int) {
    && (forall k :: 0 <= k < |entries| ==> entries[k].order >= low)
    && (forall j, k :: 0 <= j < k < |entries| ==> entries[j].order < entries[k].order)
  }

  /** With a positive step the planned order numbers increase, from that of the first missing code on. */
  lemma {:induction false} PlanOrdersIncrease(missing: seq<string>, catalog: Catalog, start: int, step: int)
    requires step > 0
    ensures IncreasingFrom(PlanEntries(missing, catalog, start, step), start)
    decreases |missing|
  {
    if missing != [] {
      PlanOrdersIncrease(missing[1..], catalog, start + step, step);
      var rest := PlanEntries(missing[1..], catalog, start + step, step);
      match catalog.ResolveName(missing[0])
      case None => assert IncreasingFrom(rest, start);
      case Some(name) => LowestFirst(Entry(missing[0], name, start), rest, start + step);
    }
  }

  lemma LowestFirst(e: Entry, rest: seq<Entry>, low: int)
    requires e.order < low && IncreasingFrom(rest, low)
    ensures IncreasingFrom([e] + rest, e.order)
  {
  }

  /** The first new order number: 10 when there are no rows, else ten more than the largest one. */
  lemma NextOrderMeaning(orders: seq<int>)
    ensures orders == [] ==> NextOrderNum(orders) == 10
    ensures orders != [] ==> (exists o :: o in orders && NextOrderNum(orders) == o + 10) && forall o :: o in orders ==> o + 10 <= NextOrderNum(orders)
  {
    if orders != [] {
      var o := MaxOf(orders);
      assert o in orders && NextOrderNum(orders) == o + 10;
    }
  }

  /** New rows are ordered behind every existing one. */
  lemma PlanOrdersFollowExisting(missing: seq<string>, orders: seq<int>, catalog: Catalog, step: int, e: Entry, o: int)
    requires step > 0 && o in orders && e in PlanEntries(missing, catalog, NextOrderNum(orders), step)
    ensures o < e.order
  {
    PlanOrdersIncrease(missing, catalog, NextOrderNum(orders), step);
  }

  // ---------------------------------------------------------------------------------------
  // Executing the SQL
  // ---------------------------------------------------------------------------------------

  /** `sys_permission` as a map from code to name: `permission_code` is a unique key. */
  type PermissionRows = map<string, string>

  /** INSERT ... ON DUPLICATE KEY UPDATE updated_at = updated_at: rows in place keep their name. */
  function InsertAll(rows: PermissionRows, literals: seq<string>): PermissionRows
    decreases |literals|
  {
    if |literals| < 5 then rows
    else InsertAll(if literals[0] in rows then rows else rows[literals[0] := literals[1]], literals[5..])
  }

  /** The beginning of an INSERT whose tuples hold code, name, order number, status, two times, two users, version, remark. */
  const INSERTING_PERMISSIONS :=
    ("INSERT INTO " + "sys_permission") + "\n"
    + (("  " + ("(permission_code, " + ("permission_name, " + "order_num, status,"))) + "\n"
       + (("   " + ("created_at, updated_at, " + ("created_by, updated_by, " + "version, remark)"))) + "\n" + "VALUES"))
    + "\n"

  const DELETING_PERMISSIONS := ("DELETE FROM " + "sys_permission") + "\n" + ("WHERE " + "permission_code IN (") + "\n"

  /** The statement inserts value tuples for these columns into this table and leaves duplicates alone. */
  predicate InsertsPermissions(statement: string) {
    && StartsWith(statement, INSERTING_PERMISSIONS)
    && EndsWith(statement, "\n" + ("ON DUPLICATE KEY " + "UPDATE updated_at = updated_at"))
  }

  /** The statement deletes the rows of this table whose code is listed. */
  predicate DeletesPermissions(statement: string) {
    && StartsWith(statement, DELETING_PERMISSIONS)
    && EndsWith(statement, "\n" + ")")
  }

  /** One statement, by what MySQL reads of its text. */
  function ExecuteStatement(rows: PermissionRows, statement: string): PermissionRows {
    if InsertsPermissions(statement) then InsertAll(rows, Literals(statement))
    else if DeletesPermissions(statement) then rows - SetOf(Literals(statement))
    else rows
  }

  /** Anything that starts otherwise leaves the table as it is. */
  lemma OtherStatementsChangeNothing(rows: PermissionRows, statement: string)
    requires statement != "" ==> statement[0] != 'I' && statement[0] != 'D'
    ensures ExecuteStatement(rows, statement) == rows
  {
    assert INSERTING_PERMISSIONS[0] == 'I' && DELETING_PERMISSIONS[0] == 'D';
  }

  function ExecuteFrom(rows: PermissionRows, statements: seq<string>): PermissionRows
    decreases |statements|
  {
    if statements == [] then rows else ExecuteFrom(ExecuteStatement(rows, statements[0]), statements[1..])
  }

  /** The rows a plan is meant to leave. */
  function InsertEntries(rows: PermissionRows, entries: seq<Entry>): PermissionRows
    decreases |entries|
  {
    if entries == [] then rows
    else InsertEntries(if entries[0].code in rows then rows else rows[entries[0].code := entries[0].name], entries[1..])
  }

  function Applied(rows: PermissionRows, entries: seq<Entry>, pruneCodes: seq<string>): PermissionRows {
    InsertEntries(rows, entries) - SetOf(pruneCodes)
  }

  lemma {:induction false} InsertAllIsInsertEntries(rows: PermissionRows, entries: seq<Entry>, stamp: Stamp)
    ensures InsertAll(rows, InsertValues(entries, stamp)) == InsertEntries(rows, entries)
    decreases |entries|
  {
    if entries != [] {
      var e := entries[0];
      var literals := InsertValues(entries, stamp);
      assert literals[5..] == InsertValues(entries[1..], stamp);
      InsertAllIsInsertEntries(if e.code in rows then rows else rows[e.code := e.name], entries[1..], stamp);
    }
  }

  /** Executing the intended statements does what the plan means. */
  lemma IntendedStatementsApplyPlan(rows: PermissionRows, entries: seq<Entry>, codes: seq<string>, stamp: Stamp, prune: bool)
    requires !prune ==> codes == []
    ensures ExecuteFrom(rows, Intended(entries, codes, stamp, prune)) == Applied(rows, entries, codes)
  {
    PrintedLiteralsAreReadBack(entries, codes, stamp);
    InsertAllIsInsertEntries(rows, entries, stamp);
    var insert, delete := InsertText(entries, stamp), PruneText(codes);
    var inserted := InsertEntries(rows, entries);
    if entries != [] {
      InsertIsExecuted(entries, stamp);
      assert [insert][1..] == [] && ExecuteFrom(rows, [insert]) == inserted;
    }
    if codes != [] {
      DeleteIsExecuted(codes);
      assert [delete][1..] == [] && ExecuteFrom(inserted, [delete]) == inserted - SetOf(codes);
    }
    assert SetOf([]) == {} && inserted - {} == inserted;
    if entries != [] && prune && codes != [] {
      assert Intended(entries, codes, stamp, prune) == [insert] + [delete];
      assert ([insert] + [delete])[1..] == [delete];
    }
  }

  /** The printed INSERT names the table and the columns in the order of its values. */
  lemma InsertIsExecuted(entries: seq<Entry>, stamp: Stamp)
    requires entries != []
    ensures InsertsPermissions(InsertText(entries, stamp))
  {
    StatementOfRows(InsertHead(), InsertRows(entries, stamp), OnDuplicate());
    InsertHeadText();
    RenderTwo("ON DUPLICATE KEY ", "UPDATE updated_at = updated_at");
    FramedStartsAndEnds(INSERTING_PERMISSIONS, InsertHead(), InsertRows(entries, stamp), OnDuplicate());
  }

  /** The printed DELETE names the table and the column of its values. */
  lemma DeleteIsExecuted(codes: seq<string>)
    requires codes != []
    ensures DeletesPermissions(PruneText(codes)) && !InsertsPermissions(PruneText(codes))
  {
    StatementOfRows(PruneHead(), PruneRows(codes), [Sql(")")]);
    PruneHeadText();
    RenderSql(")");
    FramedStartsAndEnds(DELETING_PERMISSIONS, PruneHead(), PruneRows(codes), [Sql(")")]);
    assert PruneText(codes)[0] == DELETING_PERMISSIONS[0] == 'D' && INSERTING_PERMISSIONS[0] == 'I';
  }

  lemma FramedStartsAndEnds(start: string, head: seq<Line>, rows: seq<Line>, last: Line)
    requires Join("\n", RenderAll(head)) + "\n" == start
    ensures var text := Join("\n", RenderAll(head)) + "\n" + Join(",\n", RenderAll(rows)) + "\n" + Render(last);
            StartsWith(text, start) && EndsWith(text, "\n" + Render(last))
  {
    var text := start + Join(",\n", RenderAll(rows)) + "\n" + Render(last);
    Assoc(start + Join(",\n", RenderAll(rows)), "\n", Render(last));
  }

  lemma RenderTwo(a: string, b: string)
    ensures Render([Sql(a), Sql(b)]) == a + b
  {
    assert [Sql(a), Sql(b)][1..] == [Sql(b)];
    RenderSql(b);
  }

  lemma RenderFour(a: string, b: string, c: string, d: string)
    ensures Render([Sql(a), Sql(b), Sql(c), Sql(d)]) == a + (b + (c + d))
  {
    var line := [Sql(a), Sql(b), Sql(c), Sql(d)];
    assert line[1..] == [Sql(b), Sql(c), Sql(d)] && line[1..][1..] == [Sql(c), Sql(d)];
    RenderTwo(c, d);
  }

  lemma InsertHeadText()
    ensures Join("\n", RenderAll(InsertHead())) + "\n" == INSERTING_PERMISSIONS
  {
    RenderTwo("INSERT INTO ", "sys_permission");
    RenderFour("  ", "(permission_code, ", "permission_name, ", "order_num, status,");
    RenderFour("   ", "created_at, updated_at, ", "created_by, updated_by, ", "version, remark)");
    RenderSql("VALUES");
    RenderAllLength(InsertHead());
    JoinFour(RenderAll(InsertHead()));
  }

  lemma JoinFour(t: seq<string>)
    requires |t| == 4
    ensures Join("\n", t) == t[0] + "\n" + (t[1] + "\n" + (t[2] + "\n" + t[3]))
  {
    var a, b := t[1..], t[2..];
    assert a[1..] == b && b[1..] == [t[3]];
    assert Join("\n", b) == t[2] + "\n" + t[3];
    assert Join("\n", a) == t[1] + "\n" + Join("\n", b);
  }

  lemma PruneHeadText()
    ensures Join("\n", RenderAll(PruneHead())) + "\n" == DELETING_PERMISSIONS
  {
    RenderTwo("DELETE FROM ", "sys_permission");
    RenderTwo("WHERE ", "permission_code IN (");
    RenderAllLength(PruneHead());
    var t := RenderAll(PruneHead());
    assert t == [t[0], t[1]];
  }

  /** The rows after a successful apply whose values could be printed. */
  function Synced(rows: PermissionRows, codes: seq<string>, catalog: Catalog, start: int, step: int, prune: bool): PermissionRows {
    var diff := CheckPermissions(codes, rows.Keys, catalog);
    Applied(rows, PlanEntries(diff.missing, catalog, start, step), if prune then diff.orphan else [])
  }

  /** The plan `build_sync_plan` makes, apart from its text. */
  predicate PlansFor(plan: SyncPlan, codes: seq<string>, baseline: set<string>, catalog: Catalog, start: int, step: int, prune: bool) {
    && plan.diff == CheckPermissions(codes, baseline, catalog)
    && plan.inserts == PlanEntries(plan.diff.missing, catalog, start, step)
    && plan.pruneCodes == if prune then plan.diff.orphan else []
  }

  class PermissionTable {
    var rows: PermissionRows
    const accepts: string -> bool

    constructor (rows: PermissionRows, accepts: string -> bool)
      ensures this.rows == rows && this.accepts == accepts
    {
      this.rows := rows;
      this.accepts := accepts;
    }

    /** `cursor.execute`: a statement MySQL does not accept raises and changes nothing. */
    method Execute(statement: string) returns (ok: bool)
      modifies this`rows
      ensures ok == accepts(statement)
      ensures rows == if ok then ExecuteStatement(old(rows), statement) else old(rows)
    {
      ok := accepts(statement);
      if ok {
        rows := ExecuteStatement(rows, statement);
      }
    }
  }

  /** The statements before the first one that is not accepted. */
  function AcceptedPrefix(statements: seq<string>, accepts: string -> bool): (n: nat)
    ensures n <= |statements|
    ensures forall k :: 0 <= k < n ==> accepts(statements[k])
    ensures n < |statements| ==> !accepts(statements[n])
  {
    if statements == [] || !accepts(statements[0]) then 0
    else
      var n := 1 + AcceptedPrefix(statements[1..], accepts);
      assert forall k :: 1 <= k < |statements| ==> statements[k] == statements[1..][k - 1];
      n
  }

  /** The missing codes `apply_missing` refuses to insert. */
  function Unnameable(diff: Diff): seq<string> {
    Select(diff.missing, c => c in diff.unresolved)
  }

  /** They are the scanned codes that are not in the database and have no name. */
  lemma UnnameableMeaning(codes: seq<string>, baseline: set<string>, catalog: Catalog, c: string)
    ensures c in Unnameable(CheckPermissions(codes, baseline, catalog))
       <==> c in codes && c !in baseline && catalog.ResolveName(c) == None
  {
    var d := CheckPermissions(codes, baseline, catalog);
    DiffMeaning(codes, baseline, catalog);
    assert c in d.missing <==> c in SetOf(d.missing);
  }

  /** The text `build_sync_plan` prints. */
  function PlannedSql(diff: Diff, catalog: Catalog, start: int, step: int, stamp: Stamp, prune: bool): string {
    ScriptText(SyncParts(PlanEntries(diff.missing, catalog, start, step), if prune then diff.orphan else [], stamp, prune))
  }

  /** Every value the plan prints survives the splitter. */
  predicate PlanPrintsSafely(diff: Diff, catalog: Catalog, start: int, step: int, stamp: Stamp, prune: bool) {
    PrintsSafely(PlanEntries(diff.missing, catalog, start, step), if prune then diff.orphan else [], stamp, prune)
  }

  /** The execution loop of `apply_missing`: it ends with the first statement that raises. */
  method ExecuteAll(table: PermissionTable, statements: seq<string>) returns (rejected: Option<string>)
    modifies table`rows
    ensures var n := AcceptedPrefix(statements, table.accepts);
            && table.rows == ExecuteFrom(old(table.rows), statements[..n])
            && rejected == if n == |statements| then None else Some(statements[n])
  {
    for i := 0 to |statements|
      invariant table.rows == ExecuteFrom(old(table.rows), statements[..i])
      invariant forall k :: 0 <= k < i ==> table.accepts(statements[k])
    {
      var ok := table.Execute(statements[i]);
      if !ok {
        PrefixEndsAt(statements, table.accepts, i);
        return Some(statements[i]);
      }
      assert statements[..i + 1] == statements[..i] + [statements[i]];
      ExecuteOneMore(old(table.rows), statements[..i], statements[i]);
    }
    PrefixEndsAt(statements, table.accepts, |statements|);
    rejected := None;
  }

  lemma {:induction false} ExecuteOneMore(rows: PermissionRows, statements: seq<string>, last: string)
    ensures ExecuteFrom(rows, statements + [last]) == ExecuteStatement(ExecuteFrom(rows, statements), last)
    decreases |statements|
  {
    if statements == [] {
      assert [] + [last] == [last] && [last][1..] == [];
    } else {
      assert (statements + [last])[1..] == statements[1..] + [last];
      ExecuteOneMore(ExecuteStatement(rows, statements[0]), statements[1..], last);
    }
  }

  lemma PrefixEndsAt(statements: seq<string>, accepts: string -> bool, i: nat)
    requires i <= |statements| && forall k :: 0 <= k < i ==> accepts(statements[k])
    requires i < |statements| ==> !accepts(statements[i])
    ensures AcceptedPrefix(statements, accepts) == i
  {
  }

  /** The second half: nothing to do, or the statements of the printed plan, one by one. */
  method ApplyPlan(table: PermissionTable, plan: SyncPlan, ghost stamp: Stamp, ghost prune: bool) returns (rejected: Option<string>)
    requires plan.sql == ScriptText(SyncParts(plan.inserts, plan.pruneCodes, stamp, prune))
    modifies table`rows
    ensures var statements := StatementsOf(plan.sql);
            var n := AcceptedPrefix(statements, table.accepts);
            && table.rows == ExecuteFrom(old(table.rows), statements[..n])
            && rejected == if n == |statements| then None else Some(statements[n])
  {
    if plan.inserts == [] && plan.pruneCodes == [] {
      SyncSqlRoundTripIff([], [], stamp, prune);
      assert StatementsOf(plan.sql) == [];
      return None;
    }
    var statements := SplitStatements(plan.sql);
    rejected := ExecuteAll(table, statements);
  }

  /** The first half of `apply_missing`: the plan, or the missing codes that have no name. */
  method PlanOrRefuse(codes: seq<string>, baseline: set<string>, catalog: Catalog, start: int, step: int, stamp: Stamp, prune: bool)
    returns (r: Result<SyncPlan, seq<string>>)
    ensures var refused := Unnameable(CheckPermissions(codes, baseline, catalog));
            if refused != [] then r == Err(refused)
            else && r.Ok? && PlansFor(r.value, codes, baseline, catalog, start, step, prune)
                 && r.value.sql == ScriptText(SyncParts(r.value.inserts, r.value.pruneCodes, stamp, prune))
  {
    var plan := BuildSyncPlan(codes, baseline, catalog, start, step, stamp, prune);
    if plan.diff.unresolved != [] {
      var unresolved := Unnameable(plan.diff);
      if unresolved != [] {
        return Err(unresolved);
      }
    } else {
      NothingUnnameable(plan.diff);
    }
    r := Ok(plan);
  }

  /** The errors of `apply_missing`: missing codes without a name, or a statement MySQL refuses. */
  datatype ApplyError = NoNames(codes: seq<string>) | Rejected(statement: string)

  /**
   `apply_missing`.  Codes without a name are refused before anything is written.  Otherwise exactly
   the statements the splitter finds in the printed plan are executed, up to the first one that
   MySQL refuses.
   */
  method ApplyMissing(table: PermissionTable, codes: seq<string>, catalog: Catalog, start: int, step: int, stamp: Stamp, prune: bool)
    returns (r: Result<SyncPlan, ApplyError>)
    modifies table`rows
    ensures var diff := CheckPermissions(codes, old(table.rows).Keys, catalog);
            if Unnameable(diff) != [] then r == Err(NoNames(Unnameable(diff))) && table.rows == old(table.rows)
            else
              var statements := StatementsOf(PlannedSql(diff, catalog, start, step, stamp, prune));
              var n := AcceptedPrefix(statements, table.accepts);
              && table.rows == ExecuteFrom(old(table.rows), statements[..n])
              && if n < |statements| then r == Err(Rejected(statements[n]))
                 else && r.Ok? && PlansFor(r.value, codes, old(table.rows).Keys, catalog, start, step, prune)
                      && r.value.sql == PlannedSql(diff, catalog, start, step, stamp, prune)
  {
    var planned := PlanOrRefuse(codes, table.rows.Keys, catalog, start, step, stamp, prune);
    match planned
    case Err(refused) => r := Err(NoNames(refused));
    case Ok(plan) =>
      var rejected := ApplyPlan(table, plan, stamp, prune);
      r := match rejected case None => Ok(plan) case Some(statement) => Err(Rejected(statement));
  }

  /**
   What that means when the printed values survive and MySQL accepts the intended statements: the
   table becomes the synchronised one.  The statements are the intended ones only in that case.
   */
  lemma ExecutedPlanSyncs(rows: PermissionRows, codes: seq<string>, catalog: Catalog, start: int, step: int, stamp: Stamp, prune: bool,
                          accepts: string -> bool)
    ensures var diff := CheckPermissions(codes, rows.Keys, catalog);
            var statements := StatementsOf(PlannedSql(diff, catalog, start, step, stamp, prune));
            var intended := Intended(PlanEntries(diff.missing, catalog, start, step), if prune then diff.orphan else [], stamp, prune);
            && (statements == intended <==> PlanPrintsSafely(diff, catalog, start, step, stamp, prune))
            && (PlanPrintsSafely(diff, catalog, start, step, stamp, prune) && (forall k :: 0 <= k < |intended| ==> accepts(intended[k])) ==>
                  && AcceptedPrefix(statements, accepts) == |statements|
                  && ExecuteFrom(rows, statements) == Synced(rows, codes, catalog, start, step, prune))
  {
    var diff := CheckPermissions(codes, rows.Keys, catalog);
    var entries, pruned := PlanEntries(diff.missing, catalog, start, step), if prune then diff.orphan else [];
    SyncSqlRoundTripIff(entries, pruned, stamp, prune);
    IntendedStatementsApplyPlan(rows, entries, pruned, stamp, prune);
  }

  lemma NothingUnnameable(diff: Diff)
    requires diff.unresolved == []
    ensures Unnameable(diff) == []
  {
    Memberless(Unnameable(diff));
  }

  // ---------------------------------------------------------------------------------------
  // Convergence
  // ---------------------------------------------------------------------------------------

  function CodesOf(entries: seq<Entry>): set<string> {
    set e | e in entries :: e.code
  }

  lemma {:induction false} InsertEntriesKeys(rows: PermissionRows, entries: seq<Entry>)
    ensures InsertEntries(rows, entries).Keys == rows.Keys + CodesOf(entries)
    ensures forall c :: c in rows ==> InsertEntries(rows, entries)[c] == rows[c]
    decreases |entries|
  {
    if entries != [] {
      var e := entries[0];
      InsertEntriesKeys(if e.code in rows then rows else rows[e.code := e.name], entries[1..]);
      assert entries == [e] + entries[1..];
    }
  }

  /** The codes a synchronised table must hold. */
  function TargetCodes(codes: seq<string>, baseline: set<string>, catalog: Catalog, prune: bool): set<string> {
    SetOf(codes) + if prune then (set c | c in baseline && catalog.IsPruneProtected(c)) else baseline
  }

  /**
   Convergence: when every missing code has a name, the synchronised table holds exactly the
   scanned codes and the baseline (with prune: its protected codes only), and rows that were there
   keep their names.
   */
  lemma SyncConverges(rows: PermissionRows, codes: seq<string>, catalog: Catalog, start: int, step: int, prune: bool)
    requires Unnameable(CheckPermissions(codes, rows.Keys, catalog)) == []
    ensures Synced(rows, codes, catalog, start, step, prune).Keys == TargetCodes(codes, rows.Keys, catalog, prune)
    ensures forall c :: c in Synced(rows, codes, catalog, start, step, prune) <==>
              c in codes || (c in rows && (prune ==> exists p :: p in catalog.protectPrefixes && p <= c))
    ensures forall c :: c in rows && c in Synced(rows, codes, catalog, start, step, prune) ==>
              Synced(rows, codes, catalog, start, step, prune)[c] == rows[c]
  {
    var diff := CheckPermissions(codes, rows.Keys, catalog);
    var entries := PlanEntries(diff.missing, catalog, start, step);
    PlannedCodesAreMissing(rows, codes, catalog, start, step);
    PrunedLeaveTarget(rows.Keys, codes, catalog, prune);
    AppliedKeys(rows, entries, if prune then diff.orphan else []);
  }

  lemma AppliedKeys(rows: PermissionRows, entries: seq<Entry>, pruned: seq<string>)
    ensures var applied := Applied(rows, entries, pruned);
            && applied.Keys == (rows.Keys + CodesOf(entries)) - SetOf(pruned)
            && forall c :: c in rows && c in applied ==> applied[c] == rows[c]
  {
    InsertEntriesKeys(rows, entries);
  }

  lemma PrunedLeaveTarget(baseline: set<string>, codes: seq<string>, catalog: Catalog, prune: bool)
    ensures var pruned := if prune then CheckPermissions(codes, baseline, catalog).orphan else [];
            (baseline + (SetOf(codes) - baseline)) - SetOf(pruned) == TargetCodes(codes, baseline, catalog, prune)
  {
    var orphan := CheckPermissions(codes, baseline, catalog).orphan;
    DiffMeaning(codes, baseline, catalog);
    forall c ensures c in orphan <==> c in baseline && c !in codes && !catalog.IsPruneProtected(c) {
      assert c in orphan <==> c in SetOf(orphan);
    }
  }

  lemma PlannedCodesAreMissing(rows: PermissionRows, codes: seq<string>, catalog: Catalog, start: int, step: int)
    requires Unnameable(CheckPermissions(codes, rows.Keys, catalog)) == []
    ensures var diff := CheckPermissions(codes, rows.Keys, catalog);
            CodesOf(PlanEntries(diff.missing, catalog, start, step)) == SetOf(codes) - rows.Keys
  {
    var diff := CheckPermissions(codes, rows.Keys, catalog);
    DiffMeaning(codes, rows.Keys, catalog);
    PlanCoversResolvable(diff.missing, catalog, start, step);
    forall c ensures c in diff.missing <==> c in SetOf(codes) - rows.Keys {
      assert c in diff.missing <==> c in SetOf(diff.missing);
    }
    forall c | c in diff.missing ensures catalog.ResolveName(c) != None {
      assert c !in Unnameable(diff);
    }
  }

  /**
   Idempotence: after a synchronisation the next diff has no missing codes, a second run changes
   nothing, and nothing is left to prune if the first run pruned.
   */
  lemma SyncIsIdempotent(rows: PermissionRows, codes: seq<string>, catalog: Catalog, start: int, step: int, prune: bool, start': int, step': int)
    requires Unnameable(CheckPermissions(codes, rows.Keys, catalog)) == []
    ensures var synced := Synced(rows, codes, catalog, start, step, prune);
            var next := CheckPermissions(codes, synced.Keys, catalog);
            && next.missing == [] && (prune ==> next.orphan == [])
            && Synced(synced, codes, catalog, start', step', prune) == synced
  {
    SyncConverges(rows, codes, catalog, start, step, prune);
    var synced := Synced(rows, codes, catalog, start, step, prune);
    NothingToDo(synced, codes, catalog, prune, TargetCodes(codes, rows.Keys, catalog, prune));
    NothingIsSynced(synced, codes, catalog, start', step', prune);
  }

  lemma NothingIsSynced(rows: PermissionRows, codes: seq<string>, catalog: Catalog, start: int, step: int, prune: bool)
    requires var diff := CheckPermissions(codes, rows.Keys, catalog); diff.missing == [] && (prune ==> diff.orphan == [])
    ensures Synced(rows, codes, catalog, start, step, prune) == rows
  {
  }

  lemma NothingToDo(rows: PermissionRows, codes: seq<string>, catalog: Catalog, prune: bool, target: set<string>)
    requires rows.Keys == target && SetOf(codes) <= target
    requires prune ==> forall c :: c in target && c !in codes ==> catalog.IsPruneProtected(c)
    ensures var next := CheckPermissions(codes, rows.Keys, catalog);
            next.missing == [] && (prune ==> next.orphan == [])
  {
    var next := CheckPermissions(codes, rows.Keys, catalog);
    DiffMeaning(codes, rows.Keys, catalog);
    assert SetOf(next.missing) == {};
    assert forall c :: c in next.missing ==> c in SetOf(next.missing);
    Memberless(next.missing);
    if prune {
      Memberless(next.orphan);
    }
  }

  lemma EmptyOrInhabited(s: seq<string>)
    ensures s == [] || exists c :: c in s
  {
    assert s != [] ==> s[0] in s;
  }

  lemma Memberless(s: seq<string>)
    requires forall c :: c !in s
    ensures s == []
  {
    EmptyOrInhabited(s);
  }

  /**
   The check after a synchronisation passes exactly when every scanned code has a name and, in
   strict mode without prune, no unprotected orphan is left.
   */
  lemma SyncedExitCodeIff(rows: PermissionRows, codes: seq<string>, catalog: Catalog, start: int, step: int, prune: bool, failOnOrphan: bool)
    requires Unnameable(CheckPermissions(codes, rows.Keys, catalog)) == []
    ensures var synced := Synced(rows, codes, catalog, start, step, prune);
            ExitCode(CheckPermissions(codes, synced.Keys, catalog), failOnOrphan) == 0
            <==> && (forall c :: c in codes ==> catalog.ResolveName(c) != None)
                 && (failOnOrphan && !prune ==> forall c :: c in rows && c !in codes ==> exists p :: p in catalog.protectPrefixes && p <= c)
  {
    SyncIsIdempotent(rows, codes, catalog, start, step, prune, start, step);
    SyncConverges(rows, codes, catalog, start, step, prune);
    var synced := Synced(rows, codes, catalog, start, step, prune);
    var next := CheckPermissions(codes, synced.Keys, catalog);
    DiffMeaning(codes, synced.Keys, catalog);
    assert next.unresolved != [] ==> next.unresolved[0] in next.unresolved;
    assert next.orphan != [] ==> next.orphan[0] in next.orphan;
    if !prune {
      forall c ensures c in next.orphan <==> c in rows && c !in codes && !catalog.IsPruneProtected(c) {
      }
    }
  }
}

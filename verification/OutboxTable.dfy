/**
 The invalidation outbox as the harness sees it: a table the backend appends to while the
 harness polls it.  The queries of `auth_harness/infrastructure/db.py` are functions of one
 table; the concurrent backend is an arbitrary legal history of tables.
 */
module OutboxTable {
  import opened Wrappers

  /** The statuses `wait_outbox_success` tells apart; every other label means "still running". */
  datatype Status = Success | Failed | Dead | InFlight(name: string) {
    predicate Terminal() {
      !InFlight?
    }

    predicate Failure() {
      Failed? || Dead?
    }
  }

  datatype Row = Row(id: nat, eventId: string, status: Status, sourceBizId: string)

  type Table = seq<Row>

  // ---------------------------------------------------------------------------------------
  // Operation prefixes and the LIKE filter
  // ---------------------------------------------------------------------------------------

  const REPLACE_ROLES := "replace-roles:"
  const ASSIGN_PERMISSIONS := "assign-permissions:"
  const CREATE_DEPT := "create-dept:"
  const UPDATE_DEPT := "update-dept:"
  const DELETE_DEPT := "delete-dept:"
  const CLEAR_DEPT := "clear-dept:"
  const CREATE_POST := "create-post:"
  const UPDATE_POST := "update-post:"
  const DELETE_POST := "delete-post:"
  const CLEAR_POST := "clear-post:"
  const MOVE := "move:"
  const UPDATE := "update:"
  const DELETE := "delete:"

  const KNOWN_PREFIXES := [
    REPLACE_ROLES, ASSIGN_PERMISSIONS, CREATE_DEPT, UPDATE_DEPT, DELETE_DEPT, CLEAR_DEPT,
    CREATE_POST, UPDATE_POST, DELETE_POST, CLEAR_POST, MOVE, UPDATE, DELETE]

  /** `require_known_prefix`: the filter itself, or the ValueError. */
  function RequireKnownPrefix(value: Option<string>): Result<Option<string>, string> {
    if value.None? then Ok(None)
    else if value.value !in KNOWN_PREFIXES then Err("unknown outbox filter")
    else Ok(value)
  }

  /** A filter `require_known_prefix` lets through. */
  predicate KnownFilter(f: Option<string>) {
    f.Some? ==> f.value in KNOWN_PREFIXES
  }

  /** SQL LIKE: `%` any run, `_` any character, backslash quotes the next pattern character. */
  predicate Like(s: string, p: string)
    decreases |s| + |p|
  {
    if p == "" then s == ""
    else if p[0] == '%' then Like(s, p[1..]) || (s != "" && Like(s[1..], p))
    else if p[0] == '_' then s != "" && Like(s[1..], p[1..])
    else if p[0] == '\\' && |p| > 1 then s != "" && s[0] == p[1] && Like(s[1..], p[2..])
    else s != "" && s[0] == p[0] && Like(s[1..], p[1..])
  }

  /** What a wildcard and a quoted character at the front of a pattern match. */
  lemma LikeSpecials(s: string, c: char, p: string)
    ensures Like(s, "_" + p) <==> s != "" && Like(s[1..], p)
    ensures Like(s, "\\" + [c] + p) <==> s != "" && s[0] == c && Like(s[1..], p)
  {
    assert ("_" + p)[1..] == p && ("\\" + [c] + p)[2..] == p;
  }

  /** No character of `p` is special to LIKE. */
  predicate PlainPattern(p: string) {
    forall i :: 0 <= i < |p| ==> p[i] != '%' && p[i] != '_' && p[i] != '\\'
  }

  lemma {:induction false} LikePercent(s: string)
    ensures Like(s, "%")
    decreases |s|
  {
    if s != "" {
      LikePercent(s[1..]);
    } else {
      assert Like(s, "%"[1..]);
    }
  }

  /** For a plain prefix the pattern built at db.py:313 means "starts with". */
  lemma {:induction false} LikeIsPrefix(s: string, p: string)
    requires PlainPattern(p)
    ensures Like(s, p + "%") <==> p <= s
    decreases |p|
  {
    if p == "" {
      assert p + "%" == "%";
      LikePercent(s);
    } else {
      assert (p + "%")[1..] == p[1..] + "%";
      if s != "" && s[0] == p[0] {
        LikeIsPrefix(s[1..], p[1..]);
        assert p[1..] <= s[1..] <==> p <= s;
      }
    }
  }

  /** The shape every operation prefix has: one colon, at the very end. */
  predicate ColonEnded(p: string) {
    |p| > 0 && p[|p| - 1] == ':' && forall i :: 0 <= i < |p| - 1 ==> p[i] != ':'
  }

  lemma KnownPrefixesColonEnded()
    ensures forall k :: 0 <= k < |KNOWN_PREFIXES| ==> ColonEnded(KNOWN_PREFIXES[k])
  {
    assert ColonEnded(REPLACE_ROLES) && ColonEnded(ASSIGN_PERMISSIONS) && ColonEnded(CREATE_DEPT);
    assert ColonEnded(UPDATE_DEPT) && ColonEnded(DELETE_DEPT) && ColonEnded(CLEAR_DEPT);
    assert ColonEnded(CREATE_POST) && ColonEnded(UPDATE_POST) && ColonEnded(DELETE_POST) && ColonEnded(CLEAR_POST);
    assert ColonEnded(MOVE) && ColonEnded(UPDATE) && ColonEnded(DELETE);
  }

  lemma KnownPrefixColonEnded(p: string)
    requires p in KNOWN_PREFIXES
    ensures ColonEnded(p)
  {
    KnownPrefixesColonEnded();
  }

  lemma PlainRolePrefixes()
    ensures PlainPattern(REPLACE_ROLES) && PlainPattern(ASSIGN_PERMISSIONS)
    ensures PlainPattern(MOVE) && PlainPattern(UPDATE) && PlainPattern(DELETE)
  {
  }

  lemma PlainDeptPrefixes()
    ensures PlainPattern(CREATE_DEPT) && PlainPattern(UPDATE_DEPT) && PlainPattern(DELETE_DEPT) && PlainPattern(CLEAR_DEPT)
  {
  }

  lemma PlainPostPrefixes()
    ensures PlainPattern(CREATE_POST) && PlainPattern(UPDATE_POST) && PlainPattern(DELETE_POST) && PlainPattern(CLEAR_POST)
  {
  }

  lemma KnownPrefixPlain(p: string)
    requires p in KNOWN_PREFIXES
    ensures PlainPattern(p)
  {
    PlainRolePrefixes();
    PlainDeptPrefixes();
    PlainPostPrefixes();
  }

  /** The row filter of `fetch_outbox_after_id`. */
  predicate Matches(r: Row, f: Option<string>) {
    f.None? || f.value == "" || Like(r.sourceBizId, f.value + "%")
  }

  /** No row answers to two different known filters: `delete:` never picks a `delete-dept:` row. */
  lemma KnownFiltersAreDisjoint(r: Row, p: string, q: string)
    requires p in KNOWN_PREFIXES && q in KNOWN_PREFIXES
    ensures Matches(r, Some(p)) <==> p <= r.sourceBizId
    ensures Matches(r, Some(p)) && Matches(r, Some(q)) ==> p == q
  {
    KnownPrefixColonEnded(p);
    KnownPrefixColonEnded(q);
    KnownPrefixPlain(p);
    KnownPrefixPlain(q);
    LikeIsPrefix(r.sourceBizId, p);
    LikeIsPrefix(r.sourceBizId, q);
    if p <= r.sourceBizId && q <= r.sourceBizId {
      var s := r.sourceBizId;
      assert forall k :: 0 <= k < |p| ==> s[k] == p[k];
      assert forall k :: 0 <= k < |q| ==> s[k] == q[k];
      assert s[|p| - 1] == ':' && s[|q| - 1] == ':';
    }
  }

  // ---------------------------------------------------------------------------------------
  // Queries on one table
  // ---------------------------------------------------------------------------------------

  /** `SELECT COALESCE(MAX(id), 0)`. */
  function MaxId(t: Table): (m: nat)
    ensures forall i :: 0 <= i < |t| ==> t[i].id <= m
    ensures m == 0 || exists i :: 0 <= i < |t| && t[i].id == m
  {
    if t == [] then 0
    else
      var rest := MaxId(t[..|t| - 1]);
      var last := t[|t| - 1].id;
      if last > rest then last else rest
  }

  /** A row the query after cursor `minId` may return. */
  predicate Candidate(r: Row, minId: nat, f: Option<string>) {
    r.id > minId && Matches(r, f)
  }

  /** `WHERE id > minId AND source_biz_id LIKE ... ORDER BY id ASC LIMIT 1`. */
  function FetchAfter(t: Table, minId: nat, f: Option<string>): (r: Option<Row>)
    ensures r.None? <==> forall i :: 0 <= i < |t| ==> !Candidate(t[i], minId, f)
    ensures r.Some? ==> r.value in t && Candidate(r.value, minId, f)
    ensures r.Some? ==> forall i :: 0 <= i < |t| && Candidate(t[i], minId, f) ==> r.value.id <= t[i].id
  {
    if t == [] then None
    else
      var rest := FetchAfter(t[..|t| - 1], minId, f);
      var last := t[|t| - 1];
      if Candidate(last, minId, f) && (rest.None? || last.id < rest.value.id) then Some(last) else rest
  }

  // ---------------------------------------------------------------------------------------
  // The concurrent backend
  // ---------------------------------------------------------------------------------------

  /** Ids are positive and become visible in increasing order. */
  predicate Ordered(t: Table) {
    && (forall i :: 0 <= i < |t| ==> t[i].id > 0)
    && (forall i, j :: 0 <= i < j < |t| ==> t[i].id < t[j].id)
  }

  /** What may happen to a row: its key columns are immutable and a terminal status absorbs. */
  predicate RowEvolves(a: Row, b: Row) {
    && a.id == b.id && a.eventId == b.eventId && a.sourceBizId == b.sourceBizId
    && (a.status.Terminal() ==> b.status == a.status)
  }

  /** What may happen to the table: rows are appended and evolve in place, none disappears. */
  predicate Evolves(a: Table, b: Table) {
    && |a| <= |b|
    && forall i :: 0 <= i < |a| ==> RowEvolves(a[i], b[i])
  }

  /** The table the harness would read at each clock tick. */
  type History = nat -> Table

  ghost predicate LegalAt(h: History, t: nat) {
    Ordered(h(t)) && Evolves(h(t), h(t + 1))
  }

  /** The environment assumptions, one tick at a time. */
  ghost predicate LegalStepwise(h: History) {
    forall t: nat :: LegalAt(h, t)
  }

  /** The same assumptions between any two instants. */
  ghost predicate Legal(h: History) {
    && (forall t: nat :: Ordered(h(t)))
    && (forall s: nat, t: nat :: s <= t ==> Evolves(h(s), h(t)))
  }

  lemma {:induction false} EvolvesOverTime(h: History, s: nat, t: nat)
    requires LegalStepwise(h) && s <= t
    ensures Evolves(h(s), h(t))
    decreases t - s
  {
    if s < t {
      EvolvesOverTime(h, s, t - 1);
      assert LegalAt(h, t - 1);
    }
  }

  /** Checking every single backend step is enough. */
  lemma LegalFromSteps(h: History)
    requires LegalStepwise(h)
    ensures Legal(h)
  {
    forall t: nat ensures Ordered(h(t)) {
      assert LegalAt(h, t);
    }
    forall s: nat, t: nat | s <= t ensures Evolves(h(s), h(t)) {
      EvolvesOverTime(h, s, t);
    }
  }

  // ---------------------------------------------------------------------------------------
  // Cursors over time
  // ---------------------------------------------------------------------------------------

  /** A cursor taken at `s` separates, at any later `t`, the old rows from the appended ones. */
  lemma CursorSplits(h: History, s: nat, t: nat, i: nat)
    requires Legal(h) && s <= t && i < |h(t)|
    ensures i < |h(s)| <==> h(t)[i].id <= MaxId(h(s))
  {
  }

  /** The global cursor never moves back. */
  lemma CursorMonotone(h: History, s: nat, t: nat)
    requires Legal(h) && s <= t
    ensures MaxId(h(s)) <= MaxId(h(t))
  {
  }

  /** Once a poll sees a row, every later poll with that cursor and filter sees the same row. */
  lemma TrackedRowIsStable(h: History, s: nat, t: nat, c: nat, f: Option<string>)
    requires Legal(h) && s <= t
    requires FetchAfter(h(s), c, f).Some?
    ensures FetchAfter(h(t), c, f).Some?
    ensures RowEvolves(FetchAfter(h(s), c, f).value, FetchAfter(h(t), c, f).value)
  {
    var a, b := h(s), h(t);
    var r := FetchAfter(a, c, f).value;
    var i :| 0 <= i < |a| && a[i] == r;
    assert Ordered(a) && Ordered(b) && Evolves(a, b);
    assert RowEvolves(a[i], b[i]) && Candidate(b[i], c, f);
    var q := FetchAfter(b, c, f).value;
    var j :| 0 <= j < |b| && b[j] == q;
    assert q.id <= b[i].id;
    if j < i {
      assert RowEvolves(a[j], b[j]) && Candidate(a[j], c, f);
      assert false;
    }
  }

  /** Row `i` of the table at `t` is the first match appended since `s`. */
  predicate FirstAppended(h: History, s: nat, t: nat, f: Option<string>, i: nat) {
    && |h(s)| <= i < |h(t)|
    && Matches(h(t)[i], f)
    && forall k :: |h(s)| <= k < i ==> !Matches(h(t)[k], f)
  }

  /** If anything matching was appended, something was appended first. */
  lemma {:induction false} FirstMatch(h: History, s: nat, t: nat, f: Option<string>, i: nat) returns (first: nat)
    requires |h(s)| <= i < |h(t)| && Matches(h(t)[i], f)
    ensures FirstAppended(h, s, t, f, first)
    decreases i
  {
    if k: nat :| |h(s)| <= k < i && Matches(h(t)[k], f) {
      first := FirstMatch(h, s, t, f, k);
    } else {
      first := i;
    }
  }

  /** A query with the cursor of `s` answers about exactly the rows appended since `s`. */
  lemma FetchSeesExactlyTheAppended(h: History, s: nat, t: nat, f: Option<string>)
    requires Legal(h) && s <= t
    ensures FetchAfter(h(t), MaxId(h(s)), f).None?
       <==> forall i :: |h(s)| <= i < |h(t)| ==> !Matches(h(t)[i], f)
    ensures forall i: nat :: FirstAppended(h, s, t, f, i) ==> FetchAfter(h(t), MaxId(h(s)), f) == Some(h(t)[i])
    ensures (exists i: nat :: |h(s)| <= i < |h(t)| && Matches(h(t)[i], f)) ==> exists i: nat :: FirstAppended(h, s, t, f, i)
  {
    if i: nat :| |h(s)| <= i < |h(t)| && Matches(h(t)[i], f) {
      var first := FirstMatch(h, s, t, f, i);
    }
    forall i: nat | i < |h(t)| ensures i < |h(s)| <==> h(t)[i].id <= MaxId(h(s)) {
      CursorSplits(h, s, t, i);
    }
    NothingFetchedIff(h(t), |h(s)|, MaxId(h(s)), f);
    forall i: nat | FirstAppended(h, s, t, f, i) ensures FetchAfter(h(t), MaxId(h(s)), f) == Some(h(t)[i]) {
      FirstIsFetched(h(t), |h(s)|, MaxId(h(s)), f, i);
    }
  }

  /** The same on one table, of which the first `n` rows are the old ones. */
  lemma NothingFetchedIff(b: Table, n: nat, c: nat, f: Option<string>)
    requires forall i: nat :: i < |b| ==> (i < n <==> b[i].id <= c)
    ensures FetchAfter(b, c, f).None? <==> forall i :: n <= i < |b| ==> !Matches(b[i], f)
  {
  }

  lemma FirstIsFetched(b: Table, n: nat, c: nat, f: Option<string>, i: nat)
    requires Ordered(b) && forall i: nat :: i < |b| ==> (i < n <==> b[i].id <= c)
    requires n <= i < |b| && Matches(b[i], f) && forall k :: n <= k < i ==> !Matches(b[k], f)
    ensures FetchAfter(b, c, f) == Some(b[i])
  {
  }
}

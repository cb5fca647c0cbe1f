/**
 What every scenario run guarantees, in every interleaving with the backend: theorems about the
 run logs of module Scenario.
 */
module RunTheorems {
  import opened Wrappers
  import opened OutboxTable
  import opened OutboxWait
  import opened Assertions
  import opened Scenario

  /** The instant at which step k's previous cursor was taken: the entry of the step before it. */
  function Anchor(initAt: nat, logs: seq<StepLog>, k: nat): nat
    requires k < |logs|
  {
    if k == 0 then initAt else logs[k - 1].entryAt
  }

  lemma PreviousIsAnchored(h: History, config: Config, steps: seq<Step>, initAt: nat, logs: seq<StepLog>, k: nat)
    requires RunSpec(h, config, steps, initAt, logs) && k < |logs|
    ensures logs[k].previous == MaxId(h(Anchor(initAt, logs, k)))
    ensures initAt <= Anchor(initAt, logs, k) <= logs[k].entryAt
  {
  }

  /** The step stored a row in `last_outbox_row`. */
  predicate Stored(log: StepLog) {
    log.event.Waited? && log.event.outcome.Found?
  }

  function StoredRow(log: StepLog): Row
    requires Stored(log)
  {
    log.event.outcome.row
  }

  /** The filter a waiting step polls with. */
  function FilterOf(step: Step): Option<string>
    requires step.MutateStep? || step.WaitStep?
  {
    if step.MutateStep? then Some(step.prefix) else step.filter
  }

  /** The instant at which the cursor of a waiting step was taken. */
  function CursorInstant(steps: seq<Step>, initAt: nat, logs: seq<StepLog>, k: nat): nat
    requires k < |logs| <= |steps| && logs[k].event.Waited?
  {
    if steps[k].MutateStep? then logs[k].event.cursorAt else Anchor(initAt, logs, k)
  }

  /** What one step that stores a row is, by its own log. */
  lemma StoringStep(h: History, config: Config, step: Step, log: StepLog) returns (poll: nat)
    requires StepSpec(h, config, step, log) && Stored(log)
    ensures step.MutateStep? || step.WaitStep?
    ensures log.event.w.start <= poll <= log.exitAt && log.entryAt <= poll
    ensures FetchAfter(h(poll), log.event.w.cursor, FilterOf(step)) == Some(StoredRow(log))
    ensures StoredRow(log).status == Success && KnownFilter(FilterOf(step))
    ensures step.MutateStep? ==> log.entryAt <= log.event.cursorAt <= poll && log.event.w.cursor == MaxId(h(log.event.cursorAt))
    ensures step.WaitStep? ==> log.event.w.cursor == log.previous
  {
    var w := log.event.w;
    poll := w.polls[|w.polls| - 1];
  }

  /** Who stores a row, and what that row is: the first match past the step's cursor, in SUCCESS. */
  lemma StoredRowIsFirstMatch(h: History, config: Config, steps: seq<Step>, initAt: nat, logs: seq<StepLog>, k: nat)
    returns (poll: nat)
    requires Legal(h) && RunSpec(h, config, steps, initAt, logs)
    requires k < |logs| && Stored(logs[k])
    ensures steps[k].MutateStep? || steps[k].WaitStep?
    ensures CursorInstant(steps, initAt, logs, k) <= poll && logs[k].entryAt <= poll <= logs[k].exitAt
    ensures steps[k].MutateStep? ==> logs[k].entryAt <= CursorInstant(steps, initAt, logs, k)
    ensures FetchAfter(h(poll), MaxId(h(CursorInstant(steps, initAt, logs, k))), FilterOf(steps[k])) == Some(StoredRow(logs[k]))
    ensures StoredRow(logs[k]).status == Success && KnownFilter(FilterOf(steps[k]))
  {
    PreviousIsAnchored(h, config, steps, initAt, logs, k);
    poll := StoringStep(h, config, steps[k], logs[k]);
  }

  /**
   The row a wait stores was appended after the previous step's entry: it is in SUCCESS, matches
   the filter, and its id is above every row visible at that entry.
   */
  lemma WaitReturnsFreshRow(h: History, config: Config, steps: seq<Step>, initAt: nat, logs: seq<StepLog>, k: nat)
    requires Legal(h) && RunSpec(h, config, steps, initAt, logs)
    requires k < |logs| && Stored(logs[k]) && steps[k].WaitStep?
    ensures StoredRow(logs[k]).status == Success && Matches(StoredRow(logs[k]), steps[k].filter)
    ensures StoredRow(logs[k]) in h(logs[k].exitAt)
    ensures forall i :: 0 <= i < |h(Anchor(initAt, logs, k))| ==> h(Anchor(initAt, logs, k))[i].id < StoredRow(logs[k]).id
  {
    var poll := StoredRowIsFirstMatch(h, config, steps, initAt, logs, k);
    SuccessStays(h, poll, logs[k].exitAt, StoredRow(logs[k]));
  }

  /** A row in SUCCESS is still in the table later, unchanged. */
  lemma SuccessStays(h: History, p: nat, q: nat, row: Row)
    requires Legal(h) && p <= q && row in h(p) && row.status.Success?
    ensures row in h(q)
  {
  }

  /**
   If row `i` of the table at any instant `t` is the first match appended since the previous
   step's entry, that exact row is what the wait stores.
   */
  lemma OwnWriteIsReturned(h: History, config: Config, steps: seq<Step>, initAt: nat, logs: seq<StepLog>, k: nat, t: nat, i: nat)
    requires Legal(h) && RunSpec(h, config, steps, initAt, logs)
    requires k < |logs| && Stored(logs[k]) && steps[k].WaitStep?
    requires Anchor(initAt, logs, k) <= t && FirstAppended(h, Anchor(initAt, logs, k), t, steps[k].filter, i)
    ensures StoredRow(logs[k]).id == h(t)[i].id
    ensures StoredRow(logs[k]).eventId == h(t)[i].eventId
  {
    var s, f := Anchor(initAt, logs, k), steps[k].filter;
    var poll := StoredRowIsFirstMatch(h, config, steps, initAt, logs, k);
    FetchSeesExactlyTheAppended(h, s, t, f);
    assert FetchAfter(h(t), MaxId(h(s)), f) == Some(h(t)[i]);
    if t <= poll {
      TrackedRowIsStable(h, t, poll, MaxId(h(s)), f);
    } else {
      TrackedRowIsStable(h, poll, t, MaxId(h(s)), f);
    }
  }

  /**
   Stored ids strictly increase along a run, except possibly from one waiting step to a
   `wait_outbox` directly after it.
   */
  lemma StoredIdsIncrease(h: History, config: Config, steps: seq<Step>, initAt: nat, logs: seq<StepLog>, i: nat, j: nat)
    requires Legal(h) && RunSpec(h, config, steps, initAt, logs)
    requires i < j < |logs| && Stored(logs[i]) && Stored(logs[j])
    requires steps[j].WaitStep? ==> j > i + 1
    ensures StoredRow(logs[i]).id < StoredRow(logs[j]).id
  {
    var p := StoredRowIsFirstMatch(h, config, steps, initAt, logs, i);
    var q := StoredRowIsFirstMatch(h, config, steps, initAt, logs, j);
    var c := CursorInstant(steps, initAt, logs, j);
    StepsInOrder(h, initAt, logs, i, j);
    FetchedIsBelowLaterCursor(h, p, c, StoredRow(logs[i]));
  }

  /** A row seen at `p` is not above a cursor taken later. */
  lemma FetchedIsBelowLaterCursor(h: History, p: nat, c: nat, row: Row)
    requires Legal(h) && p <= c && row in h(p)
    ensures row.id <= MaxId(h(c))
  {
  }

  /** A later cursor with a filter that is at least as strict finds no earlier row. */
  lemma LaterStricterFetch(h: History, a: nat, e: nat, p: nat, q: nat, f: Option<string>, g: Option<string>)
    requires Legal(h) && a <= e && p <= q && (f == None || f == g)
    requires FetchAfter(h(p), MaxId(h(a)), f).Some? && FetchAfter(h(q), MaxId(h(e)), g).Some?
    ensures FetchAfter(h(p), MaxId(h(a)), f).value.id <= FetchAfter(h(q), MaxId(h(e)), g).value.id
  {
    CursorMonotone(h, a, e);
    TrackedRowIsStable(h, p, q, MaxId(h(a)), f);
    assert Candidate(FetchAfter(h(q), MaxId(h(e)), g).value, MaxId(h(a)), f);
  }

  lemma StepsInOrder(h: History, initAt: nat, logs: seq<StepLog>, i: nat, j: nat)
    requires HandOver(h, initAt, logs) && i < j < |logs|
    ensures logs[i].exitAt <= logs[j].entryAt && Anchor(initAt, logs, i + 1) == logs[i].entryAt
    ensures j > i + 1 ==> logs[i].exitAt <= Anchor(initAt, logs, j)
  {
  }

  /**
   Two adjacent waits by themselves: the first with a cursor of instant `s`, the second with that
   of the entry of the first.
   */
  lemma AdjacentPair(h: History, config: Config, a: Step, b: Step, s: nat, first: StepLog, second: StepLog)
    requires Legal(h) && a.WaitStep? && b.WaitStep? && (a.filter == None || a.filter == b.filter)
    requires StepSpec(h, config, a, first) && StepSpec(h, config, b, second) && Stored(first) && Stored(second)
    requires s <= first.entryAt && first.exitAt <= second.entryAt
    requires first.previous == MaxId(h(s)) && second.previous == first.entry
    ensures StoredRow(first).id <= StoredRow(second).id
    ensures a.filter == b.filter && StoredRow(first).id > first.entry ==> StoredRow(first).id == StoredRow(second).id
    ensures StoredRow(second).id > first.entry
  {
    var p := StoringStep(h, config, a, first);
    var q := StoringStep(h, config, b, second);
    LaterStricterFetch(h, s, first.entryAt, p, q, a.filter, b.filter);
    if StoredRow(first).id > first.entry && a.filter == b.filter {
      SeenAgain(h, p, q, first.entry, a.filter, StoredRow(first));
    }
  }

  /**
   Two adjacent `wait_outbox` steps.  When the first filter accepts whatever the second one does
   the stored id does not decrease.
   */
  lemma AdjacentWaitsDoNotDecrease(h: History, config: Config, steps: seq<Step>, initAt: nat, logs: seq<StepLog>, i: nat)
    requires Legal(h) && RunSpec(h, config, steps, initAt, logs)
    requires i + 1 < |logs| && Stored(logs[i]) && Stored(logs[i + 1])
    requires steps[i].WaitStep? && steps[i + 1].WaitStep?
    requires steps[i].filter == None || steps[i].filter == steps[i + 1].filter
    ensures StoredRow(logs[i]).id <= StoredRow(logs[i + 1]).id
  {
    PreviousIsAnchored(h, config, steps, initAt, logs, i);
    AdjacentPair(h, config, steps[i], steps[i + 1], Anchor(initAt, logs, i), logs[i], logs[i + 1]);
  }

  /** With equal filters the same row is returned again exactly when it was appended during the first wait. */
  lemma AdjacentWaitsRepeat(h: History, config: Config, steps: seq<Step>, initAt: nat, logs: seq<StepLog>, i: nat)
    requires Legal(h) && RunSpec(h, config, steps, initAt, logs)
    requires i + 1 < |logs| && Stored(logs[i]) && Stored(logs[i + 1])
    requires steps[i].WaitStep? && steps[i + 1].WaitStep? && steps[i].filter == steps[i + 1].filter
    ensures StoredRow(logs[i]).id == StoredRow(logs[i + 1]).id <==> StoredRow(logs[i]).id > logs[i].entry
  {
    PreviousIsAnchored(h, config, steps, initAt, logs, i);
    AdjacentPair(h, config, steps[i], steps[i + 1], Anchor(initAt, logs, i), logs[i], logs[i + 1]);
  }

  /** A matching row above the cursor bounds what a later query finds. */
  lemma SeenAgain(h: History, p: nat, q: nat, c: nat, f: Option<string>, row: Row)
    requires Legal(h) && p <= q && row in h(p) && Candidate(row, c, f)
    ensures FetchAfter(h(q), c, f).Some? && FetchAfter(h(q), c, f).value.id <= row.id
  {
    var n :| 0 <= n < |h(p)| && h(p)[n] == row;
    assert Evolves(h(p), h(q)) && RowEvolves(h(p)[n], h(q)[n]);
    assert Candidate(h(q)[n], c, f);
  }

  /** Table `t` holds a row that matches `g`, with an id strictly between `low` and `high`. */
  ghost predicate MatchBetween(t: Table, low: nat, high: nat, g: Option<string>) {
    exists k :: 0 <= k < |t| && low < t[k].id < high && Matches(t[k], g)
  }

  /**
   A `wait_outbox` directly after a `_mutate_and_wait` step looks back to the entry of that step.
   It stores an older row exactly when a row matching its filter was appended between that entry
   and the row of the mutation, and the same row exactly when there was none and its filter admits
   that row.  With the prefix of the mutation it never stores a later row, and the same one exactly
   when nobody appended a matching row between the entry and the inner snapshot.
   */
  lemma WaitAfterMutate(h: History, config: Config, steps: seq<Step>, initAt: nat, logs: seq<StepLog>, i: nat)
    requires Legal(h) && RunSpec(h, config, steps, initAt, logs)
    requires i + 1 < |logs| && Stored(logs[i]) && Stored(logs[i + 1])
    requires steps[i].MutateStep? && steps[i + 1].WaitStep?
    ensures var before := MatchBetween(h(logs[i].exitAt), logs[i].entry, StoredRow(logs[i]).id, steps[i + 1].filter);
            && (StoredRow(logs[i + 1]).id < StoredRow(logs[i]).id <==> before)
            && (StoredRow(logs[i + 1]).id == StoredRow(logs[i]).id <==> !before && Matches(StoredRow(logs[i]), steps[i + 1].filter))
    ensures steps[i + 1].filter == Some(steps[i].prefix) ==>
              var inner := h(logs[i].event.cursorAt);
              && StoredRow(logs[i + 1]).id <= StoredRow(logs[i]).id
              && (StoredRow(logs[i + 1]).id == StoredRow(logs[i]).id
                  <==> forall k :: |h(logs[i].entryAt)| <= k < |inner| ==> !Matches(inner[k], Some(steps[i].prefix)))
  {
    assert StepSpec(h, config, steps[i], logs[i]) && StepSpec(h, config, steps[i + 1], logs[i + 1]);
    assert logs[i + 1].previous == logs[i].entry && logs[i].exitAt <= logs[i + 1].entryAt;
    MutationThenWait(h, config, steps[i], steps[i + 1], logs[i], logs[i + 1]);
  }

  /** The two steps by themselves. */
  lemma MutationThenWait(h: History, config: Config, a: Step, b: Step, first: StepLog, second: StepLog)
    requires Legal(h) && a.MutateStep? && b.WaitStep?
    requires StepSpec(h, config, a, first) && StepSpec(h, config, b, second) && Stored(first) && Stored(second)
    requires first.exitAt <= second.entryAt && second.previous == first.entry
    ensures var before := MatchBetween(h(first.exitAt), first.entry, StoredRow(first).id, b.filter);
            && (StoredRow(second).id < StoredRow(first).id <==> before)
            && (StoredRow(second).id == StoredRow(first).id <==> !before && Matches(StoredRow(first), b.filter))
    ensures b.filter == Some(a.prefix) ==>
              var inner := h(first.event.cursorAt);
              && StoredRow(second).id <= StoredRow(first).id
              && (StoredRow(second).id == StoredRow(first).id
                  <==> forall k :: |h(first.entryAt)| <= k < |inner| ==> !Matches(inner[k], Some(a.prefix)))
  {
    var p := StoringStep(h, config, a, first);
    var q := StoringStep(h, config, b, second);
    var e, c, t := first.entryAt, first.event.cursorAt, first.exitAt;
    SuccessIsStillFetched(h, p, t, MaxId(h(c)), Some(a.prefix), StoredRow(first));
    CursorMonotone(h, e, c);
    EarlierCursorOtherFilter(h, t, q, MaxId(h(e)), MaxId(h(c)), Some(a.prefix), b.filter, StoredRow(first), StoredRow(second));
    if b.filter == Some(a.prefix) {
      EarlierCursorFetch(h, e, c, p, q, b.filter, StoredRow(first), StoredRow(second));
    }
  }

  /** A row fetched in SUCCESS is fetched later, too, unchanged. */
  lemma SuccessIsStillFetched(h: History, p: nat, t: nat, c: nat, f: Option<string>, row: Row)
    requires Legal(h) && p <= t && FetchAfter(h(p), c, f) == Some(row) && row.status.Success?
    ensures FetchAfter(h(t), c, f) == Some(row)
  {
    TrackedRowIsStable(h, p, t, c, f);
  }

  /** Two filters, two cursors: how what the earlier cursor finds later compares with what the later one found. */
  lemma EarlierCursorOtherFilter(h: History, t: nat, q: nat, low: nat, cursor: nat, f: Option<string>, g: Option<string>, row: Row, other: Row)
    requires Legal(h) && t <= q && low <= cursor
    requires FetchAfter(h(t), cursor, f) == Some(row) && FetchAfter(h(q), low, g) == Some(other)
    ensures other.id < row.id <==> MatchBetween(h(t), low, row.id, g)
    ensures other.id == row.id <==> !MatchBetween(h(t), low, row.id, g) && Matches(row, g)
  {
    var n :| 0 <= n < |h(t)| && h(t)[n] == row;
    var m :| 0 <= m < |h(q)| && h(q)[m] == other;
    assert Evolves(h(t), h(q)) && Ordered(h(q)) && RowEvolves(h(t)[n], h(q)[n]);
    if MatchBetween(h(t), low, row.id, g) {
      var k :| 0 <= k < |h(t)| && low < h(t)[k].id < row.id && Matches(h(t)[k], g);
      assert RowEvolves(h(t)[k], h(q)[k]) && Candidate(h(q)[k], low, g);
    }
    if other.id < row.id {
      assert m < n && RowEvolves(h(t)[m], h(q)[m]);
    }
    if Matches(row, g) {
      assert Candidate(h(q)[n], low, g);
    }
    assert other.id == row.id ==> m == n;
  }

  /** One filter, two cursors: the earlier cursor finds the same row unless a match lies between them. */
  lemma EarlierCursorFetch(h: History, e: nat, c: nat, p: nat, q: nat, f: Option<string>, row: Row, other: Row)
    requires Legal(h) && e <= c <= p <= q
    requires FetchAfter(h(p), MaxId(h(c)), f) == Some(row) && FetchAfter(h(q), MaxId(h(e)), f) == Some(other)
    ensures other.id <= row.id
    ensures other.id == row.id <==> forall k :: |h(e)| <= k < |h(c)| ==> !Matches(h(c)[k], f)
  {
    CursorMonotone(h, e, c);
    TrackedRowIsStable(h, p, q, MaxId(h(c)), f);
    assert Candidate(FetchAfter(h(q), MaxId(h(c)), f).value, MaxId(h(e)), f);
    FetchSeesExactlyTheAppended(h, e, c, f);
    var inner := FetchAfter(h(c), MaxId(h(e)), f);
    if inner.Some? {
      TrackedRowIsStable(h, c, q, MaxId(h(e)), f);
      assert inner.value.id <= MaxId(h(c)) < row.id;
    } else {
      NothingBetween(h, e, c, q, f, other);
      assert Candidate(other, MaxId(h(c)), f);
    }
  }

  /** If the cursor of `e` sees nothing at `c`, what it sees later lies above the cursor of `c`. */
  lemma NothingBetween(h: History, e: nat, c: nat, q: nat, f: Option<string>, other: Row)
    requires Legal(h) && e <= c <= q
    requires FetchAfter(h(c), MaxId(h(e)), f).None? && FetchAfter(h(q), MaxId(h(e)), f) == Some(other)
    ensures other.id > MaxId(h(c))
  {
  }

  // ---------------------------------------------------------------------------------------
  // When a wait directly behind a waiting step can go back
  // ---------------------------------------------------------------------------------------

  /** A waiting step: a mutation that waits with its prefix, or a `wait_outbox` with a filter. */
  datatype Waiting = ByMutation(prefix: string) | ByWait(filter: Option<string>)

  predicate Known(w: Waiting) {
    match w
    case ByMutation(p) => p in KNOWN_PREFIXES
    case ByWait(f) => KnownFilter(f)
  }

  predicate IsWaiting(step: Step, w: Waiting) {
    match w
    case ByMutation(p) => step.MutateStep? && step.ok && step.wait && step.prefix == p
    case ByWait(f) => step.WaitStep? && step.filter == f
  }

  /** Step i is the waiting step `first`, step i + 1 a `wait_outbox` with filter `g`, and the stored id went down. */
  ghost predicate Decreases(h: History, config: Config, steps: seq<Step>, initAt: nat, logs: seq<StepLog>, i: nat,
                            first: Waiting, g: Option<string>) {
    && Legal(h) && RunSpec(h, config, steps, initAt, logs)
    && i + 1 < |logs| && Stored(logs[i]) && Stored(logs[i + 1])
    && IsWaiting(steps[i], first) && IsWaiting(steps[i + 1], ByWait(g))
    && StoredRow(logs[i + 1]).id < StoredRow(logs[i]).id
  }

  /** The pairs that never go back. */
  predicate KeepsOrder(first: Waiting, g: Option<string>) {
    first.ByWait? && (first.filter == None || first.filter == g)
  }

  /** The row the second wait will find, appended first, and the row of the waiting step. */
  function OlderRow(g: Option<string>): Row {
    Row(1, "older", Success, if g.Some? then g.value else "")
  }

  function NewerRow(p: string): Row {
    Row(2, "newer", Success, p)
  }

  /** No row, one row, two rows. */
  function Stage(a: Row, b: Row, k: nat): Table {
    if k == 0 then [] else if k == 1 then [a] else [a, b]
  }

  /** Two rows become visible at instants 1 and 2. */
  function StagedHistory(a: Row, b: Row): History {
    (t: nat) => Stage(a, b, t)
  }

  lemma StagesEvolve(a: Row, b: Row, j: nat, k: nat)
    requires 0 < a.id < b.id && j <= k
    ensures Ordered(Stage(a, b, j)) && Evolves(Stage(a, b, j), Stage(a, b, k))
  {
  }

  lemma StageCursors(a: Row, b: Row)
    requires 0 < a.id < b.id
    ensures MaxId([]) == 0 && MaxId([a]) == a.id && MaxId([a, b]) == b.id
  {
    assert [a, b][..1] == [a];
  }

  lemma StagedHistoryIsLegal(a: Row, b: Row)
    requires 0 < a.id < b.id
    ensures Legal(StagedHistory(a, b))
  {
    var h := StagedHistory(a, b);
    forall s: nat, t: nat | s <= t ensures Ordered(h(s)) && Evolves(h(s), h(t)) {
      StagesEvolve(a, b, s, t);
    }
    forall t: nat ensures Ordered(h(t)) {
      StagesEvolve(a, b, t, t);
    }
  }

  /** The prefix the waiting step polls with. */
  function PrefixOf(first: Waiting): string
    requires first.ByWait? ==> first.filter.Some?
  {
    match first
    case ByMutation(p) => p
    case ByWait(f) => f.value
  }

  /** The first of two rows that is above the cursor and matches is what a query returns. */
  lemma TwoRowFetch(a: Row, b: Row, c: nat, f: Option<string>)
    requires a.id < b.id && (Candidate(a, c, f) || Candidate(b, c, f))
    ensures FetchAfter([a, b], c, f) == Some(if Candidate(a, c, f) then a else b)
  {
    var t := [a, b];
    assert t[0] == a && t[1] == b;
  }

  /** What the two steps find: the newer row past the first cursor, the older one past cursor 0. */
  lemma StagedFetches(first: Waiting, g: Option<string>)
    requires Known(first) && KnownFilter(g) && !KeepsOrder(first, g)
    ensures var p := PrefixOf(first); var rows := [OlderRow(g), NewerRow(p)];
            && FetchAfter(rows, if first.ByMutation? then 1 else 0, Some(p)) == Some(NewerRow(p))
            && FetchAfter(rows, 0, g) == Some(OlderRow(g))
  {
    var p := PrefixOf(first);
    var older, newer := OlderRow(g), NewerRow(p);
    KnownFiltersAreDisjoint(newer, p, p);
    KnownFiltersAreDisjoint(older, p, if g.Some? then g.value else p);
    if g.Some? {
      KnownFiltersAreDisjoint(older, g.value, g.value);
    } else {
      KnownPrefixColonEnded(p);
    }
    assert first.ByWait? ==> !Matches(older, Some(p));
    TwoRowFetch(older, newer, if first.ByMutation? then 1 else 0, Some(p));
    TwoRowFetch(older, newer, 0, g);
  }

  const STAGED_CONFIG := Config(WaitConfig(1, 10), 1, 0)

  function StagedSteps(first: Waiting, g: Option<string>): seq<Step>
    requires first.ByWait? ==> first.filter.Some?
  {
    [if first.ByMutation? then MutateStep(true, first.prefix, true, None) else WaitStep(first.filter, None), WaitStep(g, None)]
  }

  /**
   The mutation enters at 0, snapshots at 1 and writes before 2; the plain wait starts at 0.  Both
   poll at 3, the second wait polls at 4.
   */
  function StagedLogs(first: Waiting, g: Option<string>): seq<StepLog>
    requires first.ByWait? ==> first.filter.Some?
  {
    var c := if first.ByMutation? then 1 else 0;
    [StepLog(0, 0, 0, 3, Waited(c, WaitLog(c, 2 * c, [3], 3), Found(NewerRow(PrefixOf(first))))),
     StepLog(0, 2, 3, 4, Waited(3, WaitLog(0, 3, [4], 4), Found(OlderRow(g))))]
  }

  /** A waiting step with one poll, which finds a row in SUCCESS. */
  lemma SinglePollStep(h: History, step: Step, log: StepLog)
    requires (step.WaitStep? && step.timeout == None) || (step.MutateStep? && step.ok && step.wait && step.mutateTimeout == None)
    requires KnownFilter(FilterOf(step)) && log.entry == MaxId(h(log.entryAt))
    requires Stored(log) && StoredRow(log).status.Success?
    requires var w := log.event.w;
             && w.polls == [log.exitAt] && w.end == log.exitAt && log.entryAt <= w.start <= w.end
             && FetchAfter(h(log.exitAt), w.cursor, FilterOf(step)) == Some(StoredRow(log))
    requires step.WaitStep? ==> log.event.w.cursor == log.previous
    requires step.MutateStep? ==> log.entryAt <= log.event.cursorAt <= log.event.w.start && log.event.w.cursor == MaxId(h(log.event.cursorAt))
    ensures StepSpec(h, STAGED_CONFIG, step, log)
  {
    assert WaitSpec(h, FilterOf(step), 1, 10, log.event.w, log.event.outcome);
  }

  /** Two executed steps, handed over, are a run. */
  lemma TwoStepRun(h: History, a: Step, b: Step, first: StepLog, second: StepLog)
    requires StepSpec(h, STAGED_CONFIG, a, first) && StepSpec(h, STAGED_CONFIG, b, second) && Continues(first.event)
    requires first.previous == MaxId(h(0)) && second.previous == first.entry && first.exitAt <= second.entryAt
    ensures RunSpec(h, STAGED_CONFIG, [a, b], 0, [first, second])
  {
  }

  /** The rows, the history and the logs fit together. */
  lemma StagedRun(first: Waiting, g: Option<string>, h: History)
    requires Known(first) && KnownFilter(g) && !KeepsOrder(first, g)
    requires h == StagedHistory(OlderRow(g), NewerRow(PrefixOf(first)))
    ensures RunSpec(h, STAGED_CONFIG, StagedSteps(first, g), 0, StagedLogs(first, g))
  {
    var steps, logs := StagedSteps(first, g), StagedLogs(first, g);
    StageCursors(OlderRow(g), NewerRow(PrefixOf(first)));
    StagedFetches(first, g);
    SinglePollStep(h, steps[0], logs[0]);
    SinglePollStep(h, steps[1], logs[1]);
    TwoStepRun(h, steps[0], steps[1], logs[0], logs[1]);
    assert steps == [steps[0], steps[1]] && logs == [logs[0], logs[1]];
  }

  /**
   Every other pair can go back: there is a run over a legal history in which both steps succeed
   and the second one stores an older row than the first.
   */
  lemma AdjacentWaitsMayDecrease(first: Waiting, g: Option<string>)
    requires Known(first) && KnownFilter(g) && !KeepsOrder(first, g)
    ensures exists h, config, steps, initAt, logs, i :: Decreases(h, config, steps, initAt, logs, i, first, g)
  {
    var h, steps, logs := StagedHistory(OlderRow(g), NewerRow(PrefixOf(first))), StagedSteps(first, g), StagedLogs(first, g);
    StagedHistoryIsLegal(OlderRow(g), NewerRow(PrefixOf(first)));
    StagedRun(first, g, h);
    assert Stored(logs[0]) && Stored(logs[1]) && StoredRow(logs[1]).id < StoredRow(logs[0]).id;
    assert IsWaiting(steps[0], first) && IsWaiting(steps[1], ByWait(g));
    assert Decreases(h, STAGED_CONFIG, steps, 0, logs, 0, first, g);
  }

  /**
   Exactly when a `wait_outbox` directly behind a waiting step keeps `last_outbox_row` from going
   back, in every run: that step is a `wait_outbox`, too, and its filter is absent or the same.
   */
  lemma AdjacentWaitsOrderedIff(first: Waiting, g: Option<string>)
    requires Known(first) && KnownFilter(g)
    ensures (forall h, config, steps, initAt, logs, i :: !Decreases(h, config, steps, initAt, logs, i, first, g))
       <==> KeepsOrder(first, g)
  {
    if KeepsOrder(first, g) {
      forall h, config, steps, initAt, logs, i
        ensures !Decreases(h, config, steps, initAt, logs, i, first, g)
      {
        if Decreases(h, config, steps, initAt, logs, i, first, g) {
          AdjacentWaitsDoNotDecrease(h, config, steps, initAt, logs, i);
        }
      }
    } else {
      AdjacentWaitsMayDecrease(first, g);
    }
  }

  // ---------------------------------------------------------------------------------------
  // Negative checks
  // ---------------------------------------------------------------------------------------

  /**
   `assert_no_outbox` is exact: it passes if and only if no matching row was appended between the
   previous step's entry and its fetch.
   */
  lemma NoOutboxStepIsExact(h: History, config: Config, steps: seq<Step>, initAt: nat, logs: seq<StepLog>, k: nat)
    requires Legal(h) && RunSpec(h, config, steps, initAt, logs)
    requires k < |logs| && steps[k].NoOutboxStep? && KnownFilter(steps[k].noneFilter)
    ensures logs[k].event.Checked?
    ensures var before, now := h(Anchor(initAt, logs, k)), h(logs[k].event.at);
            Continues(logs[k].event)
            <==> forall i :: |before| <= i < |now| ==> !Matches(now[i], steps[k].noneFilter)
  {
    assert StepSpec(h, config, steps[k], logs[k]);
    PreviousIsAnchored(h, config, steps, initAt, logs, k);
    FetchSeesExactlyTheAppended(h, Anchor(initAt, logs, k), logs[k].event.at, steps[k].noneFilter);
  }

  /**
   The window of the top-level block opens at the entry of the penultimate step (at the initial
   snapshot when there is one step), not at the end of the run: the block passes exactly when
   nothing matching was appended since then and its other checks pass.
   */
  lemma FinalBlockWindow(h: History, config: Config, steps: seq<Step>, block: Block, initAt: nat,
                         logs: seq<StepLog>, attempts: seq<Attempt>, verdict: Check, code: int)
    requires Legal(h) && ScenarioSpec(h, config, steps, Some(block), initAt, logs, attempts, verdict, code)
    requires |logs| == |steps| > 0 && AllContinue(logs)
    requires block.expectNone && KnownFilter(block.filter) && attempts != []
    ensures var n := |steps|;
            var opening := if n == 1 then initAt else logs[n - 2].entryAt;
            var last := attempts[|attempts| - 1];
            code == 0 <==>
              && (forall i :: |h(opening)| <= i < |h(last.fetchAt)| ==> !Matches(h(last.fetchAt)[i], block.filter))
              && block.others(last.othersAt) == Pass
  {
    var n := |steps|;
    PreviousIsAnchored(h, config, steps, initAt, logs, n - 1);
    BlockPassesIffNothingAppended(h, block, Anchor(initAt, logs, n - 1), config.maxAttempts, attempts, verdict);
  }

  /** A scenario whose final block saw a matching row in any attempt fails, however often it retried. */
  lemma FinalBlockCannotBeMasked(h: History, config: Config, steps: seq<Step>, block: Block, initAt: nat,
                                 logs: seq<StepLog>, attempts: seq<Attempt>, verdict: Check, code: int, j: nat)
    requires Legal(h) && ScenarioSpec(h, config, steps, Some(block), initAt, logs, attempts, verdict, code)
    requires |logs| == |steps| > 0 && AllContinue(logs)
    requires block.expectNone && KnownFilter(block.filter) && j < |attempts|
    requires FetchAfter(h(attempts[j].fetchAt), attempts[j].cursor, block.filter).Some?
    ensures code == 1 && verdict == AssertionFailed && |attempts| == config.maxAttempts
  {
    var previous := Some(logs[|logs| - 1].previous);
    assert AttemptSpec(h, block, previous, attempts[j]);
    RetriesCannotMask(h, block, previous, config.maxAttempts, attempts, verdict, j);
  }
}

/**
 The mutable run state (`auth_harness/steps/context.py`) and the retrying assertion runner
 (`auth_harness/assertions/runner.py`).
 */
module Assertions {
  import opened Wrappers
  import opened OutboxTable
  import opened OutboxWait

  /** `StepContext`: the three fields the steps overwrite. */
  class StepContext {
    var lastOutboxRow: Option<Row>
    var stepEntryCursor: Option<nat>
    var previousStepCursor: Option<nat>

    constructor ()
      ensures lastOutboxRow == None && stepEntryCursor == None && previousStepCursor == None
    {
      lastOutboxRow := None;
      stepEntryCursor := None;
      previousStepCursor := None;
    }
  }

  /** How a check ends: passed, AssertionError (retried), or any other exception (not retried). */
  datatype Check = Pass | AssertionFailed | Aborted

  /**
   An assert block.  `expectNone` is `expect_outbox: false`; `others` stands for the fan-out,
   event and user checks, whose result depends on the instant at which they run.
   */
  datatype Block = Block(expectNone: bool, filter: Option<string>, grace: nat, others: nat -> Check)

  /** One attempt of `_run_once`: the cursor used, the instants of its reads, its result. */
  datatype Attempt = Attempt(cursor: nat, cursorAt: nat, fetchAt: nat, othersAt: nat, result: Check)

  ghost predicate AttemptSpec(h: History, b: Block, previous: Option<nat>, a: Attempt) {
    && a.cursorAt <= a.fetchAt <= a.othersAt
    && if !b.expectNone then a.result == b.others(a.othersAt)
       else if RequireKnownPrefix(b.filter).Err? then a.result == Aborted
       else
         && a.cursor == (if previous.Some? then previous.value else MaxId(h(a.cursorAt)))
         && a.fetchAt >= a.cursorAt + b.grace
         && a.result == if FetchAfter(h(a.fetchAt), a.cursor, b.filter).Some? then AssertionFailed else b.others(a.othersAt)
  }

  /** The attempts of one `AssertRunner.run`, in order, and what the call ends with. */
  ghost predicate AttemptsSpec(h: History, b: Block, previous: Option<nat>, maxAttempts: int, attempts: seq<Attempt>, outcome: Check) {
    && (forall k :: 0 <= k < |attempts| ==> AttemptSpec(h, b, previous, attempts[k]))
    && (forall j, k :: 0 <= j < k < |attempts| ==> attempts[j].othersAt <= attempts[k].cursorAt)
    && (forall k :: 0 <= k < |attempts| - 1 ==> attempts[k].result == AssertionFailed)
    && |attempts| <= (if maxAttempts > 0 then maxAttempts else 0)
    && (if attempts == [] then maxAttempts <= 0 && outcome == AssertionFailed
        else
          && outcome == attempts[|attempts| - 1].result
          && (outcome == AssertionFailed ==> |attempts| == maxAttempts))
  }

  /** `_run_once`. */
  method RunOnce(db: Connection, ctx: StepContext, b: Block) returns (result: Check, ghost a: Attempt)
    modifies db`now
    ensures old(db.now) <= a.cursorAt && a.othersAt <= db.now
    ensures AttemptSpec(db.history, b, ctx.previousStepCursor, a) && a.result == result
  {
    if b.expectNone {
      if RequireKnownPrefix(b.filter).Err? {
        return Aborted, Attempt(0, db.now, db.now, db.now, Aborted);
      }
      var cursor: nat;
      if ctx.previousStepCursor.Some? {
        cursor := ctx.previousStepCursor.value;
      } else {
        cursor := db.SnapshotCursor();
      }
      ghost var cursorAt := db.now;
      db.Sleep(b.grace);
      var row := db.Fetch(cursor, b.filter);
      ghost var fetchAt := db.now;
      if row.Some? {
        return AssertionFailed, Attempt(cursor, cursorAt, fetchAt, fetchAt, AssertionFailed);
      }
      db.Elapse();
      result := b.others(db.now);
      a := Attempt(cursor, cursorAt, fetchAt, db.now, result);
    } else {
      db.Elapse();
      result := b.others(db.now);
      a := Attempt(0, db.now, db.now, db.now, result);
    }
  }

  /** `AssertRunner.run`: retry on AssertionError only, at most `maxAttempts` times. */
  method RunWithRetry(db: Connection, ctx: StepContext, b: Block, maxAttempts: int, retryTicks: nat)
    returns (outcome: Check, ghost attempts: seq<Attempt>)
    modifies db`now
    ensures old(db.now) <= db.now
    ensures forall k :: 0 <= k < |attempts| ==> old(db.now) <= attempts[k].cursorAt && attempts[k].othersAt <= db.now
    ensures AttemptsSpec(db.history, b, ctx.previousStepCursor, maxAttempts, attempts, outcome)
  {
    attempts := [];
    outcome := AssertionFailed;
    var attempt := 1;
    while attempt <= maxAttempts
      invariant attempt == |attempts| + 1 && old(db.now) <= db.now
      invariant |attempts| <= (if maxAttempts > 0 then maxAttempts else 0)
      invariant outcome == AssertionFailed
      invariant forall k :: 0 <= k < |attempts| ==> old(db.now) <= attempts[k].cursorAt && attempts[k].othersAt <= db.now
      invariant forall k :: 0 <= k < |attempts| ==> AttemptSpec(db.history, b, ctx.previousStepCursor, attempts[k])
      invariant forall j, k :: 0 <= j < k < |attempts| ==> attempts[j].othersAt <= attempts[k].cursorAt
      invariant forall k :: 0 <= k < |attempts| ==> attempts[k].result == AssertionFailed
    {
      ghost var a;
      outcome, a := RunOnce(db, ctx, b);
      attempts := attempts + [a];
      if outcome != AssertionFailed || attempt >= maxAttempts {
        return;
      }
      db.Sleep(retryTicks);
      attempt := attempt + 1;
    }
  }

  /**
   Retries cannot mask a negative assertion.  With a cursor handed over by an earlier step, once
   one attempt saw a matching row the call ends in AssertionError, after all `maxAttempts`
   attempts.
   */
  lemma RetriesCannotMask(h: History, b: Block, previous: Option<nat>, maxAttempts: int, attempts: seq<Attempt>, outcome: Check, j: nat)
    requires Legal(h) && AttemptsSpec(h, b, previous, maxAttempts, attempts, outcome)
    requires b.expectNone && KnownFilter(b.filter) && previous.Some?
    requires j < |attempts| && FetchAfter(h(attempts[j].fetchAt), previous.value, b.filter).Some?
    ensures outcome == AssertionFailed && |attempts| == maxAttempts
  {
  }

  /**
   Exactly when the outbox half of a block lets the call pass: with the cursor of instant `s`,
   no matching row may have been appended by the last attempt's read, and then the other checks
   decide.
   */
  lemma BlockPassesIffNothingAppended(h: History, b: Block, s: nat, maxAttempts: int, attempts: seq<Attempt>, outcome: Check)
    requires Legal(h) && AttemptsSpec(h, b, Some(MaxId(h(s))), maxAttempts, attempts, outcome)
    requires b.expectNone && KnownFilter(b.filter) && attempts != [] && s <= attempts[0].cursorAt
    ensures var last := attempts[|attempts| - 1];
            outcome == Pass <==>
              && (forall i :: |h(s)| <= i < |h(last.fetchAt)| ==> !Matches(h(last.fetchAt)[i], b.filter))
              && b.others(last.othersAt) == Pass
  {
  }

  /** A call in which some attempt saw a matching row and which does not end in AssertionError. */
  ghost predicate Masked(h: History, b: Block, previous: Option<nat>, maxAttempts: int, attempts: seq<Attempt>, outcome: Check, j: nat) {
    && Legal(h) && AttemptsSpec(h, b, previous, maxAttempts, attempts, outcome)
    && b.expectNone && KnownFilter(b.filter) && outcome != AssertionFailed
    && j < |attempts| && FetchAfter(h(attempts[j].fetchAt), attempts[j].cursor, b.filter).Some?
  }

  /** The history in which a single row turns up at instant 1. */
  function OneRowHistory(row: Row): History {
    (t: nat) => if t == 0 then [] else [row]
  }

  lemma OneRowHistoryIsLegal(row: Row)
    requires row.id > 0
    ensures Legal(OneRowHistory(row))
  {
  }

  /** What the two cursors of that history see of a matching row. */
  lemma OneRowFetches(row: Row, f: Option<string>)
    requires row.id > 0 && Matches(row, f)
    ensures MaxId([]) == 0 && MaxId([row]) == row.id
    ensures FetchAfter([row], 0, f) == Some(row) && FetchAfter([row], row.id, f) == None
  {
    assert [row][0] == row && Candidate(row, 0, f);
  }

  /**
   Without any step the cursor is not fixed: every attempt takes a fresh snapshot, so with any known
   filter the first attempt can see a row and the second one pass.
   */
  lemma RetriesMaskWithoutSteps(f: Option<string>, maxAttempts: int)
    requires KnownFilter(f) && maxAttempts >= 2
    ensures exists h, b: Block, attempts, j :: b.filter == f && Masked(h, b, None, maxAttempts, attempts, Pass, j)
  {
    var row := Row(1, "event", Success, if f.Some? then f.value else "");
    if f.Some? {
      KnownFiltersAreDisjoint(row, f.value, f.value);
    }
    var h, b := OneRowHistory(row), Block(true, f, 0, t => Pass);
    OneRowHistoryIsLegal(row);
    OneRowFetches(row, f);
    var attempts := [Attempt(0, 0, 1, 1, AssertionFailed), Attempt(1, 1, 2, 2, Pass)];
    assert AttemptSpec(h, b, None, attempts[0]);
    assert AttemptSpec(h, b, None, attempts[1]);
    assert AttemptsSpec(h, b, None, maxAttempts, attempts, Pass);
    assert Masked(h, b, None, maxAttempts, attempts, Pass, 0);
  }

  /** Exactly when no call can be masked: the cursor was handed over, or there is no retry. */
  lemma RetriesMaskIff(previous: Option<nat>, maxAttempts: int, f: Option<string>)
    requires KnownFilter(f)
    ensures (forall h, b: Block, attempts, outcome, j :: b.filter == f ==> !Masked(h, b, previous, maxAttempts, attempts, outcome, j))
       <==> previous.Some? || maxAttempts <= 1
  {
    if previous.None? && maxAttempts >= 2 {
      RetriesMaskWithoutSteps(f, maxAttempts);
    } else {
      forall h, b: Block, attempts, outcome, j | b.filter == f ensures !Masked(h, b, previous, maxAttempts, attempts, outcome, j) {
        NotMasked(h, b, previous, maxAttempts, attempts, outcome, j);
      }
    }
  }

  lemma NotMasked(h: History, b: Block, previous: Option<nat>, maxAttempts: int, attempts: seq<Attempt>, outcome: Check, j: nat)
    requires previous.Some? || maxAttempts <= 1
    ensures !Masked(h, b, previous, maxAttempts, attempts, outcome, j)
  {
    if Masked(h, b, previous, maxAttempts, attempts, outcome, j) {
      assert AttemptSpec(h, b, previous, attempts[j]);
      if previous.Some? {
        RetriesCannotMask(h, b, previous, maxAttempts, attempts, outcome, j);
      }
      assert false;
    }
  }
}

/**
 The scenario runner (`auth_harness/runner/scenario_runner.py`) and the cursor-using steps of
 `auth_harness/steps/handlers.py`, run against an arbitrary concurrent backend.
 */
module Scenario {
  import opened Wrappers
  import opened OutboxTable
  import opened OutboxWait
  import opened Assertions

  datatype Config = Config(wait: WaitConfig, maxAttempts: int, retryTicks: nat)

  /**
   One YAML step.  `ApiStep` is any handler that neither reads a cursor nor stores a row;
   `MutateStep` is a handler that reaches `_mutate_and_wait`; `ok` says whether its calls return.
   */
  datatype Step =
    | ApiStep(ok: bool)
    | MutateStep(ok: bool, prefix: string, wait: bool, mutateTimeout: Option<int>)
    | WaitStep(filter: Option<string>, timeout: Option<int>)
    | NoOutboxStep(noneFilter: Option<string>, grace: nat)
    | AssertStep(block: Block)

  /** What a step did with the outbox. */
  datatype Event =
    | Idle
    | Waited(cursorAt: nat, w: WaitLog, outcome: WaitOutcome)
    | Checked(at: nat, found: Option<Row>)
    | Asserted(attempts: seq<Attempt>, verdict: Check)
    | Raised

  /** One executed step: the cursors it ran with, its first and last instant, its event. */
  datatype StepLog = StepLog(previous: nat, entry: nat, entryAt: nat, exitAt: nat, event: Event)

  /** The run goes on to the next step. */
  predicate Continues(e: Event) {
    match e
    case Idle => true
    case Waited(_, _, outcome) => outcome.Found?
    case Checked(_, found) => found.None?
    case Asserted(_, verdict) => verdict == Pass
    case Raised => false
  }

  ghost predicate WaitedSpec(h: History, config: WaitConfig, f: Option<string>, timeout: Option<int>, log: StepLog) {
    && log.event.Waited?
    && var w := log.event.w;
      && log.entryAt <= w.start <= w.end <= log.exitAt
      && WaitSpec(h, f, config.pollInterval, if timeout.Some? then timeout.value else config.timeout, w, log.event.outcome)
  }

  /** What one step is promised to do, given the cursors in its log. */
  ghost predicate StepSpec(h: History, config: Config, step: Step, log: StepLog) {
    && log.entryAt <= log.exitAt
    && log.entry == MaxId(h(log.entryAt))
    && match step
       case ApiStep(ok) =>
         log.event == if ok then Idle else Raised
       case MutateStep(ok, prefix, wait, timeout) =>
         if !ok then log.event == Raised
         else if !wait then log.event == Idle
         else if prefix !in KNOWN_PREFIXES then log.event == Raised
         else
           && WaitedSpec(h, config.wait, Some(prefix), timeout, log)
           && log.entryAt <= log.event.cursorAt <= log.event.w.start
           && log.event.w.cursor == MaxId(h(log.event.cursorAt))
       case WaitStep(f, timeout) =>
         if !KnownFilter(f) then log.event == Raised
         else WaitedSpec(h, config.wait, f, timeout, log) && log.event.w.cursor == log.previous
       case NoOutboxStep(f, grace) =>
         if !KnownFilter(f) then log.event == Raised
         else
           && log.event.Checked?
           && log.entryAt + grace <= log.event.at <= log.exitAt
           && log.event.found == FetchAfter(h(log.event.at), log.previous, f)
       case AssertStep(block) =>
         && log.event.Asserted?
         && AttemptsSpec(h, block, Some(log.previous), config.maxAttempts, log.event.attempts, log.event.verdict)
         && (forall k :: 0 <= k < |log.event.attempts| ==>
               log.entryAt <= log.event.attempts[k].cursorAt && log.event.attempts[k].othersAt <= log.exitAt)
  }

  /** Cursor hand-over: a step's previous cursor is the entry cursor of the step before it. */
  ghost predicate HandOver(h: History, initAt: nat, logs: seq<StepLog>) {
    && (forall k :: 0 <= k < |logs| ==> initAt <= logs[k].entryAt <= logs[k].exitAt)
    && (forall j, k :: 0 <= j < k < |logs| ==> logs[j].exitAt <= logs[k].entryAt)
    && (logs != [] ==> logs[0].previous == MaxId(h(initAt)))
    && (forall j, k :: 0 <= j && k == j + 1 && k < |logs| ==> logs[k].previous == logs[j].entry)
  }

  /** A run of the steps: a prefix of them was executed, only the last one may have stopped it. */
  ghost predicate RunSpec(h: History, config: Config, steps: seq<Step>, initAt: nat, logs: seq<StepLog>) {
    && |logs| <= |steps|
    && (forall k :: 0 <= k < |logs| ==> StepSpec(h, config, steps[k], logs[k]))
    && HandOver(h, initAt, logs)
    && (forall k :: 0 <= k < |logs| - 1 ==> Continues(logs[k].event))
  }

  /** `last_outbox_row` after these steps: the row of the latest wait that found one. */
  function LastStored(logs: seq<StepLog>): Option<Row> {
    if logs == [] then None
    else
      var e := logs[|logs| - 1].event;
      if e.Waited? && e.outcome.Found? then Some(e.outcome.row) else LastStored(logs[..|logs| - 1])
  }

  /** The context fields reflect the steps executed so far. */
  ghost predicate InSync(h: History, initAt: nat, logs: seq<StepLog>, ctx: StepContext)
    reads ctx
  {
    && ctx.lastOutboxRow == LastStored(logs)
    && ctx.stepEntryCursor == Some(if logs == [] then MaxId(h(initAt)) else logs[|logs| - 1].entry)
    && ctx.previousStepCursor == (if logs == [] then None else Some(logs[|logs| - 1].previous))
  }

  // ---------------------------------------------------------------------------------------
  // Handlers
  // ---------------------------------------------------------------------------------------

  /** `_mutate_and_wait`: snapshot, mutate, then wait past the snapshot unless `wait` is off. */
  method MutateAndWait(db: Connection, ctx: StepContext, config: WaitConfig, ok: bool, prefix: string, wait: bool, timeout: Option<int>)
    returns (ghost event: Event, continues: bool)
    requires Legal(db.history)
    modifies db`now, ctx`lastOutboxRow
    ensures old(db.now) <= db.now && continues == Continues(event)
    ensures ctx.lastOutboxRow == if event.Waited? && event.outcome.Found? then Some(event.outcome.row) else old(ctx.lastOutboxRow)
    ensures !ok ==> event == Raised
    ensures ok && !wait ==> event == Idle
    ensures ok && wait && prefix !in KNOWN_PREFIXES ==> event == Raised
    ensures ok && wait && prefix in KNOWN_PREFIXES ==>
              && event.Waited? && old(db.now) <= event.cursorAt <= event.w.start <= event.w.end <= db.now
              && event.w.cursor == MaxId(db.history(event.cursorAt))
              && WaitSpec(db.history, Some(prefix), config.pollInterval, if timeout.Some? then timeout.value else config.timeout, event.w, event.outcome)
  {
    var cursor := db.SnapshotCursor();
    ghost var cursorAt := db.now;
    db.Elapse();  // the API call
    if !ok {
      return Raised, false;
    }
    if !wait {
      return Idle, true;
    }
    var f := RequireKnownPrefix(Some(prefix));
    if f.Err? {
      return Raised, false;
    }
    var outcome, w := WaitOutboxSuccess(db, config, f.value, timeout, Some(cursor));
    if outcome.Found? {
      ctx.lastOutboxRow := Some(outcome.row);
    }
    return Waited(cursorAt, w, outcome), outcome.Found?;
  }

  /** `ctx.previous_step_cursor or snapshot_outbox_cursor(conn)`: a cursor is never falsy. */
  method PreviousOrSnapshot(db: Connection, ctx: StepContext) returns (cursor: nat, ghost at: nat)
    modifies db`now
    ensures old(db.now) <= at <= db.now
    ensures cursor == if ctx.previousStepCursor.Some? then ctx.previousStepCursor.value else MaxId(db.history(at))
  {
    if ctx.previousStepCursor.Some? {
      return ctx.previousStepCursor.value, db.now;
    }
    cursor := db.SnapshotCursor();
    at := db.now;
  }

  /** `wait_outbox_step`: wait past the previous step's entry cursor. */
  method WaitOutboxStep(db: Connection, ctx: StepContext, config: WaitConfig, f: Option<string>, timeout: Option<int>)
    returns (ghost event: Event, continues: bool)
    requires Legal(db.history)
    modifies db`now, ctx`lastOutboxRow
    ensures old(db.now) <= db.now && continues == Continues(event)
    ensures ctx.lastOutboxRow == if event.Waited? && event.outcome.Found? then Some(event.outcome.row) else old(ctx.lastOutboxRow)
    ensures !KnownFilter(f) ==> event == Raised
    ensures KnownFilter(f) ==>
              && event.Waited? && old(db.now) <= event.cursorAt <= event.w.start <= event.w.end <= db.now
              && event.w.cursor == (if ctx.previousStepCursor.Some? then ctx.previousStepCursor.value else MaxId(db.history(event.cursorAt)))
              && WaitSpec(db.history, f, config.pollInterval, if timeout.Some? then timeout.value else config.timeout, event.w, event.outcome)
  {
    var known := RequireKnownPrefix(f);
    if known.Err? {
      return Raised, false;
    }
    var cursor, at := PreviousOrSnapshot(db, ctx);
    var outcome, w := WaitOutboxSuccess(db, config, known.value, timeout, Some(cursor));
    if outcome.Found? {
      ctx.lastOutboxRow := Some(outcome.row);
    }
    return Waited(at, w, outcome), outcome.Found?;
  }

  /** `assert_no_outbox`: one fetch past the previous step's entry cursor, after the grace time. */
  method AssertNoOutbox(db: Connection, ctx: StepContext, f: Option<string>, grace: nat)
    returns (ghost event: Event, continues: bool, ghost cursorAt: nat)
    modifies db`now
    ensures old(db.now) <= db.now && continues == Continues(event)
    ensures !KnownFilter(f) ==> event == Raised
    ensures KnownFilter(f) ==>
              && event.Checked? && old(db.now) <= cursorAt && cursorAt + grace <= event.at <= db.now
              && var cursor := if ctx.previousStepCursor.Some? then ctx.previousStepCursor.value else MaxId(db.history(cursorAt));
                 event.found == FetchAfter(db.history(event.at), cursor, f)
  {
    var known := RequireKnownPrefix(f);
    if known.Err? {
      return Raised, false, db.now;
    }
    var cursor, at := PreviousOrSnapshot(db, ctx);
    db.Sleep(grace);
    var row := db.Fetch(cursor, f);
    return Checked(db.now, row), row.None?, at;
  }

  /** Dispatch of one step, with the cursors already in place. */
  method Execute(db: Connection, ctx: StepContext, config: Config, step: Step, ghost entryAt: nat)
    returns (ghost log: StepLog, continues: bool)
    requires Legal(db.history)
    requires ctx.previousStepCursor.Some? && ctx.stepEntryCursor == Some(MaxId(db.history(entryAt))) && entryAt <= db.now
    modifies db`now, ctx`lastOutboxRow
    ensures log.previous == ctx.previousStepCursor.value && log.entry == ctx.stepEntryCursor.value
    ensures log.entryAt == entryAt && log.exitAt == db.now
    ensures StepSpec(db.history, config, step, log) && continues == Continues(log.event)
    ensures ctx.lastOutboxRow == if log.event.Waited? && log.event.outcome.Found? then Some(log.event.outcome.row) else old(ctx.lastOutboxRow)
  {
    ghost var event: Event;
    match step {
      case ApiStep(ok) =>
        db.Elapse();
        event, continues := if ok then Idle else Raised, ok;
      case MutateStep(ok, prefix, wait, timeout) =>
        event, continues := MutateAndWait(db, ctx, config.wait, ok, prefix, wait, timeout);
      case WaitStep(f, timeout) =>
        event, continues := WaitOutboxStep(db, ctx, config.wait, f, timeout);
      case NoOutboxStep(f, grace) =>
        ghost var cursorAt;
        event, continues, cursorAt := AssertNoOutbox(db, ctx, f, grace);
      case AssertStep(block) =>
        var verdict, attempts := RunWithRetry(db, ctx, block, config.maxAttempts, config.retryTicks);
        event, continues := Asserted(attempts, verdict), verdict == Pass;
    }
    log := StepLog(ctx.previousStepCursor.value, ctx.stepEntryCursor.value, entryAt, db.now, event);
  }

  // ---------------------------------------------------------------------------------------
  // The runner
  // ---------------------------------------------------------------------------------------

  /** Appending one executed step keeps the cursor hand-over. */
  lemma HandOverExtends(h: History, initAt: nat, logs: seq<StepLog>, log: StepLog)
    requires HandOver(h, initAt, logs)
    requires log.previous == if logs == [] then MaxId(h(initAt)) else logs[|logs| - 1].entry
    requires initAt <= log.entryAt <= log.exitAt
    requires logs != [] ==> logs[|logs| - 1].exitAt <= log.entryAt
    ensures HandOver(h, initAt, logs + [log])
  {
  }

  lemma LastStoredExtends(logs: seq<StepLog>, log: StepLog)
    ensures LastStored(logs + [log])
         == if log.event.Waited? && log.event.outcome.Found? then Some(log.event.outcome.row) else LastStored(logs)
    ensures (logs + [log])[|logs + [log]| - 1] == log
  {
  }

  /** `_run_step`: shift the cursors, snapshot, execute. */
  method RunStep(db: Connection, ctx: StepContext, config: Config, step: Step) returns (ghost log: StepLog, continues: bool)
    requires Legal(db.history) && ctx.stepEntryCursor.Some?
    modifies db`now, ctx
    ensures Some(log.previous) == old(ctx.stepEntryCursor) == ctx.previousStepCursor
    ensures ctx.stepEntryCursor == Some(log.entry)
    ensures ctx.lastOutboxRow == if log.event.Waited? && log.event.outcome.Found? then Some(log.event.outcome.row) else old(ctx.lastOutboxRow)
    ensures StepSpec(db.history, config, step, log) && continues == Continues(log.event)
    ensures old(db.now) <= log.entryAt <= log.exitAt == db.now
  {
    ctx.previousStepCursor := ctx.stepEntryCursor;
    var entry := db.SnapshotCursor();
    ctx.stepEntryCursor := Some(entry);
    log, continues := Execute(db, ctx, config, step, db.now);
  }

  /** Every step so far let the run go on. */
  predicate AllContinue(logs: seq<StepLog>) {
    forall k :: 0 <= k < |logs| ==> Continues(logs[k].event)
  }

  lemma RunExtends(h: History, config: Config, steps: seq<Step>, initAt: nat, logs: seq<StepLog>, log: StepLog)
    requires RunSpec(h, config, steps, initAt, logs) && AllContinue(logs) && |logs| < |steps|
    requires StepSpec(h, config, steps[|logs|], log) && HandOver(h, initAt, logs + [log])
    ensures RunSpec(h, config, steps, initAt, logs + [log])
    ensures Continues(log.event) ==> AllContinue(logs + [log])
  {
  }

  /** The two nested loops over the setup and steps blocks; an exception ends them. */
  method RunSteps(db: Connection, ctx: StepContext, config: Config, steps: seq<Step>, ghost initAt: nat)
    returns (completed: bool, ghost logs: seq<StepLog>)
    requires Legal(db.history) && initAt <= db.now
    requires InSync(db.history, initAt, [], ctx)
    modifies db`now, ctx
    ensures RunSpec(db.history, config, steps, initAt, logs) && InSync(db.history, initAt, logs, ctx)
    ensures completed <==> |logs| == |steps| && AllContinue(logs)
    ensures !completed ==> logs != [] && !Continues(logs[|logs| - 1].event)
    ensures initAt <= db.now && (logs != [] ==> logs[|logs| - 1].exitAt <= db.now)
  {
    logs := [];
    var i := 0;
    while i < |steps|
      invariant 0 <= i == |logs| <= |steps| && initAt <= db.now
      invariant RunSpec(db.history, config, steps, initAt, logs) && AllContinue(logs)
      invariant InSync(db.history, initAt, logs, ctx)
      invariant logs != [] ==> logs[|logs| - 1].exitAt <= db.now
    {
      ghost var log;
      var continues;
      log, continues := RunStep(db, ctx, config, steps[i]);
      HandOverExtends(db.history, initAt, logs, log);
      LastStoredExtends(logs, log);
      RunExtends(db.history, config, steps, initAt, logs, log);
      logs := logs + [log];
      if !continues {
        return false, logs;
      }
      i := i + 1;
    }
    completed := true;
  }

  /** Everything one scenario run is promised to be. */
  ghost predicate ScenarioSpec(h: History, config: Config, steps: seq<Step>, finalBlock: Option<Block>, initAt: nat,
                               logs: seq<StepLog>, attempts: seq<Attempt>, verdict: Check, code: int) {
    && RunSpec(h, config, steps, initAt, logs)
    && (|logs| < |steps| ==> !AllContinue(logs))
    && var completed := |logs| == |steps| && AllContinue(logs);
      && (completed && finalBlock.Some? ==>
            && AttemptsSpec(h, finalBlock.value, if logs == [] then None else Some(logs[|logs| - 1].previous), config.maxAttempts, attempts, verdict)
            && (logs != [] && attempts != [] ==> logs[|logs| - 1].exitAt <= attempts[0].cursorAt))
      && code == if completed && (finalBlock.Some? ==> verdict == Pass) then 0 else 1
  }

  /** What lets step `k` of a scenario pass, read off the step and what the harness saw of the outbox. */
  lemma StepPassesIff(h: History, config: Config, step: Step, log: StepLog)
    requires StepSpec(h, config, step, log)
    ensures Continues(log.event) <==>
              match step
              case ApiStep(ok) => ok
              case MutateStep(ok, prefix, wait, _) =>
                ok && (wait ==> prefix in KNOWN_PREFIXES && LastSeen(h, Some(prefix), log.event) == Some(Success))
              case WaitStep(f, _) => KnownFilter(f) && LastSeen(h, f, log.event) == Some(Success)
              case NoOutboxStep(f, _) => KnownFilter(f) && FetchAfter(h(log.event.at), log.previous, f) == None
              case AssertStep(_) =>
                log.event.attempts != [] && log.event.attempts[|log.event.attempts| - 1].result == Pass
  {
  }

  /** The status of the row the last poll of a wait saw. */
  function LastSeen(h: History, f: Option<string>, e: Event): Option<Status> {
    if !e.Waited? || e.w.polls == [] then None
    else
      match FetchAfter(h(e.w.polls[|e.w.polls| - 1]), e.w.cursor, f)
      case None => None
      case Some(row) => Some(row.status)
  }

  /**
   The exit code: 0 exactly when every step was executed, none raised, every wait found its row,
   every negative check found none, every assert block passed, and so did the final one.
   */
  lemma ExitCodeIff(h: History, config: Config, steps: seq<Step>, finalBlock: Option<Block>, initAt: nat,
                    logs: seq<StepLog>, attempts: seq<Attempt>, verdict: Check, code: int)
    requires ScenarioSpec(h, config, steps, finalBlock, initAt, logs, attempts, verdict, code)
    ensures code == 0 || code == 1
    ensures code == 0 <==>
              && |logs| == |steps|
              && (forall k :: 0 <= k < |logs| ==>
                    var e := logs[k].event;
                    && !e.Raised? && (e.Waited? ==> e.outcome.Found?) && (e.Checked? ==> e.found == None)
                    && (e.Asserted? ==> e.verdict == Pass))
              && (finalBlock.Some? ==> attempts != [] && attempts[|attempts| - 1].result == Pass)
  {
  }

  /** The first step that fails is the last one executed. */
  lemma FailureEndsTheRun(h: History, config: Config, steps: seq<Step>, finalBlock: Option<Block>, initAt: nat,
                          logs: seq<StepLog>, attempts: seq<Attempt>, verdict: Check, code: int)
    requires ScenarioSpec(h, config, steps, finalBlock, initAt, logs, attempts, verdict, code)
    ensures forall k :: 0 <= k < |logs| ==>
              var e := logs[k].event;
              (e.Raised? || (e.Waited? && !e.outcome.Found?) || (e.Checked? && e.found.Some?) || (e.Asserted? && e.verdict != Pass)) ==>
                k == |logs| - 1 && code == 1
    ensures |logs| < |steps| ==>
              && logs != []
              && var e := logs[|logs| - 1].event;
                 e.Raised? || (e.Waited? && !e.outcome.Found?) || (e.Checked? && e.found.Some?) || (e.Asserted? && e.verdict != Pass)
  {
  }

  /**
   `_run_inner` without its I/O set-up, under the handler of `run`: 0 when every step and the
   final block passed, 1 when anything raised.  `steps` is the setup block followed by the steps
   block.
   */
  method RunScenario(db: Connection, config: Config, steps: seq<Step>, finalBlock: Option<Block>)
    returns (code: int, ctx: StepContext, ghost initAt: nat, ghost logs: seq<StepLog>, ghost attempts: seq<Attempt>, ghost verdict: Check)
    requires Legal(db.history)
    modifies db`now
    ensures fresh(ctx) && InSync(db.history, initAt, logs, ctx)
    ensures ScenarioSpec(db.history, config, steps, finalBlock, initAt, logs, attempts, verdict, code)
  {
    ctx := new StepContext();
    var first := db.SnapshotCursor();
    initAt := db.now;
    ctx.stepEntryCursor := Some(first);
    attempts, verdict := [], Pass;
    var completed;
    completed, logs := RunSteps(db, ctx, config, steps, initAt);
    if !completed {
      return 1, ctx, initAt, logs, attempts, verdict;
    }
    var outcome := Pass;
    if finalBlock.Some? {
      outcome, attempts := RunWithRetry(db, ctx, finalBlock.value, config.maxAttempts, config.retryTicks);
      verdict := outcome;
    }
    code := if outcome == Pass then 0 else 1;
  }
}

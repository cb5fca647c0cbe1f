/**
 The polling loop of `auth_harness/wait/outbox.py`.  A connection reads a history it cannot
 influence: between any two reads the clock, and with it the backend, moves on by an
 arbitrary amount.
 */
module OutboxWait {
  import opened Wrappers
  import opened Arithmetic
  import opened OutboxTable

  /** `config.wait`, in clock ticks. */
  datatype WaitConfig = WaitConfig(pollInterval: nat, timeout: int)

  /** How `wait_outbox_success` ends: the row, or one of its two TimeoutErrors. */
  datatype WaitOutcome = Found(row: Row) | FailedRow(row: Row) | TimedOut(last: Option<Row>)

  /** The database connection together with the wall clock. */
  class Connection {
    const history: History
    var now: nat

    constructor (history: History)
      ensures this.history == history && now == 0
    {
      this.history := history;
      now := 0;
    }

    /** Any amount of time passes. */
    method Elapse()
      modifies this`now
      ensures now >= old(now)
    {
      var d: nat :| true;
      now := now + d;
    }

    /** `time.sleep`: at least the requested time passes. */
    method Sleep(ticks: nat)
      modifies this`now
      ensures now >= old(now) + ticks
    {
      Elapse();
      now := now + ticks;
    }

    /** `snapshot_outbox_cursor`: the global maximum at some instant of the call. */
    method SnapshotCursor() returns (cursor: nat)
      modifies this`now
      ensures now >= old(now) && cursor == MaxId(history(now))
    {
      Elapse();
      cursor := MaxId(history(now));
    }

    /** `fetch_outbox_after_id`, executed at some instant of the call; a query takes at least one tick. */
    method Fetch(minId: nat, f: Option<string>) returns (row: Option<Row>)
      modifies this`now
      ensures now > old(now) && row == FetchAfter(history(now), minId, f)
    {
      Sleep(1);
      row := FetchAfter(history(now), minId, f);
    }
  }

  /** What one call of the loop did: where it started, when it polled, when it ended. */
  datatype WaitLog = WaitLog(cursor: nat, start: nat, polls: seq<nat>, end: nat)

  /** A poll that makes the loop go on: no row yet, or a row still running. */
  predicate Undecided(r: Option<Row>) {
    r.None? || r.value.status.InFlight?
  }

  /** When the polls of a wait happened: inside its span, an interval apart, none after the deadline check failed. */
  predicate PollTimes(w: WaitLog, interval: nat, timeout: int) {
    && (forall k :: 0 <= k < |w.polls| ==> w.start <= w.polls[k] <= w.end)
    && (forall j, k :: 0 <= j < k < |w.polls| ==> w.polls[j] + interval <= w.polls[k])
    && (forall k :: 0 <= k < |w.polls| - 1 ==> w.polls[k] + interval < w.start + timeout)
    && (w.polls != [] ==> timeout > 0)
  }

  /** Everything that is promised about one wait: `outcome` is decided by the last poll. */
  ghost predicate WaitSpec(h: History, f: Option<string>, interval: nat, timeout: int, w: WaitLog, outcome: WaitOutcome) {
    && PollTimes(w, interval, timeout)
    && (forall k :: 0 <= k < |w.polls| - 1 ==> Undecided(FetchAfter(h(w.polls[k]), w.cursor, f)))
    && match outcome
       case Found(row) =>
         w.polls != [] && row.status.Success? && FetchAfter(h(w.polls[|w.polls| - 1]), w.cursor, f) == Some(row)
       case FailedRow(row) =>
         w.polls != [] && row.status.Failure() && FetchAfter(h(w.polls[|w.polls| - 1]), w.cursor, f) == Some(row)
       case TimedOut(last) =>
         && w.end >= w.start + timeout
         && if w.polls == [] then last == None
            else Undecided(last) && last == FetchAfter(h(w.polls[|w.polls| - 1]), w.cursor, f)
  }

  /** The state of the loop between two iterations: every poll so far was undecided. */
  ghost predicate Polling(h: History, f: Option<string>, interval: nat, timeout: int, w: WaitLog, last: Option<Row>) {
    && PollTimes(w, interval, timeout)
    && (forall k :: 0 <= k < |w.polls| ==> w.polls[k] + interval <= w.end)
    && (forall k :: 0 <= k < |w.polls| ==> Undecided(FetchAfter(h(w.polls[k]), w.cursor, f)))
    && last == if w.polls == [] then None else FetchAfter(h(w.polls[|w.polls| - 1]), w.cursor, f)
  }

  /** The log after one more poll at `p`, seen at instant `end`. */
  function Polled(w: WaitLog, p: nat, end: nat): WaitLog {
    w.(polls := w.polls + [p], end := end)
  }

  /** One more poll before the deadline keeps the spacing. */
  lemma PollKeepsTimes(h: History, f: Option<string>, interval: nat, timeout: int, w: WaitLog, last: Option<Row>, p: nat, end: nat)
    requires Polling(h, f, interval, timeout, w, last)
    requires w.start <= w.end < w.start + timeout && w.end <= p <= end
    ensures PollTimes(Polled(w, p, end), interval, timeout)
  {
  }

  /** An undecided poll keeps the loop state; `last_row` is what that poll saw. */
  lemma UndecidedPollContinues(h: History, f: Option<string>, interval: nat, timeout: int, w: WaitLog, last: Option<Row>, p: nat, end: nat)
    requires Legal(h) && Polling(h, f, interval, timeout, w, last)
    requires w.start <= w.end < w.start + timeout && w.end <= p && p + interval <= end
    requires Undecided(FetchAfter(h(p), w.cursor, f))
    ensures var row := FetchAfter(h(p), w.cursor, f);
            Polling(h, f, interval, timeout, Polled(w, p, end), if row.Some? then row else last)
  {
    PollKeepsTimes(h, f, interval, timeout, w, last, p, end);
    var v := Polled(w, p, end);
    assert v.polls[|v.polls| - 1] == p;
    forall k | 0 <= k < |v.polls| ensures Undecided(FetchAfter(h(v.polls[k]), v.cursor, f)) {
      assert k < |w.polls| ==> v.polls[k] == w.polls[k];
    }
    if last.Some? {
      TrackedRowIsStable(h, w.polls[|w.polls| - 1], p, w.cursor, f);
    }
  }

  /** A terminal row at a poll decides the wait. */
  lemma TerminalPollDecides(h: History, f: Option<string>, interval: nat, timeout: int, w: WaitLog, last: Option<Row>, p: nat, end: nat, row: Row)
    requires Polling(h, f, interval, timeout, w, last)
    requires w.start <= w.end < w.start + timeout && w.end <= p <= end
    requires FetchAfter(h(p), w.cursor, f) == Some(row) && row.status.Terminal()
    ensures WaitSpec(h, f, interval, timeout, Polled(w, p, end), if row.status.Success? then Found(row) else FailedRow(row))
  {
    PollKeepsTimes(h, f, interval, timeout, w, last, p, end);
    var v := Polled(w, p, end);
    assert v.polls[|v.polls| - 1] == p;
    forall k | 0 <= k < |v.polls| - 1 ensures Undecided(FetchAfter(h(v.polls[k]), v.cursor, f)) {
      assert v.polls[k] == w.polls[k];
    }
  }

  lemma NoPollsYet(h: History, f: Option<string>, interval: nat, timeout: int, w: WaitLog)
    requires w.polls == []
    ensures Polling(h, f, interval, timeout, w, None)
  {
  }

  /** Past the deadline the wait ends with the row it last saw, if any. */
  lemma DeadlineTimesOut(h: History, f: Option<string>, interval: nat, timeout: int, w: WaitLog, last: Option<Row>)
    requires Polling(h, f, interval, timeout, w, last) && w.end >= w.start + timeout
    ensures WaitSpec(h, f, interval, timeout, w, TimedOut(last))
  {
  }

  /** One iteration of the loop: a poll that decides the wait, or a sleep. */
  method PollOnce(db: Connection, interval: nat, timeout: int, f: Option<string>, active: nat, last: Option<Row>, ghost w: WaitLog)
    returns (decided: Option<WaitOutcome>, last': Option<Row>, ghost w': WaitLog)
    requires Legal(db.history) && Polling(db.history, f, interval, timeout, w, last)
    requires w.cursor == active && w.start <= w.end == db.now < w.start + timeout
    modifies db`now
    ensures w'.start == w.start && w'.cursor == w.cursor && w'.end == db.now >= old(db.now)
    ensures decided.Some? ==> WaitSpec(db.history, f, interval, timeout, w', decided.value)
    ensures decided.None? ==> Polling(db.history, f, interval, timeout, w', last') && db.now >= old(db.now) + interval && db.now > old(db.now)
  {
    var row := db.Fetch(active, f);
    ghost var p := db.now;
    if row.Some? && row.value.status.Terminal() {
      TerminalPollDecides(db.history, f, interval, timeout, w, last, p, p, row.value);
      return Some(if row.value.status.Success? then Found(row.value) else FailedRow(row.value)), last, Polled(w, p, p);
    }
    db.Sleep(interval);
    UndecidedPollContinues(db.history, f, interval, timeout, w, last, p, db.now);
    return None, if row.Some? then row else last, Polled(w, p, db.now);
  }

  /** The `while` loop of `wait_outbox_success`, from the deadline on. */
  method PollUntilDeadline(db: Connection, interval: nat, timeout: int, f: Option<string>, active: nat)
    returns (outcome: WaitOutcome, ghost w: WaitLog)
    requires Legal(db.history)
    modifies db`now
    ensures old(db.now) <= w.start <= w.end <= db.now && w.cursor == active
    ensures WaitSpec(db.history, f, interval, timeout, w, outcome)
  {
    db.Elapse();
    ghost var start := db.now;
    var deadline := db.now + timeout;
    var last: Option<Row> := None;
    db.Elapse();
    w := WaitLog(active, start, [], db.now);
    NoPollsYet(db.history, f, interval, timeout, w);
    while db.now < deadline
      invariant old(db.now) <= start <= w.end == db.now
      invariant w.cursor == active && w.start == start
      invariant Polling(db.history, f, interval, timeout, w, last)
      decreases deadline - db.now
    {
      var decided;
      decided, last, w := PollOnce(db, interval, timeout, f, active, last, w);
      if decided.Some? {
        return decided.value, w;
      }
    }
    DeadlineTimesOut(db.history, f, interval, timeout, w, last);
    outcome := TimedOut(last);
  }

  /** `wait_outbox_success`. */
  method WaitOutboxSuccess(db: Connection, config: WaitConfig, f: Option<string>, timeoutTicks: Option<int>, cursor: Option<nat>)
    returns (outcome: WaitOutcome, ghost w: WaitLog)
    requires Legal(db.history)
    modifies db`now
    ensures old(db.now) <= w.start <= w.end <= db.now
    ensures cursor.Some? ==> w.cursor == cursor.value
    ensures cursor.None? ==> exists t: nat :: old(db.now) <= t <= w.start && w.cursor == MaxId(db.history(t))
    ensures WaitSpec(db.history, f, config.pollInterval, if timeoutTicks.Some? then timeoutTicks.value else config.timeout, w, outcome)
  {
    var timeout := if timeoutTicks.Some? then timeoutTicks.value else config.timeout;
    var active: nat;
    if cursor.Some? {
      active := cursor.value;
    } else {
      active := db.SnapshotCursor();
    }
    ghost var snapshotAt := db.now;
    outcome, w := PollUntilDeadline(db, config.pollInterval, timeout, f, active);
    assert cursor.None? ==> old(db.now) <= snapshotAt <= w.start;
  }

  /** The k-th poll happens at least k intervals after the start. */
  lemma {:induction false} PollsAreSpaced(w: WaitLog, interval: nat, timeout: int, k: nat)
    requires PollTimes(w, interval, timeout) && k < |w.polls|
    ensures w.start + k * interval <= w.polls[k]
  {
    if k > 0 {
      PollsAreSpaced(w, interval, timeout, k - 1);
      assert k * interval == (k - 1) * interval + interval;
    }
  }

  /** At most ceil(timeout / interval) fetches, whatever the backend does. */
  lemma PollCountIsBounded(w: WaitLog, interval: nat, timeout: int)
    requires PollTimes(w, interval, timeout) && interval > 0
    ensures timeout <= 0 ==> w.polls == []
    ensures timeout > 0 ==> |w.polls| <= (timeout + interval - 1) / interval
  {
    var n := |w.polls|;
    if n > 1 {
      PollsAreSpaced(w, interval, timeout, n - 2);
      assert w.polls[n - 2] + interval < w.start + timeout;
      assert (n - 1) * interval == (n - 2) * interval + interval;
    }
    if n >= 1 {
      CeilingBound(n, interval, timeout);
    }
  }

  lemma CeilingBound(n: nat, interval: nat, timeout: int)
    requires n >= 1 && interval > 0 && timeout > 0 && (n - 1) * interval < timeout
    ensures n <= (timeout + interval - 1) / interval
  {
    var q := (timeout + interval - 1) / interval;
    assert q * interval >= timeout;
    MultiplyMonotone(q, n - 1, interval);
  }

  /** The row a wait is about, at any of its polls, is one row: its id never changes. */
  lemma OneWaitTracksOneRow(h: History, f: Option<string>, w: WaitLog, j: nat, k: nat)
    requires Legal(h)
    requires j <= k < |w.polls| && w.polls[j] <= w.polls[k]
    requires FetchAfter(h(w.polls[j]), w.cursor, f).Some?
    ensures FetchAfter(h(w.polls[k]), w.cursor, f).Some?
    ensures FetchAfter(h(w.polls[k]), w.cursor, f).value.id == FetchAfter(h(w.polls[j]), w.cursor, f).value.id
  {
  }

  /** A decided wait reports the terminal row its last poll saw. */
  lemma DecidedByLastPoll(h: History, f: Option<string>, interval: nat, timeout: int, w: WaitLog, outcome: WaitOutcome)
    requires WaitSpec(h, f, interval, timeout, w, outcome) && !outcome.TimedOut?
    ensures w.polls != [] && FetchAfter(h(w.polls[|w.polls| - 1]), w.cursor, f) == Some(outcome.row)
    ensures outcome.row.status.Terminal() && (outcome.Found? <==> outcome.row.status.Success?)
  {
  }

  /** Conversely a terminal row at the last poll decides the wait. */
  lemma LastPollDecides(h: History, f: Option<string>, interval: nat, timeout: int, w: WaitLog, outcome: WaitOutcome, row: Row)
    requires WaitSpec(h, f, interval, timeout, w, outcome)
    requires w.polls != [] && FetchAfter(h(w.polls[|w.polls| - 1]), w.cursor, f) == Some(row) && row.status.Terminal()
    ensures outcome == if row.status.Success? then Found(row) else FailedRow(row)
  {
  }

  /**
   A verdict is final: once a wait ended with a terminal row, any other wait with the same cursor
   and filter whose last poll is not earlier ends in the same way, on the same row.
   */
  lemma VerdictIsFinal(h: History, f: Option<string>, interval: nat, timeout: int, w: WaitLog, a: WaitOutcome,
                       interval': nat, timeout': int, w': WaitLog, b: WaitOutcome)
    requires Legal(h)
    requires WaitSpec(h, f, interval, timeout, w, a) && WaitSpec(h, f, interval', timeout', w', b)
    requires w.cursor == w'.cursor && !a.TimedOut?
    requires w'.polls != [] && w.polls[|w.polls| - 1] <= w'.polls[|w'.polls| - 1]
    ensures b == a
  {
    DecidedByLastPoll(h, f, interval, timeout, w, a);
    TrackedRowIsStable(h, w.polls[|w.polls| - 1], w'.polls[|w'.polls| - 1], w.cursor, f);
    LastPollDecides(h, f, interval', timeout', w', b, a.row);
  }

  /** A timeout is honest: at its last poll the tracked row was absent or not terminal. */
  lemma TimeoutMeansUndecided(h: History, f: Option<string>, interval: nat, timeout: int, w: WaitLog, outcome: WaitOutcome, t: nat)
    requires Legal(h)
    requires WaitSpec(h, f, interval, timeout, w, outcome) && outcome.TimedOut?
    requires w.polls != [] && t <= w.polls[|w.polls| - 1]
    ensures Undecided(FetchAfter(h(t), w.cursor, f))
  {
    var p := w.polls[|w.polls| - 1];
    if FetchAfter(h(t), w.cursor, f).Some? {
      TrackedRowIsStable(h, t, p, w.cursor, f);
    }
  }

  /**
   Progress: if at most `delay` ticks pass between the last poll's sleep (or the start) and the end,
   a row that is terminal early enough before the deadline decides the wait.
   */
  lemma TerminalRowIsFound(h: History, f: Option<string>, interval: nat, timeout: int, w: WaitLog, outcome: WaitOutcome,
                           delay: nat, t: nat, row: Row)
    requires Legal(h) && WaitSpec(h, f, interval, timeout, w, outcome)
    requires w.end <= (if w.polls == [] then w.start else w.polls[|w.polls| - 1] + interval) + delay
    requires delay < timeout && t + interval + delay <= w.start + timeout
    requires FetchAfter(h(t), w.cursor, f) == Some(row) && row.status.Terminal()
    ensures outcome == if row.status.Success? then Found(row) else FailedRow(row)
  {
    var p := w.polls[|w.polls| - 1];
    if p >= t {
      TrackedRowIsStable(h, t, p, w.cursor, f);
    } else {
      assert !outcome.TimedOut?;
      DecidedByLastPoll(h, f, interval, timeout, w, outcome);
      TrackedRowIsStable(h, p, t, w.cursor, f);
    }
  }
}

/**
 The export probe (`auth_harness/services/example_order_export_probe.py`): polling all tasks to a
 terminal status, the overlap test on execution windows, and the verdict "parallel or serial".
 */
module ExportProbe {
  import opened Arithmetic
  import opened Wrappers

  // ---------------------------------------------------------------------------------------
  // Windows and schedules
  // ---------------------------------------------------------------------------------------

  /** A half-open execution window. */
  datatype Window = Window(start: int, end: int)

  /** `execution_windows_overlap`. */
  predicate Overlap(a: Window, b: Window) {
    a.start < b.end && b.start < a.end
  }

  ghost predicate HasOverlap(ws: seq<Window>) {
    exists i, j :: 0 <= i < j < |ws| && Overlap(ws[i], ws[j])
  }

  /** `any_execution_windows_overlap`: the nested search. */
  method AnyExecutionWindowsOverlap(ws: seq<Window>) returns (found: bool)
    ensures found <==> HasOverlap(ws)
  {
    for i := 0 to |ws|
      invariant forall k, j :: 0 <= k < i && k < j < |ws| ==> !Overlap(ws[k], ws[j])
    {
      for j := i + 1 to |ws|
        invariant forall k :: i < k < j ==> !Overlap(ws[i], ws[k])
      {
        if Overlap(ws[i], ws[j]) {
          return true;
        }
      }
    }
    found := false;
  }

  predicate Positive(ws: seq<Window>) {
    forall i :: 0 <= i < |ws| ==> ws[i].start < ws[i].end
  }

  /** One after the other: each window ends before the next one starts, or just then. */
  predicate Serial(p: seq<Window>) {
    |p| <= 1 || (p[0].end <= p[1].start && Serial(p[1..]))
  }

  /** The windows can be put into a serial order. */
  ghost predicate HasSerialOrder(ws: seq<Window>) {
    exists p: seq<Window> :: multiset(p) == multiset(ws) && Serial(p)
  }

  lemma {:induction false} SerialFirst(p: seq<Window>)
    requires Serial(p) && Positive(p)
    ensures forall k :: 0 < k < |p| ==> p[0].end <= p[k].start
    decreases |p|
  {
    if |p| > 1 {
      SerialFirst(p[1..]);
      forall k | 0 < k < |p| ensures p[0].end <= p[k].start {
        assert p[k] == p[1..][k - 1];
        assert p[1] == p[1..][0];
        assert k > 1 ==> p[1..][0].end <= p[1..][k - 1].start;
      }
    }
  }

  lemma {:induction false} SerialHasNoOverlap(p: seq<Window>)
    requires Serial(p) && Positive(p)
    ensures !HasOverlap(p)
    decreases |p|
  {
    if |p| > 1 {
      SerialFirst(p);
      SerialHasNoOverlap(p[1..]);
      forall i, j | 0 <= i < j < |p| ensures !Overlap(p[i], p[j]) {
        if i > 0 {
          assert p[i] == p[1..][i - 1] && p[j] == p[1..][j - 1];
        }
      }
    }
  }

  // ---------------------------------------------------------------------------------------
  // Overlap does not depend on the order
  // ---------------------------------------------------------------------------------------

  /** No overlap, said of the multiset: a window overlaps none of the others. */
  ghost predicate Apart(m: multiset<Window>) {
    forall a, b :: a in m && b in m - multiset{a} ==> !Overlap(a, b)
  }

  lemma WithoutOne(ws: seq<Window>, i: nat)
    requires i < |ws|
    ensures multiset(ws) - multiset{ws[i]} == multiset(ws[..i] + ws[i + 1..])
  {
    assert ws == ws[..i] + [ws[i]] + ws[i + 1..];
  }

  /** The other windows, as a list without gap. */
  lemma OthersAreOthers(ws: seq<Window>, i: nat, b: Window)
    requires i < |ws| && b in ws[..i] + ws[i + 1..]
    ensures exists j :: 0 <= j < |ws| && j != i && ws[j] == b
  {
  }

  lemma NoOverlapMeansApart(ws: seq<Window>, a: Window, b: Window)
    requires !HasOverlap(ws) && a in multiset(ws) && b in multiset(ws) - multiset{a}
    ensures !Overlap(a, b)
  {
    var i :| 0 <= i < |ws| && ws[i] == a;
    WithoutOne(ws, i);
    OthersAreOthers(ws, i, b);
    var j :| 0 <= j < |ws| && j != i && ws[j] == b;
    assert if i < j then !Overlap(ws[i], ws[j]) else !Overlap(ws[j], ws[i]);
  }

  lemma OverlapMeansNotApart(ws: seq<Window>, i: nat, j: nat)
    requires i < j < |ws| && Overlap(ws[i], ws[j])
    ensures !Apart(multiset(ws))
  {
    WithoutOne(ws, i);
    assert ws[j] in ws[i + 1..] by {
      assert ws[i + 1..][j - i - 1] == ws[j];
    }
    assert ws[i] in multiset(ws) && ws[j] in multiset(ws) - multiset{ws[i]};
  }

  lemma NoOverlapIsApart(ws: seq<Window>)
    ensures !HasOverlap(ws) <==> Apart(multiset(ws))
  {
    if !HasOverlap(ws) {
      forall a, b | a in multiset(ws) && b in multiset(ws) - multiset{a} ensures !Overlap(a, b) {
        NoOverlapMeansApart(ws, a, b);
      }
    } else {
      var i: nat, j: nat :| i < j < |ws| && Overlap(ws[i], ws[j]);
      OverlapMeansNotApart(ws, i, j);
    }
  }

  // ---------------------------------------------------------------------------------------
  // Building the serial order
  // ---------------------------------------------------------------------------------------

  function Total(ws: seq<Window>): int {
    if ws == [] then 0 else ws[0].end - ws[0].start + Total(ws[1..])
  }

  function Insert(w: Window, p: seq<Window>): seq<Window> {
    if p == [] || w.start <= p[0].start then [w] + p else [p[0]] + Insert(w, p[1..])
  }

  /** The windows by starting time. */
  function ByStart(ws: seq<Window>): seq<Window> {
    if ws == [] then [] else Insert(ws[0], ByStart(ws[1..]))
  }

  lemma SerialCons(w: Window, p: seq<Window>)
    requires Serial(p) && (p == [] || w.end <= p[0].start)
    ensures Serial([w] + p) && Total([w] + p) == w.end - w.start + Total(p)
  {
  }

  lemma {:induction false} InsertIsPermutation(w: Window, p: seq<Window>)
    ensures multiset(Insert(w, p)) == multiset{w} + multiset(p)
    decreases |p|
  {
    if p != [] {
      assert p == [p[0]] + p[1..];
      InsertIsPermutation(w, p[1..]);
    }
  }

  lemma {:induction false} InsertIsSerial(w: Window, p: seq<Window>)
    requires Serial(p) && Positive(p) && w.start < w.end
    requires forall k :: 0 <= k < |p| ==> !Overlap(w, p[k])
    ensures var r := Insert(w, p);
            && Serial(r) && Total(r) == w.end - w.start + Total(p)
            && r != [] && (r[0] == w || (p != [] && r[0] == p[0]))
    decreases |p|
  {
    if p == [] || w.start <= p[0].start {
      assert p != [] ==> !Overlap(w, p[0]);
      SerialCons(w, p);
    } else {
      var first, more := p[0], p[1..];
      assert !Overlap(w, first);
      assert forall k :: 0 <= k < |more| ==> more[k] == p[k + 1];
      InsertIsSerial(w, more);
      SerialCons(first, Insert(w, more));
    }
  }

  lemma {:induction false} ByStartIsSerial(ws: seq<Window>)
    requires Positive(ws) && !HasOverlap(ws)
    ensures var p := ByStart(ws); Serial(p) && multiset(p) == multiset(ws) && Total(p) == Total(ws)
    decreases |ws|
  {
    if ws != [] {
      var rest := ws[1..];
      RestHasNoOverlap(ws);
      ByStartIsSerial(rest);
      var p := ByStart(rest);
      ApartFromFirst(ws, p);
      InsertIsSerial(ws[0], p);
      InsertIsPermutation(ws[0], p);
      assert ws == [ws[0]] + rest;
    }
  }

  lemma ApartFromFirst(ws: seq<Window>, p: seq<Window>)
    requires ws != [] && Positive(ws) && !HasOverlap(ws) && multiset(p) == multiset(ws[1..])
    ensures Positive(p) && forall k :: 0 <= k < |p| ==> !Overlap(ws[0], p[k])
  {
    var rest := ws[1..];
    PermutedMembers(p, rest);
    forall k | 0 <= k < |p| ensures p[k].start < p[k].end && !Overlap(ws[0], p[k]) {
      var j :| 0 <= j < |rest| && rest[j] == p[k];
      assert rest[j] == ws[j + 1] && !Overlap(ws[0], ws[j + 1]);
    }
  }

  lemma RestHasNoOverlap(ws: seq<Window>)
    requires ws != [] && Positive(ws) && !HasOverlap(ws)
    ensures Positive(ws[1..]) && !HasOverlap(ws[1..])
  {
  }

  lemma PermutedMembers(p: seq<Window>, q: seq<Window>)
    requires multiset(p) == multiset(q)
    ensures forall k :: 0 <= k < |p| ==> p[k] in q
  {
    forall k | 0 <= k < |p| ensures p[k] in q {
      assert p[k] in multiset(p);
    }
  }

  /**
   The overlap test is exact: windows of positive length are free of overlaps if and only if some
   order of them is a serial schedule.
   */
  lemma NoOverlapIffSerialOrder(ws: seq<Window>)
    requires Positive(ws)
    ensures !HasOverlap(ws) <==> HasSerialOrder(ws)
  {
    if !HasOverlap(ws) {
      ByStartIsSerial(ws);
    } else if HasSerialOrder(ws) {
      var p: seq<Window> :| multiset(p) == multiset(ws) && Serial(p);
      PermutedMembers(p, ws);
      SerialHasNoOverlap(p);
      NoOverlapIsApart(p);
      NoOverlapIsApart(ws);
      assert false;
    }
  }

  lemma {:induction false} SerialFitsItsSpan(p: seq<Window>)
    requires Serial(p) && Positive(p) && p != []
    ensures Total(p) <= p[|p| - 1].end - p[0].start
    decreases |p|
  {
    if |p| > 1 {
      SerialFitsItsSpan(p[1..]);
    } else {
      assert Total(p[1..]) == 0;
    }
  }

  /** Without overlaps the execution times add up to at most the span from first start to last end. */
  lemma SerialTimesFitSpan(ws: seq<Window>, first: int, last: int)
    requires Positive(ws) && ws != [] && HasSerialOrder(ws)
    requires forall k :: 0 <= k < |ws| ==> first <= ws[k].start && ws[k].end <= last
    ensures Total(ws) <= last - first
  {
    NoOverlapIffSerialOrder(ws);
    ByStartIsSerial(ws);
    var p := ByStart(ws);
    PermutedMembers(p, ws);
    assert |p| == |multiset(p)| == |multiset(ws)| == |ws|;
    SerialFitsItsSpan(p);
    assert p[0] in ws && p[|p| - 1] in ws;
  }

  // ---------------------------------------------------------------------------------------
  // Polling the export tasks
  // ---------------------------------------------------------------------------------------

  /** Upper-cased status texts, as far as the probe tells them apart. */
  datatype TaskStatus = Running | Terminal | Waiting

  datatype TaskDetail = TaskDetail(status: TaskStatus, startedAt: Option<int>, finishedAt: Option<int>)

  /** The export task of run `i` as the gateway reports it at instant `t`. */
  type Tasks = (nat, nat) -> TaskDetail

  class Gateway {
    const tasks: Tasks
    var now: nat

    constructor (tasks: Tasks)
      ensures this.tasks == tasks && now == 0
    {
      this.tasks := tasks;
      now := 0;
    }

    method Elapse(least: nat)
      modifies this
      ensures now >= old(now) + least
    {
      var d: nat :| true;
      now := now + least + d;
    }

    /** `_fetch_task_detail`, answered at some instant of the call. */
    method FetchTaskDetail(run: nat) returns (detail: TaskDetail)
      modifies this
      ensures now >= old(now) && detail == tasks(run, now)
    {
      Elapse(0);
      detail := tasks(run, now);
    }
  }

  /** What a round of fetches at the given instants shows. */
  function Observed(tasks: Tasks, round: seq<nat>): (details: seq<TaskDetail>)
    ensures |details| == |round| && forall i: nat :: i < |round| ==> details[i] == tasks(i, round[i])
  {
    seq(|round|, i requires 0 <= i < |round| => tasks(i, round[i]))
  }

  function RunningCount(details: seq<TaskDetail>): nat {
    if details == [] then 0
    else RunningCount(details[..|details| - 1]) + if details[|details| - 1].status.Running? then 1 else 0
  }

  predicate AllTerminal(details: seq<TaskDetail>) {
    forall i :: 0 <= i < |details| ==> details[i].status.Terminal?
  }

  predicate InOrder(round: seq<nat>, from: nat, to: nat) {
    && from <= to
    && (forall i :: 0 <= i < |round| ==> from <= round[i] <= to)
    && (forall i, j :: 0 <= i < j < |round| ==> round[i] <= round[j])
  }

  /** One pass of the inner loop: the runs are fetched one after the other. */
  method PollRound(gateway: Gateway, runs: nat) returns (details: seq<TaskDetail>, running: nat, allTerminal: bool, ghost round: seq<nat>)
    modifies gateway
    ensures InOrder(round, old(gateway.now), gateway.now) && |round| == runs
    ensures details == Observed(gateway.tasks, round)
    ensures running == RunningCount(details) && (allTerminal <==> AllTerminal(details))
  {
    details, running, allTerminal, round := [], 0, true, [];
    for i := 0 to runs
      invariant InOrder(round, old(gateway.now), gateway.now) && |round| == i
      invariant details == Observed(gateway.tasks, round)
      invariant running == RunningCount(details) && (allTerminal <==> AllTerminal(details))
    {
      var detail := gateway.FetchTaskDetail(i);
      OneMoreObserved(gateway.tasks, round, gateway.now, detail);
      details, round := details + [detail], round + [gateway.now];
      if detail.status.Running? {
        running := running + 1;
      }
      if !detail.status.Terminal? {
        allTerminal := false;
      }
    }
  }

  lemma OneMoreObserved(tasks: Tasks, round: seq<nat>, now: nat, detail: TaskDetail)
    requires detail == tasks(|round|, now)
    ensures var details := Observed(tasks, round);
            && Observed(tasks, round + [now]) == details + [detail]
            && RunningCount(details + [detail]) == RunningCount(details) + (if detail.status.Running? then 1 else 0)
            && (AllTerminal(details + [detail]) <==> AllTerminal(details) && detail.status.Terminal?)
  {
  }

  /** The largest number of runs seen RUNNING in one round. */
  function MaxRunning(tasks: Tasks, rounds: seq<seq<nat>>): nat {
    if rounds == [] then 0
    else
      var earlier := MaxRunning(tasks, rounds[..|rounds| - 1]);
      var count := RunningCount(Observed(tasks, rounds[|rounds| - 1]));
      if count > earlier then count else earlier
  }

  /** The rounds of one wait: each over all runs in order, and one interval or more between two rounds. */
  predicate Paced(rounds: seq<seq<nat>>, runs: nat, interval: nat, from: nat, to: nat) {
    && (forall k :: 0 <= k < |rounds| ==> |rounds[k]| == runs && InOrder(rounds[k], from, to))
    && (forall j, k, x, y :: 0 <= j < k < |rounds| && 0 <= x < runs && 0 <= y < runs ==> rounds[j][x] + interval <= rounds[k][y])
  }

  /** An interval or more has passed since these rounds. */
  predicate Rested(rounds: seq<seq<nat>>, interval: nat, now: nat) {
    forall k, x :: 0 <= k < |rounds| && 0 <= x < |rounds[k]| ==> rounds[k][x] + interval <= now
  }

  /** One more round, started an interval after the others, keeps the pace. */
  lemma OneMoreRound(rounds: seq<seq<nat>>, round: seq<nat>, runs: nat, interval: nat, start: nat, from: nat, to: nat)
    requires Paced(rounds, runs, interval, start, from) && Rested(rounds, interval, from)
    requires |round| == runs && InOrder(round, from, to) && start <= from
    ensures Paced(rounds + [round], runs, interval, start, to)
  {
    var all := rounds + [round];
    forall j, k, x, y | 0 <= j < k < |all| && 0 <= x < runs && 0 <= y < runs ensures all[j][x] + interval <= all[k][y] {
      assert all[j] == rounds[j] && |rounds[j]| == runs;
    }
  }

  /** After the sleep all rounds are an interval back. */
  lemma SleepRests(rounds: seq<seq<nat>>, runs: nat, interval: nat, start: nat, to: nat, now: nat)
    requires Paced(rounds, runs, interval, start, to) && to + interval <= now
    ensures Paced(rounds, runs, interval, start, now) && Rested(rounds, interval, now)
  {
    forall k | 0 <= k < |rounds| ensures InOrder(rounds[k], start, now) {
      assert InOrder(rounds[k], start, to);
    }
  }

  /** The sleep between two rounds; even without one the clock has moved on. */
  function Pause(interval: nat): nat {
    if interval == 0 then 1 else interval
  }

  /** No round saw all tasks terminal. */
  ghost predicate NoneTerminal(tasks: Tasks, rounds: seq<seq<nat>>) {
    forall k :: 0 <= k < |rounds| ==> !AllTerminal(Observed(tasks, rounds[k]))
  }

  /** The wait ended with the last of these rounds, the first one in which all tasks were terminal. */
  ghost predicate Finished(tasks: Tasks, rounds: seq<seq<nat>>) {
    && rounds != [] && AllTerminal(Observed(tasks, rounds[|rounds| - 1]))
    && forall k :: 0 <= k < |rounds| - 1 ==> !AllTerminal(Observed(tasks, rounds[k]))
  }

  /** What one more round does to the count and to that. */
  lemma OneMoreCount(tasks: Tasks, rounds: seq<seq<nat>>, round: seq<nat>)
    ensures MaxRunning(tasks, rounds + [round]) == Max(MaxRunning(tasks, rounds), RunningCount(Observed(tasks, round)))
    ensures NoneTerminal(tasks, rounds) && !AllTerminal(Observed(tasks, round)) ==> NoneTerminal(tasks, rounds + [round])
  {
    assert (rounds + [round])[..|rounds|] == rounds;
  }

  /** `_wait_all_terminal`: `Err` is its TimeoutError; both carry the largest RUNNING count. */
  method WaitAllTerminal(gateway: Gateway, runs: nat, timeout: int, interval: nat)
    returns (r: Result<nat, nat>, details: seq<TaskDetail>, ghost rounds: seq<seq<nat>>)
    modifies gateway
    ensures Paced(rounds, runs, Pause(interval), old(gateway.now), gateway.now)
    ensures r == if r.Ok? then Ok(MaxRunning(gateway.tasks, rounds)) else Err(MaxRunning(gateway.tasks, rounds))
    ensures r.Ok? ==> Finished(gateway.tasks, rounds) && details == Observed(gateway.tasks, rounds[|rounds| - 1])
    ensures r.Err? ==> gateway.now >= old(gateway.now) + timeout && NoneTerminal(gateway.tasks, rounds)
  {
    var deadline := gateway.now + timeout;
    var pause: nat := Pause(interval);
    var maxRunning := 0;
    rounds, details := [], [];
    while gateway.now < deadline
      invariant gateway.now >= old(gateway.now)
      invariant Paced(rounds, runs, pause, old(gateway.now), gateway.now) && Rested(rounds, pause, gateway.now)
      invariant maxRunning == MaxRunning(gateway.tasks, rounds) && NoneTerminal(gateway.tasks, rounds)
      decreases deadline - gateway.now
    {
      var running, allTerminal;
      ghost var round;
      ghost var from := gateway.now;
      details, running, allTerminal, round := PollRound(gateway, runs);
      OneMoreRound(rounds, round, runs, pause, old(gateway.now), from, gateway.now);
      OneMoreCount(gateway.tasks, rounds, round);
      maxRunning := Max(maxRunning, running);
      rounds := rounds + [round];
      if allTerminal {
        return Ok(maxRunning), details, rounds;
      }
      ghost var to := gateway.now;
      gateway.Elapse(pause);
      SleepRests(rounds, runs, pause, old(gateway.now), to, gateway.now);
    }
    r := Err(maxRunning);
  }

  // ---------------------------------------------------------------------------------------
  // The verdict
  // ---------------------------------------------------------------------------------------

  /** `Parallel` is the passing verdict; the others are the failures, the last two with the offending run. */
  datatype Verdict = Parallel | AllSerial | Incomplete(run: nat) | Malformed(run: nat)

  predicate Timed(d: TaskDetail) {
    d.startedAt.Some? && d.finishedAt.Some?
  }

  predicate Complete(d: TaskDetail) {
    Timed(d) && d.startedAt.value < d.finishedAt.value
  }

  predicate AllComplete(runs: seq<TaskDetail>) {
    forall i :: 0 <= i < |runs| ==> Complete(runs[i])
  }

  function Windows(runs: seq<TaskDetail>): (ws: seq<Window>)
    requires AllComplete(runs)
    ensures |ws| == |runs| && Positive(ws)
    ensures forall i :: 0 <= i < |ws| ==> ws[i] == Window(runs[i].startedAt.value, runs[i].finishedAt.value)
  {
    seq(|runs|, i requires 0 <= i < |runs| => Window(runs[i].startedAt.value, runs[i].finishedAt.value))
  }

  /** What the verdict says. */
  ghost predicate VerdictSpec(runs: seq<TaskDetail>, maxRunning: nat, verdict: Verdict) {
    match verdict
    case Incomplete(k) => k < |runs| && AllComplete(runs[..k]) && !Timed(runs[k])
    case Malformed(k) => k < |runs| && AllComplete(runs[..k]) && Timed(runs[k]) && !Complete(runs[k])
    case AllSerial => AllComplete(runs) && maxRunning < 2 && HasSerialOrder(Windows(runs))
    case Parallel => AllComplete(runs) && (maxRunning >= 2 || !HasSerialOrder(Windows(runs)))
  }

  /**
   `_evaluate_parallel_overlap`: on complete runs, unless two were seen RUNNING in one round, it
   rejects exactly the runs that can be put into a serial order.
   */
  method EvaluateParallelOverlap(runs: seq<TaskDetail>, maxRunning: nat) returns (verdict: Verdict)
    ensures VerdictSpec(runs, maxRunning, verdict)
  {
    var windows: seq<Window> := [];
    for k := 0 to |runs|
      invariant AllComplete(runs[..k]) && windows == Windows(runs[..k])
    {
      var run := runs[k];
      if run.startedAt.None? || run.finishedAt.None? {
        return Incomplete(k);
      }
      if run.finishedAt.value <= run.startedAt.value {
        return Malformed(k);
      }
      windows := windows + [Window(run.startedAt.value, run.finishedAt.value)];
    }
    assert runs[..|runs|] == runs;
    var overlapped := AnyExecutionWindowsOverlap(windows);
    NoOverlapIffSerialOrder(windows);
    verdict := if maxRunning >= 2 || overlapped then Parallel else AllSerial;
  }

  // ---------------------------------------------------------------------------------------
  // What "two RUNNING in one round" proves
  // ---------------------------------------------------------------------------------------

  /** A task is RUNNING exactly during its execution window; afterwards it is terminal and carries its times. */
  ghost predicate Truthful(tasks: Tasks, ws: seq<Window>) {
    forall i: nat, t: nat :: i < |ws| ==> TellsWindow(tasks(i, t), ws[i], t)
  }

  predicate TellsWindow(d: TaskDetail, w: Window, t: nat) {
    && (d.status.Running? <==> w.start <= t < w.end)
    && (d.status.Terminal? <==> w.end <= t)
    && (d.status.Terminal? ==> d.startedAt == Some(w.start) && d.finishedAt == Some(w.end))
  }

  lemma {:induction false} TwoRunning(details: seq<TaskDetail>)
    ensures RunningCount(details) >= 1 ==> exists i :: 0 <= i < |details| && details[i].status.Running?
    ensures RunningCount(details) >= 2 ==>
              exists i, j :: 0 <= i < j < |details| && details[i].status.Running? && details[j].status.Running?
    decreases |details|
  {
    if details != [] {
      var n := |details| - 1;
      TwoRunning(details[..n]);
      assert forall i :: 0 <= i < n ==> details[..n][i] == details[i];
    }
  }

  lemma {:induction false} SomeRoundReachesMax(tasks: Tasks, rounds: seq<seq<nat>>)
    ensures MaxRunning(tasks, rounds) > 0 ==>
              exists k :: 0 <= k < |rounds| && RunningCount(Observed(tasks, rounds[k])) == MaxRunning(tasks, rounds)
    decreases |rounds|
  {
    if rounds != [] {
      var n := |rounds| - 1;
      SomeRoundReachesMax(tasks, rounds[..n]);
      assert forall k :: 0 <= k < n ==> rounds[..n][k] == rounds[k];
    }
  }

  /**
   If every round had been answered at one instant, two runs seen RUNNING would prove an overlap:
   the probe would pass no serial schedule.
   */
  lemma InstantRoundsProveOverlap(tasks: Tasks, ws: seq<Window>, rounds: seq<seq<nat>>)
    requires Truthful(tasks, ws) && MaxRunning(tasks, rounds) >= 2
    requires forall k :: 0 <= k < |rounds| ==> |rounds[k]| == |ws|
    requires forall k, i, j :: 0 <= k < |rounds| && 0 <= i < j < |rounds[k]| ==> rounds[k][i] == rounds[k][j]
    ensures HasOverlap(ws)
  {
    SomeRoundReachesMax(tasks, rounds);
    var k :| 0 <= k < |rounds| && RunningCount(Observed(tasks, rounds[k])) == MaxRunning(tasks, rounds);
    var details := Observed(tasks, rounds[k]);
    TwoRunning(details);
    var i, j :| 0 <= i < j < |details| && details[i].status.Running? && details[j].status.Running?;
    assert rounds[k][i] == rounds[k][j];
    assert Overlap(ws[i], ws[j]);
  }

  // ---------------------------------------------------------------------------------------
  // When the probe never passes a serial schedule
  // ---------------------------------------------------------------------------------------

  /** A serial schedule, truthfully reported over a finished wait, that the probe passes. */
  ghost predicate FalsePass(tasks: Tasks, ws: seq<Window>, rounds: seq<seq<nat>>) {
    && Truthful(tasks, ws) && Positive(ws) && HasSerialOrder(ws) && Finished(tasks, rounds)
    && VerdictSpec(Observed(tasks, rounds[|rounds| - 1]), MaxRunning(tasks, rounds), Parallel)
  }

  predicate OneInstant(round: seq<nat>) {
    forall i, j :: 0 <= i < j < |round| ==> round[i] == round[j]
  }

  /** The last round of a finished wait shows every window as it is. */
  lemma LastRoundShowsWindows(tasks: Tasks, ws: seq<Window>, round: seq<nat>)
    requires Truthful(tasks, ws) && Positive(ws) && |round| == |ws| && AllTerminal(Observed(tasks, round))
    ensures AllComplete(Observed(tasks, round)) && Windows(Observed(tasks, round)) == ws
  {
    var details := Observed(tasks, round);
    forall i: nat | i < |ws| ensures Complete(details[i]) && details[i].startedAt == Some(ws[i].start) && details[i].finishedAt == Some(ws[i].end) {
      assert details[i] == tasks(i, round[i]) && TellsWindow(tasks(i, round[i]), ws[i], round[i]);
    }
  }

  lemma {:induction false} TerminalIsNotRunning(details: seq<TaskDetail>)
    requires AllTerminal(details)
    ensures RunningCount(details) == 0
    decreases |details|
  {
    if details != [] {
      TerminalIsNotRunning(details[..|details| - 1]);
    }
  }

  /** With every round but the last answered at one instant there is no false pass. */
  lemma InstantRoundsPassNoSerial(tasks: Tasks, ws: seq<Window>, rounds: seq<seq<nat>>)
    requires FalsePass(tasks, ws, rounds) && forall k :: 0 <= k < |rounds| ==> |rounds[k]| == |ws|
    ensures exists k :: 0 <= k < |rounds| - 1 && !OneInstant(rounds[k])
  {
    var n := |rounds| - 1;
    var last, earlier := rounds[n], rounds[..n];
    LastRoundShowsWindows(tasks, ws, last);
    TerminalIsNotRunning(Observed(tasks, last));
    assert MaxRunning(tasks, earlier) >= 2;
    NoOverlapIffSerialOrder(ws);
    if forall k :: 0 <= k < n ==> OneInstant(rounds[k]) {
      assert forall k :: 0 <= k < |earlier| ==> earlier[k] == rounds[k] && OneInstant(earlier[k]);
      InstantRoundsProveOverlap(tasks, ws, earlier);
      assert false;
    }
  }

  /** The tasks that report these windows truthfully. */
  function TasksOf(ws: seq<Window>): Tasks {
    (i: nat, t: nat) =>
      if i >= |ws| || t < ws[i].start then TaskDetail(Waiting, None, None)
      else if t < ws[i].end then TaskDetail(Running, Some(ws[i].start), None)
      else TaskDetail(Terminal, Some(ws[i].start), Some(ws[i].end))
  }

  lemma TasksOfAreTruthful(ws: seq<Window>)
    requires Positive(ws)
    ensures Truthful(TasksOf(ws), ws)
  {
    var tasks := TasksOf(ws);
    forall i: nat, t: nat | i < |ws| ensures TellsWindow(tasks(i, t), ws[i], t) {
      assert ws[i].start < ws[i].end;
    }
  }

  function Shift(k: int, i: nat, j: nat, s: nat, e: nat): Window {
    if k == i then Window(s, s + 1) else if k == j then Window(s + 1, e) else Window(-k - 1, -k)
  }

  /**
   Run `i` executes for one instant at `s`, run `j` takes over and executes until `e`; the others
   are over before time 0.
   */
  function HandOver(n: nat, i: nat, j: nat, s: nat, e: nat): (ws: seq<Window>)
    ensures |ws| == n
    ensures forall k :: 0 <= k < n ==> ws[k] == Shift(k, i, j, s, e)
  {
    seq(n, k requires 0 <= k < n => Shift(k, i, j, s, e))
  }

  lemma HandOverIsSerial(n: nat, i: nat, j: nat, s: nat, e: nat)
    requires i < n && j < n && i != j && s + 1 < e
    ensures Positive(HandOver(n, i, j, s, e)) && HasSerialOrder(HandOver(n, i, j, s, e))
  {
    var ws := HandOver(n, i, j, s, e);
    assert Positive(ws);
    forall x, y | 0 <= x < y < n ensures !Overlap(ws[x], ws[y]) {
    }
    NoOverlapIffSerialOrder(ws);
  }

  lemma {:induction false} CountAtLeast(details: seq<TaskDetail>, i: nat, j: nat)
    requires i < j < |details| && details[i].status.Running? && details[j].status.Running?
    ensures RunningCount(details) >= 2
    decreases |details|
  {
    var init := details[..|details| - 1];
    if j < |init| {
      CountAtLeast(init, i, j);
    } else {
      OneRunning(init, i);
    }
  }

  lemma {:induction false} OneRunning(details: seq<TaskDetail>, i: nat)
    requires i < |details| && details[i].status.Running?
    ensures RunningCount(details) >= 1
    decreases |details|
  {
    if i < |details| - 1 {
      OneRunning(details[..|details| - 1], i);
    }
  }

  lemma {:induction false} MaxIsAtLeast(tasks: Tasks, rounds: seq<seq<nat>>, k: nat)
    requires k < |rounds|
    ensures MaxRunning(tasks, rounds) >= RunningCount(Observed(tasks, rounds[k]))
    decreases |rounds|
  {
    if k < |rounds| - 1 {
      MaxIsAtLeast(tasks, rounds[..|rounds| - 1], k);
    }
  }

  /** In a round that took time, the run fetched first can hand over to one fetched later. */
  lemma HandOverIsPassed(rounds: seq<seq<nat>>, n: nat, interval: nat, from: nat, to: nat, k: nat, i: nat, j: nat)
    requires interval > 0 && Paced(rounds, n, interval, from, to)
    requires k < |rounds| - 1 && i < j < n && rounds[k][i] != rounds[k][j]
    ensures var ws := HandOver(n, i, j, rounds[k][i], rounds[|rounds| - 1][j]);
            FalsePass(TasksOf(ws), ws, rounds) && MaxRunning(TasksOf(ws), rounds) >= 2
  {
    var last := rounds[|rounds| - 1];
    var s, e := rounds[k][i], last[j];
    assert InOrder(rounds[k], from, to) && s + 1 <= rounds[k][j] < e;
    var ws := HandOver(n, i, j, s, e);
    var tasks := TasksOf(ws);
    HandOverIsSerial(n, i, j, s, e);
    TasksOfAreTruthful(ws);
    HandOverFinishes(rounds, n, interval, from, to, k, i, j);
    LastRoundShowsWindows(tasks, ws, last);
    var details := Observed(tasks, rounds[k]);
    assert details[i] == tasks(i, s) && details[j] == tasks(j, rounds[k][j]);
    CountAtLeast(details, i, j);
    MaxIsAtLeast(tasks, rounds, k);
  }

  lemma HandOverFinishes(rounds: seq<seq<nat>>, n: nat, interval: nat, from: nat, to: nat, k: nat, i: nat, j: nat)
    requires interval > 0 && Paced(rounds, n, interval, from, to)
    requires k < |rounds| - 1 && i < j < n && rounds[k][i] < rounds[k][j]
    ensures Finished(TasksOf(HandOver(n, i, j, rounds[k][i], rounds[|rounds| - 1][j])), rounds)
  {
    var last := rounds[|rounds| - 1];
    var s, e := rounds[k][i], last[j];
    var tasks := TasksOf(HandOver(n, i, j, s, e));
    forall x: nat | x < n ensures tasks(x, last[x]).status.Terminal? {
      assert rounds[k][i] + interval <= last[x];
    }
    forall m | 0 <= m < |rounds| - 1 ensures !AllTerminal(Observed(tasks, rounds[m])) {
      assert rounds[m][j] + interval <= last[j];
      assert !Observed(tasks, rounds[m])[j].status.Terminal?;
    }
  }

  /**
   Exactly when polling at these instants passes no serial schedule, whatever the tasks do: every
   round but the last, in which nothing runs any more, was answered at a single instant.
   */
  lemma NoFalsePassIff(rounds: seq<seq<nat>>, n: nat, interval: nat, from: nat, to: nat)
    requires interval > 0 && rounds != [] && Paced(rounds, n, interval, from, to)
    ensures (forall tasks: Tasks, ws: seq<Window> :: |ws| == n ==> !FalsePass(tasks, ws, rounds))
       <==> forall k :: 0 <= k < |rounds| - 1 ==> OneInstant(rounds[k])
  {
    if forall k :: 0 <= k < |rounds| - 1 ==> OneInstant(rounds[k]) {
      forall tasks: Tasks, ws: seq<Window> | |ws| == n ensures !FalsePass(tasks, ws, rounds) {
        if FalsePass(tasks, ws, rounds) {
          InstantRoundsPassNoSerial(tasks, ws, rounds);
        }
      }
    } else {
      var k :| 0 <= k < |rounds| - 1 && !OneInstant(rounds[k]);
      var i, j :| 0 <= i < j < |rounds[k]| && rounds[k][i] != rounds[k][j];
      HandOverIsPassed(rounds, n, interval, from, to, k, i, j);
      var ws := HandOver(n, i, j, rounds[k][i], rounds[|rounds| - 1][j]);
      assert FalsePass(TasksOf(ws), ws, rounds);
    }
  }

  /**
   One such case: the first run is fetched just before its end, the second just after its start,
   and both are over in the next round.  No other verdict is possible.
   */
  lemma SerialScheduleCanPass()
    ensures var ws: seq<Window>, rounds: seq<seq<nat>> := [Window(3, 4), Window(4, 8)], [[3, 5], [7, 8]];
            && Paced(rounds, 2, 2, 0, 8) && FalsePass(TasksOf(ws), ws, rounds) && MaxRunning(TasksOf(ws), rounds) >= 2
            && forall verdict :: VerdictSpec(Observed(TasksOf(ws), rounds[1]), MaxRunning(TasksOf(ws), rounds), verdict) ==> verdict.Parallel?
  {
    var rounds: seq<seq<nat>> := [[3, 5], [7, 8]];
    var ws := HandOver(2, 0, 1, 3, 8);
    assert ws == [Window(3, 4), Window(4, 8)];
    TwoRoundsArePaced(3, 5, 7, 8);
    HandOverIsPassed(rounds, 2, 2, 0, 8, 0, 0, 1);
    forall verdict | VerdictSpec(Observed(TasksOf(ws), rounds[1]), MaxRunning(TasksOf(ws), rounds), verdict) ensures verdict.Parallel? {
      OnlyParallel(TasksOf(ws), ws, rounds, verdict);
    }
  }

  lemma TwoRoundsArePaced(a: nat, b: nat, c: nat, d: nat)
    requires a <= b && b + 2 <= c <= d <= 8
    ensures Paced([[a, b], [c, d]], 2, 2, 0, 8)
  {
  }

  /** A false pass with two runs seen RUNNING leaves no other verdict. */
  lemma OnlyParallel(tasks: Tasks, ws: seq<Window>, rounds: seq<seq<nat>>, verdict: Verdict)
    requires FalsePass(tasks, ws, rounds) && MaxRunning(tasks, rounds) >= 2
    requires VerdictSpec(Observed(tasks, rounds[|rounds| - 1]), MaxRunning(tasks, rounds), verdict)
    ensures verdict.Parallel?
  {
    NotIncomplete(Observed(tasks, rounds[|rounds| - 1]), MaxRunning(tasks, rounds), verdict);
  }

  lemma NotIncomplete(runs: seq<TaskDetail>, maxRunning: nat, verdict: Verdict)
    requires AllComplete(runs) && maxRunning >= 2 && VerdictSpec(runs, maxRunning, verdict)
    ensures verdict.Parallel?
  {
  }
}

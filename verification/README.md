# Verified model of the authorization test harness

The harness drives an authorization backend through scenarios and checks what the backend does to
its invalidation outbox, its authorization tables and its Redis profiles. This Dafny project models
the logic inside the harness and proves what that logic guarantees. `dafny verify dfyconfig.toml`
checks everything.

| file | what it models |
|---|---|
| `OutboxTable.dfy` | the outbox table and its queries, the concurrent backend as an arbitrary legal history of tables, cursors over time |
| `OutboxWait.dfy` | the polling loop of `wait_outbox_success` against a connection whose clock and backend move between any two reads |
| `Assertions.dfy`, `Scenario.dfy` | the retry loop of the assert block; the runner, its cursor hand-over and the steps that use cursors |
| `RunTheorems.dfy` | theorems about whole runs, in every interleaving with the backend |
| `EnsureSteps.dfy` | the `ensure_*` and `delete_*` steps with one client |
| `AuthGraph.dfy`, `GrantCoverage.dfy`, `DeptTree.dfy` | the oracle and impact queries over tables as sets; when the grant queries cover a change; the closure of a department forest and moves in it |
| `Text.dfy`, `SqlScript.dfy` | Python text operations; the DELIMITER-aware script splitter |
| `Ordering.dfy`, `MySqlText.dfy`, `LineScan.dfy`, `SqlParts.dfy`, `SeedSql.dfy`, `SyncSql.dfy`, `PermSync.dfy` | permission sync: diff, plan, printed SQL, statement splitter, MySQL's reading of literals, execution, convergence |
| `ExportProbe.dfy`, `Orders.dfy`, `Profiles.dfy` | the overlap verdict, pagination, profile comparison |
| `Arithmetic.dfy`, `Wrappers.dfy` | integer helpers; option and result types |

The environment assumptions on the outbox are explicit in `OutboxTable.Legal`: rows are only
appended, ids become visible in increasing order, `source_biz_id` and `event_id` never change, and
SUCCESS, FAILED and DEAD are absorbing. Between two reads the history may be anything legal, so a
theorem over all histories is a theorem over all interleavings. Clock ticks are natural numbers, and a
query takes at least one of them; the wall clock, the API's answers, the statements MySQL accepts, the
other checks of an assert block, Python's `int` on text and Redis content are parameters.

## Where the code falls short of what one would expect

Each of these properties fails in general. Where a lemma is named `...Iff` or said to be exact, both
directions are proved.

- The row a `wait_outbox` stores can be older than the one stored by the waiting step directly before
  it. In every run it is not if and only if that step is a `wait_outbox`, too, whose filter is absent
  or the same (`RunTheorems.AdjacentWaitsOrderedIff`). Behind a mutation that waits, even with the
  mutation's own prefix, it can: `RunTheorems.WaitAfterMutate` says exactly when within a given run.
- Retries can mask a negative assertion: no call can be masked if and only if a cursor was handed over
  or there is no second attempt (`Assertions.RetriesMaskIff`). A scenario without steps hands none over.
- The top-level assert block does not cover the whole run: its window opens at the entry of the
  penultimate step (`RunTheorems.FinalBlockWindow`, exact).
- The GRANT_USER query reads `grant_table` itself, so one state is not enough. Run afterwards it covers
  every changed user if and only if, for every user left without a direct grant, the codes of the old
  direct grants also come from departments or posts (`GrantCoverage.GrantUserCoverage`, which also has
  the condition for a query run before).
- The GRANT_DEPT query joins `sys_dept`. It covers every change of the grants of `ids` if and only if
  every member below them is also a member of such a department that has a `sys_dept` row, or holds all
  codes that could be granted from elsewhere (`GrantCoverage.GrantDeptCoverageIff`).
- Printed sync SQL splits back into its statements if and only if every printed value survives the
  splitter: no semicolon, every break in it a plain newline, no line between two breaks blank or
  starting with `--`, and what follows the last break not starting with `--`
  (`SyncSql.SyncSqlRoundTripIff`). `PermSync.ApplyMissing` executes whatever the splitter returns.
- After a successful sync the check passes if and only if every scanned code has a name, which the
  sync itself only demands of missing codes, and, in strict mode without prune, no unprotected orphan
  is left (`PermSync.SyncedExitCodeIff`).
- Two runs seen RUNNING in one polling round do not prove parallel execution, because a round takes
  time. Polling at given instants passes no serial schedule, whatever the runs do, if and only if every
  round but the last was answered at a single instant (`ExportProbe.NoFalsePassIff`);
  `ExportProbe.SerialScheduleCanPass` has a schedule in numbers.
- A list endpoint that omits `total` is read for one page only (`Orders.MissingTotalEndsTheLoop`); when
  a reported total gives a complete read is `Orders.AllRowsAreReadIff`.
- A stale `permVersion` goes unnoticed if and only if it is zero and the fallback field is missing, null
  or right (`Profiles.StaleVersionIsMissedIff`).
- Deleting a relation by department or post removes one row: the user is unlinked if and only if there
  was at most one (`EnsureSteps.Session.DeleteUserDept`). An unknown filter of `ensure_user_post` is
  refused only after the write (`EnsureSteps.Session.EnsureUserPost`).

## Model

| member | source | states |
|---|---|---|
| `OutboxTable.LikeIsPrefix` | auth_harness/infrastructure/db.py:303-314 | for a filter without LIKE metacharacters the pattern filter + "%" matches exactly the strings that start with the filter |
| `OutboxTable.KnownFiltersAreDisjoint` | auth_harness/domain/outbox_ops.py:10-38 | a known filter admits exactly the rows that start with it, and no row answers to two known filters: `delete:` never picks a `delete-dept:` row |
| `OutboxTable.MaxId` | auth_harness/infrastructure/db.py:288-294 | the cursor is 0 on an empty table, else the largest id in use |
| `OutboxTable.FetchAfter` | auth_harness/infrastructure/db.py:297-325 | the query returns the matching row above the cursor with the least id, and nothing exactly when there is none |
| `OutboxTable.LegalFromSteps` | auth_harness/infrastructure/db.py:297-325 | the environment assumptions between any two instants follow from checking every single backend step |
| `OutboxTable.CursorSplits` | auth_harness/wait/outbox.py:25-31 | a cursor taken at one instant separates, at every later instant, the old rows from the appended ones |
| `OutboxTable.CursorMonotone` | auth_harness/wait/outbox.py:25-31 | the global cursor never moves back |
| `OutboxTable.TrackedRowIsStable` | auth_harness/infrastructure/db.py:297-325 | once a query sees a row, every later query with that cursor and filter sees that row, further along |
| `OutboxTable.FetchSeesExactlyTheAppended` | auth_harness/infrastructure/db.py:297-325 | with a cursor of instant s a query finds nothing if and only if nothing matching was appended since s; else there is a first match appended since s, and that is what it finds |
| `OutboxWait.PollOnce` | auth_harness/wait/outbox.py:58-89 | one iteration either decides the wait as its contract demands or keeps the loop invariant, and the clock has moved on by then |
| `OutboxWait.PollUntilDeadline` | auth_harness/wait/outbox.py:47-102 | the loop ends against every legal history; all polls but the last were undecided, the last one decides: SUCCESS returns that row, FAILED and DEAD raise on it, otherwise the deadline has passed |
| `OutboxWait.WaitOutboxSuccess` | auth_harness/wait/outbox.py:34-102 | the same for the whole call: a given cursor is used as it is, a missing one is replaced by a snapshot taken inside the call, the timeout falls back to the configuration |
| `OutboxWait.PollCountIsBounded` | auth_harness/wait/outbox.py:58-89 | at most ceil(timeout / interval) fetches, none with a timeout of zero or less |
| `OutboxWait.OneWaitTracksOneRow` | auth_harness/wait/outbox.py:58-89 | from the first poll that sees a row on, every poll of the wait sees the row with that id |
| `OutboxWait.VerdictIsFinal` | auth_harness/wait/outbox.py:63-73 | after a wait ended on a terminal row any other wait with the same cursor and filter and a last poll not earlier ends in the same way on the same row |
| `OutboxWait.TimeoutMeansUndecided` | auth_harness/wait/outbox.py:91-102 | after a timeout the tracked row was absent or not terminal at every instant up to the last poll |
| `OutboxWait.TerminalRowIsFound` | auth_harness/wait/outbox.py:58-102 | progress: when the last sleep or fetch overran by at most `delay`, a row that is terminal `interval + delay` before the deadline decides the wait |
| `Assertions.RunOnce` | auth_harness/assertions/runner.py:43-78 | one attempt: with `expect_outbox: false` the unknown filter aborts, a matching row past the handed-over cursor fails the attempt, otherwise the other checks decide |
| `Assertions.RunWithRetry` | auth_harness/assertions/runner.py:23-41 | attempts follow each other, only AssertionError is retried, at most `max_attempts` of them; the last result is the outcome |
| `Assertions.RetriesCannotMask` | auth_harness/assertions/runner.py:23-78 | with a handed-over cursor, once an attempt saw a matching row the call ends in AssertionError after exactly `max_attempts` attempts |
| `Assertions.BlockPassesIffNothingAppended` | auth_harness/assertions/runner.py:43-78 | the block passes if and only if no matching row was appended from the cursor instant to the last attempt and the other checks pass then |
| `Assertions.RetriesMaskWithoutSteps` | auth_harness/assertions/runner.py:67-78 | without a handed-over cursor, for every known filter and every limit of two or more, there is a legal history in which the first attempt sees a row and the call passes |
| `Assertions.RetriesMaskIff` | auth_harness/assertions/runner.py:23-78 | no call in which some attempt saw a matching row ends otherwise than in AssertionError, in any history, if and only if a cursor was handed over or `max_attempts` is at most one |
| `Scenario.MutateAndWait` | auth_harness/steps/handlers.py:27-46 | the cursor is taken before the mutation, the filter is checked after it, the wait uses that cursor, and only a found row changes `last_outbox_row` |
| `Scenario.WaitOutboxStep` | auth_harness/steps/handlers.py:323-335 | an unknown filter raises; otherwise the wait runs past the cursor of the previous step entry and stores the row it found |
| `Scenario.AssertNoOutbox` | auth_harness/steps/handlers.py:338-351 | one fetch, after the grace time, past the cursor of the previous step entry decides the step |
| `Scenario.RunStep` | auth_harness/runner/scenario_runner.py:67-71 | cursors are handed over: the previous cursor of a step is the entry cursor of the step before it, and the step then runs as specified |
| `Scenario.RunSteps` | auth_harness/runner/scenario_runner.py:52-57 | the executed steps are a prefix of the scenario, all of them continued except possibly the last one, and the context fields are those of the last steps; which steps continue is `Scenario.StepPassesIff` |
| `Scenario.RunScenario` | auth_harness/runner/scenario_runner.py:34-65 | a run meets the specification of runs for every history; what its exit code then means is `Scenario.ExitCodeIff` |
| `Scenario.StepPassesIff` | auth_harness/runner/scenario_runner.py:36-40 | a step lets the run go on if and only if: its API call returned; a wait has a known prefix and its last poll saw a row in SUCCESS; a negative check has a known filter and its fetch found nothing; the last attempt of an assert block passed |
| `Scenario.ExitCodeIff` | auth_harness/runner/scenario_runner.py:34-65 | the exit code is 0 if and only if every step was executed, none raised, every wait found its row, every negative check found none, every assert block passed, and the last attempt of the final block passed; otherwise it is 1 |
| `Scenario.FailureEndsTheRun` | auth_harness/runner/scenario_runner.py:36-57 | a step that raises, times out, finds a row it must not find or whose block fails is the last one executed, and a run that stops early stopped on such a step |
| `RunTheorems.StoredRowIsFirstMatch` | auth_harness/steps/handlers.py:323-335 | whatever step stored a row: it is the first match past the cursor of that step, in SUCCESS, under a known filter |
| `RunTheorems.WaitReturnsFreshRow` | auth_harness/steps/handlers.py:323-335 | the row `wait_outbox` stores is in SUCCESS, matches the filter, is in the table and has an id above every row visible at the entry of the previous step |
| `RunTheorems.OwnWriteIsReturned` | auth_harness/runner/scenario_runner.py:67-71 | if a row is the first match appended since the entry of the previous step, that exact row is the one stored |
| `RunTheorems.StoredIdsIncrease` | auth_harness/runner/scenario_runner.py:52-71 | over a whole run the stored ids strictly increase, except possibly from a waiting step to a `wait_outbox` directly after it |
| `RunTheorems.AdjacentWaitsDoNotDecrease` | auth_harness/steps/handlers.py:323-335 | for two adjacent waits the stored id does not go back when the first filter is absent or both are equal |
| `RunTheorems.AdjacentWaitsRepeat` | auth_harness/steps/handlers.py:323-335 | with equal filters the same row is stored again if and only if it was appended after the entry of the first wait |
| `RunTheorems.WaitAfterMutate` | auth_harness/steps/handlers.py:27-46 | a wait behind a waiting mutation, with any filter, stores an older row if and only if a row matching its filter lies between the step entry and the row of the mutation, and the same row if and only if none does and the filter admits that row; with the prefix of the mutation it never stores a later row, and the same one if and only if no match was appended between the entry and the inner snapshot |
| `RunTheorems.AdjacentWaitsMayDecrease` | auth_harness/steps/handlers.py:323-335 | for every waiting step, mutation or wait, and every following known filter not covered by that, there is a legal run in which both steps succeed and the second stores an older row |
| `RunTheorems.AdjacentWaitsOrderedIff` | auth_harness/steps/handlers.py:323-335 | no run with a `wait_outbox` directly behind this waiting step makes the stored id go back if and only if that step is a `wait_outbox`, too, and its filter is absent or the same |
| `RunTheorems.NoOutboxStepIsExact` | auth_harness/steps/handlers.py:338-351 | `assert_no_outbox` passes if and only if no matching row was appended between the entry of the previous step and its fetch |
| `RunTheorems.FinalBlockWindow` | auth_harness/runner/scenario_runner.py:52-71 | the run returns 0 if and only if nothing matching was appended between the entry of the penultimate step (the initial snapshot when there is one step) and the last attempt, and the other checks pass |
| `RunTheorems.FinalBlockCannotBeMasked` | auth_harness/assertions/runner.py:23-45 | in a run with at least one step a row seen by any attempt of the final block makes the run fail after `max_attempts` attempts |
| `EnsureSteps.FindRelation` | auth_harness/infrastructure/db.py:232-245 | a relation of that user and target, whichever, and nothing exactly when there is none |
| `EnsureSteps.FindAnyOfUser` | auth_harness/infrastructure/db.py:248-261 | a primary relation of the user if there is one, and of those the one with the least id; nothing exactly when the user has none |
| `EnsureSteps.DeletedOneUnlinksIff` | auth_harness/steps/handlers.py:49-64 | deleting the one relation found unlinks the user if and only if it was the only one |
| `EnsureSteps.OnlyTheWriteIsSeen` | auth_harness/infrastructure/db.py:297-325 | with one writer a query past the cursor taken before the write sees the written row, if the filter admits it, and nothing else |
| `EnsureSteps.FilterAdmitsIff` | auth_harness/domain/outbox_ops.py:41-50 | a known filter admits the row of a known operation if and only if it is absent or that prefix |
| `EnsureSteps.EveryWaitIsAwaited` | auth_harness/wait/outbox.py:58-102 | every end of the polling loop, over any history, has the form the single-client steps assume: a timeout without a row means there was none at the start or no poll |
| `EnsureSteps.OwnWriteOutcome` | auth_harness/steps/handlers.py:27-46 | a step that waited for its write ends normally only with the written row, in SUCCESS, stored and with no filter or the one of its operation; an unknown filter is refused; any other end leaves the stored row alone and carries the written one if there was a poll |
| `EnsureSteps.DeletionByTarget` | auth_harness/steps/handlers.py:49-64 | deleting the relation looked up for a target removes one row if there is any, and unlinks the user if and only if there was no second one |
| `EnsureSteps.DeletionLeaves` | auth_harness/steps/handlers.py:144-159 | with given ids exactly the relations of the user among them go; by target exactly one relation to it, or none and then nothing else happens; a row is written if and only if a relation went |
| `EnsureSteps.Session.WaitForWrite` | auth_harness/steps/handlers.py:27-46 | waiting for the own write: with its prefix or no filter the written row decides, and a timeout carries it unless there was no poll; with another known filter the wait times out, an unknown one is refused after the write |
| `EnsureSteps.Session.EnsureUserDept` | auth_harness/steps/handlers.py:162-192 | afterwards the user is in the department and has max(1, n) relations; the first relation is rehung under `update-dept:` or a new one made under `create-dept:`; a user already there causes no write and no wait |
| `EnsureSteps.Session.EnsureUserPost` | auth_harness/steps/handlers.py:204-220 | afterwards the user holds the post; a user who held it causes no write and no wait, otherwise one relation is added under `create-post:` and the filter parameter decides the wait |
| `EnsureSteps.Session.DeleteUserDept` | auth_harness/steps/handlers.py:144-159 | the given relation ids of that user go, else the one looked up for the department, which unlinks the user if and only if there was at most one; without ids there is no write and no wait, and ids that match nothing make the wait time out |
| `EnsureSteps.Session.DeleteUserPost` | auth_harness/steps/handlers.py:223-238 | the same for posts |
| `EnsureSteps.Session.MoveDept` | auth_harness/infrastructure/api.py:146-160 | the no-op error is raised if and only if the parent is already the wanted one, and then nothing is written; the other error if and only if the parent found after the request is another one |
| `EnsureSteps.Session.EnsureDeptParent` | auth_harness/steps/handlers.py:259-276 | afterwards the parent is the wanted one unless the server left another, which is reported; every other parent is kept, the no-op error of the move cannot occur, and a department already in place causes no write and no wait |
| `AuthGraph.EnabledRolesReach` | auth_harness/infrastructure/db.py:14-33 | the roles the oracle sees are the enabled roles granted to the user, to an ancestor of a department of the user, or to a post of the user |
| `AuthGraph.PermissionsReach` | auth_harness/infrastructure/db.py:35-61 | a permission code is in the oracle of a user if and only if an enabled role that reaches the user holds an enabled permission with that code |
| `AuthGraph.DeptUsersAreMembers` | auth_harness/infrastructure/db.py:182-195 | the users listed for a department are exactly those with a department below it in the closure |
| `AuthGraph.RoleImpactIsReach` | auth_harness/domain/impact.py:20-42 | the ROLE query finds exactly the users some role with one of the codes reaches |
| `AuthGraph.OracleAndImpactAreDual` | auth_harness/domain/impact.py:20-42 | a code is in the role oracle of a user iff an enabled role with it reaches the user; then the user is in ROLE of that code; the converse holds when every role with the code is enabled |
| `AuthGraph.GrantFrame` | auth_harness/infrastructure/db.py:14-61 | a change of grants leaves alone the codes of every user no changed subject applies to |
| `AuthGraph.GrantDeptFrame` | auth_harness/domain/impact.py:51-58 | if only grants of some departments differ, every user whose codes differ is in the GRANT_DEPT set of both states |
| `AuthGraph.MemberOfMissingDeptIsMissed` | auth_harness/domain/impact.py:51-58 | a small database with the case `GrantCoverage.GrantDeptCoverageIff` rules out: without the `sys_dept` row of a department the codes of a member change and the GRANT_DEPT set misses the member |
| `AuthGraph.GrantPostFrame` | auth_harness/domain/impact.py:60-65 | if only grants of some posts differ, every user whose codes differ is in the GRANT_POST set of both states |
| `AuthGraph.GrantUserFrame` | auth_harness/domain/impact.py:44-49 | if only grants of some users differ, every user whose codes differ is in the GRANT_USER set of the state before or of the state after |
| `AuthGraph.ClearedUserIsMissed` | auth_harness/domain/impact.py:44-49 | a user whose last direct grant is cleared changes codes and is not found afterwards |
| `AuthGraph.ResolvedImpactMeaning` | auth_harness/domain/impact.py:67-104 | for a kind written in any mixture of cases: which error refuses the call, and for each accepted kind which users are in the answer, in terms of reaching |
| `AuthGraph.RoleChangeFrame` | auth_harness/domain/impact.py:20-42 | changing the permission sets, status or codes of some roles, or permissions only they hold, alters codes only of users in the ROLE set of their old codes |
| `GrantCoverage.GrantUserCoverage` | auth_harness/domain/impact.py:44-49 | the query run after the change covers all changed users if and only if, for each user left without a direct grant, the codes of the old direct grants all come from departments or posts as well; the query run before if and only if the same holds of the new direct grants of each user who had none |
| `GrantCoverage.GrantDeptCoverageIff` | auth_harness/domain/impact.py:51-58 | the query covers every possible change of the grants of these departments if and only if each member below them is also below one that has its `sys_dept` row, or holds every grantable code from other subjects |
| `GrantCoverage.ClearedUserChangesIff` | auth_harness/domain/impact.py:44-49 | a user left without direct grants has other codes than before if and only if the old direct grants gave a code that no department or post gave |
| `DeptTree.MoveKeepsForestIff` | auth_harness/infrastructure/api.py:146-160 | a move keeps the parent relation a forest if and only if the new parent is outside the moved subtree |
| `DeptTree.MovedAncestors` | auth_harness/infrastructure/db.py:14-33 | a moved department keeps its ancestors up to the moved root and trades those above for the new parent and its ancestors |
| `DeptTree.MembersClimb` | auth_harness/infrastructure/db.py:182-195 | over the closure of a forest they are the users of the department and of those below it |
| `DeptTree.MembersAreKept` | auth_harness/infrastructure/db.py:182-195 | the members listed for the moved department are the same before and after |
| `DeptTree.DeptMoveFrame` | auth_harness/infrastructure/db.py:182-195 | every user whose codes change when a department moves is listed for that department, before and after |
| `SqlScript.ClosedBufferEndsWithDelimiter` | auth_harness/infrastructure/db.py:104-108 | when a line closes a statement the trimmed buffer ends with the delimiter: the check at line 107 never fails |
| `SqlScript.ReadLine` | auth_harness/infrastructure/db.py:94-114 | one line of the loop adds the statements of the pieces it completes and leaves delimiter and buffer as specified, without an error |
| `SqlScript.DirectiveIff` | auth_harness/infrastructure/db.py:95-103 | a line is a directive if and only if it is DELIMITER in any case, a blank and an argument, with white space around them, and that argument is the delimiter read |
| `SqlScript.ClosesIff` | auth_harness/infrastructure/db.py:104-105 | a line ends a statement if and only if its text up to trailing white space ends with the delimiter |
| `SqlScript.SplitSqlStatements` | auth_harness/infrastructure/db.py:88-118 | for every content the result is the trimmed nonempty pieces, in order, the ValueError is unreachable, and the text outside directives is those statements with only white space and declared delimiters around them |
| `SqlScript.LinesDecidePieces` | auth_harness/infrastructure/db.py:94-118 | for any script, line by line: a declaration ends the piece before it and sets the delimiter, a line visibly ending with the current delimiter ends a piece, every other line only extends it, and the last piece is what is left |
| `SqlScript.SplitConservesText` | auth_harness/infrastructure/db.py:88-118 | the pieces put together are the script without its directive lines, character for character |
| `SqlScript.ChunksAreProperlyClosed` | auth_harness/infrastructure/db.py:104-114 | every piece closed by a delimiter ends with it up to white space, and a delimiter that is cut off is the current one or a declared one |
| `SqlScript.TrimmedCuts` | auth_harness/infrastructure/db.py:104-117 | a piece is white space, its statement, white space, the custom delimiter that closed it, white space: trimming loses nothing else |
| `SqlScript.StatementsConserveText` | auth_harness/infrastructure/db.py:88-118 | conservation from the script to the statements: the lines that are no directives are the returned statements in order with only white space and closing delimiters between and around them |
| `SqlScript.ScriptRoundTrip` | auth_harness/infrastructure/db.py:88-118 | any list of statements printed in `;` sections and DELIMITER blocks is split back into that list, when no printed line reads as a declaration and only the last line of each statement visibly ends with the delimiter |
| `Text.SplitLinesOfUnlines` | auth_harness/infrastructure/db.py:93 | lines without breaks, each ended by a newline, are what `splitlines` returns |
| `Text.SplitLinesKeepsText` | auth_harness/infrastructure/db.py:93 | the lines and their breaks are the text, character for character; only the last line may lack a break, and no `\r\n` counts as two |
| `Ordering.SortedEqualIff` | auth_harness/domain/oracle.py:60-63 | sorted copies are equal if and only if the lists hold the same elements equally often |
| `Ordering.SortedSetIsSorted` | auth_harness/perms/scan.py:42-45 | the sorted list of a set is in code point order |
| `MySqlText.EscapeIsPerCharacter` | auth_harness/perms/seed_sql.py:115-116 | the two chained replaces act as one map on characters |
| `MySqlText.EscapeIsReadBack` | auth_harness/perms/seed_sql.py:115-116 | reading an escaped, quoted text by the string literal rules of the MySQL 8.0 Reference Manual, section 11.1.1, gives the text back |
| `MySqlText.EscapeIsInjective` | auth_harness/perms/seed_sql.py:115-116 | different texts have different escaped forms |
| `MySqlText.SplitStatements` | auth_harness/perms/service.py:273-281 | the loop returns the stripped nonempty parts, between semicolons, of the lines that are neither blank nor comments |
| `MySqlText.StatementsAreSemicolonFree` | auth_harness/perms/service.py:273-281 | no statement the splitter returns contains a semicolon, whatever the text |
| `LineScan.ReturnedSurvives` | auth_harness/perms/service.py:273-281 | whatever the text, a returned statement that does not start with a dash has only plain newlines in it and no line the splitter would drop |
| `LineScan.LineSafeIsOpen` | auth_harness/perms/service.py:273-281 | the condition on a value, in terms of its lines, is the one under which reading it inside a quoted literal loses no line |
| `SqlParts.ScriptIsSplit` | auth_harness/perms/service.py:273-281 | a script of well-formed parts is split into exactly its statements |
| `SeedSql.BuildUpsertSql` | auth_harness/perms/seed_sql.py:51-80 | the printed text is the INSERT part for the entries, or the note that nothing is missing |
| `SeedSql.InsertRowText` | auth_harness/perms/seed_sql.py:66-73 | a printed row is, between parentheses, the ten values in the order of the columns: code, name, order number, 1, both times, both users, 0, remark |
| `SeedSql.IntIsReadBack` | auth_harness/perms/seed_sql.py:66-73 | the digits printed for a number stand for that number |
| `SyncSql.BuildSyncSql` | auth_harness/perms/seed_sql.py:95-112 | the printed script consists of the parts prescribed for the entries, the codes and the prune flag |
| `SyncSql.SyncSqlRoundTripIff` | auth_harness/perms/seed_sql.py:95-112 | for all values: the splitter returns exactly the intended INSERT and DELETE if and only if every printed value is free of semicolons and of breaks other than newlines, none of its inner lines is blank or a comment, and its last line starts no comment |
| `SyncSql.PrintedLiteralsAreReadBack` | auth_harness/perms/seed_sql.py:51-92 | the literals MySQL reads in the two statements are the printed codes, names, dates and remarks, in order, whatever characters they contain |
| `PermSync.ResolveNameByShape` | auth_harness/perms/catalog.py:25-38 | an override is taken as it is; without one a code without colon has no name, and resource:action (split at the last colon) has one iff both parts are named |
| `PermSync.UniqueCodesMeaning` | auth_harness/perms/scan.py:42-45 | the scanned codes are one sorted list without duplicates of the codes hit and not ignored |
| `PermSync.DiffMeaning` | auth_harness/perms/service.py:76-115 | missing, orphan and unresolved as sets: scanned and not in the database; in the database, not scanned and starting with no protected prefix; scanned without a name |
| `PermSync.ExitCodeIff` | auth_harness/perms/service.py:230-235 | for any scan and baseline the exit code is 0 if and only if every scanned code is in the baseline and has a name and, in strict mode, every unscanned code of the baseline starts with a protected prefix |
| `PermSync.PlanMissing` | auth_harness/perms/service.py:160-166 | the loop makes one entry for every missing code with a name, numbered by position so that codes without a name leave a gap |
| `PermSync.BuildSyncPlan` | auth_harness/perms/service.py:141-169 | the plan holds the diff, its entries, the orphans to prune and the script printed from them |
| `PermSync.PlanCoversResolvable` | auth_harness/perms/service.py:160-166 | the planned entries are exactly the missing codes that have a name, each with that name |
| `PermSync.PlanNumbersByPosition` | auth_harness/perms/service.py:160-166 | an entry is planned if and only if it is the k-th missing code with its name and the number start + k * step, for some k |
| `PermSync.PlanOrdersIncrease` | auth_harness/perms/service.py:160-166 | with a positive step the planned order numbers strictly increase from the first one on |
| `PermSync.NextOrderMeaning` | auth_harness/perms/service.py:248-270 | the first new order number is 10 without rows, else ten more than the largest one |
| `PermSync.PlanOrdersFollowExisting` | auth_harness/perms/service.py:248-270 | every new order number is above every one in use |
| `PermSync.IntendedStatementsApplyPlan` | auth_harness/perms/service.py:198-206 | executing the intended statements, as MySQL reads them, inserts the entries that are new and removes the pruned codes |
| `PermSync.InsertIsExecuted` | auth_harness/perms/seed_sql.py:57-80 | the printed INSERT names the table and, in order, the columns of its values, and ends with the clause that leaves duplicates alone |
| `PermSync.DeleteIsExecuted` | auth_harness/perms/seed_sql.py:83-92 | the printed DELETE names the table and the code column its list is for |
| `PermSync.PlanOrRefuse` | auth_harness/perms/service.py:183-196 | the plan, or the missing codes without a name if there are any |
| `PermSync.UnnameableMeaning` | auth_harness/perms/service.py:190-196 | the codes that make the plan refused are the scanned ones that are not in the database and have no name |
| `PermSync.ExecuteAll` | auth_harness/perms/service.py:198-206 | the loop executes the statements before the first refused one and reports that one |
| `PermSync.ApplyMissing` | auth_harness/perms/service.py:172-206 | a missing code without a name is refused before anything is written; otherwise exactly the statements found in the printed plan are executed, in order, up to the first one MySQL refuses, whatever the values contain |
| `PermSync.ExecutedPlanSyncs` | auth_harness/perms/service.py:172-206 | the executed statements are the intended ones if and only if the plan prints safely; then, if MySQL accepts them, the table becomes the synchronised one |
| `PermSync.SyncConverges` | auth_harness/perms/service.py:172-206 | when every missing code has a name the table ends with exactly the scanned codes and the old codes (with prune: only those that start with a protected prefix), and kept rows keep their names |
| `PermSync.SyncIsIdempotent` | auth_harness/perms/service.py:172-206 | the next diff has nothing missing and, with prune, nothing to prune, and a second run changes nothing |
| `PermSync.SyncedExitCodeIff` | auth_harness/perms/service.py:230-235 | after a sync the exit code is 0 if and only if every scanned code has a name and, in strict mode without prune, every unscanned old code starts with a protected prefix |
| `ExportProbe.AnyExecutionWindowsOverlap` | auth_harness/services/example_order_export_probe.py:132-148 | the nested search is true if and only if two windows overlap |
| `ExportProbe.NoOverlapIffSerialOrder` | auth_harness/services/example_order_export_probe.py:132-148 | windows of positive length are free of overlaps if and only if some permutation of them is a serial schedule |
| `ExportProbe.SerialTimesFitSpan` | auth_harness/services/example_order_export_probe.py:132-148 | then the execution times add up to at most the span |
| `ExportProbe.PollRound` | auth_harness/services/example_order_export_probe.py:203-213 | one round fetches the runs in order and counts those answered RUNNING |
| `ExportProbe.WaitAllTerminal` | auth_harness/services/example_order_export_probe.py:196-226 | the rounds follow each other, a pause apart; the wait returns their largest RUNNING count with the first round in which all runs are terminal, or times out after the deadline with no such round |
| `ExportProbe.EvaluateParallelOverlap` | auth_harness/services/example_order_export_probe.py:258-282 | the first run without times or with times in the wrong order is reported; on complete runs, unless two were seen RUNNING in one round, exactly the serial schedules are rejected |
| `ExportProbe.InstantRoundsProveOverlap` | auth_harness/services/example_order_export_probe.py:196-216 | if every round were answered at one instant, two RUNNING answers would prove an overlap |
| `ExportProbe.NoFalsePassIff` | auth_harness/services/example_order_export_probe.py:196-282 | for given rounds, no truthfully reported serial schedule passes the probe if and only if every round but the last was answered at one instant |
| `ExportProbe.HandOverIsPassed` | auth_harness/services/example_order_export_probe.py:196-282 | in any earlier round that took time, a run that hands over to one fetched later makes the probe pass a serial schedule |
| `ExportProbe.SerialScheduleCanPass` | auth_harness/services/example_order_export_probe.py:258-282 | a serial schedule with its times, two rounds in order, the second all terminal: two runs are counted RUNNING and no verdict but the passing one is possible |
| `Orders.RowsKeepComing` | auth_harness/services/example_orders_api.py:26-39 | every page that did not end the loop brought a row and left the rows below the first total |
| `Orders.FetchAllExampleOrders` | auth_harness/services/example_orders_api.py:14-41 | against every server the loop ends within max(1, first total) requests and returns the rows of the pages read, or the first failure |
| `Orders.AllRowsAreReadIff` | auth_harness/services/example_orders_api.py:14-41 | a server whose responses carry code 0 and the rows of a list in pages of any positive size is read completely if and only if there is one page or the reported total exceeds the rows before the last page; otherwise a prefix is returned |
| `Orders.StableServerIsReadCompletely` | auth_harness/services/example_orders_api.py:14-41 | if such responses report the true total, the result is all rows in order |
| `Orders.SlicingServerExists` | auth_harness/services/example_orders_api.py:14-41 | for every list, page size and total there is such a server |
| `Orders.MissingTotalEndsTheLoop` | auth_harness/services/example_orders_api.py:86-88 | a first page without a total ends the loop after one request |
| `Orders.BadAnswerEndsTheCall` | auth_harness/services/example_orders_api.py:44-90 | a failed request, a code other than 0, data that is no object and a list that is no array each end the call in their own failure, and in no other case; every answer before the last one carried rows |
| `Orders.EmptyAnswerEndsTheCall` | auth_harness/services/example_orders_api.py:28-41 | an answer without rows ends the call with the rows read so far, and each answer adds its rows |
| `Profiles.CompareFields` | auth_harness/domain/oracle.py:59-68 | the loop reports exactly the list fields whose sorted copies differ, each with both copies, and raises exactly when a list cannot be sorted |
| `Profiles.SortedAgreesIff` | auth_harness/domain/oracle.py:59-68 | a list as Python sorts it (one element of any kind, texts, numbers) equals the sorted oracle list if and only if it holds the same texts equally often |
| `Profiles.SortedMeaning` | auth_harness/domain/oracle.py:59-68 | sorting keeps the elements, numbers and booleans come in numeric order, and it raises if and only if two or more elements are neither all texts nor all numbers |
| `Profiles.SortedTwice` | auth_harness/infrastructure/redis_client.py:70-79 | sorting again what the normalisation sorted changes nothing, so the comparison raises only where the normalisation does |
| `Profiles.CompareProfiles` | auth_harness/domain/oracle.py:43-78 | on a present profile there are no differences if and only if its roles and permissions are texts equal as multisets to those of the oracle and the versions agree or one is unknown; each difference carries the sorted lists of its own field; when it raises; a missing profile is a difference only when required |
| `Profiles.ListIsReadBack` | auth_harness/infrastructure/redis_client.py:82-90 | a list of texts is read back, plain or behind a class name; any other list is taken as it is, and anything else as empty |
| `Profiles.PayloadIsReadBack` | auth_harness/infrastructure/redis_client.py:47-67 | a payload is the profile itself or a pair ending in it, and nothing else yields it; no key means no profile, and a bad payload raises |
| `Profiles.RepresentationDoesNotMatter` | auth_harness/infrastructure/redis_client.py:70-90 | reordering a list or wrapping it behind a class name never changes whether there are differences |
| `Profiles.VersionFieldMeaning` | auth_harness/infrastructure/redis_client.py:70-79 | the first version field counts unless it is missing, null, false, zero or empty; then the second one does |
| `Profiles.StaleVersionIsMissedIff` | auth_harness/infrastructure/redis_client.py:70-79 | a wrong version number goes unnoticed if and only if it is zero and the fallback field is missing, null or right |

## Left out

- HTTP, JWT, login and response envelopes outside pagination: network clients.
- Command line, configuration, YAML loading, printing, log throttling and message texts: user interface; exceptions are result variants.
- Connections, Redis keys, `json.loads`, preflight, seed files, `StepRegistry` and the dept-scope probes: foreign calls or finite data.
- OutboxWait.WaitOutboxSuccess: a query takes at least one clock tick, which makes the loop end with a poll interval of zero, too; a negative interval, for which `time.sleep` raises, is excluded.
- Status texts: every status other than SUCCESS, FAILED and DEAD is one in-flight status with a name.
- Out-of-order visibility of auto-increment ids, MySQL collation and case folding in LIKE: assumed away.
- Scenario.RunScenario: the login and the connections before the first snapshot, and exceptions other than those of the steps, are not modelled.
- Scenario.MutateAndWait: its filter is a given prefix here; the null filter that `outbox_source_contains: null` would pass is modelled in EnsureSteps.
- Assertions.RunOnce: the dept fan-out, event, user and sample checks are one function of the instant at which they run.
- EnsureSteps.Session.EnsureUserDept: what the backend does to the primary flags of other relations, and failing API calls, are not modelled.
- How the backend maintains `dept_closure` step by step: the closure is defined from the parent relation.
- AuthGraph.RoleChangeFrame: roles that did not exist before the change are excluded, because nobody can have held them; a permission also held by a role outside the changed ones needs that role among them.
- AuthGraph.ResolvedImpactMeaning: the upper-casing of `kind` covers ASCII letters.
- `parse_seed_sql`, the Java scan regex, comment lines and `_is_excluded`: their outputs are given sequences.
- PermSync.ApplyMissing: which statements MySQL accepts is a parameter, and a statement that does not start and end like one of the two printed here leaves the table as it is; concurrent changes of `sys_permission` during the run, ids, order numbers and time columns of the rows are not modelled; the next order number is a parameter of the plan (`PermSync.PlanOrdersFollowExisting` says what it guarantees).
- SeedSql.BuildUpsertSql: the date is printed through the same escaping as the other values; for the digits it consists of that is the identity.
- MySqlText.EscapeIsReadBack: double-quoted strings, comments inside statements, character set introducers and the `NO_BACKSLASH_ESCAPES` mode are not modelled.
- `_evaluate_completed_run`, `parse_instant`, thread pools and `random.sample`: single comparisons, calendar handling and sampling.
- ExportProbe.WaitAllTerminal: a run without a task id is excluded; with a poll interval of zero the clock is taken to move on by one tick between two rounds.
- Profiles.CompareProfiles: numbers are integers; a list of two or more lists is an error here, while Python compares lists element by element; the user id in messages is left out.
- `load_oracle`'s fallback from the internal API to SQL: a foreign call with two answers.

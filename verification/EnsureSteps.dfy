/**
 The `ensure_*` and `delete_*` steps of `auth_harness/steps/handlers.py` with one client: the
 backend's relation tables and outbox change only through the step itself, and every write that
 changes something appends one outbox row named after its operation.
 */
module EnsureSteps {
  import opened Wrappers
  import opened Arithmetic
  import opened OutboxTable
  import opened OutboxWait

  // ---------------------------------------------------------------------------------------
  // Relations
  // ---------------------------------------------------------------------------------------

  /** A row of `user_dept` or `user_post`; `target` is the department or the post. */
  datatype Relation = Relation(id: nat, user: int, target: int, primary: bool)

  type Relations = set<Relation>

  predicate UniqueIds(rs: Relations) {
    forall a, b :: a in rs && b in rs && a.id == b.id ==> a == b
  }

  function OfUser(rs: Relations, user: int): Relations {
    set r | r in rs && r.user == user
  }

  /** The relations between one user and one target: normally at most one, but no key forbids more. */
  function Between(rs: Relations, user: int, target: int): Relations {
    set r | r in rs && r.user == user && r.target == target
  }

  predicate Linked(rs: Relations, user: int, target: int) {
    exists r :: r in rs && r.user == user && r.target == target
  }

  /** `ORDER BY is_primary DESC, id ASC`. */
  predicate Precedes(a: Relation, b: Relation) {
    if a.primary == b.primary then a.id <= b.id else a.primary
  }

  predicate FirstOfUser(rs: Relations, user: int, r: Relation) {
    r in rs && r.user == user && forall q :: q in rs && q.user == user ==> Precedes(r, q)
  }

  /** `find_user_dept_id`, `find_user_post_id`: LIMIT 1 without an order, so any matching row. */
  method FindRelation(rs: Relations, user: int, target: int) returns (found: Option<Relation>)
    ensures found.None? <==> !Linked(rs, user, target)
    ensures found.Some? ==> found.value in Between(rs, user, target)
  {
    if r :| r in rs && r.user == user && r.target == target {
      return Some(r);
    }
    found := None;
  }

  /** `find_any_user_dept`. */
  method FindAnyOfUser(rs: Relations, user: int) returns (found: Option<Relation>)
    ensures found.None? <==> OfUser(rs, user) == {}
    ensures found.Some? ==> FirstOfUser(rs, user, found.value)
    ensures found.Some? ==>
              && found.value in rs && found.value.user == user
              && ((exists q :: q in rs && q.user == user && q.primary) ==> found.value.primary)
              && forall q :: q in rs && q.user == user && q.primary == found.value.primary ==> found.value.id <= q.id
  {
    found := None;
    var todo := OfUser(rs, user);
    while todo != {}
      invariant todo <= OfUser(rs, user)
      invariant found.Some? ==> found.value in OfUser(rs, user) - todo
      invariant forall q :: q in OfUser(rs, user) - todo ==> found.Some? && Precedes(found.value, q)
      decreases |todo|
    {
      var r :| r in todo;
      ghost var seen := OfUser(rs, user) - todo;
      todo := todo - {r};
      assert OfUser(rs, user) - todo == seen + {r};
      if found.None? || !Precedes(found.value, r) {
        found := Some(r);
      }
    }
    assert OfUser(rs, user) - todo == OfUser(rs, user);
  }

  /** Retargeting one relation keeps the number of the user's relations and links the user. */
  lemma RetargetKeepsCount(rs: Relations, r: Relation, moved: Relation)
    requires UniqueIds(rs) && r in rs && moved.id == r.id && moved.user == r.user
    ensures var after := rs - {r} + {moved};
            && UniqueIds(after) && Linked(after, r.user, moved.target)
            && |OfUser(after, r.user)| == |OfUser(rs, r.user)|
            && forall user :: user != r.user ==> OfUser(after, user) == OfUser(rs, user)
  {
    var after := rs - {r} + {moved};
    assert moved in after;
    var others := OfUser(rs, r.user) - {r};
    assert OfUser(rs, r.user) == others + {r};
    assert OfUser(after, r.user) == others + {moved};
    assert moved !in others;
    forall user | user != r.user ensures OfUser(after, user) == OfUser(rs, user) {
    }
  }

  /** Adding a relation with a new id links the user and leaves everyone else alone. */
  lemma AddedRelation(rs: Relations, r: Relation)
    requires UniqueIds(rs) && forall q :: q in rs ==> q.id != r.id
    ensures UniqueIds(rs + {r}) && Linked(rs + {r}, r.user, r.target)
    ensures OfUser(rs + {r}, r.user) == OfUser(rs, r.user) + {r} && r !in OfUser(rs, r.user)
    ensures forall user :: user != r.user ==> OfUser(rs + {r}, user) == OfUser(rs, user)
  {
  }

  /** Deleting the one relation found unlinks the user exactly when there was no second one. */
  lemma DeletedOneUnlinksIff(rs: Relations, r: Relation)
    requires r in rs
    ensures !Linked(rs - {r}, r.user, r.target) <==> |Between(rs, r.user, r.target)| == 1
  {
    var both := Between(rs, r.user, r.target);
    assert r in both;
    if Linked(rs - {r}, r.user, r.target) {
      var q :| q in rs - {r} && q.user == r.user && q.target == r.target;
      assert {q, r} <= both && |{q, r}| == 2;
      SubsetSize({q, r}, both);
    } else {
      assert both == {r};
    }
  }

  lemma {:induction false} SubsetSize<T>(a: set<T>, b: set<T>)
    requires a <= b
    ensures |a| <= |b|
    decreases |a|
  {
    if x :| x in a {
      SubsetSize(a - {x}, b - {x});
    }
  }

  // ---------------------------------------------------------------------------------------
  // The outbox with one writer
  // ---------------------------------------------------------------------------------------

  /** One write of the given operation: one row appended; older rows may have progressed. */
  predicate OneWrite(before: Table, after: Table, operation: string) {
    && |after| == |before| + 1 && Ordered(after) && Evolves(before, after)
    && operation <= after[|before|].sourceBizId
  }

  /** What a query with the cursor of `before` sees after one write: that row, if the filter admits it. */
  lemma OnlyTheWriteIsSeen(before: Table, after: Table, operation: string, f: Option<string>)
    requires Ordered(before) && OneWrite(before, after, operation)
    ensures FetchAfter(after, MaxId(before), f) == if Matches(after[|before|], f) then Some(after[|before|]) else None
  {
  }

  /** A known filter admits the row of a known operation exactly when it is that operation's prefix. */
  lemma FilterAdmitsIff(row: Row, operation: string, f: Option<string>)
    requires operation in KNOWN_PREFIXES && KnownFilter(f) && operation <= row.sourceBizId
    ensures Matches(row, f) <==> f.None? || f.value == operation
  {
    if f.Some? {
      KnownFiltersAreDisjoint(row, operation, f.value);
      KnownFiltersAreDisjoint(row, f.value, operation);
    }
  }

  /** How a step ends: normally, by the ValueError of an unknown filter, by a failed wait, or by the RuntimeError of a move. */
  datatype StepEnd = Finished | UnknownFilter | WaitFailed(outcome: WaitOutcome) | MoveFailed(cause: MoveEnd)

  /**
   What waiting for one's own write gives: with the right filter the written row itself decides,
   with another known filter the wait always times out, and an unknown filter is refused, in all
   cases after the write.  A timeout carries the written row unless the deadline left no poll.
   */
  predicate OwnWriteDecides(before: Table, after: Table, operation: string, filter: Option<string>, wait: bool, polled: bool,
                            last: Option<Row>, last': Option<Row>, end: StepEnd)
    requires |after| == |before| + 1
  {
    var written := after[|before|];
    if !wait then end == Finished && last' == last
    else if RequireKnownPrefix(filter).Err? then end == UnknownFilter && last' == last
    else if filter == None || filter == Some(operation) then
      match end
      case Finished => polled && last' == Some(written) && written.status.Success?
      case UnknownFilter => false
      case WaitFailed(FailedRow(row)) => polled && last' == last && row == written && row.status.Failure()
      case WaitFailed(TimedOut(None)) => last' == last && !polled
      case WaitFailed(TimedOut(Some(row))) => last' == last && polled && row.status.InFlight? && RowEvolves(row, written)
      case WaitFailed(Found(_)) => false
      case MoveFailed(_) => false
    else end == WaitFailed(TimedOut(None)) && last' == last
  }

  /**
   What a step that waited for its write tells its scenario: it ends normally only with the written row
   in SUCCESS stored, an unknown filter is refused, and whatever else happens leaves the stored row alone.
   A filter that is neither absent nor the operation's prefix never ends well.
   */
  lemma OwnWriteOutcome(before: Table, after: Table, operation: string, filter: Option<string>, wait: bool, polled: bool,
                        last: Option<Row>, last': Option<Row>, end: StepEnd)
    requires operation in KNOWN_PREFIXES && |after| == |before| + 1
    requires OwnWriteDecides(before, after, operation, filter, wait, polled, last, last', end)
    ensures !wait ==> end == Finished
    ensures wait && end == Finished ==>
              polled && after[|before|].status == Success && last' == Some(after[|before|]) && (filter == None || filter == Some(operation))
    ensures wait && end != Finished ==> last' == last
    ensures end == UnknownFilter <==> wait && filter.Some? && filter.value !in KNOWN_PREFIXES
    ensures wait && polled && (filter == None || filter == Some(operation)) && end != Finished ==>
              && end.WaitFailed?
              && match end.outcome
                 case FailedRow(row) => row == after[|before|] && (row.status == Failed || row.status == Dead)
                 case TimedOut(seen) => seen.Some? && seen.value.id == after[|before|].id
                 case Found(_) => false
    ensures !end.MoveFailed?
  {
  }

  /** What the backend does to the rows while a step waits: up to the last poll, if there is one, and until the end. */
  datatype Processing = Processing(polled: bool, untilLastPoll: seq<Status>, untilEnd: seq<Status>)

  /** What a finished wait says about the tables it started with and leaves behind. */
  predicate Awaited(before: Table, after: Table, polled: bool, cursor: nat, f: Option<string>, outcome: WaitOutcome) {
    match outcome
    case Found(row) => polled && FetchAfter(after, cursor, f) == Some(row) && row.status.Success?
    case FailedRow(row) => polled && FetchAfter(after, cursor, f) == Some(row) && row.status.Failure()
    case TimedOut(None) => polled ==> FetchAfter(before, cursor, f) == None
    case TimedOut(Some(row)) =>
      && polled && row.status.InFlight? && FetchAfter(after, cursor, f).Some?
      && RowEvolves(row, FetchAfter(after, cursor, f).value)
  }

  /** Every run of the polling loop ends like that, whatever history it polls. */
  lemma EveryWaitIsAwaited(h: History, f: Option<string>, interval: nat, timeout: int, w: WaitLog, outcome: WaitOutcome)
    requires Legal(h) && WaitSpec(h, f, interval, timeout, w, outcome)
    ensures Awaited(h(w.start), h(w.end), w.polls != [], w.cursor, f, outcome)
  {
    if w.polls != [] {
      var p := w.polls[|w.polls| - 1];
      if FetchAfter(h(w.start), w.cursor, f).Some? {
        TrackedRowIsStable(h, w.start, p, w.cursor, f);
      }
      if FetchAfter(h(p), w.cursor, f).Some? {
        TrackedRowIsStable(h, p, w.end, w.cursor, f);
      }
    }
  }

  /** How the loop ends if its last poll sees `row`. */
  function Conclude(row: Option<Row>): WaitOutcome {
    if Undecided(row) then TimedOut(row)
    else if row.value.status.Success? then Found(row.value) else FailedRow(row.value)
  }

  lemma ConcludedIsAwaited(before: Table, polled: Table, after: Table, cursor: nat, f: Option<string>)
    requires Ordered(before) && Ordered(polled) && Ordered(after) && Evolves(before, polled) && Evolves(polled, after)
    ensures Awaited(before, after, true, cursor, f, Conclude(FetchAfter(polled, cursor, f)))
  {
    if FetchAfter(before, cursor, f).Some? {
      TrackedRowProgresses(before, polled, cursor, f);
    }
    if FetchAfter(polled, cursor, f).Some? {
      TrackedRowProgresses(polled, after, cursor, f);
    }
  }

  lemma EvolvesTransitive(a: Table, b: Table, c: Table)
    requires Evolves(a, b) && Evolves(b, c)
    ensures Evolves(a, c)
  {
  }

  /** The same for two tables, the second of the same length and further processed. */
  lemma TrackedRowProgresses(a: Table, b: Table, cursor: nat, f: Option<string>)
    requires Ordered(a) && Ordered(b) && Evolves(a, b) && FetchAfter(a, cursor, f).Some?
    ensures FetchAfter(b, cursor, f).Some? && RowEvolves(FetchAfter(a, cursor, f).value, FetchAfter(b, cursor, f).value)
  {
    var h: History := t => if t == 0 then a else b;
    forall s: nat, t: nat | s <= t ensures Evolves(h(s), h(t)) {
    }
    assert h(0) == a && h(1) == b;
    TrackedRowIsStable(h, 0, 1, cursor, f);
  }

  /** A step that wrote nothing: it ends at once, or waits until the deadline in vain. */
  predicate IdleWait(before: Table, after: Table, wait: bool, end: StepEnd) {
    if wait then |after| == |before| && Evolves(before, after) && end == WaitFailed(TimedOut(None))
    else after == before && end == Finished
  }

  lemma NothingIsSeen(before: Table, after: Table, f: Option<string>)
    requires |after| == |before| && Evolves(before, after)
    ensures FetchAfter(after, MaxId(before), f) == None
  {
    forall i | 0 <= i < |after| ensures !Candidate(after[i], MaxId(before), f) {
      assert RowEvolves(before[i], after[i]);
    }
  }

  // ---------------------------------------------------------------------------------------
  // Deletions
  // ---------------------------------------------------------------------------------------

  /** The relations a deletion by these ids removes. */
  function Deleted(rs: Relations, user: int, ids: seq<nat>): Relations {
    set r | r in rs && r.user == user && r.id in ids
  }

  /** The ids a deletion uses: the given ones, else the one found for the target, else none. */
  predicate Chosen(rs: Relations, user: int, relationIds: seq<nat>, target: Option<int>, ids: seq<nat>) {
    if relationIds != [] then ids == relationIds
    else if target.Some? && Linked(rs, user, target.value) then exists r :: r in Between(rs, user, target.value) && ids == [r.id]
    else ids == []
  }

  /** `_user_dept_relation_ids`, `_user_post_relation_ids`. */
  method RelationIds(rs: Relations, user: int, relationIds: seq<nat>, target: Option<int>) returns (ids: seq<nat>)
    ensures Chosen(rs, user, relationIds, target, ids)
  {
    if relationIds != [] {
      return relationIds;
    }
    if target.None? {
      return [];
    }
    var found := FindRelation(rs, user, target.value);
    ids := if found.Some? then [found.value.id] else [];
  }

  /** What deleting by `ids` does: nothing without ids; else it removes those relations, and writes if there were any. */
  predicate DeletionSpec(rs: Relations, rs': Relations, user: int, ids: seq<nat>, before: Table, after: Table, operation: string,
                         wait: bool, polled: bool, last: Option<Row>, last': Option<Row>, end: StepEnd) {
    if ids == [] then rs' == rs && after == before && last' == last && end == Finished
    else
      && rs' == rs - Deleted(rs, user, ids)
      && if Deleted(rs, user, ids) == {} then IdleWait(before, after, wait, end) && last' == last
         else OneWrite(before, after, operation) && OwnWriteDecides(before, after, operation, Some(operation), wait, polled, last, last', end)
  }

  /** Deleting the relation found for a target unlinks the user exactly when there was no second one. */
  lemma DeletionByTarget(rs: Relations, user: int, target: int, ids: seq<nat>)
    requires UniqueIds(rs) && Chosen(rs, user, [], Some(target), ids)
    ensures !Linked(rs - Deleted(rs, user, ids), user, target) <==> |Between(rs, user, target)| <= 1
    ensures Linked(rs, user, target) ==> |Deleted(rs, user, ids)| == 1
  {
    if Linked(rs, user, target) {
      var r :| r in Between(rs, user, target) && ids == [r.id];
      assert Deleted(rs, user, ids) == {r};
      DeletedOneUnlinksIff(rs, r);
      assert |Between(rs, user, target)| > 0;
    } else {
      assert Deleted(rs, user, []) == {} && rs - {} == rs;
      assert Between(rs, user, target) == {};
    }
  }

  /**
   Which relations a deletion leaves: with given ids all but those of the user among them; by target
   all but one of the user to that target, or all when there is none.
   */
  lemma DeletionLeaves(rs: Relations, rs': Relations, user: int, relationIds: seq<nat>, target: Option<int>, ids: seq<nat>,
                       before: Table, after: Table, operation: string, wait: bool, polled: bool,
                       last: Option<Row>, last': Option<Row>, end: StepEnd)
    requires UniqueIds(rs) && Chosen(rs, user, relationIds, target, ids)
    requires DeletionSpec(rs, rs', user, ids, before, after, operation, wait, polled, last, last', end)
    ensures relationIds != [] ==> forall r :: r in rs' <==> r in rs && (r.user != user || r.id !in relationIds)
    ensures relationIds == [] && target.Some? && (exists r :: r in rs && r.user == user && r.target == target.value) ==>
              exists r :: r in rs && r.user == user && r.target == target.value && rs' == rs - {r}
    ensures relationIds == [] && (target.Some? ==> !exists r :: r in rs && r.user == user && r.target == target.value) ==>
              rs' == rs && after == before && last' == last && end == Finished
    ensures rs' != rs ==> |after| == |before| + 1 && operation <= after[|before|].sourceBizId
    ensures rs' == rs ==> |after| == |before| && (end == Finished || (wait && end == WaitFailed(TimedOut(None))))
  {
    if relationIds == [] && target.Some? && Linked(rs, user, target.value) {
      var r :| r in Between(rs, user, target.value) && ids == [r.id];
      assert Deleted(rs, user, ids) == {r};
    }
    assert Deleted(rs, user, ids) != {} ==> rs - Deleted(rs, user, ids) != rs;
    assert Deleted(rs, user, ids) == {} ==> rs - Deleted(rs, user, ids) == rs;
  }

  // ---------------------------------------------------------------------------------------
  // The session: backend tables and the step context
  // ---------------------------------------------------------------------------------------

  class Session {
    var depts: Relations
    var posts: Relations
    var parents: map<int, int>
    var outbox: Table
    var nextId: nat
    var lastOutboxRow: Option<Row>

    ghost predicate Valid()
      reads this
    {
      && UniqueIds(depts) && UniqueIds(posts) && Ordered(outbox)
      && (forall r :: r in depts + posts ==> r.id < nextId)
    }

    constructor ()
      ensures Valid() && depts == {} && posts == {} && parents == map[] && outbox == [] && lastOutboxRow == None
    {
      depts, posts, parents, outbox, nextId, lastOutboxRow := {}, {}, map[], [], 0, None;
    }

    /** The backend records a write: one row, above every visible id. */
    method AppendRow(operation: string, suffix: string)
      requires Valid()
      modifies this`outbox
      ensures Valid() && OneWrite(old(outbox), outbox, operation)
    {
      var id := MaxId(outbox) + 1;
      outbox := outbox + [Row(id, suffix, InFlight("PENDING"), operation + suffix)];
    }

    /** `wait_outbox_success` while nothing but processing happens: rows progress, none is added. */
    method AwaitRow(cursor: nat, f: Option<string>, processing: Processing) returns (outcome: WaitOutcome)
      requires Valid()
      modifies this`outbox
      ensures Valid() && |outbox| == |old(outbox)| && Evolves(old(outbox), outbox)
      ensures Awaited(old(outbox), outbox, processing.polled, cursor, f, outcome)
    {
      ghost var before := outbox;
      outbox := Progressed(outbox, processing.untilLastPoll);
      ghost var polled := outbox;
      outcome := if processing.polled then Conclude(FetchAfter(outbox, cursor, f)) else TimedOut(None);
      outbox := Progressed(outbox, processing.untilEnd);
      EvolvesTransitive(before, polled, outbox);
      ConcludedIsAwaited(before, polled, outbox, cursor, f);
    }

    /** `_mutate_and_wait` behind the mutation: `cursor` was taken before it. */
    method WaitForWrite(ghost before: Table, cursor: nat, ghost operation: string, filter: Option<string>, wait: bool, processing: Processing)
      returns (end: StepEnd)
      requires Valid() && Ordered(before) && cursor == MaxId(before)
      requires operation in KNOWN_PREFIXES && OneWrite(before, outbox, operation)
      modifies this`outbox, this`lastOutboxRow
      ensures Valid() && OneWrite(before, outbox, operation)
      ensures OwnWriteDecides(before, outbox, operation, filter, wait, processing.polled, old(lastOutboxRow), lastOutboxRow, end)
    {
      if !wait {
        return Finished;
      }
      var checked := RequireKnownPrefix(filter);
      if checked.Err? {
        return UnknownFilter;
      }
      ghost var written := outbox;
      var outcome := AwaitRow(cursor, checked.value, processing);
      WriteProgresses(before, written, outbox, operation);
      OnlyTheWriteIsSeen(before, written, operation, checked.value);
      OnlyTheWriteIsSeen(before, outbox, operation, checked.value);
      FilterAdmitsIff(written[|before|], operation, checked.value);
      FilterAdmitsIff(outbox[|before|], operation, checked.value);
      match outcome
      case Found(row) =>
        lastOutboxRow := Some(row);
        end := Finished;
      case FailedRow(_) => end := WaitFailed(outcome);
      case TimedOut(_) => end := WaitFailed(outcome);
    }

    /** The same when the mutation wrote nothing: the wait is in vain. */
    method WaitForNothing(cursor: nat, operation: string, wait: bool, processing: Processing) returns (end: StepEnd)
      requires Valid() && cursor == MaxId(outbox) && operation in KNOWN_PREFIXES
      modifies this`outbox
      ensures Valid() && IdleWait(old(outbox), outbox, wait, end)
    {
      if !wait {
        return Finished;
      }
      ghost var before := outbox;
      var outcome := AwaitRow(cursor, Some(operation), processing);
      NothingIsSeen(before, outbox, Some(operation));
      NothingIsSeen(before, before, Some(operation));
      end := WaitFailed(outcome);
    }

    /** `api.put_user_dept`: the relation changes its department in place. */
    method PutUserDept(r: Relation, dept: int, primary: bool, suffix: string)
      requires Valid() && r in depts
      modifies this`depts, this`outbox
      ensures Valid() && depts == old(depts) - {r} + {r.(target := dept, primary := primary)}
      ensures Linked(depts, r.user, dept) && |OfUser(depts, r.user)| == |OfUser(old(depts), r.user)|
      ensures forall other :: other != r.user ==> OfUser(depts, other) == OfUser(old(depts), other)
      ensures OneWrite(old(outbox), outbox, UPDATE_DEPT)
    {
      var moved := r.(target := dept, primary := primary);
      RetargetKeepsCount(depts, r, moved);
      depts := depts - {r} + {moved};
      AppendRow(UPDATE_DEPT, suffix);
    }

    /** `api.post_user_dept`: a relation with a new id. */
    method PostUserDept(user: int, dept: int, primary: bool, suffix: string)
      requires Valid()
      modifies this`depts, this`outbox, this`nextId
      ensures Valid() && Linked(depts, user, dept) && OfUser(depts, user) == OfUser(old(depts), user) + {Relation(old(nextId), user, dept, primary)}
      ensures |OfUser(depts, user)| == |OfUser(old(depts), user)| + 1
      ensures forall other :: other != user ==> OfUser(depts, other) == OfUser(old(depts), other)
      ensures OneWrite(old(outbox), outbox, CREATE_DEPT)
    {
      var r := Relation(nextId, user, dept, primary);
      AddedRelation(depts, r);
      depts, nextId := depts + {r}, nextId + 1;
      AppendRow(CREATE_DEPT, suffix);
    }

    /** `ensure_user_dept` for a user with relations, none of them to the department: the first one is rehung. */
    method RehangUserDept(first: Relation, dept: int, primary: bool, wait: bool, suffix: string, processing: Processing) returns (end: StepEnd)
      requires Valid() && first in depts
      modifies this
      ensures Valid() && posts == old(posts) && parents == old(parents)
      ensures depts == old(depts) - {first} + {first.(target := dept, primary := primary)}
      ensures Linked(depts, first.user, dept) && |OfUser(depts, first.user)| == |OfUser(old(depts), first.user)|
      ensures forall other :: other != first.user ==> OfUser(depts, other) == OfUser(old(depts), other)
      ensures OneWrite(old(outbox), outbox, UPDATE_DEPT)
      ensures OwnWriteDecides(old(outbox), outbox, UPDATE_DEPT, Some(UPDATE_DEPT), wait, processing.polled, old(lastOutboxRow), lastOutboxRow, end)
    {
      ghost var before := outbox;
      var cursor := MaxId(outbox);
      PutUserDept(first, dept, primary, suffix);
      end := WaitForWrite(before, cursor, UPDATE_DEPT, Some(UPDATE_DEPT), wait, processing);
    }

    /** `ensure_user_dept` for a user without relations: one is created. */
    method CreateUserDept(user: int, dept: int, primary: bool, wait: bool, suffix: string, processing: Processing) returns (end: StepEnd)
      requires Valid() && OfUser(depts, user) == {}
      modifies this
      ensures Valid() && posts == old(posts) && parents == old(parents)
      ensures Linked(depts, user, dept) && OfUser(depts, user) == {Relation(old(nextId), user, dept, primary)}
      ensures forall other :: other != user ==> OfUser(depts, other) == OfUser(old(depts), other)
      ensures OneWrite(old(outbox), outbox, CREATE_DEPT)
      ensures OwnWriteDecides(old(outbox), outbox, CREATE_DEPT, Some(CREATE_DEPT), wait, processing.polled, old(lastOutboxRow), lastOutboxRow, end)
    {
      ghost var before := outbox;
      var cursor := MaxId(outbox);
      PostUserDept(user, dept, primary, suffix);
      end := WaitForWrite(before, cursor, CREATE_DEPT, Some(CREATE_DEPT), wait, processing);
    }

    /**
     `ensure_user_dept`: afterwards the user is in the department with max(1, n) relations; a user
     who was already there causes no write and no wait.
     */
    method EnsureUserDept(user: int, dept: int, primary: bool, wait: bool, suffix: string, processing: Processing) returns (end: StepEnd)
      requires Valid()
      modifies this
      ensures Valid() && posts == old(posts) && parents == old(parents)
      ensures Linked(depts, user, dept)
      ensures |OfUser(depts, user)| == Max(1, |OfUser(old(depts), user)|)
      ensures forall other :: other != user ==> OfUser(depts, other) == OfUser(old(depts), other)
      ensures Linked(old(depts), user, dept) ==>
                end == Finished && depts == old(depts) && outbox == old(outbox) && lastOutboxRow == old(lastOutboxRow)
      ensures !Linked(old(depts), user, dept) ==>
                var operation := if OfUser(old(depts), user) == {} then CREATE_DEPT else UPDATE_DEPT;
                && OneWrite(old(outbox), outbox, operation)
                && OwnWriteDecides(old(outbox), outbox, operation, Some(operation), wait, processing.polled, old(lastOutboxRow), lastOutboxRow, end)
      ensures OfUser(old(depts), user) == {} ==> OfUser(depts, user) == {Relation(old(nextId), user, dept, primary)}
      ensures !Linked(old(depts), user, dept) && OfUser(old(depts), user) != {} ==>
                exists r :: FirstOfUser(old(depts), user, r) && depts == old(depts) - {r} + {r.(target := dept, primary := primary)}
    {
      var existing := FindRelation(depts, user, dept);
      if existing.Some? {
        LinkedHasRelations(depts, user, dept);
        return Finished;
      }
      var other := FindAnyOfUser(depts, user);
      if other.Some? {
        HasRelations(depts, other.value);
        end := RehangUserDept(other.value, dept, primary, wait, suffix, processing);
      } else {
        end := CreateUserDept(user, dept, primary, wait, suffix, processing);
      }
    }

    /** `api.post_user_post`. */
    method PostUserPost(user: int, post: int, primary: bool, suffix: string)
      requires Valid()
      modifies this`posts, this`outbox, this`nextId
      ensures Valid() && Linked(posts, user, post) && posts == old(posts) + {Relation(old(nextId), user, post, primary)}
      ensures |OfUser(posts, user)| == |OfUser(old(posts), user)| + 1
      ensures forall other :: other != user ==> OfUser(posts, other) == OfUser(old(posts), other)
      ensures OneWrite(old(outbox), outbox, CREATE_POST)
    {
      var r := Relation(nextId, user, post, primary);
      AddedRelation(posts, r);
      posts, nextId := posts + {r}, nextId + 1;
      AppendRow(CREATE_POST, suffix);
    }

    /** `ensure_user_post`: the filter is a parameter of the scenario, `create-post:` by default. */
    method EnsureUserPost(user: int, post: int, primary: bool, filter: Option<string>, wait: bool, suffix: string, processing: Processing)
      returns (end: StepEnd)
      requires Valid()
      modifies this
      ensures Valid() && depts == old(depts) && parents == old(parents)
      ensures Linked(posts, user, post)
      ensures forall other :: other != user ==> OfUser(posts, other) == OfUser(old(posts), other)
      ensures if Linked(old(posts), user, post)
              then end == Finished && posts == old(posts) && outbox == old(outbox) && lastOutboxRow == old(lastOutboxRow)
              else && OneWrite(old(outbox), outbox, CREATE_POST)
                   && OwnWriteDecides(old(outbox), outbox, CREATE_POST, filter, wait, processing.polled, old(lastOutboxRow), lastOutboxRow, end)
                   && |OfUser(posts, user)| == |OfUser(old(posts), user)| + 1
                   && posts == old(posts) + {Relation(old(nextId), user, post, primary)}
    {
      var existing := FindRelation(posts, user, post);
      if existing.Some? {
        return Finished;
      }
      ghost var before := outbox;
      var cursor := MaxId(outbox);
      PostUserPost(user, post, primary, suffix);
      end := WaitForWrite(before, cursor, CREATE_POST, filter, wait, processing);
    }

    /** `delete_user_dept`: by the given relation ids, else by department, which deletes one relation only. */
    method DeleteUserDept(user: int, relationIds: seq<nat>, dept: Option<int>, wait: bool, suffix: string, processing: Processing)
      returns (end: StepEnd)
      requires Valid()
      modifies this
      ensures Valid() && posts == old(posts) && parents == old(parents)
      ensures exists ids :: && Chosen(old(depts), user, relationIds, dept, ids)
                            && DeletionSpec(old(depts), depts, user, ids, old(outbox), outbox, DELETE_DEPT,
                                            wait, processing.polled, old(lastOutboxRow), lastOutboxRow, end)
      ensures relationIds == [] && dept.Some? ==>
                (!Linked(depts, user, dept.value) <==> |Between(old(depts), user, dept.value)| <= 1)
    {
      var ids := RelationIds(depts, user, relationIds, dept);
      if relationIds == [] && dept.Some? {
        DeletionByTarget(depts, user, dept.value, ids);
      }
      if ids == [] {
        assert depts - Deleted(depts, user, []) == depts;
        return Finished;
      }
      ghost var before := outbox;
      var cursor := MaxId(outbox);
      var gone := Deleted(depts, user, ids);
      depts := depts - gone;
      if gone != {} {
        AppendRow(DELETE_DEPT, suffix);
        end := WaitForWrite(before, cursor, DELETE_DEPT, Some(DELETE_DEPT), wait, processing);
      } else {
        end := WaitForNothing(cursor, DELETE_DEPT, wait, processing);
      }
    }

    /** `delete_user_post`: by the given relation ids, else by post, which deletes one relation only. */
    method DeleteUserPost(user: int, relationIds: seq<nat>, post: Option<int>, wait: bool, suffix: string, processing: Processing)
      returns (end: StepEnd)
      requires Valid()
      modifies this
      ensures Valid() && depts == old(depts) && parents == old(parents)
      ensures exists ids :: && Chosen(old(posts), user, relationIds, post, ids)
                            && DeletionSpec(old(posts), posts, user, ids, old(outbox), outbox, DELETE_POST,
                                            wait, processing.polled, old(lastOutboxRow), lastOutboxRow, end)
      ensures relationIds == [] && post.Some? ==>
                (!Linked(posts, user, post.value) <==> |Between(old(posts), user, post.value)| <= 1)
    {
      var ids := RelationIds(posts, user, relationIds, post);
      if relationIds == [] && post.Some? {
        DeletionByTarget(posts, user, post.value, ids);
      }
      if ids == [] {
        assert posts - Deleted(posts, user, []) == posts;
        return Finished;
      }
      ghost var before := outbox;
      var cursor := MaxId(outbox);
      var gone := Deleted(posts, user, ids);
      posts := posts - gone;
      if gone != {} {
        AppendRow(DELETE_POST, suffix);
        end := WaitForWrite(before, cursor, DELETE_POST, Some(DELETE_POST), wait, processing);
      } else {
        end := WaitForNothing(cursor, DELETE_POST, wait, processing);
      }
    }

    /** `get_dept_detail(...).get("parentId") or 0`. */
    function ParentOf(dept: int): int
      reads this`parents
    {
      if dept in parents then parents[dept] else 0
    }

    /**
     `move_dept`: moving to the present parent is an error, because the server would write nothing;
     so is a parent that is another one than asked for after the request (`actual`).
     */
    method MoveDept(dept: int, parent: int, actual: int, suffix: string) returns (end: MoveEnd)
      requires Valid()
      modifies this`parents, this`outbox
      ensures Valid()
      ensures end == if old(ParentOf(dept)) == parent then NoOp else if actual == parent then Moved else Diverged
      ensures end == NoOp <==> if dept in old(parents) then old(parents)[dept] == parent else parent == 0
      ensures end == NoOp ==> parents == old(parents) && outbox == old(outbox)
      ensures end != NoOp ==> && parents == old(parents)[dept := actual]
                              && if actual == old(ParentOf(dept)) then outbox == old(outbox) else OneWrite(old(outbox), outbox, MOVE)
    {
      var current := ParentOf(dept);
      if current == parent {
        return NoOp;
      }
      parents := parents[dept := actual];
      if actual != current {
        AppendRow(MOVE, suffix);
      }
      end := if ParentOf(dept) == parent then Moved else Diverged;
    }

    /**
     `ensure_dept_parent`: the no-op error of `move_dept` cannot happen, and the step ends without
     the wanted parent only by the other error.
     */
    method EnsureDeptParent(dept: int, parent: int, actual: int, wait: bool, suffix: string, processing: Processing) returns (end: StepEnd)
      requires Valid()
      modifies this
      ensures Valid() && depts == old(depts) && posts == old(posts)
      ensures end != MoveFailed(NoOp) && (ParentOf(dept) == parent <==> end != MoveFailed(Diverged))
      ensures forall d :: d != dept ==> ParentOf(d) == old(ParentOf(d))
      ensures old(ParentOf(dept)) != parent ==> (end == MoveFailed(Diverged) <==> actual != parent)
      ensures end.MoveFailed? ==> lastOutboxRow == old(lastOutboxRow)
      ensures if old(ParentOf(dept)) == parent
              then end == Finished && parents == old(parents) && outbox == old(outbox) && lastOutboxRow == old(lastOutboxRow)
              else actual == parent ==>
                     && OneWrite(old(outbox), outbox, MOVE)
                     && OwnWriteDecides(old(outbox), outbox, MOVE, Some(MOVE), wait, processing.polled, old(lastOutboxRow), lastOutboxRow, end)
    {
      if ParentOf(dept) == parent {
        return Finished;
      }
      ghost var before := outbox;
      var cursor := MaxId(outbox);
      var moved := MoveDept(dept, parent, actual, suffix);
      if moved != Moved {
        return MoveFailed(moved);
      }
      end := WaitForWrite(before, cursor, MOVE, Some(MOVE), wait, processing);
    }
  }

  /** How `move_dept` ends: its two RuntimeErrors, or well. */
  datatype MoveEnd = NoOp | Moved | Diverged

  /** Row `i` takes the i-th status, unless there is none or the row is terminal. */
  function Progressed(t: Table, progress: seq<Status>): (r: Table)
    ensures |r| == |t| && Evolves(t, r)
    ensures forall i :: 0 <= i < |t| && i < |progress| && t[i].status.InFlight? ==> r[i].status == progress[i]
  {
    seq(|t|, i requires 0 <= i < |t| =>
      if i < |progress| && !t[i].status.Terminal() then t[i].(status := progress[i]) else t[i])
  }

  /** Processing keeps a write a write. */
  lemma WriteProgresses(before: Table, written: Table, after: Table, operation: string)
    requires OneWrite(before, written, operation)
    requires |after| == |written| && Ordered(after) && Evolves(written, after)
    ensures OneWrite(before, after, operation)
  {
  }

  lemma HasRelations(rs: Relations, r: Relation)
    requires r in rs
    ensures OfUser(rs, r.user) != {} && |OfUser(rs, r.user)| >= 1
  {
    assert r in OfUser(rs, r.user);
  }

  lemma LinkedHasRelations(rs: Relations, user: int, target: int)
    requires Linked(rs, user, target)
    ensures |OfUser(rs, user)| >= 1
  {
    var r :| r in rs && r.user == user && r.target == target;
    assert r in OfUser(rs, user);
  }
}

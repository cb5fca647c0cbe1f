/**
 When the subject queries of `auth_harness/domain/impact.py` find every user whose codes a
 replacement of grants changes: exact conditions on the grants and memberships.
 */
module GrantCoverage {
  import opened AuthGraph

  // ---------------------------------------------------------------------------------------
  // Codes by where they come from
  // ---------------------------------------------------------------------------------------

  /** The enabled roles user `u` has through subjects in `via`. */
  function RolesThrough(db: Tables, u: int, via: set<Subject>): set<Role> {
    set gt, r | gt in db.grants && r in db.roles && gt.subject in UserSubjects(db, u) && gt.subject in via && r.id == gt.roleId && r.status == 1 :: r
  }

  /** The enabled roles user `u` has through other subjects. */
  function RolesElsewhere(db: Tables, u: int, via: set<Subject>): set<Role> {
    set gt, r | gt in db.grants && r in db.roles && gt.subject in UserSubjects(db, u) && gt.subject !in via && r.id == gt.roleId && r.status == 1 :: r
  }

  function AllEnabled(db: Tables): set<Role> {
    set r | r in db.roles && r.status == 1
  }

  function RoleCodes(rs: set<Role>): set<string> {
    set r | r in rs :: r.code
  }

  function PermissionCodes(db: Tables, rs: set<Role>): set<string> {
    set rp, r, p | rp in db.rolePermissions && r in rs && p in db.permissions
                   && rp.roleId == r.id && p.id == rp.permissionId && p.status == 1 :: p.code
  }

  /** The roles `rs` add neither a role code nor a permission code to those of `others`. */
  predicate AddNothing(db: Tables, rs: set<Role>, others: set<Role>) {
    RoleCodes(rs) <= RoleCodes(others) && PermissionCodes(db, rs) <= PermissionCodes(db, others)
  }

  lemma CodesOfUnion(db: Tables, a: set<Role>, b: set<Role>)
    ensures RoleCodes(a + b) == RoleCodes(a) + RoleCodes(b)
    ensures PermissionCodes(db, a + b) == PermissionCodes(db, a) + PermissionCodes(db, b)
  {
  }

  /** The oracle of a user is what the two kinds of subjects give together. */
  lemma OracleSplits(db: Tables, u: int, via: set<Subject>)
    ensures OracleRoles(db, u) == RoleCodes(RolesElsewhere(db, u, via)) + RoleCodes(RolesThrough(db, u, via))
    ensures OraclePermissions(db, u) == PermissionCodes(db, RolesElsewhere(db, u, via)) + PermissionCodes(db, RolesThrough(db, u, via))
  {
    var e, t := RolesElsewhere(db, u, via), RolesThrough(db, u, via);
    assert EnabledRoles(db, u) == e + t;
    CodesOfUnion(db, e, t);
    assert OracleRoles(db, u) == RoleCodes(e + t);
    assert OraclePermissions(db, u) == PermissionCodes(db, e + t);
  }

  /** A change of the grants of `changed` leaves what comes from elsewhere. */
  lemma ElsewhereIsKept(a: Tables, b: Tables, changed: set<Subject>, u: int)
    requires OnlyGrantsOf(a, b, changed)
    ensures RolesElsewhere(b, u, changed) == RolesElsewhere(a, u, changed)
  {
    assert UserSubjects(a, u) == UserSubjects(b, u);
  }

  lemma SamePermissionCodes(a: Tables, b: Tables, rs: set<Role>)
    requires b == a.(grants := b.grants)
    ensures PermissionCodes(b, rs) == PermissionCodes(a, rs)
  {
  }

  /** So the codes differ exactly when the roles through `changed` make a difference to those from elsewhere. */
  lemma DifferByThrough(a: Tables, b: Tables, changed: set<Subject>, u: int, e: set<Role>, x: set<Role>, y: set<Role>)
    requires OnlyGrantsOf(a, b, changed)
    requires e == RolesElsewhere(a, u, changed) && x == RolesThrough(a, u, changed) && y == RolesThrough(b, u, changed)
    ensures CodesDiffer(a, b, u)
       <==> || RoleCodes(e) + RoleCodes(x) != RoleCodes(e) + RoleCodes(y)
            || PermissionCodes(a, e) + PermissionCodes(a, x) != PermissionCodes(a, e) + PermissionCodes(a, y)
  {
    ElsewhereIsKept(a, b, changed, u);
    OracleSplits(a, u, changed);
    OracleSplits(b, u, changed);
    SamePermissionCodes(a, b, e);
    SamePermissionCodes(a, b, y);
  }

  /** Codes that are there already make no difference, and against none they make one exactly when they are new. */
  lemma UnionsByInclusion<T>(e: set<T>, x: set<T>, y: set<T>)
    ensures x <= e && y <= e ==> e + x == e + y
    ensures y == {} ==> (e + x == e + y <==> x <= e)
  {
  }

  // ---------------------------------------------------------------------------------------
  // GRANT_USER
  // ---------------------------------------------------------------------------------------

  ghost predicate HasDirectGrant(db: Tables, u: int) {
    exists g: Grant :: g in db.grants && g.subject == Subject(USER, u)
  }

  /** Every code the direct grants of the user give is also given by a department or a post. */
  predicate DirectGrantsAddNothing(db: Tables, u: int) {
    AddNothing(db, RolesThrough(db, u, {Subject(USER, u)}), RolesElsewhere(db, u, {Subject(USER, u)}))
  }

  lemma OnlyOwnUserSubject(db: Tables, ids: set<int>, u: int)
    requires u in ids
    ensures var changed := set i | i in ids :: Subject(USER, i);
            && RolesThrough(db, u, changed) == RolesThrough(db, u, {Subject(USER, u)})
            && RolesElsewhere(db, u, changed) == RolesElsewhere(db, u, {Subject(USER, u)})
  {
    var changed := set i | i in ids :: Subject(USER, i);
    forall s: Subject ensures s in UserSubjects(db, u) ==> (s in changed <==> s == Subject(USER, u)) {
      SubjectOfUser(db, s, u);
    }
  }

  lemma SubjectOfUser(db: Tables, s: Subject, u: int)
    ensures s in UserSubjects(db, u) && s.subjectType == USER ==> s == Subject(USER, u)
  {
  }

  /** A user left without direct grants keeps the codes exactly when the old direct grants added nothing. */
  lemma ClearedUserChangesIff(a: Tables, b: Tables, ids: set<int>, u: int)
    requires OnlyGrantsOf(a, b, set i | i in ids :: Subject(USER, i)) && u in ids && !HasDirectGrant(b, u)
    ensures CodesDiffer(a, b, u) <==> !DirectGrantsAddNothing(a, u)
  {
    var changed := set i | i in ids :: Subject(USER, i);
    OnlyOwnUserSubject(a, ids, u);
    OnlyOwnUserSubject(b, ids, u);
    var e, x, y := RolesElsewhere(a, u, changed), RolesThrough(a, u, changed), RolesThrough(b, u, changed);
    DifferByThrough(a, b, changed, u, e, x, y);
    assert y == {} && RoleCodes(y) == {} && PermissionCodes(a, y) == {};
    UnionsByInclusion(RoleCodes(e), RoleCodes(x), RoleCodes(y));
    UnionsByInclusion(PermissionCodes(a, e), PermissionCodes(a, x), PermissionCodes(a, y));
  }

  lemma CoverageAfter(a: Tables, b: Tables, ids: set<int>)
    requires OnlyGrantsOf(a, b, set i | i in ids :: Subject(USER, i))
    ensures (forall u :: CodesDiffer(a, b, u) ==> u in GrantUserImpact(b, ids))
       <==> (forall u :: u in ids && !HasDirectGrant(b, u) ==> DirectGrantsAddNothing(a, u))
  {
    forall u ensures u in GrantUserImpact(b, ids) <==> u in ids && HasDirectGrant(b, u) {
      GrantUserImpactIsHolders(b, ids, u);
    }
    forall u | CodesDiffer(a, b, u) ensures u in ids {
      GrantUserFrame(a, b, ids, u);
    }
    forall u | u in ids && !HasDirectGrant(b, u) ensures CodesDiffer(a, b, u) <==> !DirectGrantsAddNothing(a, u) {
      ClearedUserChangesIff(a, b, ids, u);
    }
  }

  /**
   One state is not enough for GRANT_USER.  The query run after the change covers every user whose
   codes changed if and only if, for every user left without a direct grant, all codes of the old
   direct grants also come from departments or posts; the query run before it does if and only if
   the same holds of the new direct grants of every user who had none.
   */
  lemma GrantUserCoverage(a: Tables, b: Tables, ids: set<int>)
    requires OnlyGrantsOf(a, b, set i | i in ids :: Subject(USER, i))
    ensures (forall u :: CodesDiffer(a, b, u) ==> u in GrantUserImpact(b, ids))
       <==> (forall u :: u in ids && !HasDirectGrant(b, u) ==> DirectGrantsAddNothing(a, u))
    ensures (forall u :: CodesDiffer(a, b, u) ==> u in GrantUserImpact(a, ids))
       <==> (forall u :: u in ids && !HasDirectGrant(a, u) ==> DirectGrantsAddNothing(b, u))
  {
    CoverageAfter(a, b, ids);
    assert OnlyGrantsOf(b, a, set i | i in ids :: Subject(USER, i));
    CoverageAfter(b, a, ids);
    forall u ensures CodesDiffer(a, b, u) == CodesDiffer(b, a, u) {
    }
  }

  // ---------------------------------------------------------------------------------------
  // GRANT_DEPT
  // ---------------------------------------------------------------------------------------

  function DeptSubjects(ids: set<int>): set<Subject> {
    set i | i in ids :: Subject(DEPT, i)
  }

  /** The user belongs to a department below one of `ids`. */
  ghost predicate MemberBelow(db: Tables, ids: set<int>, u: int) {
    exists i :: i in ids && AppliesTo(db, Subject(DEPT, i), u)
  }

  /** The user belongs to a department below one of `ids` that has a `sys_dept` row. */
  ghost predicate MemberBelowExisting(db: Tables, ids: set<int>, u: int) {
    exists i, d :: i in ids && UserDept(u, d) in db.userDepts && Closure(i, d) in db.closure && d in db.depts
  }

  /** Whatever role could be granted to `ids`, the user has its codes from other subjects. */
  predicate HoldsAllElsewhere(db: Tables, ids: set<int>, u: int) {
    AddNothing(db, AllEnabled(db), RolesElsewhere(db, u, DeptSubjects(ids)))
  }

  lemma GrantDeptImpactIsExistingMembers(db: Tables, ids: set<int>, u: int)
    ensures u in GrantDeptImpact(db, ids) <==> MemberBelowExisting(db, ids, u)
  {
    if u in GrantDeptImpact(db, ids) {
      var ud, dc :| ud in db.userDepts && dc in db.closure && ud.deptId == dc.descendantId
                    && dc.descendantId in db.depts && dc.ancestorId in ids && ud.userId == u;
      assert ud == UserDept(u, ud.deptId) && dc == Closure(dc.ancestorId, ud.deptId);
    }
    if MemberBelowExisting(db, ids, u) {
      var i, d :| i in ids && UserDept(u, d) in db.userDepts && Closure(i, d) in db.closure && d in db.depts;
      var ud, dc := UserDept(u, d), Closure(i, d);
      assert ud.deptId == dc.descendantId && dc.ancestorId in ids;
    }
  }

  /** A user below none of `ids` keeps the codes. */
  lemma OutsiderKeepsCodes(a: Tables, b: Tables, ids: set<int>, u: int)
    requires OnlyGrantsOf(a, b, DeptSubjects(ids)) && !MemberBelow(a, ids, u)
    ensures !CodesDiffer(a, b, u)
  {
    forall s: Subject | s in DeptSubjects(ids) ensures !AppliesTo(a, s, u) {
      assert s.id in ids && s == Subject(DEPT, s.id);
    }
    GrantFrame(a, b, DeptSubjects(ids), u);
  }

  /** Roles that add nothing leave the codes as they are. */
  lemma HolderKeepsCodes(a: Tables, b: Tables, ids: set<int>, u: int)
    requires OnlyGrantsOf(a, b, DeptSubjects(ids)) && HoldsAllElsewhere(a, ids, u)
    ensures !CodesDiffer(a, b, u)
  {
    var changed := DeptSubjects(ids);
    var e, x, y := RolesElsewhere(a, u, changed), RolesThrough(a, u, changed), RolesThrough(b, u, changed);
    DifferByThrough(a, b, changed, u, e, x, y);
    PartAddsNothing(a, x, AllEnabled(a), e);
    PartAddsNothing(a, y, AllEnabled(a), e);
    UnionsByInclusion(RoleCodes(e), RoleCodes(x), RoleCodes(y));
    UnionsByInclusion(PermissionCodes(a, e), PermissionCodes(a, x), PermissionCodes(a, y));
  }

  lemma PartAddsNothing(db: Tables, part: set<Role>, rs: set<Role>, others: set<Role>)
    requires part <= rs && AddNothing(db, rs, others)
    ensures AddNothing(db, part, others)
  {
    assert rs == part + rs;
    CodesOfUnion(db, part, rs);
  }

  /** The grants of `ids` cleared. */
  function Cleared(a: Tables, ids: set<int>): Tables {
    a.(grants := set g | g in a.grants && g.subject !in DeptSubjects(ids))
  }

  /** All roles granted to department `i`, and nothing else to `ids`. */
  function AllGranted(a: Tables, ids: set<int>, i: int): Tables {
    Cleared(a, ids).(grants := Cleared(a, ids).grants + set r | r in a.roles :: Grant(Subject(DEPT, i), r.id))
  }

  lemma AllRolesGranted(a: Tables, ids: set<int>, i: int, u: int)
    requires i in ids && AppliesTo(a, Subject(DEPT, i), u)
    ensures RolesThrough(AllGranted(a, ids, i), u, DeptSubjects(ids)) == AllEnabled(a)
  {
    var all := AllGranted(a, ids, i);
    var s := Subject(DEPT, i);
    var d :| UserDept(u, d) in a.userDepts && Closure(i, d) in a.closure;
    var ud, dc := UserDept(u, d), Closure(i, d);
    assert ud in all.userDepts && dc in all.closure && ud.deptId == dc.descendantId && Subject(DEPT, dc.ancestorId) == s;
    assert s in UserSubjects(all, u);
    forall r | r in AllEnabled(a) ensures r in RolesThrough(all, u, DeptSubjects(ids)) {
      var gt := Grant(s, r.id);
      assert gt in all.grants && gt.subject in UserSubjects(all, u);
    }
  }

  /** If neither clearing the grants nor granting everything changes the codes of a member, the member holds every code elsewhere. */
  lemma UntouchedMemberHoldsAll(a: Tables, ids: set<int>, i: int, u: int)
    requires i in ids && AppliesTo(a, Subject(DEPT, i), u)
    requires !CodesDiffer(a, Cleared(a, ids), u) && !CodesDiffer(a, AllGranted(a, ids, i), u)
    ensures HoldsAllElsewhere(a, ids, u)
  {
    var changed, none, all := DeptSubjects(ids), Cleared(a, ids), AllGranted(a, ids, i);
    var e, r := RolesElsewhere(a, u, changed), AllEnabled(a);
    ElsewhereIsKept(a, none, changed, u);
    AllRolesGranted(a, ids, i, u);
    assert RolesThrough(none, u, changed) == {};
    assert !CodesDiffer(all, none, u);
    ElsewhereIsKept(a, all, changed, u);
    DifferByThrough(all, none, changed, u, e, r, {});
    SamePermissionCodes(a, all, e);
    SamePermissionCodes(a, all, r);
    assert RoleCodes({}) == {} && PermissionCodes(all, {}) == {};
    UnionsByInclusion(RoleCodes(e), RoleCodes(r), {});
    UnionsByInclusion(PermissionCodes(a, e), PermissionCodes(a, r), {});
  }

  /**
   The GRANT_DEPT query covers every change of the grants of `ids` if and only if every user below
   one of them belongs to such a department with a `sys_dept` row, or has every code that could be
   granted from other subjects.
   */
  lemma GrantDeptCoverageIff(a: Tables, ids: set<int>)
    ensures (forall b, u :: OnlyGrantsOf(a, b, DeptSubjects(ids)) && CodesDiffer(a, b, u) ==> u in GrantDeptImpact(a, ids))
       <==> (forall u :: MemberBelow(a, ids, u) ==> MemberBelowExisting(a, ids, u) || HoldsAllElsewhere(a, ids, u))
  {
    forall u ensures u in GrantDeptImpact(a, ids) <==> MemberBelowExisting(a, ids, u) {
      GrantDeptImpactIsExistingMembers(a, ids, u);
    }
    forall b, u | OnlyGrantsOf(a, b, DeptSubjects(ids)) && CodesDiffer(a, b, u)
      ensures MemberBelow(a, ids, u) && !HoldsAllElsewhere(a, ids, u)
    {
      if !MemberBelow(a, ids, u) {
        OutsiderKeepsCodes(a, b, ids, u);
      }
      if HoldsAllElsewhere(a, ids, u) {
        HolderKeepsCodes(a, b, ids, u);
      }
    }
    if forall b, u :: OnlyGrantsOf(a, b, DeptSubjects(ids)) && CodesDiffer(a, b, u) ==> u in GrantDeptImpact(a, ids) {
      forall u | MemberBelow(a, ids, u) && !MemberBelowExisting(a, ids, u) ensures HoldsAllElsewhere(a, ids, u) {
        var i :| i in ids && AppliesTo(a, Subject(DEPT, i), u);
        assert OnlyGrantsOf(a, Cleared(a, ids), DeptSubjects(ids)) && OnlyGrantsOf(a, AllGranted(a, ids, i), DeptSubjects(ids));
        UntouchedMemberHoldsAll(a, ids, i, u);
      }
    }
  }
}

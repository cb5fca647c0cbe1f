/**
 The authorization graph: the forward oracle queries of `auth_harness/infrastructure/db.py` and
 the reverse impact queries of `auth_harness/domain/impact.py`, over tables as sets of rows.
 */
module AuthGraph {
  import opened Wrappers

  datatype SubjectType = USER | DEPT | POST

  datatype Subject = Subject(subjectType: SubjectType, id: int)

  datatype Grant = Grant(subject: Subject, roleId: int)

  datatype UserDept = UserDept(userId: int, deptId: int)

  datatype UserPost = UserPost(userId: int, postId: int)

  datatype Closure = Closure(ancestorId: int, descendantId: int)

  datatype Role = Role(id: int, code: string, status: int)

  datatype RolePermission = RolePermission(roleId: int, permissionId: int)

  datatype Permission = Permission(id: int, code: string, status: int)

  datatype Tables = Tables(
    grants: set<Grant>,
    userDepts: set<UserDept>,
    userPosts: set<UserPost>,
    closure: set<Closure>,
    depts: set<int>,
    roles: set<Role>,
    rolePermissions: set<RolePermission>,
    permissions: set<Permission>)

  // ---------------------------------------------------------------------------------------
  // The forward queries
  // ---------------------------------------------------------------------------------------

  /** The CTE `user_subjects`. */
  function UserSubjects(db: Tables, u: int): set<Subject> {
    {Subject(USER, u)}
    + (set ud, dc | ud in db.userDepts && dc in db.closure && ud.deptId == dc.descendantId && ud.userId == u ::
         Subject(DEPT, dc.ancestorId))
    + (set up | up in db.userPosts && up.userId == u :: Subject(POST, up.postId))
  }

  /** The grants that join a subject of the user with an enabled role. */
  function EnabledRoles(db: Tables, u: int): set<Role> {
    set gt, r | gt in db.grants && r in db.roles && gt.subject in UserSubjects(db, u) && r.id == gt.roleId && r.status == 1 :: r
  }

  /** `ORACLE_ROLES_SQL`. */
  function OracleRoles(db: Tables, u: int): set<string> {
    set r | r in EnabledRoles(db, u) :: r.code
  }

  /** `ORACLE_PERMISSIONS_SQL`. */
  function OraclePermissions(db: Tables, u: int): set<string> {
    set rp, r, p | rp in db.rolePermissions && r in EnabledRoles(db, u) && p in db.permissions
                   && rp.roleId == r.id && p.id == rp.permissionId && p.status == 1 :: p.code
  }

  /** The oracle of a user differs between two states. */
  predicate CodesDiffer(a: Tables, b: Tables, u: int) {
    OracleRoles(a, u) != OracleRoles(b, u) || OraclePermissions(a, u) != OraclePermissions(b, u)
  }

  /** `list_dept_user_ids`. */
  function DeptUserIds(db: Tables, d: int): set<int> {
    set ud, dc | ud in db.userDepts && dc in db.closure && ud.deptId == dc.descendantId && dc.ancestorId == d :: ud.userId
  }

  // ---------------------------------------------------------------------------------------
  // The reverse queries
  // ---------------------------------------------------------------------------------------

  /** `SQL_GRANT_USER`. */
  function GrantUserImpact(db: Tables, ids: set<int>): set<int> {
    set gt | gt in db.grants && gt.subject.subjectType == USER && gt.subject.id in ids :: gt.subject.id
  }

  /** `SQL_GRANT_DEPT`. */
  function GrantDeptImpact(db: Tables, ids: set<int>): set<int> {
    set ud, dc | ud in db.userDepts && dc in db.closure && ud.deptId == dc.descendantId
                 && dc.descendantId in db.depts && dc.ancestorId in ids :: ud.userId
  }

  /** `SQL_GRANT_POST`. */
  function GrantPostImpact(db: Tables, ids: set<int>): set<int> {
    set up | up in db.userPosts && up.postId in ids :: up.userId
  }

  /** First branch of `SQL_BY_ROLE_CODES`: direct grants. */
  function RoleDirectUsers(db: Tables, codes: set<string>): set<int> {
    set gt, r | gt in db.grants && r in db.roles && r.id == gt.roleId && gt.subject.subjectType == USER && r.code in codes ::
      gt.subject.id
  }

  /** Second branch: members of the granted departments' subtrees. */
  function RoleDeptUsers(db: Tables, codes: set<string>): set<int> {
    set gt, r, ud, dc | gt in db.grants && r in db.roles && ud in db.userDepts && dc in db.closure
                        && r.id == gt.roleId && gt.subject.subjectType == DEPT && ud.deptId == dc.descendantId
                        && dc.ancestorId == gt.subject.id && dc.descendantId in db.depts && r.code in codes ::
      ud.userId
  }

  /** Third branch: holders of the granted posts. */
  function RolePostUsers(db: Tables, codes: set<string>): set<int> {
    set gt, r, up | gt in db.grants && r in db.roles && up in db.userPosts && r.id == gt.roleId
                    && gt.subject.subjectType == POST && up.postId == gt.subject.id && r.code in codes ::
      up.userId
  }

  /** `SQL_BY_ROLE_CODES`: no branch looks at the role's status. */
  function RoleImpact(db: Tables, codes: set<string>): set<int> {
    RoleDirectUsers(db, codes) + RoleDeptUsers(db, codes) + RolePostUsers(db, codes)
  }

  datatype ImpactError = UnknownKind | NeedsRoleCodes | NeedsSubjectIds

  /** `str.upper` on ASCII letters. */
  function Upper(s: string): string {
    seq(|s|, i requires 0 <= i < |s| => if 'a' <= s[i] <= 'z' then s[i] - 'a' + 'A' else s[i])
  }

  /** `resolve_impacted_user_ids`. */
  function ResolveImpactedUserIds(db: Tables, kind: string, subjectIds: seq<int>, roleCodes: seq<string>): Result<set<int>, ImpactError> {
    var k := Upper(kind);
    if k !in {"GRANT_USER", "GRANT_DEPT", "GRANT_POST", "ROLE"} then Err(UnknownKind)
    else if k == "ROLE" then
      if roleCodes == [] then Err(NeedsRoleCodes) else Ok(RoleImpact(db, set c | c in roleCodes))
    else if subjectIds == [] then Err(NeedsSubjectIds)
    else
      var ids := set i | i in subjectIds;
      Ok(if k == "GRANT_USER" then GrantUserImpact(db, ids)
         else if k == "GRANT_DEPT" then GrantDeptImpact(db, ids)
         else GrantPostImpact(db, ids))
  }

  // ---------------------------------------------------------------------------------------
  // Reaching: the relation both directions are about
  // ---------------------------------------------------------------------------------------

  /** Grants on subject `s` apply to user `u`. */
  ghost predicate AppliesTo(db: Tables, s: Subject, u: int) {
    match s.subjectType
    case USER => s.id == u
    case DEPT => exists d :: UserDept(u, d) in db.userDepts && Closure(s.id, d) in db.closure
    case POST => UserPost(u, s.id) in db.userPosts
  }

  /** Role `r` is granted to a subject that applies to `u`. */
  ghost predicate Reaches(db: Tables, r: Role, u: int) {
    r in db.roles && exists s: Subject :: Grant(s, r.id) in db.grants && AppliesTo(db, s, u)
  }

  /** Every department a user belongs to exists. */
  predicate DeptsExist(db: Tables) {
    forall ud :: ud in db.userDepts ==> ud.deptId in db.depts
  }

  /** The enabled roles of the oracle are the enabled roles that reach the user. */
  lemma EnabledRolesReach(db: Tables, r: Role, u: int)
    ensures r in EnabledRoles(db, u) <==> r.status == 1 && Reaches(db, r, u)
  {
  }

  /** The oracle's permission codes are those of enabled permissions of enabled roles that reach the user. */
  lemma PermissionsReach(db: Tables, c: string, u: int)
    ensures c in OraclePermissions(db, u)
       <==> exists r: Role, p: Permission :: && r.status == 1 && Reaches(db, r, u) && RolePermission(r.id, p.id) in db.rolePermissions
                           && p in db.permissions && p.status == 1 && p.code == c
  {
    if c in OraclePermissions(db, u) {
      var rp, r, p :| rp in db.rolePermissions && r in EnabledRoles(db, u) && p in db.permissions
                      && rp.roleId == r.id && p.id == rp.permissionId && p.status == 1 && p.code == c;
      EnabledRolesReach(db, r, u);
      assert rp == RolePermission(r.id, p.id);
    }
    if r: Role, p: Permission :|
      && r.status == 1 && Reaches(db, r, u) && RolePermission(r.id, p.id) in db.rolePermissions
      && p in db.permissions && p.status == 1 && p.code == c
    {
      EnabledRolesReach(db, r, u);
      var rp := RolePermission(r.id, p.id);
      assert rp.roleId == r.id && p.id == rp.permissionId;
    }
  }

  /** The users listed for a department are those the department's grants apply to. */
  lemma DeptUsersAreMembers(db: Tables, d: int, u: int)
    ensures u in DeptUserIds(db, d) <==> AppliesTo(db, Subject(DEPT, d), u)
    ensures u in DeptUserIds(db, d) <==> exists x :: UserDept(u, x) in db.userDepts && Closure(d, x) in db.closure
  {
    if u in DeptUserIds(db, d) {
      var ud, dc :| ud in db.userDepts && dc in db.closure && ud.deptId == dc.descendantId && dc.ancestorId == d && ud.userId == u;
      assert ud == UserDept(u, ud.deptId) && dc == Closure(d, ud.deptId);
    }
    if x :| UserDept(u, x) in db.userDepts && Closure(d, x) in db.closure {
      var ud, dc := UserDept(u, x), Closure(d, x);
      assert ud.deptId == dc.descendantId && dc.ancestorId == d;
    }
  }

  /** The reverse query by role codes finds exactly the users a role with such a code reaches. */
  lemma RoleImpactIsReach(db: Tables, codes: set<string>, u: int)
    requires DeptsExist(db)
    ensures u in RoleImpact(db, codes) <==> exists r: Role :: r.code in codes && Reaches(db, r, u)
  {
  }

  lemma RoleImpactReaches(db: Tables, codes: set<string>, u: int)
    requires u in RoleImpact(db, codes)
    ensures exists r: Role :: r.code in codes && Reaches(db, r, u)
  {
  }

  lemma ReachedIsImpacted(db: Tables, codes: set<string>, r: Role, u: int)
    requires DeptsExist(db) && r.code in codes && Reaches(db, r, u)
    ensures u in RoleImpact(db, codes)
  {
  }

  /**
   Oracle and impact are dual.  A role code of the oracle is a code of an enabled role that
   reaches the user; the user is then impacted by that code; and the converse holds when every
   role with that code is enabled.
   */
  lemma OracleAndImpactAreDual(db: Tables, c: string, u: int)
    requires DeptsExist(db)
    ensures c in OracleRoles(db, u) <==> exists r: Role :: r.code == c && r.status == 1 && Reaches(db, r, u)
    ensures c in OracleRoles(db, u) ==> u in RoleImpact(db, {c})
    ensures (forall r :: r in db.roles && r.code == c ==> r.status == 1) && u in RoleImpact(db, {c}) ==> c in OracleRoles(db, u)
  {
    if c in OracleRoles(db, u) {
      var r :| r in EnabledRoles(db, u) && r.code == c;
      EnabledRolesReach(db, r, u);
      ReachedIsImpacted(db, {c}, r, u);
    }
    if r: Role :| r.code == c && r.status == 1 && Reaches(db, r, u) {
      EnabledRolesReach(db, r, u);
    }
    if u in RoleImpact(db, {c}) {
      RoleImpactReaches(db, {c}, u);
      var r: Role :| r.code in {c} && Reaches(db, r, u);
      EnabledRolesReach(db, r, u);
    }
  }

  // ---------------------------------------------------------------------------------------
  // Frame theorems: who can be affected by a change
  // ---------------------------------------------------------------------------------------

  /** The two states differ at most in the grants whose subject is in `changed`. */
  ghost predicate OnlyGrantsOf(a: Tables, b: Tables, changed: set<Subject>) {
    && b == a.(grants := b.grants)
    && forall g: Grant :: g.subject !in changed ==> (g in a.grants <==> g in b.grants)
  }

  /** Users no changed subject applies to keep their codes. */
  lemma GrantFrame(a: Tables, b: Tables, changed: set<Subject>, u: int)
    requires OnlyGrantsOf(a, b, changed)
    requires forall s: Subject :: s in changed && AppliesTo(a, s, u) ==>
               forall g: Grant :: g.subject == s ==> (g in a.grants <==> g in b.grants)
    ensures !CodesDiffer(a, b, u)
  {
  }

  /** One user, one enabled role, no grant yet. */
  const UNGRANTED := Tables({}, {}, {}, {}, {}, {Role(7, "R", 1)}, {}, {})

  /** Replacing the grants of departments only changes codes of users in the GRANT_DEPT set. */
  lemma GrantDeptFrame(a: Tables, b: Tables, ids: set<int>, u: int)
    requires OnlyGrantsOf(a, b, set i | i in ids :: Subject(DEPT, i)) && DeptsExist(a)
    requires CodesDiffer(a, b, u)
    ensures u in GrantDeptImpact(a, ids) && u in GrantDeptImpact(b, ids)
  {
  }

  /** A member of a department without a `sys_dept` row is granted codes but not found by the query. */
  lemma MemberOfMissingDeptIsMissed()
    ensures var after := UNGRANTED.(grants := {Grant(Subject(DEPT, 5), 7)}, userDepts := {UserDept(1, 5)}, closure := {Closure(5, 5)});
            && OnlyGrantsOf(after.(grants := {}), after, {Subject(DEPT, 5)})
            && CodesDiffer(after.(grants := {}), after, 1)
            && GrantDeptImpact(after, {5}) == {} && !DeptsExist(after)
  {
    var after := UNGRANTED.(grants := {Grant(Subject(DEPT, 5), 7)}, userDepts := {UserDept(1, 5)}, closure := {Closure(5, 5)});
    var r := Role(7, "R", 1);
    assert UserDept(1, 5) in after.userDepts && Closure(5, 5) in after.closure;
    assert Grant(Subject(DEPT, 5), r.id) in after.grants && AppliesTo(after, Subject(DEPT, 5), 1);
    EnabledRolesReach(after, r, 1);
    assert r in EnabledRoles(after, 1) && r.code in OracleRoles(after, 1);
    assert OracleRoles(after.(grants := {}), 1) == {};
  }

  /** Replacing the grants of posts only changes codes of users in the GRANT_POST set. */
  lemma GrantPostFrame(a: Tables, b: Tables, ids: set<int>, u: int)
    requires OnlyGrantsOf(a, b, set i | i in ids :: Subject(POST, i))
    requires CodesDiffer(a, b, u)
    ensures u in GrantPostImpact(a, ids) && u in GrantPostImpact(b, ids)
  {
  }

  /** The users with a direct grant: what the GRANT_USER query can see of `ids`. */
  lemma GrantUserImpactIsHolders(db: Tables, ids: set<int>, u: int)
    ensures u in GrantUserImpact(db, ids) <==> u in ids && exists g: Grant :: g in db.grants && g.subject == Subject(USER, u)
  {
  }

  /**
   Replacing the grants of users only changes codes of users in the GRANT_USER set of the state
   before or of the state after.
   */
  lemma GrantUserFrame(a: Tables, b: Tables, ids: set<int>, u: int)
    requires OnlyGrantsOf(a, b, set i | i in ids :: Subject(USER, i))
    requires CodesDiffer(a, b, u)
    ensures u in ids
    ensures u in GrantUserImpact(a, ids) + GrantUserImpact(b, ids)
  {
  }

  /** `kind` is `name` in any mixture of cases. */
  predicate Spells(kind: string, name: string) {
    && |kind| == |name|
    && forall i :: 0 <= i < |kind| ==> kind[i] == name[i] || ('A' <= name[i] <= 'Z' && kind[i] == name[i] - 'A' + 'a')
  }

  /** No lower-case letter. */
  predicate AllCaps(name: string) {
    forall i :: 0 <= i < |name| ==> !('a' <= name[i] <= 'z')
  }

  lemma UpperIsSpelling(kind: string, name: string)
    requires AllCaps(name)
    ensures Upper(kind) == name <==> Spells(kind, name)
  {
    if Spells(kind, name) {
      forall i | 0 <= i < |kind| ensures Upper(kind)[i] == name[i] {
      }
    }
    if Upper(kind) == name {
      forall i | 0 <= i < |kind| ensures kind[i] == name[i] || ('A' <= name[i] <= 'Z' && kind[i] == name[i] - 'A' + 'a') {
        assert Upper(kind)[i] == name[i];
      }
    }
  }

  lemma KindNames(kind: string)
    ensures Upper(kind) == "ROLE" <==> Spells(kind, "ROLE")
    ensures Upper(kind) == "GRANT_USER" <==> Spells(kind, "GRANT_USER")
    ensures Upper(kind) == "GRANT_DEPT" <==> Spells(kind, "GRANT_DEPT")
    ensures Upper(kind) == "GRANT_POST" <==> Spells(kind, "GRANT_POST")
  {
    UpperIsSpelling(kind, "ROLE");
    UpperIsSpelling(kind, "GRANT_USER");
    UpperIsSpelling(kind, "GRANT_DEPT");
    UpperIsSpelling(kind, "GRANT_POST");
  }

  /** What a call of `resolve_impacted_user_ids` answers, kind by kind, and which calls it refuses. */
  lemma ResolvedImpactMeaning(db: Tables, kind: string, subjectIds: seq<int>, roleCodes: seq<string>, u: int)
    requires DeptsExist(db)
    ensures var r := ResolveImpactedUserIds(db, kind, subjectIds, roleCodes);
            && (Spells(kind, "ROLE") ==> if roleCodes == [] then r == Err(NeedsRoleCodes) else r.Ok?)
            && (Spells(kind, "GRANT_USER") || Spells(kind, "GRANT_DEPT") || Spells(kind, "GRANT_POST") ==>
                  if subjectIds == [] then r == Err(NeedsSubjectIds) else r.Ok?)
            && (!Spells(kind, "ROLE") && !Spells(kind, "GRANT_USER") && !Spells(kind, "GRANT_DEPT") && !Spells(kind, "GRANT_POST") ==>
                  r == Err(UnknownKind))
    ensures var r := ResolveImpactedUserIds(db, kind, subjectIds, roleCodes);
            r.Ok? ==>
              && (Spells(kind, "ROLE") ==> (u in r.value <==> exists role: Role :: role.code in roleCodes && Reaches(db, role, u)))
              && (Spells(kind, "GRANT_USER") ==>
                    (u in r.value <==> u in subjectIds && exists g: Grant :: g in db.grants && g.subject == Subject(USER, u)))
              && (Spells(kind, "GRANT_DEPT") ==> (u in r.value <==> exists i :: i in subjectIds && AppliesTo(db, Subject(DEPT, i), u)))
              && (Spells(kind, "GRANT_POST") ==> (u in r.value <==> exists i :: i in subjectIds && AppliesTo(db, Subject(POST, i), u)))
  {
    KindNames(kind);
    var ids := set i | i in subjectIds;
    var codes := set c | c in roleCodes;
    GrantImpactsReach(db, ids, u);
    RoleImpactIsReach(db, codes, u);
  }

  /** The three subject queries, in terms of applying. */
  lemma GrantImpactsReach(db: Tables, ids: set<int>, u: int)
    requires DeptsExist(db)
    ensures u in GrantUserImpact(db, ids) <==> u in ids && exists g: Grant :: g in db.grants && g.subject == Subject(USER, u)
    ensures u in GrantDeptImpact(db, ids) <==> exists i :: i in ids && AppliesTo(db, Subject(DEPT, i), u)
    ensures u in GrantPostImpact(db, ids) <==> exists i :: i in ids && AppliesTo(db, Subject(POST, i), u)
  {
  }

  /** Clearing the last direct grant changes the user's codes, and the query run afterwards finds nobody. */
  lemma ClearedUserIsMissed()
    ensures var before := UNGRANTED.(grants := {Grant(Subject(USER, 1), 7)});
            && OnlyGrantsOf(before, UNGRANTED, {Subject(USER, 1)})
            && CodesDiffer(before, UNGRANTED, 1)
            && GrantUserImpact(UNGRANTED, {1}) == {}
  {
    var before := UNGRANTED.(grants := {Grant(Subject(USER, 1), 7)});
    var r := Role(7, "R", 1);
    assert Grant(Subject(USER, 1), r.id) in before.grants && AppliesTo(before, Subject(USER, 1), 1);
    EnabledRolesReach(before, r, 1);
    assert r in EnabledRoles(before, 1) && r.code in OracleRoles(before, 1);
    assert OracleRoles(UNGRANTED, 1) == {};
  }

  /** The permission `p` is held by some role outside `ids`. */
  ghost predicate HeldOutside(db: Tables, ids: set<int>, permissionId: int) {
    exists rp :: rp in db.rolePermissions && rp.permissionId == permissionId && rp.roleId !in ids
  }

  /**
   The two states differ at most in what belongs to the roles `ids`: their own rows (code and
   status), their permission sets, and the rows of permissions no other role holds.  No role of
   `ids` is new.
   */
  ghost predicate OnlyRoles(a: Tables, b: Tables, ids: set<int>) {
    && b == a.(roles := b.roles, rolePermissions := b.rolePermissions, permissions := b.permissions)
    && (forall r: Role :: r.id !in ids ==> (r in a.roles <==> r in b.roles))
    && (forall r: Role :: r in b.roles && r.id in ids ==> exists q: Role :: q in a.roles && q.id == r.id)
    && (forall rp: RolePermission :: rp.roleId !in ids ==> (rp in a.rolePermissions <==> rp in b.rolePermissions))
    && (forall p: Permission :: HeldOutside(a, ids, p.id) ==> (p in a.permissions <==> p in b.permissions))
  }

  /** The codes the changed roles had. */
  function CodesOf(db: Tables, ids: set<int>): set<string> {
    set r | r in db.roles && r.id in ids :: r.code
  }

  /** A user one of the changed roles reaches, before or after, is in the ROLE impact set. */
  lemma ChangedRoleImpacts(a: Tables, b: Tables, ids: set<int>, r: Role, u: int)
    requires OnlyRoles(a, b, ids) && DeptsExist(a) && r.id in ids
    requires Reaches(a, r, u) || Reaches(b, r, u)
    ensures u in RoleImpact(a, CodesOf(a, ids))
  {
    var q: Role :| q in a.roles && q.id == r.id;
    var s: Subject :| Grant(s, r.id) in a.grants && (AppliesTo(a, s, u) || AppliesTo(b, s, u));
    assert AppliesTo(a, s, u) == AppliesTo(b, s, u);
    assert Reaches(a, q, u) && q.code in CodesOf(a, ids);
    ReachedIsImpacted(a, CodesOf(a, ids), q, u);
  }

  /** A user outside the ROLE impact set has the same enabled roles, none of them a changed one. */
  lemma UntouchedRoles(a: Tables, b: Tables, ids: set<int>, u: int)
    requires OnlyRoles(a, b, ids) && DeptsExist(a) && u !in RoleImpact(a, CodesOf(a, ids))
    ensures EnabledRoles(a, u) == EnabledRoles(b, u)
    ensures forall r :: r in EnabledRoles(a, u) ==> r.id !in ids
  {
    forall r: Role | Reaches(a, r, u) || Reaches(b, r, u) ensures r.id !in ids {
      if r.id in ids {
        ChangedRoleImpacts(a, b, ids, r, u);
      }
    }
    forall r ensures r in EnabledRoles(a, u) <==> r in EnabledRoles(b, u) {
      EnabledRolesReach(a, r, u);
      EnabledRolesReach(b, r, u);
      forall s: Subject ensures AppliesTo(a, s, u) == AppliesTo(b, s, u) {
      }
    }
    forall r | r in EnabledRoles(a, u) ensures r.id !in ids {
      EnabledRolesReach(a, r, u);
    }
  }

  lemma SamePermissions(a: Tables, b: Tables, ids: set<int>, u: int, code: string)
    requires OnlyRoles(a, b, ids) && EnabledRoles(a, u) == EnabledRoles(b, u)
    requires forall r :: r in EnabledRoles(a, u) ==> r.id !in ids
    ensures code in OraclePermissions(a, u) <==> code in OraclePermissions(b, u)
  {
  }

  lemma UntouchedUserKeepsCodes(a: Tables, b: Tables, ids: set<int>, u: int)
    requires OnlyRoles(a, b, ids) && DeptsExist(a) && u !in RoleImpact(a, CodesOf(a, ids))
    ensures !CodesDiffer(a, b, u)
  {
    UntouchedRoles(a, b, ids, u);
    forall code ensures code in OraclePermissions(a, u) <==> code in OraclePermissions(b, u) {
      SamePermissions(a, b, ids, u, code);
    }
    assert OraclePermissions(a, u) == OraclePermissions(b, u);
  }

  /**
   Changing roles (permission set, status or code) or permissions only they hold alters the codes
   of users in the ROLE impact set of the old role codes, and of nobody else.
   */
  lemma RoleChangeFrame(a: Tables, b: Tables, ids: set<int>, u: int)
    requires OnlyRoles(a, b, ids) && DeptsExist(a)
    requires CodesDiffer(a, b, u)
    ensures u in RoleImpact(a, CodesOf(a, ids))
  {
    if u !in RoleImpact(a, CodesOf(a, ids)) {
      UntouchedUserKeepsCodes(a, b, ids, u);
    }
  }

  /** A change of subjects moves codes only for users whose applicable subjects changed. */
  lemma SubjectFrame(a: Tables, b: Tables, u: int)
    requires b == a.(closure := b.closure, depts := b.depts)
    requires forall s: Subject :: AppliesTo(a, s, u) == AppliesTo(b, s, u)
    ensures !CodesDiffer(a, b, u)
  {
    forall r ensures r in EnabledRoles(a, u) <==> r in EnabledRoles(b, u) {
      EnabledRolesReach(a, r, u);
      EnabledRolesReach(b, r, u);
    }
    assert EnabledRoles(a, u) == EnabledRoles(b, u);
  }
}

/**
 Moving a department.  The closure table is the reflexive-transitive closure of the parent
 column; how the backend maintains it is not modelled.
 */
module DeptTree {
  import opened Wrappers
  import opened AuthGraph

  /** `sys_dept.parent_id` by department id; a parent that is not a key (0 in the seed) ends the chain. */
  type Parents = map<int, int>

  /** The k-th parent of `x`. */
  function Up(parents: Parents, x: int, k: nat): Option<int>
    decreases k
  {
    if k == 0 then Some(x)
    else if x in parents then Up(parents, parents[x], k - 1)
    else None
  }

  ghost predicate Climbs(parents: Parents, x: int, a: int) {
    exists k: nat :: Up(parents, x, k) == Some(a)
  }

  /** `a` is `x` or an ancestor of `x`. */
  ghost predicate IsAncestor(parents: Parents, a: int, x: int) {
    a in parents && x in parents && Climbs(parents, x, a)
  }

  /** The rows of `dept_closure`. */
  ghost function ClosureOf(parents: Parents): set<Closure> {
    set a, x | a in parents && x in parents && IsAncestor(parents, a, x) :: Closure(a, x)
  }

  /** The effect of `move_dept`: one parent column changes. */
  function MoveDept(parents: Parents, d: int, p: int): Parents
    requires d in parents
  {
    parents[d := p]
  }

  /** The parent relation is a forest. */
  ghost predicate Acyclic(parents: Parents) {
    forall x, k: nat :: k > 0 ==> Up(parents, x, k) != Some(x)
  }

  lemma {:induction false} UpAdds(parents: Parents, x: int, j: nat, k: nat)
    requires Up(parents, x, j).Some?
    ensures Up(parents, x, j + k) == Up(parents, Up(parents, x, j).value, k)
    decreases j
  {
    if j > 0 {
      UpAdds(parents, parents[x], j - 1, k);
    }
  }

  lemma ClimbsTrans(parents: Parents, x: int, y: int, z: int)
    requires Climbs(parents, x, y) && Climbs(parents, y, z)
    ensures Climbs(parents, x, z)
  {
    var j: nat :| Up(parents, x, j) == Some(y);
    var k: nat :| Up(parents, y, k) == Some(z);
    UpAdds(parents, x, j, k);
  }

  lemma ClimbsOne(parents: Parents, x: int)
    requires x in parents
    ensures Climbs(parents, x, parents[x])
  {
    assert Up(parents, parents[x], 0) == Some(parents[x]);
    assert Up(parents, x, 1) == Some(parents[x]);
  }

  lemma ClimbsSelf(parents: Parents, x: int)
    ensures Climbs(parents, x, x)
  {
    assert Up(parents, x, 0) == Some(x);
  }

  /** The parents of everything but `d` agree. */
  ghost predicate AgreeExcept(q: Parents, q': Parents, d: int) {
    && q.Keys == q'.Keys
    && forall x :: x in q && x != d ==> q[x] == q'[x]
  }

  /** A climb that has not passed `d` is the same in both forests; one that has, reached `d`. */
  lemma {:induction false} ClimbUntilMoved(q: Parents, q': Parents, d: int, x: int, k: nat)
    requires AgreeExcept(q, q', d)
    ensures Up(q', x, k) == Up(q, x, k) || (Climbs(q, x, d) && Climbs(q', x, d))
    ensures Up(q, x, k) == Some(d) ==> Climbs(q', x, d)
    decreases k
  {
    if x == d {
      ClimbsSelf(q, d);
      ClimbsSelf(q', d);
    } else if k > 0 && x in q {
      ClimbUntilMoved(q, q', d, q[x], k - 1);
      ClimbsOne(q, x);
      ClimbsOne(q', x);
      if Climbs(q, q[x], d) && Climbs(q', q[x], d) {
        ClimbsTrans(q, x, q[x], d);
        ClimbsTrans(q', x, q[x], d);
      }
    }
  }

  /** The moved department keeps its subtree. */
  lemma SubtreeIsKept(q: Parents, q': Parents, d: int, x: int)
    requires AgreeExcept(q, q', d)
    ensures Climbs(q, x, d) <==> Climbs(q', x, d)
  {
    if Climbs(q, x, d) {
      var k: nat :| Up(q, x, k) == Some(d);
      ClimbUntilMoved(q, q', d, x, k);
    }
    if Climbs(q', x, d) {
      var k: nat :| Up(q', x, k) == Some(d);
      ClimbUntilMoved(q', q, d, x, k);
    }
  }

  /** Departments outside the moved subtree keep their ancestors. */
  lemma OutsideIsKept(q: Parents, q': Parents, d: int, x: int, a: int)
    requires AgreeExcept(q, q', d) && !Climbs(q, x, d)
    ensures Climbs(q, x, a) <==> Climbs(q', x, a)
  {
    if Climbs(q, x, a) {
      var k: nat :| Up(q, x, k) == Some(a);
      ClimbUntilMoved(q, q', d, x, k);
    }
    if Climbs(q', x, a) {
      var k: nat :| Up(q', x, k) == Some(a);
      ClimbUntilMoved(q, q', d, x, k);
    }
  }

  lemma MoveAgrees(parents: Parents, d: int, p: int)
    requires d in parents
    ensures AgreeExcept(parents, MoveDept(parents, d, p), d)
  {
  }

  // ---------------------------------------------------------------------------------------
  // When a move keeps the forest a forest
  // ---------------------------------------------------------------------------------------

  /** In a forest two climbs to the same department take the same number of steps. */
  lemma ClimbIsUnique(q: Parents, x: int, a: int, j: nat, k: nat)
    requires Acyclic(q) && Up(q, x, j) == Some(a) && Up(q, x, k) == Some(a)
    ensures j == k
  {
    var low, gap := if j <= k then j else k, if j <= k then k - j else j - k;
    UpAdds(q, x, low, gap);
    assert Up(q, a, gap) == Some(a);
  }

  /** A move keeps the forest acyclic exactly when the new parent is outside the moved subtree. */
  lemma MoveKeepsForestIff(parents: Parents, d: int, p: int)
    requires d in parents && Acyclic(parents)
    ensures Acyclic(MoveDept(parents, d, p)) <==> !Climbs(parents, p, d)
  {
    var q' := MoveDept(parents, d, p);
    MoveAgrees(parents, d, p);
    SubtreeIsKept(parents, q', d, p);
    if Climbs(q', p, d) {
      var k: nat :| Up(q', p, k) == Some(d);
      assert Up(q', d, k + 1) == Some(d);
    } else {
      forall x, k: nat | k > 0 ensures Up(q', x, k) != Some(x) {
        if Up(q', x, k) == Some(x) {
          CycleMeetsMoved(parents, q', d, x, k);
          CycleEntersAtParent(q', d, x, k);
        }
      }
    }
  }

  /** A cycle that meets `d` leads from the parent of `d` back to `d`. */
  lemma CycleEntersAtParent(q: Parents, d: int, x: int, k: nat)
    requires d in q && k > 0 && Up(q, x, k) == Some(x) && Climbs(q, x, d)
    ensures Climbs(q, q[d], d)
  {
    var j: nat :| Up(q, x, j) == Some(d);
    UpAdds(q, x, j, k);
    UpAdds(q, x, k, j);
    assert Up(q, q[d], k - 1) == Some(d);
  }

  lemma CycleMeetsMoved(q: Parents, q': Parents, d: int, x: int, k: nat)
    requires AgreeExcept(q, q', d) && Acyclic(q)
    requires k > 0 && Up(q', x, k) == Some(x)
    ensures Climbs(q', x, d)
  {
    ClimbUntilMoved(q, q', d, x, k);
  }

  /**
   What a move inside a forest does to the closure: a department `x` of the moved subtree keeps its
   ancestors up to `d` and trades those above `d` for the new parent and its ancestors.
   */
  lemma MovedAncestors(parents: Parents, d: int, p: int, x: int, a: int)
    requires d in parents && Acyclic(parents) && !Climbs(parents, p, d) && Climbs(parents, x, d)
    ensures Climbs(MoveDept(parents, d, p), x, a)
       <==> (Climbs(parents, x, a) && Climbs(parents, a, d)) || Climbs(parents, p, a)
  {
    var q' := MoveDept(parents, d, p);
    MoveAgrees(parents, d, p);
    var n: nat :| Up(parents, x, n) == Some(d);
    ClimbToMoved(parents, q', d, x, n);
    if Climbs(q', x, a) {
      var k: nat :| Up(q', x, k) == Some(a);
      if k <= n {
        UpAdds(parents, x, k, n - k);
        assert Up(parents, a, n - k) == Some(d);
      } else {
        UpAdds(q', x, n, k - n);
        assert Up(q', p, k - n - 1) == Some(a);
        assert Climbs(q', p, a);
        OutsideIsKept(parents, q', d, p, a);
      }
    }
    if Climbs(parents, x, a) && Climbs(parents, a, d) {
      var k: nat :| Up(parents, x, k) == Some(a);
      var m: nat :| Up(parents, a, m) == Some(d);
      UpAdds(parents, x, k, m);
      ClimbIsUnique(parents, x, d, n, k + m);
      assert Up(q', x, k) == Some(a);
    }
    if Climbs(parents, p, a) {
      OutsideIsKept(parents, q', d, p, a);
      ClimbsOne(q', d);
      assert Climbs(q', x, d);
      ClimbsTrans(q', x, d, p);
      ClimbsTrans(q', x, p, a);
    }
  }

  /** Up to the moved department the climb of a forest is untouched. */
  lemma {:induction false} ClimbToMoved(q: Parents, q': Parents, d: int, x: int, n: nat)
    requires AgreeExcept(q, q', d) && Acyclic(q) && Up(q, x, n) == Some(d)
    ensures forall k: nat :: k <= n ==> Up(q', x, k) == Up(q, x, k) && Up(q, x, k).Some?
    decreases n
  {
    if n > 0 {
      assert x != d;
      ClimbToMoved(q, q', d, q[x], n - 1);
      forall k: nat | k <= n ensures Up(q', x, k) == Up(q, x, k) && Up(q, x, k).Some? {
        if k > 0 {
          assert Up(q', q[x], k - 1) == Up(q, q[x], k - 1) && Up(q, q[x], k - 1).Some?;
        }
      }
    }
  }

  // ---------------------------------------------------------------------------------------
  // Members and codes across a move
  // ---------------------------------------------------------------------------------------

  lemma ClosureRow(parents: Parents, a: int, x: int)
    ensures Closure(a, x) in ClosureOf(parents) <==> IsAncestor(parents, a, x)
  {
  }

  /** Over the closure of a forest, the users listed for a department belong to it or to one below it. */
  lemma MembersClimb(db: Tables, parents: Parents, d: int, u: int)
    requires d in parents && db.closure == ClosureOf(parents)
    ensures u in DeptUserIds(db, d) <==> exists x :: UserDept(u, x) in db.userDepts && x in parents && Climbs(parents, x, d)
  {
    DeptUsersAreMembers(db, d, u);
    forall x ensures Closure(d, x) in db.closure <==> x in parents && Climbs(parents, x, d) {
      ClosureRow(parents, d, x);
    }
  }

  /** The members of the moved department's subtree are the same before and after. */
  lemma MembersAreKept(before: Tables, after: Tables, parents: Parents, d: int, p: int)
    requires d in parents && before.closure == ClosureOf(parents)
    requires after == before.(closure := ClosureOf(MoveDept(parents, d, p)))
    ensures DeptUserIds(before, d) == DeptUserIds(after, d)
  {
    var q' := MoveDept(parents, d, p);
    MoveAgrees(parents, d, p);
    forall dc: Closure | dc.ancestorId == d ensures dc in before.closure <==> dc in after.closure {
      ClosureRow(parents, d, dc.descendantId);
      ClosureRow(q', d, dc.descendantId);
      SubtreeIsKept(parents, q', d, dc.descendantId);
    }
  }

  /** Every user whose codes change when a department moves is a member of its subtree. */
  lemma DeptMoveFrame(before: Tables, after: Tables, parents: Parents, d: int, p: int, u: int)
    requires d in parents && before.closure == ClosureOf(parents)
    requires after == before.(closure := ClosureOf(MoveDept(parents, d, p)))
    requires CodesDiffer(before, after, u)
    ensures u in DeptUserIds(before, d) && u in DeptUserIds(after, d)
  {
    MembersAreKept(before, after, parents, d, p);
    if u !in DeptUserIds(before, d) {
      forall s: Subject ensures AppliesTo(before, s, u) == AppliesTo(after, s, u) {
        if s.subjectType == DEPT {
          forall x | UserDept(u, x) in before.userDepts
            ensures Closure(s.id, x) in before.closure <==> Closure(s.id, x) in after.closure
          {
            OutsiderRow(before, parents, d, p, u, x, s.id);
          }
        }
      }
      SubjectFrame(before, after, u);
    }
  }

  lemma OutsiderRow(before: Tables, parents: Parents, d: int, p: int, u: int, x: int, a: int)
    requires d in parents && before.closure == ClosureOf(parents)
    requires u !in DeptUserIds(before, d) && UserDept(u, x) in before.userDepts
    ensures Closure(a, x) in ClosureOf(parents) <==> Closure(a, x) in ClosureOf(MoveDept(parents, d, p))
  {
    var q' := MoveDept(parents, d, p);
    MoveAgrees(parents, d, p);
    ClosureRow(parents, a, x);
    ClosureRow(q', a, x);
    ClosureRow(parents, d, x);
    if x in parents {
      var ud, dc := UserDept(u, x), Closure(d, x);
      assert dc in before.closure ==> ud.deptId == dc.descendantId && dc.ancestorId == d && ud.userId in DeptUserIds(before, d);
      OutsideIsKept(parents, q', d, x, a);
    }
  }
}

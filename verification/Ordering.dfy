/** `sorted` on strings: code point order, lists and sets. */
module Ordering {

  /** Python's `<=` on strings. */
  predicate LexLe(a: string, b: string) {
    a == "" || (b != "" && (a[0] < b[0] || (a[0] == b[0] && LexLe(a[1..], b[1..]))))
  }

  lemma {:induction false} LexTotal(a: string, b: string)
    ensures LexLe(a, b) || LexLe(b, a)
    decreases |a|
  {
    if a != "" && b != "" && a[0] == b[0] {
      LexTotal(a[1..], b[1..]);
    }
  }

  lemma {:induction false} LexAntisymmetric(a: string, b: string)
    requires LexLe(a, b) && LexLe(b, a)
    ensures a == b
    decreases |a|
  {
    if a != "" {
      LexAntisymmetric(a[1..], b[1..]);
      assert a == [a[0]] + a[1..] && b == [b[0]] + b[1..];
    }
  }

  lemma {:induction false} LexTransitive(a: string, b: string, c: string)
    requires LexLe(a, b) && LexLe(b, c)
    ensures LexLe(a, c)
    decreases |a|
  {
    if a != "" && a[0] == b[0] && b[0] == c[0] {
      LexTransitive(a[1..], b[1..], c[1..]);
    }
  }

  predicate Sorted(s: seq<string>) {
    forall i, j :: 0 <= i < j < |s| ==> LexLe(s[i], s[j])
  }

  // ---------------------------------------------------------------------------------------
  // Lists
  // ---------------------------------------------------------------------------------------

  function Insert(x: string, s: seq<string>): seq<string> {
    if s == [] || LexLe(x, s[0]) then [x] + s else [s[0]] + Insert(x, s[1..])
  }

  /** `sorted(list)`. */
  function Sort(s: seq<string>): seq<string> {
    if s == [] then [] else Insert(s[0], Sort(s[1..]))
  }

  lemma {:induction false} InsertKeepsOrder(x: string, s: seq<string>)
    requires Sorted(s)
    ensures Sorted(Insert(x, s)) && multiset(Insert(x, s)) == multiset{x} + multiset(s)
    decreases |s|
  {
    if s == [] {
    } else if LexLe(x, s[0]) {
      forall j | 0 <= j < |s| ensures LexLe(x, s[j]) {
        if j > 0 {
          LexTransitive(x, s[0], s[j]);
        }
      }
    } else {
      LexTotal(x, s[0]);
      InsertKeepsOrder(x, s[1..]);
      assert s == [s[0]] + s[1..];
      var r := Insert(x, s[1..]);
      forall j | 0 <= j < |r| ensures LexLe(s[0], r[j]) {
        assert r[j] in multiset(r);
        if r[j] != x {
          assert r[j] in s[1..];
        }
      }
    }
  }

  lemma {:induction false} SortSorts(s: seq<string>)
    ensures Sorted(Sort(s)) && multiset(Sort(s)) == multiset(s)
    decreases |s|
  {
    if s != [] {
      SortSorts(s[1..]);
      InsertKeepsOrder(s[0], Sort(s[1..]));
      assert s == [s[0]] + s[1..];
    }
  }

  /** There is only one sorted list of given elements. */
  lemma {:induction false} SortedIsUnique(a: seq<string>, b: seq<string>)
    requires Sorted(a) && Sorted(b) && multiset(a) == multiset(b)
    ensures a == b
    decreases |a|
  {
    if a == [] {
      assert |b| == |multiset(b)| == |multiset(a)| == 0;
    } else {
      assert a[0] in multiset(b) && |b| == |multiset(b)| == |multiset(a)| == |a|;
      assert b[0] in multiset(a);
      var i :| 0 <= i < |b| && b[i] == a[0];
      var j :| 0 <= j < |a| && a[j] == b[0];
      LexAntisymmetricHeads(a, b, i, j);
      assert a == [a[0]] + a[1..] && b == [b[0]] + b[1..];
      assert multiset(a[1..]) == multiset(a) - multiset{a[0]};
      assert multiset(b[1..]) == multiset(b) - multiset{b[0]};
      SortedIsUnique(a[1..], b[1..]);
    }
  }

  lemma LexAntisymmetricHeads(a: seq<string>, b: seq<string>, i: nat, j: nat)
    requires Sorted(a) && Sorted(b) && i < |b| && j < |a| && b[i] == a[0] && a[j] == b[0]
    ensures a[0] == b[0]
  {
    LexTotal(a[0], a[0]);
    assert LexLe(b[0], b[i]) && LexLe(a[0], a[j]) by {
      LexTotal(b[0], b[0]);
    }
    LexAntisymmetric(a[0], b[0]);
  }

  /** Sorted copies are equal exactly when the lists hold the same elements equally often. */
  lemma SortedEqualIff(a: seq<string>, b: seq<string>)
    ensures Sort(a) == Sort(b) <==> multiset(a) == multiset(b)
  {
    SortSorts(a);
    SortSorts(b);
    if multiset(a) == multiset(b) {
      SortedIsUnique(Sort(a), Sort(b));
    }
  }

  lemma SortIsIdempotent(a: seq<string>)
    ensures Sort(Sort(a)) == Sort(a)
  {
    SortSorts(a);
    SortedEqualIff(Sort(a), a);
  }

  // ---------------------------------------------------------------------------------------
  // Sets
  // ---------------------------------------------------------------------------------------

  lemma {:induction false} LeastExists(s: set<string>) returns (m: string)
    requires s != {}
    ensures m in s && forall x :: x in s ==> LexLe(m, x)
    decreases |s|
  {
    var x :| x in s;
    LexTotal(x, x);
    if s == {x} {
      m := x;
    } else {
      var rest := s - {x};
      var y := LeastExists(rest);
      LexTotal(x, y);
      if LexLe(x, y) {
        m := x;
        forall z | z in s ensures LexLe(x, z) {
          if z != x {
            LexTransitive(x, y, z);
          }
        }
      } else {
        m := y;
      }
    }
  }

  lemma LeastIsUnique(s: set<string>)
    ensures forall m, n :: m in s && n in s && (forall x :: x in s ==> LexLe(m, x)) && (forall x :: x in s ==> LexLe(n, x)) ==> m == n
  {
    forall m, n | m in s && n in s && (forall x :: x in s ==> LexLe(m, x)) && (forall x :: x in s ==> LexLe(n, x)) ensures m == n {
      LexAntisymmetric(m, n);
    }
  }

  function Least(s: set<string>): (m: string)
    requires s != {}
    ensures m in s && forall x :: x in s ==> LexLe(m, x)
  {
    assert exists m :: m in s && forall x :: x in s ==> LexLe(m, x) by {
      var m := LeastExists(s);
    }
    LeastIsUnique(s);
    var m :| m in s && forall x :: x in s ==> LexLe(m, x);
    m
  }

  /** `sorted(set)`. */
  function SortedSet(s: set<string>): (r: seq<string>)
    ensures forall x :: x in r <==> x in s
    ensures forall i, j :: 0 <= i < j < |r| ==> r[i] != r[j]
    decreases |s|
  {
    if s == {} then []
    else
      var m := Least(s);
      [m] + SortedSet(s - {m})
  }

  lemma {:induction false} SortedSetIsSorted(s: set<string>)
    ensures Sorted(SortedSet(s))
    decreases |s|
  {
    if s != {} {
      SortedSetIsSorted(s - {Least(s)});
    }
  }
}

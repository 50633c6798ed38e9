/** Finite sets of keys in ascending order, as the source's sorted maps and sets iterate them. */
module OrderedSets {

  predicate IsLeast(s: set<nat>, x: nat) { x in s && forall y :: y in s ==> x <= y }

  function Least(s: set<nat>): (x: nat)
    requires s != {}
    ensures IsLeast(s, x)
  {
    LeastExists(s);
    var x :| IsLeast(s, x);
    x
  }

  lemma {:induction false} LeastExists(s: set<nat>)
    requires s != {}
    ensures exists x :: IsLeast(s, x)
  {
    var x :| x in s;
    var rest := s - {x};
    assert forall y :: y in s ==> y == x || y in rest;
    if rest == {} {
      assert IsLeast(s, x);
    } else {
      LeastExists(rest);
      var m :| IsLeast(rest, m);
      assert IsLeast(s, if x < m then x else m);
    }
  }

  predicate IsGreatest(s: set<nat>, x: nat) { x in s && forall y :: y in s ==> y <= x }

  function Greatest(s: set<nat>): (x: nat)
    requires s != {}
    ensures IsGreatest(s, x)
  {
    GreatestExists(s);
    var x :| IsGreatest(s, x);
    x
  }

  lemma {:induction false} GreatestExists(s: set<nat>)
    requires s != {}
    ensures exists x :: IsGreatest(s, x)
  {
    var x :| x in s;
    var rest := s - {x};
    assert forall y :: y in s ==> y == x || y in rest;
    if rest == {} {
      assert IsGreatest(s, x);
    } else {
      GreatestExists(rest);
      var m :| IsGreatest(rest, m);
      assert IsGreatest(s, if m < x then x else m);
    }
  }

  /** The elements in ascending order. */
  function Ascending(s: set<nat>): (r: seq<nat>)
    ensures |r| == |s|
    decreases |s|
  {
    if s == {} then [] else [Least(s)] + Ascending(s - {Least(s)})
  }

  predicate StrictlySorted(r: seq<nat>) {
    forall i, j :: 0 <= i < j < |r| ==> r[i] < r[j]
  }

  lemma {:induction false} AscendingLists(s: set<nat>)
    ensures StrictlySorted(Ascending(s))
    ensures forall x :: x in Ascending(s) <==> x in s
    decreases |s|
  {
    if s != {} {
      var m := Least(s);
      var rest := Ascending(s - {m});
      AscendingLists(s - {m});
      assert Ascending(s) == [m] + rest;
      forall i, j | 0 <= i < j < |s| ensures Ascending(s)[i] < Ascending(s)[j] {
        assert rest[j - 1] in rest;
      }
    }
  }

  lemma {:induction false} SubsetCount(a: set<nat>, b: set<nat>)
    requires a <= b
    ensures |a| <= |b|
  {
    if a != {} {
      var x :| x in a;
      SubsetCount(a - {x}, b - {x});
    }
  }

  lemma SameCount(a: set<nat>, b: set<nat>)
    requires a <= b && |a| == |b|
    ensures a == b
  {
    if x :| x in b && x !in a {
      SubsetCount(a + {x}, b);
    }
  }

  function SetOf(ids: seq<nat>): set<nat> {
    set id | id in ids
  }

  lemma SetOfNext(ids: seq<nat>, k: nat)
    requires StrictlySorted(ids) && k < |ids|
    ensures SetOf(ids[..k + 1]) == SetOf(ids[..k]) + {ids[k]}
    ensures forall x :: x in SetOf(ids[..k]) ==> x < ids[k]
  {
    assert ids[..k + 1] == ids[..k] + [ids[k]];
  }

  lemma SetOfAll(ids: seq<nat>, all: set<nat>)
    requires forall x :: x in ids <==> x in all
    ensures SetOf(ids) == all
  {}
}

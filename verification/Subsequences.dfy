/** Order-preserving, duplication-free subsequences. */
module Subsequences {

  /** `a` is what remains of `b` after dropping some of its elements. */
  predicate Sub<T(==)>(a: seq<T>, b: seq<T>)
    decreases |b|
  {
    a == [] ||
    (b != [] && (Sub(a, b[..|b| - 1])
                 || (a[|a| - 1] == b[|b| - 1] && Sub(a[..|a| - 1], b[..|b| - 1]))))
  }

  /** Positions of `b` that spell out `a`, strictly increasing: nothing is reordered or repeated. */
  ghost predicate Picks<T>(at: seq<nat>, a: seq<T>, b: seq<T>) {
    && |at| == |a|
    && (forall i :: 0 <= i < |at| ==> at[i] < |b| && a[i] == b[at[i]])
    && (forall i, j :: 0 <= i < j < |at| ==> at[i] < at[j])
  }

  lemma {:induction false} SubPicks<T>(a: seq<T>, b: seq<T>) returns (at: seq<nat>)
    requires Sub(a, b)
    ensures Picks(at, a, b)
    decreases |b|
  {
    if a == [] {
      at := [];
    } else if Sub(a, b[..|b| - 1]) {
      at := SubPicks(a, b[..|b| - 1]);
    } else {
      at := SubPicks(a[..|a| - 1], b[..|b| - 1]);
      at := at + [|b| - 1];
    }
  }

  lemma SubSkip<T>(a: seq<T>, b: seq<T>, x: T)
    requires Sub(a, b)
    ensures Sub(a, b + [x])
  {
    assert (b + [x])[..|b|] == b;
  }

  lemma SubKeep<T>(a: seq<T>, b: seq<T>, x: T)
    requires Sub(a, b)
    ensures Sub(a + [x], b + [x])
  {
    assert (b + [x])[..|b|] == b && (a + [x])[..|a|] == a;
  }

  lemma {:induction false} SubRefl<T>(a: seq<T>)
    ensures Sub(a, a)
  {
    if a != [] {
      SubRefl(a[..|a| - 1]);
    }
  }

  lemma {:induction false} SubPrefix<T>(a: seq<T>, b: seq<T>)
    ensures Sub(a, a + b)
    decreases |b|
  {
    if b == [] {
      assert a + b == a;
      SubRefl(a);
    } else {
      SubPrefix(a, b[..|b| - 1]);
      assert a + b == (a + b[..|b| - 1]) + [b[|b| - 1]];
      SubSkip(a, a + b[..|b| - 1], b[|b| - 1]);
    }
  }

  lemma {:induction false} SubTrans<T>(a: seq<T>, b: seq<T>, c: seq<T>)
    requires Sub(a, b) && Sub(b, c)
    ensures Sub(a, c)
    decreases |c|
  {
    if a != [] && b != [] {
      var c' := c[..|c| - 1];
      if Sub(b, c') {
        SubTrans(a, b, c');
      } else {
        var b' := b[..|b| - 1];
        if Sub(a, b') {
          SubTrans(a, b', c');
        } else {
          SubTrans(a[..|a| - 1], b', c');
        }
      }
    }
  }
}

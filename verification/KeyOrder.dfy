/**
 * Bytewise order of encoded keys, and the stable sort by key that the deterministic CBOR
 * encoder applies to map entries (crates/iroh-rooms-core/src/event/cbor.rs).
 */
module KeyOrder {
  import opened Prelude

  /** Bytewise lexicographic order. */
  predicate Less(a: seq<byte>, b: seq<byte>) {
    b != [] && (a == [] || a[0] < b[0] || (a[0] == b[0] && Less(a[1..], b[1..])))
  }

  lemma {:induction false} LessIsTransitive(a: seq<byte>, b: seq<byte>, c: seq<byte>)
    requires Less(a, b) && Less(b, c)
    ensures Less(a, c)
  {
    if a != [] && a[0] == b[0] && b[0] == c[0] {
      LessIsTransitive(a[1..], b[1..], c[1..]);
    }
  }

  lemma {:induction false} LessIsTotal(a: seq<byte>, b: seq<byte>)
    ensures Less(a, b) || a == b || Less(b, a)
    ensures !(Less(a, b) && Less(b, a)) && !Less(a, a)
  {
    if a != [] {
      LessIsTotal(a[1..], a[1..]);
    }
    if a != [] && b != [] && a[0] == b[0] {
      LessIsTotal(a[1..], b[1..]);
      assert a == [a[0]] + a[1..] && b == [b[0]] + b[1..];
    }
  }

  /** Stable insertion: before the first entry whose key is not smaller. */
  function Insert<T>(x: (seq<byte>, T), xs: seq<(seq<byte>, T)>): (r: seq<(seq<byte>, T)>)
    ensures |r| == |xs| + 1
  {
    if xs == [] || !Less(xs[0].0, x.0) then [x] + xs else [xs[0]] + Insert(x, xs[1..])
  }

  function Sort<T>(xs: seq<(seq<byte>, T)>): (r: seq<(seq<byte>, T)>)
    ensures |r| == |xs|
  {
    if xs == [] then [] else Insert(xs[0], Sort(xs[1..]))
  }

  predicate Ascending<T>(xs: seq<(seq<byte>, T)>) {
    forall i, j :: 0 <= i < j < |xs| ==> Less(xs[i].0, xs[j].0)
  }

  predicate DistinctKeys<T>(xs: seq<(seq<byte>, T)>) {
    forall i, j :: 0 <= i < j < |xs| ==> xs[i].0 != xs[j].0
  }

  lemma {:induction false} InsertHolds<T>(x: (seq<byte>, T), xs: seq<(seq<byte>, T)>, y: (seq<byte>, T))
    ensures y in Insert(x, xs) <==> y == x || y in xs
  {
    if xs != [] {
      assert xs == [xs[0]] + xs[1..];
      InsertHolds(x, xs[1..], y);
    }
  }

  lemma {:induction false} SortHolds<T>(xs: seq<(seq<byte>, T)>, y: (seq<byte>, T))
    ensures y in Sort(xs) <==> y in xs
  {
    if xs != [] {
      assert xs == [xs[0]] + xs[1..];
      SortHolds(xs[1..], y);
      InsertHolds(xs[0], Sort(xs[1..]), y);
    }
  }

  lemma AscendingCons<T>(x: (seq<byte>, T), xs: seq<(seq<byte>, T)>)
    requires Ascending(xs) && forall y <- xs :: Less(x.0, y.0)
    ensures Ascending([x] + xs)
  {
    var r := [x] + xs;
    forall i, j | 0 <= i < j < |r| ensures Less(r[i].0, r[j].0) {
      assert r[j] == xs[j - 1];
      if i == 0 {
        assert xs[j - 1] in xs;
      }
    }
  }

  lemma AscendingTail<T>(xs: seq<(seq<byte>, T)>)
    requires Ascending(xs) && xs != []
    ensures Ascending(xs[1..]) && forall y <- xs[1..] :: Less(xs[0].0, y.0)
  {}

  lemma {:induction false} InsertAscends<T>(x: (seq<byte>, T), xs: seq<(seq<byte>, T)>)
    requires Ascending(xs) && forall y <- xs :: y.0 != x.0
    ensures Ascending(Insert(x, xs))
  {
    if xs == [] {
    } else if !Less(xs[0].0, x.0) {
      forall y <- xs ensures Less(x.0, y.0) {
        FirstIsLeast(xs, y);
        LessIsTotal(x.0, xs[0].0);
        assert xs[0] in xs;
        if y.0 != xs[0].0 {
          LessIsTransitive(x.0, xs[0].0, y.0);
        }
      }
      AscendingCons(x, xs);
    } else {
      AscendingTail(xs);
      InsertAscends(x, xs[1..]);
      forall y <- Insert(x, xs[1..]) ensures Less(xs[0].0, y.0) {
        InsertHolds(x, xs[1..], y);
      }
      AscendingCons(xs[0], Insert(x, xs[1..]));
    }
  }

  lemma FirstIsLeast<T>(xs: seq<(seq<byte>, T)>, y: (seq<byte>, T))
    requires Ascending(xs) && y in xs
    ensures y == xs[0] || Less(xs[0].0, y.0)
  {
    var i :| 0 <= i < |xs| && xs[i] == y;
    assert i > 0 ==> Less(xs[0].0, xs[i].0);
  }

  /** Distinct keys come out strictly ascending. */
  lemma {:induction false} SortAscends<T>(xs: seq<(seq<byte>, T)>)
    requires DistinctKeys(xs)
    ensures Ascending(Sort(xs))
  {
    if xs != [] {
      SortAscends(xs[1..]);
      forall y <- Sort(xs[1..]) ensures y.0 != xs[0].0 {
        SortHolds(xs[1..], y);
        var i :| 0 <= i < |xs[1..]| && xs[1..][i] == y;
        assert y == xs[i + 1];
      }
      InsertAscends(xs[0], Sort(xs[1..]));
    }
  }

  /** A strictly ascending list is left as it is. */
  lemma {:induction false} SortKeepsAscending<T>(xs: seq<(seq<byte>, T)>)
    requires Ascending(xs)
    ensures Sort(xs) == xs
  {
    if xs != [] {
      AscendingTail(xs);
      SortKeepsAscending(xs[1..]);
      assert xs == [xs[0]] + xs[1..];
      if |xs| > 1 {
        assert xs[1] in xs[1..];
        LessIsTotal(xs[0].0, xs[1].0);
      }
    }
  }

  function MapPairs<T, U>(f: T -> U, xs: seq<(seq<byte>, T)>): (r: seq<(seq<byte>, U)>)
    ensures |r| == |xs|
  {
    if xs == [] then [] else [(xs[0].0, f(xs[0].1))] + MapPairs(f, xs[1..])
  }

  lemma {:induction false} InsertMaps<T, U>(f: T -> U, x: (seq<byte>, T), xs: seq<(seq<byte>, T)>)
    ensures MapPairs(f, Insert(x, xs)) == Insert((x.0, f(x.1)), MapPairs(f, xs))
  {
    if xs == [] || !Less(xs[0].0, x.0) {
      assert ([x] + xs)[1..] == xs;
    } else {
      InsertMaps(f, x, xs[1..]);
      assert ([xs[0]] + Insert(x, xs[1..]))[1..] == Insert(x, xs[1..]);
      assert MapPairs(f, xs)[1..] == MapPairs(f, xs[1..]);
    }
  }

  /** Sorting by key does not look at what the keys carry. */
  lemma {:induction false} SortMaps<T, U>(f: T -> U, xs: seq<(seq<byte>, T)>)
    ensures MapPairs(f, Sort(xs)) == Sort(MapPairs(f, xs))
  {
    if xs != [] {
      SortMaps(f, xs[1..]);
      InsertMaps(f, xs[0], Sort(xs[1..]));
      assert MapPairs(f, xs)[1..] == MapPairs(f, xs[1..]);
    }
  }
}

/**
 * Why the strict decoder of crates/iroh-rooms-core/src/event/cbor.rs refuses an input: the error it
 * reports for each departure from the deterministic profile of section 4.2.1 of RFC 8949.
 */
module CborFaults {
  import opened Prelude
  import opened BigEndian
  import opened Utf8
  import opened CborHeads
  import opened KeyOrder
  import opened Cbor
  import opened CborReader

  // ---------------------------------------------------------------------------
  // Which fault means what
  // ---------------------------------------------------------------------------

  /** No map holds a key after a greater one. */
  predicate IsOrdered(v: Value)
    decreases v
  {
    match v
    case Array(items) => forall i :: 0 <= i < |items| ==> IsOrdered(items[i])
    case Map(entries) =>
      && (forall i, j :: 0 <= i < j < |entries| ==> !Less(EncodedKey(entries[j].key), EncodedKey(entries[i].key)))
      && (forall i :: 0 <= i < |entries| ==> IsOrdered(entries[i].value))
    case _ => true
  }

  /** What a reported fault says about the value. */
  predicate Explains(fault: Option<Error>, shallow: bool, unique: bool, ordered: bool) {
    match fault
    case None => true
    case Some(e) =>
      || (e == DepthExceeded && !shallow) || (e == DuplicateMapKey && !unique) || (e == UnsortedMapKey && !ordered)
  }

  predicate ShallowEntries(entries: seq<Entry>, depth: nat) {
    forall i :: 0 <= i < |entries| ==> Shallow(entries[i].value, depth)
  }

  /** Distinct keys, all different from the one before. */
  predicate UniqueEntries(previous: Option<Str>, entries: seq<Entry>) {
    && (forall i, j :: 0 <= i < j < |entries| ==> entries[i].key != entries[j].key)
    && (forall i :: 0 <= i < |entries| ==> previous != Some(entries[i].key) && UniqueKeys(entries[i].value))
  }

  /** Keys that do not descend, from the one before on. */
  predicate OrderedEntries(previous: Option<Str>, entries: seq<Entry>) {
    && (forall i, j :: 0 <= i < j < |entries| ==> !Less(EncodedKey(entries[j].key), EncodedKey(entries[i].key)))
    && (forall i :: 0 <= i < |entries| ==> IsOrdered(entries[i].value))
    && (previous.Some? ==>
          forall i :: 0 <= i < |entries| ==> !Less(EncodedKey(entries[i].key), EncodedKey(previous.value)))
  }

  lemma TailsOf(previous: Option<Str>, entries: seq<Entry>, depth: nat)
    requires entries != []
    ensures ShallowEntries(entries, depth) ==> Shallow(entries[0].value, depth) && ShallowEntries(entries[1..], depth)
    ensures UniqueEntries(previous, entries) ==>
              && previous != Some(entries[0].key) && UniqueKeys(entries[0].value)
              && UniqueEntries(Some(entries[0].key), entries[1..])
    ensures OrderedEntries(previous, entries) ==>
              && IsOrdered(entries[0].value) && OrderedEntries(Some(entries[0].key), entries[1..])
              && (previous.Some? ==> !Less(EncodedKey(entries[0].key), EncodedKey(previous.value)))
  {
    hide Shallow, UniqueKeys, IsOrdered, Less, EncodedKey;
    assert forall i :: 0 <= i < |entries[1..]| ==> entries[1..][i] == entries[i + 1];
  }

  lemma {:induction false} FaultExplains(v: Value, depth: nat)
    ensures Explains(Fault(v, depth), Shallow(v, depth), UniqueKeys(v), IsOrdered(v))
    decreases v
  {
    hide FaultOfItems, FaultOfEntries, Shallow, UniqueKeys, IsOrdered, ShallowEntries, UniqueEntries, OrderedEntries;
    if depth > MAX_DEPTH {
      TooDeep(v, depth);
    } else {
      match v
      case Array(items) => ItemsExplain(items, depth);
      case Map(entries) =>
        MapParts(entries, depth);
        EntriesExplain(entries, None, depth + 1);
      case _ =>
    }
  }

  lemma TooDeep(v: Value, depth: nat)
    requires depth > MAX_DEPTH
    ensures !Shallow(v, depth)
  {}

  lemma MapParts(entries: seq<Entry>, depth: nat)
    requires depth <= MAX_DEPTH
    ensures Shallow(Map(entries), depth) <==> ShallowEntries(entries, depth + 1)
    ensures UniqueKeys(Map(entries)) <==> UniqueEntries(None, entries)
    ensures IsOrdered(Map(entries)) <==> OrderedEntries(None, entries)
  {
    hide Less, EncodedKey;
  }

  lemma ArrayParts(items: seq<Value>, depth: nat)
    requires items != []
    ensures Shallow(Array(items), depth) ==> Shallow(items[0], depth + 1) && Shallow(Array(items[1..]), depth)
    ensures UniqueKeys(Array(items)) ==> UniqueKeys(items[0]) && UniqueKeys(Array(items[1..]))
    ensures IsOrdered(Array(items)) ==> IsOrdered(items[0]) && IsOrdered(Array(items[1..]))
  {
    hide Less, EncodedKey;
  }

  lemma {:induction false} ItemsExplain(items: seq<Value>, depth: nat)
    requires depth <= MAX_DEPTH
    ensures Explains(FaultOfItems(items, depth + 1), Shallow(Array(items), depth), UniqueKeys(Array(items)),
                     IsOrdered(Array(items)))
    decreases items
  {
    hide Fault, Shallow, UniqueKeys, IsOrdered;
    if items != [] {
      ArrayParts(items, depth);
      FaultExplains(items[0], depth + 1);
      ItemsExplain(items[1..], depth);
    }
  }

  lemma {:induction false} EntriesExplain(entries: seq<Entry>, previous: Option<Str>, depth: nat)
    ensures var before := if previous.Some? then Some(EncodedKey(previous.value)) else None;
            Explains(FaultOfEntries(entries, before, depth), ShallowEntries(entries, depth),
                     UniqueEntries(previous, entries), OrderedEntries(previous, entries))
    decreases entries
  {
    hide Fault, Shallow, UniqueKeys, IsOrdered, Less, EncodedKey, ShallowEntries, UniqueEntries, OrderedEntries;
    if entries != [] {
      if previous.Some? && EncodedKey(previous.value) == EncodedKey(entries[0].key) {
        EncodedKeyIsInjective(previous.value, entries[0].key);
      }
      TailsOf(previous, entries, depth);
      FaultExplains(entries[0].value, depth);
      EntriesExplain(entries[1..], Some(entries[0].key), depth);
    }
  }

  // ---------------------------------------------------------------------------
  // What sorting keeps
  // ---------------------------------------------------------------------------

  predicate Weakly<T>(xs: seq<(seq<byte>, T)>) {
    forall i, j :: 0 <= i < j < |xs| ==> !Less(xs[j].0, xs[i].0)
  }

  lemma NotLessIsTransitive(a: seq<byte>, b: seq<byte>, c: seq<byte>)
    requires !Less(b, a) && !Less(c, b)
    ensures !Less(c, a)
  {
    hide Less;
    LessIsTotal(a, b);
    LessIsTotal(b, c);
    LessIsTotal(a, c);
    if Less(a, b) && Less(b, c) {
      LessIsTransitive(a, b, c);
    }
  }

  lemma WeaklyCons<T>(x: (seq<byte>, T), xs: seq<(seq<byte>, T)>)
    requires Weakly(xs) && forall y <- xs :: !Less(y.0, x.0)
    ensures Weakly([x] + xs)
  {
    hide Less;
    var r := [x] + xs;
    forall i, j | 0 <= i < j < |r| ensures !Less(r[j].0, r[i].0) {
      assert r[j] == xs[j - 1];
      if i == 0 {
        assert xs[j - 1] in xs;
      }
    }
  }

  lemma {:induction false} InsertWeakly<T>(x: (seq<byte>, T), xs: seq<(seq<byte>, T)>)
    requires Weakly(xs)
    ensures Weakly(Insert(x, xs))
  {
    hide Less;
    if xs == [] {
    } else if !Less(xs[0].0, x.0) {
      forall y <- xs ensures !Less(y.0, x.0) {
        var i :| 0 <= i < |xs| && xs[i] == y;
        LessIsTotal(xs[0].0, xs[0].0);
        assert !Less(xs[i].0, xs[0].0);
        NotLessIsTransitive(x.0, xs[0].0, y.0);
      }
      WeaklyCons(x, xs);
    } else {
      assert xs == [xs[0]] + xs[1..];
      InsertWeakly(x, xs[1..]);
      forall y <- Insert(x, xs[1..]) ensures !Less(y.0, xs[0].0) {
        InsertHolds(x, xs[1..], y);
        LessIsTotal(xs[0].0, x.0);
        if y in xs[1..] {
          var i :| 0 <= i < |xs[1..]| && xs[1..][i] == y;
          assert xs[i + 1] == y;
        }
      }
      WeaklyCons(xs[0], Insert(x, xs[1..]));
    }
  }

  /** Sorting never leaves a key after a greater one, repeated keys or not. */
  lemma {:induction false} SortWeakly<T>(xs: seq<(seq<byte>, T)>)
    ensures Weakly(Sort(xs))
  {
    hide Less, Insert;
    if xs != [] {
      SortWeakly(xs[1..]);
      InsertWeakly(xs[0], Sort(xs[1..]));
    }
  }

  lemma {:induction false} InsertStrictly<T>(x: (seq<byte>, T), xs: seq<(seq<byte>, T)>)
    requires Ascending(Insert(x, xs))
    ensures Ascending(xs) && forall y <- xs :: y.0 != x.0
  {
    hide Less;
    var r := Insert(x, xs);
    if xs != [] {
      AscendingTail(r);
      LessIsTotal(x.0, x.0);
      if !Less(xs[0].0, x.0) {
        assert r[1..] == xs;
      } else {
        assert r[1..] == Insert(x, xs[1..]);
        InsertStrictly(x, xs[1..]);
        forall y <- xs[1..] ensures Less(xs[0].0, y.0) {
          InsertHolds(x, xs[1..], y);
        }
        AscendingCons(xs[0], xs[1..]);
        assert [xs[0]] + xs[1..] == xs;
      }
    }
  }

  /** Keys come out strictly ascending only if they were distinct. */
  lemma {:induction false} SortStrictly<T>(xs: seq<(seq<byte>, T)>)
    requires Ascending(Sort(xs))
    ensures DistinctKeys(xs)
  {
    hide Less, Insert;
    if xs != [] {
      InsertStrictly(xs[0], Sort(xs[1..]));
      SortStrictly(xs[1..]);
      forall i, j | 0 <= i < j < |xs| ensures xs[i].0 != xs[j].0 {
        assert xs[j] == xs[1..][j - 1];
        if i == 0 {
          SortHolds(xs[1..], xs[j]);
        } else {
          assert xs[i] == xs[1..][i - 1];
        }
      }
    }
  }

  lemma {:induction false} CanonicalIsOrdered(v: Value)
    ensures IsOrdered(Canonical(v))
    decreases v
  {
    match v
    case Array(items) =>
      forall i | 0 <= i < |items| ensures IsOrdered(Canonical(items[i])) {
        CanonicalIsOrdered(items[i]);
      }
    case Map(entries) =>
      var c := CanonicalEntries(entries);
      var sorted := Seconds(Sort(c));
      hide Sort, EncodedKey, Less, Canonical;
      SortWeakly(c);
      forall i, j | 0 <= i < j < |sorted| ensures !Less(EncodedKey(sorted[j].key), EncodedKey(sorted[i].key)) {
        var _ := SortedEntry(entries, i);
        var _ := SortedEntry(entries, j);
      }
      forall j | 0 <= j < |sorted| ensures IsOrdered(sorted[j].value) {
        var i := SortedEntry(entries, j);
        CanonicalIsOrdered(entries[i].value);
      }
      CanonicalMap(entries);
    case _ =>
  }

  lemma AscendingEntries(entries: seq<Entry>)
    requires IsCanonical(Map(Seconds(Sort(CanonicalEntries(entries)))))
    ensures Ascending(Sort(CanonicalEntries(entries)))
  {
    var c := CanonicalEntries(entries);
    var sorted := Seconds(Sort(c));
    assert forall i, j :: 0 <= i < j < |sorted| ==> Less(EncodedKey(sorted[i].key), EncodedKey(sorted[j].key));
    hide Sort, EncodedKey, Less, Canonical, IsCanonical;
    forall i, j | 0 <= i < j < |sorted| ensures Less(Sort(c)[i].0, Sort(c)[j].0) {
      var _ := SortedEntry(entries, i);
      var _ := SortedEntry(entries, j);
    }
  }

  /** Putting maps in order cannot hide a repeated key. */
  lemma {:induction false} CanonicalOnlyIfUnique(v: Value)
    requires IsCanonical(Canonical(v))
    ensures UniqueKeys(v)
    decreases v
  {
    match v
    case Array(items) =>
      forall i | 0 <= i < |items| ensures UniqueKeys(items[i]) {
        assert Canonical(v).items[i] == Canonical(items[i]);
        CanonicalOnlyIfUnique(items[i]);
      }
    case Map(entries) =>
      var c := CanonicalEntries(entries);
      var sorted := Seconds(Sort(c));
      CanonicalMap(entries);
      AscendingEntries(entries);
      assert forall j :: 0 <= j < |sorted| ==> IsCanonical(sorted[j].value);
      SortStrictly(c);
      hide Sort, EncodedKey, Less, Canonical, IsCanonical;
      forall i, j | 0 <= i < j < |entries| ensures entries[i].key != entries[j].key {
        assert c[i].0 != c[j].0;
      }
      forall i | 0 <= i < |entries| ensures UniqueKeys(entries[i].value) {
        var j := SortedAt(entries, i);
        CanonicalOnlyIfUnique(entries[i].value);
      }
    case _ =>
  }

  lemma {:induction false} CanonicalOnlyIfShallow(v: Value, depth: nat)
    requires Shallow(Canonical(v), depth)
    ensures Shallow(v, depth)
    decreases v
  {
    hide Sort, EncodedKey, Canonical, Shallow;
    match v
    case Array(items) =>
      CanonicalLeafOrArray(v);
      ShallowArray(CanonicalItems(items), depth);
      forall i | 0 <= i < |items| ensures Shallow(items[i], depth + 1) {
        assert CanonicalItems(items)[i] == Canonical(items[i]);
        CanonicalOnlyIfShallow(items[i], depth + 1);
      }
      ShallowArray(items, depth);
    case Map(entries) =>
      CanonicalMap(entries);
      ShallowMap(Seconds(Sort(CanonicalEntries(entries))), depth);
      forall i | 0 <= i < |entries| ensures Shallow(entries[i].value, depth + 1) {
        var j := SortedAt(entries, i);
        CanonicalOnlyIfShallow(entries[i].value, depth + 1);
      }
      ShallowMap(entries, depth);
    case _ => CanonicalLeafOrArray(v);
  }

  lemma {:induction false} CanonicalHasUniqueKeys(v: Value)
    requires IsCanonical(v)
    ensures UniqueKeys(v)
  {
    CanonicalIsFixed(v);
    CanonicalOnlyIfUnique(v);
  }

  // ---------------------------------------------------------------------------
  // The verdict on every encoding
  // ---------------------------------------------------------------------------

  lemma DecodesWritten(v: Value)
    requires |Write(v)| <= ISIZE_MAX
    ensures DecodeCanonical(Write(v)) == match Fault(v, 0) case Some(e) => Err(e) case None => Ok(v)
  {
    hide ReadValue, Write, Fault;
    ReadWritten(v, 0, []);
    assert Write(v) + [] == Write(v);
  }

  /**
   * Encoding anything and decoding it again: the value comes back in key order unless a map
   * repeats a key or it nests too deep, and then the error says which.
   */
  lemma EncodingsDecode(v: Value)
    requires |Encode(v)| <= ISIZE_MAX
    ensures UniqueKeys(v) && Shallow(v, 0) ==> DecodeCanonical(Encode(v)) == Ok(Canonical(v))
    ensures !UniqueKeys(v) && Shallow(v, 0) ==> DecodeCanonical(Encode(v)) == Err(DuplicateMapKey)
    ensures UniqueKeys(v) && !Shallow(v, 0) ==> DecodeCanonical(Encode(v)) == Err(DepthExceeded)
    ensures DecodeCanonical(Encode(v)).Ok? <==> UniqueKeys(v) && Shallow(v, 0)
  {
    hide DecodeCanonical, Encode, Write, Fault, IsCanonical, UniqueKeys, Shallow, IsOrdered, Canonical;
    var w := Canonical(v);
    EncodeIsWrite(v);
    DecodesWritten(w);
    FaultlessExactly(w, 0);
    FaultExplains(w, 0);
    CanonicalIsOrdered(v);
    if UniqueKeys(v) {
      CanonicalIsCanonical(v);
      CanonicalHasUniqueKeys(w);
    } else if IsCanonical(w) {
      CanonicalOnlyIfUnique(v);
    }
    if Shallow(v, 0) {
      CanonicalIsShallow(v, 0);
    } else if Shallow(w, 0) {
      CanonicalOnlyIfShallow(v, 0);
    }
  }

  /** A map written out of key order is refused as such, if nothing else is wrong. */
  lemma UnsortedIsRefused(v: Value)
    requires |Write(v)| <= ISIZE_MAX && UniqueKeys(v) && Shallow(v, 0)
    ensures DecodeCanonical(Write(v)) == if IsCanonical(v) then Ok(v) else Err(UnsortedMapKey)
  {
    hide DecodeCanonical, Write, Fault, IsCanonical, UniqueKeys, Shallow, IsOrdered;
    DecodesWritten(v);
    FaultlessExactly(v, 0);
    FaultExplains(v, 0);
  }

  /** Anything after a complete item is refused. */
  lemma TrailingIsRefused(v: Value, extra: seq<byte>)
    requires |Encode(v)| <= ISIZE_MAX && UniqueKeys(v) && Shallow(v, 0) && extra != []
    ensures DecodeCanonical(Encode(v) + extra) == Err(TrailingData)
  {
    hide ReadValue, Encode, Write, Fault, IsCanonical, UniqueKeys, Shallow, Canonical;
    EncodeIsWrite(v);
    CanonicalIsCanonical(v);
    CanonicalIsShallow(v, 0);
    FaultlessExactly(Canonical(v), 0);
    ReadWritten(Canonical(v), 0, extra);
  }

  // ---------------------------------------------------------------------------
  // Truncation
  // ---------------------------------------------------------------------------

  lemma CutHead(major: Major, arg: u64, k: nat)
    requires k < |WriteHead(major, arg)|
    ensures ReadHead(WriteHead(major, arg)[..k]) == Err(UnexpectedEof)
  {
    hide ToBytes, FromBytes, Initial;
    var s := WriteHead(major, arg)[..k];
    if k > 0 {
      assert s[0] == WriteHead(major, arg)[0];
      InitialSplits(major, if arg <= 0x17 then arg else if arg <= 0xFF then 0x18 else if arg <= 0xFFFF then 0x19
                           else if arg <= 0xFFFF_FFFF then 0x1A else 0x1B);
    }
  }

  lemma CutBytes(b: seq<byte>, k: nat)
    requires k < |b| <= ISIZE_MAX
    ensures ReadBytes(LenArg(|b|), b[..k]) == Err(UnexpectedEof)
  {}

  /** A cut inside what follows a head leaves the head and a shorter rest. */
  lemma CutAfterHead(major: Major, arg: u64, body: seq<byte>, k: nat)
    requires |WriteHead(major, arg)| <= k <= |WriteHead(major, arg)| + |body|
    ensures (WriteHead(major, arg) + body)[..k] == WriteHead(major, arg) + body[..k - |WriteHead(major, arg)|]
    ensures ReadHead((WriteHead(major, arg) + body)[..k])
            == Ok(Head(major, arg, body[..k - |WriteHead(major, arg)|]))
  {
    hide ReadHead, WriteHead;
    ReadWrittenHead(major, arg, body[..k - |WriteHead(major, arg)|]);
  }

  lemma CutKey(key: Str, previous: Option<seq<byte>>, k: nat)
    requires |key| <= ISIZE_MAX && k < |EncodedKey(key)|
    ensures ReadKey(EncodedKey(key)[..k], previous) == Err(UnexpectedEof)
  {
    hide ReadHead, WriteHead, ReadBytes, Less, IsUtf8;
    var n := |WriteHead(3, LenArg(|key|))|;
    if k < n {
      assert EncodedKey(key)[..k] == WriteHead(3, LenArg(|key|))[..k];
      CutHead(3, LenArg(|key|), k);
    } else {
      CutAfterHead(3, LenArg(|key|), key, k);
      CutBytes(key, k - n);
    }
  }

  /** The head of a value and what follows it. */
  function HeadOf(v: Value): (Major, u64) {
    match v
    case Uint(n) => (0, n)
    case Bytes(b) => (2, LenArg(|b|))
    case Text(t) => (3, LenArg(|t|))
    case Array(items) => (4, LenArg(|items|))
    case Map(entries) => (5, LenArg(|entries|))
  }

  function BodyOf(v: Value): seq<byte> {
    match v
    case Uint(n) => []
    case Bytes(b) => b
    case Text(t) => t
    case Array(items) => WriteItems(items)
    case Map(entries) => WriteEntries(entries)
  }

  lemma WriteSplits(v: Value)
    ensures Write(v) == WriteHead(HeadOf(v).0, HeadOf(v).1) + BodyOf(v)
  {
    hide WriteHead;
  }

  /** A value without fault that is cut short is reported as ending too early. */
  lemma {:induction false} CutValue(v: Value, depth: nat, k: nat)
    requires depth <= MAX_DEPTH + 1 && Fault(v, depth).None? && k < |Write(v)| <= ISIZE_MAX
    ensures ReadValue(Write(v)[..k], depth) == Err(UnexpectedEof)
    decreases v
  {
    hide ReadHead, WriteHead, ReadBytes, Less, IsUtf8, EncodedKey, ReadItems, ReadEntries, FaultOfItems,
         FaultOfEntries, WriteItems, WriteEntries;
    WriteSplits(v);
    var (major, arg) := HeadOf(v);
    var n := |WriteHead(major, arg)|;
    if k < n {
      assert Write(v)[..k] == WriteHead(major, arg)[..k];
      CutHead(major, arg, k);
    } else {
      CutAfterHead(major, arg, BodyOf(v), k);
      match v
      case Bytes(b) => CutBytes(b, k - n);
      case Text(t) => CutBytes(t, k - n);
      case Array(items) => if |items| <= k - n { CutItems(items, depth + 1, k - n); }
      case Map(entries) => if 2 * |entries| <= k - n { CutEntries(entries, None, depth + 1, k - n); }
      case _ =>
    }
  }

  lemma {:induction false} CutItems(items: seq<Value>, depth: nat, k: nat)
    requires depth <= MAX_DEPTH + 1 && FaultOfItems(items, depth).None? && k < |WriteItems(items)| <= ISIZE_MAX
    ensures ReadItems(WriteItems(items)[..k], |items|, depth) == Err(UnexpectedEof)
    decreases items
  {
    hide ReadValue, Write, Fault;
    var first, rest := Write(items[0]), WriteItems(items[1..]);
    if k < |first| {
      assert (first + rest)[..k] == first[..k];
      CutValue(items[0], depth, k);
    } else {
      assert (first + rest)[..k] == first + rest[..k - |first|];
      ReadWritten(items[0], depth, rest[..k - |first|]);
      CutItems(items[1..], depth, k - |first|);
    }
  }

  lemma {:induction false} CutEntries(entries: seq<Entry>, previous: Option<seq<byte>>, depth: nat, k: nat)
    requires depth <= MAX_DEPTH + 1 && FaultOfEntries(entries, previous, depth).None?
    requires k < |WriteEntries(entries)| <= ISIZE_MAX
    ensures ReadEntries(WriteEntries(entries)[..k], |entries|, previous, depth) == Err(UnexpectedEof)
    decreases entries
  {
    hide ReadValue, ReadKey, Write, Fault, Less, EncodedKey, WriteEntries;
    WriteEntriesSplit(entries, []);
    WriteEntriesSplit([], []);
    var e := entries[0];
    var key, first, rest := EncodedKey(e.key), Write(e.value), WriteEntries(entries[1..]);
    assert WriteEntries(entries) == key + (first + rest) by {
      assert WriteEntries(entries) + [] == WriteEntries(entries) && rest + [] == rest;
    }
    if k < |key| {
      assert (key + (first + rest))[..k] == key[..k];
      CutKey(e.key, previous, k);
    } else {
      var left := (first + rest)[..k - |key|];
      assert (key + (first + rest))[..k] == key + left;
      ReadWrittenKey(e.key, previous, left);
      if k - |key| < |first| {
        assert left == first[..k - |key|];
        CutValue(e.value, depth, k - |key|);
      } else {
        var more := rest[..k - |key| - |first|];
        assert left == first + more;
        ReadWritten(e.value, depth, more);
        CutEntries(entries[1..], Some(key), depth, k - |key| - |first|);
      }
    }
  }

  /** Every proper prefix of an accepted encoding is reported as ending too early. */
  lemma TruncatedIsRefused(v: Value, k: nat)
    requires UniqueKeys(v) && Shallow(v, 0) && k < |Encode(v)| <= ISIZE_MAX
    ensures DecodeCanonical(Encode(v)[..k]) == Err(UnexpectedEof)
  {
    hide ReadValue, Encode, Write, Fault, IsCanonical, UniqueKeys, Shallow, Canonical;
    EncodeIsWrite(v);
    CanonicalIsCanonical(v);
    CanonicalIsShallow(v, 0);
    FaultlessExactly(Canonical(v), 0);
    CutValue(Canonical(v), 0, k);
  }

  // ---------------------------------------------------------------------------
  // Items outside the profile
  // ---------------------------------------------------------------------------

  /** The least argument that needs `k` bytes. */
  function Floor(k: nat): nat {
    if k == 1 then 24 else if k == 2 then 0x100 else if k == 4 then 0x1_0000 else 0x1_0000_0000
  }

  function InfoOf(k: nat): nat {
    if k == 1 then 24 else if k == 2 then 25 else if k == 4 then 26 else 27
  }

  /** An argument written longer than it needs to be is refused. */
  lemma LongFormIsRefused(major: Major, arg: nat, k: nat, rest: seq<byte>)
    requires k in {1, 2, 4, 8} && arg < Floor(k)
    ensures ReadHead([Initial(major, InfoOf(k))] + ToBytes(arg, k) + rest) == Err(NonShortestInt)
  {
    var s := [Initial(major, InfoOf(k))] + ToBytes(arg, k) + rest;
    Powers();
    hide Pow256, ToBytes, FromBytes, Initial;
    InitialSplits(major, InfoOf(k));
    assert s[1..] == ToBytes(arg, k) + rest && s[1..][..k] == ToBytes(arg, k);
    FromToBytes(arg, k);
  }

  /** The reserved additional information, and indefinite lengths, are refused. */
  lemma ReservedIsRefused(major: Major, info: nat, rest: seq<byte>)
    requires 28 <= info < 32
    ensures ReadHead([Initial(major, info)] + rest)
            == if info == 31 then Err(IndefiniteLength) else Err(ReservedAdditionalInfo)
  {
    hide Initial;
    InitialSplits(major, info);
  }

  /** Negative integers, tags, floats and simple values are refused, each by name. */
  lemma ForeignIsRefused(major: Major, arg: u64, rest: seq<byte>)
    requires major in {1, 6, 7}
    ensures DecodeCanonical(WriteHead(major, arg) + rest)
            == Err(if major == 1 then NegativeInteger else if major == 6 then Tag else FloatOrSimple)
  {
    hide ReadHead, WriteHead;
    ReadWrittenHead(major, arg, rest);
  }

  /** A text string must be UTF-8, whatever follows it. */
  lemma BadTextIsRefused(b: seq<byte>, rest: seq<byte>)
    requires |b| <= ISIZE_MAX && !IsUtf8(b)
    ensures DecodeCanonical(WriteHead(3, LenArg(|b|)) + (b + rest)) == Err(InvalidUtf8)
  {
    hide ReadHead, WriteHead, IsUtf8, ReadBytes;
    ReadWrittenHead(3, LenArg(|b|), b + rest);
    ReadWrittenBytes(b, rest);
  }

  /** A map key must be a text string. */
  lemma NonTextKeyIsRefused(count: u64, major: Major, arg: u64, rest: seq<byte>)
    requires major != 3 && 0 < 2 * count <= |WriteHead(major, arg) + rest| <= ISIZE_MAX
    ensures DecodeCanonical(WriteHead(5, count) + (WriteHead(major, arg) + rest)) == Err(NonTextMapKey)
  {
    hide ReadHead, WriteHead;
    ReadWrittenHead(5, count, WriteHead(major, arg) + rest);
    ReadWrittenHead(major, arg, rest);
  }

  /** A count the rest of the input cannot hold is refused before anything is read. */
  lemma OverlongIsRefused(major: Major, count: u64, rest: seq<byte>)
    requires major in {2, 3, 4, 5} && |rest| <= ISIZE_MAX
    requires var each := if major == 5 then 2 else 1; |rest| < count * each
    ensures DecodeCanonical(WriteHead(major, count) + rest)
            == Err(if major == 5 && 2 * count > USIZE_MAX then LengthOverflow else UnexpectedEof)
  {
    hide ReadHead, WriteHead, ReadItems, ReadEntries;
    ReadWrittenHead(major, count, rest);
  }
}

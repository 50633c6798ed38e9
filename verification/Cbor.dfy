/**
 * The deterministic CBOR codec of crates/iroh-rooms-core/src/event/cbor.rs: the core profile of
 * section 4.2.1 of RFC 8949 over unsigned integers, byte and text strings, arrays and maps
 * with text keys.
 */
module Cbor {
  import opened Prelude
  import opened CborHeads
  import opened KeyOrder
  import opened Utf8

  const MAX_DEPTH: nat := 16

  /** The longest byte vector the target can hold. */
  const ISIZE_MAX: nat := 0x7fff_ffff_ffff_ffff

  datatype Value =
    | Uint(n: u64)
    | Bytes(bytes: seq<byte>)
    | Text(text: Str)
    | Array(items: seq<Value>)
    | Map(entries: seq<Entry>)

  datatype Entry = Entry(key: Str, value: Value)

  // ---------------------------------------------------------------------------
  // Encoding
  // ---------------------------------------------------------------------------

  function LenArg(n: nat): u64 {
    if n <= U64_MAX then n else U64_MAX
  }

  /** The encoded form of a map key, which is what keys are ordered by. */
  function EncodedKey(key: Str): seq<byte> {
    WriteHead(3, LenArg(|key|)) + key
  }

  lemma EncodedKeyIsInjective(a: Str, b: Str)
    requires EncodedKey(a) == EncodedKey(b)
    ensures a == b
  {
    hide ReadHead, WriteHead;
    ReadWrittenHead(3, LenArg(|a|), a);
    ReadWrittenHead(3, LenArg(|b|), b);
  }

  /** The encoder: map entries are put in key order, nested values alike. */
  function Encode(v: Value): (out: seq<byte>)
    decreases v
  {
    match v
    case Uint(n) => WriteHead(0, n)
    case Bytes(b) => WriteHead(2, LenArg(|b|)) + b
    case Text(t) => WriteHead(3, LenArg(|t|)) + t
    case Array(items) => WriteHead(4, LenArg(|items|)) + EncodeItems(items)
    case Map(entries) => WriteHead(5, LenArg(|entries|)) + Flatten(Sort(EncodeEntries(entries)))
  }

  function EncodeItems(items: seq<Value>): seq<byte>
    decreases items
  {
    if items == [] then [] else Encode(items[0]) + EncodeItems(items[1..])
  }

  /** Each entry's bytes, filed under its encoded key. */
  function EncodeEntries(entries: seq<Entry>): seq<(seq<byte>, seq<byte>)>
    decreases entries
  {
    if entries == [] then []
    else
      var key := EncodedKey(entries[0].key);
      [(key, key + Encode(entries[0].value))] + EncodeEntries(entries[1..])
  }

  function Flatten(xs: seq<(seq<byte>, seq<byte>)>): seq<byte> {
    if xs == [] then [] else xs[0].1 + Flatten(xs[1..])
  }

  // ---------------------------------------------------------------------------
  // Canonical values
  // ---------------------------------------------------------------------------

  /** Every map in strictly ascending key order. */
  predicate IsCanonical(v: Value)
    decreases v
  {
    match v
    case Array(items) => forall i :: 0 <= i < |items| ==> IsCanonical(items[i])
    case Map(entries) =>
      && (forall i, j :: 0 <= i < j < |entries| ==> Less(EncodedKey(entries[i].key), EncodedKey(entries[j].key)))
      && (forall i :: 0 <= i < |entries| ==> IsCanonical(entries[i].value))
    case _ => true
  }

  /** No map repeats a key. */
  predicate UniqueKeys(v: Value)
    decreases v
  {
    match v
    case Array(items) => forall i :: 0 <= i < |items| ==> UniqueKeys(items[i])
    case Map(entries) =>
      && (forall i, j :: 0 <= i < j < |entries| ==> entries[i].key != entries[j].key)
      && (forall i :: 0 <= i < |entries| ==> UniqueKeys(entries[i].value))
    case _ => true
  }

  /** The value nests no deeper than the decoder follows, when it starts at `depth`. */
  predicate Shallow(v: Value, depth: nat)
    decreases v
  {
    depth <= MAX_DEPTH &&
    match v
    case Array(items) => forall i :: 0 <= i < |items| ==> Shallow(items[i], depth + 1)
    case Map(entries) => forall i :: 0 <= i < |entries| ==> Shallow(entries[i].value, depth + 1)
    case _ => true
  }

  /** The value with every map put in key order. */
  function Canonical(v: Value): Value
    decreases v
  {
    match v
    case Array(items) => Array(CanonicalItems(items))
    case Map(entries) => Map(Seconds(Sort(CanonicalEntries(entries))))
    case _ => v
  }

  function CanonicalItems(items: seq<Value>): (r: seq<Value>)
    ensures |r| == |items|
    decreases items
  {
    seq(|items|, i requires 0 <= i < |items| => Canonical(items[i]))
  }

  function CanonicalEntries(entries: seq<Entry>): (r: seq<(seq<byte>, Entry)>)
    ensures |r| == |entries|
    decreases entries
  {
    seq(|entries|, i requires 0 <= i < |entries| =>
          (EncodedKey(entries[i].key), Entry(entries[i].key, Canonical(entries[i].value))))
  }

  function Seconds<T>(xs: seq<(seq<byte>, T)>): (r: seq<T>)
    ensures |r| == |xs|
  {
    seq(|xs|, i requires 0 <= i < |xs| => xs[i].1)
  }

  /** The bytes of a value whose maps are written in the order they are held. */
  function Write(v: Value): (out: seq<byte>)
    ensures |out| >= 1
    decreases v
  {
    match v
    case Uint(n) => WriteHead(0, n)
    case Bytes(b) => WriteHead(2, LenArg(|b|)) + b
    case Text(t) => WriteHead(3, LenArg(|t|)) + t
    case Array(items) => WriteHead(4, LenArg(|items|)) + WriteItems(items)
    case Map(entries) => WriteHead(5, LenArg(|entries|)) + WriteEntries(entries)
  }

  function WriteItems(items: seq<Value>): (out: seq<byte>)
    ensures |out| >= |items|
    decreases items
  {
    if items == [] then [] else Write(items[0]) + WriteItems(items[1..])
  }

  function WriteEntry(e: Entry): (out: seq<byte>)
    ensures |out| >= 2
    decreases e
  {
    EncodedKey(e.key) + Write(e.value)
  }

  function WriteEntries(entries: seq<Entry>): (out: seq<byte>)
    ensures |out| >= 2 * |entries|
    decreases entries
  {
    if entries == [] then [] else WriteEntry(entries[0]) + WriteEntries(entries[1..])
  }

  // ---------------------------------------------------------------------------
  // Encoding is canonicalizing, then writing
  // ---------------------------------------------------------------------------

  lemma {:induction false} EncodeIsWrite(v: Value)
    ensures Encode(v) == Write(Canonical(v))
    decreases v
  {
    match v
    case Array(items) =>
      EncodeItemsIsWrite(items);
    case Map(entries) =>
      hide Insert;
      var c := CanonicalEntries(entries);
      EncodeEntriesIsWrite(entries);
      SortMaps(WriteEntry, c);
      FlattenIsWrite(Sort(c));
    case _ =>
  }

  lemma {:induction false} EncodeItemsIsWrite(items: seq<Value>)
    ensures EncodeItems(items) == WriteItems(CanonicalItems(items))
    decreases items
  {
    if items != [] {
      EncodeIsWrite(items[0]);
      EncodeItemsIsWrite(items[1..]);
      assert CanonicalItems(items)[1..] == CanonicalItems(items[1..]);
    }
  }

  lemma {:induction false} EncodeEntriesIsWrite(entries: seq<Entry>)
    ensures EncodeEntries(entries) == MapPairs(WriteEntry, CanonicalEntries(entries))
    decreases entries
  {
    if entries != [] {
      EncodeIsWrite(entries[0].value);
      EncodeEntriesIsWrite(entries[1..]);
      assert CanonicalEntries(entries)[1..] == CanonicalEntries(entries[1..]);
    }
  }

  lemma {:induction false} FlattenIsWrite(xs: seq<(seq<byte>, Entry)>)
    ensures Flatten(MapPairs(WriteEntry, xs)) == WriteEntries(Seconds(xs))
  {
    hide WriteEntry;
    if xs != [] {
      FlattenIsWrite(xs[1..]);
      assert MapPairs(WriteEntry, xs)[1..] == MapPairs(WriteEntry, xs[1..]);
      assert Seconds(xs)[1..] == Seconds(xs[1..]);
    }
  }

  /** The sorted entries of a map, and where each comes from. */
  lemma SortedEntry(entries: seq<Entry>, j: nat) returns (i: nat)
    requires j < |entries|
    ensures i < |entries| && |Sort(CanonicalEntries(entries))| == |entries|
    ensures var e := Seconds(Sort(CanonicalEntries(entries)))[j];
            && Sort(CanonicalEntries(entries))[j] == (EncodedKey(e.key), e)
            && e == Entry(entries[i].key, Canonical(entries[i].value))
  {
    hide Canonical, Sort, EncodedKey;
    var c := CanonicalEntries(entries);
    var y := Sort(c)[j];
    assert y in Sort(c);
    SortHolds(c, y);
    i :| 0 <= i < |c| && c[i] == y;
  }

  /** Where an entry of a map ends up. */
  lemma SortedAt(entries: seq<Entry>, i: nat) returns (j: nat)
    requires i < |entries|
    ensures j < |entries| && |Sort(CanonicalEntries(entries))| == |entries|
    ensures Seconds(Sort(CanonicalEntries(entries)))[j] == Entry(entries[i].key, Canonical(entries[i].value))
  {
    hide Canonical, Sort, EncodedKey;
    var c := CanonicalEntries(entries);
    assert c[i] in c;
    SortHolds(c, c[i]);
    j :| 0 <= j < |Sort(c)| && Sort(c)[j] == c[i];
  }

  lemma {:induction false} CanonicalIsCanonical(v: Value)
    requires UniqueKeys(v)
    ensures IsCanonical(Canonical(v))
    decreases v
  {
    match v
    case Array(items) =>
      forall i | 0 <= i < |items| ensures IsCanonical(Canonical(items[i])) {
        CanonicalIsCanonical(items[i]);
      }
    case Map(entries) =>
      var c := CanonicalEntries(entries);
      var sorted := Seconds(Sort(c));
      forall i, j | 0 <= i < j < |c| ensures c[i].0 != c[j].0 {
        if c[i].0 == c[j].0 {
          EncodedKeyIsInjective(entries[i].key, entries[j].key);
        }
      }
      SortAscends(c);
      hide Sort, EncodedKey, Less, Canonical;
      forall i, j | 0 <= i < j < |sorted| ensures Less(EncodedKey(sorted[i].key), EncodedKey(sorted[j].key)) {
        var _ := SortedEntry(entries, i);
        var _ := SortedEntry(entries, j);
      }
      forall j | 0 <= j < |sorted| ensures IsCanonical(sorted[j].value) {
        var i := SortedEntry(entries, j);
        CanonicalIsCanonical(entries[i].value);
      }
      assert Canonical(v) == Map(sorted) by { CanonicalMap(entries); }
    case _ =>
  }

  lemma CanonicalMap(entries: seq<Entry>)
    ensures Canonical(Map(entries)) == Map(Seconds(Sort(CanonicalEntries(entries))))
  {}

  lemma {:induction false} CanonicalIsShallow(v: Value, depth: nat)
    requires Shallow(v, depth)
    ensures Shallow(Canonical(v), depth)
    decreases v
  {
    hide Sort, EncodedKey, Canonical, Shallow;
    match v
    case Array(items) =>
      ShallowArray(items, depth);
      forall i | 0 <= i < |items| ensures Shallow(CanonicalItems(items)[i], depth + 1) {
        CanonicalIsShallow(items[i], depth + 1);
      }
      ShallowArray(CanonicalItems(items), depth);
      CanonicalLeafOrArray(v);
    case Map(entries) =>
      var sorted := Seconds(Sort(CanonicalEntries(entries)));
      ShallowMap(entries, depth);
      forall j | 0 <= j < |sorted| ensures Shallow(sorted[j].value, depth + 1) {
        var i := SortedEntry(entries, j);
        CanonicalIsShallow(entries[i].value, depth + 1);
      }
      ShallowMap(sorted, depth);
      CanonicalMap(entries);
    case _ =>
      CanonicalLeafOrArray(v);
  }

  lemma CanonicalLeafOrArray(v: Value)
    ensures v.Array? ==> Canonical(v) == Array(CanonicalItems(v.items))
    ensures !v.Array? && !v.Map? ==> Canonical(v) == v
  {}

  lemma ShallowArray(items: seq<Value>, depth: nat)
    ensures Shallow(Array(items), depth)
            <==> depth <= MAX_DEPTH && forall i :: 0 <= i < |items| ==> Shallow(items[i], depth + 1)
  {}

  lemma ShallowMap(entries: seq<Entry>, depth: nat)
    ensures Shallow(Map(entries), depth)
            <==> depth <= MAX_DEPTH && forall i :: 0 <= i < |entries| ==> Shallow(entries[i].value, depth + 1)
  {}

  /** A canonical value is its own canonical form. */
  lemma {:induction false} CanonicalIsFixed(v: Value)
    requires IsCanonical(v)
    ensures Canonical(v) == v
    decreases v
  {
    match v
    case Array(items) =>
      forall i | 0 <= i < |items| ensures Canonical(items[i]) == items[i] {
        CanonicalIsFixed(items[i]);
      }
    case Map(entries) =>
      var c := CanonicalEntries(entries);
      forall i | 0 <= i < |entries| ensures Canonical(entries[i].value) == entries[i].value {
        CanonicalIsFixed(entries[i].value);
      }
      CanonicalMap(entries);
      hide Canonical, Sort, EncodedKey, Less;
      SortKeepsAscending(c);
      assert Seconds(c) == entries;
    case _ =>
  }
}

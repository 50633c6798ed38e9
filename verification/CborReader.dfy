/**
 * The strict decoder of crates/iroh-rooms-core/src/event/cbor.rs, which checks the deterministic
 * profile while it parses, and what it accepts: exactly the encodings of canonical values.
 *
 * A byte slice is at most `ISIZE_MAX` long on the targets, so advancing the read position never
 * overflows; a declared count can.
 */
module CborReader {
  import opened Prelude
  import opened Utf8
  import opened CborHeads
  import opened KeyOrder
  import opened Cbor

  datatype Got<+T> = Got(value: T, rest: seq<byte>)

  /** A declared count, refused when the remaining input cannot hold it. */
  function CheckedLen(arg: u64, each: nat, s: seq<byte>): Result<nat, Error> {
    if arg * each > USIZE_MAX then Err(LengthOverflow)
    else if arg * each > |s| then Err(UnexpectedEof)
    else Ok(arg)
  }

  function ReadBytes(arg: u64, s: seq<byte>): Result<Got<seq<byte>>, Error> {
    match CheckedLen(arg, 1, s)
    case Err(e) => Err(e)
    case Ok(n) => Ok(Got(s[..n], s[n..]))
  }

  function ReadText(arg: u64, s: seq<byte>): Result<Got<Str>, Error> {
    match ReadBytes(arg, s)
    case Err(e) => Err(e)
    case Ok(got) => if IsUtf8(got.value) then Ok(Got(got.value, got.rest)) else Err(InvalidUtf8)
  }

  /** The next map key, which must come after the previous one. */
  function ReadKey(s: seq<byte>, previous: Option<seq<byte>>): Result<Got<Str>, Error> {
    match ReadHead(s)
    case Err(e) => Err(e)
    case Ok(head) =>
      if head.major != 3 then Err(NonTextMapKey)
      else
        match ReadText(head.arg, head.rest)
        case Err(e) => Err(e)
        case Ok(got) =>
          if previous.Some? && Less(EncodedKey(got.value), previous.value) then Err(UnsortedMapKey)
          else if previous == Some(EncodedKey(got.value)) then Err(DuplicateMapKey)
          else Ok(got)
  }

  function ReadValue(s: seq<byte>, depth: nat): Result<Got<Value>, Error>
    requires depth <= MAX_DEPTH + 1
    decreases 2 * (MAX_DEPTH + 1 - depth), 0
  {
    if depth > MAX_DEPTH then Err(DepthExceeded)
    else
      match ReadHead(s)
      case Err(e) => Err(e)
      case Ok(head) => ReadBody(head, depth)
  }

  /** What a head announces. */
  function ReadBody(head: Head, depth: nat): Result<Got<Value>, Error>
    requires depth <= MAX_DEPTH
    decreases 2 * (MAX_DEPTH - depth) + 1, 1
  {
    if head.major == 0 then Ok(Got(Uint(head.arg), head.rest))
    else if head.major == 1 then Err(NegativeInteger)
    else if head.major == 2 then
      match ReadBytes(head.arg, head.rest)
      case Err(e) => Err(e)
      case Ok(got) => Ok(Got(Bytes(got.value), got.rest))
    else if head.major == 3 then
      match ReadText(head.arg, head.rest)
      case Err(e) => Err(e)
      case Ok(got) => Ok(Got(Text(got.value), got.rest))
    else if head.major == 4 then
      match CheckedLen(head.arg, 1, head.rest)
      case Err(e) => Err(e)
      case Ok(n) =>
        match ReadItems(head.rest, n, depth + 1)
        case Err(e) => Err(e)
        case Ok(got) => Ok(Got(Array(got.value), got.rest))
    else if head.major == 5 then
      match CheckedLen(head.arg, 2, head.rest)
      case Err(e) => Err(e)
      case Ok(n) =>
        match ReadEntries(head.rest, n, None, depth + 1)
        case Err(e) => Err(e)
        case Ok(got) => Ok(Got(Map(got.value), got.rest))
    else if head.major == 6 then Err(Tag)
    else Err(FloatOrSimple)
  }

  function ReadItems(s: seq<byte>, n: nat, depth: nat): Result<Got<seq<Value>>, Error>
    requires depth <= MAX_DEPTH + 1
    decreases 2 * (MAX_DEPTH + 1 - depth) + 1, 0, n
  {
    if n == 0 then Ok(Got([], s))
    else
      match ReadValue(s, depth)
      case Err(e) => Err(e)
      case Ok(first) =>
        match ReadItems(first.rest, n - 1, depth)
        case Err(e) => Err(e)
        case Ok(got) => Ok(Got([first.value] + got.value, got.rest))
  }

  function ReadEntries(s: seq<byte>, n: nat, previous: Option<seq<byte>>, depth: nat): Result<Got<seq<Entry>>, Error>
    requires depth <= MAX_DEPTH + 1
    decreases 2 * (MAX_DEPTH + 1 - depth) + 1, 0, n
  {
    if n == 0 then Ok(Got([], s))
    else
      match ReadKey(s, previous)
      case Err(e) => Err(e)
      case Ok(key) =>
        match ReadValue(key.rest, depth)
        case Err(e) => Err(e)
        case Ok(first) =>
          match ReadEntries(first.rest, n - 1, Some(EncodedKey(key.value)), depth)
          case Err(e) => Err(e)
          case Ok(got) => Ok(Got([Entry(key.value, first.value)] + got.value, got.rest))
  }

  /** One canonical item and nothing after it. */
  function DecodeCanonical(input: seq<byte>): Result<Value, Error> {
    match ReadValue(input, 0)
    case Err(e) => Err(e)
    case Ok(got) => if got.rest == [] then Ok(got.value) else Err(TrailingData)
  }

  // ---------------------------------------------------------------------------
  // What is written is read back, or refused for its first fault
  // ---------------------------------------------------------------------------

  /** The first fault of a value, in the order its bytes are written: too deep, or keys out of order. */
  function Fault(v: Value, depth: nat): Option<Error>
    decreases v
  {
    if depth > MAX_DEPTH then Some(DepthExceeded)
    else
      match v
      case Array(items) => FaultOfItems(items, depth + 1)
      case Map(entries) => FaultOfEntries(entries, None, depth + 1)
      case _ => None
  }

  function FaultOfItems(items: seq<Value>, depth: nat): Option<Error>
    decreases items
  {
    if items == [] then None
    else if Fault(items[0], depth).Some? then Fault(items[0], depth)
    else FaultOfItems(items[1..], depth)
  }

  function FaultOfEntries(entries: seq<Entry>, previous: Option<seq<byte>>, depth: nat): Option<Error>
    decreases entries
  {
    if entries == [] then None
    else
      var key := EncodedKey(entries[0].key);
      if previous.Some? && Less(key, previous.value) then Some(UnsortedMapKey)
      else if previous == Some(key) then Some(DuplicateMapKey)
      else if Fault(entries[0].value, depth).Some? then Fault(entries[0].value, depth)
      else FaultOfEntries(entries[1..], Some(key), depth)
  }

  lemma ReadWrittenBytes(b: seq<byte>, rest: seq<byte>)
    requires |b| <= ISIZE_MAX
    ensures ReadBytes(LenArg(|b|), b + rest) == Ok(Got(b, rest))
  {
    assert (b + rest)[..|b|] == b && (b + rest)[|b|..] == rest;
  }

  lemma ReadWrittenKey(key: Str, previous: Option<seq<byte>>, rest: seq<byte>)
    requires |key| <= ISIZE_MAX
    ensures ReadKey(EncodedKey(key) + rest, previous)
            == if previous.Some? && Less(EncodedKey(key), previous.value) then Err(UnsortedMapKey)
               else if previous == Some(EncodedKey(key)) then Err(DuplicateMapKey)
               else Ok(Got(key, rest))
  {
    hide ReadHead, WriteHead, ReadBytes, Less, IsUtf8;
    var head := WriteHead(3, LenArg(|key|));
    assert (head + key) + rest == head + (key + rest);
    ReadWrittenHead(3, LenArg(|key|), key + rest);
    ReadWrittenBytes(key, rest);
  }

  /** The outcome of reading a value that was written in the order it is held. */
  function ReadBack<T>(fault: Option<Error>, value: T, rest: seq<byte>): Result<Got<T>, Error> {
    match fault
    case Some(e) => Err(e)
    case None => Ok(Got(value, rest))
  }

  /** Any value, written in the order it is held, is read back whole or refused for its first fault. */
  lemma {:induction false} ReadWritten(v: Value, depth: nat, rest: seq<byte>)
    requires depth <= MAX_DEPTH + 1 && |Write(v)| <= ISIZE_MAX
    ensures ReadValue(Write(v) + rest, depth) == ReadBack(Fault(v, depth), v, rest)
    decreases v
  {
    hide ReadHead, WriteHead, ReadBytes, Less, IsUtf8, EncodedKey, ReadItems, ReadEntries, FaultOfItems,
         FaultOfEntries;
    match v
    case Uint(n) => ReadWrittenHead(0, n, rest);
    case Bytes(b) =>
      assert (WriteHead(2, LenArg(|b|)) + b) + rest == WriteHead(2, LenArg(|b|)) + (b + rest);
      ReadWrittenHead(2, LenArg(|b|), b + rest);
      ReadWrittenBytes(b, rest);
    case Text(t) =>
      assert (WriteHead(3, LenArg(|t|)) + t) + rest == WriteHead(3, LenArg(|t|)) + (t + rest);
      ReadWrittenHead(3, LenArg(|t|), t + rest);
      ReadWrittenBytes(t, rest);
    case Array(items) =>
      var body := WriteItems(items);
      assert (WriteHead(4, LenArg(|items|)) + body) + rest == WriteHead(4, LenArg(|items|)) + (body + rest);
      ReadWrittenHead(4, LenArg(|items|), body + rest);
      if depth <= MAX_DEPTH {
        ReadWrittenItems(items, depth + 1, rest);
      }
    case Map(entries) =>
      var body := WriteEntries(entries);
      assert (WriteHead(5, LenArg(|entries|)) + body) + rest == WriteHead(5, LenArg(|entries|)) + (body + rest);
      ReadWrittenHead(5, LenArg(|entries|), body + rest);
      if depth <= MAX_DEPTH {
        ReadWrittenEntries(entries, None, depth + 1, rest);
      }
  }

  lemma {:induction false} ReadWrittenItems(items: seq<Value>, depth: nat, rest: seq<byte>)
    requires depth <= MAX_DEPTH + 1 && |WriteItems(items)| <= ISIZE_MAX
    ensures ReadItems(WriteItems(items) + rest, |items|, depth) == ReadBack(FaultOfItems(items, depth), items, rest)
    decreases items
  {
    hide ReadValue, Write, Fault;
    if items == [] {
      assert WriteItems(items) + rest == rest;
    } else {
      var tail := WriteItems(items[1..]) + rest;
      assert WriteItems(items) + rest == Write(items[0]) + tail;
      ReadWritten(items[0], depth, tail);
      ReadWrittenItems(items[1..], depth, rest);
      assert [items[0]] + items[1..] == items;
    }
  }

  lemma {:induction false} ReadWrittenEntries(entries: seq<Entry>, previous: Option<seq<byte>>, depth: nat,
                                              rest: seq<byte>)
    requires depth <= MAX_DEPTH + 1 && |WriteEntries(entries)| <= ISIZE_MAX
    ensures ReadEntries(WriteEntries(entries) + rest, |entries|, previous, depth)
            == ReadBack(FaultOfEntries(entries, previous, depth), entries, rest)
    decreases entries
  {
    hide ReadValue, ReadKey, Write, WriteEntries, Fault, Less, EncodedKey;
    WriteEntriesSplit(entries, rest);
    if entries != [] {
      var e := entries[0];
      var tail := WriteEntries(entries[1..]) + rest;
      ReadWrittenKey(e.key, previous, Write(e.value) + tail);
      ReadWritten(e.value, depth, tail);
      ReadWrittenEntries(entries[1..], Some(EncodedKey(e.key)), depth, rest);
      assert [e] + entries[1..] == entries;
    }
  }

  lemma WriteEntriesSplit(entries: seq<Entry>, rest: seq<byte>)
    ensures entries == [] ==> WriteEntries(entries) + rest == rest
    ensures entries != [] ==>
              && WriteEntries(entries) + rest
                 == EncodedKey(entries[0].key) + (Write(entries[0].value) + (WriteEntries(entries[1..]) + rest))
              && |entries[0].key| + |Write(entries[0].value)| + |WriteEntries(entries[1..])| <= |WriteEntries(entries)|
  {
    hide Write;
  }

  // ---------------------------------------------------------------------------
  // A value is without fault exactly when it is canonical and not too deep
  // ---------------------------------------------------------------------------

  /** Each key comes after the one before it. */
  predicate KeysAscend(previous: Option<seq<byte>>, entries: seq<Entry>)
    decreases |entries|
  {
    entries == []
    || ((previous.None? || Less(previous.value, EncodedKey(entries[0].key)))
        && KeysAscend(Some(EncodedKey(entries[0].key)), entries[1..]))
  }

  lemma {:induction false} AscendingKeys(previous: Option<seq<byte>>, entries: seq<Entry>)
    requires forall i, j :: 0 <= i < j < |entries| ==> Less(EncodedKey(entries[i].key), EncodedKey(entries[j].key))
    requires previous.Some? ==> forall i :: 0 <= i < |entries| ==> Less(previous.value, EncodedKey(entries[i].key))
    ensures KeysAscend(previous, entries)
    decreases |entries|
  {
    hide Less, EncodedKey;
    if entries != [] {
      AscendingKeys(Some(EncodedKey(entries[0].key)), entries[1..]);
    }
  }

  lemma {:induction false} KeysAscendPairwise(previous: Option<seq<byte>>, entries: seq<Entry>)
    requires KeysAscend(previous, entries)
    ensures forall i, j :: 0 <= i < j < |entries| ==> Less(EncodedKey(entries[i].key), EncodedKey(entries[j].key))
    ensures previous.Some? ==> forall i :: 0 <= i < |entries| ==> Less(previous.value, EncodedKey(entries[i].key))
    decreases |entries|
  {
    hide Less, EncodedKey;
    if entries != [] {
      var first := EncodedKey(entries[0].key);
      KeysAscendPairwise(Some(first), entries[1..]);
      assert forall i :: 1 <= i < |entries| ==> entries[i] == entries[1..][i - 1];
      if previous.Some? {
        forall i | 1 <= i < |entries| ensures Less(previous.value, EncodedKey(entries[i].key)) {
          LessIsTransitive(previous.value, first, EncodedKey(entries[i].key));
        }
      }
    }
  }

  lemma {:induction false} FaultlessExactly(v: Value, depth: nat)
    ensures Fault(v, depth).None? <==> IsCanonical(v) && Shallow(v, depth)
    decreases v
  {
    hide Less, EncodedKey;
    if depth <= MAX_DEPTH {
      match v
      case Array(items) => FaultlessItems(items, depth + 1);
      case Map(entries) =>
        FaultlessEntries(entries, None, depth + 1);
        if KeysAscend(None, entries) {
          KeysAscendPairwise(None, entries);
        }
        if IsCanonical(v) {
          AscendingKeys(None, entries);
        }
        hide KeysAscend, FaultOfEntries;
      case _ =>
    }
  }

  lemma {:induction false} FaultlessItems(items: seq<Value>, depth: nat)
    ensures FaultOfItems(items, depth).None?
            <==> forall i :: 0 <= i < |items| ==> IsCanonical(items[i]) && Shallow(items[i], depth)
    decreases items
  {
    hide Fault, IsCanonical, Shallow;
    if items != [] {
      FaultlessExactly(items[0], depth);
      FaultlessItems(items[1..], depth);
      assert forall i :: 1 <= i < |items| ==> items[i] == items[1..][i - 1];
    }
  }

  lemma {:induction false} FaultlessEntries(entries: seq<Entry>, previous: Option<seq<byte>>, depth: nat)
    ensures FaultOfEntries(entries, previous, depth).None?
            <==> && KeysAscend(previous, entries)
                 && forall i :: 0 <= i < |entries| ==> IsCanonical(entries[i].value) && Shallow(entries[i].value, depth)
    decreases entries
  {
    hide Fault, IsCanonical, Shallow, Less, EncodedKey;
    if entries != [] {
      var key := EncodedKey(entries[0].key);
      if previous.Some? {
        LessIsTotal(previous.value, key);
      }
      FaultlessExactly(entries[0].value, depth);
      FaultlessEntries(entries[1..], Some(key), depth);
      assert forall i :: 1 <= i < |entries| ==> entries[i] == entries[1..][i - 1];
    }
  }

  // ---------------------------------------------------------------------------
  // What is read was written
  // ---------------------------------------------------------------------------

  lemma ReadBytesIsWritten(arg: u64, s: seq<byte>)
    requires ReadBytes(arg, s).Ok?
    ensures var got := ReadBytes(arg, s).value; |got.value| == arg && s == got.value + got.rest
  {}

  lemma ReadKeyIsWritten(s: seq<byte>, previous: Option<seq<byte>>)
    requires ReadKey(s, previous).Ok?
    ensures var got := ReadKey(s, previous).value;
            s == EncodedKey(got.value) + got.rest && (previous.Some? ==> Less(previous.value, EncodedKey(got.value)))
  {
    hide ReadHead, WriteHead, ReadBytes, Less, IsUtf8;
    var head := ReadHead(s).value;
    var got := ReadKey(s, previous).value;
    ReadHeadIsWritten(s);
    ReadBytesIsWritten(head.arg, head.rest);
    assert WriteHead(3, head.arg) + (got.value + got.rest) == (WriteHead(3, head.arg) + got.value) + got.rest;
    if previous.Some? {
      LessIsTotal(previous.value, EncodedKey(got.value));
    }
  }

  /** Whatever is read is a canonical value, and its bytes are what was consumed. */
  lemma {:induction false} ReadIsWritten(s: seq<byte>, depth: nat)
    requires depth <= MAX_DEPTH + 1 && ReadValue(s, depth).Ok?
    ensures var got := ReadValue(s, depth).value;
            IsCanonical(got.value) && Shallow(got.value, depth) && s == Write(got.value) + got.rest
    decreases 2 * (MAX_DEPTH + 1 - depth), 0
  {
    hide ReadHead, WriteHead, ReadBytes, Less, IsUtf8, EncodedKey, ReadItems, ReadEntries;
    var head := ReadHead(s).value;
    var got := ReadValue(s, depth).value;
    ReadHeadIsWritten(s);
    if head.major == 2 || head.major == 3 {
      ReadBytesIsWritten(head.arg, head.rest);
      var b := ReadBytes(head.arg, head.rest).value.value;
      assert WriteHead(head.major, head.arg) + (b + got.rest) == (WriteHead(head.major, head.arg) + b) + got.rest;
    } else if head.major == 4 {
      ReadItemsAreWritten(head.rest, head.arg, depth + 1);
      var body := WriteItems(got.value.items);
      assert WriteHead(4, head.arg) + (body + got.rest) == (WriteHead(4, head.arg) + body) + got.rest;
    } else if head.major == 5 {
      ReadEntriesAreWritten(head.rest, head.arg, None, depth + 1);
      KeysAscendPairwise(None, got.value.entries);
      var body := WriteEntries(got.value.entries);
      assert WriteHead(5, head.arg) + (body + got.rest) == (WriteHead(5, head.arg) + body) + got.rest;
    }
  }

  lemma {:induction false} ReadItemsAreWritten(s: seq<byte>, n: nat, depth: nat)
    requires depth <= MAX_DEPTH + 1 && ReadItems(s, n, depth).Ok?
    ensures var got := ReadItems(s, n, depth).value;
            && |got.value| == n && s == WriteItems(got.value) + got.rest
            && forall i :: 0 <= i < n ==> IsCanonical(got.value[i]) && Shallow(got.value[i], depth)
    decreases 2 * (MAX_DEPTH + 1 - depth) + 1, 0, n
  {
    hide ReadValue, Write, IsCanonical, Shallow;
    if n > 0 {
      var first := ReadValue(s, depth).value;
      ReadIsWritten(s, depth);
      ReadItemsAreWritten(first.rest, n - 1, depth);
      var got := ReadItems(first.rest, n - 1, depth).value;
      var all := [first.value] + got.value;
      assert all[1..] == got.value;
      assert Write(first.value) + (WriteItems(got.value) + got.rest)
          == (Write(first.value) + WriteItems(got.value)) + got.rest;
    }
  }

  lemma {:induction false} ReadEntriesAreWritten(s: seq<byte>, n: nat, previous: Option<seq<byte>>, depth: nat)
    requires depth <= MAX_DEPTH + 1 && ReadEntries(s, n, previous, depth).Ok?
    ensures var got := ReadEntries(s, n, previous, depth).value;
            && |got.value| == n && s == WriteEntries(got.value) + got.rest && KeysAscend(previous, got.value)
            && forall i :: 0 <= i < n ==> IsCanonical(got.value[i].value) && Shallow(got.value[i].value, depth)
    decreases 2 * (MAX_DEPTH + 1 - depth) + 1, 0, n
  {
    hide ReadValue, ReadKey, Write, WriteEntries, IsCanonical, Shallow, Less, EncodedKey;
    if n == 0 {
      WriteEntriesSplit([], s);
    } else {
      var key := ReadKey(s, previous).value;
      var first := ReadValue(key.rest, depth).value;
      ReadKeyIsWritten(s, previous);
      ReadIsWritten(key.rest, depth);
      var enc := EncodedKey(key.value);
      ReadEntriesAreWritten(first.rest, n - 1, Some(enc), depth);
      var got := ReadEntries(first.rest, n - 1, Some(enc), depth).value;
      var all := [Entry(key.value, first.value)] + got.value;
      assert all[1..] == got.value;
      WriteEntriesSplit(all, got.rest);
    }
  }

  // ---------------------------------------------------------------------------
  // The codec
  // ---------------------------------------------------------------------------

  /**
   * Exactly what the decoder accepts: the input is decoded to `v` if and only if `v` is canonical,
   * within the depth bound, and the input is its encoding. So decoding and encoding again gives
   * the same bytes, and no value has two accepted encodings.
   */
  lemma DecodesExactly(input: seq<byte>, v: Value)
    requires |input| <= ISIZE_MAX
    ensures DecodeCanonical(input) == Ok(v) <==> IsCanonical(v) && Shallow(v, 0) && input == Encode(v)
  {
    hide ReadValue, IsCanonical, Shallow, Write, Encode, Canonical;
    if IsCanonical(v) {
      CanonicalIsFixed(v);
      EncodeIsWrite(v);
      if Shallow(v, 0) && input == Encode(v) {
        FaultlessExactly(v, 0);
        ReadWritten(v, 0, []);
        assert Write(v) + [] == Write(v);
      }
    }
    if DecodeCanonical(input) == Ok(v) {
      ReadIsWritten(input, 0);
      assert Write(v) + [] == Write(v);
    }
  }

  /** Round trip: a value without repeated keys comes back with its maps in key order. */
  lemma RoundTrip(v: Value)
    requires UniqueKeys(v) && Shallow(v, 0) && |Encode(v)| <= ISIZE_MAX
    ensures DecodeCanonical(Encode(v)) == Ok(Canonical(v))
  {
    hide ReadValue, IsCanonical, Shallow, Write, Encode, Canonical, UniqueKeys;
    var w := Canonical(v);
    CanonicalIsCanonical(v);
    CanonicalIsShallow(v, 0);
    EncodeIsWrite(v);
    FaultlessExactly(w, 0);
    ReadWritten(w, 0, []);
    assert Write(w) + [] == Write(w);
  }
}

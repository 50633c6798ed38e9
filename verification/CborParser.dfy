/**
 * The reader of crates/iroh-rooms-core/src/event/cbor.rs as it runs: one position advanced in
 * place over a buffer, arrays and maps read by loops. It computes the decoder function, errors
 * included.
 */
module CborParsers {
  import opened Prelude
  import opened BigEndian
  import opened Utf8
  import opened CborHeads
  import opened KeyOrder
  import opened Cbor
  import opened CborReader

  /** The outcome of a parse that left the position before `rest`. */
  ghost function Outcome<T>(r: Result<T, Error>, rest: seq<byte>): Result<Got<T>, Error> {
    match r
    case Ok(value) => Ok(Got(value, rest))
    case Err(e) => Err(e)
  }

  class Reader {
    const buf: seq<byte>
    var pos: nat

    ghost predicate Valid()
      reads this
    {
      pos <= |buf| <= ISIZE_MAX
    }

    ghost function Rest(): seq<byte>
      requires Valid()
      reads this
    {
      buf[pos..]
    }

    constructor (buf: seq<byte>)
      requires |buf| <= ISIZE_MAX
      ensures Valid() && this.buf == buf && pos == 0
    {
      this.buf := buf;
      pos := 0;
    }

    method Take(n: nat) returns (r: Result<seq<byte>, Error>)
      requires Valid()
      modifies this`pos
      ensures Valid()
      ensures r == if old(pos) + n > USIZE_MAX then Err(LengthOverflow)
                   else if n <= |old(Rest())| then Ok(old(Rest())[..n]) else Err(UnexpectedEof)
      ensures r.Ok? ==> Rest() == old(Rest())[n..]
    {
      var end := pos + n;
      if end > USIZE_MAX {
        return Err(LengthOverflow);
      }
      if end > |buf| {
        return Err(UnexpectedEof);
      }
      var slice := buf[pos..end];
      pos := end;
      assert slice == old(Rest())[..n] && buf[end..] == old(Rest())[n..];
      return Ok(slice);
    }

    /** A `k`-byte argument, refused when a shorter form would do. */
    method Wide(major: Major, k: nat, floor: nat) returns (r: Result<(Major, u64), Error>)
      requires Valid() && k in {1, 2, 4, 8}
      modifies this`pos
      ensures Valid()
      ensures AsHead(r, Rest()) == old(ReadWide(major, Rest(), k, floor))
    {
      var bytes := Take(k);
      if bytes.Err? {
        return Err(bytes.error);
      }
      hide Pow256, FromBytes;
      var v := FromBytes(bytes.value);
      WideFits(k);
      if v < floor {
        return Err(NonShortestInt);
      }
      return Ok((major, v));
    }

    method NextHead() returns (r: Result<(Major, u64), Error>)
      requires Valid()
      modifies this`pos
      ensures Valid()
      ensures AsHead(r, Rest()) == old(ReadHead(Rest()))
    {
      hide ReadWide;
      var first := Take(1);
      if first.Err? {
        return Err(first.error);
      }
      var initial: int := first.value[0];
      assert initial == old(Rest())[0];
      var major, info := initial / 32, initial % 32;
      if info <= 23 {
        return Ok((major, info));
      }
      if info == 24 {
        r := Wide(major, 1, 0x18);
      } else if info == 25 {
        r := Wide(major, 2, 0x100);
      } else if info == 26 {
        r := Wide(major, 4, 0x1_0000);
      } else if info == 27 {
        r := Wide(major, 8, 0x1_0000_0000);
      } else if info <= 30 {
        r := Err(ReservedAdditionalInfo);
      } else {
        r := Err(IndefiniteLength);
      }
    }

    /** A declared count, refused when the remaining input cannot hold it. */
    method Counted(arg: u64, each: nat) returns (r: Result<nat, Error>)
      requires Valid()
      ensures r == CheckedLen(arg, each, Rest())
    {
      var remaining := |buf| - pos;
      if arg * each > USIZE_MAX {
        return Err(LengthOverflow);
      }
      if arg * each > remaining {
        return Err(UnexpectedEof);
      }
      return Ok(arg);
    }

    method NextBytes(arg: u64) returns (r: Result<seq<byte>, Error>)
      requires Valid()
      modifies this`pos
      ensures Valid()
      ensures Outcome(r, Rest()) == old(ReadBytes(arg, Rest()))
    {
      var n := Counted(arg, 1);
      if n.Err? {
        return Err(n.error);
      }
      r := Take(n.value);
    }

    method NextText(arg: u64) returns (r: Result<Str, Error>)
      requires Valid()
      modifies this`pos
      ensures Valid()
      ensures Outcome(r, Rest()) == old(ReadText(arg, Rest()))
    {
      hide ReadBytes, IsUtf8;
      var bytes := NextBytes(arg);
      if bytes.Err? {
        return Err(bytes.error);
      }
      if !IsUtf8(bytes.value) {
        return Err(InvalidUtf8);
      }
      return Ok(bytes.value);
    }

    method NextKey(previous: Option<seq<byte>>) returns (r: Result<Str, Error>)
      requires Valid()
      modifies this`pos
      ensures Valid()
      ensures Outcome(r, Rest()) == old(ReadKey(Rest(), previous))
    {
      hide ReadHead, ReadText, Less, EncodedKey;
      var head := NextHead();
      if head.Err? {
        return Err(head.error);
      }
      if head.value.0 != 3 {
        return Err(NonTextMapKey);
      }
      var text := NextText(head.value.1);
      if text.Err? {
        return Err(text.error);
      }
      var encoded := EncodedKey(text.value);
      if previous.Some? {
        if Less(encoded, previous.value) {
          return Err(UnsortedMapKey);
        }
        if encoded == previous.value {
          return Err(DuplicateMapKey);
        }
      }
      return text;
    }

    method NextValue(depth: nat) returns (r: Result<Value, Error>)
      requires Valid() && depth <= MAX_DEPTH + 1
      modifies this`pos
      ensures Valid()
      ensures Outcome(r, Rest()) == old(ReadValue(Rest(), depth))
      decreases 2 * (MAX_DEPTH + 1 - depth)
    {
      hide ReadHead, ReadBytes, ReadText, CheckedLen, ReadItems, ReadEntries, Valid;
      if depth > MAX_DEPTH {
        return Err(DepthExceeded);
      }
      var head := NextHead();
      if head.Err? {
        return Err(head.error);
      }
      var (major, arg) := head.value;
      if major == 0 {
        return Ok(Uint(arg));
      } else if major == 1 {
        return Err(NegativeInteger);
      } else if major == 2 {
        var bytes := NextBytes(arg);
        return if bytes.Ok? then Ok(Bytes(bytes.value)) else Err(bytes.error);
      } else if major == 3 {
        var text := NextText(arg);
        return if text.Ok? then Ok(Text(text.value)) else Err(text.error);
      } else if major == 4 {
        var n := Counted(arg, 1);
        if n.Err? {
          return Err(n.error);
        }
        var items := NextItems(n.value, depth + 1);
        return if items.Ok? then Ok(Array(items.value)) else Err(items.error);
      } else if major == 5 {
        var n := Counted(arg, 2);
        if n.Err? {
          return Err(n.error);
        }
        var entries := NextEntries(n.value, depth + 1);
        return if entries.Ok? then Ok(Map(entries.value)) else Err(entries.error);
      } else if major == 6 {
        return Err(Tag);
      } else {
        return Err(FloatOrSimple);
      }
    }

    method NextItems(n: nat, depth: nat) returns (r: Result<seq<Value>, Error>)
      requires Valid() && depth <= MAX_DEPTH + 1
      modifies this`pos
      ensures Valid()
      ensures Outcome(r, Rest()) == old(ReadItems(Rest(), n, depth))
      decreases 2 * (MAX_DEPTH + 1 - depth) + 1
    {
      hide ReadValue;
      var items := [];
      var k := 0;
      PrefixedByNothing(ReadItems(Rest(), n, depth));
      while k < n
        invariant 0 <= k <= n && Valid()
        invariant old(ReadItems(Rest(), n, depth)) == Prefixed(items, ReadItems(Rest(), n - k, depth))
      {
        ghost var s := Rest();
        var item := NextValue(depth);
        if item.Err? {
          return Err(item.error);
        }
        ItemsContinue(items, s, n - k, depth);
        items := items + [item.value];
        k := k + 1;
      }
      assert items + [] == items;
      return Ok(items);
    }

    method NextEntries(n: nat, depth: nat) returns (r: Result<seq<Entry>, Error>)
      requires Valid() && depth <= MAX_DEPTH + 1
      modifies this`pos
      ensures Valid()
      ensures Outcome(r, Rest()) == old(ReadEntries(Rest(), n, None, depth))
      decreases 2 * (MAX_DEPTH + 1 - depth) + 1
    {
      hide ReadValue, ReadKey, EncodedKey;
      var entries := [];
      var previous: Option<seq<byte>> := None;
      var k := 0;
      PrefixedByNothing(ReadEntries(Rest(), n, None, depth));
      while k < n
        invariant 0 <= k <= n && Valid()
        invariant old(ReadEntries(Rest(), n, None, depth))
                  == Prefixed(entries, ReadEntries(Rest(), n - k, previous, depth))
      {
        ghost var s := Rest();
        var key := NextKey(previous);
        if key.Err? {
          return Err(key.error);
        }
        var value := NextValue(depth);
        if value.Err? {
          return Err(value.error);
        }
        EntriesContinue(entries, s, n - k, previous, depth);
        entries := entries + [Entry(key.value, value.value)];
        previous := Some(EncodedKey(key.value));
        k := k + 1;
      }
      assert entries + [] == entries;
      return Ok(entries);
    }
  }

  ghost function AsHead(r: Result<(Major, u64), Error>, rest: seq<byte>): Result<Head, Error> {
    match r
    case Ok((major, arg)) => Ok(Head(major, arg, rest))
    case Err(e) => Err(e)
  }

  /** A parse that already holds `done`. */
  ghost function Prefixed<T>(done: seq<T>, r: Result<Got<seq<T>>, Error>): Result<Got<seq<T>>, Error> {
    match r
    case Ok(got) => Ok(Got(done + got.value, got.rest))
    case Err(e) => Err(e)
  }

  lemma PrefixedByNothing<T>(r: Result<Got<seq<T>>, Error>)
    ensures Prefixed([], r) == r
  {
    if r.Ok? {
      assert [] + r.value.value == r.value.value;
    }
  }

  lemma ItemsContinue(done: seq<Value>, s: seq<byte>, n: nat, depth: nat)
    requires depth <= MAX_DEPTH + 1 && n > 0 && ReadValue(s, depth).Ok?
    ensures var first := ReadValue(s, depth).value;
            Prefixed(done, ReadItems(s, n, depth))
            == Prefixed(done + [first.value], ReadItems(first.rest, n - 1, depth))
  {
    hide ReadValue;
    var first := ReadValue(s, depth).value;
    var rest := ReadItems(first.rest, n - 1, depth);
    if rest.Ok? {
      assert done + ([first.value] + rest.value.value) == (done + [first.value]) + rest.value.value;
    }
  }

  lemma EntriesContinue(done: seq<Entry>, s: seq<byte>, n: nat, previous: Option<seq<byte>>, depth: nat)
    requires depth <= MAX_DEPTH + 1 && n > 0
    requires ReadKey(s, previous).Ok? && ReadValue(ReadKey(s, previous).value.rest, depth).Ok?
    ensures var key := ReadKey(s, previous).value;
            var first := ReadValue(key.rest, depth).value;
            Prefixed(done, ReadEntries(s, n, previous, depth))
            == Prefixed(done + [Entry(key.value, first.value)],
                        ReadEntries(first.rest, n - 1, Some(EncodedKey(key.value)), depth))
  {
    hide ReadValue, ReadKey, EncodedKey;
    var key := ReadKey(s, previous).value;
    var first := ReadValue(key.rest, depth).value;
    var rest := ReadEntries(first.rest, n - 1, Some(EncodedKey(key.value)), depth);
    var e := Entry(key.value, first.value);
    if rest.Ok? {
      assert done + ([e] + rest.value.value) == (done + [e]) + rest.value.value;
    }
  }

  /** Decodes exactly one item and requires the whole input to be used. */
  method Decode(input: seq<byte>) returns (r: Result<Value, Error>)
    requires |input| <= ISIZE_MAX
    ensures r == DecodeCanonical(input)
  {
    hide ReadValue;
    var reader := new Reader(input);
    assert input[0..] == input;
    var value := reader.NextValue(0);
    if value.Err? {
      return value;
    }
    return if reader.pos == |input| then value else Err(TrailingData);
  }
}

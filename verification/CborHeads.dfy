/**
 * Item heads of the deterministic CBOR codec, crates/iroh-rooms-core/src/event/cbor.rs: a major
 * type with the shortest form of its argument.
 */
module CborHeads {
  import opened Prelude
  import opened BigEndian

  datatype Error =
    | UnexpectedEof | TrailingData | IndefiniteLength | NonShortestInt | NegativeInteger
    | ReservedAdditionalInfo | Tag | FloatOrSimple | NonTextMapKey | UnsortedMapKey
    | DuplicateMapKey | InvalidUtf8 | DepthExceeded | LengthOverflow

  type Major = m: int | 0 <= m < 8

  datatype Head = Head(major: Major, arg: u64, rest: seq<byte>)

  /** The initial byte: major type and additional information. */
  function Initial(major: Major, info: nat): (b: byte)
    requires info < 32
  {
    var b: int := major * 32 + info;
    b
  }

  /** The major type with the shortest form of its argument. */
  function WriteHead(major: Major, arg: u64): (out: seq<byte>)
    ensures |out| >= 1
  {
    if arg <= 0x17 then [Initial(major, arg)]
    else if arg <= 0xFF then [Initial(major, 0x18)] + ToBytes(arg, 1)
    else if arg <= 0xFFFF then [Initial(major, 0x19)] + ToBytes(arg, 2)
    else if arg <= 0xFFFF_FFFF then [Initial(major, 0x1A)] + ToBytes(arg, 4)
    else [Initial(major, 0x1B)] + ToBytes(arg, 8)
  }

  /** A `k`-byte argument, which must not fit a shorter form. */
  function ReadWide(major: Major, s: seq<byte>, k: nat, floor: nat): Result<Head, Error>
    requires k in {1, 2, 4, 8}
  {
    if |s| < k then Err(UnexpectedEof)
    else
      var v := FromBytes(s[..k]);
      WideFits(k);
      if v < floor then Err(NonShortestInt) else Ok(Head(major, v, s[k..]))
  }

  lemma WideFits(k: nat)
    requires k in {1, 2, 4, 8}
    ensures Pow256(k) <= U64_MAX + 1
  {
    Powers();
  }

  function ReadHead(s: seq<byte>): Result<Head, Error> {
    if s == [] then Err(UnexpectedEof)
    else
      var initial: int := s[0];
      var major, info := initial / 32, initial % 32;
      if info <= 23 then Ok(Head(major, info, s[1..]))
      else if info == 24 then ReadWide(major, s[1..], 1, 0x18)
      else if info == 25 then ReadWide(major, s[1..], 2, 0x100)
      else if info == 26 then ReadWide(major, s[1..], 4, 0x1_0000)
      else if info == 27 then ReadWide(major, s[1..], 8, 0x1_0000_0000)
      else if info <= 30 then Err(ReservedAdditionalInfo)
      else Err(IndefiniteLength)
  }

  lemma WideRoundTrip(major: Major, arg: u64, k: nat, floor: nat, rest: seq<byte>)
    requires k in {1, 2, 4, 8} && floor <= arg < Pow256(k)
    ensures ReadWide(major, ToBytes(arg, k) + rest, k, floor) == Ok(Head(major, arg, rest))
  {
    var s := ToBytes(arg, k) + rest;
    assert s[..k] == ToBytes(arg, k) && s[k..] == rest;
    FromToBytes(arg, k);
  }

  lemma InitialSplits(major: Major, info: nat)
    requires info < 32
    ensures var b: int := Initial(major, info); b / 32 == major && b % 32 == info
  {}

  /** The head just written is read back, whatever follows it. */
  lemma ReadWrittenHead(major: Major, arg: u64, rest: seq<byte>)
    ensures ReadHead(WriteHead(major, arg) + rest) == Ok(Head(major, arg, rest))
  {
    Powers();
    hide Pow256, ToBytes, FromBytes, ReadWide, Initial;
    var s := WriteHead(major, arg) + rest;
    if arg <= 0x17 {
      InitialSplits(major, arg);
      assert s[1..] == rest;
    } else if arg <= 0xFF {
      InitialSplits(major, 0x18);
      assert s[1..] == ToBytes(arg, 1) + rest;
      WideRoundTrip(major, arg, 1, 0x18, rest);
    } else if arg <= 0xFFFF {
      InitialSplits(major, 0x19);
      assert s[1..] == ToBytes(arg, 2) + rest;
      WideRoundTrip(major, arg, 2, 0x100, rest);
    } else if arg <= 0xFFFF_FFFF {
      InitialSplits(major, 0x1A);
      assert s[1..] == ToBytes(arg, 4) + rest;
      WideRoundTrip(major, arg, 4, 0x1_0000, rest);
    } else {
      InitialSplits(major, 0x1B);
      assert s[1..] == ToBytes(arg, 8) + rest;
      WideRoundTrip(major, arg, 8, 0x1_0000_0000, rest);
    }
  }

  lemma WideIsWritten(major: Major, s: seq<byte>, k: nat, floor: nat)
    requires k in {1, 2, 4, 8} && ReadWide(major, s, k, floor).Ok?
    ensures var h := ReadWide(major, s, k, floor).value;
            floor <= h.arg < Pow256(k) && h.major == major && s == ToBytes(h.arg, k) + h.rest
  {
    hide Pow256, ToBytes, FromBytes;
    ToFromBytes(s[..k]);
    assert |s[..k]| == k && s == s[..k] + s[k..];
  }

  /** Only shortest forms are read: what was read is what would be written. */
  lemma ReadHeadIsWritten(s: seq<byte>)
    requires ReadHead(s).Ok?
    ensures var h := ReadHead(s).value; s == WriteHead(h.major, h.arg) + h.rest
  {
    Powers();
    var h := ReadHead(s).value;
    var initial: int := s[0];
    var info := initial % 32;
    assert s == [s[0]] + s[1..];
    assert Initial(initial / 32, info) == s[0];
    if info == 24 {
      WideIsWritten(initial / 32, s[1..], 1, 0x18);
    } else if info == 25 {
      WideIsWritten(initial / 32, s[1..], 2, 0x100);
    } else if info == 26 {
      WideIsWritten(initial / 32, s[1..], 4, 0x1_0000);
    } else if info == 27 {
      WideIsWritten(initial / 32, s[1..], 8, 0x1_0000_0000);
    }
  }
}

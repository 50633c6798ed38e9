/**
 * Base32 without padding, section 6 of RFC 4648: bytes regrouped from eight bits to five, the
 * last symbol filled with zero bits, and canonical trailing bits required on the way back
 * (section 3.5). This is the `BASE32_NOPAD` that crates/iroh-rooms-core/src/ticket.rs uses.
 */
module Base32 {
  import opened Prelude

  type bit = x: int | 0 <= x < 2

  function Pow2(k: nat): (p: nat)
    ensures p >= 1
  {
    if k == 0 then 1 else 2 * Pow2(k - 1)
  }

  // ---------------------------------------------------------------------------
  // Bits
  // ---------------------------------------------------------------------------

  /** The low `k` bits of `n`, most significant first. */
  function ToBits(n: nat, k: nat): (b: seq<bit>)
    ensures |b| == k
    decreases k
  {
    if k == 0 then [] else
      var low: int := n % 2;
      ToBits(n / 2, k - 1) + [low]
  }

  function FromBits(b: seq<bit>): (n: nat)
    ensures n < Pow2(|b|)
  {
    if b == [] then 0
    else
      var high: int := FromBits(b[..|b| - 1]);
      2 * high + b[|b| - 1]
  }

  lemma {:induction false} FromToBits(n: nat, k: nat)
    requires n < Pow2(k)
    ensures FromBits(ToBits(n, k)) == n
    decreases k
  {
    if k > 0 {
      FromToBits(n / 2, k - 1);
      assert ToBits(n, k)[..k - 1] == ToBits(n / 2, k - 1);
    }
  }

  lemma {:induction false} ToFromBits(b: seq<bit>)
    ensures ToBits(FromBits(b), |b|) == b
  {
    if b != [] {
      var high: int, low: int := FromBits(b[..|b| - 1]), b[|b| - 1];
      var n := FromBits(b);
      assert n == 2 * high + low;
      assert n / 2 == high && n % 2 == low;
      ToFromBits(b[..|b| - 1]);
      assert b == b[..|b| - 1] + [b[|b| - 1]];
    }
  }

  /** The two group sizes. */
  type Width = k: int | k == 5 || k == 8 witness 5

  /** Every number in `xs` as `k` bits. */
  function Unpack(k: Width, xs: seq<nat>): (b: seq<bit>)
    ensures |b| == k * |xs|
  {
    if xs == [] then [] else ToBits(xs[0], k) + Unpack(k, xs[1..])
  }

  /** The numbers that successive groups of `k` bits spell. */
  function Pack(k: Width, b: seq<bit>): (xs: seq<nat>)
    requires |b| % k == 0
    ensures |xs| * k == |b| && forall x <- xs :: x < Pow2(k)
    decreases |b|
  {
    if b == [] then []
    else
      GroupLeft(k, |b|);
      [FromBits(b[..k])] + Pack(k, b[k..])
  }

  lemma GroupLeft(k: Width, n: nat)
    requires n % k == 0 && n > 0
    ensures n >= k && (n - k) % k == 0
  {
    if k == 5 {
      assert n % 5 == 0;
    } else {
      assert n % 8 == 0;
    }
  }

  lemma {:induction false} PackUnpack(k: Width, xs: seq<nat>)
    requires forall x <- xs :: x < Pow2(k)
    ensures |Unpack(k, xs)| % k == 0 && Pack(k, Unpack(k, xs)) == xs
  {
    MultipleOf(k, |xs|);
    if xs != [] {
      var b := Unpack(k, xs);
      forall x <- xs[1..] ensures x < Pow2(k) {
        assert x in xs;
      }
      PackUnpack(k, xs[1..]);
      assert b[..k] == ToBits(xs[0], k) && b[k..] == Unpack(k, xs[1..]);
      assert xs[0] in xs;
      FromToBits(xs[0], k);
    }
  }

  lemma MultipleOf(k: Width, n: nat)
    ensures (k * n) % k == 0
  {
    if k == 5 {
      assert (5 * n) % 5 == 0;
    } else {
      assert (8 * n) % 8 == 0;
    }
  }

  lemma {:induction false} UnpackPack(k: Width, b: seq<bit>)
    requires |b| % k == 0
    ensures Unpack(k, Pack(k, b)) == b
    decreases |b|
  {
    if b != [] {
      GroupLeft(k, |b|);
      UnpackPack(k, b[k..]);
      ToFromBits(b[..k]);
      assert b == b[..k] + b[k..];
      assert Pack(k, b)[1..] == Pack(k, b[k..]);
    }
  }

  // ---------------------------------------------------------------------------
  // Symbols
  // ---------------------------------------------------------------------------

  /** How many zero bits fill the last symbol after `n` bits. */
  function Fill(n: nat): (z: nat)
    ensures z < 5 && (n + z) % 5 == 0
  {
    (5 - n % 5) % 5
  }

  function Zeros(z: nat): (b: seq<bit>)
    ensures |b| == z
  {
    seq(z, _ => 0)
  }

  function EncodeSymbols(bytes: seq<byte>): (symbols: seq<nat>)
    ensures forall x <- symbols :: x < 32
  {
    var bits := Unpack(8, bytes);
    assert Pow2(5) == 32;
    Pack(5, bits + Zeros(Fill(|bits|)))
  }

  /** The bits beyond the last whole byte must be fewer than a symbol, and zero. */
  function DecodeSymbols(symbols: seq<nat>): Option<seq<byte>> {
    var bits := Unpack(5, symbols);
    var whole := |bits| - |bits| % 8;
    WholeBytes(|bits|);
    if |bits| % 8 < 5 && bits[whole..] == Zeros(|bits| % 8) then
      var xs := Pack(8, bits[..whole]);
      assert Pow2(8) == 256;
      assert forall i :: 0 <= i < |xs| ==> xs[i] in xs;
      Some(AsBytes(xs))
    else None
  }

  function AsBytes(xs: seq<nat>): (bytes: seq<byte>)
    requires forall i :: 0 <= i < |xs| ==> xs[i] < 256
    ensures |bytes| == |xs| && forall i :: 0 <= i < |xs| ==> bytes[i] == xs[i]
  {
    seq<byte>(|xs|, i requires 0 <= i < |xs| => xs[i])
  }

  lemma WholeBytes(n: nat)
    ensures n - n % 8 >= 0 && (n - n % 8) % 8 == 0
  {}

  /** Every byte string comes back, whatever its length modulo five. */
  lemma SymbolsRoundTrip(bytes: seq<byte>)
    ensures DecodeSymbols(EncodeSymbols(bytes)) == Some(bytes)
  {
    hide Unpack, Pack;
    var bits := Unpack(8, bytes);
    var z := Fill(|bits|);
    assert Pow2(8) == 256;
    PackUnpack(8, bytes);
    UnpackPack(5, bits + Zeros(z));
    FillIsRemainder(|bytes|, z);
    assert (bits + Zeros(z))[..|bits|] == bits && (bits + Zeros(z))[|bits|..] == Zeros(z);
    assert AsBytes(bytes) == bytes;
  }

  lemma FillIsRemainder(n: nat, z: nat)
    requires z < 5
    ensures (8 * n + z) % 8 == z
  {}

  /** Only canonical symbols decode: what decodes is the encoding of what it decodes to. */
  lemma DecodedSymbolsAreEncoded(symbols: seq<nat>)
    requires (forall x <- symbols :: x < 32) && DecodeSymbols(symbols).Some?
    ensures EncodeSymbols(DecodeSymbols(symbols).value) == symbols
  {
    hide Unpack, Pack;
    var bits := Unpack(5, symbols);
    var whole := |bits| - |bits| % 8;
    var bytes := DecodeSymbols(symbols).value;
    WholeBytes(|bits|);
    assert Pow2(5) == 32;
    assert Pack(8, bits[..whole]) == bytes;
    UnpackPack(8, bits[..whole]);
    assert bits == bits[..whole] + bits[whole..];
    FillCompletes(whole, |bits| % 8, |symbols|);
    PackUnpack(5, symbols);
  }

  lemma FillCompletes(whole: nat, r: nat, n: nat)
    requires r < 5 && whole + r == 5 * n
    ensures Fill(whole) == r
  {}

  // ---------------------------------------------------------------------------
  // The alphabet
  // ---------------------------------------------------------------------------

  function SymbolChar(x: nat): (c: char)
    requires x < 32
    ensures 'A' <= c <= 'Z' || '2' <= c <= '7'
  {
    if x < 26 then 'A' + x as char else '2' + (x - 26) as char
  }

  function CharSymbol(c: char): (x: Option<nat>)
    ensures x.Some? ==> x.value < 32
  {
    if 'A' <= c <= 'Z' then Some((c - 'A') as nat)
    else if '2' <= c <= '7' then Some((c - '2') as nat + 26)
    else None
  }

  lemma SymbolsAndChars(x: nat, c: char)
    requires x < 32
    ensures CharSymbol(SymbolChar(x)) == Some(x)
    ensures CharSymbol(c).Some? ==> SymbolChar(CharSymbol(c).value) == c
  {}

  function Encode(bytes: seq<byte>): (s: string)
    ensures |s| == |EncodeSymbols(bytes)|
    ensures forall c <- s :: 'A' <= c <= 'Z' || '2' <= c <= '7'
  {
    Spell(EncodeSymbols(bytes))
  }

  function Spell(symbols: seq<nat>): (s: string)
    requires forall x <- symbols :: x < 32
    ensures |s| == |symbols| && forall c <- s :: 'A' <= c <= 'Z' || '2' <= c <= '7'
  {
    seq(|symbols|, i requires 0 <= i < |symbols| => assert symbols[i] in symbols; SymbolChar(symbols[i]))
  }

  function Symbols(s: string): Option<seq<nat>> {
    if exists c <- s :: CharSymbol(c).None? then None
    else Some(seq(|s|, i requires 0 <= i < |s| => assert s[i] in s; CharSymbol(s[i]).value))
  }

  function Decode(s: string): Option<seq<byte>> {
    match Symbols(s)
    case None => None
    case Some(symbols) => DecodeSymbols(symbols)
  }

  lemma SymbolsOfSpelled(symbols: seq<nat>)
    requires forall x <- symbols :: x < 32
    ensures Symbols(Spell(symbols)) == Some(symbols)
  {
    var s := Spell(symbols);
    forall i | 0 <= i < |s| ensures CharSymbol(s[i]) == Some(symbols[i]) {
      assert symbols[i] in symbols;
      SymbolsAndChars(symbols[i], 'A');
    }
    assert forall c <- s :: CharSymbol(c).Some?;
    assert Symbols(s).value == symbols;
  }

  lemma SpelledSymbols(s: string)
    requires Symbols(s).Some?
    ensures (forall x <- Symbols(s).value :: x < 32) && Spell(Symbols(s).value) == s
  {
    var symbols := Symbols(s).value;
    forall i | 0 <= i < |s| ensures symbols[i] < 32 && SymbolChar(symbols[i]) == s[i] {
      assert s[i] in s;
      SymbolsAndChars(0, s[i]);
    }
    assert Spell(symbols) == s;
  }

  /** Text decodes to some bytes exactly when it is their encoding. */
  lemma DecodesExactly(s: string, bytes: seq<byte>)
    ensures Decode(s) == Some(bytes) <==> s == Encode(bytes)
  {
    hide DecodeSymbols, EncodeSymbols, Symbols, Spell;
    SymbolsOfSpelled(EncodeSymbols(bytes));
    SymbolsRoundTrip(bytes);
    if Decode(s) == Some(bytes) {
      SpelledSymbols(s);
      DecodedSymbolsAreEncoded(Symbols(s).value);
    }
  }

  // ---------------------------------------------------------------------------
  // Both sides spell the same number
  // ---------------------------------------------------------------------------

  /** The number a list of digits spells in base `2^k`, the first digit being the most significant. */
  function Spells(k: nat, digits: seq<nat>): nat {
    if digits == [] then 0
    else Spells(k, digits[..|digits| - 1]) * Pow2(k) + digits[|digits| - 1]
  }

  lemma {:induction false} BitsConcat(a: seq<bit>, b: seq<bit>)
    ensures FromBits(a + b) == FromBits(a) * Pow2(|b|) + FromBits(b)
    decreases |b|
  {
    if b == [] {
      assert a + b == a;
    } else {
      var n := |b| - 1;
      assert (a + b)[..|a + b| - 1] == a + b[..n] && (a + b)[|a + b| - 1] == b[n];
      assert FromBits(a + b) == 2 * FromBits(a + b[..n]) + b[n];
      assert FromBits(b) == 2 * FromBits(b[..n]) + b[n] && Pow2(|b|) == 2 * Pow2(n);
      BitsConcat(a, b[..n]);
      hide FromBits, Pow2;
      Doubled(FromBits(a), Pow2(n), FromBits(b[..n]));
    }
  }

  lemma Doubled(x: nat, p: nat, y: nat)
    ensures 2 * (x * p + y) == x * (2 * p) + 2 * y
  {}

  lemma {:induction false} UnpackConcat(k: Width, a: seq<nat>, b: seq<nat>)
    ensures Unpack(k, a + b) == Unpack(k, a) + Unpack(k, b)
  {
    if a == [] {
      assert a + b == b;
    } else {
      assert (a + b)[1..] == a[1..] + b;
      UnpackConcat(k, a[1..], b);
    }
  }

  lemma {:induction false} UnpackSpells(k: Width, xs: seq<nat>)
    requires forall x <- xs :: x < Pow2(k)
    ensures FromBits(Unpack(k, xs)) == Spells(k, xs)
  {
    if xs != [] {
      var n := |xs| - 1;
      var last := [xs[n]];
      assert xs == xs[..n] + last && xs[n] in xs;
      forall x <- xs[..n] ensures x < Pow2(k) {
        assert x in xs;
      }
      UnpackSpells(k, xs[..n]);
      UnpackConcat(k, xs[..n], last);
      assert Unpack(k, last) == ToBits(xs[n], k) + Unpack(k, []);
      assert Unpack(k, last) == ToBits(xs[n], k);
      FromToBits(xs[n], k);
      BitsConcat(Unpack(k, xs[..n]), ToBits(xs[n], k));
    }
  }

  lemma {:induction false} ZerosAreNothing(z: nat)
    ensures FromBits(Zeros(z)) == 0
  {
    if z > 0 {
      assert Zeros(z)[..z - 1] == Zeros(z - 1);
      ZerosAreNothing(z - 1);
    }
  }

  /**
   * The symbols, read as digits of base 32, spell the same number as the bytes, read as digits of
   * base 256, shifted by the zero bits that fill the last symbol.
   */
  lemma SymbolsSpellTheBytes(bytes: seq<byte>)
    ensures var z := Fill(8 * |bytes|);
            && 5 * |EncodeSymbols(bytes)| == 8 * |bytes| + z
            && Spells(5, EncodeSymbols(bytes)) == Spells(8, bytes) * Pow2(z)
  {
    hide Unpack, Pack, Spells;
    var bits := Unpack(8, bytes);
    var z := Fill(|bits|);
    var symbols := EncodeSymbols(bytes);
    assert Pow2(5) == 32 && Pow2(8) == 256;
    UnpackPack(5, bits + Zeros(z));
    UnpackSpells(5, symbols);
    UnpackSpells(8, bytes);
    BitsConcat(bits, Zeros(z));
    ZerosAreNothing(z);
  }

  /** The alphabet of section 6 of RFC 4648. */
  lemma AlphabetIs(x: nat)
    requires x < 32
    ensures SymbolChar(x) == "ABCDEFGHIJKLMNOPQRSTUVWXYZ234567"[x]
  {}
}

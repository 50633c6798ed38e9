/**
 * The text form of an invite ticket, crates/iroh-rooms-core/src/ticket.rs: printing, the staged
 * parser, and exactly which texts parse to which ticket.
 */
module TicketTokens {
  import opened Prelude
  import opened Utf8
  import opened KeyOrder
  import opened Cbor
  import opened CborReader
  import opened Tickets
  import Base32

  type Hash = seq<byte> -> Digest

  function Lower(s: string): (r: string)
    ensures |r| == |s|
  {
    seq(|s|, i requires 0 <= i < |s| => if 'A' <= s[i] <= 'Z' then s[i] - 'A' + 'a' else s[i])
  }

  function Upper(s: string): (r: string)
    ensures |r| == |s|
  {
    seq(|s|, i requires 0 <= i < |s| => if 'a' <= s[i] <= 'z' then s[i] - 'a' + 'A' else s[i])
  }

  /** The frame: version, body, and the first bytes of the hash of both. */
  function Seal(hash: Hash, body: seq<byte>): (raw: seq<byte>)
    ensures |raw| == 1 + |body| + TICKET_CHECKSUM_LEN
  {
    [TICKET_VERSION] + body + hash([TICKET_VERSION] + body)[..TICKET_CHECKSUM_LEN]
  }

  function Print(hash: Hash, t: Ticket): string {
    TICKET_PREFIX + Lower(Base32.Encode(Seal(hash, Encode(Body(t)))))
  }

  /** The token, assembled by appending to a payload. */
  method Display(hash: Hash, t: Ticket) returns (token: string)
    ensures token == Print(hash, t)
  {
    hide Encode, Base32.Encode, Lower, Body;
    var body := Encode(Body(t));
    var payload: seq<byte> := [];
    payload := payload + [TICKET_VERSION];
    payload := payload + body;
    assert payload == [TICKET_VERSION] + body;
    var checksum := hash(payload);
    payload := payload + checksum[..TICKET_CHECKSUM_LEN];
    token := TICKET_PREFIX + Lower(Base32.Encode(payload));
  }

  /**
   * The layout of a token: the prefix, then in lower case the base32 of a version byte 1, the
   * encoded body and the first four bytes of the hash of both.
   */
  lemma TokenLayout(hash: Hash, t: Ticket)
    ensures var token, raw := Print(hash, t), Seal(hash, Encode(Body(t)));
            && token[..8] == "roomtkt1" && Upper(token[8..]) == Base32.Encode(raw) && Lower(token[8..]) == token[8..]
            && raw[0] == 1 && raw[1..|raw| - 4] == Encode(Body(t))
            && raw[|raw| - 4..] == hash(raw[..|raw| - 4])[..4]
  {
    hide Encode, Body, Base32.Encode;
    var raw := Seal(hash, Encode(Body(t)));
    SymbolsAreUpper(raw);
    assert raw[..|raw| - 4] == [TICKET_VERSION] + Encode(Body(t));
    assert Print(hash, t)[8..] == Lower(Base32.Encode(raw));
  }

  // ---------------------------------------------------------------------------
  // Parsing
  // ---------------------------------------------------------------------------

  predicate HasPrefix(s: string) {
    |s| >= |TICKET_PREFIX| && s[..|TICKET_PREFIX|] == TICKET_PREFIX
  }

  function Payload(raw: seq<byte>): seq<byte>
    requires |raw| >= TICKET_CHECKSUM_LEN
  {
    raw[..|raw| - TICKET_CHECKSUM_LEN]
  }

  predicate ChecksumMatches(hash: Hash, raw: seq<byte>)
    requires |raw| >= TICKET_CHECKSUM_LEN
  {
    raw[|raw| - TICKET_CHECKSUM_LEN..] == hash(Payload(raw))[..TICKET_CHECKSUM_LEN]
  }

  function Parse(hash: Hash, s: string): Result<Ticket, TicketError> {
    if !HasPrefix(s) then Err(BadPrefix)
    else
      match Base32.Decode(Upper(s[|TICKET_PREFIX|..]))
      case None => Err(BadBase32)
      case Some(raw) =>
        if |raw| < 1 + TICKET_CHECKSUM_LEN then Err(Truncated)
        else if raw[0] != TICKET_VERSION then Err(UnsupportedVersion(raw[0]))
        else if !ChecksumMatches(hash, raw) then Err(BadChecksum)
        else
          match DecodeCanonical(Payload(raw)[1..])
          case Err(_) => Err(MalformedBody)
          case Ok(v) => FromBody(v)
  }

  // ---------------------------------------------------------------------------
  // The frame
  // ---------------------------------------------------------------------------

  /** A frame passes its three checks exactly when it is the sealing of its body. */
  lemma SealedExactly(hash: Hash, raw: seq<byte>, body: seq<byte>)
    ensures raw == Seal(hash, body)
            <==> && |raw| >= 1 + TICKET_CHECKSUM_LEN && raw[0] == TICKET_VERSION && ChecksumMatches(hash, raw)
                 && body == Payload(raw)[1..]
  {
    if raw == Seal(hash, body) {
      assert Payload(raw) == [TICKET_VERSION] + body;
    }
    if |raw| >= 1 + TICKET_CHECKSUM_LEN && raw[0] == TICKET_VERSION && ChecksumMatches(hash, raw)
       && body == Payload(raw)[1..] {
      assert Payload(raw) == [TICKET_VERSION] + body;
      assert raw == Payload(raw) + raw[|raw| - TICKET_CHECKSUM_LEN..];
    }
  }

  // ---------------------------------------------------------------------------
  // Letter case
  // ---------------------------------------------------------------------------

  lemma FoldsAgree(s: string)
    ensures Upper(Lower(s)) == Upper(s) && Upper(Upper(s)) == Upper(s) && Lower(Upper(s)) == Lower(s)
  {}

  lemma SymbolsAreUpper(bytes: seq<byte>)
    ensures Upper(Base32.Encode(bytes)) == Base32.Encode(bytes)
    ensures Upper(Lower(Base32.Encode(bytes))) == Base32.Encode(bytes)
  {
    var s := Base32.Encode(bytes);
    hide Base32.Encode;
    forall i | 0 <= i < |s| ensures !('a' <= s[i] <= 'z') {
      assert s[i] in s;
    }
    assert Upper(s) == s;
    FoldsAgree(s);
  }

  /** Texts that differ only in the letter case of the body parse alike. */
  lemma CaseDoesNotMatter(hash: Hash, a: string, b: string)
    requires Upper(a) == Upper(b)
    ensures Parse(hash, TICKET_PREFIX + a) == Parse(hash, TICKET_PREFIX + b)
    ensures Parse(hash, TICKET_PREFIX + a) == Parse(hash, TICKET_PREFIX + Lower(a))
    ensures Parse(hash, TICKET_PREFIX + a) == Parse(hash, TICKET_PREFIX + Upper(a))
  {
    FoldsAgree(a);
    hide Upper, Lower, Base32.Decode, DecodeCanonical, FromBody;
    AfterPrefix(a);
    AfterPrefix(b);
    AfterPrefix(Lower(a));
    AfterPrefix(Upper(a));
  }

  lemma AfterPrefix(s: string)
    ensures HasPrefix(TICKET_PREFIX + s) && (TICKET_PREFIX + s)[|TICKET_PREFIX|..] == s
  {}

  /** A printed body uses only the lower-case alphabet, so the separator occurs once. */
  lemma PrintedAlphabet(hash: Hash, t: Ticket)
    ensures HasPrefix(Print(hash, t))
    ensures forall c <- Print(hash, t)[|TICKET_PREFIX|..] :: 'a' <= c <= 'z' || '2' <= c <= '7'
  {
    var s := Base32.Encode(Seal(hash, Encode(Body(t))));
    hide Base32.Encode, Encode, Seal;
    AfterPrefix(Lower(s));
    forall c <- Lower(s) ensures 'a' <= c <= 'z' || '2' <= c <= '7' {
      var i :| 0 <= i < |s| && Lower(s)[i] == c;
      assert s[i] in s;
    }
  }

  // ---------------------------------------------------------------------------
  // Exactly what parses
  // ---------------------------------------------------------------------------

  /** `s` is, up to letter case of its body, the token of the canonical value `v`. */
  ghost predicate IsToken(hash: Hash, s: string, v: Value) {
    && IsCanonical(v) && Shallow(v, 0)
    && HasPrefix(s)
    && Upper(s[|TICKET_PREFIX|..]) == Base32.Encode(Seal(hash, Encode(v)))
  }

  /** `s` is the token of a canonical map that holds each of the fields of `t`. */
  ghost predicate Carries(hash: Hash, s: string, t: Ticket) {
    exists v :: IsToken(hash, s, v) && v.Map? && Describes(v.entries, t)
  }

  lemma DecodedIsShorter(s: string)
    requires Base32.Decode(s).Some?
    ensures |Base32.Decode(s).value| <= |s|
  {
    var symbols := Base32.Symbols(s).value;
    hide Base32.Unpack, Base32.Pack;
  }

  /**
   * Fails closed, exactly: a text parses to a ticket if and only if it is the token of a
   * canonical map that holds each of the ticket's fields.
   */
  lemma ParsesExactly(hash: Hash, s: string, t: Ticket)
    requires |s| <= ISIZE_MAX
    ensures Parse(hash, s) == Ok(t) <==> Carries(hash, s, t)
  {
    hide Base32.Decode, Base32.Encode, DecodeCanonical, FromBody, Describes;
    hide Encode, IsCanonical, Shallow, Seal, ChecksumMatches, Upper;
    if Parse(hash, s) == Ok(t) {
      var folded := Upper(s[|TICKET_PREFIX|..]);
      var raw := Base32.Decode(folded).value;
      var body := Payload(raw)[1..];
      var v := DecodeCanonical(body).value;
      Base32.DecodesExactly(folded, raw);
      DecodedIsShorter(folded);
      SealedExactly(hash, raw, body);
      DecodesExactly(body, v);
      FromBodyExactly(v, t);
      assert IsToken(hash, s, v);
    }
    if v :| IsToken(hash, s, v) && v.Map? && Describes(v.entries, t) {
      TokenParses(hash, s, v);
      FromBodyExactly(v, t);
    }
  }

  lemma TokenParses(hash: Hash, s: string, v: Value)
    requires IsToken(hash, s, v) && (|Encode(v)| <= ISIZE_MAX || |s| <= ISIZE_MAX)
    ensures Parse(hash, s) == FromBody(v)
  {
    hide Base32.Decode, Base32.Encode, DecodeCanonical, FromBody;
    hide Encode, IsCanonical, Shallow, Seal, ChecksumMatches, Upper;
    var folded := Upper(s[|TICKET_PREFIX|..]);
    var raw := Seal(hash, Encode(v));
    Base32.DecodesExactly(folded, raw);
    DecodedIsShorter(folded);
    SealedExactly(hash, raw, Encode(v));
    DecodesExactly(Encode(v), v);
  }

  /** Round trip: every ticket comes back from its printed token. */
  lemma RoundTrip(hash: Hash, t: Ticket)
    requires |Encode(Body(t))| <= ISIZE_MAX
    ensures Parse(hash, Print(hash, t)) == Ok(t)
  {
    PrintIsToken(hash, t);
    var v := Canonical(Body(t));
    CanonicalBodyDescribes(t);
    EncodeCanonical(t);
    hide Parse, Print, Describes, Canonical, FromBody, Encode, IsToken;
    TokenParses(hash, Print(hash, t), v);
    FromBodyExactly(v, t);
  }

  lemma EncodeCanonical(t: Ticket)
    ensures Encode(Canonical(Body(t))) == Encode(Body(t))
  {
    BodyIsWellFormed(t);
    hide Encode, Canonical, IsCanonical, UniqueKeys, Shallow, Write, Body;
    CanonicalIsCanonical(Body(t));
    CanonicalIsFixed(Canonical(Body(t)));
    EncodeIsWrite(Body(t));
    EncodeIsWrite(Canonical(Body(t)));
  }

  lemma PrintIsToken(hash: Hash, t: Ticket)
    ensures IsToken(hash, Print(hash, t), Canonical(Body(t)))
  {
    BodyIsWellFormed(t);
    EncodeCanonical(t);
    CanonicalIsCanonical(Body(t));
    CanonicalIsShallow(Body(t), 0);
    hide Encode, Canonical, IsCanonical, UniqueKeys, Shallow, Body, Base32.Encode, Seal, Lower, Upper;
    AfterPrefix(Lower(Base32.Encode(Seal(hash, Encode(Body(t))))));
    SymbolsAreUpper(Seal(hash, Encode(Body(t))));
  }

  // ---------------------------------------------------------------------------
  // Errors
  // ---------------------------------------------------------------------------

  /** The bytes a text carries, if its body is base32. */
  function Raw(s: string): Option<seq<byte>> {
    if HasPrefix(s) then Base32.Decode(Upper(s[|TICKET_PREFIX|..])) else None
  }

  /** The stages before the body. */
  lemma EarlyStages(hash: Hash, s: string)
    ensures Parse(hash, s) == Err(BadPrefix) <==> !HasPrefix(s)
    ensures Parse(hash, s) == Err(BadBase32)
            <==> HasPrefix(s) && forall bytes :: Upper(s[|TICKET_PREFIX|..]) != Base32.Encode(bytes)
    ensures Parse(hash, s) == Err(Truncated) <==> Raw(s).Some? && |Raw(s).value| < 5
    ensures forall version: byte ::
              (Parse(hash, s) == Err(UnsupportedVersion(version))
               <==> Raw(s).Some? && |Raw(s).value| >= 5 && Raw(s).value[0] == version != 1)
    ensures Parse(hash, s) == Err(BadChecksum)
            <==> Raw(s).Some? && |Raw(s).value| >= 5 && Raw(s).value[0] == 1
                 && forall body :: Raw(s).value != Seal(hash, body)
  {
    hide Base32.Decode, Base32.Encode, DecodeCanonical, Seal, ChecksumMatches, Upper, FromBody;
    if HasPrefix(s) {
      var folded := Upper(s[|TICKET_PREFIX|..]);
      forall bytes ensures Base32.Decode(folded) == Some(bytes) <==> folded == Base32.Encode(bytes) {
        Base32.DecodesExactly(folded, bytes);
      }
      if Raw(s).Some? {
        var raw := Raw(s).value;
        assert folded == Base32.Encode(raw);
        forall body ensures raw == Seal(hash, body) ==> |raw| >= 5 && ChecksumMatches(hash, raw) {
          SealedExactly(hash, raw, body);
        }
        if |raw| >= 5 && raw[0] == 1 && ChecksumMatches(hash, raw) {
          SealedExactly(hash, raw, Payload(raw)[1..]);
          OnlyMalformed(DecodeCanonical(Payload(raw)[1..]));
        }
      }
    }
  }

  /** A sound frame is malformed exactly when it carries no ticket. */
  lemma MalformedExactly(hash: Hash, s: string)
    requires |s| <= ISIZE_MAX
    ensures Parse(hash, s) == Err(MalformedBody)
            <==> (exists body :: Raw(s) == Some(Seal(hash, body))) && forall t :: !Carries(hash, s, t)
  {
    hide Base32.Decode, Base32.Encode, DecodeCanonical, Seal, ChecksumMatches, Upper, FromBody, Carries;
    forall t ensures Parse(hash, s) == Ok(t) <==> Carries(hash, s, t) {
      ParsesExactly(hash, s, t);
    }
    if Raw(s).Some? {
      var raw := Raw(s).value;
      forall body ensures raw == Seal(hash, body) ==> |raw| >= 5 && raw[0] == 1 && ChecksumMatches(hash, raw) {
        SealedExactly(hash, raw, body);
      }
      if |raw| >= 5 && raw[0] == 1 && ChecksumMatches(hash, raw) {
        SealedExactly(hash, raw, Payload(raw)[1..]);
        assert Raw(s) == Some(Seal(hash, Payload(raw)[1..]));
        OnlyMalformed(DecodeCanonical(Payload(raw)[1..]));
        if Parse(hash, s).Ok? {
          assert Carries(hash, s, Parse(hash, s).value);
        }
      }
    }
  }

  lemma OnlyMalformed(r: Result<Value, CborHeads.Error>)
    ensures r.Ok? && FromBody(r.value).Err? ==> FromBody(r.value) == Err(MalformedBody)
  {}

  /** Each error names the first stage that fails, and nothing that fails a stage parses. */
  lemma FirstFailingStage(hash: Hash, s: string)
    ensures Parse(hash, s) == Err(BadPrefix) <==> !HasPrefix(s)
    ensures Parse(hash, s) == Err(BadBase32)
            <==> HasPrefix(s) && forall bytes :: Upper(s[|TICKET_PREFIX|..]) != Base32.Encode(bytes)
    ensures Parse(hash, s) == Err(Truncated) <==> Raw(s).Some? && |Raw(s).value| < 5
    ensures forall version: byte ::
              (Parse(hash, s) == Err(UnsupportedVersion(version))
               <==> Raw(s).Some? && |Raw(s).value| >= 5 && Raw(s).value[0] == version != 1)
    ensures Parse(hash, s) == Err(BadChecksum)
            <==> Raw(s).Some? && |Raw(s).value| >= 5 && Raw(s).value[0] == 1
                 && forall body :: Raw(s).value != Seal(hash, body)
    ensures |s| <= ISIZE_MAX ==>
              (Parse(hash, s) == Err(MalformedBody)
               <==> (exists body :: Raw(s) == Some(Seal(hash, body))) && forall t :: !Carries(hash, s, t))
  {
    EarlyStages(hash, s);
    if |s| <= ISIZE_MAX {
      MalformedExactly(hash, s);
    }
    hide *;
  }

  // ---------------------------------------------------------------------------
  // Printing a parsed ticket
  // ---------------------------------------------------------------------------

  /** Every key of the map is one of the fields. */
  ghost predicate OnlyKnownKeys(entries: seq<Entry>) {
    forall i :: 0 <= i < |entries| ==> IsKnown(entries[i].key)
  }

  ghost predicate IsKnown(key: Str) {
    exists f: Field :: key == Name(f)
  }

  ghost predicate KeysAscendStrictly(entries: seq<Entry>) {
    forall i, j :: 0 <= i < j < |entries| ==> Less(EncodedKey(entries[i].key), EncodedKey(entries[j].key))
  }

  lemma LeastEntry(a: seq<Entry>, e: Entry)
    requires KeysAscendStrictly(a) && e in a
    ensures e == a[0] || Less(EncodedKey(a[0].key), EncodedKey(e.key))
  {
    var i :| 0 <= i < |a| && a[i] == e;
    assert i > 0 ==> Less(EncodedKey(a[0].key), EncodedKey(a[i].key));
  }

  /** A strictly ascending list of entries is determined by its members. */
  lemma {:induction false} AscendingIsDetermined(a: seq<Entry>, b: seq<Entry>)
    requires KeysAscendStrictly(a) && KeysAscendStrictly(b) && forall e :: e in a <==> e in b
    ensures a == b
    decreases |a|
  {
    hide Less, EncodedKey;
    EmptyAlike(a, b);
    if a != [] {
      assert a[0] in b && b[0] in a;
      LeastEntry(a, b[0]);
      LeastEntry(b, a[0]);
      LessIsTotal(EncodedKey(a[0].key), EncodedKey(b[0].key));
      forall e ensures e in a[1..] <==> e in b[1..] {
        TailMembers(a, e);
        TailMembers(b, e);
      }
      AscendingIsDetermined(a[1..], b[1..]);
      assert a == [a[0]] + a[1..] && b == [b[0]] + b[1..];
    }
  }

  lemma EmptyAlike(a: seq<Entry>, b: seq<Entry>)
    requires forall e :: e in a <==> e in b
    ensures a == [] <==> b == []
  {
    if a != [] { assert a[0] in a && a[0] in b; }
    if b != [] { assert b[0] in b && b[0] in a; }
  }

  lemma TailMembers(a: seq<Entry>, e: Entry)
    requires KeysAscendStrictly(a) && a != []
    ensures e in a[1..] <==> e in a && e != a[0]
  {
    hide EncodedKey;
    if e in a[1..] {
      var i :| 1 <= i < |a| && a[i] == e;
      assert Less(EncodedKey(a[0].key), EncodedKey(a[i].key));
      LessIsTotal(EncodedKey(a[0].key), EncodedKey(a[0].key));
    }
  }

  lemma {:induction false} GetIsMember(entries: seq<Entry>, key: Str)
    requires Get(entries, key).Some?
    ensures Entry(key, Get(entries, key).value) in entries
    decreases |entries|
  {
    if entries[0].key != key {
      GetIsMember(entries[1..], key);
    } else {
      assert entries[0] in entries;
    }
  }

  lemma MemberIsFound(entries: seq<Entry>, e: Entry)
    requires IsCanonical(Map(entries)) && e in entries
    ensures Get(entries, e.key) == Some(e.value)
  {
    AscendingKeysDiffer(entries);
    var i :| 0 <= i < |entries| && entries[i] == e;
    GetFinds(entries, i);
  }

  lemma MembersAreFields(a: seq<Entry>, b: seq<Entry>, t: Ticket, e: Entry)
    requires IsCanonical(Map(a)) && Describes(a, t) && OnlyKnownKeys(a) && e in a && Describes(b, t)
    ensures e in b
  {
    hide Get, Name, IsCanonical;
    var i :| 0 <= i < |a| && a[i] == e;
    assert IsKnown(a[i].key);
    var f: Field :| e.key == Name(f);
    MemberIsFound(a, e);
    assert Holds(a, t, f) && Holds(b, t, f);
    GetIsMember(b, e.key);
  }

  lemma CanonicalBodyIsKnown(t: Ticket)
    ensures Canonical(Body(t)).Map? && OnlyKnownKeys(Canonical(Body(t)).entries)
  {
    CanonicalMap(BodyEntries(t));
    hide Canonical, Sort, Name;
    var sorted := Canonical(Body(t)).entries;
    forall j | 0 <= j < |sorted| ensures IsKnown(sorted[j].key) {
      var i := SortedEntry(BodyEntries(t), j);
      assert sorted[j].key == Name(WrittenFields(t)[i]);
    }
  }

  /** Among the canonical maps that describe a ticket, its own body is the one without other keys. */
  lemma KnownKeysExactly(v: Value, t: Ticket)
    requires v.Map? && IsCanonical(v) && Describes(v.entries, t)
    ensures v == Canonical(Body(t)) <==> OnlyKnownKeys(v.entries)
  {
    CanonicalBodyIsKnown(t);
    CanonicalBodyDescribes(t);
    BodyIsWellFormed(t);
    CanonicalIsCanonical(Body(t));
    if OnlyKnownKeys(v.entries) {
      var w := Canonical(Body(t));
      assert KeysAscendStrictly(v.entries) && KeysAscendStrictly(w.entries);
      hide Canonical, Describes, OnlyKnownKeys, IsCanonical, KeysAscendStrictly;
      forall e ensures e in v.entries <==> e in w.entries {
        if e in v.entries { MembersAreFields(v.entries, w.entries, t, e); }
        if e in w.entries { MembersAreFields(w.entries, v.entries, t, e); }
      }
      AscendingIsDetermined(v.entries, w.entries);
    }
  }

  lemma EncodingDetermines(v: Value, w: Value)
    requires IsCanonical(v) && IsCanonical(w) && Shallow(v, 0) && Shallow(w, 0)
    requires Encode(v) == Encode(w) && |Encode(v)| <= ISIZE_MAX
    ensures v == w
  {
    hide Encode, IsCanonical, Shallow, DecodeCanonical;
    DecodesExactly(Encode(v), v);
    DecodesExactly(Encode(v), w);
  }

  lemma SealDetermines(hash: Hash, a: seq<byte>, b: seq<byte>)
    requires Base32.Encode(Seal(hash, a)) == Base32.Encode(Seal(hash, b))
    ensures a == b
  {
    hide Base32.Encode, Base32.Decode, Seal, ChecksumMatches;
    Base32.DecodesExactly(Base32.Encode(Seal(hash, a)), Seal(hash, a));
    Base32.DecodesExactly(Base32.Encode(Seal(hash, a)), Seal(hash, b));
    SealedExactly(hash, Seal(hash, a), a);
    SealedExactly(hash, Seal(hash, a), b);
  }

  /** A text has one token value: two values of the same text are equal. */
  lemma TokenDetermines(hash: Hash, s: string, v: Value, w: Value)
    requires |s| <= ISIZE_MAX && IsToken(hash, s, v) && IsToken(hash, s, w)
    ensures v == w
  {
    hide Base32.Encode, Base32.Decode, Encode, IsCanonical, Shallow, Seal, Upper;
    SealDetermines(hash, Encode(v), Encode(w));
    EncodedIsShort(hash, s, v);
    EncodingDetermines(v, w);
  }

  lemma EncodedIsShort(hash: Hash, s: string, v: Value)
    requires |s| <= ISIZE_MAX && IsToken(hash, s, v)
    ensures |Encode(v)| <= ISIZE_MAX
  {
    hide Base32.Encode, Base32.Decode, Encode, IsCanonical, Shallow, Upper;
    var folded := Upper(s[|TICKET_PREFIX|..]);
    Base32.DecodesExactly(folded, Seal(hash, Encode(v)));
    DecodedIsShorter(folded);
  }

  /** The printed token of a ticket is the lower-case form of every token of the same value. */
  lemma PrintsLowerCase(hash: Hash, s: string, t: Ticket)
    requires HasPrefix(s)
    ensures Print(hash, t) == TICKET_PREFIX + Lower(s[|TICKET_PREFIX|..])
            <==> Upper(s[|TICKET_PREFIX|..]) == Base32.Encode(Seal(hash, Encode(Body(t))))
  {
    var rest := s[|TICKET_PREFIX|..];
    var symbols := Base32.Encode(Seal(hash, Encode(Body(t))));
    SymbolsAreUpper(Seal(hash, Encode(Body(t))));
    FoldsAgree(rest);
    hide Base32.Encode, Encode, Seal, Lower, Upper;
    AfterPrefix(Lower(rest));
    AfterPrefix(Lower(symbols));
    assert Print(hash, t) == TICKET_PREFIX + Lower(symbols);
    if Print(hash, t) == TICKET_PREFIX + Lower(rest) {
      assert Lower(symbols) == Lower(rest);
      FoldsAgree(symbols);
    }
  }

  /**
   * Printing a parsed ticket gives the text back in lower case exactly when its map holds no
   * other keys: unknown keys are ignored by the parser and so lost.
   */
  lemma PrintAfterParseExactly(hash: Hash, s: string, t: Ticket)
    requires |s| <= ISIZE_MAX && Parse(hash, s) == Ok(t)
    ensures Print(hash, t) == TICKET_PREFIX + Lower(s[|TICKET_PREFIX|..])
            <==> exists v :: IsToken(hash, s, v) && v.Map? && OnlyKnownKeys(v.entries)
  {
    ParsesExactly(hash, s, t);
    var v :| IsToken(hash, s, v) && v.Map? && Describes(v.entries, t);
    KnownKeysExactly(v, t);
    PrintsLowerCase(hash, s, t);
    EncodeCanonical(t);
    BodyIsWellFormed(t);
    CanonicalIsCanonical(Body(t));
    CanonicalIsShallow(Body(t), 0);
    var w := Canonical(Body(t));
    hide Parse, Print, Base32.Encode, Encode, Seal, Lower, Upper, Canonical;
    hide Describes, IsCanonical, Shallow, OnlyKnownKeys;
    if Print(hash, t) == TICKET_PREFIX + Lower(s[|TICKET_PREFIX|..]) {
      assert IsToken(hash, s, w);
      TokenDetermines(hash, s, v, w);
    }
    if u :| IsToken(hash, s, u) && u.Map? && OnlyKnownKeys(u.entries) {
      TokenDetermines(hash, s, u, v);
    }
  }

  /** A ticket's own fields and one entry under another key. */
  function WithExtra(t: Ticket, key: Str): Value {
    Canonical(Map(BodyEntries(t) + [Entry(key, Uint(0))]))
  }

  /** The token of a value. */
  function TokenText(hash: Hash, v: Value): string {
    TICKET_PREFIX + Lower(Base32.Encode(Seal(hash, Encode(v))))
  }

  lemma TokenTextIsToken(hash: Hash, v: Value)
    requires IsCanonical(v) && Shallow(v, 0)
    ensures IsToken(hash, TokenText(hash, v), v)
  {
    hide Encode, IsCanonical, Shallow, Base32.Encode, Seal, Lower, Upper;
    AfterPrefix(Lower(Base32.Encode(Seal(hash, Encode(v)))));
    SymbolsAreUpper(Seal(hash, Encode(v)));
  }

  /** Different canonical values have different tokens. */
  lemma TokenTextDetermines(hash: Hash, v: Value, w: Value)
    requires IsCanonical(v) && IsCanonical(w) && Shallow(v, 0) && Shallow(w, 0) && |Encode(v)| <= ISIZE_MAX
    requires TokenText(hash, v) == TokenText(hash, w)
    ensures v == w
  {
    hide Encode, IsCanonical, Shallow, Base32.Encode, Seal, Lower, Upper;
    AfterPrefix(Lower(Base32.Encode(Seal(hash, Encode(v)))));
    AfterPrefix(Lower(Base32.Encode(Seal(hash, Encode(w)))));
    SymbolsAreUpper(Seal(hash, Encode(v)));
    SymbolsAreUpper(Seal(hash, Encode(w)));
    SealDetermines(hash, Encode(v), Encode(w));
    EncodingDetermines(v, w);
  }

  /**
   * An unknown key is accepted and lost: for every ticket and every other key there is a text
   * that parses to the ticket and is not what the ticket prints as.
   */
  lemma UnknownKeyIsLost(hash: Hash, t: Ticket, key: Str)
    requires !IsKnown(key) && |Encode(WithExtra(t, key))| <= ISIZE_MAX
    ensures Parse(hash, TokenText(hash, WithExtra(t, key))) == Ok(t)
    ensures Print(hash, t) != TokenText(hash, WithExtra(t, key))
  {
    var v, w := WithExtra(t, key), Canonical(Body(t));
    ExtraKeyIsIgnored(t, key);
    CanonicalBodyIsKnown(t);
    BodyIsWellFormed(t);
    CanonicalIsCanonical(Body(t));
    CanonicalIsShallow(Body(t), 0);
    EncodeCanonical(t);
    hide Parse, FromBody, Encode, Canonical, IsCanonical, Shallow, Base32.Encode, Seal, Lower, WithExtra, OnlyKnownKeys;
    hide IsToken;
    TokenTextIsToken(hash, v);
    TokenParses(hash, TokenText(hash, v), v);
    assert Print(hash, t) == TokenText(hash, w);
    if Print(hash, t) == TokenText(hash, v) {
      hide TokenText;
      TokenTextDetermines(hash, v, w);
    }
  }

  lemma ExtraKeyIsIgnored(t: Ticket, key: Str)
    requires !IsKnown(key)
    ensures var v := WithExtra(t, key);
            v.Map? && IsCanonical(v) && Shallow(v, 0) && FromBody(v) == Ok(t) && !OnlyKnownKeys(v.entries)
  {
    var entries := BodyEntries(t) + [Entry(key, Uint(0))];
    ExtraKeyIsWellFormed(t, key);
    CanonicalIsCanonical(Map(entries));
    CanonicalIsShallow(Map(entries), 0);
    CanonicalMap(entries);
    var v := WithExtra(t, key);
    BodyDescribes(t);
    var j := SortedAt(entries, |entries| - 1);
    assert v.entries[j].key == key;
    hide Canonical, IsCanonical, UniqueKeys, Shallow, Get, Name, BodyEntries, Sort;
    forall f: Field ensures Holds(v.entries, t, f) {
      GetCanonical(entries, Name(f));
      GetBeforeExtra(BodyEntries(t), Entry(key, Uint(0)), Name(f));
      assert Holds(BodyEntries(t), t, f);
      if FieldValue(t, f).Some? {
        FieldValuesAreFlat(t, f);
      }
    }
    FromBodyExactly(v, t);
  }

  lemma {:induction false} GetBeforeExtra(entries: seq<Entry>, extra: Entry, key: Str)
    requires extra.key != key
    ensures Get(entries + [extra], key) == Get(entries, key)
    decreases |entries|
  {
    if entries == [] {
      assert entries + [extra] == [extra];
    } else {
      assert (entries + [extra])[1..] == entries[1..] + [extra];
      GetBeforeExtra(entries[1..], extra, key);
    }
  }

  lemma ExtraKeyIsWellFormed(t: Ticket, key: Str)
    requires !IsKnown(key)
    ensures UniqueKeys(Map(BodyEntries(t) + [Entry(key, Uint(0))]))
    ensures Shallow(Map(BodyEntries(t) + [Entry(key, Uint(0))]), 0)
  {
    BodyIsWellFormed(t);
    hide Name;
    var entries := BodyEntries(t) + [Entry(key, Uint(0))];
    forall i, j | 0 <= i < j < |entries| ensures entries[i].key != entries[j].key {
      assert entries[i] == BodyEntries(t)[i] && BodyEntries(t)[i].key == Name(WrittenFields(t)[i]);
    }
  }
}

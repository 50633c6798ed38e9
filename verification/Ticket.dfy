/**
 * The invite ticket of crates/iroh-rooms-core/src/ticket.rs: a prefix, then base32 of a version
 * byte, a deterministic CBOR map and a truncated checksum. The BLAKE3 hash is a parameter.
 */
module Tickets {
  import opened Prelude
  import opened Utf8
  import opened KeyOrder
  import opened Cbor

  const TICKET_PREFIX: string := "roomtkt1"
  const TICKET_VERSION: byte := 1
  const TICKET_CHECKSUM_LEN: nat := 4

  const DIGEST_LEN: nat := 32
  const PUBLIC_KEY_LEN: nat := 32
  const SHORT_ID_LEN: nat := 16

  type Key = b: seq<byte> | |b| == PUBLIC_KEY_LEN witness seq(PUBLIC_KEY_LEN, _ => 0)
  type Digest = b: seq<byte> | |b| == DIGEST_LEN witness seq(DIGEST_LEN, _ => 0)
  type ShortId = b: seq<byte> | |b| == SHORT_ID_LEN witness seq(SHORT_ID_LEN, _ => 0)

  datatype Ticket = Ticket(
    roomId: Digest,
    inviteId: ShortId,
    secret: ShortId,
    invitee: Key,
    role: Str,
    expiresAt: Option<u64>,
    inviter: Key,
    discovery: seq<Key>)

  datatype TicketError =
    BadPrefix | BadBase32 | Truncated | UnsupportedVersion(version: byte) | BadChecksum | MalformedBody

  // ---------------------------------------------------------------------------
  // Field names
  // ---------------------------------------------------------------------------

  predicate IsAscii(s: string) { forall i :: 0 <= i < |s| ==> s[i] < 128 as char }

  function AsciiBytes(s: string): (t: seq<byte>)
    requires IsAscii(s)
    ensures |t| == |s| && forall i :: 0 <= i < |s| ==> t[i] == s[i] as int && t[i] < 128
  {
    seq<byte>(|s|, i requires 0 <= i < |s| => s[i] as int)
  }

  lemma {:induction false} AsciiIsUtf8(t: seq<byte>)
    requires forall i :: 0 <= i < |t| ==> t[i] < 128
    ensures IsUtf8(t)
  {
    if t != [] {
      AsciiIsUtf8(t[1..]);
    }
  }

  function Ascii(s: string): (t: Str)
    requires IsAscii(s)
    ensures |t| == |s| && forall i :: 0 <= i < |s| ==> t[i] == s[i] as int
  {
    AsciiIsUtf8(AsciiBytes(s));
    AsciiBytes(s)
  }

  /** The names of the body map. */
  datatype Field = RoomId | InviteId | Secret | Invitee | Role | Inviter | Discovery | ExpiresAt

  function Spelling(f: Field): (s: string)
    ensures IsAscii(s)
  {
    match f
    case RoomId => "room_id"
    case InviteId => "invite_id"
    case Secret => "secret"
    case Invitee => "invitee"
    case Role => "role"
    case Inviter => "inviter"
    case Discovery => "discovery"
    case ExpiresAt => "expires_at"
  }

  function Name(f: Field): Str {
    Ascii(Spelling(f))
  }

  lemma NamesAreDistinct(f: Field, g: Field)
    requires f != g
    ensures Name(f) != Name(g)
  {
    var s, t := Spelling(f), Spelling(g);
    if |s| == |t| {
      assert s[0] != t[0] || s[6] != t[6];
    }
  }

  // ---------------------------------------------------------------------------
  // The body map
  // ---------------------------------------------------------------------------

  function DeviceValues(devices: seq<Key>): (r: seq<Value>)
    ensures |r| == |devices|
  {
    seq(|devices|, i requires 0 <= i < |devices| => Bytes(devices[i]))
  }

  /** The value a ticket writes under a field, if any. */
  function FieldValue(t: Ticket, f: Field): Option<Value> {
    match f
    case RoomId => Some(Bytes(t.roomId))
    case InviteId => Some(Bytes(t.inviteId))
    case Secret => Some(Bytes(t.secret))
    case Invitee => Some(Bytes(t.invitee))
    case Role => Some(Text(t.role))
    case Inviter => Some(Bytes(t.inviter))
    case Discovery => Some(Array(DeviceValues(t.discovery)))
    case ExpiresAt => if t.expiresAt.Some? then Some(Uint(t.expiresAt.value)) else None
  }

  /** The fields in the order they are pushed. */
  function WrittenFields(t: Ticket): seq<Field> {
    [RoomId, InviteId, Secret, Invitee, Role, Inviter, Discovery] + if t.expiresAt.Some? then [ExpiresAt] else []
  }

  function BodyEntries(t: Ticket): (r: seq<Entry>)
    ensures |r| == |WrittenFields(t)|
  {
    var fields := WrittenFields(t);
    seq(|fields|, i requires 0 <= i < |fields| => Entry(Name(fields[i]), FieldValue(t, fields[i]).value))
  }

  function Body(t: Ticket): Value {
    Map(BodyEntries(t))
  }

  /** The body map, one entry pushed after another. */
  method ToCborBody(t: Ticket) returns (body: Value)
    ensures body == Body(t)
  {
    hide Name, DeviceValues;
    var entries := [
      Entry(Name(RoomId), Bytes(t.roomId)),
      Entry(Name(InviteId), Bytes(t.inviteId)),
      Entry(Name(Secret), Bytes(t.secret)),
      Entry(Name(Invitee), Bytes(t.invitee)),
      Entry(Name(Role), Text(t.role)),
      Entry(Name(Inviter), Bytes(t.inviter)),
      Entry(Name(Discovery), Array(DeviceValues(t.discovery)))];
    FirstEntries(t, entries);
    hide BodyEntries;
    if t.expiresAt.Some? {
      entries := entries + [Entry(Name(ExpiresAt), Uint(t.expiresAt.value))];
    }
    body := Map(entries);
  }

  /** The seven fields every ticket has, and then the expiry if it has one. */
  lemma FirstEntries(t: Ticket, entries: seq<Entry>)
    requires |entries| == 7
    requires entries[0] == Entry(Name(RoomId), Bytes(t.roomId))
    requires entries[1] == Entry(Name(InviteId), Bytes(t.inviteId))
    requires entries[2] == Entry(Name(Secret), Bytes(t.secret))
    requires entries[3] == Entry(Name(Invitee), Bytes(t.invitee))
    requires entries[4] == Entry(Name(Role), Text(t.role))
    requires entries[5] == Entry(Name(Inviter), Bytes(t.inviter))
    requires entries[6] == Entry(Name(Discovery), Array(DeviceValues(t.discovery)))
    ensures BodyEntries(t)
            == entries + if t.expiresAt.Some? then [Entry(Name(ExpiresAt), Uint(t.expiresAt.value))] else []
  {
    hide Name, DeviceValues;
    var fields := WrittenFields(t);
    assert fields[0] == RoomId && fields[1] == InviteId && fields[2] == Secret && fields[3] == Invitee;
    assert fields[4] == Role && fields[5] == Inviter && fields[6] == Discovery;
    assert t.expiresAt.Some? ==> fields[7] == ExpiresAt;
    assert BodyEntries(t)[..7] == entries;
  }

  /** The first entry under a key. */
  function Get(entries: seq<Entry>, key: Str): Option<Value>
    decreases |entries|
  {
    if entries == [] then None
    else if entries[0].key == key then Some(entries[0].value)
    else Get(entries[1..], key)
  }

  function Fixed(entries: seq<Entry>, f: Field, n: nat): Result<seq<byte>, TicketError> {
    match Get(entries, Name(f))
    case Some(Bytes(b)) => if |b| == n then Ok(b) else Err(MalformedBody)
    case _ => Err(MalformedBody)
  }

  function DeviceArray(entries: seq<Entry>, f: Field): Result<seq<Key>, TicketError> {
    match Get(entries, Name(f))
    case Some(Array(items)) =>
      if forall i :: 0 <= i < |items| ==> items[i].Bytes? && |items[i].bytes| == PUBLIC_KEY_LEN
      then Ok(seq<Key>(|items|, i requires 0 <= i < |items| => items[i].bytes))
      else Err(MalformedBody)
    case _ => Err(MalformedBody)
  }

  function Expiry(entries: seq<Entry>): Result<Option<u64>, TicketError> {
    match Get(entries, Name(ExpiresAt))
    case None => Ok(None)
    case Some(Uint(n)) => Ok(Some(n))
    case Some(_) => Err(MalformedBody)
  }

  function FromBody(v: Value): Result<Ticket, TicketError> {
    if !v.Map? then Err(MalformedBody)
    else
      var roomId := Fixed(v.entries, RoomId, DIGEST_LEN);
      var inviteId := Fixed(v.entries, InviteId, SHORT_ID_LEN);
      var secret := Fixed(v.entries, Secret, SHORT_ID_LEN);
      var invitee := Fixed(v.entries, Invitee, PUBLIC_KEY_LEN);
      var role := Get(v.entries, Name(Role));
      var inviter := Fixed(v.entries, Inviter, PUBLIC_KEY_LEN);
      var discovery := DeviceArray(v.entries, Discovery);
      var expiresAt := Expiry(v.entries);
      if roomId.Ok? && inviteId.Ok? && secret.Ok? && invitee.Ok? && role.Some? && role.value.Text?
         && inviter.Ok? && discovery.Ok? && expiresAt.Ok?
      then Ok(Ticket(roomId.value, inviteId.value, secret.value, invitee.value, role.value.text, expiresAt.value,
                     inviter.value, discovery.value))
      else Err(MalformedBody)
  }

  /** The map holds exactly this ticket's value under each field; other keys do not matter. */
  ghost predicate Describes(entries: seq<Entry>, t: Ticket) {
    forall f: Field :: Holds(entries, t, f)
  }

  ghost predicate Holds(entries: seq<Entry>, t: Ticket, f: Field) {
    Get(entries, Name(f)) == FieldValue(t, f)
  }

  lemma DeviceArrayExactly(entries: seq<Entry>, f: Field, devices: seq<Key>)
    ensures DeviceArray(entries, f) == Ok(devices) <==> Get(entries, Name(f)) == Some(Array(DeviceValues(devices)))
  {
    hide Get, Name;
    match Get(entries, Name(f))
    case Some(Array(items)) =>
      if DeviceArray(entries, f) == Ok(devices) {
        assert items == DeviceValues(devices);
      }
      if items == DeviceValues(devices) {
        assert forall i :: 0 <= i < |items| ==> items[i] == Bytes(devices[i]);
        assert DeviceArray(entries, f).value == devices;
      }
    case _ =>
  }

  lemma FixedExactly(entries: seq<Entry>, t: Ticket, f: Field, n: nat, b: seq<byte>)
    requires |b| == n && FieldValue(t, f) == Some(Bytes(b))
    ensures Fixed(entries, f, n) == Ok(b) <==> Holds(entries, t, f)
  {}

  lemma OthersExactly(entries: seq<Entry>, t: Ticket)
    ensures Expiry(entries) == Ok(t.expiresAt) <==> Holds(entries, t, ExpiresAt)
    ensures Get(entries, Name(Role)) == Some(Text(t.role)) <==> Holds(entries, t, Role)
    ensures DeviceArray(entries, Discovery) == Ok(t.discovery) <==> Holds(entries, t, Discovery)
  {
    hide DeviceArray, Get, Name;
    DeviceArrayExactly(entries, Discovery, t.discovery);
  }

  lemma AllFields(entries: seq<Entry>, t: Ticket)
    ensures Describes(entries, t)
            <==> && Holds(entries, t, RoomId) && Holds(entries, t, InviteId) && Holds(entries, t, Secret)
                 && Holds(entries, t, Invitee) && Holds(entries, t, Role) && Holds(entries, t, Inviter)
                 && Holds(entries, t, Discovery) && Holds(entries, t, ExpiresAt)
  {
    hide Holds;
    forall f: Field ensures Describes(entries, t) ==> Holds(entries, t, f) {}
    if !Describes(entries, t) {
      var f: Field :| !Holds(entries, t, f);
      match f {
        case RoomId =>
        case InviteId =>
        case Secret =>
        case Invitee =>
        case Role =>
        case Inviter =>
        case Discovery =>
        case ExpiresAt =>
      }
    }
  }

  /** The fields one by one. */
  lemma DescribesEach(entries: seq<Entry>, t: Ticket)
    ensures Describes(entries, t)
            <==> && Fixed(entries, RoomId, DIGEST_LEN) == Ok(t.roomId)
                 && Fixed(entries, InviteId, SHORT_ID_LEN) == Ok(t.inviteId)
                 && Fixed(entries, Secret, SHORT_ID_LEN) == Ok(t.secret)
                 && Fixed(entries, Invitee, PUBLIC_KEY_LEN) == Ok(t.invitee)
                 && Get(entries, Name(Role)) == Some(Text(t.role))
                 && Fixed(entries, Inviter, PUBLIC_KEY_LEN) == Ok(t.inviter)
                 && DeviceArray(entries, Discovery) == Ok(t.discovery)
                 && Expiry(entries) == Ok(t.expiresAt)
  {
    hide Get, Name, Fixed, DeviceArray, Expiry, Describes, Holds;
    AllFields(entries, t);
    OthersExactly(entries, t);
    FixedExactly(entries, t, RoomId, DIGEST_LEN, t.roomId);
    FixedExactly(entries, t, InviteId, SHORT_ID_LEN, t.inviteId);
    FixedExactly(entries, t, Secret, SHORT_ID_LEN, t.secret);
    FixedExactly(entries, t, Invitee, PUBLIC_KEY_LEN, t.invitee);
    FixedExactly(entries, t, Inviter, PUBLIC_KEY_LEN, t.inviter);
  }

  /** A body parses to a ticket exactly when it is a map that describes it. */
  lemma FromBodyExactly(v: Value, t: Ticket)
    ensures FromBody(v) == Ok(t) <==> v.Map? && Describes(v.entries, t)
    ensures FromBody(v).Err? ==> FromBody(v) == Err(MalformedBody)
  {
    hide Get, Name, Fixed, DeviceArray, Expiry, Describes;
    if v.Map? {
      DescribesEach(v.entries, t);
    }
  }

  // ---------------------------------------------------------------------------
  // Lookups survive sorting
  // ---------------------------------------------------------------------------

  ghost predicate KeysDiffer(entries: seq<Entry>) {
    forall i, j :: 0 <= i < j < |entries| ==> entries[i].key != entries[j].key
  }

  lemma {:induction false} GetFinds(entries: seq<Entry>, i: nat)
    requires i < |entries| && KeysDiffer(entries)
    ensures Get(entries, entries[i].key) == Some(entries[i].value)
    decreases |entries|
  {
    if i > 0 {
      assert entries[0].key != entries[i].key;
      assert entries[1..][i - 1] == entries[i];
      GetFinds(entries[1..], i - 1);
    }
  }

  lemma {:induction false} GetMisses(entries: seq<Entry>, key: Str)
    requires forall i :: 0 <= i < |entries| ==> entries[i].key != key
    ensures Get(entries, key) == None
    decreases |entries|
  {
    if entries != [] {
      assert forall i :: 0 <= i < |entries| - 1 ==> entries[1..][i] == entries[i + 1];
      GetMisses(entries[1..], key);
    }
  }

  lemma BodyKeysDiffer(t: Ticket)
    ensures KeysDiffer(BodyEntries(t))
  {
    hide Name, FieldValue;
    var fields := WrittenFields(t);
    forall i, j | 0 <= i < j < |fields| ensures Name(fields[i]) != Name(fields[j]) {
      NamesAreDistinct(fields[i], fields[j]);
    }
  }

  lemma FieldIsWritten(t: Ticket, f: Field) returns (i: nat)
    requires FieldValue(t, f).Some?
    ensures i < |WrittenFields(t)| && WrittenFields(t)[i] == f
  {
    match f
    case RoomId => i := 0;
    case InviteId => i := 1;
    case Secret => i := 2;
    case Invitee => i := 3;
    case Role => i := 4;
    case Inviter => i := 5;
    case Discovery => i := 6;
    case ExpiresAt => i := 7;
  }

  lemma BodyDescribes(t: Ticket)
    ensures Describes(BodyEntries(t), t)
  {
    hide Get, Name;
    BodyKeysDiffer(t);
    forall f: Field ensures Holds(BodyEntries(t), t, f) {
      if FieldValue(t, f).Some? {
        var i := FieldIsWritten(t, f);
        GetFinds(BodyEntries(t), i);
      } else {
        assert f == ExpiresAt && t.expiresAt.None?;
        forall i | 0 <= i < |BodyEntries(t)| ensures BodyEntries(t)[i].key != Name(f) {
          NamesAreDistinct(WrittenFields(t)[i], f);
        }
        GetMisses(BodyEntries(t), Name(f));
      }
    }
  }

  /** Sorting a map's entries by key keeps what each key finds. */
  lemma GetCanonical(entries: seq<Entry>, key: Str)
    requires UniqueKeys(Map(entries))
    ensures Canonical(Map(entries)).Map?
    ensures var found := Get(entries, key);
            Get(Canonical(Map(entries)).entries, key) == if found.Some? then Some(Canonical(found.value)) else None
  {
    CanonicalMap(entries);
    CanonicalIsCanonical(Map(entries));
    var sorted := Canonical(Map(entries)).entries;
    assert KeysDiffer(entries);
    assert KeysDiffer(sorted) by { AscendingKeysDiffer(sorted); }
    hide Canonical, IsCanonical, UniqueKeys, Sort, Get;
    if i :| 0 <= i < |entries| && entries[i].key == key {
      GetFinds(entries, i);
      var j := SortedAt(entries, i);
      GetFinds(sorted, j);
    } else {
      GetMisses(entries, key);
      forall j | 0 <= j < |sorted| ensures sorted[j].key != key {
        var i := SortedEntry(entries, j);
      }
      GetMisses(sorted, key);
    }
  }

  lemma AscendingKeysDiffer(entries: seq<Entry>)
    requires IsCanonical(Map(entries))
    ensures KeysDiffer(entries)
  {
    forall i, j | 0 <= i < j < |entries| ensures entries[i].key != entries[j].key {
      assert Less(EncodedKey(entries[i].key), EncodedKey(entries[j].key));
      LessIsTotal(EncodedKey(entries[i].key), EncodedKey(entries[j].key));
    }
  }

  /** The values a ticket writes hold no maps, so they are canonical as they stand. */
  lemma FieldValuesAreFlat(t: Ticket, f: Field)
    requires FieldValue(t, f).Some?
    ensures var v := FieldValue(t, f).value; Canonical(v) == v && UniqueKeys(v) && Shallow(v, 1)
  {
    var v := FieldValue(t, f).value;
    if v.Array? {
      assert CanonicalItems(v.items) == v.items;
    }
  }

  lemma BodyIsWellFormed(t: Ticket)
    ensures UniqueKeys(Body(t)) && Shallow(Body(t), 0)
  {
    BodyKeysDiffer(t);
    var fields := WrittenFields(t);
    forall i | 0 <= i < |fields| ensures UniqueKeys(BodyEntries(t)[i].value) && Shallow(BodyEntries(t)[i].value, 1) {
      FieldValuesAreFlat(t, fields[i]);
    }
  }

  lemma CanonicalBodyDescribes(t: Ticket)
    ensures Canonical(Body(t)).Map? && Describes(Canonical(Body(t)).entries, t)
  {
    BodyIsWellFormed(t);
    BodyDescribes(t);
    CanonicalMap(BodyEntries(t));
    hide Canonical, Get, Name, BodyEntries, UniqueKeys, Shallow;
    forall f: Field ensures Holds(Canonical(Body(t)).entries, t, f) {
      GetCanonical(BodyEntries(t), Name(f));
      assert Holds(BodyEntries(t), t, f);
      if FieldValue(t, f).Some? {
        FieldValuesAreFlat(t, f);
      }
    }
  }
}

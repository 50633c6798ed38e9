/**
 * The byte layout of an invite ticket's body, crates/iroh-rooms-core/src/ticket.rs: which keys it
 * holds, what is filed under each, and in which order the deterministic encoder puts them.
 */
module TicketLayout {
  import opened Prelude
  import opened Utf8
  import opened CborHeads
  import opened KeyOrder
  import opened Cbor
  import opened CborReader
  import opened Tickets

  /** The entries of a ticket's body as they are encoded: shorter keys first, equal lengths bytewise. */
  function Layout(t: Ticket): seq<Entry> {
    [Entry(Name(Role), Text(t.role)),
     Entry(Name(Secret), Bytes(t.secret)),
     Entry(Name(Invitee), Bytes(t.invitee)),
     Entry(Name(Inviter), Bytes(t.inviter)),
     Entry(Name(RoomId), Bytes(t.roomId)),
     Entry(Name(Discovery), Array(DeviceValues(t.discovery))),
     Entry(Name(InviteId), Bytes(t.inviteId))]
    + if t.expiresAt.Some? then [Entry(Name(ExpiresAt), Uint(t.expiresAt.value))] else []
  }

  // ---------------------------------------------------------------------------
  // The order of the keys
  // ---------------------------------------------------------------------------

  /** A short key is encoded as one byte for its length and then its own bytes. */
  lemma ShortKey(key: Str)
    requires |key| <= 0x17
    ensures EncodedKey(key) == [Initial(3, |key|)] + key
  {}

  lemma ShorterIsLess(a: Str, b: Str)
    requires |a| < |b| <= 0x17
    ensures Less(EncodedKey(a), EncodedKey(b))
  {
    ShortKey(a);
    ShortKey(b);
  }

  lemma {:induction false} FirstDifference(a: seq<byte>, b: seq<byte>, i: nat)
    requires i < |a| && i < |b| && a[..i] == b[..i] && a[i] < b[i]
    ensures Less(a, b)
  {
    if i > 0 {
      assert a[0] == a[..i][0] && b[0] == b[..i][0];
      assert a[1..][..i - 1] == a[..i][1..] && b[1..][..i - 1] == b[..i][1..];
      FirstDifference(a[1..], b[1..], i - 1);
    }
  }

  lemma SameLengthIsLess(a: Str, b: Str, i: nat)
    requires i < |a| == |b| <= 0x17 && a[..i] == b[..i] && a[i] < b[i]
    ensures Less(EncodedKey(a), EncodedKey(b))
  {
    ShortKey(a);
    ShortKey(b);
    var x, y := EncodedKey(a), EncodedKey(b);
    assert x[..i + 1] == [x[0]] + a[..i] && y[..i + 1] == [y[0]] + b[..i];
    FirstDifference(x, y, i + 1);
  }

  lemma NameLengths()
    ensures |Name(Role)| == 4 && |Name(Secret)| == 6 && |Name(Invitee)| == |Name(Inviter)| == |Name(RoomId)| == 7
    ensures |Name(Discovery)| == |Name(InviteId)| == 9 && |Name(ExpiresAt)| == 10
  {}

  lemma NameStarts()
    requires |Name(Invitee)| == |Name(Inviter)| == |Name(RoomId)| == 7 && |Name(Discovery)| == |Name(InviteId)| == 9
    ensures Name(Invitee)[..6] == Name(Inviter)[..6] && Name(Invitee)[6] < Name(Inviter)[6]
    ensures Name(Inviter)[0] < Name(RoomId)[0] && Name(Discovery)[0] < Name(InviteId)[0]
  {
    var s, t := Spelling(Invitee), Spelling(Inviter);
    assert s[..6] == "invite" && t[..6] == "invite" && s[6] == 'e' && t[6] == 'r';
    assert forall i :: 0 <= i < 6 ==> s[i] == s[..6][i] && t[i] == t[..6][i];
  }

  lemma KeysInOrder()
    ensures Less(EncodedKey(Name(Role)), EncodedKey(Name(Secret)))
    ensures Less(EncodedKey(Name(Secret)), EncodedKey(Name(Invitee)))
    ensures Less(EncodedKey(Name(Invitee)), EncodedKey(Name(Inviter)))
    ensures Less(EncodedKey(Name(Inviter)), EncodedKey(Name(RoomId)))
    ensures Less(EncodedKey(Name(RoomId)), EncodedKey(Name(Discovery)))
    ensures Less(EncodedKey(Name(Discovery)), EncodedKey(Name(InviteId)))
    ensures Less(EncodedKey(Name(InviteId)), EncodedKey(Name(ExpiresAt)))
  {
    hide EncodedKey, Less, Name;
    NameLengths();
    NameStarts();
    ShorterIsLess(Name(Role), Name(Secret));
    ShorterIsLess(Name(Secret), Name(Invitee));
    SameLengthIsLess(Name(Invitee), Name(Inviter), 6);
    SameLengthIsLess(Name(Inviter), Name(RoomId), 0);
    ShorterIsLess(Name(RoomId), Name(Discovery));
    SameLengthIsLess(Name(Discovery), Name(InviteId), 0);
    ShorterIsLess(Name(InviteId), Name(ExpiresAt));
  }

  /** Neighbours in order put the whole list in order. */
  lemma {:induction false} NeighboursAscend(previous: Option<seq<byte>>, entries: seq<Entry>)
    requires previous.Some? && entries != [] ==> Less(previous.value, EncodedKey(entries[0].key))
    requires forall i :: 0 <= i < |entries| - 1 ==> Less(EncodedKey(entries[i].key), EncodedKey(entries[i + 1].key))
    ensures KeysAscend(previous, entries)
    decreases |entries|
  {
    hide Less, EncodedKey;
    if entries != [] {
      forall i | 0 <= i < |entries[1..]| - 1
        ensures Less(EncodedKey(entries[1..][i].key), EncodedKey(entries[1..][i + 1].key))
      {
        assert entries[1..][i] == entries[i + 1] && entries[1..][i + 1] == entries[i + 2];
      }
      NeighboursAscend(Some(EncodedKey(entries[0].key)), entries[1..]);
    }
  }

  lemma LayoutAscends(t: Ticket)
    ensures KeysAscend(None, Layout(t))
  {
    KeysInOrder();
    hide Name, EncodedKey, Less, KeysAscend;
    NeighboursAscend(None, Layout(t));
  }

  // ---------------------------------------------------------------------------
  // Sorting the pushed entries gives the layout
  // ---------------------------------------------------------------------------

  lemma {:induction false} SameAscending<T>(xs: seq<(seq<byte>, T)>, ys: seq<(seq<byte>, T)>)
    requires Ascending(xs) && Ascending(ys) && forall z :: z in xs <==> z in ys
    ensures xs == ys
  {
    hide Less;
    if ys != [] {
      assert ys[0] in xs;
    }
    if xs != [] {
      assert xs[0] in ys;
      FirstIsLeast(xs, ys[0]);
      FirstIsLeast(ys, xs[0]);
      LessIsTotal(xs[0].0, ys[0].0);
      AscendingTail(xs);
      AscendingTail(ys);
      LessIsTotal(xs[0].0, xs[0].0);
      assert xs == [xs[0]] + xs[1..] && ys == [ys[0]] + ys[1..];
      forall z ensures z in xs[1..] <==> z in ys[1..] {
        assert z in xs <==> z in ys;
      }
      SameAscending(xs[1..], ys[1..]);
    }
  }

  /** Each entry under its encoded key. */
  function Filed(entries: seq<Entry>): (r: seq<(seq<byte>, Entry)>)
    ensures |r| == |entries|
  {
    seq(|entries|, i requires 0 <= i < |entries| => (EncodedKey(entries[i].key), entries[i]))
  }

  lemma FiledHolds(entries: seq<Entry>, z: (seq<byte>, Entry))
    ensures z in Filed(entries) <==> z.1 in entries && z.0 == EncodedKey(z.1.key)
  {
    hide EncodedKey;
    if z.1 in entries && z.0 == EncodedKey(z.1.key) {
      var i :| 0 <= i < |entries| && entries[i] == z.1;
      assert Filed(entries)[i] == z;
    }
  }

  lemma BodyIsFiled(t: Ticket)
    ensures CanonicalEntries(BodyEntries(t)) == Filed(BodyEntries(t))
  {
    var fields := WrittenFields(t);
    hide EncodedKey, Name, Canonical, UniqueKeys, Shallow;
    forall i | 0 <= i < |fields| ensures Canonical(BodyEntries(t)[i].value) == BodyEntries(t)[i].value {
      FieldValuesAreFlat(t, fields[i]);
    }
  }

  lemma SameEntries(t: Ticket, e: Entry)
    ensures e in BodyEntries(t) <==> e in Layout(t)
  {
    hide Name, DeviceValues, BodyEntries;
    var pushed := [
      Entry(Name(RoomId), Bytes(t.roomId)),
      Entry(Name(InviteId), Bytes(t.inviteId)),
      Entry(Name(Secret), Bytes(t.secret)),
      Entry(Name(Invitee), Bytes(t.invitee)),
      Entry(Name(Role), Text(t.role)),
      Entry(Name(Inviter), Bytes(t.inviter)),
      Entry(Name(Discovery), Array(DeviceValues(t.discovery)))];
    FirstEntries(t, pushed);
  }

  lemma FiledAscends(entries: seq<Entry>)
    requires KeysAscend(None, entries)
    ensures Ascending(Filed(entries))
  {
    hide Less, EncodedKey;
    KeysAscendPairwise(None, entries);
  }

  lemma BodyKeysDistinct(t: Ticket)
    ensures DistinctKeys(Filed(BodyEntries(t)))
  {
    hide EncodedKey, BodyEntries;
    BodyKeysDiffer(t);
    var entries := BodyEntries(t);
    forall i, j | 0 <= i < j < |entries| ensures EncodedKey(entries[i].key) != EncodedKey(entries[j].key) {
      if EncodedKey(entries[i].key) == EncodedKey(entries[j].key) {
        EncodedKeyIsInjective(entries[i].key, entries[j].key);
      }
    }
  }

  lemma SortedBody(t: Ticket)
    ensures Sort(CanonicalEntries(BodyEntries(t))) == Filed(Layout(t))
  {
    hide Sort, EncodedKey, Less, Canonical, Layout, BodyEntries, KeysAscend, Filed, DistinctKeys, Ascending,
         CanonicalEntries;
    var c := Filed(BodyEntries(t));
    BodyIsFiled(t);
    LayoutAscends(t);
    FiledAscends(Layout(t));
    BodyKeysDistinct(t);
    SortAscends(c);
    forall z ensures z in Sort(c) <==> z in Filed(Layout(t)) {
      SortHolds(c, z);
      FiledHolds(BodyEntries(t), z);
      FiledHolds(Layout(t), z);
      SameEntries(t, z.1);
    }
    SameAscending(Sort(c), Filed(Layout(t)));
  }

  /**
   * What a ticket's body is encoded from: the keys `role`, `secret`, `invitee`, `inviter`, `room_id`,
   * `discovery`, `invite_id` in this order, each with its own value, and `expires_at` last, only
   * when the ticket expires.
   */
  lemma BodyLayout(t: Ticket)
    ensures Canonical(Body(t)) == Map(Layout(t))
    ensures Encode(Body(t)) == Write(Map(Layout(t)))
    ensures Spelling(Role) == "role" && Spelling(Secret) == "secret" && Spelling(Invitee) == "invitee"
    ensures Spelling(Inviter) == "inviter" && Spelling(RoomId) == "room_id" && Spelling(Discovery) == "discovery"
    ensures Spelling(InviteId) == "invite_id" && Spelling(ExpiresAt) == "expires_at"
  {
    hide Sort, Canonical, Layout, BodyEntries, Encode, Write, CanonicalEntries;
    CanonicalMap(BodyEntries(t));
    EncodeIsWrite(Body(t));
    SortedBody(t);
    assert Seconds(Filed(Layout(t))) == Layout(t);
  }
}

/**
 * A settled room in which a member joins from the admin's own device: the snapshot's device index
 * and the admission gate of crates/iroh-rooms-net/src/admission.rs name different identities.
 */
module SharedDevice {
  import opened Prelude
  import opened OrderedSets
  import opened Membership
  import opened RoomMemberships
  import opened MembershipLaws
  import opened GateLaws
  import opened Admission

  const HOST: IdentityKey := 9
  const GUEST: IdentityKey := 5
  const DEVICE: DeviceKey := 7

  function Opening(): Node {
    Node(Event(HOST, DEVICE, 0, [], RoomCreated), Accepted, {})
  }

  function Invitation(room: Room): Node {
    Node(Event(HOST, DEVICE, 0, [1], MemberInvited(0, room.capability(0, 0), MemberRole, GUEST, None)), Accepted, {1})
  }

  function Arrival(): Node {
    Node(Event(GUEST, DEVICE, 0, [2], MemberJoined(0, 0, MemberRole)), Accepted, {1, 2})
  }

  /** The room after its first `n` events. */
  function Opened(room: Room, n: nat): View {
    if n == 0 then map[]
    else if n == 1 then map[1 := Opening()]
    else if n == 2 then map[1 := Opening(), 2 := Invitation(room)]
    else map[1 := Opening(), 2 := Invitation(room), 3 := Arrival()]
  }

  // ---------------------------------------------------------------------------
  // The three verdicts
  // ---------------------------------------------------------------------------

  lemma HostIsAdmin(room: Room, n: nat)
    requires 1 <= n <= 3
    ensures Geneses(Opened(room, n)) == {1} && AdminOf(Opened(room, n)) == Some(HOST)
    ensures AdminMember(Opened(room, n)) == Member(HOST, Some(DEVICE), Active, AdminRole)
  {
    var v := Opened(room, n);
    assert Geneses(v) == {1};
    assert Least({1}) == 1;
  }

  lemma OpeningIsAccepted(room: Room)
    ensures Gate(room, Opening().event, Opened(room, 0)) == Accepted
  {
    hide Fold;
  }

  lemma InvitationIsAccepted(room: Room)
    ensures Gate(room, Invitation(room).event, Opened(room, 1)) == Accepted
  {
    var v := Opened(room, 1);
    HostIsAdmin(room, 1);
    assert Fold(room, v).admin == Some(HOST) && HOST in Fold(room, v).members
           && Fold(room, v).members[HOST].device == Some(DEVICE) by {
      hide Subjects, Capped, DeviceIndex, AdminOf, AdminMember, Geneses, Opened;
    }
    hide Fold;
  }

  lemma InvitedOnly(room: Room)
    ensures ActiveSubjects(Opened(room, 2)) == {}
  {
    var v := Opened(room, 2);
    forall s | s in Subjects(v) ensures !Resolve(v, s).status.Active? {
      var touch := Touch(v, s);
      forall h | h in Heads(v, touch) ensures !v[h].event.content.MemberJoined? {
        assert h in v;
      }
    }
  }

  lemma ArrivalIsInvited(room: Room)
    ensures var v, join := Opened(room, 2), Arrival().event;
            && MatchingInvites(room, join, HOST, v) == {2} && Least({2}) == 2
            && IsUsable(join, v[2].event) && !Consumed(v, join.sender, 2)
  {
    var v, join := Opened(room, 2), Arrival().event;
    assert MatchingInvites(room, join, HOST, v) == {2};
    assert forall id :: id in v ==> !IsDeparture(v[id].event.content);
  }

  lemma HostPresides(room: Room)
    requires room.maxActive >= 2
    ensures var view := Fold(room, Opened(room, 2)); view.admin == Some(HOST) && |ActiveIds(view)| == 1
  {
    var v := Opened(room, 2);
    HostIsAdmin(room, 2);
    InvitedOnly(room);
    assert Fold(room, v).admin == Some(HOST) by { hide Subjects, Capped, DeviceIndex, AdminMember, Geneses, Opened; }
    hide Fold, ActiveSubjects, AdminOf, Opened;
    CapIsExact(room, v);
  }

  lemma ArrivalIsAccepted(room: Room)
    requires room.maxActive >= 2
    ensures Gate(room, Arrival().event, Opened(room, 2)) == Accepted
  {
    var v, join := Opened(room, 2), Arrival().event;
    var view := Fold(room, v);
    assert Gate(room, join, v) == Judged(room, join, v, view) by { hide Fold, GateContent, DeviceBound, Opened; }
    hide Fold, Gate, Judged, Opened, MatchingInvites, Consumed, IsUsable;
    ArrivalIsInvited(room);
    HostPresides(room);
    JoinIsJudged(room, join, v, view);
    assert Candidates(room, join, v, view) == {2};
  }

  // ---------------------------------------------------------------------------
  // The settled room
  // ---------------------------------------------------------------------------

  lemma OpenedAncestors(room: Room)
    ensures AncestorsOf(Opened(room, 3), Opening().event) == {}
    ensures AncestorsOf(Opened(room, 3), Invitation(room).event) == {1}
    ensures AncestorsOf(Opened(room, 3), Arrival().event) == {1, 2}
  {
    var v := Opened(room, 3);
    assert v[1] == Opening() && v[2] == Invitation(room);
  }

  lemma OpenedRestricted(room: Room)
    ensures Restrict(Opened(room, 3), {}) == Opened(room, 0)
    ensures Restrict(Opened(room, 3), {1}) == Opened(room, 1)
    ensures Restrict(Opened(room, 3), {1, 2}) == Opened(room, 2)
  {}

  lemma OpenedIsJustified(room: Room)
    requires room.maxActive >= 2
    ensures Justified(room, Opened(room, 3), [], 1)
    ensures Justified(room, Opened(room, 3), [1], 2)
    ensures Justified(room, Opened(room, 3), [1, 2], 3)
  {
    hide Gate, AncestorsOf, Restrict;
    OpeningIsAccepted(room);
    InvitationIsAccepted(room);
    ArrivalIsAccepted(room);
    OpenedAncestors(room);
    OpenedRestricted(room);
    var v := Opened(room, 3);
    assert v[1] == Opening() && v[2] == Invitation(room) && v[3] == Arrival();
  }

  lemma OpenedIsClassified(room: Room)
    ensures forall id :: Classified(Opened(room, 3), id) <==> id in [1, 2, 3]
    ensures forall id :: id in Opened(room, 3) ==> !Opened(room, 3)[id].verdict.Pending?
  {}

  lemma OpenedIsConsistent(room: Room)
    requires room.maxActive >= 2
    ensures Consistent(room, Opened(room, 3), [1, 2, 3]) && Complete(Opened(room, 3))
    ensures Settled(room, EventsOf(Opened(room, 3)), Opened(room, 3))
  {
    hide Justified, Opened, Classified, Ready;
    OpenedIsJustified(room);
    OpenedIsClassified(room);
    var v, order := Opened(room, 3), [1, 2, 3];
    forall i | 0 <= i < |order| ensures Justified(room, v, order[..i], order[i]) {
      assert order[..0] == [] && order[..1] == [1] && order[..2] == [1, 2];
    }
    assert Consistent(room, v, order);
  }

  // ---------------------------------------------------------------------------
  // Two names for one device
  // ---------------------------------------------------------------------------

  lemma GuestTouches(room: Room)
    ensures Touch(Opened(room, 3), GUEST) == {2, 3}
    ensures Heads(Opened(room, 3), {2, 3}) == {3}
    ensures Resolve(Opened(room, 3), GUEST).device == Some(DEVICE)
  {
    var v := Opened(room, 3);
    assert Touch(v, GUEST) == {2, 3};
    assert Heads(v, {2, 3}) == {3};
    assert Joins(v, {3}) == {3};
    assert Least({3}) == 3;
  }

  lemma OnlyGuest(room: Room)
    ensures Subjects(Opened(room, 3)) == {GUEST}
    ensures Bound(Opened(room, 3), DEVICE) == {GUEST}
  {
    var v := Opened(room, 3);
    HostIsAdmin(room, 3);
    GuestTouches(room);
    forall s ensures s in Subjects(v) <==> s == GUEST {
      SubjectsAreTouched(v, s);
      if s != GUEST {
        assert Touch(v, s) == {};
      }
    }
  }

  lemma SharedBinders(room: Room)
    ensures var s := Fold(room, Opened(room, 3));
            && DEVICE in s.byDevice && s.byDevice[DEVICE] == GUEST
            && Binders(s, DEVICE) == {GUEST, HOST} && Greatest(Binders(s, DEVICE)) == HOST
  {
    var v := Opened(room, 3);
    HostIsAdmin(room, 3);
    OnlyGuest(room);
    BindersAre(room, v, DEVICE);
    IndexIs(v, DEVICE);
    assert Greatest({GUEST}) == GUEST && Greatest({GUEST, HOST}) == HOST;
    assert Fold(room, v).byDevice == DeviceIndex(v) by { hide Subjects, DeviceIndex, AdminMember, Geneses, Capped; }
    hide Fold, DeviceIndex, Bound, Binders, Opened, AdminMember, Geneses;
  }

  /**
   * In this settled room the snapshot's index resolves the shared device to the guest, and the
   * gate admits it as the host.
   */
  lemma IndexesDisagree(room: Room, valid: DeviceKey -> bool, view: AdmissionView)
    requires room.maxActive >= 2 && valid(DEVICE)
    requires Reflects(valid, Fold(room, Opened(room, 3)), {}, view)
    ensures Settled(room, EventsOf(Opened(room, 3)), Opened(room, 3))
    ensures var s := Fold(room, Opened(room, 3)); DEVICE in s.byDevice && s.byDevice[DEVICE] == GUEST
    ensures Decide(view, DEVICE) == Admit(HOST)
  {
    OpenedIsConsistent(room);
    HostIsAdmin(room, 3);
    CapIsExact(room, Opened(room, 3));
    SharedBinders(room);
    hide Fold, Opened, Binders, Settled, AdminOf;
    var s := Fold(room, Opened(room, 3));
    assert IsActive(s, HOST) && HOST in ActiveIds(s);
    assert Binders(s, DEVICE) != {};
  }
}

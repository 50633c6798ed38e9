/**
 * The authorization gate read off the causal graph: in every settled room the verdict on an event,
 * with its reason, follows from the events that causally precede it, and nobody is active without
 * a live admin invite.
 */
module GateLaws {
  import opened Prelude
  import opened OrderedSets
  import opened Membership
  import opened RoomMemberships
  import opened MembershipLaws
  import opened FoldLaws

  // ---------------------------------------------------------------------------
  // The causal past of an event, and the snapshot it folds to
  // ---------------------------------------------------------------------------

  ghost function Past(nodes: View, id: EventId): set<EventId> {
    set a | a in nodes && Precedes(nodes, a, id)
  }

  ghost function PastSnapshot(room: Room, nodes: View, id: EventId): Snapshot {
    Fold(room, Restrict(nodes, Past(nodes, id)))
  }

  /** The view the gate consults folds to what the whole causal past folds to. */
  lemma GateSeesThePast(room: Room, nodes: View, order: seq<EventId>, id: EventId)
    requires Consistent(room, nodes, order) && Classified(nodes, id)
    ensures Fold(room, Restrict(nodes, nodes[id].ancestors)) == PastSnapshot(room, nodes, id)
    ensures nodes[id].verdict == Gate(room, nodes[id].event, Restrict(nodes, nodes[id].ancestors))
  {
    var at := JustifiedAt(room, nodes, order, id);
    assert nodes[id].verdict == Gate(room, nodes[id].event, Restrict(nodes, nodes[id].ancestors)) by {
      hide Gate, AncestorsOf, Restrict;
    }
    hide Gate, Consistent, Justified, Precedes, Fold;
    var seen, past := Restrict(nodes, nodes[id].ancestors), Restrict(nodes, Past(nodes, id));
    forall a ensures a in nodes[id].ancestors
                     <==> a in nodes && AffectsMembership(nodes[a].event.content) && Precedes(nodes, a, id) {
      AncestorsAreTheCausalPast(room, nodes, order, id, a);
    }
    assert Relevant(seen) == Relevant(past);
    FoldIsRelevant(room, seen);
    FoldIsRelevant(room, past);
  }

  /** What the gate decides once the snapshot of the ancestors is known. */
  function Judged(room: Room, e: Event, v: View, view: Snapshot): Verdict {
    var verdict := GateContent(room, e, v, view);
    if verdict.Accepted? && !DeviceBound(e, view) then Rejected(UnboundDevice) else verdict
  }

  lemma VerdictIsJudged(room: Room, nodes: View, order: seq<EventId>, id: EventId)
    requires Consistent(room, nodes, order) && Classified(nodes, id)
    ensures nodes[id].verdict
            == Judged(room, nodes[id].event, Restrict(nodes, nodes[id].ancestors), PastSnapshot(room, nodes, id))
  {
    GateSeesThePast(room, nodes, order, id);
    hide Fold, Restrict, PastSnapshot, Consistent, GateContent, DeviceBound;
  }

  // ---------------------------------------------------------------------------
  // Acts of the admin
  // ---------------------------------------------------------------------------

  /** `g` is the genesis that names the admin, as far as event `id` can know. */
  ghost predicate Founds(nodes: View, g: EventId, id: EventId) {
    FirstGenesis(nodes, Past(nodes, id), g)
  }

  lemma FoundsOnce(nodes: View, g: EventId, h: EventId, id: EventId)
    requires Founds(nodes, g, id) && Founds(nodes, h, id)
    ensures g == h
  {}

  lemma PastAdmin(room: Room, nodes: View, id: EventId)
    ensures var view := PastSnapshot(room, nodes, id);
            && (view.admin.Some? <==> exists g :: Founds(nodes, g, id))
            && forall g :: Founds(nodes, g, id) ==>
                 var e := nodes[g].event;
                 && view.admin == Some(e.sender) && e.sender in view.members
                 && view.members[e.sender] == Member(e.sender, Some(e.device), Active, AdminRole)
  {
    hide Fold, Past, FirstGenesis, IsGenesis;
    AdminIsTheFirstGenesis(room, nodes, Past(nodes, id));
    SomeFirstGenesis(nodes, Past(nodes, id));
    if g :| FirstGenesis(nodes, Past(nodes, id), g) {
      assert Founds(nodes, g, id);
    }
  }

  lemma SomeFirstGenesis(nodes: View, scope: set<EventId>)
    ensures (exists g :: IsGenesis(nodes, scope, g)) <==> exists g :: FirstGenesis(nodes, scope, g)
  {
    if g :| IsGenesis(nodes, scope, g) {
      var v := Restrict(nodes, scope);
      assert g in Geneses(v);
      GenesisIs(nodes, scope, Least(Geneses(v)));
    }
  }

  /**
   * Inviting, removing and distributing keys is for the admin of the event's own causal past: the
   * sender of its lowest-id genesis. An invite or a key distribution must also come from the
   * device of that genesis; a removal may come from any.
   */
  lemma AdminActsExactly(room: Room, nodes: View, order: seq<EventId>, id: EventId)
    requires Consistent(room, nodes, order) && Classified(nodes, id)
    requires var c := nodes[id].event.content; c.MemberInvited? || c.MemberRemoved? || c.KeyDistribution?
    ensures var e, verdict := nodes[id].event, nodes[id].verdict;
            && (verdict.Accepted?
                <==> exists g :: Founds(nodes, g, id) && nodes[g].event.sender == e.sender
                                 && (e.content.MemberRemoved? || nodes[g].event.device == e.device))
            && (verdict == Rejected(InsufficientRole)
                <==> !exists g :: Founds(nodes, g, id) && nodes[g].event.sender == e.sender)
            && (verdict == Rejected(UnboundDevice)
                <==> exists g :: Founds(nodes, g, id) && nodes[g].event.sender == e.sender
                                 && !e.content.MemberRemoved? && nodes[g].event.device != e.device)
  {
    VerdictIsJudged(room, nodes, order, id);
    PastAdmin(room, nodes, id);
    var v, view := Restrict(nodes, nodes[id].ancestors), PastSnapshot(room, nodes, id);
    hide PastSnapshot, Founds, Consistent, Restrict, Judged;
    if g :| Founds(nodes, g, id) {
      forall h | Founds(nodes, h, id) ensures h == g {
        FoundsOnce(nodes, g, h, id);
      }
      ActIsJudged(room, nodes[id].event, v, view, nodes[g].event);
    } else {
      StrangerIsJudged(room, nodes[id].event, v, view);
    }
  }

  lemma ActIsJudged(room: Room, e: Event, v: View, view: Snapshot, founder: Event)
    requires e.content.MemberInvited? || e.content.MemberRemoved? || e.content.KeyDistribution?
    requires view.admin == Some(founder.sender) && founder.sender in view.members
    requires view.members[founder.sender].device == Some(founder.device)
    ensures Judged(room, e, v, view)
            == if founder.sender != e.sender then Rejected(InsufficientRole)
               else if e.content.MemberRemoved? || founder.device == e.device then Accepted
               else Rejected(UnboundDevice)
  {}

  lemma StrangerIsJudged(room: Room, e: Event, v: View, view: Snapshot)
    requires e.content.MemberInvited? || e.content.MemberRemoved? || e.content.KeyDistribution?
    requires view.admin.None?
    ensures Judged(room, e, v, view) == Rejected(InsufficientRole)
  {}

  /** A genesis is accepted wherever it stands. */
  lemma GenesisIsAccepted(room: Room, nodes: View, order: seq<EventId>, id: EventId)
    requires Consistent(room, nodes, order) && Classified(nodes, id) && nodes[id].event.content.RoomCreated?
    ensures nodes[id].verdict.Accepted?
  {
    VerdictIsJudged(room, nodes, order, id);
    hide Restrict, PastSnapshot, Consistent;
  }

  // ---------------------------------------------------------------------------
  // Ordinary writes and leaving
  // ---------------------------------------------------------------------------

  lemma ActiveIsBound(room: Room, v: View, s: IdentityKey)
    requires IsActive(Fold(room, v), s)
    ensures Fold(room, v).members[s].device.Some?
  {
    if AdminOf(v) == Some(s) {
      assert Fold(room, v).members[s] == AdminMember(v) by { hide Subjects, Capped, DeviceIndex; }
    } else {
      ActiveIsResolved(room, v, s);
      hide Fold, Admitted;
      var touch := Touch(v, s);
      var heads := Heads(v, touch);
      assert StatusOf(v, heads).Active?;
      var h :| h in heads && v[h].event.content.MemberJoined?;
      assert h in Joins(v, heads);
    }
  }

  /**
   * An ordinary write is accepted exactly when its sender is an active member of the snapshot of
   * its causal past and writes from the device bound there.
   */
  lemma WritesExactly(room: Room, nodes: View, order: seq<EventId>, id: EventId)
    requires Consistent(room, nodes, order) && Classified(nodes, id) && nodes[id].event.content.Ordinary?
    ensures var e, verdict, view := nodes[id].event, nodes[id].verdict, PastSnapshot(room, nodes, id);
            && (verdict.Accepted? <==> IsActive(view, e.sender) && view.members[e.sender].device == Some(e.device))
            && (verdict == Rejected(NotAMember) <==> !IsActive(view, e.sender))
            && (verdict == Rejected(UnboundDevice)
                <==> IsActive(view, e.sender) && view.members[e.sender].device != Some(e.device))
  {
    var e, v, view := nodes[id].event, Restrict(nodes, nodes[id].ancestors), PastSnapshot(room, nodes, id);
    VerdictIsJudged(room, nodes, order, id);
    assert IsActive(view, e.sender) ==> view.members[e.sender].device.Some? by {
      hide Fold;
      if IsActive(view, e.sender) {
        ActiveIsBound(room, Restrict(nodes, Past(nodes, id)), e.sender);
      }
    }
    hide Restrict, PastSnapshot, Consistent, Judged;
    WriteIsJudged(room, e, v, view);
  }

  lemma WriteIsJudged(room: Room, e: Event, v: View, view: Snapshot)
    requires e.content.Ordinary? && (IsActive(view, e.sender) ==> view.members[e.sender].device.Some?)
    ensures Judged(room, e, v, view)
            == if !IsActive(view, e.sender) then Rejected(NotAMember)
               else if view.members[e.sender].device == Some(e.device) then Accepted
               else Rejected(UnboundDevice)
  {}

  /**
   * So whoever writes into the room is its admin on the genesis device, or had joined from that
   * very device by a causally last event that no departure stands beside.
   */
  lemma WritersStand(room: Room, nodes: View, order: seq<EventId>, id: EventId)
    requires Consistent(room, nodes, order) && Classified(nodes, id)
    requires nodes[id].event.content.Ordinary? && nodes[id].verdict.Accepted?
    ensures var e, past := nodes[id].event, Past(nodes, id);
            || (exists g :: Founds(nodes, g, id)
                            && nodes[g].event.sender == e.sender && nodes[g].event.device == e.device)
            || (&& (exists j :: FirstJoin(nodes, LastEvents(nodes, past, e.sender), j)
                                && nodes[j].event.device == e.device)
                && !exists d :: Last(nodes, past, e.sender, d) && Departs(nodes[d].event, e.sender))
  {
    var e, past := nodes[id].event, Past(nodes, id);
    WritesExactly(room, nodes, order, id);
    PastAdmin(room, nodes, id);
    var v := Restrict(nodes, past);
    var view := Fold(room, v);
    assert view.admin == AdminOf(v) by { hide Subjects, Capped, DeviceIndex, Restrict, AdminOf; }
    if view.admin != Some(e.sender) {
      hide Fold, Gate, Consistent, Precedes, Past, Founds, Restrict, Last, LastEvents, Story, Departs, AdminOf;
      ActiveIsResolved(room, v, e.sender);
      StatusFollowsTheLastEvents(room, nodes, order, past, e.sender);
      DeviceFollowsTheLastEvents(room, nodes, order, past, e.sender);
      hide Resolve, FirstJoin, HoldsJoin;
      var j :| Last(nodes, past, e.sender, j) && nodes[j].event.content.MemberJoined?;
      LastIsListed(nodes, past, e.sender, j);
    }
  }

  lemma LastIsListed(nodes: View, scope: set<EventId>, s: IdentityKey, j: EventId)
    requires Last(nodes, scope, s, j) && nodes[j].event.content.MemberJoined?
    ensures HoldsJoin(nodes, LastEvents(nodes, scope, s))
  {
    assert j in LastEvents(nodes, scope, s);
  }

  /** Leaving is open to anyone, but a member bound to a device leaves from that device. */
  lemma LeavesExactly(room: Room, nodes: View, order: seq<EventId>, id: EventId)
    requires Consistent(room, nodes, order) && Classified(nodes, id) && nodes[id].event.content.MemberLeft?
    ensures var e, verdict, view := nodes[id].event, nodes[id].verdict, PastSnapshot(room, nodes, id);
            && (verdict == Rejected(UnboundDevice)
                <==> e.sender in view.members && view.members[e.sender].device.Some?
                     && view.members[e.sender].device != Some(e.device))
            && (verdict.Accepted? || verdict == Rejected(UnboundDevice))
  {
    VerdictIsJudged(room, nodes, order, id);
    hide Restrict, PastSnapshot, Consistent, Judged;
    LeaveIsJudged(room, nodes[id].event, Restrict(nodes, nodes[id].ancestors), PastSnapshot(room, nodes, id));
  }

  lemma LeaveIsJudged(room: Room, e: Event, v: View, view: Snapshot)
    requires e.content.MemberLeft?
    ensures Judged(room, e, v, view)
            == if e.sender in view.members && view.members[e.sender].device.Some?
                  && view.members[e.sender].device != Some(e.device) then Rejected(UnboundDevice) else Accepted
  {}

  // ---------------------------------------------------------------------------
  // Joins
  // ---------------------------------------------------------------------------

  predicate InDate(join: Event, invite: Event) {
    invite.content.MemberInvited?
    && (invite.content.expiresAt.None? || join.createdAt <= invite.content.expiresAt.value)
  }

  /** In date, and for the role the join asks for. */
  predicate IsUsable(join: Event, invite: Event) {
    join.content.MemberJoined? && InDate(join, invite) && invite.content.inviteRole == join.content.joinRole
  }

  /** The invite of `ids` with the lowest id among those the join cannot use. */
  predicate FirstFault(join: Event, v: View, ids: set<EventId>, i: EventId) {
    && i in ids && i in v && !IsUsable(join, v[i].event)
    && forall k :: k in ids && k in v && !IsUsable(join, v[k].event) ==> i <= k
  }

  lemma {:induction false} ProblemIs(join: Event, v: View, ids: set<EventId>)
    requires join.content.MemberJoined? && ids <= v.Keys
    requires forall x :: x in ids ==> v[x].event.content.MemberInvited?
    ensures InviteProblem(join, v, ids).None? <==> forall x :: x in ids ==> IsUsable(join, v[x].event)
    ensures InviteProblem(join, v, ids).Some? ==>
              exists i :: FirstFault(join, v, ids, i)
                          && InviteProblem(join, v, ids).value
                             == if InDate(join, v[i].event) then InsufficientRole else ExpiredInvite
    decreases |ids|
  {
    if ids != {} {
      var first := Least(ids);
      if IsUsable(join, v[first].event) {
        ProblemIs(join, v, ids - {first});
        if i :| FirstFault(join, v, ids - {first}, i)
                && InviteProblem(join, v, ids - {first})
                   == Some(if InDate(join, v[i].event) then InsufficientRole else ExpiredInvite) {
          assert FirstFault(join, v, ids, i);
        }
      } else {
        assert FirstFault(join, v, ids, first);
      }
    }
  }

  function Candidates(room: Room, join: Event, v: View, view: Snapshot): set<EventId>
    requires join.content.MemberJoined?
  {
    if view.admin.None? then {} else MatchingInvites(room, join, view.admin.value, v)
  }

  lemma JoinIsJudged(room: Room, join: Event, v: View, view: Snapshot)
    requires join.content.MemberJoined?
    ensures var ids, verdict := Candidates(room, join, v, view), Judged(room, join, v, view);
            && (ids == {} ==> verdict == Rejected(BadCapability))
            && (ids != {} && (forall x :: x in ids ==> x in v && IsUsable(join, v[x].event)) ==>
                  verdict == if Consumed(v, join.sender, Least(ids)) then Rejected(ExpiredInvite)
                             else if !IsActive(view, join.sender) && |ActiveIds(view)| >= room.maxActive
                             then Rejected(RoomFull) else Accepted)
            && (ids != {} && !(forall x :: x in ids ==> x in v && IsUsable(join, v[x].event)) ==>
                  exists i :: FirstFault(join, v, ids, i)
                              && verdict == Rejected(if InDate(join, v[i].event) then InsufficientRole
                                                     else ExpiredInvite))
  {
    hide Consumed, IsUsable, InDate, FirstFault;
    if view.admin.Some? {
      ProblemIs(join, v, MatchingInvites(room, join, view.admin.value, v));
    }
  }

  /**
   * The invite `i` names the join `j`: an accepted invite of its sender in the past of `j`, issued
   * by the admin of that past, whose capability hash the join's secret opens.
   */
  ghost predicate Proves(room: Room, nodes: View, i: EventId, j: EventId) {
    && i in nodes && j in nodes && nodes[j].event.content.MemberJoined?
    && nodes[i].verdict.Accepted? && nodes[i].event.content.MemberInvited? && Precedes(nodes, i, j)
    && var join, invite := nodes[j].event, nodes[i].event;
    && invite.content.invitee == join.sender
    && invite.content.inviteId == join.content.viaInvite
    && invite.content.capabilityHash == room.capability(join.content.viaInvite, join.content.secret)
    && exists g :: Founds(nodes, g, j) && nodes[g].event.sender == invite.sender
  }

  /** An accepted departure of the joiner lies between the invite and the join. */
  ghost predicate UsedUp(nodes: View, i: EventId, j: EventId) {
    j in nodes
    && exists d :: d in nodes && nodes[d].verdict.Accepted? && Departs(nodes[d].event, nodes[j].event.sender)
                   && Precedes(nodes, d, j) && Precedes(nodes, i, d)
  }

  lemma CandidatesProve(room: Room, nodes: View, order: seq<EventId>, i: EventId, j: EventId)
    requires Consistent(room, nodes, order) && Classified(nodes, j) && nodes[j].event.content.MemberJoined?
    ensures i in Candidates(room, nodes[j].event, Restrict(nodes, nodes[j].ancestors), PastSnapshot(room, nodes, j))
            <==> Proves(room, nodes, i, j)
  {
    PastAdmin(room, nodes, j);
    hide Gate, Consistent, PastSnapshot, Precedes, Founds;
    AncestorsAreTheCausalPast(room, nodes, order, j, i);
    var v := Restrict(nodes, nodes[j].ancestors);
    assert i in v ==> v[i] == nodes[i];
  }

  lemma ConsumedIsUsedUp(room: Room, nodes: View, order: seq<EventId>, i: EventId, j: EventId)
    requires Consistent(room, nodes, order) && Classified(nodes, j) && Proves(room, nodes, i, j)
    ensures Consumed(Restrict(nodes, nodes[j].ancestors), nodes[j].event.sender, i) <==> UsedUp(nodes, i, j)
  {
    hide Gate, Justified, Precedes, Founds;
    var v, s := Restrict(nodes, nodes[j].ancestors), nodes[j].event.sender;
    assert forall d :: d in v ==> d in nodes && v[d] == nodes[d];
    if Consumed(v, s, i) {
      var d :| d in v && v[d].verdict.Accepted? && IsDeparture(v[d].event.content)
               && Touches(v[d].event, s) && i in v[d].ancestors;
      AncestorsAreTheCausalPast(room, nodes, order, j, d);
      AncestorsAreTheCausalPast(room, nodes, order, d, i);
    }
    if UsedUp(nodes, i, j) {
      var d :| d in nodes && nodes[d].verdict.Accepted? && Departs(nodes[d].event, s)
               && Precedes(nodes, d, j) && Precedes(nodes, i, d);
      AncestorsAreTheCausalPast(room, nodes, order, j, d);
      AncestorsAreTheCausalPast(room, nodes, order, d, i);
    }
  }

  /** The lowest-id invite that names the join. */
  ghost predicate ProvesFirst(room: Room, nodes: View, i: EventId, j: EventId) {
    Proves(room, nodes, i, j) && forall k :: Proves(room, nodes, k, j) ==> i <= k
  }

  /** The lowest-id invite that names the join and that it cannot use. */
  ghost predicate FaultsFirst(room: Room, nodes: View, i: EventId, j: EventId) {
    && Proves(room, nodes, i, j) && !IsUsable(nodes[j].event, nodes[i].event)
    && forall k :: Proves(room, nodes, k, j) && !IsUsable(nodes[j].event, nodes[k].event) ==> i <= k
  }

  ghost predicate HasRoom(room: Room, nodes: View, j: EventId)
    requires j in nodes
  {
    var view := PastSnapshot(room, nodes, j);
    IsActive(view, nodes[j].event.sender) || |ActiveIds(view)| < room.maxActive
  }

  /**
   * The verdict on a join. It is accepted exactly when some admin invite in its past names it,
   * every such invite is in date and of the same role, no departure of the joiner follows the
   * lowest of them, and the room of its past has a place. Without an invite the capability is
   * bad; the lowest unusable invite gives its own fault; a used-up invite counts as expired.
   */
  lemma JoinsExactly(room: Room, nodes: View, order: seq<EventId>, j: EventId)
    requires Consistent(room, nodes, order) && Classified(nodes, j) && nodes[j].event.content.MemberJoined?
    ensures var join, verdict := nodes[j].event, nodes[j].verdict;
            && (verdict == Rejected(BadCapability) <==> !exists i :: Proves(room, nodes, i, j))
            && (verdict == Rejected(InsufficientRole)
                <==> exists i :: FaultsFirst(room, nodes, i, j) && InDate(join, nodes[i].event))
            && (verdict == Rejected(ExpiredInvite)
                <==> || (exists i :: FaultsFirst(room, nodes, i, j) && !InDate(join, nodes[i].event))
                     || ((exists i :: ProvesFirst(room, nodes, i, j) && UsedUp(nodes, i, j))
                         && !exists i :: FaultsFirst(room, nodes, i, j)))
            && (verdict == Rejected(RoomFull)
                <==> (exists i :: ProvesFirst(room, nodes, i, j) && !UsedUp(nodes, i, j))
                     && !(exists i :: FaultsFirst(room, nodes, i, j)) && !HasRoom(room, nodes, j))
            && (verdict.Accepted?
                <==> (exists i :: ProvesFirst(room, nodes, i, j) && !UsedUp(nodes, i, j))
                     && (forall i :: Proves(room, nodes, i, j) ==> IsUsable(join, nodes[i].event))
                     && HasRoom(room, nodes, j))
  {
    var join, v, view := nodes[j].event, Restrict(nodes, nodes[j].ancestors), PastSnapshot(room, nodes, j);
    var ids := Candidates(room, join, v, view);
    VerdictIsJudged(room, nodes, order, j);
    JoinIsJudged(room, join, v, view);
    FirstsAre(room, nodes, order, j, ids);
    if ids != {} {
      assert Proves(room, nodes, Least(ids), j);
      ConsumedIsUsedUp(room, nodes, order, Least(ids), j);
    }
    hide Consistent, PastSnapshot, Restrict, Judged, Candidates, Consumed, UsedUp, Proves, IsUsable, InDate,
         ProvesFirst, FaultsFirst, FirstFault;
  }

  lemma FirstsAre(room: Room, nodes: View, order: seq<EventId>, j: EventId, ids: set<EventId>)
    requires Consistent(room, nodes, order) && Classified(nodes, j) && nodes[j].event.content.MemberJoined?
    requires ids == Candidates(room, nodes[j].event, Restrict(nodes, nodes[j].ancestors), PastSnapshot(room, nodes, j))
    ensures var v := Restrict(nodes, nodes[j].ancestors);
            && (forall i :: i in ids ==> i in nodes && i in v && v[i] == nodes[i])
            && (forall i :: i in ids <==> Proves(room, nodes, i, j))
            && (forall i :: ProvesFirst(room, nodes, i, j) <==> ids != {} && i == Least(ids))
            && (forall i :: FaultsFirst(room, nodes, i, j) <==> FirstFault(nodes[j].event, v, ids, i))
            && (forall i, k :: FaultsFirst(room, nodes, i, j) && FaultsFirst(room, nodes, k, j) ==> i == k)
            && ((forall i :: i in ids ==> IsUsable(nodes[j].event, v[i].event))
                <==> !exists i :: FaultsFirst(room, nodes, i, j))
  {
    hide PastSnapshot, Consistent, Proves, IsUsable;
    var v, join := Restrict(nodes, nodes[j].ancestors), nodes[j].event;
    assert forall i :: i in ids ==> i in nodes && i in v && v[i] == nodes[i];
    hide Restrict, Candidates;
    forall i ensures i in ids <==> Proves(room, nodes, i, j) {
      CandidatesProve(room, nodes, order, i, j);
    }
    LeastFault(join, v, ids);
    assert forall i :: FaultsFirst(room, nodes, i, j) <==> FirstFault(join, v, ids, i);
    assert forall i :: ProvesFirst(room, nodes, i, j) <==> IsLeast(ids, i);
    hide FaultsFirst, ProvesFirst, FirstFault;
  }

  lemma LeastFault(join: Event, v: View, ids: set<EventId>)
    requires ids <= v.Keys
    ensures (forall i :: i in ids ==> IsUsable(join, v[i].event)) <==> !exists i :: FirstFault(join, v, ids, i)
    ensures forall i, k :: FirstFault(join, v, ids, i) && FirstFault(join, v, ids, k) ==> i == k
  {
    hide IsUsable;
    if i :| i in ids && !IsUsable(join, v[i].event) {
      var faults := set x | x in ids && !IsUsable(join, v[x].event);
      assert i in faults;
      forall k | k in ids && !IsUsable(join, v[k].event) ensures Least(faults) <= k {
        assert k in faults;
      }
      assert FirstFault(join, v, ids, Least(faults));
    }
  }

  // ---------------------------------------------------------------------------
  // Nobody is active without a live invite
  // ---------------------------------------------------------------------------

  /** The invite `i` admits the join `j` of `s`: named and proved, in date, same role, not used up. */
  ghost predicate Vouches(room: Room, nodes: View, s: IdentityKey, i: EventId, j: EventId) {
    && Proves(room, nodes, i, j) && nodes[j].event.sender == s
    && IsUsable(nodes[j].event, nodes[i].event) && !UsedUp(nodes, i, j)
  }

  lemma JoinIsVouchedFor(room: Room, nodes: View, order: seq<EventId>, s: IdentityKey, j: EventId) returns (i: EventId)
    requires Consistent(room, nodes, order)
    requires IsJoinOf(nodes, s, j)
    ensures Vouches(room, nodes, s, i, j)
  {
    JoinsExactly(room, nodes, order, j);
    hide Consistent, Proves, UsedUp, IsUsable, HasRoom, FaultsFirst;
    i :| ProvesFirst(room, nodes, i, j) && !UsedUp(nodes, i, j);
  }

  /**
   * In every settled room an active member other than the admin holds a causally last join that
   * a live admin invite admits, and whatever departure it had is followed by another event about it.
   */
  lemma ActiveMeansInvited(room: Room, nodes: View, order: seq<EventId>, s: IdentityKey)
    returns (i: EventId, j: EventId)
    requires Consistent(room, nodes, order)
    requires IsActive(Fold(room, nodes), s) && AdminOf(nodes) != Some(s)
    ensures Last(nodes, nodes.Keys, s, j) && Vouches(room, nodes, s, i, j)
    ensures forall d :: d in nodes && nodes[d].verdict.Accepted? && Departs(nodes[d].event, s)
                        ==> exists o :: Concerns(nodes, nodes.Keys, s, o) && o != d && Precedes(nodes, d, o)
  {
    hide Fold, Vouches, Resolve, AdminOf, Consistent, Precedes;
    ActiveIsResolved(room, nodes, s);
    assert Restrict(nodes, nodes.Keys) == nodes;
    hide Restrict;
    StatusFollowsTheLastEvents(room, nodes, order, nodes.Keys, s);
    j :| Last(nodes, nodes.Keys, s, j) && nodes[j].event.content.MemberJoined?;
    i := JoinIsVouchedFor(room, nodes, order, s, j);
    forall d | d in nodes && nodes[d].verdict.Accepted? && Departs(nodes[d].event, s)
      ensures exists o :: Concerns(nodes, nodes.Keys, s, o) && o != d && Precedes(nodes, d, o)
    {
      assert !Last(nodes, nodes.Keys, s, d);
    }
  }
}

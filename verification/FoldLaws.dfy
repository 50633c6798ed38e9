/**
 * What the fold says of one member, in the terms of the events themselves: who is listed, with
 * which role and device, who is the admin, and whom the active-member cap passes over.
 */
module FoldLaws {
  import opened Prelude
  import opened OrderedSets
  import opened Membership
  import opened RoomMemberships
  import opened MembershipLaws

  // ---------------------------------------------------------------------------
  // Roles
  // ---------------------------------------------------------------------------

  function Privilege(r: Role): nat {
    match r
    case AgentRole => 0
    case MemberRole => 1
    case AdminRole => 2
  }

  /** The role an invite offers or a join takes up. */
  function GrantedRole(e: Event): Option<Role> {
    match e.content
    case MemberInvited(_, _, role, _, _) => Some(role)
    case MemberJoined(_, _, role) => Some(role)
    case _ => None
  }

  predicate Grants(nodes: View, ids: set<EventId>, r: Role) {
    exists id :: id in ids && id in nodes && GrantedRole(nodes[id].event) == Some(r)
  }

  predicate GrantsLeast(nodes: View, ids: set<EventId>, r: Role) {
    Grants(nodes, ids, r) && forall k :: Grants(nodes, ids, k) ==> Privilege(r) <= Privilege(k)
  }

  ghost function LastEvents(nodes: View, scope: set<EventId>, s: IdentityKey): set<EventId> {
    set id | id in nodes && Last(nodes, scope, s, id)
  }

  function Story(nodes: View, scope: set<EventId>, s: IdentityKey): set<EventId> {
    set id | id in nodes && Concerns(nodes, scope, s, id)
  }

  lemma LeastRoleIs(v: View, ids: set<EventId>)
    requires ids <= v.Keys
    ensures LeastRole(v, ids).Some? ==> GrantsLeast(v, ids, LeastRole(v, ids).value)
    ensures LeastRole(v, ids).None? ==> forall r :: !Grants(v, ids, r)
  {
    assert forall id, r :: id in ids ==> (CarriesRole(v[id].event, r) <==> GrantedRole(v[id].event) == Some(r));
    hide CarriesRole, GrantedRole;
  }

  lemma SameGrants(v: View, nodes: View, ids: set<EventId>, r: Role)
    requires forall id :: id in ids ==> id in v && id in nodes && v[id] == nodes[id]
    ensures Grants(v, ids, r) == Grants(nodes, ids, r)
    ensures GrantsLeast(v, ids, r) == GrantsLeast(nodes, ids, r)
  {
    forall k ensures Grants(v, ids, k) == Grants(nodes, ids, k) {}
    hide Grants;
  }

  /** The sets the resolution works on are the causally last events and all events about `s`. */
  lemma ResolvedFrom(room: Room, nodes: View, order: seq<EventId>, scope: set<EventId>, s: IdentityKey)
    requires Consistent(room, nodes, order)
    ensures var v := Restrict(nodes, scope);
            && Touch(v, s) == Story(nodes, scope, s) && Heads(v, Touch(v, s)) == LastEvents(nodes, scope, s)
            && forall id :: id in Touch(v, s) ==> id in nodes && v[id] == nodes[id]
  {
    var v := Restrict(nodes, scope);
    assert forall id :: id in Touch(v, s) ==> id in nodes && v[id] == nodes[id];
    assert forall id :: Concerns(nodes, scope, s, id) ==> id in nodes;
    assert forall id :: Last(nodes, scope, s, id) ==> id in nodes;
    hide Gate, Consistent, Restrict, Touch, Heads, Last, Concerns;
    forall id ensures id in Touch(v, s) <==> id in Story(nodes, scope, s) {
      TouchIs(nodes, scope, s, id);
    }
    forall id ensures id in Heads(v, Touch(v, s)) <==> id in LastEvents(nodes, scope, s) {
      HeadsAreLast(room, nodes, order, scope, s, id);
    }
  }

  /**
   * Least privilege: a member's role is the lowest that any causally last event about it grants;
   * where none of those grants one, the lowest any event about it grants; and an ordinary
   * member's where none does.
   */
  lemma RoleFollowsTheLastEvents(room: Room, nodes: View, order: seq<EventId>, scope: set<EventId>, s: IdentityKey)
    requires Consistent(room, nodes, order)
    ensures var role := Resolve(Restrict(nodes, scope), s).role;
            var last, all := LastEvents(nodes, scope, s), Story(nodes, scope, s);
            if exists r :: Grants(nodes, last, r) then GrantsLeast(nodes, last, role)
            else if exists r :: Grants(nodes, all, r) then GrantsLeast(nodes, all, role)
            else role == MemberRole
  {
    var v := Restrict(nodes, scope);
    var touch := Touch(v, s);
    var heads := Heads(v, touch);
    assert Resolve(v, s).role == RoleOf(v, touch, heads);
    ResolvedFrom(room, nodes, order, scope, s);
    hide Gate, Consistent, Restrict, Touch, Heads, LastEvents, Story, Resolve, LeastRole, Grants, GrantsLeast;
    LeastRoleIs(v, heads);
    LeastRoleIs(v, touch);
    forall r ensures Grants(v, heads, r) == Grants(nodes, heads, r) && Grants(v, touch, r) == Grants(nodes, touch, r)
                     && GrantsLeast(v, heads, r) == GrantsLeast(nodes, heads, r)
                     && GrantsLeast(v, touch, r) == GrantsLeast(nodes, touch, r) {
      SameGrants(v, nodes, heads, r);
      SameGrants(v, nodes, touch, r);
    }

  }

  // ---------------------------------------------------------------------------
  // Devices
  // ---------------------------------------------------------------------------

  predicate HoldsJoin(nodes: View, ids: set<EventId>) {
    exists id :: id in ids && id in nodes && nodes[id].event.content.MemberJoined?
  }

  /** The join of `ids` with the lowest id. */
  predicate FirstJoin(nodes: View, ids: set<EventId>, j: EventId) {
    && j in ids && j in nodes && nodes[j].event.content.MemberJoined?
    && forall k :: k in ids && k in nodes && nodes[k].event.content.MemberJoined? ==> j <= k
  }

  lemma JoinsAre(v: View, nodes: View, ids: set<EventId>)
    requires forall id :: id in ids ==> id in v && id in nodes && v[id] == nodes[id]
    ensures Joins(v, ids) != {} <==> HoldsJoin(nodes, ids)
    ensures Joins(v, ids) != {} ==> FirstJoin(nodes, ids, Least(Joins(v, ids)))
  {
    if HoldsJoin(nodes, ids) {
      var id :| id in ids && id in nodes && nodes[id].event.content.MemberJoined?;
      assert id in Joins(v, ids);
    }
    if Joins(v, ids) != {} {
      var id := Least(Joins(v, ids));
      assert id in ids && id in nodes && nodes[id].event.content.MemberJoined?;
      forall k | k in ids && k in nodes && nodes[k].event.content.MemberJoined? ensures id <= k {
        assert k in Joins(v, ids);
      }
    }
  }

  /**
   * A member is bound to the device of the lowest-id join among the causally last events about
   * it; where none of those is a join, to that of its lowest-id join; and to none before it joins.
   */
  lemma DeviceFollowsTheLastEvents(room: Room, nodes: View, order: seq<EventId>, scope: set<EventId>, s: IdentityKey)
    requires Consistent(room, nodes, order)
    ensures var device := Resolve(Restrict(nodes, scope), s).device;
            var last, all := LastEvents(nodes, scope, s), Story(nodes, scope, s);
            if HoldsJoin(nodes, last) then
              exists j :: FirstJoin(nodes, last, j) && device == Some(nodes[j].event.device)
            else if HoldsJoin(nodes, all) then
              exists j :: FirstJoin(nodes, all, j) && device == Some(nodes[j].event.device)
            else device == None
  {
    var v := Restrict(nodes, scope);
    var touch := Touch(v, s);
    var heads := Heads(v, touch);
    assert Resolve(v, s).device == DeviceOf(v, touch, heads);
    ResolvedFrom(room, nodes, order, scope, s);
    hide Gate, Consistent, Restrict, Touch, Heads, LastEvents, Story, Resolve, Joins, HoldsJoin, FirstJoin;
    JoinsAre(v, nodes, heads);
    JoinsAre(v, nodes, touch);
  }

  // ---------------------------------------------------------------------------
  // The roster
  // ---------------------------------------------------------------------------

  /** The accepted genesis of `scope` with the lowest id. */
  predicate FirstGenesis(nodes: View, scope: set<EventId>, g: EventId) {
    && IsGenesis(nodes, scope, g)
    && forall h :: IsGenesis(nodes, scope, h) ==> g <= h
  }

  predicate IsGenesis(nodes: View, scope: set<EventId>, g: EventId) {
    g in scope && g in nodes && nodes[g].verdict.Accepted? && nodes[g].event.content.RoomCreated?
  }

  lemma GenesisIs(nodes: View, scope: set<EventId>, g: EventId)
    ensures var v := Restrict(nodes, scope);
            && (FirstGenesis(nodes, scope, g) <==> Geneses(v) != {} && Least(Geneses(v)) == g)
            && (g in Geneses(v) ==> v[g] == nodes[g])
  {
    var v := Restrict(nodes, scope);
    assert forall h :: h in Geneses(v) <==> IsGenesis(nodes, scope, h);
    if FirstGenesis(nodes, scope, g) {
      assert g in Geneses(v);
    }
  }

  /**
   * The admin is the sender of the first genesis, an active member bound to the genesis device;
   * without a genesis there is no admin.
   */
  lemma AdminIsTheFirstGenesis(room: Room, nodes: View, scope: set<EventId>)
    ensures var view := Fold(room, Restrict(nodes, scope));
            && (view.admin.None? <==> forall g :: !IsGenesis(nodes, scope, g))
            && forall g :: FirstGenesis(nodes, scope, g) ==>
                 var e := nodes[g].event;
                 && view.admin == Some(e.sender) && e.sender in view.members
                 && view.members[e.sender] == Member(e.sender, Some(e.device), Active, AdminRole)
  {
    var v := Restrict(nodes, scope);
    var view := Fold(room, v);
    assert view.admin == AdminOf(v)
           && (Geneses(v) != {} ==>
                 AdminMember(v).identity in view.members
                 && view.members[AdminMember(v).identity] == AdminMember(v)) by {
      hide Subjects, Capped, DeviceIndex, AdminOf, Restrict;
    }
    hide Fold, Restrict;
    GenesesAre(nodes, scope);
    forall g | FirstGenesis(nodes, scope, g)
      ensures view.admin == Some(nodes[g].event.sender)
      ensures AdminMember(v) == Member(nodes[g].event.sender, Some(nodes[g].event.device), Active, AdminRole)
    {
      GenesisIs(nodes, scope, g);
    }
  }

  lemma GenesesAre(nodes: View, scope: set<EventId>)
    ensures forall g :: IsGenesis(nodes, scope, g) <==> g in Geneses(Restrict(nodes, scope))
  {}

  /** The roster lists the admin and everyone an accepted event is about. */
  lemma RosterIs(room: Room, nodes: View, scope: set<EventId>, s: IdentityKey)
    ensures var view := Fold(room, Restrict(nodes, scope));
            s in view.members <==> view.admin == Some(s) || exists id :: Concerns(nodes, scope, s, id)
  {
    var v := Restrict(nodes, scope);
    assert s in Fold(room, v).members <==> s in Subjects(v) || AdminOf(v) == Some(s) by {
      hide Subjects, Capped, DeviceIndex, Restrict;
    }
    assert Fold(room, v).admin == AdminOf(v) by { hide Subjects, Capped, DeviceIndex, Restrict, AdminOf; }
    hide Fold, Restrict, Touch, AdminOf;
    SubjectsAreTouched(v, s);
    forall id ensures id in Touch(v, s) <==> Concerns(nodes, scope, s, id) {
      TouchIs(nodes, scope, s, id);
    }
  }

  /**
   * A listed member other than the admin is what its own events make of it, except that one the
   * events leave active is shown as invited when the room is full without it.
   */
  lemma MemberIs(room: Room, v: View, s: IdentityKey)
    requires s in Fold(room, v).members && AdminOf(v) != Some(s)
    ensures var view := Fold(room, v);
            || view.members[s] == Resolve(v, s)
            || (&& Resolve(v, s).status.Active? && view.members[s] == Resolve(v, s).(status := Invited)
                && |ActiveIds(view)| >= room.maxActive)
  {
    var view := Fold(room, v);
    assert s in Subjects(v) && view.members[s] == Capped(room, v, s) by { hide Subjects, Capped, DeviceIndex; }
    assert Capped(room, v, s) != Resolve(v, s) ==> s in ActiveSubjects(v) && s !in Admitted(room, v) by {
      hide Resolve, Admitted, Subjects;
    }
    hide Fold, Resolve, Admitted, Subjects, ActiveSubjects, Capped;
    if Capped(room, v, s) != Resolve(v, s) {
      FullWithout(room, v, s);
    }
  }

  lemma ActiveIsResolved(room: Room, v: View, s: IdentityKey)
    requires IsActive(Fold(room, v), s) && AdminOf(v) != Some(s)
    ensures Fold(room, v).members[s] == Resolve(v, s) && Resolve(v, s).status.Active?
  {
    hide Fold, Resolve, AdminOf;
    MemberIs(room, v, s);
  }

  lemma FullWithout(room: Room, v: View, s: IdentityKey)
    requires s in ActiveSubjects(v) && s !in Admitted(room, v)
    ensures |ActiveIds(Fold(room, v))| >= room.maxActive
  {
    hide Fold, Admitted, ActiveSubjects, AdminOf;
    ActiveIdsAre(room, v);
    AdmittedIsPart(room, v);
    if room.maxActive >= 1 {
      CapIsExact(room, v);
      if |Admitted(room, v)| == |ActiveSubjects(v)| {
        SameCount(Admitted(room, v), ActiveSubjects(v));
      }
    }
  }

  lemma AdmittedIsPart(room: Room, v: View)
    ensures Admitted(room, v) <= ActiveSubjects(v)
  {
    hide ActiveSubjects, RanksBefore;
  }
}

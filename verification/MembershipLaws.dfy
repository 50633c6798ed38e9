/**
 * What holds of every settled room: the memoized ancestors are the causal past, status follows
 * the causally last events, and the active-member cap is met exactly.
 */
module MembershipLaws {
  import opened Prelude
  import opened OrderedSets
  import opened Membership
  import opened RoomMemberships

  // ---------------------------------------------------------------------------
  // Memoized ancestors are the membership events of the causal past
  // ---------------------------------------------------------------------------

  /** A walk along parent edges. */
  predicate IsWalk(nodes: View, walk: seq<EventId>) {
    forall i :: 0 <= i < |walk| - 1 ==> walk[i] in nodes && walk[i + 1] in nodes[walk[i]].event.parents
  }

  ghost predicate Precedes(nodes: View, a: EventId, id: EventId) {
    exists walk :: |walk| >= 2 && walk[0] == id && walk[|walk| - 1] == a && IsWalk(nodes, walk)
  }

  lemma ParentPrecedes(nodes: View, p: EventId, id: EventId)
    requires id in nodes && p in nodes[id].event.parents
    ensures Precedes(nodes, p, id)
  {
    var walk := [id, p];
    assert IsWalk(nodes, walk) && walk[|walk| - 1] == p;
  }

  lemma PrecedesThrough(nodes: View, a: EventId, p: EventId, id: EventId)
    requires id in nodes && p in nodes[id].event.parents && Precedes(nodes, a, p)
    ensures Precedes(nodes, a, id)
  {
    var walk :| |walk| >= 2 && walk[0] == p && walk[|walk| - 1] == a && IsWalk(nodes, walk);
    var longer := [id] + walk;
    assert longer[|longer| - 1] == a;
    forall i | 0 <= i < |longer| - 1 ensures longer[i] in nodes && longer[i + 1] in nodes[longer[i]].event.parents {
      if i > 0 {
        assert longer[i] == walk[i - 1] && longer[i + 1] == walk[i];
      }
    }
  }

  lemma JustifiedAt(room: Room, nodes: View, order: seq<EventId>, id: EventId) returns (i: nat)
    requires Consistent(room, nodes, order) && Classified(nodes, id)
    ensures i < |order| && order[i] == id && Justified(room, nodes, order[..i], id)
  {
    hide Justified;
    assert id in order;
    i :| 0 <= i < |order| && order[i] == id;
  }

  /** One step of the memoization: parents, and what they inherited. */
  lemma AncestorSource(room: Room, nodes: View, order: seq<EventId>, id: EventId, a: EventId)
    requires Consistent(room, nodes, order) && Classified(nodes, id)
    ensures a in nodes[id].ancestors
            <==> exists p <- nodes[id].event.parents :: p in nodes
                   && ((p == a && AffectsMembership(nodes[p].event.content)) || a in nodes[p].ancestors)
  {
    hide Gate, Restrict;
    var i := JustifiedAt(room, nodes, order, id);
    var e := nodes[id].event;
    assert nodes[id].ancestors == AncestorsOf(nodes, e);
    if a in AncestorsOf(nodes, e) {
      if a in e.parents && a in nodes && AffectsMembership(nodes[a].event.content) {
      } else {
        var p :| p in e.parents && p in nodes && a in nodes[p].ancestors;
      }
    }
  }

  lemma {:induction false} AncestorPrecedes(room: Room, nodes: View, order: seq<EventId>, i: nat, a: EventId)
    requires Consistent(room, nodes, order) && i < |order| && order[i] in nodes && a in nodes[order[i]].ancestors
    ensures Precedes(nodes, a, order[i]) && a in nodes && AffectsMembership(nodes[a].event.content)
  {
    hide Gate, Restrict, AncestorsOf, Precedes;
    var id := order[i];
    assert Classified(nodes, id) by { assert id in order; }
    assert Justified(room, nodes, order[..i], id);
    AncestorSource(room, nodes, order, id, a);
    var p :| p in nodes[id].event.parents && p in nodes
             && ((p == a && AffectsMembership(nodes[p].event.content)) || a in nodes[p].ancestors);
    if p == a && AffectsMembership(nodes[p].event.content) {
      ParentPrecedes(nodes, p, id);
    } else {
      assert p in order[..i];
      var j :| 0 <= j < i && order[j] == p;
      AncestorPrecedes(room, nodes, order, j, a);
      PrecedesThrough(nodes, a, p, id);
    }
  }

  lemma {:induction false} WalkIsRemembered(room: Room, nodes: View, order: seq<EventId>, walk: seq<EventId>)
    requires Consistent(room, nodes, order)
    requires |walk| >= 2 && IsWalk(nodes, walk) && Classified(nodes, walk[0])
    requires walk[|walk| - 1] in nodes && AffectsMembership(nodes[walk[|walk| - 1]].event.content)
    ensures walk[|walk| - 1] in nodes[walk[0]].ancestors
    decreases |walk|
  {
    hide Gate, Restrict, AncestorsOf;
    var id, p, a := walk[0], walk[1], walk[|walk| - 1];
    assert p in nodes[id].event.parents;
    var i := JustifiedAt(room, nodes, order, id);
    assert p in order[..i];
    assert Classified(nodes, p) by { assert p in order; }
    AncestorSource(room, nodes, order, id, a);
    if |walk| > 2 {
      WalkIsRemembered(room, nodes, order, walk[1..]);
    }
  }

  /** The memoized set of a classified event is exactly its causal past, cut to membership events. */
  lemma AncestorsAreTheCausalPast(room: Room, nodes: View, order: seq<EventId>, id: EventId, a: EventId)
    requires Consistent(room, nodes, order) && Classified(nodes, id)
    ensures a in nodes[id].ancestors
            <==> a in nodes && AffectsMembership(nodes[a].event.content) && Precedes(nodes, a, id)
  {
    hide Gate, Justified;
    if a in nodes[id].ancestors {
      var i := JustifiedAt(room, nodes, order, id);
      AncestorPrecedes(room, nodes, order, i, a);
    }
    if a in nodes && AffectsMembership(nodes[a].event.content) && Precedes(nodes, a, id) {
      var walk :| |walk| >= 2 && walk[0] == id && walk[|walk| - 1] == a && IsWalk(nodes, walk);
      WalkIsRemembered(room, nodes, order, walk);
    }
  }

  // ---------------------------------------------------------------------------
  // Status follows the causally last events
  // ---------------------------------------------------------------------------

  /** An invite of `s`, its own join, its leaving, or its removal. */
  predicate IsAbout(e: Event, s: IdentityKey) {
    || (e.content.MemberInvited? && e.content.invitee == s)
    || (e.content.MemberJoined? && e.sender == s)
    || (e.content.MemberLeft? && e.content.leaver == s)
    || (e.content.MemberRemoved? && e.content.target == s)
  }

  /** The two kinds of event about `s` that end its membership. */
  predicate Departs(e: Event, s: IdentityKey) {
    (e.content.MemberLeft? && e.content.leaver == s) || (e.content.MemberRemoved? && e.content.target == s)
  }

  predicate Concerns(nodes: View, scope: set<EventId>, s: IdentityKey, id: EventId) {
    id in scope && id in nodes && nodes[id].verdict.Accepted? && IsAbout(nodes[id].event, s)
  }

  /** An accepted event of `scope` about `s` that no other such event causally follows. */
  ghost predicate Last(nodes: View, scope: set<EventId>, s: IdentityKey, id: EventId) {
    Concerns(nodes, scope, s, id)
    && forall o :: Concerns(nodes, scope, s, o) && o != id ==> !Precedes(nodes, id, o)
  }

  lemma TouchIs(nodes: View, scope: set<EventId>, s: IdentityKey, id: EventId)
    ensures id in Touch(Restrict(nodes, scope), s) <==> Concerns(nodes, scope, s, id)
  {}

  lemma HeadsAreLast(room: Room, nodes: View, order: seq<EventId>, scope: set<EventId>, s: IdentityKey, id: EventId)
    requires Consistent(room, nodes, order)
    ensures var v := Restrict(nodes, scope); id in Heads(v, Touch(v, s)) <==> Last(nodes, scope, s, id)
  {
    var v := Restrict(nodes, scope);
    assert forall o :: o in v ==> o in nodes && v[o] == nodes[o];
    hide Gate, Justified, Precedes, Touch, Restrict;
    forall o ensures o in Touch(v, s) <==> Concerns(nodes, scope, s, o) {
      TouchIs(nodes, scope, s, o);
    }
    if Concerns(nodes, scope, s, id) {
      forall o | Concerns(nodes, scope, s, o) ensures id in nodes[o].ancestors <==> Precedes(nodes, id, o) {
        AncestorsAreTheCausalPast(room, nodes, order, o, id);
      }
    }
  }

  /** The latest classified event of a set is a head: heads never vanish. */
  lemma {:induction false} SomeHead(room: Room, nodes: View, order: seq<EventId>, t: set<EventId>, n: nat)
    returns (h: EventId)
    requires Consistent(room, nodes, order) && n <= |order| && t <= nodes.Keys
    requires t != {} && forall x :: x in t ==> x in order[..n]
    ensures h in Heads(nodes, t)
  {
    hide Gate, AncestorsOf, Restrict;
    var last := order[n - 1];
    if last in t {
      h := last;
      forall o | o in t && o != last ensures last !in nodes[o].ancestors {
        NotBefore(room, nodes, order, n - 1, o);
      }
    } else {
      forall x | x in t ensures x in order[..n - 1] {
        assert order[..n] == order[..n - 1] + [last];
      }
      h := SomeHead(room, nodes, order, t, n - 1);
    }
  }

  lemma NotBefore(room: Room, nodes: View, order: seq<EventId>, n: nat, o: EventId)
    requires Consistent(room, nodes, order) && n < |order| && o != order[n] && o in order[..n + 1] && o in nodes
    ensures order[n] !in nodes[o].ancestors
  {
    hide Gate, AncestorsOf, Restrict;
    var j :| 0 <= j < n + 1 && order[j] == o;
    assert Justified(room, nodes, order[..j], o);
    assert order[n] !in order[..j];
  }

  lemma HeadsOfRestriction(nodes: View, scope: set<EventId>, t: set<EventId>)
    requires t <= Restrict(nodes, scope).Keys
    ensures t <= nodes.Keys && Heads(Restrict(nodes, scope), t) == Heads(nodes, t)
  {}

  lemma SomeLast(room: Room, nodes: View, order: seq<EventId>, scope: set<EventId>, s: IdentityKey, id: EventId)
    requires Consistent(room, nodes, order) && Concerns(nodes, scope, s, id)
    ensures exists l :: Last(nodes, scope, s, l)
  {
    hide Gate, Justified, Last, Heads, Restrict;
    var t := Touch(Restrict(nodes, scope), s);
    TouchIs(nodes, scope, s, id);
    forall x | x in t ensures x in order[..|order|] {
      TouchIs(nodes, scope, s, x);
      assert Classified(nodes, x);
      assert order[..|order|] == order;
    }
    HeadsOfRestriction(nodes, scope, t);
    var h := SomeHead(room, nodes, order, t, |order|);
    HeadsAreLast(room, nodes, order, scope, s, h);
  }

  /**
   * Removed dominates, in the fold of the room and of every part of it, such as an event's causal
   * past: a subject is removed exactly when some causally last event about it is a departure,
   * active exactly when some last event is its join and none is a departure, and some event about
   * a subject is always last.
   */
  lemma StatusFollowsTheLastEvents(room: Room, nodes: View, order: seq<EventId>, scope: set<EventId>, s: IdentityKey)
    requires Consistent(room, nodes, order)
    ensures (exists id :: Concerns(nodes, scope, s, id)) ==> exists id :: Last(nodes, scope, s, id)
    ensures Resolve(Restrict(nodes, scope), s).status.Removed?
            <==> exists id :: Last(nodes, scope, s, id) && Departs(nodes[id].event, s)
    ensures Resolve(Restrict(nodes, scope), s).status.Active?
            <==> (exists id :: Last(nodes, scope, s, id) && nodes[id].event.content.MemberJoined?)
                 && !exists id :: Last(nodes, scope, s, id) && Departs(nodes[id].event, s)
  {
    var v := Restrict(nodes, scope);
    var heads := Heads(v, Touch(v, s));
    assert Resolve(v, s).status == StatusOf(v, heads);
    assert forall id :: id in heads ==> id in nodes && v[id] == nodes[id];
    if id :| Concerns(nodes, scope, s, id) {
      SomeLast(room, nodes, order, scope, s, id);
    }
    hide Gate, Consistent, Precedes, Resolve, Heads, Touch, Restrict;
    forall id ensures id in heads <==> Last(nodes, scope, s, id) {
      HeadsAreLast(room, nodes, order, scope, s, id);
    }
    assert forall id :: Last(nodes, scope, s, id) ==>
      (IsDeparture(nodes[id].event.content) <==> Departs(nodes[id].event, s));
    hide Last;
  }

  // ---------------------------------------------------------------------------
  // The active-member cap
  // ---------------------------------------------------------------------------

  /** The members of `a` with fewer than `slots` members of `a` before them. */
  function First(v: View, a: set<IdentityKey>, slots: nat): set<IdentityKey> {
    set s | s in a && |Before(v, a, s)| < slots
  }

  function Before(v: View, a: set<IdentityKey>, s: IdentityKey): set<IdentityKey> {
    set t | t in a && RanksBefore(v, t, s)
  }

  lemma {:induction false} LastRanked(v: View, a: set<IdentityKey>) returns (m: IdentityKey)
    requires a != {}
    ensures m in a && forall t :: t in a && t != m ==> RanksBefore(v, t, m)
    decreases |a|
  {
    hide Rank;
    m :| m in a;
    var rest := a - {m};
    if rest != {} {
      var n := LastRanked(v, rest);
      assert forall t :: t in a ==> t == m || t in rest;
      if RanksBefore(v, m, n) {
        m := n;
      }
    }
  }

  lemma FirstSplit(v: View, a: set<IdentityKey>, m: IdentityKey, slots: nat)
    requires m in a && forall t :: t in a && t != m ==> RanksBefore(v, t, m)
    ensures First(v, a, slots) == First(v, a - {m}, slots) + if |a - {m}| < slots then {m} else {}
  {
    hide Rank;
    assert Before(v, a, m) == a - {m};
    forall s | s in a - {m} ensures Before(v, a, s) == Before(v, a - {m}, s) {}
  }

  lemma {:induction false} FirstCount(v: View, a: set<IdentityKey>, slots: nat)
    ensures |First(v, a, slots)| == if |a| < slots then |a| else slots
    decreases |a|
  {
    if a == {} {
      assert First(v, a, slots) == {};
    } else {
      var m := LastRanked(v, a);
      FirstSplit(v, a, m, slots);
      FirstCount(v, a - {m}, slots);
      assert m !in First(v, a - {m}, slots);
      hide First, RanksBefore;
    }
  }

  predicate IsJoinOf(v: View, s: IdentityKey, j: EventId) {
    j in v && v[j].verdict.Accepted? && v[j].event.content.MemberJoined? && v[j].event.sender == s
  }

  /** Some accepted join of `t` has a lower id than every accepted join of `s`. */
  ghost predicate JoinedBefore(v: View, t: IdentityKey, s: IdentityKey) {
    exists j :: IsJoinOf(v, t, j) && forall k :: IsJoinOf(v, s, k) ==> j < k
  }

  lemma JoinedBeforeRanks(v: View, t: IdentityKey, s: IdentityKey)
    requires s in ActiveSubjects(v) && JoinedBefore(v, t, s)
    ensures RanksBefore(v, t, s)
  {
    var heads := Heads(v, Touch(v, s));
    assert StatusOf(v, heads).Active?;
    var h :| h in heads && v[h].event.content.MemberJoined?;
    hide ActiveSubjects, Heads;
    forall x, k ensures k in Joins(v, Touch(v, x)) <==> IsJoinOf(v, x, k) {}
    var j :| IsJoinOf(v, t, j) && forall k :: IsJoinOf(v, s, k) ==> j < k;
    assert j in Joins(v, Touch(v, t)) && h in Joins(v, Touch(v, s));
    hide Joins, Touch;
  }

  /**
   * The cap is met exactly: the fold keeps as many of the active subjects as there are slots,
   * those with the lowest join event id, and never drops the admin.
   */
  lemma CapIsExact(room: Room, v: View)
    requires room.maxActive >= 1
    ensures var candidates := |ActiveSubjects(v)| + if AdminOf(v).Some? then 1 else 0;
            |ActiveIds(Fold(room, v))| == if candidates < room.maxActive then candidates else room.maxActive
    ensures forall s, t :: s in Admitted(room, v) && t in ActiveSubjects(v) && JoinedBefore(v, t, s)
                           ==> t in Admitted(room, v)
    ensures AdminOf(v).Some? ==> IsActive(Fold(room, v), AdminOf(v).value)
  {
    hide Fold, Admitted, ActiveSubjects, RanksBefore, AdminOf;
    ActiveIdsAre(room, v);
    AdmittedAreFirst(room, v);
    FirstCount(v, ActiveSubjects(v), Slots(room, v));
    forall s, t | s in Admitted(room, v) && t in ActiveSubjects(v) && JoinedBefore(v, t, s)
      ensures t in Admitted(room, v)
    {
      JoinedBeforeRanks(v, t, s);
      RanksTransitively(v, ActiveSubjects(v), t, s);
    }
  }

  function Slots(room: Room, v: View): nat {
    if AdminOf(v).None? then room.maxActive else if room.maxActive >= 1 then room.maxActive - 1 else 0
  }

  lemma AdmittedAreFirst(room: Room, v: View)
    ensures Admitted(room, v) == First(v, ActiveSubjects(v), Slots(room, v))
  {
    hide ActiveSubjects, RanksBefore, AdminOf;
    forall s ensures Before(v, ActiveSubjects(v), s) == (set t | t in ActiveSubjects(v) && RanksBefore(v, t, s)) {}
  }

  lemma RanksTransitively(v: View, a: set<IdentityKey>, t: IdentityKey, s: IdentityKey)
    requires RanksBefore(v, t, s)
    ensures |Before(v, a, t)| <= |Before(v, a, s)|
  {
    hide Rank;
    SubsetCount(Before(v, a, t), Before(v, a, s));
  }

  lemma CappedIsActive(room: Room, v: View, s: IdentityKey)
    ensures s in Admitted(room, v) ==> s in Subjects(v)
    ensures s in Subjects(v) ==> (Capped(room, v, s).status.Active? <==> s in Admitted(room, v))
  {
    hide Resolve, RanksBefore, Subjects;
  }

  lemma AdminIsNoSubject(v: View, s: IdentityKey)
    requires s in Subjects(v)
    ensures AdminOf(v) != Some(s)
  {
    SubjectsAreTouched(v, s);
  }

  lemma ActiveIdsAre(room: Room, v: View)
    ensures ActiveIds(Fold(room, v))
            == Admitted(room, v) + if AdminOf(v).Some? then {AdminOf(v).value} else {}
    ensures AdminOf(v).Some? ==> AdminOf(v).value !in Admitted(room, v)
  {
    assert AdminOf(v).Some? <==> Geneses(v) != {};
    assert Geneses(v) != {} ==> AdminOf(v) == Some(AdminMember(v).identity) && AdminMember(v).status.Active?;
    hide Capped, Admitted, Subjects, AdminOf, AdminMember, Geneses, DeviceIndex;
    forall s ensures s in ActiveIds(Fold(room, v)) <==> s in Admitted(room, v) || AdminOf(v) == Some(s) {
      CappedIsActive(room, v, s);
      if s in Subjects(v) {
        AdminIsNoSubject(v, s);
      }
    }
    if AdminOf(v).Some? {
      CappedIsActive(room, v, AdminOf(v).value);
      if AdminOf(v).value in Subjects(v) {
        AdminIsNoSubject(v, AdminOf(v).value);
      }
    }
  }
}

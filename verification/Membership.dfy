/**
 * The membership model and fold of crates/iroh-rooms-core/src/membership: the snapshot a set
 * of classified events folds to (model.rs, and `fold` with its helpers in fold.rs), and the
 * authorization gate that classifies one event against its own causal ancestors.
 *
 * Identifiers and keys are the 256-bit values of their bytes, so numeric order is the bytewise
 * order of the source's sorted maps.
 */
module Membership {
  import opened Prelude
  import opened OrderedSets

  type EventId = nat
  type IdentityKey = nat
  type DeviceKey = nat

  datatype Status = Invited | Active | Removed

  datatype Role = AgentRole | MemberRole | AdminRole

  datatype Member = Member(identity: IdentityKey, device: Option<DeviceKey>, status: Status, role: Role)

  datatype Snapshot = Snapshot(
    admin: Option<IdentityKey>,
    members: map<IdentityKey, Member>,
    byDevice: map<DeviceKey, IdentityKey>)

  predicate IsActive(s: Snapshot, id: IdentityKey) {
    id in s.members && s.members[id].status.Active?
  }

  function ActiveIds(s: Snapshot): set<IdentityKey> {
    set id | id in s.members && s.members[id].status.Active?
  }

  /** A snapshot whose members are filed under their own identity, as the fold builds them. */
  predicate WellKeyed(s: Snapshot) {
    forall id :: id in s.members ==> s.members[id].identity == id
  }

  // ---------------------------------------------------------------------------
  // Events
  // ---------------------------------------------------------------------------

  datatype Content =
    | RoomCreated
    | MemberInvited(inviteId: nat, capabilityHash: nat, inviteRole: Role, invitee: IdentityKey, expiresAt: Option<nat>)
    | MemberJoined(viaInvite: nat, secret: nat, joinRole: Role)
    | MemberLeft(leaver: IdentityKey)
    | MemberRemoved(target: IdentityKey)
    | KeyDistribution
    | Ordinary // messages, files, pipes, agent status, encrypted content

  datatype Event = Event(
    sender: IdentityKey, device: DeviceKey, createdAt: nat, parents: seq<EventId>, content: Content)

  predicate AffectsMembership(c: Content) {
    c.RoomCreated? || c.MemberInvited? || c.MemberJoined? || c.MemberLeft? || c.MemberRemoved?
  }

  predicate RequiresDeviceBinding(c: Content) {
    c.Ordinary? || c.MemberInvited? || c.MemberLeft? || c.KeyDistribution?
  }

  predicate IsDeparture(c: Content) { c.MemberLeft? || c.MemberRemoved? }

  /** Whom a membership event is about. */
  function SubjectOf(e: Event): Option<IdentityKey> {
    match e.content
    case MemberInvited(_, _, _, invitee, _) => Some(invitee)
    case MemberJoined(_, _, _) => Some(e.sender)
    case MemberLeft(leaver) => Some(leaver)
    case MemberRemoved(target) => Some(target)
    case _ => None
  }

  predicate Touches(e: Event, s: IdentityKey) { SubjectOf(e) == Some(s) }

  /** The room's fixed parameters: the capability hash and the active-member cap. */
  datatype Room = Room(capability: (nat, nat) -> nat, maxActive: nat)

  // ---------------------------------------------------------------------------
  // Classified events
  // ---------------------------------------------------------------------------

  datatype RejectReason =
    InsufficientRole | NotAMember | UnboundDevice | BadCapability | ExpiredInvite | RoomFull

  datatype Verdict = Pending | Accepted | Rejected(reason: RejectReason)

  /** One node of the causal graph; `ancestors` are its membership-relevant causal ancestors. */
  datatype Node = Node(event: Event, verdict: Verdict, ancestors: set<EventId>)

  /** The nodes some decision may consult. */
  type View = map<EventId, Node>

  // ---------------------------------------------------------------------------
  // The fold
  // ---------------------------------------------------------------------------

  /** The accepted events that touch `s`. */
  function Touch(v: View, s: IdentityKey): (t: set<EventId>)
    ensures t <= v.Keys
  {
    set id | id in v && v[id].verdict.Accepted? && Touches(v[id].event, s)
  }

  /** The events of a set that no other event of the set descends from. */
  function Heads(v: View, t: set<EventId>): (h: set<EventId>)
    requires t <= v.Keys
    ensures h <= t
  {
    set id | id in t && forall other :: other in t && other != id ==> id !in v[other].ancestors
  }

  /** Removed dominates active, active dominates invited. */
  function StatusOf(v: View, heads: set<EventId>): Status
    requires heads <= v.Keys
  {
    if exists h :: h in heads && IsDeparture(v[h].event.content) then Removed
    else if exists h :: h in heads && v[h].event.content.MemberJoined? then Active
    else Invited
  }

  predicate CarriesRole(e: Event, r: Role) {
    (e.content.MemberInvited? && e.content.inviteRole == r) || (e.content.MemberJoined? && e.content.joinRole == r)
  }

  function LeastRole(v: View, ids: set<EventId>): Option<Role>
    requires ids <= v.Keys
  {
    if exists id :: id in ids && CarriesRole(v[id].event, AgentRole) then Some(AgentRole)
    else if exists id :: id in ids && CarriesRole(v[id].event, MemberRole) then Some(MemberRole)
    else if exists id :: id in ids && CarriesRole(v[id].event, AdminRole) then Some(AdminRole)
    else None
  }

  /** Least privilege over the heads, else over everything, else an ordinary member. */
  function RoleOf(v: View, touch: set<EventId>, heads: set<EventId>): Role
    requires touch <= v.Keys && heads <= v.Keys
  {
    match LeastRole(v, heads)
    case Some(r) => r
    case None =>
      match LeastRole(v, touch)
      case Some(r) => r
      case None => MemberRole
  }

  function Joins(v: View, ids: set<EventId>): (j: set<EventId>)
    requires ids <= v.Keys
    ensures j <= ids
  {
    set id | id in ids && v[id].event.content.MemberJoined?
  }

  function DeviceOf(v: View, touch: set<EventId>, heads: set<EventId>): Option<DeviceKey>
    requires touch <= v.Keys && heads <= v.Keys
  {
    if Joins(v, heads) != {} then Some(v[Least(Joins(v, heads))].event.device)
    else if Joins(v, touch) != {} then Some(v[Least(Joins(v, touch))].event.device)
    else None
  }

  /** The genesis events in scope; the one with the least id seeds the admin. */
  function Geneses(v: View): (g: set<EventId>)
    ensures g <= v.Keys
  {
    set id | id in v && v[id].verdict.Accepted? && v[id].event.content.RoomCreated?
  }

  function AdminOf(v: View): Option<IdentityKey> {
    if Geneses(v) == {} then None else Some(v[Least(Geneses(v))].event.sender)
  }

  /** Everyone an accepted membership event is about, except the immutable admin. */
  function Subjects(v: View): set<IdentityKey> {
    set id | id in v && v[id].verdict.Accepted? && SubjectOf(v[id].event).Some? && SubjectOf(v[id].event) != AdminOf(v)
      :: SubjectOf(v[id].event).value
  }

  lemma SubjectsAreTouched(v: View, s: IdentityKey)
    ensures s in Subjects(v) <==> Touch(v, s) != {} && AdminOf(v) != Some(s)
  {
    if s in Subjects(v) {
      var id :| id in v && v[id].verdict.Accepted? && SubjectOf(v[id].event) == Some(s);
      assert id in Touch(v, s);
    }
    if Touch(v, s) != {} && AdminOf(v) != Some(s) {
      var id :| id in Touch(v, s);
      assert SubjectOf(v[id].event).value == s;
    }
  }

  /** The state of one subject before the active-member cap is applied. */
  function Resolve(v: View, s: IdentityKey): Member {
    var touch := Touch(v, s);
    var heads := Heads(v, touch);
    Member(s, DeviceOf(v, touch, heads), StatusOf(v, heads), RoleOf(v, touch, heads))
  }

  function ActiveSubjects(v: View): set<IdentityKey> {
    set s | s in Subjects(v) && Resolve(v, s).status.Active?
  }

  /** The activation rank of an active subject: its least join. */
  function Rank(v: View, s: IdentityKey): EventId {
    if Joins(v, Touch(v, s)) == {} then 0 else Least(Joins(v, Touch(v, s)))
  }

  predicate RanksBefore(v: View, a: IdentityKey, b: IdentityKey) {
    Rank(v, a) < Rank(v, b) || (Rank(v, a) == Rank(v, b) && a < b)
  }

  /** The subjects kept active by the cap: those with fewer than `slots` active subjects before them. */
  function Admitted(room: Room, v: View): set<IdentityKey> {
    var slots := if AdminOf(v).Some? then (if room.maxActive >= 1 then room.maxActive - 1 else 0) else room.maxActive;
    set s | s in ActiveSubjects(v) && |set t | t in ActiveSubjects(v) && RanksBefore(v, t, s)| < slots
  }

  function Capped(room: Room, v: View, s: IdentityKey): Member {
    var m := Resolve(v, s);
    if m.status.Active? && s !in Admitted(room, v) then m.(status := Invited) else m
  }

  function AdminMember(v: View): Member
    requires Geneses(v) != {}
  {
    var e := v[Least(Geneses(v))].event;
    Member(e.sender, Some(e.device), Active, AdminRole)
  }

  /** Devices resolve to the greatest subject bound to them, else to the admin. */
  function DeviceIndex(v: View): map<DeviceKey, IdentityKey> {
    var own := if Geneses(v) == {} then map[] else map[AdminMember(v).device.value := AdminMember(v).identity];
    own + (map d | d in BoundDevices(v) :: HighestBound(v, d))
  }

  function BoundDevices(v: View): set<DeviceKey> {
    set s | s in Subjects(v) && Resolve(v, s).device.Some? :: Resolve(v, s).device.value
  }

  function Bound(v: View, d: DeviceKey): set<IdentityKey> {
    set s | s in Subjects(v) && Resolve(v, s).device == Some(d)
  }

  function HighestBound(v: View, d: DeviceKey): IdentityKey {
    if Bound(v, d) == {} then 0 else Greatest(Bound(v, d))
  }

  /** The deterministic fold of the accepted events in a view. */
  function Fold(room: Room, v: View): Snapshot {
    var subjects := map s | s in Subjects(v) :: Capped(room, v, s);
    var members := if Geneses(v) == {} then subjects
                   else subjects[AdminMember(v).identity := AdminMember(v)];
    Snapshot(AdminOf(v), members, DeviceIndex(v))
  }

  // ---------------------------------------------------------------------------
  // The gate
  // ---------------------------------------------------------------------------

  /** An accepted admin invite in the ancestors that this join names and proves. */
  predicate MatchesInvite(room: Room, join: Event, inviter: IdentityKey, n: Node)
    requires join.content.MemberJoined?
  {
    && n.verdict.Accepted?
    && n.event.content.MemberInvited?
    && n.event.content.inviteId == join.content.viaInvite
    && n.event.content.invitee == join.sender
    && n.event.sender == inviter
    && n.event.content.capabilityHash == room.capability(join.content.viaInvite, join.content.secret)
  }

  function MatchingInvites(room: Room, join: Event, inviter: IdentityKey, v: View): (m: set<EventId>)
    requires join.content.MemberJoined?
    ensures m <= v.Keys
  {
    set id | id in v && MatchesInvite(room, join, inviter, v[id])
  }

  predicate Expired(join: Event, invite: Event)
    requires invite.content.MemberInvited?
  {
    invite.content.expiresAt.Some? && join.createdAt > invite.content.expiresAt.value
  }

  /** The first problem, in id order, among the matching invites: expiry before role. */
  function InviteProblem(join: Event, v: View, ids: set<EventId>): Option<RejectReason>
    requires join.content.MemberJoined? && ids <= v.Keys
    requires forall id :: id in ids ==> v[id].event.content.MemberInvited?
    decreases |ids|
  {
    if ids == {} then None
    else
      var id := Least(ids);
      if Expired(join, v[id].event) then Some(ExpiredInvite)
      else if join.content.joinRole != v[id].event.content.inviteRole then Some(InsufficientRole)
      else InviteProblem(join, v, ids - {id})
  }

  /** A departure of `s` that causally descends from the invite has consumed it. */
  predicate Consumed(v: View, s: IdentityKey, invite: EventId) {
    exists id :: id in v && v[id].verdict.Accepted? && IsDeparture(v[id].event.content)
                 && Touches(v[id].event, s) && invite in v[id].ancestors
  }

  function GateJoin(room: Room, join: Event, v: View, view: Snapshot): Verdict
    requires join.content.MemberJoined?
  {
    match view.admin
    case None => Rejected(BadCapability)
    case Some(admin) =>
      var ids := MatchingInvites(room, join, admin, v);
      match InviteProblem(join, v, ids)
      case Some(reason) => Rejected(reason)
      case None =>
        if ids == {} then Rejected(BadCapability)
        else if Consumed(v, join.sender, Least(ids)) then Rejected(ExpiredInvite)
        else if !IsActive(view, join.sender) && |ActiveIds(view)| >= room.maxActive then Rejected(RoomFull)
        else Accepted
  }

  function GateContent(room: Room, e: Event, v: View, view: Snapshot): Verdict {
    match e.content
    case RoomCreated => Accepted
    case MemberInvited(_, _, _, _, _) => if view.admin == Some(e.sender) then Accepted else Rejected(InsufficientRole)
    case MemberRemoved(_) => if view.admin == Some(e.sender) then Accepted else Rejected(InsufficientRole)
    case KeyDistribution => if view.admin == Some(e.sender) then Accepted else Rejected(InsufficientRole)
    case MemberLeft(_) => Accepted
    case MemberJoined(_, _, _) => GateJoin(room, e, v, view)
    case Ordinary => if IsActive(view, e.sender) then Accepted else Rejected(NotAMember)
  }

  predicate DeviceBound(e: Event, view: Snapshot) {
    !RequiresDeviceBinding(e.content)
    || e.sender !in view.members
    || view.members[e.sender].device.None?
    || view.members[e.sender].device == Some(e.device)
  }

  /** The verdict on an event, from the nodes of its membership ancestors alone. */
  function Gate(room: Room, e: Event, v: View): Verdict {
    var view := Fold(room, v);
    var verdict := GateContent(room, e, v, view);
    if verdict.Accepted? && !DeviceBound(e, view) then Rejected(UnboundDevice) else verdict
  }
}

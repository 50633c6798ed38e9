/**
 * The connection admission gate of crates/iroh-rooms-net/src/admission.rs: the decision table
 * built from a snapshot, the live cell it is swapped into, and the join window over it; and the
 * two-sided decision on a delivered gossip frame (gossip.rs).
 *
 * An endpoint id is the device key itself when that key is a valid public key; `valid` says
 * which keys are.
 */
module Admission {
  import opened Prelude
  import opened OrderedSets
  import opened Membership
  import opened RoomMemberships
  import opened MembershipLaws
  import opened FoldLaws
  import opened GateLaws

  datatype RejectCause = UnknownDevice | NotActive | FailClosed

  datatype Decision = Admit(identity: IdentityKey) | AdmitProvisional | Reject(cause: RejectCause)

  datatype AdmissionView = AdmissionView(
    deviceToIdentity: map<DeviceKey, IdentityKey>,
    active: set<IdentityKey>,
    failClosed: set<IdentityKey>)

  const NOBODY := AdmissionView(map[], {}, {})

  function Decide(view: AdmissionView, device: DeviceKey): Decision {
    if device !in view.deviceToIdentity then Reject(UnknownDevice)
    else
      var identity := view.deviceToIdentity[device];
      if identity in view.failClosed then Reject(FailClosed)
      else if identity !in view.active then Reject(NotActive)
      else Admit(identity)
  }

  // ---------------------------------------------------------------------------
  // The view of a snapshot
  // ---------------------------------------------------------------------------

  /** The members among `ids` bound to a device, whatever their status. */
  function BindersIn(s: Snapshot, ids: set<IdentityKey>, device: DeviceKey): set<IdentityKey> {
    set id | id in ids && id in s.members && s.members[id].device == Some(device)
  }

  function Binders(s: Snapshot, device: DeviceKey): set<IdentityKey> {
    BindersIn(s, s.members.Keys, device)
  }

  /** Each validly keyed device of the members `ids` is filed under the greatest of them bound to it. */
  ghost predicate Files(valid: DeviceKey -> bool, s: Snapshot, ids: set<IdentityKey>,
                        table: map<DeviceKey, IdentityKey>)
  {
    && (forall d :: d in table <==> valid(d) && BindersIn(s, ids, d) != {})
    && (forall d :: d in table && BindersIn(s, ids, d) != {} ==> table[d] == Greatest(BindersIn(s, ids, d)))
  }

  /** What a view says about one snapshot and one fail-closed set. */
  ghost predicate Reflects(valid: DeviceKey -> bool, s: Snapshot, failClosed: set<IdentityKey>, view: AdmissionView) {
    && Files(valid, s, s.members.Keys, view.deviceToIdentity)
    && view.active == ActiveIds(s)
    && view.failClosed == failClosed
  }

  /** Taking members in identity order, a later binding of a device replaces an earlier one. */
  lemma FilesNext(valid: DeviceKey -> bool, s: Snapshot, ids: set<IdentityKey>, table: map<DeviceKey, IdentityKey>,
                  id: IdentityKey)
    requires Files(valid, s, ids, table) && id in s.members && forall x :: x in ids ==> x < id
    ensures var device := s.members[id].device;
            Files(valid, s, ids + {id},
                  if device.Some? && valid(device.value) then table[device.value := id] else table)
  {
    var device := s.members[id].device;
    forall d: DeviceKey
      ensures BindersIn(s, ids + {id}, d) == BindersIn(s, ids, d) + if device == Some(d) then {id} else {}
    {}
  }

  /** The decision table of a snapshot. */
  method FromSnapshot(valid: DeviceKey -> bool, s: Snapshot, failClosed: seq<IdentityKey>) returns (view: AdmissionView)
    requires WellKeyed(s)
    ensures Reflects(valid, s, SetOf(failClosed), view)
  {
    hide Files, SetOf, ActiveAmong, Ascending;
    var ids := Ascending(s.members.Keys);
    AscendingLists(s.members.Keys);
    var devices: map<DeviceKey, IdentityKey> := map[];
    var active := {};
    FilesNothing(valid, s);
    var k := 0;
    while k < |ids|
      invariant 0 <= k <= |ids|
      invariant active == ActiveAmong(s, SetOf(ids[..k]))
      invariant Files(valid, s, SetOf(ids[..k]), devices)
    {
      var m := s.members[ids[k]];
      SetOfNext(ids, k);
      ActiveNext(s, SetOf(ids[..k]), ids[k]);
      FilesNext(valid, s, SetOf(ids[..k]), devices, m.identity);
      if m.device.Some? && valid(m.device.value) {
        devices := devices[m.device.value := m.identity];
      }
      if IsActive(s, m.identity) {
        active := active + {m.identity};
      }
      k := k + 1;
    }
    assert ids[..k] == ids;
    SetOfAll(ids, s.members.Keys);
    ActiveAll(s);
    view := AdmissionView(devices, active, SetOf(failClosed));
  }

  lemma FilesNothing(valid: DeviceKey -> bool, s: Snapshot)
    ensures Files(valid, s, SetOf([]), map[]) && ActiveAmong(s, SetOf([])) == {}
  {}

  function ActiveAmong(s: Snapshot, ids: set<IdentityKey>): set<IdentityKey> {
    set id | id in ids && IsActive(s, id)
  }

  lemma ActiveNext(s: Snapshot, ids: set<IdentityKey>, id: IdentityKey)
    ensures ActiveAmong(s, ids + {id}) == ActiveAmong(s, ids) + if IsActive(s, id) then {id} else {}
  {}

  lemma ActiveAll(s: Snapshot)
    ensures ActiveAmong(s, s.members.Keys) == ActiveIds(s)
  {}

  /** Every folded snapshot is filed by identity. */
  lemma FoldIsWellKeyed(room: Room, v: View)
    ensures WellKeyed(Fold(room, v))
  {
    hide Subjects, Admitted, DeviceIndex, DeviceOf, StatusOf, RoleOf;
  }

  // ---------------------------------------------------------------------------
  // The live gate
  // ---------------------------------------------------------------------------

  datatype Action =
    | Swap(snapshot: Snapshot, failClosed: seq<IdentityKey>)
    | Flip(open: bool)

  /** The snapshot swapped in last, if any, with its fail-closed set. */
  function Current(run: seq<Action>): Option<(Snapshot, set<IdentityKey>)> {
    if run == [] then None
    else if run[|run| - 1].Swap? then Some((run[|run| - 1].snapshot, SetOf(run[|run| - 1].failClosed)))
    else Current(run[..|run| - 1])
  }

  function WindowOpen(run: seq<Action>): bool {
    if run == [] then false
    else if run[|run| - 1].Flip? then run[|run| - 1].open
    else WindowOpen(run[..|run| - 1])
  }

  /** The identity a device speaks for under the current snapshot. */
  function Speaker(valid: DeviceKey -> bool, run: seq<Action>, device: DeviceKey): Option<IdentityKey> {
    match Current(run)
    case None => None
    case Some((s, _)) =>
      if valid(device) && Binders(s, device) != {} then Some(Greatest(Binders(s, device))) else None
  }

  /** The speaker is active and not held back. */
  predicate InGoodStanding(valid: DeviceKey -> bool, run: seq<Action>, device: DeviceKey) {
    match Current(run)
    case None => false
    case Some((s, failClosed)) =>
      && Speaker(valid, run, device).Some?
      && Speaker(valid, run, device).value in ActiveIds(s)
      && Speaker(valid, run, device).value !in failClosed
  }

  /** The roster's answer after a run. */
  function InnerAfter(valid: DeviceKey -> bool, run: seq<Action>, device: DeviceKey): Decision {
    match Speaker(valid, run, device)
    case None => Reject(UnknownDevice)
    case Some(identity) =>
      if identity in Current(run).value.1 then Reject(FailClosed)
      else if !IsActive(Current(run).value.0, identity) then Reject(NotActive)
      else Admit(identity)
  }

  /** A decision that reads the roster after `roster` and the join window after `window`. */
  function DecisionAfter(valid: DeviceKey -> bool, roster: seq<Action>, window: seq<Action>, device: DeviceKey)
    : Decision
  {
    var inner := InnerAfter(valid, roster, device);
    if inner == Reject(UnknownDevice) && WindowOpen(window) then AdmitProvisional else inner
  }

  datatype DeliveredFrame = Accept | LocalDeviceNotAdmitted | NeighborNotAdmitted

  /** The live roster cell and the join window over it. */
  class JoinBootstrapAdmission {
    const valid: DeviceKey -> bool
    var cell: AdmissionView
    var acceptJoins: bool
    ghost var run: seq<Action>

    ghost predicate Valid()
      reads this
    {
      && acceptJoins == WindowOpen(run)
      && match Current(run)
         case None => cell == NOBODY
         case Some((s, failClosed)) => Reflects(valid, s, failClosed, cell)
    }

    constructor (valid: DeviceKey -> bool)
      ensures Valid() && run == [] && this.valid == valid
    {
      this.valid := valid;
      cell := NOBODY;
      acceptJoins := false;
      run := [];
    }

    method SwapView(s: Snapshot, failClosed: seq<IdentityKey>)
      requires Valid() && WellKeyed(s)
      modifies this`cell, this`run
      ensures Valid() && run == old(run) + [Swap(s, failClosed)]
    {
      cell := FromSnapshot(valid, s, failClosed);
      run := run + [Swap(s, failClosed)];
      assert run[..|run| - 1] == old(run);
    }

    method StoreWindow(open: bool)
      requires Valid()
      modifies this`acceptJoins, this`run
      ensures Valid() && run == old(run) + [Flip(open)]
    {
      acceptJoins := open;
      run := run + [Flip(open)];
      assert run[..|run| - 1] == old(run);
    }

    function Inner(device: DeviceKey): Decision
      reads this
    {
      Decide(cell, device)
    }

    /** The inner decision, except that an open window admits an unknown device provisionally. */
    function Authorize(device: DeviceKey): Decision
      reads this
    {
      var inner := Inner(device);
      if inner == Reject(UnknownDevice) && acceptJoins then AdmitProvisional else inner
    }

    function AcceptDelivered(me: DeviceKey, neighbour: DeviceKey): DeliveredFrame
      reads this
    {
      if !Authorize(me).Admit? then LocalDeviceNotAdmitted
      else if !Authorize(neighbour).Admit? then NeighborNotAdmitted
      else Accept
    }

    /**
     * After any run of swaps and flips the decision is fixed by the last snapshot and the last
     * flip: a device some member is bound to is never provisional, a closed window changes
     * nothing, and a device is admitted exactly for a speaker in good standing.
     */
    lemma DecidesByTheRun(device: DeviceKey)
      requires Valid()
      ensures Inner(device) == InnerAfter(valid, run, device)
      ensures Authorize(device) == DecisionAfter(valid, run, run, device)
      ensures Authorize(device).AdmitProvisional? <==> WindowOpen(run) && Speaker(valid, run, device).None?
      ensures !WindowOpen(run) ==> Authorize(device) == Inner(device)
      ensures Authorize(device).Admit? <==> InGoodStanding(valid, run, device)
      ensures Authorize(device).Admit? ==> Speaker(valid, run, device) == Some(Authorize(device).identity)
      ensures Authorize(device) == Reject(UnknownDevice) <==> !WindowOpen(run) && Speaker(valid, run, device).None?
      ensures Authorize(device) == Reject(FailClosed)
              <==> && Current(run).Some? && Speaker(valid, run, device).Some?
                   && Speaker(valid, run, device).value in Current(run).value.1
      ensures Authorize(device) == Reject(NotActive)
              <==> && Current(run).Some? && Speaker(valid, run, device).Some?
                   && Speaker(valid, run, device).value !in Current(run).value.1
                   && Speaker(valid, run, device).value !in ActiveIds(Current(run).value.0)
    {
      match Current(run)
      case None =>
      case Some((s, failClosed)) =>
        assert device in cell.deviceToIdentity <==> valid(device) && Binders(s, device) != {};
    }

    /** A gossip frame is taken only between two devices in good standing, whatever the window. */
    lemma DeliveryNeedsBothSides(me: DeviceKey, neighbour: DeviceKey)
      requires Valid()
      ensures AcceptDelivered(me, neighbour).Accept?
              <==> InGoodStanding(valid, run, me) && InGoodStanding(valid, run, neighbour)
      ensures AcceptDelivered(me, neighbour).LocalDeviceNotAdmitted? <==> !InGoodStanding(valid, run, me)
    {
      hide JoinBootstrapAdmission.Valid, InGoodStanding, JoinBootstrapAdmission.Authorize;
      DecidesByTheRun(me);
      DecidesByTheRun(neighbour);
    }
  }

  // ---------------------------------------------------------------------------
  // The two reads of one decision
  // ---------------------------------------------------------------------------

  lemma {:induction false} WithoutSwaps(run: seq<Action>, between: seq<Action>)
    requires forall a <- between :: !a.Swap?
    ensures Current(run + between) == Current(run)
    decreases |between|
  {
    if between == [] {
      assert run + between == run;
    } else {
      var n := |between| - 1;
      assert (run + between)[..|run + between| - 1] == run + between[..n];
      assert between[n] in between;
      WithoutSwaps(run, between[..n]);
    }
  }

  lemma {:induction false} WithoutFlips(run: seq<Action>, between: seq<Action>)
    requires forall a <- between :: !a.Flip?
    ensures WindowOpen(run + between) == WindowOpen(run)
    decreases |between|
  {
    if between == [] {
      assert run + between == run;
    } else {
      var n := |between| - 1;
      assert (run + between)[..|run + between| - 1] == run + between[..n];
      assert between[n] in between;
      WithoutFlips(run, between[..n]);
    }
  }

  /** The instants a call spans: after the actions `run` and the first `k` of those that follow. */
  ghost predicate IsInstant(between: seq<Action>, k: nat) {
    k <= |between|
  }

  /** The decision is the one instant `k` of the call would give. */
  ghost predicate DecidedAt(valid: DeviceKey -> bool, run: seq<Action>, between: seq<Action>, device: DeviceKey, k: nat)
    requires IsInstant(between, k)
  {
    var now := run + between[..k];
    DecisionAfter(valid, run, run + between, device) == DecisionAfter(valid, now, now, device)
  }

  /** At instant `k` the device is unknown and the window is as the call's second read finds it. */
  ghost predicate SameWindow(valid: DeviceKey -> bool, run: seq<Action>, between: seq<Action>, device: DeviceKey,
                             k: nat)
    requires IsInstant(between, k)
  {
    var now := run + between[..k];
    Speaker(valid, now, device).None? && WindowOpen(now) == WindowOpen(run + between)
  }

  /**
   * The roster is read before the window, and either may change in between. The decision is that
   * of some instant of the call if and only if the device was bound at the first read, or at some
   * instant it is unknown while the window is as the second read finds it.
   */
  lemma DecidesAtOneInstantExactly(valid: DeviceKey -> bool, run: seq<Action>, between: seq<Action>, device: DeviceKey)
    ensures (exists k :: IsInstant(between, k) && DecidedAt(valid, run, between, device, k))
            <==> || Speaker(valid, run, device).Some?
                 || (exists k :: IsInstant(between, k) && SameWindow(valid, run, between, device, k))
  {
    hide Speaker, Current, WindowOpen;
    if Speaker(valid, run, device).Some? {
      assert run + between[..0] == run;
      assert IsInstant(between, 0) && DecidedAt(valid, run, between, device, 0);
    } else {
      forall k | IsInstant(between, k)
        ensures DecidedAt(valid, run, between, device, k) <==> SameWindow(valid, run, between, device, k)
      {}
    }
  }

  /** Two cases in which it is: no view was swapped, or the window was not flipped. */
  lemma DecidesAtOneInstant(valid: DeviceKey -> bool, run: seq<Action>, between: seq<Action>, device: DeviceKey)
    ensures (forall a <- between :: !a.Swap?) ==> DecidedAt(valid, run, between, device, |between|)
    ensures (forall a <- between :: !a.Flip?) ==> DecidedAt(valid, run, between, device, 0)
  {
    assert between[..|between|] == between && run + between[..0] == run;
    if forall a <- between :: !a.Swap? {
      WithoutSwaps(run, between);
    }
    if forall a <- between :: !a.Flip? {
      WithoutFlips(run, between);
    }
  }

  /**
   * A call where it is not: a closed window, a view that binds the unknown device, then an open
   * window gives a provisional admission that no instant of the call would.
   */
  lemma ProvisionalAtNoInstant(valid: DeviceKey -> bool, run: seq<Action>, s: Snapshot, failClosed: seq<IdentityKey>,
                               device: DeviceKey)
    requires !WindowOpen(run) && Speaker(valid, run, device).None?
    requires valid(device) && Binders(s, device) != {}
    ensures var between := [Swap(s, failClosed), Flip(true)];
            && DecisionAfter(valid, run, run + between, device).AdmitProvisional?
            && forall k :: IsInstant(between, k) ==> !DecidedAt(valid, run, between, device, k)
  {
    var between := [Swap(s, failClosed), Flip(true)];
    var swapped := run + [Swap(s, failClosed)];
    assert run + between == swapped + [Flip(true)];
    SwapBinds(valid, run, s, failClosed, device);
    WithoutSwaps(swapped, [Flip(true)]);
    FlipSets(swapped, true);
    hide Current, WindowOpen, Binders;
    forall k | IsInstant(between, k) ensures !SameWindow(valid, run, between, device, k) {
      assert k == 0 || k == 1 || k == 2;
      assert run + between[..0] == run && run + between[..1] == swapped && run + between[..2] == run + between;
    }
    hide Speaker;
    DecidesAtOneInstantExactly(valid, run, between, device);
  }

  lemma SwapBinds(valid: DeviceKey -> bool, run: seq<Action>, s: Snapshot, failClosed: seq<IdentityKey>,
                  device: DeviceKey)
    ensures Current(run + [Swap(s, failClosed)]) == Some((s, SetOf(failClosed)))
    ensures valid(device) && Binders(s, device) != {} ==> Speaker(valid, run + [Swap(s, failClosed)], device).Some?
  {
    var swapped := run + [Swap(s, failClosed)];
    assert swapped[..|swapped| - 1] == run;
  }

  lemma FlipSets(run: seq<Action>, open: bool)
    ensures WindowOpen(run + [Flip(open)]) == open
  {
    assert (run + [Flip(open)])[..|run + [Flip(open)]| - 1] == run;
  }

  // ---------------------------------------------------------------------------
  // The two checks of one delivery
  // ---------------------------------------------------------------------------

  /** A delivery that checks the local device after `first` and the neighbour after `second`. */
  function DeliveryAfter(valid: DeviceKey -> bool, first: seq<Action>, second: seq<Action>, me: DeviceKey,
                         neighbour: DeviceKey): DeliveredFrame
  {
    if !DecisionAfter(valid, first, first, me).Admit? then LocalDeviceNotAdmitted
    else if !DecisionAfter(valid, second, second, neighbour).Admit? then NeighborNotAdmitted
    else Accept
  }

  lemma AdmittedExactly(valid: DeviceKey -> bool, run: seq<Action>, device: DeviceKey)
    ensures DecisionAfter(valid, run, run, device).Admit? <==> InGoodStanding(valid, run, device)
  {}

  /**
   * Each check speaks for its own instant. The frame is accepted exactly when each device is in
   * good standing at its own check; without a swap in between that is one view for both.
   */
  lemma DeliveryAtOneInstant(valid: DeviceKey -> bool, run: seq<Action>, between: seq<Action>, me: DeviceKey,
                             neighbour: DeviceKey)
    ensures DeliveryAfter(valid, run, run + between, me, neighbour).Accept?
            <==> InGoodStanding(valid, run, me) && InGoodStanding(valid, run + between, neighbour)
    ensures (forall a <- between :: !a.Swap?)
            ==> DeliveryAfter(valid, run, run + between, me, neighbour) == DeliveryAfter(valid, run, run, me, neighbour)
  {
    AdmittedExactly(valid, run, me);
    AdmittedExactly(valid, run, neighbour);
    AdmittedExactly(valid, run + between, neighbour);
    if forall a <- between :: !a.Swap? {
      WithoutSwaps(run, between);
    }
    hide DecisionAfter;
  }

  /** The delivery is the one instant `k` of the two checks would give. */
  ghost predicate DeliveredAt(valid: DeviceKey -> bool, run: seq<Action>, between: seq<Action>, me: DeviceKey,
                              neighbour: DeviceKey, k: nat)
    requires IsInstant(between, k)
  {
    var now := run + between[..k];
    DeliveryAfter(valid, run, run + between, me, neighbour) == DeliveryAfter(valid, now, now, me, neighbour)
  }

  /** At instant `k` the local device stands, and the neighbour as its own check finds it. */
  ghost predicate SameNeighbour(valid: DeviceKey -> bool, run: seq<Action>, between: seq<Action>, me: DeviceKey,
                                neighbour: DeviceKey, k: nat)
    requires IsInstant(between, k)
  {
    var now := run + between[..k];
    && InGoodStanding(valid, now, me)
    && (InGoodStanding(valid, now, neighbour) <==> InGoodStanding(valid, run + between, neighbour))
  }

  lemma DeliveryByStanding(valid: DeviceKey -> bool, first: seq<Action>, second: seq<Action>, me: DeviceKey,
                           neighbour: DeviceKey)
    ensures DeliveryAfter(valid, first, second, me, neighbour)
            == if !InGoodStanding(valid, first, me) then LocalDeviceNotAdmitted
               else if !InGoodStanding(valid, second, neighbour) then NeighborNotAdmitted
               else Accept
  {
    hide DecisionAfter, InGoodStanding;
    AdmittedExactly(valid, first, me);
    AdmittedExactly(valid, second, neighbour);
  }

  /**
   * The outcome of a delivery is that of some instant if and only if the local device was refused
   * at the first check, or at some instant it stands while the neighbour is as the second check
   * finds it.
   */
  lemma DeliveryAtOneInstantExactly(valid: DeviceKey -> bool, run: seq<Action>, between: seq<Action>, me: DeviceKey,
                                    neighbour: DeviceKey)
    ensures (exists k :: IsInstant(between, k) && DeliveredAt(valid, run, between, me, neighbour, k))
            <==> || !InGoodStanding(valid, run, me)
                 || (exists k :: IsInstant(between, k) && SameNeighbour(valid, run, between, me, neighbour, k))
  {
    hide DeliveryAfter, InGoodStanding;
    DeliveryByStanding(valid, run, run + between, me, neighbour);
    if !InGoodStanding(valid, run, me) {
      assert run + between[..0] == run;
      DeliveryByStanding(valid, run, run, me, neighbour);
      assert IsInstant(between, 0) && DeliveredAt(valid, run, between, me, neighbour, 0);
    } else {
      forall k: nat | IsInstant(between, k)
        ensures DeliveredAt(valid, run, between, me, neighbour, k)
                <==> SameNeighbour(valid, run, between, me, neighbour, k)
      {
        DeliveryByStanding(valid, run + between[..k], run + between[..k], me, neighbour);
      }
    }
  }

  predicate BothStand(valid: DeviceKey -> bool, run: seq<Action>, me: DeviceKey, neighbour: DeviceKey) {
    InGoodStanding(valid, run, me) && InGoodStanding(valid, run, neighbour)
  }

  /**
   * With one swap between the checks, an accepted frame has a view with both devices in good
   * standing if and only if the neighbour already stood before the swap or the local device
   * still does after it.
   */
  lemma AcceptedInOneViewExactly(valid: DeviceKey -> bool, run: seq<Action>, s: Snapshot, failClosed: seq<IdentityKey>,
                                 me: DeviceKey, neighbour: DeviceKey)
    requires DeliveryAfter(valid, run, run + [Swap(s, failClosed)], me, neighbour).Accept?
    ensures var between := [Swap(s, failClosed)];
            (exists k: nat :: IsInstant(between, k) && BothStand(valid, run + between[..k], me, neighbour))
            <==> InGoodStanding(valid, run, neighbour) || InGoodStanding(valid, run + between, me)
  {
    var between := [Swap(s, failClosed)];
    hide DeliveryAfter, InGoodStanding;
    DeliveryByStanding(valid, run, run + between, me, neighbour);
    assert run + between[..0] == run && run + between[..1] == run + between;
    assert IsInstant(between, 0) && IsInstant(between, 1);
    forall k: nat | IsInstant(between, k) ensures k == 0 || k == 1 {}
  }

  /**
   * So a swap that revokes the local device and brings the neighbour in between the two checks,
   * lets a frame through although no view has both in good standing.
   */
  lemma DeliveredAtNoInstant(valid: DeviceKey -> bool, run: seq<Action>, s: Snapshot, failClosed: seq<IdentityKey>,
                             me: DeviceKey, neighbour: DeviceKey)
    requires InGoodStanding(valid, run, me) && !InGoodStanding(valid, run + [Swap(s, failClosed)], me)
    requires !InGoodStanding(valid, run, neighbour) && InGoodStanding(valid, run + [Swap(s, failClosed)], neighbour)
    ensures var between := [Swap(s, failClosed)];
            && DeliveryAfter(valid, run, run + between, me, neighbour).Accept?
            && forall k: nat :: IsInstant(between, k) ==>
                 && !BothStand(valid, run + between[..k], me, neighbour)
                 && !DeliveredAt(valid, run, between, me, neighbour, k)
  {
    var between := [Swap(s, failClosed)];
    hide DeliveryAfter, InGoodStanding;
    DeliveryByStanding(valid, run, run + between, me, neighbour);
    AcceptedInOneViewExactly(valid, run, s, failClosed, me, neighbour);
    forall k: nat | IsInstant(between, k) ensures !DeliveredAt(valid, run, between, me, neighbour, k) {
      DeliveryByStanding(valid, run + between[..k], run + between[..k], me, neighbour);
    }
  }

  // ---------------------------------------------------------------------------
  // From the gate back to the causal history
  // ---------------------------------------------------------------------------

  lemma BoundThroughJoin(room: Room, nodes: View, order: seq<EventId>, s: IdentityKey, device: DeviceKey)
    returns (j: EventId)
    requires Consistent(room, nodes, order)
    requires IsActive(Fold(room, nodes), s) && AdminOf(nodes) != Some(s)
    requires Fold(room, nodes).members[s].device == Some(device)
    ensures Last(nodes, nodes.Keys, s, j) && nodes[j].event.content.MemberJoined? && nodes[j].event.device == device
  {
    hide Fold, Consistent, Resolve, Precedes, LastEvents, Story, AdminOf;
    ActiveIsResolved(room, nodes, s);
    assert Restrict(nodes, nodes.Keys) == nodes;
    hide Restrict;
    StatusFollowsTheLastEvents(room, nodes, order, nodes.Keys, s);
    DeviceFollowsTheLastEvents(room, nodes, order, nodes.Keys, s);
    var h :| Last(nodes, nodes.Keys, s, h) && nodes[h].event.content.MemberJoined?;
    LastIsListed(nodes, nodes.Keys, s, h);
    hide HoldsJoin;
    j :| FirstJoin(nodes, LastEvents(nodes, nodes.Keys, s), j) && Some(nodes[j].event.device) == Some(device);
    FirstIsLast(nodes, s, j);
  }

  lemma FirstIsLast(nodes: View, s: IdentityKey, j: EventId)
    requires FirstJoin(nodes, LastEvents(nodes, nodes.Keys, s), j)
    ensures Last(nodes, nodes.Keys, s, j) && nodes[j].event.content.MemberJoined?
  {}

  /**
   * End to end: a device the gate admits in a settled room, for anyone but the admin, signed a
   * causally last join of that identity, and a live admin invite admits that join.
   */
  lemma AdmittedDevicesWereInvited(room: Room, nodes: View, order: seq<EventId>, valid: DeviceKey -> bool,
                                   failClosed: set<IdentityKey>, view: AdmissionView, device: DeviceKey)
    returns (i: EventId, j: EventId)
    requires Consistent(room, nodes, order) && Reflects(valid, Fold(room, nodes), failClosed, view)
    requires Decide(view, device).Admit? && AdminOf(nodes) != Some(Decide(view, device).identity)
    ensures var s := Decide(view, device).identity;
            && s !in failClosed && Last(nodes, nodes.Keys, s, j) && Vouches(room, nodes, s, i, j)
            && nodes[j].event.device == device
  {
    hide Consistent, Fold, Gate, Last, Vouches, Precedes;
    var s := Decide(view, device).identity;
    assert device in view.deviceToIdentity && Binders(Fold(room, nodes), device) != {};
    assert s in Binders(Fold(room, nodes), device);
    assert IsActive(Fold(room, nodes), s);
    j := BoundThroughJoin(room, nodes, order, s, device);
    LastIsJoin(nodes, s, j);
    i := JoinIsVouchedFor(room, nodes, order, s, j);
  }

  lemma LastIsJoin(nodes: View, s: IdentityKey, j: EventId)
    requires Last(nodes, nodes.Keys, s, j) && nodes[j].event.content.MemberJoined?
    ensures IsJoinOf(nodes, s, j)
  {}

  // ---------------------------------------------------------------------------
  // Two device indexes
  // ---------------------------------------------------------------------------

  /**
   * The gate and the snapshot's own device index name the same identity for a device, except
   * exactly when it is the admin's device, some subject is bound to it too, and every such
   * subject sorts below the admin: then the index names the subject and the gate the admin.
   */
  lemma IndexesAgreeExactly(room: Room, v: View, device: DeviceKey)
    ensures var s := Fold(room, v);
            && (Binders(s, device) != {} <==> device in s.byDevice)
            && (Binders(s, device) != {} ==>
                  (Greatest(Binders(s, device)) == s.byDevice[device]
                   <==> !(Geneses(v) != {} && AdminMember(v).device == Some(device)
                          && Bound(v, device) != {} && Greatest(Bound(v, device)) < AdminMember(v).identity)))
  {
    assert Fold(room, v).byDevice == DeviceIndex(v) by { hide Subjects, DeviceIndex, AdminMember, Geneses, Capped; }
    hide Fold, DeviceIndex, AdminMember, Geneses, Bound, Binders;
    BindersAre(room, v, device);
    IndexIs(v, device);
  }

  lemma BindersAre(room: Room, v: View, device: DeviceKey)
    ensures Binders(Fold(room, v), device)
            == Bound(v, device)
               + if Geneses(v) != {} && AdminMember(v).device == Some(device) then {AdminMember(v).identity} else {}
    ensures Geneses(v) != {} ==> AdminMember(v).identity !in Bound(v, device)
  {
    forall s ensures s in Subjects(v) ==> AdminOf(v) != Some(s) {
      SubjectsAreTouched(v, s);
    }
    assert Geneses(v) != {} ==> AdminOf(v) == Some(AdminMember(v).identity);
    hide Subjects, Resolve, DeviceIndex, Admitted, Geneses, AdminOf;
  }

  lemma IndexIs(v: View, device: DeviceKey)
    ensures device in DeviceIndex(v)
            <==> Bound(v, device) != {} || (Geneses(v) != {} && AdminMember(v).device == Some(device))
    ensures device in DeviceIndex(v) ==>
              DeviceIndex(v)[device]
              == if Bound(v, device) != {} then Greatest(Bound(v, device)) else AdminMember(v).identity
  {
    hide Subjects, Resolve;
    assert device in BoundDevices(v) <==> Bound(v, device) != {} by {
      if Bound(v, device) != {} {
        var s :| s in Bound(v, device);
        assert Resolve(v, s).device.value == device;
      }
      if device in BoundDevices(v) {
        var s :| s in Subjects(v) && Resolve(v, s).device.Some? && Resolve(v, s).device.value == device;
        assert s in Bound(v, device);
      }
    }
    hide BoundDevices, Bound, Geneses;
  }
}

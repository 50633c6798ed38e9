/**
 * What one call on the link manager of crates/iroh-rooms-net/src/manager.rs does to one device, in
 * terms of the membership snapshot and the admission gate; and what becomes of every pull that is
 * routed on demand.
 */
module ManagerLaws {
  import opened Prelude
  import opened OrderedSets
  import opened Membership
  import opened Seeds
  import opened PeerManagers
  import opened ManagerRuns

  // ---------------------------------------------------------------------------
  // One reconcile, one device
  // ---------------------------------------------------------------------------

  /** An active member other than the node itself is bound to the device, and its key is valid. */
  predicate IsMemberDevice(cfg: Config, req: Request, d: DeviceKey) {
    d != cfg.self && cfg.valid(d)
    && exists id :: id in req.snapshot.members
                    && req.snapshot.members[id].status == Active && req.snapshot.members[id].device == Some(d)
  }

  /** And, where admission is enforced, the gate admits it. */
  predicate MayLink(cfg: Config, req: Request, d: DeviceKey) {
    IsMemberDevice(cfg, req, d) && (req.enforce ==> req.admits(d))
  }

  lemma MayLinkIsAdmitted(cfg: Config, req: Request, d: DeviceKey)
    ensures d in MemberLinks(cfg, req) <==> IsMemberDevice(cfg, req, d)
    ensures d in AdmittedLinks(cfg, req) <==> MayLink(cfg, req, d)
  {
    if IsMemberDevice(cfg, req, d) {
      var id :| id in req.snapshot.members
                && req.snapshot.members[id].status == Active && req.snapshot.members[id].device == Some(d);
      assert IsDialable(cfg.valid, req.snapshot, id);
    }
  }

  /**
   * The links a reconcile leaves: the admitted set is exactly who may be linked now; a warm loop
   * runs for each of them, or under the overlay for the seeds among them; on-demand links stay,
   * unchanged, toward those who may be linked and go for the others.
   */
  lemma ReconcileLeaves(cfg: Config, links: Links, req: Request, d: DeviceKey)
    requires Bounded(cfg, links)
    ensures var next := Reconciled(cfg, links, req);
            && (d in next.active <==> MayLink(cfg, req, d))
            && (d in next.dials <==> MayLink(cfg, req, d)
                                     && (cfg.overlay ==> d in SeedsOf(cfg.valid, req.snapshot, cfg.self)))
            && (d in next.onDemand <==> d in links.onDemand && MayLink(cfg, req, d))
            && (d in next.onDemand ==> next.onDemand[d] == links.onDemand[d])
  {
    MayLinkIsAdmitted(cfg, req, d);
    hide AdmittedLinks, MemberLinks, SeedsOf, MayLink;
    assert !cfg.overlay ==> links.onDemand.Keys == {};
  }

  lemma StopsHold(cfg: Config, req: Request, devices: seq<DeviceKey>, d: DeviceKey, how: Teardown)
    ensures Stopped(d, how) in Stops(cfg, req, devices) <==> d in devices && how == HowStopped(cfg, req, d)
  {
    hide HowStopped;
    if d in devices {
      var i :| 0 <= i < |devices| && devices[i] == d;
      assert Stops(cfg, req, devices)[i] == Stopped(d, HowStopped(cfg, req, d));
    }
  }

  lemma StartsHold(devices: seq<DeviceKey>, d: DeviceKey)
    ensures Started(d) in Starts(devices) <==> d in devices
  {
    if d in devices {
      var i :| 0 <= i < |devices| && devices[i] == d;
      assert Starts(devices)[i] == Started(d);
    }
  }

  /** Which effects a reconcile has on one device. */
  lemma EffectsHold(cfg: Config, links: Links, req: Request, d: DeviceKey, how: Teardown)
    ensures Stopped(d, how) in ReconcileEffects(cfg, links, req)
            <==> d in ToStop(cfg, links, req) && how == HowStopped(cfg, req, d)
    ensures Started(d) in ReconcileEffects(cfg, links, req) <==> d in Target(cfg, req) && d !in links.dials
  {
    hide Ascending, ToStop, Target, HowStopped;
    var toStop, toStart := ToStop(cfg, links, req), Target(cfg, req) - links.dials;
    AscendingLists(toStop);
    AscendingLists(toStart);
    StopsHold(cfg, req, Ascending(toStop), d, how);
    StartsHold(Ascending(toStart), d);
    var stops, starts := Stops(cfg, req, Ascending(toStop)), Starts(Ascending(toStart));
    assert forall e <- stops :: e.Stopped?;
    assert forall e <- starts :: e.Started?;
    assert ReconcileEffects(cfg, links, req) == stops + starts;
    hide Stops, Starts, ReconcileEffects;
  }

  lemma ToStopIs(cfg: Config, links: Links, req: Request, d: DeviceKey)
    requires Bounded(cfg, links)
    ensures d in ToStop(cfg, links, req)
            <==> || (d in links.active && d !in AdmittedLinks(cfg, req))
                 || (d in links.dials && d !in Target(cfg, req))
    ensures Target(cfg, req) <= AdmittedLinks(cfg, req)
  {
    hide AdmittedLinks, SeedsOf;
  }

  /**
   * How a device is torn down, exactly: with a receipt-bearing removal when it was admitted and
   * admission is enforced but no active member is bound to it any more; closed at once when it was
   * admitted and is refused for any other reason; merely dropped when it stays admitted but loses
   * its warm loop. And a loop is started exactly where one is wanted and none runs.
   */
  lemma TeardownsExactly(cfg: Config, links: Links, req: Request, d: DeviceKey)
    requires Bounded(cfg, links)
    ensures var effects := ReconcileEffects(cfg, links, req);
            && (Stopped(d, Terminal) in effects
                <==> d in links.active && req.enforce && !IsMemberDevice(cfg, req, d))
            && (Stopped(d, Closed) in effects
                <==> d in links.active && if req.enforce then IsMemberDevice(cfg, req, d) && !req.admits(d)
                                          else !IsMemberDevice(cfg, req, d))
            && (Stopped(d, LinkDropped) in effects
                <==> d in links.dials && MayLink(cfg, req, d) && d !in Reconciled(cfg, links, req).dials)
            && (Started(d) in effects <==> d !in links.dials && d in Reconciled(cfg, links, req).dials)
  {
    MayLinkIsAdmitted(cfg, req, d);
    forall how ensures Stopped(d, how) in ReconcileEffects(cfg, links, req)
                       <==> d in ToStop(cfg, links, req) && how == HowStopped(cfg, req, d) {
      EffectsHold(cfg, links, req, d, how);
    }
    EffectsHold(cfg, links, req, d, Terminal);
    ToStopIs(cfg, links, req, d);
    hide ReconcileEffects, AdmittedLinks, MemberLinks, Target, IsMemberDevice, ToStop, Bounded, Stale;
  }

  /** No effect of a reconcile is repeated, and none reports a full channel. */
  lemma EffectsAreDistinct(cfg: Config, links: Links, req: Request)
    ensures var effects := ReconcileEffects(cfg, links, req);
            && (forall i, j :: 0 <= i < j < |effects| ==> effects[i] != effects[j])
            && (forall e <- effects :: !e.Saturated?)
  {
    var stop, start := Ascending(ToStop(cfg, links, req)), Ascending(Target(cfg, req) - links.dials);
    AscendingLists(ToStop(cfg, links, req));
    AscendingLists(Target(cfg, req) - links.dials);
    hide Ascending, ToStop, Target, HowStopped;
    var stops, starts := Stops(cfg, req, stop), Starts(start);
    assert ReconcileEffects(cfg, links, req) == stops + starts;
    assert forall i :: 0 <= i < |stops| ==> stops[i].Stopped? && stops[i].device == stop[i];
    assert forall i :: 0 <= i < |starts| ==> starts[i] == Started(start[i]);
  }

  /**
   * A shutdown leaves no loop and no on-demand link but remembers who is admitted, so the next
   * reconcile starts every loop it wants.
   */
  lemma ShutdownThenReconcile(cfg: Config, links: Links, req: Request, d: DeviceKey)
    requires Bounded(cfg, links)
    ensures var down := Step(cfg, links, Shutdown).0;
            && down == Links({}, links.active, map[])
            && (Started(d) in ReconcileEffects(cfg, down, req) <==> d in Reconciled(cfg, down, req).dials)
            && (Stopped(d, LinkDropped) !in ReconcileEffects(cfg, down, req))
  {
    StepBounded(cfg, links, Shutdown);
    assert !cfg.overlay ==> |links.onDemand| == 0;
    TeardownsExactly(cfg, Step(cfg, links, Shutdown).0, req, d);
    hide ReconcileEffects, Reconciled;
  }

  // ---------------------------------------------------------------------------
  // Pulls are delivered, waiting, reported, or went down with their link
  // ---------------------------------------------------------------------------

  /** The frames waiting for the running on-demand task of a device. */
  function Waiting(links: Links, d: DeviceKey): nat {
    if d in links.onDemand && !links.onDemand[d].finished then links.onDemand[d].pending else 0
  }

  /** The channel of the device is closed or full, or it has none and eight others run. */
  predicate Refuses(links: Links, d: DeviceKey) {
    var running := set x | x in links.onDemand && !links.onDemand[x].finished;
    if d in running then links.onDemand[d].closed || links.onDemand[d].pending >= 16 else |running| >= 8
  }

  /**
   * A pull toward an admitted device is put in line for that device, or, exactly when there is no
   * place for it, reported and nothing changes; nobody else's line moves either way.
   */
  lemma PullIsKeptOrReported(links: Links, d: DeviceKey)
    requires d in links.active
    ensures var (next, effects) := Routed(links, d, true);
            && (if Refuses(links, d) then effects == [Saturated(d)] && Waiting(next, d) == Waiting(links, d)
                else effects == [] && Waiting(next, d) == Waiting(links, d) + 1)
            && (forall x :: x != d ==> Waiting(next, x) == Waiting(links, x))
            && next.dials == links.dials && next.active == links.active
  {
    var live := Live(links.onDemand);
    var running := set x | x in links.onDemand && !links.onDemand[x].finished;
    assert live.Keys == running && |live| == |live.Keys|;
  }

  /** Only pulls toward admitted devices are routed on demand. */
  lemma OthersAreNotRouted(links: Links, d: DeviceKey, isPull: bool)
    requires !isPull || d !in links.active
    ensures Routed(links, d, isPull) == (links, [])
  {}

  /** Pulls routed toward a device while the latest reconcile admitted it. */
  function Pulls(cfg: Config, ops: seq<Op>, d: DeviceKey): nat {
    if ops == [] then 0
    else
      var before := ops[..|ops| - 1];
      Pulls(cfg, before, d)
      + if cfg.overlay && ops[|ops| - 1] == Route(d, true) && LastAdmitted(cfg, before, d) then 1 else 0
  }

  function Reports(effects: seq<Effect>, d: DeviceKey): nat { multiset(effects)[Saturated(d)] }

  /** Frames the device's tasks received. */
  function Taken(cfg: Config, ops: seq<Op>, d: DeviceKey): nat {
    if ops == [] then 0
    else
      var before := ops[..|ops| - 1];
      Taken(cfg, before, d)
      + if ops[|ops| - 1] == TaskTakes(d) && Waiting(After(cfg, before), d) > 0 then 1 else 0
  }

  /** Whether a step ends the device's on-demand link. */
  predicate EndsLink(cfg: Config, op: Op, d: DeviceKey) {
    match op
    case TaskEnds(device) => device == d
    case Shutdown => cfg.overlay
    case Reconcile(req) => !MayLink(cfg, req, d)
    case _ => false
  }

  /** Frames that were still waiting when their link ended. */
  function Lost(cfg: Config, ops: seq<Op>, d: DeviceKey): nat {
    if ops == [] then 0
    else
      var before := ops[..|ops| - 1];
      Lost(cfg, before, d) + if EndsLink(cfg, ops[|ops| - 1], d) then Waiting(After(cfg, before), d) else 0
  }

  /** How one step moves the line of one device. */
  lemma StepMovesLine(cfg: Config, links: Links, op: Op, d: DeviceKey)
    requires Bounded(cfg, links)
    ensures var (next, effects) := Step(cfg, links, op);
            Waiting(next, d) + Reports(effects, d)
            + (if op == TaskTakes(d) && Waiting(links, d) > 0 then 1 else 0)
            + (if EndsLink(cfg, op, d) then Waiting(links, d) else 0)
            == Waiting(links, d) + if cfg.overlay && op == Route(d, true) && d in links.active then 1 else 0
  {
    match op
    case Reconcile(req) =>
      ReconcileLeaves(cfg, links, req, d);
      NoReports(cfg, links, req, d);
      hide ReconcileEffects, Reconciled, MayLink, Bounded;
    case Route(device, isPull) =>
      if cfg.overlay {
        if isPull && device in links.active {
          PullIsKeptOrReported(links, device);
        } else {
          OthersAreNotRouted(links, device, isPull);
        }
      }
      hide Routed, Refuses, Bounded;
    case _ =>
  }

  lemma NoReports(cfg: Config, links: Links, req: Request, d: DeviceKey)
    ensures Reports(ReconcileEffects(cfg, links, req), d) == 0
  {
    EffectsAreDistinct(cfg, links, req);
    hide ReconcileEffects;
    assert Saturated(d) !in ReconcileEffects(cfg, links, req);
  }

  /**
   * No pull disappears silently: over every run, what was routed toward a device while it was
   * admitted was reported as refused, or taken by the device's task, or is still waiting, or was
   * waiting when the link was ended.
   */
  lemma {:induction false} PullsAreAccountedFor(cfg: Config, ops: seq<Op>, d: DeviceKey)
    ensures Pulls(cfg, ops, d)
            == Reports(Effects(cfg, ops), d) + Taken(cfg, ops, d) + Waiting(After(cfg, ops), d) + Lost(cfg, ops, d)
  {
    if ops != [] {
      var before, op := ops[..|ops| - 1], ops[|ops| - 1];
      PullsAreAccountedFor(cfg, before, d);
      RunsAreBounded(cfg, before);
      ActiveIsLastAdmitted(cfg, before, d);
      StepMovesLine(cfg, After(cfg, before), op, d);
      hide Step, Bounded, LastAdmitted, EndsLink, Waiting;
      ReportsAdd(Effects(cfg, before), Step(cfg, After(cfg, before), op).1, d);
    }
  }

  lemma ReportsAdd(a: seq<Effect>, b: seq<Effect>, d: DeviceKey)
    ensures Reports(a + b, d) == Reports(a, d) + Reports(b, d)
  {}
}

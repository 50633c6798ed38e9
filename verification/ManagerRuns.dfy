/**
 * Whole runs of the link manager of crates/iroh-rooms-net/src/manager.rs: who is torn down when,
 * what stays bounded, and that reconciling twice does nothing the second time.
 */
module ManagerRuns {
  import opened OrderedSets
  import opened Membership
  import opened Seeds
  import opened PeerManagers

  /** The calls on a manager, and the steps its on-demand tasks take by themselves. */
  datatype Op =
    | Reconcile(req: Request)
    | Route(device: DeviceKey, isPull: bool)
    | Shutdown
    | TaskCloses(device: DeviceKey)
    | TaskEnds(device: DeviceKey)
    | TaskTakes(device: DeviceKey)

  function Step(cfg: Config, links: Links, op: Op): (Links, seq<Effect>) {
    match op
    case Reconcile(req) => (Reconciled(cfg, links, req), ReconcileEffects(cfg, links, req))
    case Route(device, isPull) => if cfg.overlay then Routed(links, device, isPull) else (links, [])
    case Shutdown => (links.(dials := {}, onDemand := if cfg.overlay then map[] else links.onDemand), [])
    case TaskCloses(device) => (OnEntry(links, device, (e: Entry) => e.(closed := true)), [])
    case TaskEnds(device) => (OnEntry(links, device, (e: Entry) => e.(closed := true, finished := true)), [])
    case TaskTakes(device) => (OnEntry(links, device, TakeOne), [])
  }

  /** A running task receives the next frame from its channel. */
  function TakeOne(e: Entry): Entry {
    if e.pending > 0 && !e.finished then e.(pending := e.pending - 1) else e
  }

  function OnEntry(links: Links, device: DeviceKey, change: Entry -> Entry): Links {
    if device in links.onDemand
    then links.(onDemand := links.onDemand[device := change(links.onDemand[device])]) else links
  }

  function After(cfg: Config, ops: seq<Op>): Links {
    if ops == [] then NO_LINKS else Step(cfg, After(cfg, ops[..|ops| - 1]), ops[|ops| - 1]).0
  }

  function Effects(cfg: Config, ops: seq<Op>): seq<Effect> {
    if ops == [] then []
    else Effects(cfg, ops[..|ops| - 1]) + Step(cfg, After(cfg, ops[..|ops| - 1]), ops[|ops| - 1]).1
  }

  // ---------------------------------------------------------------------------
  // What every run keeps
  // ---------------------------------------------------------------------------

  /** The caps on links and channels. */
  predicate LinkCaps(cfg: Config, links: Links) {
    && (cfg.overlay ==> |links.dials| <= GOSSIP_BOOTSTRAP_SEEDS + 1)
    && |links.onDemand| <= (if cfg.overlay then MAX_ON_DEMAND_LINKS else 0)
    && forall d :: d in links.onDemand ==> links.onDemand[d].pending <= ON_DEMAND_PENDING_FRAMES
  }

  /** The caps, and dial loops only toward admitted devices. */
  predicate WithinCaps(cfg: Config, links: Links) {
    links.dials <= links.active && LinkCaps(cfg, links)
  }

  /** On-demand links only toward admitted devices, too. */
  predicate Bounded(cfg: Config, links: Links) {
    WithinCaps(cfg, links) && links.onDemand.Keys <= links.active
  }

  lemma TargetBounded(cfg: Config, req: Request)
    ensures Target(cfg, req) <= AdmittedLinks(cfg, req)
    ensures cfg.overlay ==> |Target(cfg, req)| <= GOSSIP_BOOTSTRAP_SEEDS + 1
  {
    hide SeedsOf, AdmittedLinks;
    var seeds := SeedsOf(cfg.valid, req.snapshot, cfg.self);
    SeedsAreBounded(cfg.valid, req.snapshot, cfg.self);
    SubsetCount(seeds * AdmittedLinks(cfg, req), seeds);
  }

  lemma ReconcileCapped(cfg: Config, links: Links, req: Request)
    requires WithinCaps(cfg, links)
    ensures WithinCaps(cfg, Reconciled(cfg, links, req))
    ensures Reconciled(cfg, links, req).onDemand.Keys <= Reconciled(cfg, links, req).active
  {
    hide AdmittedLinks, Target;
    TargetBounded(cfg, req);
    var rest := links.onDemand - Stale(cfg, links, req);
    KeysCount(rest, links.onDemand);
    assert !cfg.overlay ==> links.onDemand.Keys == {};
  }

  lemma KeysCount(a: map<DeviceKey, Entry>, b: map<DeviceKey, Entry>)
    requires a.Keys <= b.Keys
    ensures |a| <= |b|
  {
    SubsetCount(a.Keys, b.Keys);
    assert |a.Keys| == |a| && |b.Keys| == |b|;
  }

  lemma KeysInsert(a: map<DeviceKey, Entry>, d: DeviceKey, e: Entry)
    ensures |a[d := e]| == |a| + if d in a then 0 else 1
  {
    assert a[d := e].Keys == a.Keys + {d};
    assert |a.Keys| == |a| && |a[d := e].Keys| == |a[d := e]|;
  }

  lemma EnqueueCapped(cfg: Config, links: Links, device: DeviceKey)
    requires cfg.overlay && LinkCaps(cfg, links)
    ensures LinkCaps(cfg, Enqueued(links, device).0)
    ensures Enqueued(links, device).0.onDemand.Keys <= links.onDemand.Keys + {device}
    ensures Enqueued(links, device).0.active == links.active && Enqueued(links, device).0.dials == links.dials
  {
    var live := Live(links.onDemand);
    KeysCount(live, links.onDemand);
    if device in live {
      KeysInsert(live, device, live[device].(pending := live[device].pending + 1));
    } else {
      KeysInsert(live, device, Entry(1, false, false));
    }
  }

  lemma EntryCapped(cfg: Config, links: Links, device: DeviceKey, change: Entry -> Entry)
    requires LinkCaps(cfg, links) && forall e :: change(e).pending <= e.pending
    ensures LinkCaps(cfg, OnEntry(links, device, change))
    ensures OnEntry(links, device, change).onDemand.Keys == links.onDemand.Keys
    ensures OnEntry(links, device, change).active == links.active
    ensures OnEntry(links, device, change).dials == links.dials
  {
    if device in links.onDemand {
      KeysInsert(links.onDemand, device, change(links.onDemand[device]));
    }
  }

  lemma ShutdownCapped(cfg: Config, links: Links)
    requires LinkCaps(cfg, links)
    ensures LinkCaps(cfg, links.(dials := {}, onDemand := if cfg.overlay then map[] else links.onDemand))
  {}

  /** Every step but a reconcile keeps the caps, starts no dial loop and adds no link but an admitted one. */
  lemma OtherStepCapped(cfg: Config, links: Links, op: Op)
    requires LinkCaps(cfg, links) && !op.Reconcile?
    ensures var next := Step(cfg, links, op).0;
            && LinkCaps(cfg, next) && next.active == links.active && next.dials <= links.dials
            && next.onDemand.Keys <= links.onDemand.Keys + links.active
  {
    hide LinkCaps, Enqueued, OnEntry;
    match op
    case Route(device, isPull) => if cfg.overlay { EnqueueCapped(cfg, links, device); }
    case Shutdown => ShutdownCapped(cfg, links);
    case TaskCloses(device) => EntryCapped(cfg, links, device, (e: Entry) => e.(closed := true));
    case TaskEnds(device) => EntryCapped(cfg, links, device, (e: Entry) => e.(closed := true, finished := true));
    case TaskTakes(device) => EntryCapped(cfg, links, device, TakeOne);
  }

  /** Every step keeps the caps, and on-demand links within the admitted set if they were. */
  lemma StepCapped(cfg: Config, links: Links, op: Op)
    requires WithinCaps(cfg, links)
    ensures WithinCaps(cfg, Step(cfg, links, op).0)
    ensures links.onDemand.Keys <= links.active
            ==> Step(cfg, links, op).0.onDemand.Keys <= Step(cfg, links, op).0.active
  {
    if op.Reconcile? {
      hide LinkCaps, Reconciled, ReconcileEffects;
      ReconcileCapped(cfg, links, op.req);
    } else {
      OtherStepCapped(cfg, links, op);
      hide LinkCaps, Step;
    }
  }

  lemma StepBounded(cfg: Config, links: Links, op: Op)
    requires Bounded(cfg, links)
    ensures Bounded(cfg, Step(cfg, links, op).0)
  {
    hide Step, WithinCaps;
    assert WithinCaps(cfg, links);
    StepCapped(cfg, links, op);
  }

  /** Warm links, on-demand links and their channels stay bounded over every serialised run. */
  lemma {:induction false} RunsAreBounded(cfg: Config, ops: seq<Op>)
    ensures Bounded(cfg, After(cfg, ops))
  {
    if ops != [] {
      hide Bounded, Step;
      RunsAreBounded(cfg, ops[..|ops| - 1]);
      StepBounded(cfg, After(cfg, ops[..|ops| - 1]), ops[|ops| - 1]);
    }
  }

  // ---------------------------------------------------------------------------
  // Teardowns of one reconcile
  // ---------------------------------------------------------------------------

  /** How often a device is deauthorized in a list of effects. */
  function Deauthorizations(effects: seq<Effect>, d: DeviceKey): nat {
    if effects == [] then 0
    else Deauthorizations(effects[..|effects| - 1], d)
         + match effects[|effects| - 1]
           case Stopped(device, how) => if device == d && how != LinkDropped then 1 else 0
           case _ => 0
  }

  /** How often a device loses its warm link while still admitted. */
  function Drops(effects: seq<Effect>, d: DeviceKey): nat {
    if effects == [] then 0
    else Drops(effects[..|effects| - 1], d) + if effects[|effects| - 1] == Stopped(d, LinkDropped) then 1 else 0
  }

  lemma {:induction false} CountsAdd(a: seq<Effect>, b: seq<Effect>, d: DeviceKey)
    ensures Deauthorizations(a + b, d) == Deauthorizations(a, d) + Deauthorizations(b, d)
    ensures Drops(a + b, d) == Drops(a, d) + Drops(b, d)
    decreases |b|
  {
    if b == [] {
      assert a + b == a;
    } else {
      var n := |b| - 1;
      assert (a + b)[..|a + b| - 1] == a + b[..n];
      assert (a + b)[|a + b| - 1] == b[n];
      CountsAdd(a, b[..n], d);
    }
  }

  lemma {:induction false} StartsTearNothingDown(devices: seq<DeviceKey>, d: DeviceKey)
    ensures Deauthorizations(Starts(devices), d) == 0 && Drops(Starts(devices), d) == 0
  {
    if devices != [] {
      var n := |devices| - 1;
      assert Starts(devices)[..n] == Starts(devices[..n]);
      StartsTearNothingDown(devices[..n], d);
    }
  }

  lemma StopsSnoc(cfg: Config, req: Request, devices: seq<DeviceKey>, d: DeviceKey)
    ensures Stops(cfg, req, devices + [d]) == Stops(cfg, req, devices) + [Stopped(d, HowStopped(cfg, req, d))]
  {}

  lemma CountSnoc(effects: seq<Effect>, e: Effect, d: DeviceKey)
    ensures Deauthorizations(effects + [e], d)
            == Deauthorizations(effects, d) + if e.Stopped? && e.device == d && e.how != LinkDropped then 1 else 0
    ensures Drops(effects + [e], d) == Drops(effects, d) + if e == Stopped(d, LinkDropped) then 1 else 0
  {
    assert (effects + [e])[..|effects + [e]| - 1] == effects;
  }

  lemma {:induction false} StopsTearDown(cfg: Config, req: Request, devices: seq<DeviceKey>, d: DeviceKey)
    requires StrictlySorted(devices)
    ensures Deauthorizations(Stops(cfg, req, devices), d)
            == if d in devices && HowStopped(cfg, req, d) != LinkDropped then 1 else 0
    ensures Drops(Stops(cfg, req, devices), d)
            == if d in devices && HowStopped(cfg, req, d) == LinkDropped then 1 else 0
  {
    if devices != [] {
      hide HowStopped, Stops, Deauthorizations, Drops;
      var n := |devices| - 1;
      var last := devices[n];
      assert devices == devices[..n] + [last];
      assert last !in devices[..n];
      StopsTearDown(cfg, req, devices[..n], d);
      StopsSnoc(cfg, req, devices[..n], last);
      CountSnoc(Stops(cfg, req, devices[..n]), Stopped(last, HowStopped(cfg, req, last)), d);
    }
  }

  /**
   * One reconcile: a device is deauthorized once if it was admitted before and is not now, and
   * otherwise not at all; a still-admitted device is dropped only in an overlay build and only
   * when it stops being a seed; no dial target is touched.
   */
  lemma ReconcileTearsDownExactly(cfg: Config, links: Links, req: Request, d: DeviceKey)
    requires Bounded(cfg, links)
    ensures var effects := ReconcileEffects(cfg, links, req);
            && Deauthorizations(effects, d) == (if d in links.active && d !in AdmittedLinks(cfg, req) then 1 else 0)
            && Drops(effects, d) == (if cfg.overlay && d in links.dials && d in AdmittedLinks(cfg, req)
                                        && d !in SeedsOf(cfg.valid, req.snapshot, cfg.self) then 1 else 0)
            && (d in Target(cfg, req) ==> Deauthorizations(effects, d) == 0 && Drops(effects, d) == 0)
  {
    hide AdmittedLinks, MemberLinks, SeedsOf, Stops, StartsOver, Ascending;
    StoppedCounts(cfg, links, req, d);
  }

  lemma StoppedCounts(cfg: Config, links: Links, req: Request, d: DeviceKey)
    ensures var effects := ReconcileEffects(cfg, links, req);
            && Deauthorizations(effects, d)
               == (if d in ToStop(cfg, links, req) && d !in AdmittedLinks(cfg, req) then 1 else 0)
            && Drops(effects, d)
               == (if d in ToStop(cfg, links, req) && d in AdmittedLinks(cfg, req) then 1 else 0)
  {
    hide AdmittedLinks, MemberLinks, SeedsOf, Stops, Starts, Ascending, ToStop, Target, Deauthorizations, Drops;
    var stops := Ascending(ToStop(cfg, links, req));
    AscendingLists(ToStop(cfg, links, req));
    StopsTearDown(cfg, req, stops, d);
    StartsTearNothingDown(Ascending(Target(cfg, req) - links.dials), d);
    CountsAdd(Stops(cfg, req, stops), StartsOver(Target(cfg, req), links.dials), d);
  }

  /** In the default build nobody is dropped while still admitted, whatever state came before. */
  lemma DefaultBuildNeverDrops(cfg: Config, links: Links, req: Request, d: DeviceKey)
    requires !cfg.overlay
    ensures Drops(ReconcileEffects(cfg, links, req), d) == 0
  {
    hide AdmittedLinks, ReconcileEffects, Drops, Deauthorizations;
    StoppedCounts(cfg, links, req, d);
  }

  // ---------------------------------------------------------------------------
  // Teardowns over runs
  // ---------------------------------------------------------------------------

  /** Whether the latest reconcile admitted a device. */
  predicate LastAdmitted(cfg: Config, ops: seq<Op>, d: DeviceKey) {
    ops != [] &&
    match ops[|ops| - 1]
    case Reconcile(req) => d in AdmittedLinks(cfg, req)
    case _ => LastAdmitted(cfg, ops[..|ops| - 1], d)
  }

  /** How often a reconcile that admitted a device is followed by one that does not. */
  function Falls(cfg: Config, ops: seq<Op>, d: DeviceKey): nat {
    if ops == [] then 0
    else
      var before := ops[..|ops| - 1];
      Falls(cfg, before, d)
      + match ops[|ops| - 1]
        case Reconcile(req) => if LastAdmitted(cfg, before, d) && d !in AdmittedLinks(cfg, req) then 1 else 0
        case _ => 0
  }

  lemma {:induction false} ActiveIsLastAdmitted(cfg: Config, ops: seq<Op>, d: DeviceKey)
    ensures d in After(cfg, ops).active <==> LastAdmitted(cfg, ops, d)
  {
    hide AdmittedLinks, ReconcileEffects, Target, Stale;
    if ops != [] {
      ActiveIsLastAdmitted(cfg, ops[..|ops| - 1], d);
    }
  }

  lemma OnlyReconcileTearsDown(cfg: Config, links: Links, op: Op, d: DeviceKey)
    requires !op.Reconcile?
    ensures Deauthorizations(Step(cfg, links, op).1, d) == 0 && Drops(Step(cfg, links, op).1, d) == 0
  {
    hide Live;
  }

  /**
   * Revocation over every run and every build: a device is deauthorized exactly as often as its
   * admission lapses between two successive reconciles, dialed or not; so once per lapse, and
   * not again before it is readmitted.
   */
  lemma {:induction false} DeauthorizedOncePerLapse(cfg: Config, ops: seq<Op>, d: DeviceKey)
    ensures Deauthorizations(Effects(cfg, ops), d) == Falls(cfg, ops, d)
  {
    if ops != [] {
      var before, op := ops[..|ops| - 1], ops[|ops| - 1];
      DeauthorizedOncePerLapse(cfg, before, d);
      RunsAreBounded(cfg, before);
      ActiveIsLastAdmitted(cfg, before, d);
      CountsAdd(Effects(cfg, before), Step(cfg, After(cfg, before), op).1, d);
      if op.Reconcile? {
        ReconcileTearsDownExactly(cfg, After(cfg, before), op.req, d);
      } else {
        OnlyReconcileTearsDown(cfg, After(cfg, before), op, d);
      }
      hide ReconcileEffects, Reconciled, Routed, AdmittedLinks, Bounded, LastAdmitted, Deauthorizations, Drops;
    }
  }

  /** A reconcile that does not admit a device does not drop it either. */
  lemma NotDroppedUnadmitted(cfg: Config, links: Links, op: Op, d: DeviceKey)
    requires op.Reconcile? ==> d !in AdmittedLinks(cfg, op.req)
    ensures Drops(Step(cfg, links, op).1, d) == 0
  {
    hide ReconcileEffects, Routed, AdmittedLinks, Drops, Deauthorizations;
    if op.Reconcile? {
      StoppedCounts(cfg, links, op.req, d);
    } else {
      OnlyReconcileTearsDown(cfg, links, op, d);
    }
  }

  /** Between a lapse and a readmission a device is neither deauthorized nor dropped. */
  lemma {:induction false} LeftAloneUntilReadmitted(cfg: Config, first: seq<Op>, more: seq<Op>, d: DeviceKey)
    requires !LastAdmitted(cfg, first, d)
    requires forall op <- more :: op.Reconcile? ==> d !in AdmittedLinks(cfg, op.req)
    ensures Deauthorizations(Effects(cfg, first + more), d) == Deauthorizations(Effects(cfg, first), d)
    ensures Drops(Effects(cfg, first + more), d) == Drops(Effects(cfg, first), d)
    ensures !LastAdmitted(cfg, first + more, d)
    decreases |more|
  {
    hide Effects, AdmittedLinks, Deauthorizations, Drops, LastAdmitted;
    if more == [] {
      assert first + more == first;
    } else {
      var n := |more| - 1;
      assert more[n] in more;
      LeftAloneUntilReadmitted(cfg, first, more[..n], d);
      LeftAloneOnce(cfg, first + more[..n], more[n], d);
      assert first + more == (first + more[..n]) + [more[n]];
    }
  }

  lemma LeftAloneOnce(cfg: Config, before: seq<Op>, op: Op, d: DeviceKey)
    requires !LastAdmitted(cfg, before, d) && (op.Reconcile? ==> d !in AdmittedLinks(cfg, op.req))
    ensures Deauthorizations(Effects(cfg, before + [op]), d) == Deauthorizations(Effects(cfg, before), d)
    ensures Drops(Effects(cfg, before + [op]), d) == Drops(Effects(cfg, before), d)
    ensures !LastAdmitted(cfg, before + [op], d)
  {
    DeauthorizedOncePerLapse(cfg, before, d);
    DeauthorizedOncePerLapse(cfg, before + [op], d);
    NotDroppedUnadmitted(cfg, After(cfg, before), op, d);
    assert (before + [op])[..|before + [op]| - 1] == before;
    hide Step, AdmittedLinks, Deauthorizations, Drops;
    CountsAdd(Effects(cfg, before), Step(cfg, After(cfg, before), op).1, d);
  }

  // ---------------------------------------------------------------------------
  // Convergence
  // ---------------------------------------------------------------------------

  /** From any state, a repeated reconcile changes nothing, starts nothing and stops nothing. */
  lemma RepeatIsQuiet(cfg: Config, links: Links, req: Request)
    ensures var once := Reconciled(cfg, links, req);
            Reconciled(cfg, once, req) == once && ReconcileEffects(cfg, once, req) == []
  {
    hide AdmittedLinks, SeedsOf;
    var once := Reconciled(cfg, links, req);
    assert once.onDemand.Keys == links.onDemand.Keys - Stale(cfg, links, req);
    assert Stale(cfg, once, req) == {};
    assert once.onDemand - {} == once.onDemand;
    assert ToStop(cfg, once, req) == {};
    assert Target(cfg, req) - once.dials == {};
  }
}

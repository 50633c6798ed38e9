/**
 * The locks of crates/iroh-rooms-net/src/manager.rs taken one by one. A reconcile replaces the
 * admitted set, then clears the on-demand links, then works on the dial loops, each under its own
 * lock; a route checks the admitted set, lets go, and only then touches the on-demand links. What
 * survives every interleaving, and what a race costs.
 */
module ManagerRaces {
  import opened Prelude
  import opened OrderedSets
  import opened Membership
  import opened Seeds
  import opened PeerManagers
  import opened ManagerRuns

  /** Where the reconcile in progress stands, with the sets it has computed so far. */
  datatype Phase =
    | Resting
    | Replaced(req: Request, revoked: set<DeviceKey>)
    | Cleared(req: Request, revoked: set<DeviceKey>, stale: set<DeviceKey>)

  /** The links, the reconcile in progress, and the routes that passed their check and have not finished. */
  datatype System = System(links: Links, phase: Phase, checked: multiset<DeviceKey>)

  const IDLE := System(NO_LINKS, Resting, multiset{})

  datatype Move =
    | ReplaceActive(req: Request)      // reconcile, first lock: the admitted set
    | ClearOnDemand                    // reconcile, second lock: the on-demand links
    | WorkDials                        // reconcile, third lock: teardowns and starts
    | CheckRoute(device: DeviceKey)    // route, first lock
    | FinishRoute(device: DeviceKey)   // route, second lock
    | Other(op: Op)                    // a shutdown, a step of an on-demand task, a route in one go

  /** Reconciles follow one another; a route that fails its check is over. */
  predicate Enabled(cfg: Config, s: System, m: Move) {
    match m
    case ReplaceActive(_) => s.phase.Resting?
    case ClearOnDemand => s.phase.Replaced?
    case WorkDials => s.phase.Cleared?
    case CheckRoute(device) => cfg.overlay && device in s.links.active
    case FinishRoute(device) => cfg.overlay && device in s.checked
    case Other(op) => !op.Reconcile?
  }

  function Next(cfg: Config, s: System, m: Move): (System, seq<Effect>)
    requires Enabled(cfg, s, m)
  {
    match m
    case ReplaceActive(req) =>
      var admitted := AdmittedLinks(cfg, req);
      (s.(links := s.links.(active := admitted), phase := Replaced(req, s.links.active - admitted)), [])
    case ClearOnDemand =>
      var stale := Stale(cfg, s.links, s.phase.req);
      (s.(links := s.links.(onDemand := s.links.onDemand - stale),
          phase := Cleared(s.phase.req, s.phase.revoked, stale)), [])
    case WorkDials =>
      var req := s.phase.req;
      (s.(links := s.links.(dials := Target(cfg, req)), phase := Resting), DialEffects(cfg, s.links.dials, s.phase))
    case CheckRoute(device) => (s.(checked := s.checked + multiset{device}), [])
    case FinishRoute(device) =>
      (s.(links := Enqueued(s.links, device).0, checked := s.checked - multiset{device}), Enqueued(s.links, device).1)
    case Other(op) => (s.(links := Step(cfg, s.links, op).0), Step(cfg, s.links, op).1)
  }

  /** What the third lock of a reconcile stops. */
  function ToStopLate(cfg: Config, dials: set<DeviceKey>, phase: Phase): set<DeviceKey>
    requires phase.Cleared?
  {
    (dials - Target(cfg, phase.req)) + phase.revoked + phase.stale
  }

  function DialEffects(cfg: Config, dials: set<DeviceKey>, phase: Phase): seq<Effect>
    requires phase.Cleared?
  {
    Stops(cfg, phase.req, Ascending(ToStopLate(cfg, dials, phase))) + StartsOver(Target(cfg, phase.req), dials)
  }

  /** The system after the moves, if each could be made. */
  function Reached(cfg: Config, moves: seq<Move>): Option<System> {
    if moves == [] then Some(IDLE)
    else
      match Reached(cfg, moves[..|moves| - 1])
      case None => None
      case Some(s) => if Enabled(cfg, s, moves[|moves| - 1]) then Some(Next(cfg, s, moves[|moves| - 1]).0) else None
  }

  function EffectsOf(cfg: Config, moves: seq<Move>): seq<Effect> {
    if moves == [] then []
    else
      var before, m := moves[..|moves| - 1], moves[|moves| - 1];
      match Reached(cfg, before)
      case None => []
      case Some(s) => if Enabled(cfg, s, m) then EffectsOf(cfg, before) + Next(cfg, s, m).1 else []
  }

  /** With nothing in between, the three locks make up one reconcile. */
  lemma PhasesCompose(cfg: Config, links: Links, req: Request, checked: multiset<DeviceKey>)
    ensures var one := Next(cfg, System(links, Resting, checked), ReplaceActive(req)).0;
            var two := Next(cfg, one, ClearOnDemand).0;
            && Next(cfg, two, WorkDials).0 == System(Reconciled(cfg, links, req), Resting, checked)
            && Next(cfg, two, WorkDials).1 == ReconcileEffects(cfg, links, req)
  {
    hide AdmittedLinks, Target, Stops, StartsOver, Ascending;
    var one := Next(cfg, System(links, Resting, checked), ReplaceActive(req)).0;
    var two := Next(cfg, one, ClearOnDemand).0;
    assert two.phase.stale == Stale(cfg, links, req);
    assert ToStopLate(cfg, two.links.dials, two.phase) == ToStop(cfg, links, req);
  }

  // ---------------------------------------------------------------------------
  // What no interleaving breaks
  // ---------------------------------------------------------------------------

  /** What the reconcile in progress has computed: the set it installed, and whom it must tear down. */
  predicate PhaseHolds(cfg: Config, s: System) {
    match s.phase
    case Resting => s.links.dials <= s.links.active
    case Replaced(req, revoked) =>
      && s.links.active == AdmittedLinks(cfg, req) && revoked !! s.links.active
      && s.links.dials <= s.links.active + revoked
    case Cleared(req, revoked, stale) =>
      && s.links.active == AdmittedLinks(cfg, req) && revoked !! s.links.active
      && s.links.dials <= s.links.active + revoked
      && stale !! s.links.active && (!cfg.overlay ==> stale == {})
  }

  predicate Sound(cfg: Config, s: System) {
    LinkCaps(cfg, s.links) && PhaseHolds(cfg, s)
  }

  lemma ClearKeeps(cfg: Config, links: Links, stale: set<DeviceKey>)
    requires LinkCaps(cfg, links)
    ensures LinkCaps(cfg, links.(onDemand := links.onDemand - stale))
  {
    KeysCount(links.onDemand - stale, links.onDemand);
  }

  lemma NextIsSound(cfg: Config, s: System, m: Move)
    requires Sound(cfg, s) && Enabled(cfg, s, m)
    ensures Sound(cfg, Next(cfg, s, m).0)
  {
    hide AdmittedLinks, Target, DialEffects, Step, Enqueued, LinkCaps;
    match m
    case ReplaceActive(req) => CapsIgnoreActive(cfg, s.links, AdmittedLinks(cfg, req));
    case ClearOnDemand => ClearKeeps(cfg, s.links, Stale(cfg, s.links, s.phase.req));
    case WorkDials =>
      TargetBounded(cfg, s.phase.req);
      CapsOfTarget(cfg, s.links, Target(cfg, s.phase.req));
    case CheckRoute(_) =>
    case FinishRoute(device) => EnqueueCapped(cfg, s.links, device);
    case Other(op) => OtherStepCapped(cfg, s.links, op);
  }

  lemma CapsIgnoreActive(cfg: Config, links: Links, active: set<DeviceKey>)
    requires LinkCaps(cfg, links)
    ensures LinkCaps(cfg, links.(active := active))
  {}

  lemma CapsOfTarget(cfg: Config, links: Links, target: set<DeviceKey>)
    requires LinkCaps(cfg, links) && (cfg.overlay ==> |target| <= GOSSIP_BOOTSTRAP_SEEDS + 1)
    ensures LinkCaps(cfg, links.(dials := target))
  {}

  /** The caps on links and channels hold in every interleaving of the locks. */
  lemma {:induction false} CapsSurviveRaces(cfg: Config, moves: seq<Move>)
    ensures Reached(cfg, moves).Some? ==> Sound(cfg, Reached(cfg, moves).value)
  {
    if moves == [] {
    } else {
      hide Sound, Next, Enabled;
      CapsSurviveRaces(cfg, moves[..|moves| - 1]);
      var before := Reached(cfg, moves[..|moves| - 1]);
      if before.Some? && Enabled(cfg, before.value, moves[|moves| - 1]) {
        NextIsSound(cfg, before.value, moves[|moves| - 1]);
      }
    }
  }

  /** The second lock of a reconcile leaves on-demand links only toward admitted devices. */
  lemma ClearRepairs(cfg: Config, s: System)
    requires Sound(cfg, s) && s.phase.Replaced?
    ensures var next := Next(cfg, s, ClearOnDemand).0; next.links.onDemand.Keys <= next.links.active
  {
    hide AdmittedLinks;
    assert !cfg.overlay ==> s.links.onDemand.Keys == {};
  }

  // ---------------------------------------------------------------------------
  // What a race costs
  // ---------------------------------------------------------------------------

  /** The reconciles carried through, in order. */
  function Reconciles(cfg: Config, moves: seq<Move>): seq<Op> {
    if moves == [] then []
    else
      var before, m := moves[..|moves| - 1], moves[|moves| - 1];
      Reconciles(cfg, before)
      + match Reached(cfg, before)
        case None => []
        case Some(s) => if m.WorkDials? && s.phase.Cleared? then [Reconcile(s.phase.req)] else []
  }

  /**
   * How often a reconcile finds an on-demand link to a device that neither the reconcile before
   * it nor it itself admits: a link some route opened after its device was revoked.
   */
  function Strays(cfg: Config, moves: seq<Move>, d: DeviceKey): nat {
    if moves == [] then 0
    else
      var before, m := moves[..|moves| - 1], moves[|moves| - 1];
      Strays(cfg, before, d)
      + match Reached(cfg, before)
        case None => 0
        case Some(s) => if IsStray(s, m, d) then 1 else 0
  }

  predicate IsStray(s: System, m: Move, d: DeviceKey) {
    m.WorkDials? && s.phase.Cleared? && d in s.phase.stale && d !in s.phase.revoked
  }

  /** The state agrees with the reconciles carried through about who was admitted last. */
  predicate Tracks(cfg: Config, s: System, done: seq<Op>, d: DeviceKey) {
    match s.phase
    case Resting => d in s.links.active <==> LastAdmitted(cfg, done, d)
    case Replaced(req, revoked) => d in revoked <==> LastAdmitted(cfg, done, d) && d !in AdmittedLinks(cfg, req)
    case Cleared(req, revoked, _) => d in revoked <==> LastAdmitted(cfg, done, d) && d !in AdmittedLinks(cfg, req)
  }

  lemma LastOfDone(cfg: Config, done: seq<Op>, req: Request, d: DeviceKey)
    ensures LastAdmitted(cfg, done + [Reconcile(req)], d) <==> d in AdmittedLinks(cfg, req)
    ensures Falls(cfg, done + [Reconcile(req)], d)
            == Falls(cfg, done, d) + if LastAdmitted(cfg, done, d) && d !in AdmittedLinks(cfg, req) then 1 else 0
  {
    hide AdmittedLinks;
    assert (done + [Reconcile(req)])[..|done + [Reconcile(req)]| - 1] == done;
  }

  /** What one move adds to the reconciles carried through. */
  function Done(s: System, m: Move): seq<Op> {
    if m.WorkDials? && s.phase.Cleared? then [Reconcile(s.phase.req)] else []
  }

  lemma NextTracks(cfg: Config, s: System, m: Move, done: seq<Op>, d: DeviceKey)
    requires Sound(cfg, s) && Enabled(cfg, s, m) && Tracks(cfg, s, done, d)
    ensures Tracks(cfg, Next(cfg, s, m).0, done + Done(s, m), d)
  {
    hide AdmittedLinks, Target, DialEffects, Step, Enqueued, LinkCaps, LastAdmitted, Falls;
    assert done + [] == done;
    match m
    case WorkDials => LastOfDone(cfg, done, s.phase.req, d);
    case FinishRoute(device) => EnqueueCapped(cfg, s.links, device);
    case Other(op) => OtherStepCapped(cfg, s.links, op);
    case _ =>
  }

  lemma {:induction false} HistoryTracks(cfg: Config, moves: seq<Move>, d: DeviceKey)
    ensures Reached(cfg, moves).Some? ==> Tracks(cfg, Reached(cfg, moves).value, Reconciles(cfg, moves), d)
  {
    hide AdmittedLinks, Next, Enabled, Sound;
    if moves != [] {
      var before, m := moves[..|moves| - 1], moves[|moves| - 1];
      HistoryTracks(cfg, before, d);
      CapsSurviveRaces(cfg, before);
      if Reached(cfg, before).Some? && Enabled(cfg, Reached(cfg, before).value, m) {
        hide Tracks;
        NextTracks(cfg, Reached(cfg, before).value, m, Reconciles(cfg, before), d);
      }
    }
  }

  /** The third lock deauthorizes whom the first found revoked, and whom only the second found linked. */
  lemma DialEffectsCount(cfg: Config, s: System, d: DeviceKey)
    requires PhaseHolds(cfg, s) && s.phase.Cleared?
    ensures Deauthorizations(DialEffects(cfg, s.links.dials, s.phase), d)
            == (if d in s.phase.revoked then 1 else 0) + (if IsStray(s, WorkDials, d) then 1 else 0)
  {
    var dials, phase := s.links.dials, s.phase;
    var stops := ToStopLate(cfg, dials, phase);
    assert d in stops && d !in AdmittedLinks(cfg, phase.req) <==> d in phase.revoked || d in phase.stale by {
      hide AdmittedLinks, SeedsOf;
    }
    hide AdmittedLinks, MemberLinks, Target, Stops, Starts, Ascending, ToStopLate, Deauthorizations, Drops;
    AscendingLists(stops);
    StopsTearDown(cfg, phase.req, Ascending(stops), d);
    StartsTearNothingDown(Ascending(Target(cfg, phase.req) - dials), d);
    CountsAdd(Stops(cfg, phase.req, Ascending(stops)), StartsOver(Target(cfg, phase.req), dials), d);
  }

  lemma OneMove(cfg: Config, s: System, m: Move, d: DeviceKey)
    requires Sound(cfg, s) && Enabled(cfg, s, m)
    ensures Deauthorizations(Next(cfg, s, m).1, d)
            == (if m.WorkDials? && d in s.phase.revoked then 1 else 0) + (if IsStray(s, m, d) then 1 else 0)
  {
    hide AdmittedLinks, Target, DialEffects, Live, LinkCaps;
    match m
    case WorkDials => DialEffectsCount(cfg, s, d);
    case Other(op) => OnlyReconcileTearsDown(cfg, s.links, op, d);
    case _ =>
  }

  lemma FallsOfMove(cfg: Config, s: System, m: Move, done: seq<Op>, d: DeviceKey)
    requires Enabled(cfg, s, m) && Tracks(cfg, s, done, d)
    ensures Falls(cfg, done + Done(s, m), d)
            == Falls(cfg, done, d) + if m.WorkDials? && d in s.phase.revoked then 1 else 0
  {
    hide AdmittedLinks, LastAdmitted, Falls;
    assert done + [] == done;
    if m.WorkDials? {
      LastOfDone(cfg, done, s.phase.req, d);
    }
  }

  /**
   * Revocation in every interleaving of the locks: a device is deauthorized once for each lapse
   * of its admission, and once more for each stray link a race left to a revoked device. So the
   * law of one teardown per lapse holds exactly when there is no stray.
   */
  lemma {:induction false} DeauthorizedPerLapseAndStray(cfg: Config, moves: seq<Move>, d: DeviceKey)
    requires Reached(cfg, moves).Some?
    ensures Deauthorizations(EffectsOf(cfg, moves), d) == Falls(cfg, Reconciles(cfg, moves), d) + Strays(cfg, moves, d)
  {
    if moves != [] {
      var before, m := moves[..|moves| - 1], moves[|moves| - 1];
      var s := Reached(cfg, before).value;
      hide AdmittedLinks, Next, Enabled, Sound, Tracks, Deauthorizations, Drops, Falls, IsStray;
      DeauthorizedPerLapseAndStray(cfg, before, d);
      CapsSurviveRaces(cfg, before);
      HistoryTracks(cfg, before, d);
      FallsOfMove(cfg, s, m, Reconciles(cfg, before), d);
      OneMove(cfg, s, m, d);
      CountsAdd(EffectsOf(cfg, before), Next(cfg, s, m).1, d);
    }
  }

  // ---------------------------------------------------------------------------
  // When there is a stray
  // ---------------------------------------------------------------------------

  /** At the second lock of every route to `d` the check of the first would still pass. */
  predicate ChecksStillPass(cfg: Config, moves: seq<Move>, d: DeviceKey) {
    moves == [] ||
    (var before, m := moves[..|moves| - 1], moves[|moves| - 1];
     && ChecksStillPass(cfg, before, d)
     && (m == FinishRoute(d) && Reached(cfg, before).Some? ==> d in Reached(cfg, before).value.links.active))
  }

  /** Every link to `d` is toward an admitted device, or one the reconcile in progress is tearing down. */
  predicate Owned(s: System, d: DeviceKey) {
    && (d in s.links.onDemand ==> d in s.links.active || (s.phase.Replaced? && d in s.phase.revoked))
    && (s.phase.Cleared? && d in s.phase.stale ==> d in s.phase.revoked)
  }

  lemma FinishTouchesOne(links: Links, device: DeviceKey, d: DeviceKey)
    ensures d in Enqueued(links, device).0.onDemand ==> d in links.onDemand || d == device
    ensures Enqueued(links, device).0.active == links.active
  {}

  lemma NextOwned(cfg: Config, s: System, m: Move, d: DeviceKey)
    requires Sound(cfg, s) && Enabled(cfg, s, m) && Owned(s, d)
    requires m == FinishRoute(d) ==> d in s.links.active
    ensures Owned(Next(cfg, s, m).0, d) && !IsStray(s, m, d)
  {
    hide AdmittedLinks, Target, DialEffects, Step, Enqueued;
    match m
    case FinishRoute(device) => FinishTouchesOne(s.links, device, d);
    case Other(op) => OtherStepCapped(cfg, s.links, op);
    case ClearOnDemand => ClearRepairs(cfg, s);
    case _ =>
  }

  /** If every check would still pass at the second lock, no link is ever a stray. */
  lemma {:induction false} NoRaceNoStray(cfg: Config, moves: seq<Move>, d: DeviceKey)
    requires Reached(cfg, moves).Some? && ChecksStillPass(cfg, moves, d)
    ensures Owned(Reached(cfg, moves).value, d) && Strays(cfg, moves, d) == 0
  {
    if moves != [] {
      hide AdmittedLinks, Next, Enabled, Sound, IsStray;
      var before, m := moves[..|moves| - 1], moves[|moves| - 1];
      NoRaceNoStray(cfg, before, d);
      CapsSurviveRaces(cfg, before);
      NextOwned(cfg, Reached(cfg, before).value, m, d);
    }
  }

  // ---------------------------------------------------------------------------
  // A race
  // ---------------------------------------------------------------------------

  lemma ReachedNext(cfg: Config, moves: seq<Move>, m: Move)
    requires Reached(cfg, moves).Some? && Enabled(cfg, Reached(cfg, moves).value, m)
    ensures Reached(cfg, moves + [m]) == Some(Next(cfg, Reached(cfg, moves).value, m).0)
  {
    hide Next, Enabled;
    assert (moves + [m])[..|moves + [m]| - 1] == moves;
  }

  lemma ReachedNothing(cfg: Config)
    ensures Reached(cfg, []) == Some(IDLE)
  {}

  /** A reconcile admits the device and a route to it passes its check. */
  function CheckedRoute(admitting: Request, d: DeviceKey): seq<Move> {
    [] + [ReplaceActive(admitting)] + [ClearOnDemand] + [WorkDials] + [CheckRoute(d)]
  }

  /** The route finishes while the next reconcile, which revokes the device, is between two locks. */
  function LateFinish(admitting: Request, revoking: Request, d: DeviceKey): seq<Move> {
    CheckedRoute(admitting, d) + [ReplaceActive(revoking)] + [ClearOnDemand] + [FinishRoute(d)] + [WorkDials]
  }

  /** The same reconcile once more, up to its third lock. */
  function NextTime(admitting: Request, revoking: Request, d: DeviceKey): seq<Move> {
    LateFinish(admitting, revoking, d) + [ReplaceActive(revoking)] + [ClearOnDemand]
  }

  lemma CheckedRouteRuns(cfg: Config, admitting: Request, d: DeviceKey)
    requires cfg.overlay && d in AdmittedLinks(cfg, admitting)
    ensures var r := Reached(cfg, CheckedRoute(admitting, d));
            && r.Some? && r.value.phase.Resting? && d in r.value.checked && r.value.links.onDemand == map[]
  {
    hide Reached, AdmittedLinks, Target, DialEffects;
    ReachedNothing(cfg);
    var one := [] + [ReplaceActive(admitting)];
    ReachedNext(cfg, [], ReplaceActive(admitting));
    ReachedNext(cfg, one, ClearOnDemand);
    ReachedNext(cfg, one + [ClearOnDemand], WorkDials);
    ReachedNext(cfg, one + [ClearOnDemand] + [WorkDials], CheckRoute(d));
  }

  lemma LateFinishRuns(cfg: Config, admitting: Request, revoking: Request, d: DeviceKey)
    requires cfg.overlay && d in AdmittedLinks(cfg, admitting) && d !in AdmittedLinks(cfg, revoking)
    ensures var r := Reached(cfg, LateFinish(admitting, revoking, d));
            && r.Some? && r.value.phase.Resting? && r.value.links.active == AdmittedLinks(cfg, revoking)
            && d in r.value.links.onDemand
  {
    hide Reached, AdmittedLinks, Target, DialEffects, Enqueued, CheckedRoute;
    var first := CheckedRoute(admitting, d);
    CheckedRouteRuns(cfg, admitting, d);
    ReachedNext(cfg, first, ReplaceActive(revoking));
    var two := first + [ReplaceActive(revoking)];
    ReachedNext(cfg, two, ClearOnDemand);
    var three := two + [ClearOnDemand];
    ReachedNext(cfg, three, FinishRoute(d));
    FinishOpens(Reached(cfg, three).value.links, d);
    ReachedNext(cfg, three + [FinishRoute(d)], WorkDials);
  }

  lemma FinishOpens(links: Links, d: DeviceKey)
    requires links.onDemand == map[]
    ensures d in Enqueued(links, d).0.onDemand && Enqueued(links, d).0.active == links.active
  {
    assert Live(links.onDemand) == map[];
  }

  lemma NextTimeRuns(cfg: Config, admitting: Request, revoking: Request, d: DeviceKey)
    requires cfg.overlay && d in AdmittedLinks(cfg, admitting) && d !in AdmittedLinks(cfg, revoking)
    ensures var r := Reached(cfg, NextTime(admitting, revoking, d));
            r.Some? && Enabled(cfg, r.value, WorkDials) && IsStray(r.value, WorkDials, d)
  {
    hide Reached, AdmittedLinks, Target, DialEffects, LateFinish;
    var first := LateFinish(admitting, revoking, d);
    LateFinishRuns(cfg, admitting, revoking, d);
    ReachedNext(cfg, first, ReplaceActive(revoking));
    ReachedNext(cfg, first + [ReplaceActive(revoking)], ClearOnDemand);
  }

  /** In this race a device is deauthorized more often than its admission lapsed. */
  lemma RaceTearsDownTwice(cfg: Config, admitting: Request, revoking: Request, d: DeviceKey)
    requires cfg.overlay && d in AdmittedLinks(cfg, admitting) && d !in AdmittedLinks(cfg, revoking)
    ensures var moves := NextTime(admitting, revoking, d) + [WorkDials];
            && Reached(cfg, moves).Some?
            && Deauthorizations(EffectsOf(cfg, moves), d) > Falls(cfg, Reconciles(cfg, moves), d)
  {
    var before := NextTime(admitting, revoking, d);
    var moves := before + [WorkDials];
    NextTimeRuns(cfg, admitting, revoking, d);
    ReachedNext(cfg, before, WorkDials);
    hide EffectsOf, Falls, Reconciles, Deauthorizations, AdmittedLinks, IsStray, Next, Enabled, NextTime;
    DeauthorizedPerLapseAndStray(cfg, moves, d);
    assert moves[..|moves| - 1] == before;
  }
}

/**
 * The outbound link manager of crates/iroh-rooms-net/src/manager.rs: reconciling the running
 * dial loops with a membership snapshot, tearing revoked peers down, and the bounded on-demand
 * links. Spawned tasks, table writes and audit entries are the recorded effects.
 */
module PeerManagers {
  import opened OrderedSets
  import opened Membership
  import opened Seeds

  const MAX_ON_DEMAND_LINKS: nat := 8
  const ON_DEMAND_PENDING_FRAMES: nat := 16

  /** A dropped warm link, a receipt-bearing removal, an immediate deauthorization. */
  datatype Teardown = LinkDropped | Terminal | Closed

  datatype Effect =
    | Started(device: DeviceKey)
    | Stopped(device: DeviceKey, how: Teardown)
    | Saturated(device: DeviceKey)

  /** An on-demand link: frames waiting in its channel, receiving end gone, task ended. */
  datatype Entry = Entry(pending: nat, closed: bool, finished: bool)

  datatype Links = Links(dials: set<DeviceKey>, active: set<DeviceKey>, onDemand: map<DeviceKey, Entry>)

  const NO_LINKS := Links({}, {}, map[])

  /** The build and the node: whether the gossip overlay is compiled in, and the node's own device. */
  datatype Config = Config(overlay: bool, self: DeviceKey, valid: DeviceKey -> bool)

  /** One reconcile: the snapshot, and the admission gate when it is enforced. */
  datatype Request = Request(snapshot: Snapshot, enforce: bool, admits: DeviceKey -> bool)

  // ---------------------------------------------------------------------------
  // Reconcile
  // ---------------------------------------------------------------------------

  function MemberLinks(cfg: Config, req: Request): set<DeviceKey> {
    ActiveDevices(cfg.valid, req.snapshot) - {cfg.self}
  }

  function AdmittedLinks(cfg: Config, req: Request): set<DeviceKey> {
    if req.enforce then set d | d in MemberLinks(cfg, req) && req.admits(d) else MemberLinks(cfg, req)
  }

  /** The devices to keep a warm dial loop for. */
  function Target(cfg: Config, req: Request): set<DeviceKey> {
    if cfg.overlay then SeedsOf(cfg.valid, req.snapshot, cfg.self) * AdmittedLinks(cfg, req)
    else AdmittedLinks(cfg, req)
  }

  function Stale(cfg: Config, links: Links, req: Request): set<DeviceKey> {
    if cfg.overlay then links.onDemand.Keys - AdmittedLinks(cfg, req) else {}
  }

  function ToStop(cfg: Config, links: Links, req: Request): set<DeviceKey> {
    (links.dials - Target(cfg, req)) + (links.active - AdmittedLinks(cfg, req)) + Stale(cfg, links, req)
  }

  function HowStopped(cfg: Config, req: Request, device: DeviceKey): Teardown {
    if device in AdmittedLinks(cfg, req) then LinkDropped
    else if req.enforce && device !in MemberLinks(cfg, req) then Terminal
    else Closed
  }

  function Stops(cfg: Config, req: Request, devices: seq<DeviceKey>): (e: seq<Effect>)
    ensures |e| == |devices|
  {
    seq(|devices|, i requires 0 <= i < |devices| => Stopped(devices[i], HowStopped(cfg, req, devices[i])))
  }

  function Starts(devices: seq<DeviceKey>): (e: seq<Effect>)
    ensures |e| == |devices|
  {
    seq(|devices|, i requires 0 <= i < |devices| => Started(devices[i]))
  }

  function Reconciled(cfg: Config, links: Links, req: Request): Links {
    Links(Target(cfg, req), AdmittedLinks(cfg, req), links.onDemand - Stale(cfg, links, req))
  }

  function ReconcileEffects(cfg: Config, links: Links, req: Request): seq<Effect> {
    Stops(cfg, req, Ascending(ToStop(cfg, links, req))) + StartsOver(Target(cfg, req), links.dials)
  }

  /** A start for each target that is not being dialed, in device order. */
  function StartsOver(target: set<DeviceKey>, dials: set<DeviceKey>): seq<Effect> {
    Starts(Ascending(target - dials))
  }

  // ---------------------------------------------------------------------------
  // On-demand links
  // ---------------------------------------------------------------------------

  function Live(onDemand: map<DeviceKey, Entry>): map<DeviceKey, Entry> {
    map d | d in onDemand && !onDemand[d].finished :: onDemand[d]
  }

  /** A frame for an on-demand link: into its channel, or into a new one while there are slots. */
  function Enqueued(links: Links, device: DeviceKey): (Links, seq<Effect>) {
    var live := Live(links.onDemand);
    if device in live then
      if !live[device].closed && live[device].pending < ON_DEMAND_PENDING_FRAMES
      then (links.(onDemand := live[device := live[device].(pending := live[device].pending + 1)]), [])
      else (links.(onDemand := live), [Saturated(device)])
    else if |live| >= MAX_ON_DEMAND_LINKS then (links.(onDemand := live), [Saturated(device)])
    else (links.(onDemand := live[device := Entry(1, false, false)]), [])
  }

  /** A targeted pull toward an admitted peer with no warm link. */
  function Routed(links: Links, device: DeviceKey, isPull: bool): (Links, seq<Effect>) {
    if !isPull || device !in links.active then (links, []) else Enqueued(links, device)
  }

  class PeerManager {
    const cfg: Config
    var dials: set<DeviceKey>
    var activeLinks: set<DeviceKey>
    var onDemand: map<DeviceKey, Entry>
    var effects: seq<Effect>

    function State(): Links
      reads this
    {
      Links(dials, activeLinks, onDemand)
    }

    constructor (cfg: Config)
      ensures this.cfg == cfg && State() == NO_LINKS && effects == []
    {
      this.cfg := cfg;
      dials, activeLinks, onDemand, effects := {}, {}, map[], [];
    }

    /** Stops every loop and link that is no longer wanted, in device order. */
    method StopAll(req: Request, toStop: set<DeviceKey>, admitted: set<DeviceKey>, members: set<DeviceKey>)
      requires admitted == AdmittedLinks(cfg, req) && members == MemberLinks(cfg, req)
      modifies this`dials, this`effects
      ensures dials == old(dials) - toStop
      ensures effects == old(effects) + Stops(cfg, req, Ascending(toStop))
    {
      hide AdmittedLinks, MemberLinks, Ascending;
      var devices := Ascending(toStop);
      AscendingLists(toStop);
      var k := 0;
      while k < |devices|
        invariant 0 <= k <= |devices|
        invariant dials == old(dials) - SetOf(devices[..k])
        invariant effects == old(effects) + Stops(cfg, req, devices[..k])
      {
        SetOfNext(devices, k);
        var device := devices[k];
        dials := dials - {device};
        var how := if device in admitted then LinkDropped
                   else if req.enforce && device !in members then Terminal
                   else Closed;
        assert Stops(cfg, req, devices[..k + 1]) == Stops(cfg, req, devices[..k]) + [Stopped(device, how)];
        effects := effects + [Stopped(device, how)];
        k := k + 1;
      }
      assert devices[..k] == devices;
      SetOfAll(devices, toStop);
    }

    /** Starts a loop for every wanted device that has none, in device order. */
    method StartAll(target: set<DeviceKey>)
      modifies this`dials, this`effects
      ensures dials == old(dials) + target
      ensures effects == old(effects) + StartsOver(target, old(dials))
    {
      hide Ascending, StartsOver, SetOf;
      var devices := Ascending(target);
      AscendingLists(target);
      SetOfAll([], {});
      StartsNothing(old(dials));
      var k := 0;
      while k < |devices|
        invariant 0 <= k <= |devices|
        invariant dials == old(dials) + SetOf(devices[..k])
        invariant effects == old(effects) + StartsOver(SetOf(devices[..k]), old(dials))
      {
        SetOfNext(devices, k);
        var device := devices[k];
        StartsNext(SetOf(devices[..k]), old(dials), device);
        if device !in dials {
          effects := effects + [Started(device)];
          dials := dials + {device};
        }
        k := k + 1;
      }
      assert devices[..k] == devices;
      SetOfAll(devices, target);
    }

    /** The members' devices, the admitted ones, and the ones to dial. */
    method Plan(req: Request) returns (members: set<DeviceKey>, admitted: set<DeviceKey>, target: set<DeviceKey>)
      requires WellKeyed(req.snapshot)
      ensures members == MemberLinks(cfg, req) && admitted == AdmittedLinks(cfg, req) && target == Target(cfg, req)
    {
      hide SeedsOf, ActiveDevices;
      members := DesiredDevices(cfg.valid, req.snapshot, cfg.self);
      admitted := if req.enforce then set d | d in members && req.admits(d) else members;
      target := admitted;
      if cfg.overlay {
        var seeds := DesiredSeeds(cfg.valid, req.snapshot, cfg.self);
        target := seeds * admitted;
      }
    }

    method Reconcile(req: Request)
      requires WellKeyed(req.snapshot)
      modifies this
      ensures State() == old(Reconciled(cfg, State(), req))
      ensures effects == old(effects) + old(ReconcileEffects(cfg, State(), req))
    {
      hide MemberLinks, AdmittedLinks, Target, ToStop, Stops, StartsOver, Ascending;
      ghost var was := State();
      var members, admitted, target := Plan(req);
      var revoked := activeLinks - admitted;
      activeLinks := admitted;
      var stale := DropStale(admitted);
      assert stale == Stale(cfg, was, req);
      hide Stale;
      StopsMissTargets(cfg, was, req);
      var toStop := (dials - target) + revoked + stale;
      StopAll(req, toStop, admitted, members);
      StartsMissing(target, was.dials, toStop);
      StartAll(target);
      Append(old(effects), Stops(cfg, req, Ascending(toStop)), StartsOver(target, was.dials));
    }

    /** On-demand links toward devices that are no longer admitted go, one after the other. */
    method DropStale(admitted: set<DeviceKey>) returns (stale: set<DeviceKey>)
      modifies this`onDemand
      ensures stale == if cfg.overlay then old(onDemand.Keys) - admitted else {}
      ensures onDemand == old(onDemand) - stale
    {
      stale := {};
      if cfg.overlay {
        var keys := onDemand.Keys;
        while keys != {}
          invariant keys <= old(onDemand.Keys) && stale == old(onDemand.Keys) - keys - admitted
          invariant onDemand == old(onDemand) - stale
          decreases keys
        {
          var device :| device in keys;
          if device !in admitted {
            stale := stale + {device};
            onDemand := onDemand - {device};
          }
          keys := keys - {device};
        }
      }
      assert old(onDemand) - {} == old(onDemand);
    }

    /** The two halves of a route take two locks: the admitted set first, the links second. */
    method RouteOnDemand(device: DeviceKey, isPull: bool)
      requires cfg.overlay
      modifies this`onDemand, this`effects
      ensures State() == old(Routed(State(), device, isPull).0)
      ensures effects == old(effects) + old(Routed(State(), device, isPull).1)
    {
      if !isPull || device !in activeLinks {
        assert effects + [] == effects;
        return;
      }
      EnqueueOnDemand(device);
    }

    method EnqueueOnDemand(device: DeviceKey)
      requires cfg.overlay
      modifies this`onDemand, this`effects
      ensures State() == old(Enqueued(State(), device).0)
      ensures effects == old(effects) + old(Enqueued(State(), device).1)
    {
      onDemand := map d | d in onDemand && !onDemand[d].finished :: onDemand[d];
      assert effects + [] == effects;
      if device in onDemand {
        var entry := onDemand[device];
        if !entry.closed && entry.pending < ON_DEMAND_PENDING_FRAMES {
          onDemand := onDemand[device := entry.(pending := entry.pending + 1)];
        } else {
          effects := effects + [Saturated(device)];
        }
        return;
      }
      if |onDemand| >= MAX_ON_DEMAND_LINKS {
        effects := effects + [Saturated(device)];
        return;
      }
      onDemand := onDemand[device := Entry(1, false, false)];
    }

    method Shutdown()
      modifies this`dials, this`onDemand
      ensures State() == old(State()).(dials := {}, onDemand := if cfg.overlay then map[] else old(onDemand))
    {
      dials := {};
      if cfg.overlay {
        onDemand := map[];
      }
    }
  }

  /** What is stopped is never a target. */
  lemma StopsMissTargets(cfg: Config, links: Links, req: Request)
    ensures ToStop(cfg, links, req)
            == (links.dials - Target(cfg, req)) + (links.active - AdmittedLinks(cfg, req)) + Stale(cfg, links, req)
    ensures ToStop(cfg, links, req) * Target(cfg, req) == {}
    ensures (links.dials - ToStop(cfg, links, req)) + Target(cfg, req) == Target(cfg, req)
  {
    hide AdmittedLinks;
  }

  lemma Append(a: seq<Effect>, b: seq<Effect>, c: seq<Effect>)
    ensures (a + b) + c == a + (b + c)
  {}

  lemma StartsMissing(target: set<DeviceKey>, dials: set<DeviceKey>, toStop: set<DeviceKey>)
    requires toStop * target == {}
    ensures StartsOver(target, dials - toStop) == StartsOver(target, dials)
  {
    assert target - (dials - toStop) == target - dials by {
      forall d | d in target ensures d !in toStop {
        assert d in toStop <==> d in toStop * target;
      }
    }
  }

  lemma StartsNothing(dials: set<DeviceKey>)
    ensures StartsOver({}, dials) == []
  {
    assert {} - dials == {};
  }

  /** Devices are started in ascending order, so the next one comes last. */
  lemma StartsNext(seen: set<DeviceKey>, dials: set<DeviceKey>, device: DeviceKey)
    requires forall x :: x in seen ==> x < device
    ensures StartsOver(seen + {device}, dials)
            == StartsOver(seen, dials) + if device in dials then [] else [Started(device)]
  {
    hide Ascending, Starts;
    if device in dials {
      assert seen + {device} - dials == seen - dials;
    } else {
      assert seen + {device} - dials == (seen - dials) + {device};
      AscendingSnoc(seen - dials, device);
      StartsSnoc(Ascending(seen - dials), device);
    }
  }

  lemma StartsSnoc(devices: seq<DeviceKey>, device: DeviceKey)
    ensures Starts(devices + [device]) == Starts(devices) + [Started(device)]
  {}

  lemma {:induction false} AscendingSnoc(s: set<nat>, x: nat)
    requires forall y :: y in s ==> y < x
    ensures Ascending(s + {x}) == Ascending(s) + [x]
    decreases |s|
  {
    if s == {} {
      assert s + {x} == {x};
      assert Least({x}) == x && {x} - {x} == {};
      assert Ascending({x}) == [x] + Ascending({});
    } else {
      var m := Least(s);
      assert Least(s + {x}) == m;
      assert (s + {x}) - {m} == (s - {m}) + {x};
      AscendingSnoc(s - {m}, x);
    }
  }
}

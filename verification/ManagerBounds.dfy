/**
 * The link bounds of crates/iroh-rooms-net/src/manager.rs are met: a run that keeps K + 1 warm
 * links and eight on-demand links to as many different devices.
 */
module ManagerBounds {
  import opened Prelude
  import opened OrderedSets
  import opened Membership
  import opened Seeds
  import opened PeerManagers
  import opened ManagerRuns

  /** `n` successive numbers from `low` on. */
  function Range(low: nat, n: nat): (r: set<nat>)
    ensures |r| == n && forall x :: x in r <==> low <= x < low + n
  {
    if n == 0 then {} else Range(low, n - 1) + {low + n - 1}
  }

  /** Fourteen active members on the devices of their own numbers; the admin is the highest, the node the lowest. */
  function Crowd(): Snapshot {
    Snapshot(Some(13),
             map id | id in Range(0, 14) :: Member(id, Some(id), Active, if id == 13 then AdminRole else MemberRole),
             map id | id in Range(0, 14) :: id)
  }

  const EVERY_KEY: DeviceKey -> bool := _ => true

  const CROWDED := Config(true, 0, EVERY_KEY)

  const CROWD_REQUEST := Request(Crowd(), false, EVERY_KEY)

  lemma CrowdDevices()
    ensures ActiveDevices(EVERY_KEY, Crowd()) == Range(0, 14)
    ensures AdminDevice(EVERY_KEY, Crowd()) == Some(13)
  {
    hide Range;
    var s := Crowd();
    forall d ensures d in ActiveDevices(EVERY_KEY, s) <==> d in Range(0, 14) {
      if d in Range(0, 14) {
        assert IsDialable(EVERY_KEY, s, d);
      }
    }
  }

  /** Three devices below are too many for a seed that is not the admin's. */
  lemma HighDevice(d: nat)
    requires 4 <= d <= 13
    ensures d !in Lowest(GOSSIP_BOOTSTRAP_SEEDS, Range(1, 13))
  {
    hide Range;
    SubsetCount({1, 2, 3}, Below(Range(1, 13), d));
  }

  lemma CrowdSeeds()
    ensures |SeedsOf(EVERY_KEY, Crowd(), 0)| == GOSSIP_BOOTSTRAP_SEEDS + 1
    ensures SeedsOf(EVERY_KEY, Crowd(), 0) <= Range(1, 13)
    ensures forall d <- Range(4, 8) :: d !in SeedsOf(EVERY_KEY, Crowd(), 0)
  {
    hide ActiveDevices, AdminDevice, Lowest, Range, Crowd;
    CrowdDevices();
    assert Range(0, 14) - {0} == Range(1, 13);
    HighDevice(13);
    SeedBoundIsMetExactly(EVERY_KEY, Crowd(), 0);
    SeedsAreBounded(EVERY_KEY, Crowd(), 0);
    forall d <- Range(4, 8) ensures d !in SeedsOf(EVERY_KEY, Crowd(), 0) {
      HighDevice(d);
    }
  }

  lemma CrowdPlan()
    ensures AdmittedLinks(CROWDED, CROWD_REQUEST) == Range(1, 13)
    ensures Target(CROWDED, CROWD_REQUEST) == SeedsOf(EVERY_KEY, Crowd(), 0)
  {
    hide ActiveDevices, SeedsOf, Range, Crowd;
    CrowdDevices();
    CrowdSeeds();
    assert Range(0, 14) - {0} == Range(1, 13);
  }

  // ---------------------------------------------------------------------------
  // The run
  // ---------------------------------------------------------------------------

  /** One reconcile, then a pull toward each of `n` devices from the fourth on. */
  function Pulls(n: nat): seq<Op> {
    if n == 0 then [Reconcile(CROWD_REQUEST)] else Pulls(n - 1) + [Route(n + 3, true)]
  }

  function PulledLinks(n: nat): (m: map<DeviceKey, Entry>)
    ensures m.Keys == Range(4, n)
  {
    map d | d in Range(4, n) :: Entry(1, false, false)
  }

  lemma PullOpensOne(links: Links, n: nat)
    requires n < MAX_ON_DEMAND_LINKS && links.onDemand == PulledLinks(n) && n + 4 in links.active
    ensures Routed(links, n + 4, true).0 == links.(onDemand := PulledLinks(n + 1))
  {
    var live := Live(PulledLinks(n));
    assert live == PulledLinks(n);
    assert |PulledLinks(n)| == |PulledLinks(n).Keys| == n;
    assert PulledLinks(n + 1) == PulledLinks(n)[n + 4 := Entry(1, false, false)];
  }

  lemma {:induction false} PullsOpen(n: nat)
    requires n <= MAX_ON_DEMAND_LINKS
    ensures After(CROWDED, Pulls(n)) == Links(SeedsOf(EVERY_KEY, Crowd(), 0), Range(1, 13), PulledLinks(n))
  {
    hide Range, Crowd, SeedsOf, AdmittedLinks, Target, ReconcileEffects, Routed, PulledLinks;
    var ops := Pulls(n);
    if n == 0 {
      CrowdPlan();
      assert ops[..|ops| - 1] == [];
      assert PulledLinks(0) == map[] by { assert PulledLinks(0).Keys == Range(4, 0) == {}; }
      assert NO_LINKS.onDemand - Stale(CROWDED, NO_LINKS, CROWD_REQUEST) == map[];
    } else {
      PullsOpen(n - 1);
      assert ops[..|ops| - 1] == Pulls(n - 1);
      PullOpensOne(After(CROWDED, Pulls(n - 1)), n - 1);
    }
  }

  /** The run holds one more link than K + 8, to as many different devices. */
  lemma BoundsAreMet()
    ensures var links := After(CROWDED, Pulls(MAX_ON_DEMAND_LINKS));
            && links.dials !! links.onDemand.Keys
            && |links.dials| + |links.onDemand| == GOSSIP_BOOTSTRAP_SEEDS + 1 + MAX_ON_DEMAND_LINKS
  {
    CrowdSeeds();
    PullsOpen(MAX_ON_DEMAND_LINKS);
    hide Range, Crowd, SeedsOf, After, PulledLinks;
    var links := After(CROWDED, Pulls(MAX_ON_DEMAND_LINKS));
    assert |links.onDemand| == |links.onDemand.Keys|;
  }
}

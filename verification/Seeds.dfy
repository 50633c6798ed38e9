/**
 * The outbound dial targets of crates/iroh-rooms-net/src/manager.rs: every active device (full
 * mesh), or the bounded seed set the gossip overlay bootstraps from; and when the overlay graph
 * those seeds span survives the loss of devices.
 */
module Seeds {
  import opened Prelude
  import opened OrderedSets
  import opened Membership

  const GOSSIP_BOOTSTRAP_SEEDS: nat := 3

  // ---------------------------------------------------------------------------
  // The sets
  // ---------------------------------------------------------------------------

  /** The validly keyed devices bound to active members. */
  function ActiveDevices(valid: DeviceKey -> bool, s: Snapshot): set<DeviceKey> {
    DevicesAmong(valid, s, s.members.Keys)
  }

  function DevicesAmong(valid: DeviceKey -> bool, s: Snapshot, ids: set<IdentityKey>): set<DeviceKey> {
    set id | id in ids && IsDialable(valid, s, id) :: s.members[id].device.value
  }

  predicate IsDialable(valid: DeviceKey -> bool, s: Snapshot, id: IdentityKey) {
    id in s.members && s.members[id].status.Active? && s.members[id].device.Some? && valid(s.members[id].device.value)
  }

  /** The dialable device of the admin, if the admin is active. */
  function AdminDevice(valid: DeviceKey -> bool, s: Snapshot): Option<DeviceKey> {
    if s.admin.Some? && IsDialable(valid, s, s.admin.value) then s.members[s.admin.value].device else None
  }

  /** The elements with fewer than `k` others below them. */
  function Lowest(k: nat, s: set<nat>): set<nat> {
    set x | x in s && |Below(s, x)| < k
  }

  function Below(s: set<nat>, x: nat): set<nat> {
    set y | y in s && y < x
  }

  function SeedsOf(valid: DeviceKey -> bool, s: Snapshot, self: DeviceKey): set<DeviceKey> {
    Lowest(GOSSIP_BOOTSTRAP_SEEDS, ActiveDevices(valid, s) - {self}) + AdminSeed(valid, s, self)
  }

  function AdminSeed(valid: DeviceKey -> bool, s: Snapshot, self: DeviceKey): set<DeviceKey> {
    match AdminDevice(valid, s)
    case Some(d) => {d} - {self}
    case None => {}
  }

  // ---------------------------------------------------------------------------
  // Lowest is a prefix of the ascending order
  // ---------------------------------------------------------------------------

  lemma BelowIsPrefix(s: set<nat>, i: nat)
    requires i < |s|
    ensures Below(s, Ascending(s)[i]) == SetOf(Ascending(s)[..i])
    ensures |Below(s, Ascending(s)[i])| == i
  {
    AscendingLists(s);
    var r := Ascending(s);
    forall y ensures y in Below(s, r[i]) <==> y in SetOf(r[..i]) {
      if y in Below(s, r[i]) {
        var j :| 0 <= j < |r| && r[j] == y;
        assert j < i;
        assert r[..i][j] == y;
      }
    }
    SortedCount(r[..i]);
  }

  lemma {:induction false} SortedCount(r: seq<nat>)
    requires StrictlySorted(r)
    ensures |SetOf(r)| == |r|
  {
    if r == [] {
      assert SetOf(r) == {};
    } else {
      var n := |r| - 1;
      SortedCount(r[..n]);
      SetOfNext(r, n);
      assert r[..n + 1] == r;
    }
  }

  lemma PrefixHolds(r: seq<nat>, n: nat, i: nat)
    requires StrictlySorted(r) && n <= |r| && i < |r|
    ensures r[i] in SetOf(r[..n]) <==> i < n
  {
    if i < n {
      assert r[..n][i] == r[i];
    }
  }

  lemma PrefixByRank(s: set<nat>, r: seq<nat>, k: nat, n: nat)
    requires StrictlySorted(r) && |r| == |s| && n == if k < |s| then k else |s|
    requires forall x :: x in r <==> x in s
    requires forall i :: 0 <= i < |r| ==> |Below(s, r[i])| == i
    ensures SetOf(r[..n]) == Lowest(k, s)
  {
    hide Below;
    forall x ensures x in SetOf(r[..n]) <==> x in Lowest(k, s) {
      if x in r {
        var i :| 0 <= i < |r| && r[i] == x;
        PrefixHolds(r, n, i);
      }
    }
  }

  /** The first `k` elements in ascending order are the `k` lowest. */
  lemma PrefixIsLowest(s: set<nat>, k: nat)
    ensures SetOf(Ascending(s)[..if k < |s| then k else |s|]) == Lowest(k, s)
    ensures |Lowest(k, s)| == if k < |s| then k else |s|
  {
    hide Ascending, Below, Lowest, SetOf;
    AscendingLists(s);
    var r := Ascending(s);
    var n := if k < |s| then k else |s|;
    forall i | 0 <= i < |r| ensures |Below(s, r[i])| == i {
      BelowIsPrefix(s, i);
    }
    PrefixByRank(s, r, k, n);
    SortedCount(r[..n]);
  }

  // ---------------------------------------------------------------------------
  // The loops
  // ---------------------------------------------------------------------------

  function DesiredAmong(valid: DeviceKey -> bool, s: Snapshot, self: DeviceKey, ids: set<IdentityKey>): set<DeviceKey> {
    DevicesAmong(valid, s, ids) - {self}
  }

  lemma DesiredNext(valid: DeviceKey -> bool, s: Snapshot, self: DeviceKey, ids: set<IdentityKey>, id: IdentityKey)
    ensures DesiredAmong(valid, s, self, ids + {id})
            == DesiredAmong(valid, s, self, ids)
               + if IsDialable(valid, s, id) && s.members[id].device.value != self
                 then {s.members[id].device.value} else {}
  {}

  lemma DesiredStart(valid: DeviceKey -> bool, s: Snapshot, self: DeviceKey)
    ensures DesiredAmong(valid, s, self, SetOf([])) == {}
    ensures DesiredAmong(valid, s, self, s.members.Keys) == ActiveDevices(valid, s) - {self}
  {}

  method DesiredDevices(valid: DeviceKey -> bool, s: Snapshot, self: DeviceKey) returns (out: set<DeviceKey>)
    ensures out == ActiveDevices(valid, s) - {self}
  {
    hide DesiredAmong, ActiveDevices, SetOf, Ascending;
    var ids := Ascending(s.members.Keys);
    AscendingLists(s.members.Keys);
    DesiredStart(valid, s, self);
    out := {};
    var k := 0;
    while k < |ids|
      invariant 0 <= k <= |ids|
      invariant out == DesiredAmong(valid, s, self, SetOf(ids[..k]))
    {
      SetOfNext(ids, k);
      DesiredNext(valid, s, self, SetOf(ids[..k]), ids[k]);
      assert ids[k] in ids;
      var m := s.members[ids[k]];
      if m.status.Active? && m.device.Some? && valid(m.device.value) && m.device.value != self {
        out := out + {m.device.value};
      }
      k := k + 1;
    }
    assert ids[..k] == ids;
    SetOfAll(ids, s.members.Keys);
  }

  /** The admin's contribution once the members `ids` have been visited. */
  function AdminAmong(valid: DeviceKey -> bool, s: Snapshot, self: DeviceKey, ids: set<IdentityKey>): set<DeviceKey> {
    if s.admin.Some? && s.admin.value in ids && IsDialable(valid, s, s.admin.value)
    then {s.members[s.admin.value].device.value} - {self} else {}
  }

  lemma AdminNext(valid: DeviceKey -> bool, s: Snapshot, self: DeviceKey, ids: set<IdentityKey>, id: IdentityKey)
    ensures AdminAmong(valid, s, self, ids + {id})
            == AdminAmong(valid, s, self, ids)
               + if s.admin == Some(id) && IsDialable(valid, s, id) && s.members[id].device.value != self
                 then {s.members[id].device.value} else {}
  {}

  lemma AdminStart(valid: DeviceKey -> bool, s: Snapshot, self: DeviceKey)
    ensures AdminAmong(valid, s, self, SetOf([])) == {}
    ensures AdminAmong(valid, s, self, s.members.Keys) == AdminSeed(valid, s, self)
  {}

  /** The pass over the members that adds the active admin's device. */
  method AddAdmin(valid: DeviceKey -> bool, s: Snapshot, self: DeviceKey, lowest: set<DeviceKey>)
    returns (seeds: set<DeviceKey>)
    requires WellKeyed(s)
    ensures seeds == lowest + AdminSeed(valid, s, self)
  {
    hide SetOf, Ascending, AdminAmong, AdminSeed;
    seeds := lowest;
    var ids := Ascending(s.members.Keys);
    AscendingLists(s.members.Keys);
    AdminStart(valid, s, self);
    var k := 0;
    while k < |ids|
      invariant 0 <= k <= |ids|
      invariant seeds == lowest + AdminAmong(valid, s, self, SetOf(ids[..k]))
    {
      SetOfNext(ids, k);
      AdminNext(valid, s, self, SetOf(ids[..k]), ids[k]);
      assert ids[k] in ids;
      var m := s.members[ids[k]];
      if Some(m.identity) == s.admin && m.status.Active? && m.device.Some? && valid(m.device.value)
         && m.device.value != self {
        seeds := seeds + {m.device.value};
      }
      k := k + 1;
    }
    assert ids[..k] == ids;
    SetOfAll(ids, s.members.Keys);
  }

  /** The lowest devices, and the active admin's device. */
  method DesiredSeeds(valid: DeviceKey -> bool, s: Snapshot, self: DeviceKey) returns (seeds: set<DeviceKey>)
    requires WellKeyed(s)
    ensures seeds == SeedsOf(valid, s, self)
  {
    hide ActiveDevices, SetOf, Ascending, Lowest, AdminSeed;
    var desired := DesiredDevices(valid, s, self);
    PrefixIsLowest(desired, GOSSIP_BOOTSTRAP_SEEDS);
    var n := if GOSSIP_BOOTSTRAP_SEEDS < |desired| then GOSSIP_BOOTSTRAP_SEEDS else |desired|;
    seeds := SetOf(Ascending(desired)[..n]);
    seeds := AddAdmin(valid, s, self, seeds);
  }

  // ---------------------------------------------------------------------------
  // The overlay graph
  // ---------------------------------------------------------------------------

  /** An undirected link: one of the two dials the other. */
  predicate Linked(valid: DeviceKey -> bool, s: Snapshot, x: DeviceKey, y: DeviceKey) {
    x != y && (y in SeedsOf(valid, s, x) || x in SeedsOf(valid, s, y))
  }

  /** A walk inside `alive` along links. */
  ghost predicate IsPath(valid: DeviceKey -> bool, s: Snapshot, alive: set<DeviceKey>, path: seq<DeviceKey>) {
    && path != []
    && (forall d <- path :: d in alive)
    && (forall i :: 0 <= i < |path| - 1 ==> Linked(valid, s, path[i], path[i + 1]))
  }

  ghost predicate Reaches(valid: DeviceKey -> bool, s: Snapshot, alive: set<DeviceKey>, x: DeviceKey, y: DeviceKey) {
    exists path :: IsPath(valid, s, alive, path) && path[0] == x && path[|path| - 1] == y
  }

  ghost predicate Connected(valid: DeviceKey -> bool, s: Snapshot, alive: set<DeviceKey>) {
    forall x, y :: x in alive && y in alive ==> Reaches(valid, s, alive, x, y)
  }

  /** The devices everyone else dials: the lowest ones and the active admin's. */
  function Hubs(valid: DeviceKey -> bool, s: Snapshot): set<DeviceKey> {
    Lowest(GOSSIP_BOOTSTRAP_SEEDS, ActiveDevices(valid, s))
    + match AdminDevice(valid, s)
      case Some(d) => {d}
      case None => {}
  }

  lemma AdminDeviceIsActive(valid: DeviceKey -> bool, s: Snapshot)
    ensures AdminDevice(valid, s).Some? ==> AdminDevice(valid, s).value in ActiveDevices(valid, s)
  {
    if AdminDevice(valid, s).Some? {
      assert IsDialable(valid, s, s.admin.value);
    }
  }

  /** Leaving out oneself only moves others down the order. */
  lemma LowestWithout(k: nat, s: set<nat>, self: nat, x: nat)
    requires x != self
    ensures x in Lowest(k, s) ==> x in Lowest(k, s - {self})
    ensures x in Lowest(k, s - {self}) ==> x in Lowest(k, s) || self in Lowest(k, s)
  {
    SubsetCount(Below(s - {self}, x), Below(s, x));
    if self !in s {
      assert s - {self} == s;
    } else if self < x {
      SubsetCount(Below(s, self), Below(s - {self}, x));
    } else {
      assert Below(s - {self}, x) == Below(s, x);
    }
  }

  /** A link always has a hub at one end, and a hub is linked to every other active device. */
  lemma LinksMeetHubs(valid: DeviceKey -> bool, s: Snapshot, x: DeviceKey, y: DeviceKey)
    requires x in ActiveDevices(valid, s) && y in ActiveDevices(valid, s) && x != y
    ensures Linked(valid, s, x, y) <==> x in Hubs(valid, s) || y in Hubs(valid, s)
  {
    hide ActiveDevices, AdminDevice, Lowest;
    var all := ActiveDevices(valid, s);
    LowestWithout(GOSSIP_BOOTSTRAP_SEEDS, all, x, y);
    LowestWithout(GOSSIP_BOOTSTRAP_SEEDS, all, y, x);
  }

  lemma ThroughHub(valid: DeviceKey -> bool, s: Snapshot, alive: set<DeviceKey>, h: DeviceKey, x: DeviceKey,
                   y: DeviceKey)
    requires alive <= ActiveDevices(valid, s) && h in alive && h in Hubs(valid, s) && x in alive && y in alive
    ensures Reaches(valid, s, alive, x, y)
  {
    hide ActiveDevices, Hubs, Linked;
    var path := (if x == h then [x] else [x, h]) + if y == h then [] else [y];
    if x != h { LinksMeetHubs(valid, s, x, h); }
    if y != h { LinksMeetHubs(valid, s, h, y); }
    assert IsPath(valid, s, alive, path) && path[0] == x && path[|path| - 1] == y;
  }

  /**
   * Exactly when losing devices splits the overlay: what is left is connected if and only if it
   * is at most one device or still holds one of the three lowest devices or the active admin's.
   */
  lemma SurvivesExactly(valid: DeviceKey -> bool, s: Snapshot, lost: set<DeviceKey>)
    ensures var alive := ActiveDevices(valid, s) - lost;
            Connected(valid, s, alive) <==> |alive| <= 1 || alive * Hubs(valid, s) != {}
  {
    hide ActiveDevices, Hubs, Linked, IsPath;
    var alive := ActiveDevices(valid, s) - lost;
    if alive * Hubs(valid, s) != {} {
      var h :| h in alive && h in Hubs(valid, s);
      forall x, y | x in alive && y in alive ensures Reaches(valid, s, alive, x, y) {
        ThroughHub(valid, s, alive, h, x, y);
      }
    } else if |alive| <= 1 {
      forall x, y | x in alive && y in alive ensures Reaches(valid, s, alive, x, y) {
        AtMostOne(alive, x, y);
        ReachesItself(valid, s, alive, x);
      }
    } else {
      var x, y := TwoOf(alive);
      if Connected(valid, s, alive) {
        NoWayWithoutHub(valid, s, alive, x, y);
      }
    }
  }

  lemma ReachesItself(valid: DeviceKey -> bool, s: Snapshot, alive: set<DeviceKey>, x: DeviceKey)
    requires x in alive
    ensures Reaches(valid, s, alive, x, x)
  {
    var path := [x];
    assert IsPath(valid, s, alive, path) && path[|path| - 1] == x;
  }

  lemma AtMostOne(alive: set<nat>, x: nat, y: nat)
    requires |alive| <= 1 && x in alive && y in alive
    ensures x == y
  {
    SubsetCount({x, y}, alive);
  }

  lemma TwoOf(alive: set<nat>) returns (x: nat, y: nat)
    requires |alive| >= 2
    ensures x in alive && y in alive && x != y
  {
    x :| x in alive;
    assert |alive - {x}| >= 1;
    y :| y in alive - {x};
  }

  lemma NoWayWithoutHub(valid: DeviceKey -> bool, s: Snapshot, alive: set<DeviceKey>, x: DeviceKey, y: DeviceKey)
    requires alive <= ActiveDevices(valid, s) && alive * Hubs(valid, s) == {} && x in alive && y in alive && x != y
    ensures !Reaches(valid, s, alive, x, y)
  {
    hide ActiveDevices, Hubs, SeedsOf;
    forall d | d in alive ensures d !in Hubs(valid, s) {
      assert d in Hubs(valid, s) <==> d in alive * Hubs(valid, s);
    }
    forall d | d in alive ensures !Linked(valid, s, x, d) {
      if d != x {
        LinksMeetHubs(valid, s, x, d);
      }
    }
    forall path | IsPath(valid, s, alive, path) && path[0] == x ensures |path| == 1 {
      FirstLink(valid, s, alive, path);
    }
  }

  lemma FirstLink(valid: DeviceKey -> bool, s: Snapshot, alive: set<DeviceKey>, path: seq<DeviceKey>)
    requires IsPath(valid, s, alive, path)
    ensures |path| == 1 || (path[1] in alive && Linked(valid, s, path[0], path[1]))
  {}

  /** Any two devices can be lost without splitting the overlay. */
  lemma SurvivesFewLosses(valid: DeviceKey -> bool, s: Snapshot, lost: set<DeviceKey>)
    requires |lost| <= GOSSIP_BOOTSTRAP_SEEDS - 1
    ensures Connected(valid, s, ActiveDevices(valid, s) - lost)
    ensures Connected(valid, s, ActiveDevices(valid, s))
  {
    SurvivesLoss(valid, s, lost);
    SurvivesLoss(valid, s, {});
    assert ActiveDevices(valid, s) - {} == ActiveDevices(valid, s);
  }

  lemma SurvivesLoss(valid: DeviceKey -> bool, s: Snapshot, lost: set<DeviceKey>)
    requires |lost| <= GOSSIP_BOOTSTRAP_SEEDS - 1
    ensures Connected(valid, s, ActiveDevices(valid, s) - lost)
  {
    hide ActiveDevices, AdminDevice, Connected;
    var all := ActiveDevices(valid, s);
    var lowest := Lowest(GOSSIP_BOOTSTRAP_SEEDS, all);
    PrefixIsLowest(all, GOSSIP_BOOTSTRAP_SEEDS);
    SurvivesExactly(valid, s, lost);
    if lowest <= lost {
      SubsetCount(lowest, lost);
      assert lowest <= all && |lowest| == |all|;
      SameCount(lowest, all);
      assert all - lost == {};
    } else {
      var h :| h in lowest && h !in lost;
      assert h in (all - lost) * Hubs(valid, s);
    }
  }

  /** A seed set is bounded, leaves out the node itself, and holds only active devices. */
  lemma SeedsAreBounded(valid: DeviceKey -> bool, s: Snapshot, self: DeviceKey)
    ensures |SeedsOf(valid, s, self)| <= GOSSIP_BOOTSTRAP_SEEDS + 1
    ensures SeedsOf(valid, s, self) <= ActiveDevices(valid, s) - {self}
    ensures |ActiveDevices(valid, s) - {self}| <= GOSSIP_BOOTSTRAP_SEEDS
            ==> SeedsOf(valid, s, self) == ActiveDevices(valid, s) - {self}
  {
    AdminDeviceIsActive(valid, s);
    hide ActiveDevices, AdminDevice;
    var desired := ActiveDevices(valid, s) - {self};
    PrefixIsLowest(desired, GOSSIP_BOOTSTRAP_SEEDS);
    if |desired| <= GOSSIP_BOOTSTRAP_SEEDS {
      SameCount(Lowest(GOSSIP_BOOTSTRAP_SEEDS, desired), desired);
    }
  }

  // ---------------------------------------------------------------------------
  // Whose seeds agree, and how many there are
  // ---------------------------------------------------------------------------

  /** Leaving out an element that is not among the lowest changes nothing. */
  lemma LowestWithoutHigh(k: nat, s: set<nat>, self: nat)
    requires self !in Lowest(k, s)
    ensures Lowest(k, s - {self}) == Lowest(k, s)
  {
    forall x ensures x in Lowest(k, s - {self}) <==> x in Lowest(k, s) {
      if x != self {
        LowestWithout(k, s, self, x);
      }
    }
  }

  /**
   * Two nodes compute the same seeds exactly when neither of them is a hub: every hub is a seed
   * of the other node and never of itself.
   */
  lemma SameSeedsExactly(valid: DeviceKey -> bool, s: Snapshot, x: DeviceKey, y: DeviceKey)
    requires x in ActiveDevices(valid, s) && y in ActiveDevices(valid, s) && x != y
    ensures SeedsOf(valid, s, x) == SeedsOf(valid, s, y) <==> x !in Hubs(valid, s) && y !in Hubs(valid, s)
  {
    hide ActiveDevices, AdminDevice, Lowest;
    var all := ActiveDevices(valid, s);
    SeedsAreBounded(valid, s, x);
    SeedsAreBounded(valid, s, y);
    if x !in Hubs(valid, s) && y !in Hubs(valid, s) {
      LowestWithoutHigh(GOSSIP_BOOTSTRAP_SEEDS, all, x);
      LowestWithoutHigh(GOSSIP_BOOTSTRAP_SEEDS, all, y);
    } else {
      LowestWithout(GOSSIP_BOOTSTRAP_SEEDS, all, x, y);
      LowestWithout(GOSSIP_BOOTSTRAP_SEEDS, all, y, x);
      assert x in SeedsOf(valid, s, y) || y in SeedsOf(valid, s, x);
    }
  }

  /** A room of its admin and one member, each on the device that carries its own number. */
  function TwoMembers(): Snapshot {
    Snapshot(Some(1),
             map[1 := Member(1, Some(1), Active, AdminRole), 2 := Member(2, Some(2), Active, MemberRole)],
             map[1 := 1, 2 := 2])
  }

  /** In the smallest room with two nodes the nodes compute different seeds. */
  lemma TwoMembersDiffer()
    ensures SeedsOf(_ => true, TwoMembers(), 1) == {2}
    ensures SeedsOf(_ => true, TwoMembers(), 2) == {1}
  {
    var s := TwoMembers();
    assert IsDialable(_ => true, s, 1) && IsDialable(_ => true, s, 2);
    assert ActiveDevices(_ => true, s) == {1, 2};
    assert ActiveDevices(_ => true, s) - {1} == {2} && ActiveDevices(_ => true, s) - {2} == {1};
    SeedsAreBounded(_ => true, s, 1);
    SeedsAreBounded(_ => true, s, 2);
  }

  /** The bound of one more than K is met exactly when the active admin is not among the K lowest others. */
  lemma SeedBoundIsMetExactly(valid: DeviceKey -> bool, s: Snapshot, self: DeviceKey)
    ensures |SeedsOf(valid, s, self)| == GOSSIP_BOOTSTRAP_SEEDS + 1
            <==> && AdminDevice(valid, s).Some? && AdminDevice(valid, s).value != self
                 && AdminDevice(valid, s).value !in Lowest(GOSSIP_BOOTSTRAP_SEEDS, ActiveDevices(valid, s) - {self})
  {
    var others := ActiveDevices(valid, s) - {self};
    PrefixIsLowest(others, GOSSIP_BOOTSTRAP_SEEDS);
    AdminSeedIsOther(valid, s, self);
    LowestIsSubset(GOSSIP_BOOTSTRAP_SEEDS, others);
    hide ActiveDevices, AdminDevice, Lowest, AdminSeed;
    OneMore(Lowest(GOSSIP_BOOTSTRAP_SEEDS, others), others, AdminSeed(valid, s, self), GOSSIP_BOOTSTRAP_SEEDS);
  }

  lemma LowestIsSubset(k: nat, s: set<nat>)
    ensures Lowest(k, s) <= s
  {}

  lemma AdminSeedIsOther(valid: DeviceKey -> bool, s: Snapshot, self: DeviceKey)
    ensures AdminSeed(valid, s, self) <= ActiveDevices(valid, s) - {self}
    ensures if AdminDevice(valid, s).Some? && AdminDevice(valid, s).value != self
            then AdminSeed(valid, s, self) == {AdminDevice(valid, s).value} else AdminSeed(valid, s, self) == {}
  {
    AdminDeviceIsActive(valid, s);
    hide ActiveDevices, AdminDevice;
  }

  /** The lowest `k` others and at most one more are `k + 1` exactly when that one is new. */
  lemma OneMore(lowest: set<nat>, others: set<nat>, extra: set<nat>, k: nat)
    requires lowest <= others && extra <= others && |lowest| == if k < |others| then k else |others|
    requires extra == {} || exists d :: extra == {d}
    ensures |lowest + extra| == k + 1 <==> extra != {} && !(extra <= lowest)
  {
    if extra <= lowest {
      assert lowest + extra == lowest;
    } else {
      var d :| extra == {d};
      assert d !in lowest;
      assert |lowest + {d}| == |lowest| + 1;
      if |others| <= k {
        SameCount(lowest, others);
      }
    }
  }
}

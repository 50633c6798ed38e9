/**
 * The broadcast side of the gossip overlay, crates/iroh-rooms-net/src/gossip.rs: the bounded
 * window of recent broadcasts that keeps one accepted event from going out once per peer.
 * The body digest is a parameter.
 */
module GossipMeshes {
  import opened Prelude
  import opened OrderedSets

  const RECENT_BROADCAST_CAPACITY: nat := 128

  type Hash = nat

  datatype Call = Broadcast(body: seq<byte>) | NeighborUp | NeighborDown

  /** The window, the live neighbour count, and every hash handed to the swarm so far. */
  datatype Mesh = Mesh(recent: seq<Hash>, neighbors: nat, sent: seq<Hash>)

  /** A body this mesh can carry right now. */
  predicate Carries(m: Mesh, body: seq<byte>) {
    |body| <= MAX_FRAME_BYTES && m.neighbors != 0
  }

  function Latest(sent: seq<Hash>): (w: seq<Hash>)
    ensures |w| <= RECENT_BROADCAST_CAPACITY
  {
    if |sent| <= RECENT_BROADCAST_CAPACITY then sent else sent[|sent| - RECENT_BROADCAST_CAPACITY..]
  }

  predicate NoRepeats(s: seq<Hash>) {
    forall i, j :: 0 <= i < j < |s| ==> s[i] != s[j]
  }

  function Step(digest: seq<byte> -> Hash, m: Mesh, call: Call): Mesh {
    match call
    case NeighborUp => m.(neighbors := if m.neighbors < USIZE_MAX then m.neighbors + 1 else 0)
    case NeighborDown => m.(neighbors := if m.neighbors == 0 then 0 else m.neighbors - 1)
    case Broadcast(body) =>
      if !Carries(m, body) || digest(body) in m.recent then m
      else m.(recent := Latest(m.recent + [digest(body)]), sent := m.sent + [digest(body)])
  }

  function Run(digest: seq<byte> -> Hash, m: Mesh, calls: seq<Call>): Mesh
    decreases |calls|
  {
    if calls == [] then m else Step(digest, Run(digest, m, calls[..|calls| - 1]), calls[|calls| - 1])
  }

  class GossipMesh {
    const digest: seq<byte> -> Hash
    var recent: seq<Hash>
    var neighbors: nat
    ghost var sent: seq<Hash>

    ghost function State(): Mesh
      reads this
    {
      Mesh(recent, neighbors, sent)
    }

    ghost predicate Valid()
      reads this
    {
      IsWindow(State())
    }

    /** A fresh mesh: nothing broadcast, and one neighbour already up if it joined through a seed. */
    constructor (digest: seq<byte> -> Hash, bootstrapped: bool)
      ensures Valid() && State() == Mesh([], if bootstrapped then 1 else 0, []) && this.digest == digest
    {
      this.digest := digest;
      recent, neighbors, sent := [], if bootstrapped then 1 else 0, [];
    }

    /** Whether the body was handed over, now or by an earlier call still in the window. */
    method BroadcastEvents(body: seq<byte>) returns (accepted: bool)
      requires Valid()
      modifies this`recent, this`sent
      ensures Valid() && State() == old(Step(digest, State(), Broadcast(body)))
      ensures accepted <==> Carries(State(), body)
      ensures accepted ==> digest(body) in recent
      ensures !accepted ==> State() == old(State())
    {
      StepKeepsWindow(digest, State(), Broadcast(body));
      if |body| > MAX_FRAME_BYTES {
        return false;
      }
      if neighbors == 0 {
        return false;
      }
      var hash := digest(body);
      if hash in recent {
        return true;
      }
      if |recent| >= RECENT_BROADCAST_CAPACITY {
        recent := recent[1..];
      }
      recent := recent + [hash];
      sent := sent + [hash];
      assert recent == Latest(old(recent) + [hash]);
      assert recent[|recent| - 1] == hash;
      return true;
    }

    method OnNeighborUp()
      requires Valid()
      modifies this`neighbors
      ensures Valid() && State() == old(Step(digest, State(), NeighborUp))
    {
      neighbors := if neighbors < USIZE_MAX then neighbors + 1 else 0;
    }

    method OnNeighborDown()
      requires Valid()
      modifies this`neighbors
      ensures Valid() && State() == old(Step(digest, State(), NeighborDown))
    {
      neighbors := if neighbors == 0 then 0 else neighbors - 1;
    }
  }

  // ---------------------------------------------------------------------------
  // The window over runs
  // ---------------------------------------------------------------------------

  /** The window is the latest broadcasts, in order and without repeats. */
  predicate IsWindow(m: Mesh) {
    m.recent == Latest(m.sent) && NoRepeats(m.recent)
  }

  lemma StepKeepsWindow(digest: seq<byte> -> Hash, m: Mesh, call: Call)
    requires IsWindow(m)
    ensures IsWindow(Step(digest, m, call))
  {
    if call.Broadcast? && Carries(m, call.body) && digest(call.body) !in m.recent {
      LatestSnoc(m.sent, digest(call.body));
      NoRepeatsSnoc(m.recent, digest(call.body));
    }
  }

  lemma LatestSnoc(sent: seq<Hash>, h: Hash)
    ensures Latest(Latest(sent) + [h]) == Latest(sent + [h])
  {}

  lemma NoRepeatsSnoc(w: seq<Hash>, h: Hash)
    requires NoRepeats(w) && h !in w
    ensures NoRepeats(Latest(w + [h]))
  {
    var s := w + [h];
    forall i, j | 0 <= i < j < |s| ensures s[i] != s[j] {
      assert s[i] == w[i];
    }
  }

  lemma {:induction false} RunsKeepWindow(digest: seq<byte> -> Hash, m: Mesh, calls: seq<Call>)
    requires IsWindow(m)
    ensures IsWindow(Run(digest, m, calls))
    decreases |calls|
  {
    if calls != [] {
      hide IsWindow, Step;
      RunsKeepWindow(digest, m, calls[..|calls| - 1]);
      StepKeepsWindow(digest, Run(digest, m, calls[..|calls| - 1]), calls[|calls| - 1]);
    }
  }

  // ---------------------------------------------------------------------------
  // At most once
  // ---------------------------------------------------------------------------

  /** Every hash a list of calls could broadcast. */
  function Hashes(digest: seq<byte> -> Hash, calls: seq<Call>): set<Hash> {
    set i | 0 <= i < |calls| && calls[i].Broadcast? :: digest(calls[i].body)
  }

  lemma HashesOfPrefix(digest: seq<byte> -> Hash, calls: seq<Call>)
    requires calls != []
    ensures var n := |calls| - 1;
            && Hashes(digest, calls[..n]) <= Hashes(digest, calls)
            && (calls[n].Broadcast? ==> digest(calls[n].body) in Hashes(digest, calls))
  {
    var n := |calls| - 1;
    forall h | h in Hashes(digest, calls[..n]) ensures h in Hashes(digest, calls) {
      var i :| 0 <= i < n && calls[..n][i].Broadcast? && h == digest(calls[..n][i].body);
      assert calls[i].Broadcast? && h == digest(calls[i].body);
    }
  }

  lemma {:induction false} DistinctCount(s: seq<Hash>, all: set<Hash>)
    requires NoRepeats(s) && forall h <- s :: h in all
    ensures |s| <= |all|
  {
    if s != [] {
      var n := |s| - 1;
      forall h <- s[..n] ensures h in all - {s[n]} {
        var i :| 0 <= i < n && s[i] == h;
        assert s[i] in s;
      }
      assert s[n] in s;
      DistinctCount(s[..n], all - {s[n]});
    }
  }

  /** What has gone out since: new, distinct, and drawn from the hashes of the calls. */
  ghost predicate FreshSince(m: Mesh, now: Mesh, news: seq<Hash>, all: set<Hash>) {
    now.sent == m.sent + news && NoRepeats(news) && forall h <- news :: h in all
  }

  /** While the news fit in the window, a repeat is always caught. */
  lemma RepeatIsCaught(earlier: seq<Hash>, news: seq<Hash>, h: Hash)
    requires |news| <= RECENT_BROADCAST_CAPACITY && h in news
    ensures h in Latest(earlier + news)
  {
    var i :| 0 <= i < |news| && news[i] == h;
    var all := earlier + news;
    assert all[|earlier| + i] == h;
    if |all| > RECENT_BROADCAST_CAPACITY {
      assert Latest(all)[|earlier| + i - (|all| - RECENT_BROADCAST_CAPACITY)] == h;
    }
  }

  lemma FreshAfterStep(digest: seq<byte> -> Hash, m: Mesh, now: Mesh, news: seq<Hash>, all: set<Hash>, call: Call)
    returns (more: seq<Hash>)
    requires IsWindow(now) && FreshSince(m, now, news, all) && |all| <= RECENT_BROADCAST_CAPACITY
    requires call.Broadcast? ==> digest(call.body) in all
    ensures FreshSince(m, Step(digest, now, call), more, all)
  {
    more := news;
    if call.Broadcast? && Carries(now, call.body) && digest(call.body) !in now.recent {
      var h := digest(call.body);
      DistinctCount(news, all);
      if h in news {
        RepeatIsCaught(m.sent, news, h);
      }
      more := news + [h];
      assert (m.sent + news) + [h] == m.sent + (news + [h]);
    }
  }

  /**
   * Each hash at most once: from any reachable window, over any run of calls that carry at most
   * 128 distinct hashes, with neighbours coming and going, no hash is broadcast twice.
   */
  lemma {:induction false} AtMostOnce(digest: seq<byte> -> Hash, m: Mesh, calls: seq<Call>) returns (news: seq<Hash>)
    requires IsWindow(m) && |Hashes(digest, calls)| <= RECENT_BROADCAST_CAPACITY
    ensures FreshSince(m, Run(digest, m, calls), news, Hashes(digest, calls))
    decreases |calls|
  {
    if calls == [] {
      news := [];
      assert m.sent + [] == m.sent;
    } else {
      var n := |calls| - 1;
      var all := Hashes(digest, calls);
      HashesOfPrefix(digest, calls);
      SubsetCount(Hashes(digest, calls[..n]), all);
      var before := AtMostOnce(digest, m, calls[..n]);
      RunsKeepWindow(digest, m, calls[..n]);
      hide IsWindow, Step, Hashes;
      assert FreshSince(m, Run(digest, m, calls[..n]), before, all);
      news := FreshAfterStep(digest, m, Run(digest, m, calls[..n]), before, all, calls[n]);
    }
  }

  /**
   * When a call broadcasts: exactly when some neighbour is there, the body fits in a frame, and
   * the same hash is not among the latest 128 broadcasts; otherwise nothing changes.
   */
  lemma BroadcastsExactly(digest: seq<byte> -> Hash, m: Mesh, body: seq<byte>)
    requires IsWindow(m)
    ensures var next, h := Step(digest, m, Broadcast(body)), digest(body);
            if m.neighbors > 0 && |body| <= MAX_FRAME_BYTES && !AmongLatest(m.sent, h)
            then next.sent == m.sent + [h] && next.neighbors == m.neighbors else next == m
  {
    LatestHolds(m.sent, digest(body));
    hide Latest, AmongLatest;
  }

  lemma LatestHolds(sent: seq<Hash>, h: Hash)
    ensures h in Latest(sent) <==> AmongLatest(sent, h)
  {
    var w := Latest(sent);
    assert forall k :: 0 <= k < |w| ==> w[k] == sent[|sent| - |w| + k];
    if AmongLatest(sent, h) {
      var i: nat :| i < |sent| && sent[i] == h && |sent| - i <= RECENT_BROADCAST_CAPACITY;
      assert w[i - (|sent| - |w|)] == h;
    }
    if h in w {
      var k: nat :| k < |w| && w[k] == h;
      assert sent[|sent| - |w| + k] == h;
    }
  }

  predicate AmongLatest(sent: seq<Hash>, h: Hash) {
    exists i: nat :: i < |sent| && sent[i] == h && |sent| - i <= RECENT_BROADCAST_CAPACITY
  }

  /**
   * The bound is exact: whatever the window held, a hash goes out again precisely when its last
   * broadcast has been followed by at least 128 others.
   */
  lemma SentAgainExactly(digest: seq<byte> -> Hash, m: Mesh, body: seq<byte>, last: nat)
    requires IsWindow(m) && Carries(m, body)
    requires last < |m.sent| && m.sent[last] == digest(body) && digest(body) !in m.sent[last + 1..]
    ensures Step(digest, m, Broadcast(body)).sent == m.sent + [digest(body)]
            <==> |m.sent| - 1 - last >= RECENT_BROADCAST_CAPACITY
    ensures Step(digest, m, Broadcast(body)).sent == m.sent
            <==> |m.sent| - 1 - last < RECENT_BROADCAST_CAPACITY
  {
    var h, n := digest(body), |m.sent|;
    if n - 1 - last < RECENT_BROADCAST_CAPACITY {
      assert m.sent[last..] == [h] + m.sent[last + 1..];
      assert m.sent == m.sent[..last] + m.sent[last..];
      RepeatIsCaught(m.sent[..last], m.sent[last..], h);
    } else {
      assert Latest(m.sent) == m.sent[last + 1..][n - RECENT_BROADCAST_CAPACITY - last - 1..];
    }
    assert |m.sent + [h]| != |m.sent|;
  }

  // ---------------------------------------------------------------------------
  // The neighbour count
  // ---------------------------------------------------------------------------

  function Ups(calls: seq<Call>): nat { multiset(calls)[NeighborUp] }

  function Downs(calls: seq<Call>): nat { multiset(calls)[NeighborDown] }

  /** No neighbour leaves that is not there, and the counter does not run over. */
  predicate InRange(neighbors: nat, calls: seq<Call>) {
    forall n: nat :: n <= |calls| ==> Downs(calls[..n]) <= neighbors + Ups(calls[..n]) <= USIZE_MAX
  }

  lemma CountsSnoc(calls: seq<Call>, c: Call)
    ensures Ups(calls + [c]) == Ups(calls) + (if c == NeighborUp then 1 else 0)
    ensures Downs(calls + [c]) == Downs(calls) + (if c == NeighborDown then 1 else 0)
  {}

  lemma InRangeBefore(neighbors: nat, calls: seq<Call>)
    requires InRange(neighbors, calls) && calls != []
    ensures InRange(neighbors, calls[..|calls| - 1])
    ensures Downs(calls) <= neighbors + Ups(calls) <= USIZE_MAX
  {
    hide Ups, Downs;
    var n: nat := |calls|;
    assert calls[..n] == calls;
    assert Downs(calls[..n]) <= neighbors + Ups(calls[..n]) <= USIZE_MAX;
    var less := calls[..n - 1];
    forall k: nat | k <= |less| ensures Downs(less[..k]) <= neighbors + Ups(less[..k]) <= USIZE_MAX {
      assert less[..k] == calls[..k];
    }
  }

  /** Then the count is exactly who came and did not leave, so a frame is carried while anyone is there. */
  lemma {:induction false} NeighborsAreCounted(digest: seq<byte> -> Hash, m: Mesh, calls: seq<Call>)
    requires InRange(m.neighbors, calls)
    ensures Run(digest, m, calls).neighbors == m.neighbors + Ups(calls) - Downs(calls)
    decreases |calls|
  {
    if calls != [] {
      var n := |calls| - 1;
      assert calls == calls[..n] + [calls[n]];
      CountsSnoc(calls[..n], calls[n]);
      InRangeBefore(m.neighbors, calls);
      hide InRange, Ups, Downs;
      NeighborsAreCounted(digest, m, calls[..n]);
    }
  }

  /** However neighbours leave, the count never exceeds those who were there and those who came. */
  lemma {:induction false} LeavingNeverAdds(digest: seq<byte> -> Hash, m: Mesh, calls: seq<Call>)
    requires m.neighbors + Ups(calls) <= USIZE_MAX
    ensures Run(digest, m, calls).neighbors <= m.neighbors + Ups(calls)
    decreases |calls|
  {
    if calls != [] {
      var n := |calls| - 1;
      assert calls == calls[..n] + [calls[n]];
      CountsSnoc(calls[..n], calls[n]);
      hide Ups;
      LeavingNeverAdds(digest, m, calls[..n]);
    }
  }
}

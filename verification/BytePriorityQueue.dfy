/**
 * `QueueState` of crates/iroh-rooms-net/src/queue.rs: four deques, two ledgers of per-peer
 * byte budgets and a closed flag, updated in place. Each method is proved to refine the
 * arrival-ordered log of module `Queue`.
 */
module BytePriorityQueues {
  import opened Prelude
  import opened Queue

  function SaturatingAdd(a: nat, b: nat): nat {
    if a + b <= USIZE_MAX then a + b else USIZE_MAX
  }

  function SaturatingSub(a: nat, b: nat): nat {
    if b <= a then a - b else 0
  }

  const USIZE_COUNT: nat := USIZE_MAX + 1

  /** The sum of two `usize` values, wrapping as it does without overflow checks. */
  function WrappingAdd(a: nat, b: nat): nat { (a + b) % USIZE_COUNT }

  lemma WrappedNext(sum: nat, b: nat)
    ensures WrappingAdd(sum % USIZE_COUNT, b) == (sum + b) % USIZE_COUNT
  {
    var q, r := sum / USIZE_COUNT, sum % USIZE_COUNT;
    assert sum + b == USIZE_COUNT * q + (r + b);
    WrapShifts(r + b, q);
  }

  lemma WrapShifts(x: nat, q: nat)
    ensures (USIZE_COUNT * q + x) % USIZE_COUNT == x % USIZE_COUNT
  {}

  lemma WrappedSum(a: nat, b: nat)
    ensures WrappingAdd(a % USIZE_COUNT, b % USIZE_COUNT) == (a + b) % USIZE_COUNT
  {
    WrappedNext(a, b % USIZE_COUNT);
    WrappedNext(b, a);
  }

  lemma SmallIsUnwrapped(x: nat)
    ensures x <= USIZE_MAX ==> x % USIZE_COUNT == x
  {}

  /**
   * Saturating arithmetic decides the byte limit correctly for every pair of operands exactly
   * when the limit itself is below the largest `usize`.
   */
  lemma SaturationIsExact(cap: nat, reserve: nat)
    requires cap <= USIZE_MAX && reserve < USIZE_MAX
    ensures cap + reserve < USIZE_MAX <==>
            forall total: nat, bytes: nat :: total <= USIZE_MAX && bytes <= USIZE_MAX ==>
              (SaturatingAdd(total, bytes) > SaturatingAdd(cap, reserve) <==> total + bytes > cap + reserve)
  {
    if cap + reserve >= USIZE_MAX {
      assert SaturatingAdd(USIZE_MAX, USIZE_MAX) <= SaturatingAdd(cap, reserve);
    }
  }

  datatype PeerBudget = PeerBudget(total: nat, stream: nat)

  /** A queued frame with its cached body length. */
  datatype QueuedFrame = QueuedFrame(frame: Frame, bytes: nat)

  function Queued(s: seq<Frame>): (r: seq<QueuedFrame>)
    ensures |r| == |s|
  {
    seq(|s|, i requires 0 <= i < |s| => QueuedFrame(s[i], |s[i].body|))
  }

  /** A ledger entry, absent entries counting as the default budget. */
  function Entry(ledger: map<PeerId, PeerBudget>, p: PeerId): PeerBudget {
    if p in ledger then ledger[p] else PeerBudget(0, 0)
  }

  /** A ledger is exact when every entry holds the byte sums of that peer's queued frames. */
  ghost predicate Exact(ledger: map<PeerId, PeerBudget>, log: seq<Frame>, gossip: bool) {
    forall p ::
      Entry(ledger, p) == PeerBudget(Bytes(log, Account(p, gossip), All), Bytes(log, Account(p, gossip), Stream))
  }

  /** The queued bytes of one ledger, over a set of peers. */
  ghost function LedgerBytes(log: seq<Frame>, gossip: bool, peers: set<PeerId>): nat {
    if log == [] then 0
    else (if log[0].gossip == gossip && log[0].peer in peers then |log[0].body| else 0)
         + LedgerBytes(log[1..], gossip, peers)
  }

  lemma {:induction false} LedgerBytesWithout(log: seq<Frame>, gossip: bool, peers: set<PeerId>, p: PeerId)
    requires p in peers
    ensures LedgerBytes(log, gossip, peers) ==
            LedgerBytes(log, gossip, peers - {p}) + Bytes(log, Account(p, gossip), All)
  {
    if log != [] {
      LedgerBytesWithout(log[1..], gossip, peers, p);
    }
  }

  lemma {:induction false} LedgerBytesOfNone(log: seq<Frame>, gossip: bool)
    ensures LedgerBytes(log, gossip, {}) == 0
  {
    if log != [] {
      LedgerBytesOfNone(log[1..], gossip);
    }
  }

  lemma {:induction false} LedgersMakeDepth(log: seq<Frame>, a: set<PeerId>, b: set<PeerId>)
    requires forall f <- log :: if f.gossip then f.peer in b else f.peer in a
    ensures LedgerBytes(log, false, a) + LedgerBytes(log, true, b) == Depth(log)
  {
    if log != [] {
      assert log[0] in log;
      LedgersMakeDepth(log[1..], a, b);
    }
  }

  lemma {:induction false} QueuedBytesPositive(log: seq<Frame>, f: Frame)
    requires f in log && f.body != []
    ensures Bytes(log, AccountOf(f), All) > 0
  {
    if log[0] != f {
      QueuedBytesPositive(log[1..], f);
    }
  }

  /** One ledger's entries, added up in a `usize`. */
  method SumLedger(ledger: map<PeerId, PeerBudget>, ghost log: seq<Frame>, gossip: bool) returns (d: nat)
    requires Exact(ledger, log, gossip)
    ensures d == LedgerBytes(log, gossip, ledger.Keys) % USIZE_COUNT
  {
    hide WrappingAdd, LedgerBytes, Bytes;
    d := 0;
    ghost var sum: nat := 0;
    var keys := ledger.Keys;
    while keys != {}
      invariant keys <= ledger.Keys && d == sum % USIZE_COUNT
      invariant sum + LedgerBytes(log, gossip, keys) == LedgerBytes(log, gossip, ledger.Keys)
      decreases keys
    {
      var p :| p in keys;
      LedgerBytesWithout(log, gossip, keys, p);
      assert ledger[p] == Entry(ledger, p);
      WrappedNext(sum, ledger[p].total);
      d := WrappingAdd(d, ledger[p].total);
      sum := sum + ledger[p].total;
      keys := keys - {p};
    }
    LedgerBytesOfNone(log, gossip);
  }

  /** The byte limit of a peer for one family. */
  function PeerLimit(peerCap: nat, family: Family): nat {
    match family
    case TerminalPublication => SaturatingAdd(peerCap, TERMINAL_DELIVERY_RESERVE)
    case DeliveryConfirmation => SaturatingAdd(peerCap, TERMINAL_RECEIPT_RESERVE)
    case _ => peerCap
  }

  /** The saturating comparisons of a push decide the byte limits of the log. */
  lemma LimitsDecide(log: seq<Frame>, peerCap: nat, f: Frame)
    requires peerCap + TERMINAL_DELIVERY_RESERVE < USIZE_MAX
    ensures var total, stream := Bytes(log, AccountOf(f), All), Bytes(log, AccountOf(f), Stream);
            && (SaturatingAdd(total, |f.body|) > PeerLimit(peerCap, f.family)
                <==> total + |f.body| > peerCap + Reserve(f.family))
            && (total + |f.body| <= peerCap + Reserve(f.family) ==>
                  && SaturatingAdd(total, |f.body|) == total + |f.body|
                  && SaturatingAdd(stream, |f.body|) == stream + |f.body|)
  {
    hide Bytes;
    BytesOrdered(log, AccountOf(f));
  }

  class BytePriorityQueue {
    var closed: bool
    const peerCap: nat
    const streamCap: nat
    var budgets: map<PeerId, PeerBudget>
    var gossipBudgets: map<PeerId, PeerBudget>
    var byPriority: seq<seq<QueuedFrame>>
    ghost var log: seq<Frame>

    ghost function Model(): State
      reads this
    {
      State(closed, peerCap, streamCap, log)
    }

    ghost predicate Valid()
      reads this
    {
      && peerCap + TERMINAL_DELIVERY_RESERVE < USIZE_MAX
      && |byPriority| == 4
      && (forall p :: byPriority[Ordinal(p)] == Queued(OfClass(log, p)))
      && Exact(budgets, log, false)
      && Exact(gossipBudgets, log, true)
      && NoEmptyBodies(log)
    }

    constructor (peerCap: nat, streamCap: nat)
      requires peerCap + TERMINAL_DELIVERY_RESERVE < USIZE_MAX
      ensures Valid() && Model() == New(peerCap, streamCap)
    {
      this.peerCap := peerCap;
      this.streamCap := streamCap;
      closed := false;
      budgets := map[];
      gossipBudgets := map[];
      byPriority := [[], [], [], []];
      log := [];
    }

    /** `try_push_ledger`: the verdict is that of the log, and so is the new state. */
    method TryPushLedger(peer: PeerId, body: seq<byte>, family: Family, gossip: bool)
      returns (r: Result<(), PushError>)
      requires Valid()
      modifies this
      ensures Valid()
      ensures r == Verdict(old(Model()), Frame(peer, body, family, gossip))
      ensures Model() == Push(old(Model()), Frame(peer, body, family, gossip))
    {
      if |body| == 0 {
        return Err(Empty);
      }
      var bytes := |body|;
      if closed {
        return Err(Closed);
      }
      ghost var f := Frame(peer, body, family, gossip);
      LimitsDecide(log, peerCap, f);
      hide Bytes, SaturatingAdd, PeerLimit, BytePriorityQueue.Valid;
      var budget := EntryOrDefault(peer, gossip);
      var newTotal := SaturatingAdd(budget.total, bytes);
      if newTotal > PeerLimit(peerCap, family) {
        return Err(Saturated);
      }
      if ChargesStream(family) {
        var newStream := SaturatingAdd(budget.stream, bytes);
        if newStream > streamCap {
          return Err(Saturated);
        }
        budget := budget.(stream := newStream);
      }
      budget := budget.(total := newTotal);
      Enqueue(QueuedFrame(Frame(peer, body, family, gossip), bytes), budget);
      r := Ok(());
    }

    /** `entry(peer).or_default()`: a zero entry is left behind even when the push is refused. */
    method EntryOrDefault(peer: PeerId, gossip: bool) returns (budget: PeerBudget)
      requires Valid()
      modifies this
      ensures Valid() && Model() == old(Model())
      ensures budget == PeerBudget(Bytes(log, Account(peer, gossip), All), Bytes(log, Account(peer, gossip), Stream))
    {
      if gossip {
        budget := Entry(gossipBudgets, peer);
        gossipBudgets := gossipBudgets[peer := budget];
        DefaultEntryIsExact(log, old(gossipBudgets), peer, true);
      } else {
        budget := Entry(budgets, peer);
        budgets := budgets[peer := budget];
        DefaultEntryIsExact(log, old(budgets), peer, false);
      }
    }

    /** Charge the ledger and append to the deque of the frame's class. */
    method Enqueue(queued: QueuedFrame, budget: PeerBudget)
      requires Valid() && queued.bytes == |queued.frame.body| > 0
      requires var a := AccountOf(queued.frame);
               budget == Added(PeerBudget(Bytes(log, a, All), Bytes(log, a, Stream)), queued.frame, a)
      modifies this
      ensures Valid()
      ensures Model() == old(Model()).(log := old(log) + [queued.frame])
    {
      var f := queued.frame;
      if f.gossip {
        gossipBudgets := gossipBudgets[f.peer := budget];
      } else {
        budgets := budgets[f.peer := budget];
      }
      var ord := Ordinal(Class(f));
      byPriority := byPriority[ord := byPriority[ord] + [queued]];
      log := log + [f];
      LedgerAfterPush(old(log), old(budgets), f, budgets, false);
      LedgerAfterPush(old(log), old(gossipBudgets), f, gossipBudgets, true);
      DequesAfterPush(old(log), f, old(byPriority), byPriority);
    }

    /** `pop_highest`: the earliest frame of the highest class, refunded on its own ledger. */
    method PopHighest() returns (r: Option<Frame>)
      requires Valid()
      modifies this
      ensures Valid()
      ensures r == Next(old(Model()))
      ensures Model() == Pop(old(Model()))
    {
      var k := 0;
      while k < |DRAIN_ORDER|
        invariant 0 <= k <= 4
        invariant Valid() && Model() == old(Model())
        invariant forall j: nat :: j < k ==> OfClass(log, DRAIN_ORDER[j]) == []
      {
        var ord := Ordinal(DRAIN_ORDER[k]);
        if byPriority[ord] != [] {
          HeadIsBest(log, k);
          var queued := byPriority[ord][0];
          byPriority := byPriority[ord := byPriority[ord][1..]];
          Refund(queued, Best(log), old(byPriority));
          return Some(queued.frame);
        }
        k := k + 1;
      }
      AllClassesEmpty(log);
      r := None;
    }

    /** Refund the frame at position `i` of the log on the ledger it was charged to. */
    method Refund(queued: QueuedFrame, ghost i: nat, ghost deques: seq<seq<QueuedFrame>>)
      requires peerCap + TERMINAL_DELIVERY_RESERVE < USIZE_MAX
      requires NoEmptyBodies(log) && Exact(budgets, log, false) && Exact(gossipBudgets, log, true)
      requires i < |log| && queued == QueuedFrame(log[i], |log[i].body|)
      requires forall j: nat :: j < i ==> Class(log[j]) != Class(log[i])
      requires |deques| == 4 && forall p :: deques[Ordinal(p)] == Queued(OfClass(log, p))
      requires var c := Ordinal(Class(log[i])); deques[c] != [] && byPriority == deques[c := deques[c][1..]]
      modifies this
      ensures Valid()
      ensures log == RemoveAt(old(log), i) && closed == old(closed)
    {
      var f := queued.frame;
      if f.gossip {
        if f.peer in gossipBudgets {
          gossipBudgets := Refunded(gossipBudgets, queued);
        }
      } else {
        if f.peer in budgets {
          budgets := Refunded(budgets, queued);
        }
      }
      assert log[i] in log;
      LedgerAfterPop(log, i, old(budgets), budgets, false);
      LedgerAfterPop(log, i, old(gossipBudgets), gossipBudgets, true);
      DequesAfterPop(log, i, deques, byPriority);
      log := RemoveAt(log, i);
    }

    method Close()
      requires Valid()
      modifies this
      ensures Valid() && Model() == Queue.Close(old(Model()))
    {
      closed := true;
    }

    /**
     * `total_depth`: the wrapping sum of both ledgers is the queued bytes modulo 2^64. Bytes that
     * fit in the address space are counted exactly, and are zero exactly when nothing is queued.
     */
    method TotalDepth() returns (d: nat)
      requires Valid()
      ensures d == Depth(log) % USIZE_COUNT
      ensures Depth(log) <= USIZE_MAX ==> d == Depth(log) && (d == 0 <==> log == [])
    {
      hide BytePriorityQueue.Valid;
      LedgersCoverLog();
      LedgersMakeDepth(log, budgets.Keys, gossipBudgets.Keys);
      DepthIsPositive();
      LedgersAreExact();
      var own := SumLedger(budgets, log, false);
      var overlay := SumLedger(gossipBudgets, log, true);
      d := WrappingAdd(own, overlay);
      WrappedSum(LedgerBytes(log, false, budgets.Keys), LedgerBytes(log, true, gossipBudgets.Keys));
      SmallIsUnwrapped(Depth(log));
    }

    lemma LedgersAreExact()
      requires Valid()
      ensures Exact(budgets, log, false) && Exact(gossipBudgets, log, true)
    {}

    lemma DepthIsPositive()
      requires Valid()
      ensures Depth(log) == 0 <==> log == []
    {
      DepthZeroExactly(log);
    }

    lemma LedgersCoverLog()
      requires Valid()
      ensures forall f <- log :: if f.gossip then f.peer in gossipBudgets else f.peer in budgets
    {
      forall f <- log
        ensures if f.gossip then f.peer in gossipBudgets else f.peer in budgets
      {
        QueuedBytesPositive(log, f);
        assert Entry(if f.gossip then gossipBudgets else budgets, f.peer).total > 0;
      }
    }
  }

  /** The ledger after a refund: both sums are lowered, and a peer at zero is dropped. */
  function Refunded(ledger: map<PeerId, PeerBudget>, queued: QueuedFrame): map<PeerId, PeerBudget>
    requires queued.frame.peer in ledger
  {
    var f := queued.frame;
    var total := SaturatingSub(ledger[f.peer].total, queued.bytes);
    var stream := if ChargesStream(f.family) then SaturatingSub(ledger[f.peer].stream, queued.bytes)
                  else ledger[f.peer].stream;
    if total == 0 then ledger - {f.peer} else ledger[f.peer := PeerBudget(total, stream)]
  }

  // ---------------------------------------------------------------------------
  // Refinement steps
  // ---------------------------------------------------------------------------

  function Added(e: PeerBudget, f: Frame, a: Account): PeerBudget {
    PeerBudget(e.total + Charge(f, a, All), e.stream + Charge(f, a, Stream))
  }

  lemma DefaultEntryIsExact(log: seq<Frame>, ledger: map<PeerId, PeerBudget>, peer: PeerId, gossip: bool)
    requires Exact(ledger, log, gossip)
    ensures Exact(ledger[peer := Entry(ledger, peer)], log, gossip)
  {
    var ledger' := ledger[peer := Entry(ledger, peer)];
    forall p ensures Entry(ledger', p) == Entry(ledger, p) {}
  }

  lemma LedgerAfterPush(log: seq<Frame>, ledger: map<PeerId, PeerBudget>, f: Frame,
                        ledger': map<PeerId, PeerBudget>, gossip: bool)
    requires Exact(ledger, log, gossip)
    requires f.gossip == gossip ==> ledger' == ledger[f.peer := Added(Entry(ledger, f.peer), f, AccountOf(f))]
    requires f.gossip != gossip ==> ledger' == ledger
    ensures Exact(ledger', log + [f], gossip)
  {
    forall p
      ensures Entry(ledger', p) == PeerBudget(Bytes(log + [f], Account(p, gossip), All),
                                              Bytes(log + [f], Account(p, gossip), Stream))
    {
      PushBytes(log, f, Account(p, gossip), All);
      PushBytes(log, f, Account(p, gossip), Stream);
      assert Entry(ledger, p).total == Bytes(log, Account(p, gossip), All);
    }
  }

  /** A refund never saturates: the popped frame's bytes are part of both sums it lowers. */
  lemma RefundIsExact(log: seq<Frame>, i: nat)
    requires i < |log|
    ensures |log[i].body| <= Bytes(log, AccountOf(log[i]), All)
    ensures ChargesStream(log[i].family) ==> |log[i].body| <= Bytes(log, AccountOf(log[i]), Stream)
  {
    PopBytes(log, i, AccountOf(log[i]), All);
    PopBytes(log, i, AccountOf(log[i]), Stream);
  }

  lemma LedgerAfterPop(log: seq<Frame>, i: nat, ledger: map<PeerId, PeerBudget>,
                       ledger': map<PeerId, PeerBudget>, gossip: bool)
    requires i < |log| && log[i].body != [] && Exact(ledger, log, gossip)
    requires var q := QueuedFrame(log[i], |log[i].body|);
             ledger' == if log[i].gossip == gossip && log[i].peer in ledger then Refunded(ledger, q) else ledger
    ensures Exact(ledger', RemoveAt(log, i), gossip)
  {
    hide Bytes, RemoveAt;
    RefundIsExact(log, i);
    forall p
      ensures Entry(ledger', p) == PeerBudget(Bytes(RemoveAt(log, i), Account(p, gossip), All),
                                              Bytes(RemoveAt(log, i), Account(p, gossip), Stream))
    {
      PopBytes(log, i, Account(p, gossip), All);
      PopBytes(log, i, Account(p, gossip), Stream);
      BytesOrdered(RemoveAt(log, i), Account(p, gossip));
      assert Entry(ledger, p).total == Bytes(log, Account(p, gossip), All);
    }
  }

  lemma DequesAfterPush(log: seq<Frame>, f: Frame, d: seq<seq<QueuedFrame>>, d': seq<seq<QueuedFrame>>)
    requires |d| == 4 && forall p :: d[Ordinal(p)] == Queued(OfClass(log, p))
    requires d' == d[Ordinal(Class(f)) := d[Ordinal(Class(f))] + [QueuedFrame(f, |f.body|)]]
    ensures forall p :: d'[Ordinal(p)] == Queued(OfClass(log + [f], p))
  {
    forall p ensures d'[Ordinal(p)] == Queued(OfClass(log + [f], p)) {
      OfClassConcat(log, [f], p);
      OfClassOne(f, p);
      assert d[Ordinal(p)] == Queued(OfClass(log, p));
      if p == Class(f) {
        QueuedAppend(OfClass(log, p), f);
      } else {
        assert OfClass(log, p) + [] == OfClass(log, p);
        DistinctOrdinals(p, Class(f));
      }
    }
  }

  lemma QueuedAppend(s: seq<Frame>, f: Frame)
    ensures Queued(s + [f]) == Queued(s) + [QueuedFrame(f, |f.body|)]
  {}

  lemma QueuedPrepend(f: Frame, s: seq<Frame>)
    ensures Queued([f] + s) == [QueuedFrame(f, |f.body|)] + Queued(s)
  {}

  lemma DistinctOrdinals(p: Priority, q: Priority)
    ensures Ordinal(p) == Ordinal(q) <==> p == q
    ensures DRAIN_ORDER[3 - Ordinal(p)] == p
  {}

  lemma DequesAfterPop(log: seq<Frame>, i: nat, d: seq<seq<QueuedFrame>>, d': seq<seq<QueuedFrame>>)
    requires i < |log| && |d| == 4 && forall p :: d[Ordinal(p)] == Queued(OfClass(log, p))
    requires forall j: nat :: j < i ==> Class(log[j]) != Class(log[i])
    requires var c := Ordinal(Class(log[i])); d[c] != [] && d' == d[c := d[c][1..]]
    ensures forall p :: d'[Ordinal(p)] == Queued(OfClass(RemoveAt(log, i), p))
  {
    forall p ensures d'[Ordinal(p)] == Queued(OfClass(RemoveAt(log, i), p)) {
      DequeAfterPop(log, i, p);
      assert d[Ordinal(p)] == Queued(OfClass(log, p));
      DistinctOrdinals(p, Class(log[i]));
    }
  }

  lemma DequeAfterPop(log: seq<Frame>, i: nat, p: Priority)
    requires i < |log|
    requires forall j: nat :: j < i ==> Class(log[j]) != Class(log[i])
    ensures Queued(OfClass(log, p)) ==
            (if p == Class(log[i]) then [QueuedFrame(log[i], |log[i].body|)] else [])
            + Queued(OfClass(RemoveAt(log, i), p))
  {
    RemoveFirstOfClass(log, i, p);
    OfClassOne(log[i], p);
    if p == Class(log[i]) {
      QueuedPrepend(log[i], OfClass(RemoveAt(log, i), p));
    }
  }

  lemma AllClassesEmpty(log: seq<Frame>)
    requires forall j: nat :: j < 4 ==> OfClass(log, DRAIN_ORDER[j]) == []
    ensures log == []
  {
    if log != [] {
      DistinctOrdinals(Class(log[0]), Class(log[0]));
    }
  }

  /** The head of the first non-empty deque in drain order is the log's best frame. */
  lemma HeadIsBest(log: seq<Frame>, k: nat)
    requires k < 4 && OfClass(log, DRAIN_ORDER[k]) != []
    requires forall j: nat :: j < k ==> OfClass(log, DRAIN_ORDER[j]) == []
    ensures log != [] && OfClass(log, DRAIN_ORDER[k])[0] == log[Best(log)]
    ensures Class(log[Best(log)]) == DRAIN_ORDER[k]
  {
    assert log != [];
    var i := Best(log);
    var p := DRAIN_ORDER[k];
    OfClassEmpty(log, p);
    var f :| f in log && Class(f) == p;
    var j :| 0 <= j < |log| && log[j] == f;
    DistinctOrdinals(p, Class(log[i]));
    DistinctOrdinals(Class(log[i]), p);
    assert Ordinal(p) == 3 - k;
    BestClassNonEmpty(log, i);
    assert Class(log[i]) == p;
    RemoveFirstOfClass(log, i, p);
    OfClassOne(log[i], p);
  }

  lemma BestClassNonEmpty(log: seq<Frame>, i: nat)
    requires i < |log|
    ensures OfClass(log, Class(log[i])) != []
  {
    OfClassEmpty(log, Class(log[i]));
    assert log[i] in log;
  }
}

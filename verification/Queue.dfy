/**
 * The abstract byte-bounded priority queue of crates/iroh-rooms-net/src/queue.rs: one log of
 * queued frames in arrival order, from which the ledgers, the verdicts and the next frame are
 * derived. `BytePriorityQueue` shows that the deques and ledgers of the source refine it.
 */
module Queue {
  import opened Prelude

  // ---------------------------------------------------------------------------
  // Families, priorities, limits
  // ---------------------------------------------------------------------------

  type PeerId = nat

  datatype Priority = BlobHints | Content | Checkpoint | Governance

  function Ordinal(p: Priority): (o: nat)
    ensures o < 4
  {
    match p
    case BlobHints => 0
    case Content => 1
    case Checkpoint => 2
    case Governance => 3
  }

  /** The order in which the consumer drains the classes. */
  const DRAIN_ORDER: seq<Priority> := [Governance, Checkpoint, Content, BlobHints]

  datatype Family =
    | Session
    | GovernanceFamily
    | Subscription
    | Publication
    | TerminalPublication
    | DeliveryConfirmation
    | Reconciliation
    | CheckpointFamily
    | BlobHintsFamily

  function PriorityOf(f: Family): Priority {
    match f
    case GovernanceFamily => Governance
    case CheckpointFamily | Session | DeliveryConfirmation => Checkpoint
    case Publication | Subscription | TerminalPublication => Content
    case Reconciliation | BlobHintsFamily => BlobHints
  }

  predicate ChargesStream(f: Family) {
    f.Publication? || f.Subscription? || f.Reconciliation? || f.BlobHintsFamily?
  }

  const TERMINAL_DELIVERY_RESERVE: nat := MAX_FRAME_BYTES + 512
  const TERMINAL_RECEIPT_RESERVE: nat := 512

  /** The byte reserve a family may use above the ordinary peer cap. */
  function Reserve(f: Family): nat {
    match f
    case TerminalPublication => TERMINAL_DELIVERY_RESERVE
    case DeliveryConfirmation => TERMINAL_RECEIPT_RESERVE
    case _ => 0
  }

  datatype Frame = Frame(peer: PeerId, body: seq<byte>, family: Family, gossip: bool)

  function Class(f: Frame): Priority { PriorityOf(f.family) }

  datatype PushError = Empty | Saturated | Closed

  // ---------------------------------------------------------------------------
  // Byte accounts
  // ---------------------------------------------------------------------------

  /** Which of an account's frames a byte sum counts. */
  datatype Kind = All | Stream | Ordinary | NotTerminal

  /** One peer on one of the two ledgers. */
  datatype Account = Account(peer: PeerId, gossip: bool)

  function AccountOf(f: Frame): Account { Account(f.peer, f.gossip) }

  predicate Counts(k: Kind, f: Family) {
    match k
    case All => true
    case Stream => ChargesStream(f)
    case Ordinary => Reserve(f) == 0
    case NotTerminal => !f.TerminalPublication?
  }

  function Charge(f: Frame, a: Account, k: Kind): nat {
    if AccountOf(f) == a && Counts(k, f.family) then |f.body| else 0
  }

  /** The bytes queued for account `a`, over the frames of kind `k`. */
  function Bytes(log: seq<Frame>, a: Account, k: Kind): nat {
    if log == [] then 0 else Charge(log[0], a, k) + Bytes(log[1..], a, k)
  }

  lemma {:induction false} BytesConcat(x: seq<Frame>, y: seq<Frame>, a: Account, k: Kind)
    ensures Bytes(x + y, a, k) == Bytes(x, a, k) + Bytes(y, a, k)
  {
    if x == [] {
      assert x + y == y;
    } else {
      assert (x + y)[1..] == x[1..] + y;
      BytesConcat(x[1..], y, a, k);
    }
  }

  lemma {:induction false} BytesOrdered(log: seq<Frame>, a: Account)
    ensures Bytes(log, a, Stream) <= Bytes(log, a, Ordinary) <= Bytes(log, a, NotTerminal) <= Bytes(log, a, All)
  {
    if log != [] {
      BytesOrdered(log[1..], a);
    }
  }

  // ---------------------------------------------------------------------------
  // The queue as a log
  // ---------------------------------------------------------------------------

  datatype State = State(closed: bool, peerCap: nat, streamCap: nat, log: seq<Frame>)

  function New(peerCap: nat, streamCap: nat): State {
    State(false, peerCap, streamCap, [])
  }

  /** The verdict on a push, from the queued bytes of its account alone. */
  function Verdict(s: State, f: Frame): Result<(), PushError> {
    if f.body == [] then Err(Empty)
    else if s.closed then Err(Closed)
    else if Bytes(s.log, AccountOf(f), All) + |f.body| > s.peerCap + Reserve(f.family) then Err(Saturated)
    else if ChargesStream(f.family) && Bytes(s.log, AccountOf(f), Stream) + |f.body| > s.streamCap then Err(Saturated)
    else Ok(())
  }

  function Push(s: State, f: Frame): State {
    if Verdict(s, f).Ok? then s.(log := s.log + [f]) else s
  }

  /** The position of the earliest frame of the highest priority present. */
  function Best(log: seq<Frame>): (i: nat)
    requires log != []
    ensures i < |log|
    ensures forall j: nat :: j < |log| ==> Ordinal(Class(log[j])) <= Ordinal(Class(log[i]))
    ensures forall j: nat :: j < i ==> Ordinal(Class(log[j])) < Ordinal(Class(log[i]))
  {
    if |log| == 1 then 0
    else
      var k := Best(log[1..]);
      if Ordinal(Class(log[1..][k])) <= Ordinal(Class(log[0])) then 0 else k + 1
  }

  function RemoveAt(log: seq<Frame>, i: nat): seq<Frame>
    requires i < |log|
  {
    log[..i] + log[i + 1..]
  }

  /** The frame a pop delivers, if any. */
  function Next(s: State): Option<Frame> {
    if s.log == [] then None else Some(s.log[Best(s.log)])
  }

  function Pop(s: State): State {
    if s.log == [] then s else s.(log := RemoveAt(s.log, Best(s.log)))
  }

  function Close(s: State): State { s.(closed := true) }

  /** All queued body bytes, over every peer and both ledgers. */
  function Depth(log: seq<Frame>): nat {
    if log == [] then 0 else |log[0].body| + Depth(log[1..])
  }

  // ---------------------------------------------------------------------------
  // Classes: what each deque holds
  // ---------------------------------------------------------------------------

  /** The frames of one priority class, in arrival order. */
  function OfClass(log: seq<Frame>, p: Priority): seq<Frame> {
    if log == [] then []
    else (if Class(log[0]) == p then [log[0]] else []) + OfClass(log[1..], p)
  }

  lemma {:induction false} OfClassConcat(x: seq<Frame>, y: seq<Frame>, p: Priority)
    ensures OfClass(x + y, p) == OfClass(x, p) + OfClass(y, p)
  {
    if x == [] {
      assert x + y == y;
    } else {
      assert (x + y)[1..] == x[1..] + y;
      OfClassConcat(x[1..], y, p);
      var h := if Class(x[0]) == p then [x[0]] else [];
      assert h + (OfClass(x[1..], p) + OfClass(y, p)) == (h + OfClass(x[1..], p)) + OfClass(y, p);
    }
  }

  lemma {:induction false} OfClassEmpty(log: seq<Frame>, p: Priority)
    ensures OfClass(log, p) == [] <==> forall f <- log :: Class(f) != p
  {
    if log != [] {
      OfClassEmpty(log[1..], p);
      assert log == [log[0]] + log[1..];
    }
  }

  lemma SplitAt(log: seq<Frame>, i: nat)
    requires i < |log|
    ensures log == log[..i] + ([log[i]] + log[i + 1..])
  {}

  lemma OfClassSplit(log: seq<Frame>, i: nat, q: Priority)
    requires i < |log|
    ensures OfClass(log, q) == OfClass(log[..i], q) + (OfClass([log[i]], q) + OfClass(log[i + 1..], q))
    ensures OfClass(RemoveAt(log, i), q) == OfClass(log[..i], q) + OfClass(log[i + 1..], q)
  {
    SplitAt(log, i);
    OfClassConcat(log[..i], [log[i]] + log[i + 1..], q);
    OfClassConcat([log[i]], log[i + 1..], q);
    OfClassConcat(log[..i], log[i + 1..], q);
  }

  lemma OfClassOne(f: Frame, q: Priority)
    ensures OfClass([f], q) == if Class(f) == q then [f] else []
  {
    assert OfClass([f][1..], q) == [];
  }

  /** Removing the earliest frame of its class takes the head of that class and no other. */
  lemma RemoveFirstOfClass(log: seq<Frame>, i: nat, q: Priority)
    requires i < |log|
    requires forall j: nat :: j < i ==> Class(log[j]) != Class(log[i])
    ensures OfClass(log, q) == OfClass([log[i]], q) + OfClass(RemoveAt(log, i), q)
  {
    OfClassSplit(log, i, q);
    OfClassOne(log[i], q);
    if q == Class(log[i]) {
      OfClassEmpty(log[..i], q);
    }
  }

  lemma PopBytes(log: seq<Frame>, i: nat, a: Account, k: Kind)
    requires i < |log|
    ensures Bytes(log, a, k) == Bytes(RemoveAt(log, i), a, k) + Charge(log[i], a, k)
  {
    SplitAt(log, i);
    BytesConcat(log[..i], [log[i]] + log[i + 1..], a, k);
    BytesConcat([log[i]], log[i + 1..], a, k);
    BytesConcat(log[..i], log[i + 1..], a, k);
  }

  // ---------------------------------------------------------------------------
  // Runs
  // ---------------------------------------------------------------------------

  datatype Op = TryPush(frame: Frame) | TryPop | DoClose

  /** A queue together with everything it accepted and everything it delivered, in order. */
  datatype Run = Run(state: State, accepted: seq<Frame>, popped: seq<Frame>)

  function Step(r: Run, op: Op): Run {
    match op
    case TryPush(f) =>
      Run(Push(r.state, f), if Verdict(r.state, f).Ok? then r.accepted + [f] else r.accepted, r.popped)
    case TryPop =>
      Run(Pop(r.state), r.accepted, if Next(r.state).Some? then r.popped + [Next(r.state).value] else r.popped)
    case DoClose => r.(state := Close(r.state))
  }

  function RunOps(r: Run, ops: seq<Op>): Run
    decreases |ops|
  {
    if ops == [] then r else Step(RunOps(r, ops[..|ops| - 1]), ops[|ops| - 1])
  }

  function Start(peerCap: nat, streamCap: nat): Run {
    Run(New(peerCap, streamCap), [], [])
  }

  /** Accepted frames are the delivered ones followed, class by class, by the queued ones. */
  ghost predicate Accounts(r: Run) {
    && multiset(r.accepted) == multiset(r.popped) + multiset(r.state.log)
    && (forall p :: OfClass(r.accepted, p) == OfClass(r.popped, p) + OfClass(r.state.log, p))
  }

  /** The layered byte bounds of one account. */
  ghost predicate Bounded(s: State, a: Account) {
    && Bytes(s.log, a, Ordinary) <= s.peerCap
    && Bytes(s.log, a, NotTerminal) <= s.peerCap + TERMINAL_RECEIPT_RESERVE
    && Bytes(s.log, a, All) <= s.peerCap + TERMINAL_DELIVERY_RESERVE
    && Bytes(s.log, a, Stream) <= s.streamCap
  }

  ghost predicate NoEmptyBodies(log: seq<Frame>) {
    forall f <- log :: f.body != []
  }

  ghost predicate Invariant(r: Run) {
    && Accounts(r)
    && (forall a :: Bounded(r.state, a))
    && NoEmptyBodies(r.state.log)
  }

  lemma PushBytes(log: seq<Frame>, f: Frame, a: Account, k: Kind)
    ensures Bytes(log + [f], a, k) == Bytes(log, a, k) + Charge(f, a, k)
  {
    BytesConcat(log, [f], a, k);
    assert [f][1..] == [];
  }

  lemma PushKeepsBounds(s: State, f: Frame, a: Account)
    requires Bounded(s, a)
    ensures Bounded(Push(s, f), a)
  {
    if Verdict(s, f).Ok? {
      PushBytes(s.log, f, a, All);
      PushBytes(s.log, f, a, Stream);
      PushBytes(s.log, f, a, Ordinary);
      PushBytes(s.log, f, a, NotTerminal);
      BytesOrdered(s.log, a);
    }
  }

  lemma PopKeepsBounds(s: State, a: Account)
    requires Bounded(s, a)
    ensures Bounded(Pop(s), a)
  {
    if s.log != [] {
      PopBytes(s.log, Best(s.log), a, All);
      PopBytes(s.log, Best(s.log), a, Stream);
      PopBytes(s.log, Best(s.log), a, Ordinary);
      PopBytes(s.log, Best(s.log), a, NotTerminal);
    }
  }

  lemma PushKeepsAccounts(r: Run, f: Frame)
    requires Accounts(r)
    ensures Accounts(Step(r, TryPush(f)))
  {
    if Verdict(r.state, f).Ok? {
      forall p
        ensures OfClass(r.accepted + [f], p) == OfClass(r.popped, p) + OfClass(r.state.log + [f], p)
      {
        OfClassConcat(r.accepted, [f], p);
        OfClassConcat(r.state.log, [f], p);
      }
    }
  }

  lemma PopKeepsAccounts(r: Run)
    requires Accounts(r)
    ensures Accounts(Step(r, TryPop))
  {
    var log := r.state.log;
    if log != [] {
      var i := Best(log);
      RemoveMultiset(log, i);
      forall p
        ensures OfClass(r.accepted, p) == OfClass(r.popped + [log[i]], p) + OfClass(RemoveAt(log, i), p)
      {
        MoveFirstOfClass(r.popped, log, i, p);
      }
    }
  }

  lemma MoveFirstOfClass(popped: seq<Frame>, log: seq<Frame>, i: nat, p: Priority)
    requires i < |log|
    requires forall j: nat :: j < i ==> Class(log[j]) != Class(log[i])
    ensures OfClass(popped, p) + OfClass(log, p) ==
            OfClass(popped + [log[i]], p) + OfClass(RemoveAt(log, i), p)
  {
    var a, b, c := OfClass(popped, p), OfClass([log[i]], p), OfClass(RemoveAt(log, i), p);
    OfClassConcat(popped, [log[i]], p);
    RemoveFirstOfClass(log, i, p);
    assert a + (b + c) == (a + b) + c;
  }

  lemma RemoveMultiset(log: seq<Frame>, i: nat)
    requires i < |log|
    ensures multiset(log) == multiset(RemoveAt(log, i)) + multiset{log[i]}
  {
    SplitAt(log, i);
  }

  lemma StepKeepsInvariant(r: Run, op: Op)
    requires Invariant(r)
    ensures Invariant(Step(r, op))
  {
    match op
    case TryPush(f) =>
      PushKeepsAccounts(r, f);
      forall a ensures Bounded(Push(r.state, f), a) { PushKeepsBounds(r.state, f, a); }
    case TryPop =>
      PopKeepsAccounts(r);
      forall a ensures Bounded(Pop(r.state), a) { PopKeepsBounds(r.state, a); }
    case DoClose =>
      forall a ensures Bounded(Close(r.state), a) { assert Bounded(r.state, a); }
  }

  /**
   * Over every run: what was accepted is exactly what was delivered plus what is queued, class
   * by class in order, and every account stays within its layered byte bounds.
   */
  lemma {:induction false} RunsConserveFrames(peerCap: nat, streamCap: nat, ops: seq<Op>)
    ensures Invariant(RunOps(Start(peerCap, streamCap), ops))
  {
    if ops != [] {
      RunsConserveFrames(peerCap, streamCap, ops[..|ops| - 1]);
      StepKeepsInvariant(RunOps(Start(peerCap, streamCap), ops[..|ops| - 1]), ops[|ops| - 1]);
    }
  }

  /** A pop delivers nothing exactly when everything ever accepted has been delivered. */
  lemma NothingLeftExactly(peerCap: nat, streamCap: nat, ops: seq<Op>)
    ensures var r := RunOps(Start(peerCap, streamCap), ops);
            && (Next(r.state).None? <==> multiset(r.accepted) == multiset(r.popped))
            && (Next(r.state).None? <==> Depth(r.state.log) == 0)
            && (Next(r.state).None? ==> forall p :: OfClass(r.accepted, p) == OfClass(r.popped, p))
  {
    var r := RunOps(Start(peerCap, streamCap), ops);
    RunsConserveFrames(peerCap, streamCap, ops);
    DepthZeroExactly(r.state.log);
    if r.state.log != [] {
      assert r.state.log[0] in multiset(r.state.log);
      assert |multiset(r.accepted)| == |multiset(r.popped)| + |multiset(r.state.log)|;
    } else {
      assert multiset(r.state.log) == multiset{};
    }
  }

  lemma DepthZeroExactly(log: seq<Frame>)
    requires NoEmptyBodies(log)
    ensures Depth(log) == 0 <==> log == []
  {
    if log != [] {
      assert log[0] in log;
    }
  }

  // ---------------------------------------------------------------------------
  // Isolation of accounts
  // ---------------------------------------------------------------------------

  /** No step pushes to account `a`, takes a frame of `a`, or closes the queue. */
  ghost predicate LeavesAlone(r: Run, ops: seq<Op>, a: Account)
    decreases |ops|
  {
    ops != [] ==>
      var before := RunOps(r, ops[..|ops| - 1]);
      && LeavesAlone(r, ops[..|ops| - 1], a)
      && match ops[|ops| - 1]
         case TryPush(f) => AccountOf(f) != a
         case TryPop => Next(before.state).Some? ==> AccountOf(Next(before.state).value) != a
         case DoClose => false
  }

  /**
   * Accounts do not interfere: whatever other peers and the other ledger push or pop, accepted
   * or refused, the verdict on a push to account `a` stays what it was.
   */
  lemma {:induction false} OtherAccountsCannotInterfere(r: Run, ops: seq<Op>, f: Frame)
    requires LeavesAlone(r, ops, AccountOf(f))
    ensures Verdict(RunOps(r, ops).state, f) == Verdict(r.state, f)
    ensures forall k :: Bytes(RunOps(r, ops).state.log, AccountOf(f), k) == Bytes(r.state.log, AccountOf(f), k)
    ensures RunOps(r, ops).state.(log := []) == r.state.(log := [])
  {
    if ops != [] {
      var before := RunOps(r, ops[..|ops| - 1]);
      OtherAccountsCannotInterfere(r, ops[..|ops| - 1], f);
      forall k
        ensures Bytes(Step(before, ops[|ops| - 1]).state.log, AccountOf(f), k)
                == Bytes(before.state.log, AccountOf(f), k)
      {
        StepAway(before, ops[|ops| - 1], AccountOf(f), k);
      }
    }
  }

  lemma StepAway(r: Run, op: Op, a: Account, k: Kind)
    requires op.TryPush? ==> AccountOf(op.frame) != a
    requires op.TryPop? && Next(r.state).Some? ==> AccountOf(Next(r.state).value) != a
    ensures Bytes(Step(r, op).state.log, a, k) == Bytes(r.state.log, a, k)
  {
    match op
    case TryPush(f) => PushBytes(r.state.log, f, a, k);
    case TryPop => if r.state.log != [] { PopBytes(r.state.log, Best(r.state.log), a, k); }
    case DoClose =>
  }

  /** The reading for the transport: no gossip traffic can saturate the event plane of a peer. */
  lemma {:induction false} GossipCannotSaturateEvents(r: Run, pushes: seq<Op>, f: Frame)
    requires !f.gossip
    requires forall op <- pushes :: op.TryPush? && (op.frame.gossip || op.frame.peer != f.peer)
    ensures Verdict(RunOps(r, pushes).state, f) == Verdict(r.state, f)
  {
    PushesLeaveAlone(r, pushes, AccountOf(f));
    OtherAccountsCannotInterfere(r, pushes, f);
  }

  lemma {:induction false} PushesLeaveAlone(r: Run, pushes: seq<Op>, a: Account)
    requires forall op <- pushes :: op.TryPush? && AccountOf(op.frame) != a
    ensures LeavesAlone(r, pushes, a)
  {
    if pushes != [] {
      assert pushes[|pushes| - 1] in pushes;
      PushesLeaveAlone(r, pushes[..|pushes| - 1], a);
    }
  }
}

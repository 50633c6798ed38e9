/**
 * What the queue of crates/iroh-rooms-net/src/queue.rs promises its users, family by family and
 * over every run: which frames are accepted and why others are not, that the delivery reserves
 * are really there when needed, and in which order frames are served.
 */
module QueueLaws {
  import opened Prelude
  import opened Queue

  // ---------------------------------------------------------------------------
  // The families, spelled out
  // ---------------------------------------------------------------------------

  const URGENT: set<Family> := {GovernanceFamily}
  const CONTROL: set<Family> := {CheckpointFamily, Session, DeliveryConfirmation}
  const TRAFFIC: set<Family> := {Publication, Subscription, TerminalPublication}
  const HINTS: set<Family> := {Reconciliation, BlobHintsFamily}

  const EVERY: set<Family> := URGENT + CONTROL + TRAFFIC + HINTS
  const STREAM: set<Family> := {Publication, Subscription, Reconciliation, BlobHintsFamily}
  const RESERVED: set<Family> := {TerminalPublication, DeliveryConfirmation}

  lemma EveryFamily(f: Family)
    ensures f in EVERY
  {
    match f
    case GovernanceFamily => assert f in URGENT;
    case CheckpointFamily | Session | DeliveryConfirmation => assert f in CONTROL;
    case Publication | Subscription | TerminalPublication => assert f in TRAFFIC;
    case Reconciliation | BlobHintsFamily => assert f in HINTS;
  }

  /** The bytes queued for account `a` in frames of the given families. */
  function Queued(log: seq<Frame>, a: Account, families: set<Family>): nat {
    if log == [] then 0
    else (if AccountOf(log[0]) == a && log[0].family in families then |log[0].body| else 0)
         + Queued(log[1..], a, families)
  }

  lemma {:induction false} QueuedIsCharged(log: seq<Frame>, a: Account)
    ensures Bytes(log, a, All) == Queued(log, a, EVERY)
    ensures Bytes(log, a, Stream) == Queued(log, a, STREAM)
    ensures Bytes(log, a, Ordinary) == Queued(log, a, EVERY - RESERVED)
    ensures Bytes(log, a, NotTerminal) == Queued(log, a, EVERY - {TerminalPublication})
  {
    if log != [] {
      QueuedIsCharged(log[1..], a);
      EveryFamily(log[0].family);
    }
  }

  lemma {:induction false} NoneQueued(log: seq<Frame>, a: Account, some: set<Family>, none: set<Family>)
    requires forall f <- log :: AccountOf(f) == a ==> f.family !in none
    ensures Queued(log, a, some) == Queued(log, a, some - none)
  {
    if log != [] {
      assert log[0] in log;
      NoneQueued(log[1..], a, some, none);
    }
  }

  // ---------------------------------------------------------------------------
  // Acceptance over every run
  // ---------------------------------------------------------------------------

  lemma {:induction false} RunFlags(peerCap: nat, streamCap: nat, ops: seq<Op>)
    ensures var s := RunOps(Start(peerCap, streamCap), ops).state;
            s.peerCap == peerCap && s.streamCap == streamCap && (s.closed <==> DoClose in ops)
  {
    if ops != [] {
      RunFlags(peerCap, streamCap, ops[..|ops| - 1]);
      assert ops == ops[..|ops| - 1] + [ops[|ops| - 1]];
    }
  }

  /**
   * The verdict on a push, after any run: empty bodies are refused first, then everything once
   * the queue was closed, and of the rest exactly what would overrun the peer cap (with the
   * reserve of its family) or, for the four stream families, the stream cap.
   */
  lemma PushesExactly(peerCap: nat, streamCap: nat, ops: seq<Op>, f: Frame)
    ensures var s, n := RunOps(Start(peerCap, streamCap), ops).state, |f.body|;
            var reserve := if f.family.TerminalPublication? then MAX_FRAME_BYTES + 512
                           else if f.family.DeliveryConfirmation? then 512 else 0;
            var fits := && Queued(s.log, AccountOf(f), EVERY) + n <= peerCap + reserve
                        && (f.family in STREAM ==> Queued(s.log, AccountOf(f), STREAM) + n <= streamCap);
            && (Verdict(s, f) == Err(Empty) <==> n == 0)
            && (Verdict(s, f) == Err(Closed) <==> n > 0 && DoClose in ops)
            && (Verdict(s, f) == Err(Saturated) <==> n > 0 && DoClose !in ops && !fits)
            && (Verdict(s, f).Ok? <==> n > 0 && DoClose !in ops && fits)
  {
    RunFlags(peerCap, streamCap, ops);
    QueuedIsCharged(RunOps(Start(peerCap, streamCap), ops).state.log, AccountOf(f));
  }

  /** Over every run the bytes of each account stay within the caps of their families. */
  lemma RunsStayWithinCaps(peerCap: nat, streamCap: nat, ops: seq<Op>, a: Account)
    ensures var log := RunOps(Start(peerCap, streamCap), ops).state.log;
            && Queued(log, a, STREAM) <= streamCap
            && Queued(log, a, EVERY - RESERVED) <= peerCap
            && Queued(log, a, EVERY - {TerminalPublication}) <= peerCap + 512
            && Queued(log, a, EVERY) <= peerCap + MAX_FRAME_BYTES + 512
  {
    var r := RunOps(Start(peerCap, streamCap), ops);
    RunsConserveFrames(peerCap, streamCap, ops);
    RunFlags(peerCap, streamCap, ops);
    QueuedIsCharged(r.state.log, a);
    assert Bounded(r.state, a);
  }

  /**
   * The reserves are there when they are needed. However full the queue of a peer is, while it is
   * open: a terminal removal of one frame is accepted unless one is already queued, with its
   * envelope too when no receipt is queued either; and a receipt of 512 bytes is accepted unless
   * a receipt or a terminal removal is queued.
   */
  lemma ReservesAreAvailable(peerCap: nat, streamCap: nat, ops: seq<Op>, f: Frame)
    requires DoClose !in ops && f.body != []
    ensures var s := RunOps(Start(peerCap, streamCap), ops).state;
            var queued := set g | g in s.log && AccountOf(g) == AccountOf(f) :: g.family;
            && (f.family.TerminalPublication? && TerminalPublication !in queued && |f.body| <= MAX_FRAME_BYTES ==>
                  Verdict(s, f).Ok?)
            && (f.family.TerminalPublication? && queued !! RESERVED && |f.body| <= MAX_FRAME_BYTES + 512 ==>
                  Verdict(s, f).Ok?)
            && (f.family.DeliveryConfirmation? && queued !! RESERVED && |f.body| <= 512 ==> Verdict(s, f).Ok?)
  {
    var log, a := RunOps(Start(peerCap, streamCap), ops).state.log, AccountOf(f);
    var queued := set g | g in log && AccountOf(g) == a :: g.family;
    assert forall g <- log :: AccountOf(g) == a ==> g.family in queued;
    PushesExactly(peerCap, streamCap, ops, f);
    RunsStayWithinCaps(peerCap, streamCap, ops, a);
    hide Verdict, Queued;
    if TerminalPublication !in queued {
      NoneQueued(log, a, EVERY, {TerminalPublication});
    }
    if queued !! RESERVED {
      NoneQueued(log, a, EVERY, RESERVED);
    }
  }

  /** A saturated content stream leaves room: control and governance frames never see its cap. */
  lemma StreamCapSparesControl(s: State, streamCap: nat, f: Frame)
    requires f.family !in STREAM
    ensures Verdict(s, f) == Verdict(s.(streamCap := streamCap), f)
  {}

  // ---------------------------------------------------------------------------
  // The order of service
  // ---------------------------------------------------------------------------

  /**
   * Governance is served first; then checkpoints, session control and receipts; then
   * publications, subscriptions and terminal removals; hints and reconciliation last. Within one
   * of these groups the earliest arrival is served.
   */
  lemma ServesByUrgency(s: State)
    requires s.log != []
    ensures var next := Next(s).value.family;
            && ((exists f <- s.log :: f.family in URGENT) ==> next in URGENT)
            && ((exists f <- s.log :: f.family in URGENT + CONTROL) ==> next in URGENT + CONTROL)
            && ((exists f <- s.log :: f.family in URGENT + CONTROL + TRAFFIC) ==> next in URGENT + CONTROL + TRAFFIC)
    ensures exists i: nat :: i < |s.log| && Next(s) == Some(s.log[i]) && Pop(s).log == s.log[..i] + s.log[i + 1..]
                             && forall j: nat :: j < i ==> !ServedAlike(s.log[j], s.log[i])
  {
    var i := Best(s.log);
    forall f <- s.log ensures Ordinal(Class(f)) <= Ordinal(Class(s.log[i])) {
      var j: nat :| j < |s.log| && s.log[j] == f;
    }
    forall j: nat | j < i ensures !ServedAlike(s.log[j], s.log[i]) {}
  }

  predicate ServedAlike(f: Frame, g: Frame) {
    || (f.family in URGENT && g.family in URGENT)
    || (f.family in CONTROL && g.family in CONTROL)
    || (f.family in TRAFFIC && g.family in TRAFFIC)
    || (f.family in HINTS && g.family in HINTS)
  }
}

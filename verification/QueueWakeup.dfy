/**
 * Producers, `close` and the asynchronous `recv` loop of crates/iroh-rooms-net/src/queue.rs as
 * an interleaving of atomic steps. Every lock scope and every notification is one step, so a
 * producer can be preempted between releasing the lock and notifying, and the consumer between
 * any two of pop, enrolment, recheck and await.
 *
 * The notification cell holds at most one permit and at most one enrolled waiter. `notify_one`
 * wakes the sleeping waiter or stores the permit; `notify_waiters` wakes only a waiter that is
 * enrolled; enrolling consumes a stored permit; dropping a waiter that `notify_one` woke hands
 * the notification back as a permit.
 */
module QueueWakeup {
  import opened Queue

  datatype Wake = Asleep | ByPermit | ByOne | ByAll

  datatype Consumer =
    | Idle                  // no `recv` in progress
    | Polling               // about to lock and pop
    | Unenrolled            // found the queue empty; about to enrol
    | Enrolled(wake: Wake)  // enrolled; about to recheck under the lock
    | Parked(wake: Wake)    // awaiting its notification

  /** `ended` records that some `recv` returned `None`. */
  datatype System = System(run: Run, permit: bool, consumer: Consumer, owedOne: nat, owedAll: nat, ended: bool)

  function Init(peerCap: nat, streamCap: nat): System {
    System(Start(peerCap, streamCap), false, Idle, 0, 0, false)
  }

  datatype Action =
    | PushLocked(frame: Frame) // `try_push` up to the release of the lock
    | NotifyOne                // its `notify_one`
    | CloseLocked              // `close` up to the release of the lock
    | NotifyWaiters            // its `notify_waiters`
    | CallRecv
    | PollQueue
    | Enrol
    | Recheck
    | Resume                   // the await completes
    | Cancel                   // the pending `recv` future is dropped

  predicate Waiting(c: Consumer) {
    (c.Enrolled? || c.Parked?) && c.wake.Asleep?
  }

  function Woken(c: Consumer, w: Wake): Consumer
    requires Waiting(c)
  {
    if c.Enrolled? then Enrolled(w) else Parked(w)
  }

  predicate Enabled(s: System, a: Action) {
    match a
    case PushLocked(_) => true
    case NotifyOne => s.owedOne > 0
    case CloseLocked => true
    case NotifyWaiters => s.owedAll > 0
    case CallRecv => s.consumer.Idle?
    case PollQueue => s.consumer.Polling?
    case Enrol => s.consumer.Unenrolled?
    case Recheck => s.consumer.Enrolled?
    case Resume => s.consumer.Parked? && !s.consumer.wake.Asleep?
    case Cancel => s.consumer.Parked? && !s.consumer.wake.ByPermit?
  }

  function Apply(s: System, a: Action): System
    requires Enabled(s, a)
  {
    match a
    case PushLocked(f) =>
      s.(run := Step(s.run, TryPush(f)),
         owedOne := if Verdict(s.run.state, f).Ok? then s.owedOne + 1 else s.owedOne)
    case NotifyOne =>
      if Waiting(s.consumer) then s.(owedOne := s.owedOne - 1, consumer := Woken(s.consumer, ByOne))
      else s.(owedOne := s.owedOne - 1, permit := true)
    case CloseLocked =>
      s.(run := Step(s.run, DoClose), owedAll := s.owedAll + 1)
    case NotifyWaiters =>
      if Waiting(s.consumer) then s.(owedAll := s.owedAll - 1, consumer := Woken(s.consumer, ByAll))
      else s.(owedAll := s.owedAll - 1)
    case CallRecv =>
      s.(consumer := Polling)
    case PollQueue =>
      s.(run := Step(s.run, TryPop), consumer := if Next(s.run.state).Some? then Idle else Unenrolled)
    case Enrol =>
      s.(permit := false, consumer := Enrolled(if s.permit then ByPermit else Asleep))
    case Recheck =>
      if s.run.state.closed && Depth(s.run.state.log) == 0 then
        s.(consumer := Idle, ended := true, permit := s.permit || s.consumer.wake.ByOne?)
      else
        s.(consumer := Parked(s.consumer.wake))
    case Resume =>
      s.(consumer := Polling)
    case Cancel =>
      s.(consumer := Idle, permit := s.permit || s.consumer.wake.ByOne?)
  }

  /** The states reached by running the given actions, when each is possible in turn. */
  ghost predicate Reaches(s: System, actions: seq<Action>, t: System)
    decreases |actions|
  {
    if actions == [] then s == t
    else Enabled(s, actions[0]) && Reaches(Apply(s, actions[0]), actions[1..], t)
  }

  /** What keeps wakeups from being lost. */
  ghost predicate WakeSafe(s: System) {
    && (s.consumer.Unenrolled? && s.run.state.log != [] ==> s.permit || s.owedOne > 0)
    && (Waiting(s.consumer) && s.run.state.log != [] ==> s.owedOne > 0)
    && (s.consumer == Parked(Asleep) && s.run.state.closed && s.run.state.log == [] ==> s.owedAll > 0)
    && (s.ended ==> s.run.state.closed && s.run.state.log == [])
  }

  ghost predicate Safe(s: System) {
    Invariant(s.run) && WakeSafe(s)
  }

  lemma ApplyKeepsWakeSafe(s: System, a: Action)
    requires WakeSafe(s) && NoEmptyBodies(s.run.state.log) && Enabled(s, a)
    ensures WakeSafe(Apply(s, a))
  {
    DepthZeroExactly(s.run.state.log);
  }

  lemma ApplyKeepsSafe(s: System, a: Action)
    requires Safe(s) && Enabled(s, a)
    ensures Safe(Apply(s, a))
  {
    ApplyKeepsWakeSafe(s, a);
    match a
    case PushLocked(f) => StepKeepsInvariant(s.run, TryPush(f));
    case CloseLocked => StepKeepsInvariant(s.run, DoClose);
    case PollQueue => StepKeepsInvariant(s.run, TryPop);
    case _ =>
  }

  lemma {:induction false} ReachableIsSafe(s: System, actions: seq<Action>, t: System)
    requires Safe(s) && Reaches(s, actions, t)
    ensures Safe(t)
    decreases |actions|
  {
    if actions != [] {
      ApplyKeepsSafe(s, actions[0]);
      ReachableIsSafe(Apply(s, actions[0]), actions[1..], t);
    }
  }

  lemma InitIsSafe(peerCap: nat, streamCap: nat)
    ensures Safe(Init(peerCap, streamCap))
  {
    RunsConserveFrames(peerCap, streamCap, []);
  }

  /**
   * No lost wakeup, over every interleaving: a consumer parked without a wakeup, while no
   * notification is owed, is waiting on an open and empty queue.
   */
  lemma NoLostWakeup(peerCap: nat, streamCap: nat, actions: seq<Action>, t: System)
    requires Reaches(Init(peerCap, streamCap), actions, t)
    requires t.consumer == Parked(Asleep) && t.owedOne == 0 && t.owedAll == 0
    ensures t.run.state.log == [] && !t.run.state.closed
  {
    InitIsSafe(peerCap, streamCap);
    ReachableIsSafe(Init(peerCap, streamCap), actions, t);
  }

  /**
   * `recv` has returned `None` only if the queue is closed and everything accepted has been
   * delivered, class by class in order.
   */
  lemma NoneMeansDrained(peerCap: nat, streamCap: nat, actions: seq<Action>, t: System)
    requires Reaches(Init(peerCap, streamCap), actions, t) && t.ended
    ensures t.run.state.closed
    ensures multiset(t.run.accepted) == multiset(t.run.popped)
    ensures forall p :: OfClass(t.run.accepted, p) == OfClass(t.run.popped, p)
  {
    InitIsSafe(peerCap, streamCap);
    ReachableIsSafe(Init(peerCap, streamCap), actions, t);
    assert multiset(t.run.state.log) == multiset{};
  }

  // ---------------------------------------------------------------------------
  // Progress in every interleaving
  // ---------------------------------------------------------------------------

  /** A step of the `recv` loop itself. */
  predicate IsOwn(a: Action) {
    a.PollQueue? || a.Enrol? || a.Recheck? || a.Resume?
  }

  /** A step of a producer or of `close`. */
  predicate IsOutside(a: Action) {
    a.PushLocked? || a.NotifyOne? || a.CloseLocked? || a.NotifyWaiters?
  }

  function OwnSteps(actions: seq<Action>): nat
    decreases |actions|
  {
    if actions == [] then 0 else (if IsOwn(actions[0]) then 1 else 0) + OwnSteps(actions[1..])
  }

  /** A `recv` is in progress and has something to return. */
  predicate Due(s: System) {
    !s.consumer.Idle? && (s.run.state.log != [] || s.run.state.closed)
  }

  /** How many steps of its own the `recv` still takes. */
  function StepsLeft(s: System): (n: nat)
    ensures n <= 4 && (n == 0 <==> s.consumer.Idle?)
  {
    var found := s.run.state.log != [];
    match s.consumer
    case Idle => 0
    case Polling => if found then 1 else 3
    case Unenrolled => if found then 4 else 2
    case Enrolled(_) => if found then 3 else 1
    case Parked(_) => if found then 2 else 4
  }

  /** `f` is the frame that was next in `log`, or is more urgent than everything in it. */
  ghost predicate NextOrMoreUrgent(log: seq<Frame>, f: Frame)
    requires log != []
  {
    f == log[Best(log)] || forall g <- log :: Ordinal(Class(g)) < Ordinal(Class(f))
  }

  /** Frames that arrive later displace the next one only if they are more urgent. */
  lemma LaterFramesDisplace(log: seq<Frame>, more: seq<Frame>)
    requires log != []
    ensures NextOrMoreUrgent(log, (log + more)[Best(log + more)])
  {
    var all := log + more;
    var i := Best(all);
    if i < |log| {
      assert forall j: nat :: j < |log| ==> all[j] == log[j];
      BestIsUnique(log, i);
    } else {
      forall g <- log ensures Ordinal(Class(g)) < Ordinal(Class(all[i])) {
        var j :| 0 <= j < |log| && log[j] == g;
        assert all[j] == g;
      }
    }
  }

  lemma BestIsUnique(log: seq<Frame>, i: nat)
    requires i < |log|
    requires forall j: nat :: j < |log| ==> Ordinal(Class(log[j])) <= Ordinal(Class(log[i]))
    requires forall j: nat :: j < i ==> Ordinal(Class(log[j])) < Ordinal(Class(log[i]))
    ensures i == Best(log)
  {
    var b := Best(log);
    assert Ordinal(Class(log[b])) == Ordinal(Class(log[i]));
  }

  /** What the `recv` in progress in `s` has brought about in `t`, so far or at its return. */
  ghost predicate Served(s: System, t: System) {
    if !t.consumer.Idle? then
      && t.run.popped == s.run.popped && s.run.state.log <= t.run.state.log
      && (s.run.state.log == [] ==> t.run.state.log == [])
    else if s.run.state.log != [] then
      && |t.run.popped| == |s.run.popped| + 1 && s.run.popped <= t.run.popped
      && NextOrMoreUrgent(s.run.state.log, t.run.popped[|s.run.popped|])
    else t.run.popped == s.run.popped && t.ended
  }

  lemma OutsideKeepsDue(s: System, a: Action)
    requires Due(s) && IsOutside(a) && Enabled(s, a)
    ensures Due(Apply(s, a)) && StepsLeft(Apply(s, a)) == StepsLeft(s) && Served(s, Apply(s, a))
  {}

  lemma OwnStepCounts(s: System, a: Action)
    requires Safe(s) && Due(s) && IsOwn(a) && Enabled(s, a)
    ensures StepsLeft(Apply(s, a)) == StepsLeft(s) - 1 && Served(s, Apply(s, a))
    ensures !Apply(s, a).consumer.Idle? ==> Due(Apply(s, a))
  {
    DepthZeroExactly(s.run.state.log);
    if s.run.state.log != [] {
      assert s.run.state.log + [] == s.run.state.log;
      LaterFramesDisplace(s.run.state.log, []);
    }
  }

  lemma IdleStaysServed(s: System, t: System, a: Action)
    requires t.consumer.Idle? && Served(s, t) && (IsOwn(a) || IsOutside(a)) && Enabled(t, a)
    ensures !IsOwn(a) && Apply(t, a).consumer.Idle? && Served(s, Apply(t, a))
  {}

  lemma ServedSoFar(s: System, m: System, t: System)
    requires Served(s, m) && Served(m, t) && !m.consumer.Idle?
    ensures Served(s, t)
  {
    var log, later := s.run.state.log, m.run.state.log;
    if t.consumer.Idle? && log != [] {
      var f := t.run.popped[|s.run.popped|];
      assert later == log + later[|log|..];
      LaterFramesDisplace(log, later[|log|..]);
      assert forall g <- log :: g in later;
      assert NextOrMoreUrgent(later, f);
    }
  }

  lemma {:induction false} IdleTakesNoSteps(s: System, m: System, actions: seq<Action>, t: System)
    requires m.consumer.Idle? && Served(s, m) && Reaches(m, actions, t)
    requires forall a <- actions :: IsOwn(a) || IsOutside(a)
    ensures OwnSteps(actions) == 0 && t.consumer.Idle? && Served(s, t)
    decreases |actions|
  {
    if actions != [] {
      hide Served, Apply, Enabled;
      assert actions[0] in actions;
      IdleStaysServed(s, m, actions[0]);
      IdleTakesNoSteps(s, Apply(m, actions[0]), actions[1..], t);
    }
  }

  /**
   * Progress in every interleaving: however producers and closes run in between, a `recv` with
   * something to return has returned exactly when it has taken the steps it had left, at most
   * four of its own. If a frame was queued it returns the one that was next, or a more urgent one
   * pushed meanwhile; otherwise nothing. Until then it can step or a wakeup is owed to it.
   */
  lemma {:induction false} RecvReturnsInEveryInterleaving(s: System, actions: seq<Action>, t: System)
    requires Safe(s) && Due(s) && Reaches(s, actions, t)
    requires forall a <- actions :: IsOwn(a) || IsOutside(a)
    ensures OwnSteps(actions) + StepsLeft(t) == StepsLeft(s)
    ensures t.consumer.Idle? <==> OwnSteps(actions) == StepsLeft(s)
    ensures Served(s, t)
    ensures !t.consumer.Idle? ==> CanProceed(t) || t.owedOne > 0 || t.owedAll > 0
    decreases |actions|
  {
    if actions == [] {
      SafeProceeds(t);
    } else {
      var a, m := actions[0], Apply(s, actions[0]);
      assert a in actions;
      ApplyKeepsSafe(s, a);
      if IsOwn(a) {
        OwnStepCounts(s, a);
      } else {
        OutsideKeepsDue(s, a);
      }
      hide Served, Apply, Enabled, Safe, StepsLeft, CanProceed;
      if m.consumer.Idle? {
        IdleTakesNoSteps(s, m, actions[1..], t);
      } else {
        RecvReturnsInEveryInterleaving(m, actions[1..], t);
        ServedSoFar(s, m, t);
      }
    }
  }

  /** The consumer's next step is possible. */
  predicate CanProceed(s: System) {
    Enabled(s, PollQueue) || Enabled(s, Enrol) || Enabled(s, Recheck) || Enabled(s, Resume)
  }

  lemma SafeProceeds(s: System)
    requires Safe(s) && Due(s)
    ensures CanProceed(s) || s.owedOne > 0 || s.owedAll > 0
  {
    hide Invariant;
  }
}

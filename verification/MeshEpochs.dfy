/**
 * The mesh epochs of crates/iroh-rooms-net/src/gossip.rs: background joins finish late and out
 * of order, and an epoch per room decides which of them may still install its mesh.
 *
 * The epoch lock is held across the nested mesh lock, so an attempt and an installation are two
 * steps each, with removals and lookups free to run in between.
 */
module MeshEpochs {
  import opened Prelude

  type RoomId = nat

  /** An installed mesh, known by the room's attempt number that produced it. */
  type Attempt = nat

  /** `wrapping_add(1)` on a 64-bit counter. */
  function WrappingNext(epoch: u64): u64 {
    if epoch == U64_MAX then 0 else epoch + 1
  }

  /** The epoch handed to the n-th attempt on a room. */
  function EpochOf(n: Attempt): u64 {
    n % (U64_MAX + 1)
  }

  // ---------------------------------------------------------------------------
  // The state in place
  // ---------------------------------------------------------------------------

  class GossipState {
    var epochs: map<RoomId, u64>
    var meshes: map<RoomId, Attempt>
    /** How many attempts each room has seen. */
    ghost var attempts: map<RoomId, nat>

    ghost function State(): System
      reads this
    {
      System(epochs, meshes, attempts, Free)
    }

    ghost predicate Valid()
      reads this
    {
      Safe(State())
    }

    constructor ()
      ensures Valid() && State() == START
    {
      epochs, meshes, attempts := map[], map[], map[];
    }

    method BeginMeshAttempt(room: RoomId) returns (epoch: u64)
      requires Valid()
      modifies this
      ensures Valid()
      ensures State() == old(Next(Next(State(), Bump(room)), Drop))
      ensures epoch == EpochOf(Count(attempts, room)) && room !in meshes
    {
      StepKeepsSafe(State(), Bump(room));
      StepKeepsSafe(Next(State(), Bump(room)), Drop);
      epoch := WrappingNext(if room in epochs then epochs[room] else 0);
      epochs := epochs[room := epoch];
      attempts := attempts[room := Count(attempts, room) + 1];
      meshes := meshes - {room};
    }

    /** Installs the mesh of attempt `n`, which was handed `epoch`, unless it was superseded. */
    method InstallMeshIfCurrent(room: RoomId, epoch: u64, n: Attempt) returns (installed: bool)
      requires Valid() && 1 <= n <= Count(attempts, room) && epoch == EpochOf(n)
      modifies this`meshes
      ensures Valid()
      ensures installed <==> EpochOf(n) == EpochOf(Count(attempts, room))
      ensures meshes == if installed then old(meshes)[room := n] else old(meshes)
    {
      if room !in epochs || epochs[room] != epoch {
        return false;
      }
      meshes := meshes[room := n];
      return true;
    }

    method RemoveMesh(room: RoomId) returns (removed: Option<Attempt>)
      requires Valid()
      modifies this`meshes
      ensures Valid() && meshes == old(meshes) - {room}
      ensures removed == if room in old(meshes) then Some(old(meshes)[room]) else None
    {
      removed := if room in meshes then Some(meshes[room]) else None;
      meshes := meshes - {room};
    }
  }

  // ---------------------------------------------------------------------------
  // Every interleaving
  // ---------------------------------------------------------------------------

  /** Who holds the epoch lock: nobody, an attempt yet to drop the old mesh, an install yet to insert. */
  datatype Holder = Free | Dropping(room: RoomId) | Inserting(room: RoomId, n: Attempt)

  datatype System = System(
    epochs: map<RoomId, u64>,
    meshes: map<RoomId, Attempt>,
    attempts: map<RoomId, nat>,
    holder: Holder)

  const START := System(map[], map[], map[], Free)

  function Count(attempts: map<RoomId, nat>, room: RoomId): nat {
    if room in attempts then attempts[room] else 0
  }

  datatype Action =
    | Bump(room: RoomId)              // begin_mesh_attempt: take the epoch lock, advance the epoch
    | Drop                            // begin_mesh_attempt: drop the old mesh, release
    | Check(room: RoomId, n: Attempt) // install_mesh_if_current: take the epoch lock, compare
    | Insert                          // install_mesh_if_current: insert, release
    | Remove(room: RoomId)            // remove_mesh: mesh lock only

  /** A step can run when the epoch lock allows it; only a started attempt can check in. */
  predicate Enabled(s: System, a: Action) {
    match a
    case Bump(_) => s.holder.Free?
    case Drop => s.holder.Dropping?
    case Check(room, n) => s.holder.Free? && 1 <= n <= Count(s.attempts, room)
    case Insert => s.holder.Inserting?
    case Remove(_) => true
  }

  /** The comparison of an installation. */
  predicate IsCurrent(s: System, room: RoomId, n: Attempt) {
    room in s.epochs && s.epochs[room] == EpochOf(n)
  }

  function Next(s: System, a: Action): System
    requires Enabled(s, a)
  {
    match a
    case Bump(room) =>
      System(s.epochs[room := WrappingNext(if room in s.epochs then s.epochs[room] else 0)], s.meshes,
             s.attempts[room := Count(s.attempts, room) + 1], Dropping(room))
    case Drop => s.(meshes := s.meshes - {s.holder.room}, holder := Free)
    case Check(room, n) => if IsCurrent(s, room, n) then s.(holder := Inserting(room, n)) else s
    case Insert => s.(meshes := s.meshes[s.holder.room := s.holder.n], holder := Free)
    case Remove(room) => s.(meshes := s.meshes - {room})
  }

  /** The state after a list of actions, if each could run when its turn came. */
  function After(run: seq<Action>): Option<System> {
    if run == [] then Some(START)
    else
      match After(run[..|run| - 1])
      case None => None
      case Some(s) => if Enabled(s, run[|run| - 1]) then Some(Next(s, run[|run| - 1])) else None
  }

  // ---------------------------------------------------------------------------
  // Safety
  // ---------------------------------------------------------------------------

  ghost predicate CountsMatch(s: System) {
    && (forall room :: room in s.epochs <==> Count(s.attempts, room) > 0)
    && (forall room :: room in s.epochs ==> s.epochs[room] == EpochOf(Count(s.attempts, room)))
  }

  /** The attempt was started and carries the room's current epoch. */
  predicate Holds(s: System, room: RoomId, n: Attempt) {
    1 <= n <= Count(s.attempts, room) && EpochOf(n) == EpochOf(Count(s.attempts, room))
  }

  ghost predicate Safe(s: System) {
    && CountsMatch(s)
    && (forall room :: room in s.meshes && s.holder != Dropping(room) ==> Holds(s, room, s.meshes[room]))
    && (s.holder.Inserting? ==> Holds(s, s.holder.room, s.holder.n))
  }

  lemma EpochAdvances(n: nat)
    ensures WrappingNext(EpochOf(n)) == EpochOf(n + 1)
  {}

  lemma BumpKeepsCounts(s: System, room: RoomId)
    requires CountsMatch(s) && s.holder.Free?
    ensures CountsMatch(Next(s, Bump(room)))
  {
    hide EpochOf, WrappingNext;
    EpochAdvances(Count(s.attempts, room));
    assert EpochOf(0) == 0 by { EpochOfZero(); }
  }

  lemma EpochOfZero()
    ensures EpochOf(0) == 0
  {}

  lemma StepKeepsSafe(s: System, a: Action)
    requires Safe(s) && Enabled(s, a)
    ensures Safe(Next(s, a))
  {
    hide EpochOf, WrappingNext;
    if a.Bump? {
      BumpKeepsCounts(s, a.room);
    }
  }

  lemma {:induction false} ReachableIsSafe(run: seq<Action>)
    ensures After(run).Some? ==> Safe(After(run).value)
  {
    if run == [] {
    } else {
      hide Safe, Next, Enabled;
      ReachableIsSafe(run[..|run| - 1]);
      if After(run[..|run| - 1]).Some? && Enabled(After(run[..|run| - 1]).value, run[|run| - 1]) {
        StepKeepsSafe(After(run[..|run| - 1]).value, run[|run| - 1]);
      }
    }
  }

  lemma SameEpoch(n: nat, m: nat)
    requires n <= m
    ensures EpochOf(n) == EpochOf(m) <==> (m - n) % (U64_MAX + 1) == 0
    ensures m <= U64_MAX ==> (EpochOf(n) == EpochOf(m) <==> n == m)
  {}

  /**
   * In every interleaving an installed mesh carries its room's current epoch, unless a newer
   * attempt is about to drop it; below 2^64 attempts that mesh is the latest attempt's own.
   */
  lemma InstalledIsCurrent(run: seq<Action>, room: RoomId)
    requires After(run).Some? && room in After(run).value.meshes
    ensures var s := After(run).value;
            s.holder == Dropping(room)
            || (IsCurrent(s, room, s.meshes[room])
                && (Count(s.attempts, room) <= U64_MAX ==> s.meshes[room] == Count(s.attempts, room)))
  {
    hide EpochOf;
    ReachableIsSafe(run);
    var s := After(run).value;
    if s.holder != Dropping(room) {
      SameEpoch(s.meshes[room], Count(s.attempts, room));
    }
  }

  /**
   * Exactly which attempts may still install: those a whole number of 2^64 attempts behind the
   * latest. So below 2^64 attempts a superseded join never installs.
   */
  lemma InstallsExactly(run: seq<Action>, room: RoomId, n: Attempt)
    requires After(run).Some? && Enabled(After(run).value, Check(room, n))
    ensures var s := After(run).value;
            && (IsCurrent(s, room, n) <==> (Count(s.attempts, room) - n) % (U64_MAX + 1) == 0)
            && (Count(s.attempts, room) <= U64_MAX ==> (IsCurrent(s, room, n) <==> n == Count(s.attempts, room)))
            && (!IsCurrent(s, room, n) ==> Next(s, Check(room, n)) == s)
            && (IsCurrent(s, room, n) ==> Next(Next(s, Check(room, n)), Insert).meshes == s.meshes[room := n])
  {
    hide EpochOf;
    ReachableIsSafe(run);
    SameEpoch(n, Count(After(run).value.attempts, room));
  }

  /** Removing a mesh cancels nothing: the latest attempt can still install afterwards. */
  lemma RemoveCancelsNothing(run: seq<Action>, room: RoomId)
    requires After(run).Some? && After(run).value.holder.Free? && Count(After(run).value.attempts, room) > 0
    ensures var s := After(run).value;
            var removed := Next(s, Remove(room));
            var n := Count(s.attempts, room);
            && room !in removed.meshes
            && Enabled(removed, Check(room, n))
            && IsCurrent(removed, room, n)
            && Next(Next(removed, Check(room, n)), Insert).meshes == removed.meshes[room := n]
  {
    hide EpochOf;
    ReachableIsSafe(run);
  }

  /** `k` attempts in a row on one room. */
  function Attempts(room: RoomId, k: nat): seq<Action> {
    if k == 0 then [] else Attempts(room, k - 1) + [Bump(room)] + [Drop]
  }

  lemma {:induction false} AttemptsReach(room: RoomId, k: nat)
    ensures After(Attempts(room, k)).Some?
    ensures After(Attempts(room, k)).value.holder.Free? && Count(After(Attempts(room, k)).value.attempts, room) == k
  {
    if k > 0 {
      hide WrappingNext, After;
      AttemptsReach(room, k - 1);
      AfterSnoc(Attempts(room, k - 1), Bump(room));
      AfterSnoc(Attempts(room, k - 1) + [Bump(room)], Drop);
    } else {
      assert Attempts(room, k) == [];
    }
  }

  lemma AfterSnoc(run: seq<Action>, a: Action)
    requires After(run).Some? && Enabled(After(run).value, a)
    ensures After(run + [a]) == Some(Next(After(run).value, a))
  {
    hide Next, Enabled;
    assert (run + [a])[..|run + [a]| - 1] == run;
  }

  /** The counter wraps: after 2^64 further attempts the first one would install again. */
  lemma FirstAttemptReturns(room: RoomId)
    ensures After(Attempts(room, U64_MAX + 2)).Some?
    ensures Enabled(After(Attempts(room, U64_MAX + 2)).value, Check(room, 1))
    ensures IsCurrent(After(Attempts(room, U64_MAX + 2)).value, room, 1)
  {
    hide After, Attempts;
    AttemptsReach(room, U64_MAX + 2);
    InstallsExactly(Attempts(room, U64_MAX + 2), room, 1);
  }
}

/**
 * The path of a frame from one peer's outbound queue to the other peer's inbound queue:
 * `writer_task` and `reader_task` of crates/iroh-rooms-net/src/peer.rs between two queues and
 * a link that may be cut anywhere. The runs interleave pushes, closes and pops at both ends,
 * traffic of other peers on the shared inbound queue, and the steps of the two tasks.
 */
module WirePath {
  import opened Prelude
  import opened Queue
  import opened Framing
  import opened Subsequences

  // ---------------------------------------------------------------------------
  // Lanes: the bodies of one account and one priority class
  // ---------------------------------------------------------------------------

  function LaneOf(frames: seq<Frame>, a: Account): seq<seq<byte>> {
    if frames == [] then []
    else (if AccountOf(frames[0]) == a then [frames[0].body] else []) + LaneOf(frames[1..], a)
  }

  /** The bodies of account `a` in class `p`, in order. */
  function Lane(frames: seq<Frame>, a: Account, p: Priority): seq<seq<byte>> {
    LaneOf(OfClass(frames, p), a)
  }

  lemma {:induction false} LaneOfConcat(x: seq<Frame>, y: seq<Frame>, a: Account)
    ensures LaneOf(x + y, a) == LaneOf(x, a) + LaneOf(y, a)
  {
    if x == [] {
      assert x + y == y;
    } else {
      assert (x + y)[1..] == x[1..] + y;
      LaneOfConcat(x[1..], y, a);
      var h := if AccountOf(x[0]) == a then [x[0].body] else [];
      assert h + (LaneOf(x[1..], a) + LaneOf(y, a)) == (h + LaneOf(x[1..], a)) + LaneOf(y, a);
    }
  }

  lemma LaneAppend(x: seq<Frame>, f: Frame, a: Account, p: Priority)
    ensures Lane(x + [f], a, p) ==
            Lane(x, a, p) + (if AccountOf(f) == a && Class(f) == p then [f.body] else [])
  {
    OfClassConcat(x, [f], p);
    OfClassOne(f, p);
    LaneOfConcat(OfClass(x, p), OfClass([f], p), a);
    if Class(f) == p {
      assert LaneOf([f], a) == (if AccountOf(f) == a then [f.body] else []) + LaneOf([f][1..], a);
    }
  }

  /** In every queue run, a lane leaves in the order it entered. */
  lemma LaneSplits(r: Run, a: Account, p: Priority)
    requires Accounts(r)
    ensures Lane(r.accepted, a, p) == Lane(r.popped, a, p) + Lane(r.state.log, a, p)
  {
    LaneOfConcat(OfClass(r.popped, p), OfClass(r.state.log, p), a);
  }

  /** The bodies that classify into class `p`, in order. */
  function Classified(bodies: seq<Body>, classify: seq<byte> -> Family, p: Priority): seq<seq<byte>> {
    if bodies == [] then []
    else
      var last := bodies[|bodies| - 1];
      Classified(bodies[..|bodies| - 1], classify, p) + (if PriorityOf(classify(last)) == p then [last] else [])
  }

  lemma {:induction false} ClassifiedPrefix(bodies: seq<Body>, n: nat, classify: seq<byte> -> Family, p: Priority)
    requires n <= |bodies|
    ensures Sub(Classified(bodies[..n], classify, p), Classified(bodies, classify, p))
    decreases |bodies|
  {
    if n == |bodies| {
      assert bodies[..n] == bodies;
      SubRefl(Classified(bodies, classify, p));
    } else {
      var less := bodies[..|bodies| - 1];
      ClassifiedPrefix(less, n, classify, p);
      assert less[..n] == bodies[..n];
      SubPrefix(Classified(less, classify, p), Classified(bodies, classify, p)[|Classified(less, classify, p)|..]);
      assert Classified(bodies, classify, p) ==
             Classified(less, classify, p) + Classified(bodies, classify, p)[|Classified(less, classify, p)|..];
      SubTrans(Classified(bodies[..n], classify, p), Classified(less, classify, p), Classified(bodies, classify, p));
    }
  }

  // ---------------------------------------------------------------------------
  // The path
  // ---------------------------------------------------------------------------

  /**
   * `sender` is the outbound queue of the link to peer `to`; `written` are the bodies whose
   * frames went out whole, `partial` the prefix of a frame left by a failed write; `read` are
   * the bodies the reader obtained; `receiver` is the shared inbound queue, on which this
   * link's frames are charged to peer `from`. `lossy` records that a frame was dropped: an
   * oversized body, a failed write, or a frame the inbound queue refused.
   */
  datatype Path = Path(
    sender: Run, written: seq<Body>, partial: seq<byte>, writing: bool,
    read: seq<Body>, reading: bool, receiver: Run, lossy: bool)

  function WireBytes(s: Path): seq<byte> { Wire(s.written) + s.partial }

  datatype Event =
    | Send(body: seq<byte>)          // the engine routes a frame to the peer
    | CloseSender
    | Write(limit: Option<nat>)      // one turn of the writer; the link fails after `limit` bytes
    | Read(arrived: nat)             // one turn of the reader, on a stream that ends after `arrived` bytes
    | Elsewhere(frame: Frame)        // another peer or the gossip overlay feeds the inbound queue
    | Deliver                        // the engine pump takes a frame
    | CloseReceiver

  datatype Link = Link(to: PeerId, from: PeerId, classify: seq<byte> -> Family)

  function Outgoing(l: Link, body: seq<byte>): Frame { Frame(l.to, body, l.classify(body), false) }

  function Incoming(l: Link, body: seq<byte>): Frame { Frame(l.from, body, l.classify(body), false) }

  function Origin(l: Link): Account { Account(l.to, false) }

  function Arrival(l: Link): Account { Account(l.from, false) }

  /** One turn of `writer_task`: pop, drop an oversized body, write the frame or fail. */
  function WriteStep(l: Link, s: Path, limit: Option<nat>): Path {
    if !s.writing then s
    else
      match Next(s.sender.state)
      case None => s
      case Some(f) =>
        var t := s.(sender := Step(s.sender, TryPop));
        if !Fits(f.body) then t.(lossy := true)
        else if limit.Some? && limit.value < |Encode(f.body)| then
          t.(partial := Encode(f.body)[..limit.value], writing := false, lossy := true)
        else t.(written := s.written + [f.body])
  }

  /** The frame a turn of the reader obtains, if any. */
  function ReadNow(s: Path, arrived: nat): Option<Body> {
    var wire := WireBytes(s);
    var start := |Wire(s.read)|;
    var end := if arrived <= |wire| then arrived else |wire|;
    if start > end then None
    else
      match ReadFrame(wire[start..end])
      case Got(body, _) => Some(body)
      case _ => None
  }

  /** The path after the reader obtained a body: enqueued, skipped, or the reader ended. */
  function Enqueued(l: Link, s: Path, body: Body): Path {
    var f := Incoming(l, body);
    var t := s.(read := s.read + [body], receiver := Step(s.receiver, TryPush(f)));
    match Verdict(s.receiver.state, f)
    case Ok(_) => t
    case Err(Empty) => t.(lossy := true)
    case Err(_) => t.(reading := false, lossy := true)
  }

  /** One turn of `reader_task`: read a frame and enqueue it, or end. */
  function ReadStep(l: Link, s: Path, arrived: nat): Path {
    if !s.reading then s
    else
      match ReadNow(s, arrived)
      case None => s.(reading := false)
      case Some(body) => Enqueued(l, s, body)
  }

  function Turn(l: Link, s: Path, e: Event): Path {
    match e
    case Send(body) => s.(sender := Step(s.sender, TryPush(Outgoing(l, body))))
    case CloseSender => s.(sender := Step(s.sender, DoClose))
    case Write(limit) => WriteStep(l, s, limit)
    case Read(arrived) => ReadStep(l, s, arrived)
    case Elsewhere(f) => if AccountOf(f) == Arrival(l) then s else s.(receiver := Step(s.receiver, TryPush(f)))
    case Deliver => s.(receiver := Step(s.receiver, TryPop))
    case CloseReceiver => s.(receiver := Step(s.receiver, DoClose))
  }

  function Opened(sendCaps: (nat, nat), recvCaps: (nat, nat)): Path {
    Path(Start(sendCaps.0, sendCaps.1), [], [], true, [], true, Start(recvCaps.0, recvCaps.1), false)
  }

  function RunPath(l: Link, s: Path, events: seq<Event>): Path
    decreases |events|
  {
    if events == [] then s else Turn(l, RunPath(l, s, events[..|events| - 1]), events[|events| - 1])
  }

  // ---------------------------------------------------------------------------
  // What every turn keeps
  // ---------------------------------------------------------------------------

  ghost predicate NoFrameIn(tail: seq<byte>) {
    forall k :: 0 <= k <= |tail| ==> !ReadFrame(tail[..k]).Got?
  }

  ghost predicate FromHere(l: Link, log: seq<Frame>) {
    forall f <- log :: f == Outgoing(l, f.body)
  }

  /** Per class: what went out is a subsequence of what the queue delivered, all of it if lossless. */
  ghost predicate SentInOrder(l: Link, written: seq<Body>, popped: seq<Frame>, lossy: bool, p: Priority) {
    var out, lane := Classified(written, l.classify, p), Lane(popped, Origin(l), p);
    Sub(out, lane) && (!lossy ==> out == lane)
  }

  /** Per class: what the inbound queue accepted is a subsequence of what was read. */
  ghost predicate ReceivedInOrder(l: Link, read: seq<Body>, accepted: seq<Frame>, lossy: bool, p: Priority) {
    var got, lane := Classified(read, l.classify, p), Lane(accepted, Arrival(l), p);
    Sub(lane, got) && (!lossy ==> lane == got)
  }

  ghost predicate SenderGood(l: Link, sender: Run) {
    Invariant(sender) && FromHere(l, sender.state.log)
  }

  ghost predicate WireGood(written: seq<Body>, read: seq<Body>, partial: seq<byte>, writing: bool) {
    && read <= written
    && (writing ==> partial == [])
    && NoFrameIn(partial)
  }

  ghost predicate OrderGood(l: Link, s: Path, p: Priority) {
    && SentInOrder(l, s.written, s.sender.popped, s.lossy, p)
    && ReceivedInOrder(l, s.read, s.receiver.accepted, s.lossy, p)
  }

  ghost predicate Good(l: Link, s: Path) {
    && SenderGood(l, s.sender)
    && Invariant(s.receiver)
    && WireGood(s.written, s.read, s.partial, s.writing)
    && forall p :: OrderGood(l, s, p)
  }

  lemma OpenedIsGood(l: Link, sendCaps: (nat, nat), recvCaps: (nat, nat))
    ensures Good(l, Opened(sendCaps, recvCaps))
  {
    RunsConserveFrames(sendCaps.0, sendCaps.1, []);
    RunsConserveFrames(recvCaps.0, recvCaps.1, []);
  }

  lemma PartialHasNoFrame(body: Body, n: nat)
    requires n < |Encode(body)|
    ensures NoFrameIn(Encode(body)[..n])
  {
    forall k | 0 <= k <= n ensures !ReadFrame(Encode(body)[..n][..k]).Got? {
      assert Encode(body)[..n][..k] == Encode(body)[..k];
      ReadPartial(body, k);
    }
  }

  /** Whatever has arrived of the remaining wire, a frame is read from it once the next one is whole. */
  lemma ReadsWhole(rest: seq<Body>, tail: seq<byte>, k: nat)
    requires NoFrameIn(tail) && k <= |Wire(rest) + tail|
    ensures ReadFrame((Wire(rest) + tail)[..k]).Got? <==> rest != [] && 4 + |rest[0]| <= k
    ensures ReadFrame((Wire(rest) + tail)[..k]).Got? ==> ReadFrame((Wire(rest) + tail)[..k]).body == rest[0]
  {
    if rest == [] {
      assert (Wire(rest) + tail)[..k] == tail[..k];
    } else {
      var head, more := Encode(rest[0]), Wire(rest[1..]) + tail;
      assert Wire(rest) + tail == head + more;
      if k < |head| {
        assert (head + more)[..k] == head[..k];
        ReadPartial(rest[0], k);
      } else {
        assert (head + more)[..k] == head + more[..k - |head|];
        ReadEncoded(rest[0], more[..k - |head|]);
      }
    }
  }

  lemma WireAfterRead(s: Path)
    requires s.read <= s.written
    ensures |Wire(s.read)| <= |WireBytes(s)|
    ensures WireBytes(s)[|Wire(s.read)|..] == Wire(s.written[|s.read|..]) + s.partial
  {
    hide Wire;
    var rest := s.written[|s.read|..];
    assert s.written == s.read + rest;
    WireConcat(s.read, rest);
    assert WireBytes(s) == Wire(s.read) + (Wire(rest) + s.partial);
  }

  lemma ClassifiedAppend(bodies: seq<Body>, b: Body, classify: seq<byte> -> Family, p: Priority)
    ensures Classified(bodies + [b], classify, p) ==
            Classified(bodies, classify, p) + (if PriorityOf(classify(b)) == p then [b] else [])
  {
    assert (bodies + [b])[..|bodies|] == bodies;
  }

  /** A popped frame either goes out or is lost; the order holds either way. */
  lemma PopKeepsSent(l: Link, written: seq<Body>, popped: seq<Frame>, lossy: bool, f: Frame, p: Priority)
    requires SentInOrder(l, written, popped, lossy, p) && f == Outgoing(l, f.body)
    ensures SentInOrder(l, written, popped + [f], true, p)
    ensures Fits(f.body) ==> SentInOrder(l, written + [f.body], popped + [f], lossy, p)
  {
    var out, lane := Classified(written, l.classify, p), Lane(popped, Origin(l), p);
    LaneAppend(popped, f, Origin(l), p);
    if Fits(f.body) {
      ClassifiedAppend(written, f.body, l.classify, p);
    }
    if Class(f) == p {
      SubKeep(out, lane, f.body);
      SubSkip(out, lane, f.body);
    } else {
      assert lane + [] == lane && out + [] == out;
    }
  }

  /** A frame read is either accepted or refused; the order holds either way. */
  lemma ReadKeepsReceived(l: Link, read: seq<Body>, accepted: seq<Frame>, lossy: bool, body: Body, p: Priority)
    requires ReceivedInOrder(l, read, accepted, lossy, p)
    ensures ReceivedInOrder(l, read + [body], accepted, true, p)
    ensures ReceivedInOrder(l, read + [body], accepted + [Incoming(l, body)], lossy, p)
  {
    var got, lane := Classified(read, l.classify, p), Lane(accepted, Arrival(l), p);
    ClassifiedAppend(read, body, l.classify, p);
    LaneAppend(accepted, Incoming(l, body), Arrival(l), p);
    if PriorityOf(l.classify(body)) == p {
      SubKeep(lane, got, body);
      SubSkip(lane, got, body);
    } else {
      assert got + [] == got && lane + [] == lane;
    }
  }

  lemma LossyKeepsReceived(l: Link, read: seq<Body>, accepted: seq<Frame>, lossy: bool, p: Priority)
    requires ReceivedInOrder(l, read, accepted, lossy, p)
    ensures ReceivedInOrder(l, read, accepted, true, p)
  {}

  lemma LossyKeepsSent(l: Link, written: seq<Body>, popped: seq<Frame>, lossy: bool, p: Priority)
    requires SentInOrder(l, written, popped, lossy, p)
    ensures SentInOrder(l, written, popped, true, p)
  {}

  lemma PopKeepsSenderGood(l: Link, sender: Run)
    requires SenderGood(l, sender)
    ensures SenderGood(l, Step(sender, TryPop))
  {
    StepKeepsInvariant(sender, TryPop);
    var log := sender.state.log;
    if log != [] {
      RemoveKeepsFromHere(l, log, Best(log));
    }
  }

  lemma RemoveKeepsFromHere(l: Link, log: seq<Frame>, i: nat)
    requires i < |log| && FromHere(l, log)
    ensures FromHere(l, RemoveAt(log, i))
  {
    forall f <- RemoveAt(log, i) ensures f == Outgoing(l, f.body) {
      assert f in log[..i] || f in log[i + 1..];
    }
  }

  lemma PushKeepsSenderGood(l: Link, sender: Run, op: Op)
    requires SenderGood(l, sender)
    requires op.DoClose? || (op.TryPush? && op.frame == Outgoing(l, op.frame.body))
    ensures SenderGood(l, Step(sender, op))
  {
    StepKeepsInvariant(sender, op);
  }

  lemma WriteKeepsOrder(l: Link, s: Path, limit: Option<nat>, p: Priority)
    requires FromHere(l, s.sender.state.log) && OrderGood(l, s, p)
    ensures OrderGood(l, WriteStep(l, s, limit), p)
  {
    hide Sub, Classified, Lane, SentInOrder, ReceivedInOrder;
    if s.writing && s.sender.state.log != [] {
      var f := s.sender.state.log[Best(s.sender.state.log)];
      assert f in s.sender.state.log;
      PopKeepsSent(l, s.written, s.sender.popped, s.lossy, f, p);
      LossyKeepsReceived(l, s.read, s.receiver.accepted, s.lossy, p);
    }
  }

  lemma WriteKeepsGood(l: Link, s: Path, limit: Option<nat>)
    requires Good(l, s)
    ensures Good(l, WriteStep(l, s, limit))
  {
    assert FromHere(l, s.sender.state.log);
    hide SenderGood, OrderGood, Invariant;
    PopKeepsSenderGood(l, s.sender);
    if s.writing && s.sender.state.log != [] {
      var f := s.sender.state.log[Best(s.sender.state.log)];
      if Fits(f.body) && limit.Some? && limit.value < |Encode(f.body)| {
        PartialHasNoFrame(f.body, limit.value);
      }
    }
    forall p ensures OrderGood(l, WriteStep(l, s, limit), p) {
      assert OrderGood(l, s, p);
      WriteKeepsOrder(l, s, limit, p);
    }
  }

  /** The reader's next frame has arrived whole. */
  predicate HasArrived(s: Path, arrived: nat) {
    |s.read| < |s.written| && |Wire(s.read)| + 4 + |s.written[|s.read|]| <= arrived
  }

  lemma ReadNowExactly(s: Path, arrived: nat)
    requires WireGood(s.written, s.read, s.partial, s.writing)
    ensures ReadNow(s, arrived) == if HasArrived(s, arrived) then Some(s.written[|s.read|]) else None
  {
    var wire, start := WireBytes(s), |Wire(s.read)|;
    var end := if arrived <= |wire| then arrived else |wire|;
    WireAfterRead(s);
    var rest := s.written[|s.read|..];
    if rest != [] {
      assert Wire(rest) == Encode(rest[0]) + Wire(rest[1..]);
    }
    if start <= end {
      assert wire[start..end] == (Wire(rest) + s.partial)[..end - start];
      ReadsWhole(rest, s.partial, end - start);
    }
  }

  lemma EnqueuedKeepsOrder(l: Link, s: Path, body: Body, p: Priority)
    requires OrderGood(l, s, p)
    ensures OrderGood(l, Enqueued(l, s, body), p)
  {
    hide Sub, Classified, Lane, SentInOrder, ReceivedInOrder, Verdict;
    ReadKeepsReceived(l, s.read, s.receiver.accepted, s.lossy, body, p);
    LossyKeepsSent(l, s.written, s.sender.popped, s.lossy, p);
  }

  lemma EnqueuedKeepsGood(l: Link, s: Path, body: Body)
    requires Good(l, s) && |s.read| < |s.written| && body == s.written[|s.read|]
    ensures Good(l, Enqueued(l, s, body))
  {
    hide Invariant, OrderGood, Verdict;
    StepKeepsInvariant(s.receiver, TryPush(Incoming(l, body)));
    forall p ensures OrderGood(l, Enqueued(l, s, body), p) {
      assert OrderGood(l, s, p);
      EnqueuedKeepsOrder(l, s, body, p);
    }
  }

  lemma ReadKeepsGood(l: Link, s: Path, arrived: nat)
    requires Good(l, s)
    ensures Good(l, ReadStep(l, s, arrived))
  {
    ReadNowExactly(s, arrived);
    if s.reading {
      match ReadNow(s, arrived)
      case Some(body) => EnqueuedKeepsGood(l, s, body);
      case None =>
        forall p ensures OrderGood(l, s.(reading := false), p) { assert OrderGood(l, s, p); }
    }
  }

  lemma SenderTurnKeepsGood(l: Link, s: Path, op: Op)
    requires Good(l, s)
    requires op.DoClose? || (op.TryPush? && op.frame == Outgoing(l, op.frame.body))
    ensures Good(l, s.(sender := Step(s.sender, op)))
  {
    PushKeepsSenderGood(l, s.sender, op);
    forall p ensures OrderGood(l, s.(sender := Step(s.sender, op)), p) { assert OrderGood(l, s, p); }
  }

  lemma ReceiverTurnKeepsGood(l: Link, s: Path, op: Op)
    requires Good(l, s) && (op.TryPush? ==> AccountOf(op.frame) != Arrival(l))
    ensures Good(l, s.(receiver := Step(s.receiver, op)))
  {
    StepKeepsInvariant(s.receiver, op);
    forall p ensures OrderGood(l, s.(receiver := Step(s.receiver, op)), p) {
      assert OrderGood(l, s, p);
      if op.TryPush? {
        LaneAppend(s.receiver.accepted, op.frame, Arrival(l), p);
        assert Lane(s.receiver.accepted, Arrival(l), p) + [] == Lane(s.receiver.accepted, Arrival(l), p);
      }
    }
  }

  lemma TurnKeepsGood(l: Link, s: Path, e: Event)
    requires Good(l, s)
    ensures Good(l, Turn(l, s, e))
  {
    match e
    case Send(body) => SenderTurnKeepsGood(l, s, TryPush(Outgoing(l, body)));
    case CloseSender => SenderTurnKeepsGood(l, s, DoClose);
    case Write(limit) => WriteKeepsGood(l, s, limit);
    case Read(arrived) => ReadKeepsGood(l, s, arrived);
    case Elsewhere(f) => if AccountOf(f) != Arrival(l) { ReceiverTurnKeepsGood(l, s, TryPush(f)); }
    case Deliver => ReceiverTurnKeepsGood(l, s, TryPop);
    case CloseReceiver => ReceiverTurnKeepsGood(l, s, DoClose);
  }

  lemma {:induction false} RunsAreGood(l: Link, s: Path, events: seq<Event>)
    requires Good(l, s)
    ensures Good(l, RunPath(l, s, events))
    decreases |events|
  {
    if events != [] {
      RunsAreGood(l, s, events[..|events| - 1]);
      TurnKeepsGood(l, RunPath(l, s, events[..|events| - 1]), events[|events| - 1]);
    }
  }

  // ---------------------------------------------------------------------------
  // End to end
  // ---------------------------------------------------------------------------

  lemma GoodPathKeepsOrder(l: Link, s: Path, p: Priority)
    requires Good(l, s)
    ensures Sub(Lane(s.receiver.popped, Arrival(l), p), Lane(s.sender.accepted, Origin(l), p))
  {
    var delivered, queued := Lane(s.receiver.popped, Arrival(l), p), Lane(s.receiver.accepted, Arrival(l), p);
    var read, written := Classified(s.read, l.classify, p), Classified(s.written, l.classify, p);
    var popped, accepted := Lane(s.sender.popped, Origin(l), p), Lane(s.sender.accepted, Origin(l), p);
    LaneSplits(s.receiver, Arrival(l), p);
    SubPrefix(delivered, Lane(s.receiver.state.log, Arrival(l), p));
    assert OrderGood(l, s, p);
    ClassifiedPrefix(s.written, |s.read|, l.classify, p);
    assert s.written[..|s.read|] == s.read;
    LaneSplits(s.sender, Origin(l), p);
    SubPrefix(popped, Lane(s.sender.state.log, Origin(l), p));
    SubTrans(delivered, queued, read);
    SubTrans(delivered, read, written);
    SubTrans(delivered, written, popped);
    SubTrans(delivered, popped, accepted);
  }

  /**
   * End-to-end class order: in every run, whatever is dropped, refused or cut, the frames of a
   * peer in one class leave the receiver as an order-preserving, duplication-free subsequence
   * of how they entered the sender.
   */
  lemma EndToEndClassOrder(l: Link, sendCaps: (nat, nat), recvCaps: (nat, nat), events: seq<Event>, p: Priority)
    returns (at: seq<nat>)
    ensures var s := RunPath(l, Opened(sendCaps, recvCaps), events);
            Picks(at, Lane(s.receiver.popped, Arrival(l), p), Lane(s.sender.accepted, Origin(l), p))
  {
    OpenedIsGood(l, sendCaps, recvCaps);
    RunsAreGood(l, Opened(sendCaps, recvCaps), events);
    var s := RunPath(l, Opened(sendCaps, recvCaps), events);
    GoodPathKeepsOrder(l, s, p);
    at := SubPicks(Lane(s.receiver.popped, Arrival(l), p), Lane(s.sender.accepted, Origin(l), p));
  }

  lemma {:induction false} ClassifiedConcat(x: seq<Body>, y: seq<Body>, classify: seq<byte> -> Family, p: Priority)
    ensures Classified(x + y, classify, p) == Classified(x, classify, p) + Classified(y, classify, p)
    decreases |y|
  {
    if y == [] {
      assert x + y == x;
    } else {
      var less := y[..|y| - 1];
      var last := y[|y| - 1];
      ClassifiedConcat(x, less, classify, p);
      assert x + y == (x + less) + [last];
      ClassifiedAppend(x + less, last, classify, p);
      assert y == less + [last];
      ClassifiedAppend(less, last, classify, p);
      var t := if PriorityOf(classify(last)) == p then [last] else [];
      assert (Classified(x, classify, p) + Classified(less, classify, p)) + t
          == Classified(x, classify, p) + (Classified(less, classify, p) + t);
    }
  }

  /**
   * Conservation while nothing has been dropped: everything accepted at the sender is, class by
   * class and in this order, delivered, queued at the receiver, on the wire, or still queued.
   */
  lemma LosslessConservation(l: Link, sendCaps: (nat, nat), recvCaps: (nat, nat), events: seq<Event>, p: Priority)
    ensures var s := RunPath(l, Opened(sendCaps, recvCaps), events);
            !s.lossy ==>
              && s.read <= s.written
              && Lane(s.sender.accepted, Origin(l), p) ==
                 Lane(s.receiver.popped, Arrival(l), p) + Lane(s.receiver.state.log, Arrival(l), p)
                 + Classified(s.written[|s.read|..], l.classify, p)
                 + Lane(s.sender.state.log, Origin(l), p)
  {
    OpenedIsGood(l, sendCaps, recvCaps);
    RunsAreGood(l, Opened(sendCaps, recvCaps), events);
    var s := RunPath(l, Opened(sendCaps, recvCaps), events);
    assert OrderGood(l, s, p);
    LaneSplits(s.receiver, Arrival(l), p);
    LaneSplits(s.sender, Origin(l), p);
    ClassifiedConcat(s.read, s.written[|s.read|..], l.classify, p);
    assert s.read + s.written[|s.read|..] == s.written;
  }
}

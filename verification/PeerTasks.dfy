/**
 * The two task loops of crates/iroh-rooms-net/src/peer.rs: `writer_task` on an outbound queue that
 * others keep filling and may close, `reader_task` on a stream that ends. Each is proved against
 * what it puts on the wire, or into the inbound queue.
 */
module PeerTasks {
  import opened Prelude
  import opened Queue
  import opened Framing
  import opened BytePriorityQueues

  // ---------------------------------------------------------------------------
  // The writer
  // ---------------------------------------------------------------------------

  /** What others do to a queue: push and close, but not pop. */
  datatype Outside = Pushed(frame: Frame) | ClosedNow

  function Fed(s: State, others: seq<Outside>): State
    decreases |others|
  {
    if others == [] then s
    else Fed(match others[0]
             case Pushed(f) => Push(s, f)
             case ClosedNow => Close(s), others[1..])
  }

  /** Carries out what others do to the queue. */
  method Feed(queue: BytePriorityQueue, others: seq<Outside>)
    requires queue.Valid()
    modifies queue
    ensures queue.Valid() && queue.Model() == Fed(old(queue.Model()), others)
  {
    hide BytePriorityQueue.Valid, Push, Close;
    var k := 0;
    while k < |others|
      invariant 0 <= k <= |others| && queue.Valid()
      invariant Fed(queue.Model(), others[k..]) == Fed(old(queue.Model()), others)
    {
      match others[k] {
        case Pushed(f) => var _ := queue.TryPushLedger(f.peer, f.body, f.family, f.gossip);
        case ClosedNow => queue.Close();
      }
      k := k + 1;
    }
  }

  /** The queue as the writer's next look finds it. */
  function Look(s: State, feed: seq<seq<Outside>>): State {
    if feed == [] then s else Fed(s, feed[0])
  }

  function Later(feed: seq<seq<Outside>>): seq<seq<Outside>> {
    if feed == [] then [] else feed[1..]
  }

  /**
   * The frames the writer takes, in order, when `feed` says what others do before each of its
   * looks at the queue: it takes the best frame, waits on an empty open queue, and is done when
   * the queue is closed and empty.
   */
  function Taken(s: State, feed: seq<seq<Outside>>): seq<Frame>
    decreases |feed|, |s.log|
  {
    var now := Look(s, feed);
    if now.log != [] then [now.log[Best(now.log)]] + Taken(Pop(now), Later(feed))
    else if now.closed || feed == [] then []
    else Taken(now, Later(feed))
  }

  /** The bodies small enough to be written, in order. */
  function Fitting(frames: seq<Frame>): seq<Body> {
    if frames == [] then []
    else (if Fits(frames[0].body) then [frames[0].body] else []) + Fitting(frames[1..])
  }

  /** What the writer puts on the wire when the link holds. */
  function Outgoing(s: State, feed: seq<seq<Outside>>): seq<Body> { Fitting(Taken(s, feed)) }

  lemma OutgoingStep(s: State, feed: seq<seq<Outside>>)
    ensures var now := Look(s, feed);
            && (Next(now).Some? ==>
                  Outgoing(s, feed)
                  == (if Fits(Next(now).value.body) then [Next(now).value.body] else [])
                     + Outgoing(Pop(now), Later(feed)))
            && (Next(now).None? && (now.closed || feed == []) ==> Outgoing(s, feed) == [])
            && (Next(now).None? && !now.closed && feed != [] ==> Outgoing(s, feed) == Outgoing(now, Later(feed)))
            && (Next(now).Some? ==> |Pop(now).log| < |now.log|)
  {
    hide Fed;
    var now := Look(s, feed);
    if now.log != [] {
      var rest := Taken(Pop(now), Later(feed));
      assert ([now.log[Best(now.log)]] + rest)[1..] == rest;
    }
  }

  /** `bytes` stop inside one of the frames, all earlier ones being whole. */
  ghost predicate StopsInside(all: seq<Body>, bytes: seq<byte>) {
    exists n: nat, k: nat :: n < |all| && k < |Encode(all[n])| && bytes == Wire(all[..n]) + Encode(all[n])[..k]
  }

  lemma StoppedHere(all: seq<Body>, written: seq<Body>, body: Body, rest: seq<Body>, sent: seq<byte>)
    requires all == written + ([body] + rest) && CutInside(body, Wire(written), sent)
    ensures StopsInside(all, sent)
  {
    var k :| 0 <= k < |Encode(body)| && sent == Wire(written) + Encode(body)[..k];
    assert all[..|written|] == written && all[|written|] == body;
  }

  /** The writer has sent exactly the frames it took from the queue, minus oversized ones. */
  ghost predicate OnTrack(queue: BytePriorityQueue, stream: SendStream, feed: seq<seq<Outside>>, all: seq<Body>,
                          written: seq<Body>)
    reads queue, stream
  {
    && queue.Valid() && stream.Valid()
    && all == written + Outgoing(queue.Model(), feed)
    && stream.sent == Wire(written)
  }

  /** How a turn ends: a frame handled, nothing to take yet, nothing to come, or the link gone. */
  datatype Turn = Handled | Waits | Finished | LinkFailed

  /** One iteration of the writer's loop, after what others did to the queue before it. */
  method WriterTurn(queue: BytePriorityQueue, stream: SendStream, feed: seq<seq<Outside>>, ghost all: seq<Body>,
                    ghost written: seq<Body>)
    returns (turn: Turn, ghost written': seq<Body>)
    requires OnTrack(queue, stream, feed, all, written)
    modifies queue, stream
    ensures !turn.LinkFailed? ==> OnTrack(queue, stream, Later(feed), all, written')
    ensures turn.Handled? && feed == [] ==> |queue.Model().log| < old(|queue.Model().log|)
    ensures turn.Waits? ==> queue.Model().log == [] && !queue.Model().closed
    ensures turn.Finished? ==> queue.Model().log == [] && queue.Model().closed && all == written'
    ensures turn.LinkFailed? ==> queue.Valid() && stream.Valid() && StopsInside(all, stream.sent)
  {
    hide BytePriorityQueue.Valid, Outgoing, Wire, Encode, StopsInside, CutInside, Fed, Pop, Next;
    written' := written;
    OutgoingStep(queue.Model(), feed);
    if feed != [] {
      Feed(queue, feed[0]);
    }
    ghost var now := queue.Model();
    NextExactly(now);
    var next := queue.PopHighest();
    if next.None? {
      NothingToCome(now);
      assert written + [] == written;
      return if queue.closed then Finished else Waits, written;
    }
    ghost var rest := Outgoing(queue.Model(), Later(feed));
    var body := next.value.body;
    var r := WriteFrame(stream, body);
    if r.Ok? {
      WireAppend(written, body);
      assert written + ([body] + rest) == (written + [body]) + rest;
      return Handled, written + [body];
    }
    if r.error.Oversized? {
      assert [] + rest == rest;
      return Handled, written;
    }
    StoppedHere(all, written, body, rest, stream.sent);
    turn := LinkFailed;
  }

  lemma NextExactly(s: State)
    ensures Next(s).None? <==> s.log == []
    ensures Next(s).None? ==> Pop(s) == s
  {}

  /** On an empty queue that is closed, or that nobody touches again, nothing more is taken. */
  lemma NothingToCome(s: State)
    requires s.log == []
    ensures Outgoing(s, []) == []
    ensures s.closed ==> forall feed :: Outgoing(s, feed) == []
  {
    if s.closed {
      forall feed ensures Outgoing(s, feed) == [] {
        ClosedTakesNothing(s, feed);
      }
    }
  }

  lemma {:induction false} ClosedStaysEmpty(s: State, others: seq<Outside>)
    requires s.log == [] && s.closed
    ensures Fed(s, others) == s
    decreases |others|
  {
    if others != [] {
      ClosedStaysEmpty(s, others[1..]);
    }
  }

  lemma ClosedTakesNothing(s: State, feed: seq<seq<Outside>>)
    requires s.log == [] && s.closed
    ensures Taken(s, feed) == [] && Outgoing(s, feed) == []
  {
    hide Fed;
    if feed != [] {
      ClosedStaysEmpty(s, feed[0]);
    }
  }

  /**
   * `writer_task` against any producers: frames go out in the order the looks find them; an
   * oversized body is skipped without disturbing the frame boundary; a failed write ends the
   * writer inside one frame. It waits on an open queue and ends on a closed and drained one.
   */
  method WriterTask(queue: BytePriorityQueue, stream: SendStream, feed: seq<seq<Outside>>) returns (end: Turn)
    requires queue.Valid() && stream.Valid() && stream.sent == []
    modifies queue, stream
    ensures queue.Valid() && stream.Valid() && !end.Handled?
    ensures end.Finished? ==> queue.Model().closed && queue.Model().log == []
    ensures end.Waits? ==> !queue.Model().closed && queue.Model().log == []
    ensures !end.LinkFailed? ==> stream.sent == Wire(old(Outgoing(queue.Model(), feed)))
    ensures end.LinkFailed? ==> StopsInside(old(Outgoing(queue.Model(), feed)), stream.sent)
  {
    hide BytePriorityQueue.Valid, Outgoing, Wire, StopsInside;
    ghost var all := Outgoing(queue.Model(), feed);
    ghost var written: seq<Body> := [];
    assert [] + all == all;
    WireOfNothing();
    var rest := feed;
    while true
      invariant OnTrack(queue, stream, rest, all, written)
      decreases |rest|, |queue.Model().log|
    {
      var turn;
      turn, written := WriterTurn(queue, stream, rest, all, written);
      if turn.Finished? || turn.LinkFailed? {
        return turn;
      }
      if turn.Waits? && rest == [] {
        NothingToCome(queue.Model());
        assert written + [] == written;
        return turn;
      }
      rest := Later(rest);
    }
  }

  lemma WireOfNothing()
    ensures Wire([]) == []
  {}

  // ---------------------------------------------------------------------------
  // What the writer takes
  // ---------------------------------------------------------------------------

  /** What the queue `now` holds beyond what `s` held. */
  function Added(s: State, now: State): (a: seq<Frame>)
    ensures s.log <= now.log ==> s.log + a == now.log
  {
    if |s.log| <= |now.log| then now.log[|s.log|..] else []
  }

  /** What others got into the queue before each of the writer's looks. */
  function Arrivals(s: State, feed: seq<seq<Outside>>): seq<Frame>
    decreases |feed|, |s.log|
  {
    var now := Look(s, feed);
    Added(s, now) + if now.log != [] then Arrivals(Pop(now), Later(feed))
                    else if now.closed || feed == [] then []
                    else Arrivals(now, Later(feed))
  }

  lemma {:induction false} FedAppends(s: State, others: seq<Outside>)
    ensures s.log <= Fed(s, others).log
    decreases |others|
  {
    if others != [] {
      FedAppends(match others[0]
                 case Pushed(f) => Push(s, f)
                 case ClosedNow => Close(s), others[1..]);
    }
  }

  lemma TakenStep(s: State, feed: seq<seq<Outside>>)
    ensures var now := Look(s, feed);
            if now.log != [] then
              && Taken(s, feed) == [now.log[Best(now.log)]] + Taken(Pop(now), Later(feed))
              && Arrivals(s, feed) == Added(s, now) + Arrivals(Pop(now), Later(feed))
            else if now.closed || feed == [] then Taken(s, feed) == [] && Arrivals(s, feed) == Added(s, now) + []
            else Taken(s, feed) == Taken(now, Later(feed))
                 && Arrivals(s, feed) == Added(s, now) + Arrivals(now, Later(feed))
  {
    hide Fed, Best, Added;
  }

  lemma LookAppends(s: State, feed: seq<seq<Outside>>)
    ensures s.log + Added(s, Look(s, feed)) == Look(s, feed).log
  {
    if feed != [] {
      FedAppends(s, feed[0]);
    }
  }

  lemma BestComesFirst(log: seq<Frame>, taken: seq<Frame>, p: Priority)
    requires log != []
    ensures OfClass([log[Best(log)]] + taken, p) == OfClass([log[Best(log)]], p) + OfClass(taken, p)
    ensures OfClass(log, p) == OfClass([log[Best(log)]], p) + OfClass(RemoveAt(log, Best(log)), p)
  {
    hide OfClass, RemoveAt;
    var i := Best(log);
    forall j: nat | j < i ensures Class(log[j]) != Class(log[i]) {}
    RemoveFirstOfClass(log, i, p);
    OfClassConcat([log[i]], taken, p);
  }

  lemma Regroup<T>(a: seq<T>, b: seq<T>, c: seq<T>)
    ensures a + (b + c) == (a + b) + c
  {}

  /**
   * The writer leaves nothing behind: it takes exactly what was queued and what others got into
   * the queue meanwhile, each class in the order of arrival.
   */
  lemma {:induction false} WriterTakesEverything(s: State, feed: seq<seq<Outside>>, p: Priority)
    ensures OfClass(Taken(s, feed), p) == OfClass(s.log, p) + OfClass(Arrivals(s, feed), p)
    decreases |feed|, |s.log|
  {
    hide OfClass, Best, Taken, Arrivals, Fed, Added;
    var now := Look(s, feed);
    var added := Added(s, now);
    TakenStep(s, feed);
    LookAppends(s, feed);
    OfClassConcat(s.log, added, p);
    if now.log != [] {
      assert feed == [] ==> |Pop(now).log| < |s.log|;
      var rest := Arrivals(Pop(now), Later(feed));
      WriterTakesEverything(Pop(now), Later(feed), p);
      BestComesFirst(now.log, Taken(Pop(now), Later(feed)), p);
      OfClassConcat(added, rest, p);
      Regroup(OfClass([now.log[Best(now.log)]], p), OfClass(Pop(now).log, p), OfClass(rest, p));
      Regroup(OfClass(s.log, p), OfClass(added, p), OfClass(rest, p));
    } else if !now.closed && feed != [] {
      var rest := Arrivals(now, Later(feed));
      WriterTakesEverything(now, Later(feed), p);
      OfClassConcat(added, rest, p);
      Regroup(OfClass(s.log, p), OfClass(added, p), OfClass(rest, p));
    } else {
      OfClassConcat(added, [], p);
      OfClassEmpty([], p);
    }
  }

  lemma {:induction false} FittingConcat(x: seq<Frame>, y: seq<Frame>)
    ensures Fitting(x + y) == Fitting(x) + Fitting(y)
  {
    if x == [] {
      assert x + y == y;
    } else {
      assert (x + y)[1..] == x[1..] + y;
      FittingConcat(x[1..], y);
      var h: seq<Body> := if Fits(x[0].body) then [x[0].body] else [];
      assert h + (Fitting(x[1..]) + Fitting(y)) == (h + Fitting(x[1..])) + Fitting(y);
    }
  }

  /** Of what it takes, the writer skips the oversized bodies and nothing else. */
  lemma OnlyOversizedAreSkipped(a: seq<Frame>, f: Frame, b: seq<Frame>)
    ensures Fitting(a + [f] + b)
            == Fitting(a) + (if |f.body| <= MAX_FRAME_BYTES then [f.body] else []) + Fitting(b)
  {
    assert Fitting([f]) == if |f.body| <= MAX_FRAME_BYTES then [f.body] else [] by {
      assert [f][1..] == [];
    }
    hide Fitting;
    FittingConcat(a, [f]);
    FittingConcat(a + [f], b);
  }

  // ---------------------------------------------------------------------------
  // The reader
  // ---------------------------------------------------------------------------

  /** The inbound queue after the reader consumed a stream that ends after `data`. */
  function Received(peer: PeerId, classify: seq<byte> -> Family, s: State, data: seq<byte>): State
    decreases |data|
  {
    match ReadFrame(data)
    case Got(body, rest) =>
      var f := Frame(peer, body, classify(body), false);
      (match Verdict(s, f)
       case Ok(_) => Received(peer, classify, Push(s, f), rest)
       case Err(Empty) => Received(peer, classify, s, rest)
       case Err(_) => s)
    case _ => s
  }

  /** `reader_task`: every whole frame is enqueued verbatim until the stream or the queue refuses. */
  method ReaderTask(stream: RecvStream, queue: BytePriorityQueue, peer: PeerId, classify: seq<byte> -> Family)
    requires stream.Valid() && queue.Valid()
    modifies stream, queue
    ensures stream.Valid() && queue.Valid()
    ensures queue.Model() == Received(peer, classify, old(queue.Model()), old(stream.Rest()))
  {
    ghost var target := Received(peer, classify, queue.Model(), stream.Rest());
    while true
      invariant stream.Valid() && queue.Valid()
      invariant Received(peer, classify, queue.Model(), stream.Rest()) == target
      decreases |stream.Rest()|
    {
      var r := ReadFrameFrom(stream);
      if r.Err? || r.value.None? {
        return;
      }
      var body := r.value.value;
      var pushed := queue.TryPushLedger(peer, body, classify(body), false);
      if pushed.Err? && !pushed.error.Empty? {
        return;
      }
    }
  }

  /** The queue after pushing a sequence of bodies until one is refused. */
  function PushAll(peer: PeerId, classify: seq<byte> -> Family, s: State, bodies: seq<Body>): State
    decreases |bodies|
  {
    if bodies == [] then s
    else
      var f := Frame(peer, bodies[0], classify(bodies[0]), false);
      match Verdict(s, f)
      case Ok(_) => PushAll(peer, classify, Push(s, f), bodies[1..])
      case Err(Empty) => PushAll(peer, classify, s, bodies[1..])
      case Err(_) => s
  }

  /** The frames of the bodies that are not empty. */
  function Enqueuing(peer: PeerId, classify: seq<byte> -> Family, bodies: seq<Body>): seq<Frame> {
    if bodies == [] then []
    else (if bodies[0] == [] then [] else [Frame(peer, bodies[0], classify(bodies[0]), false)])
         + Enqueuing(peer, classify, bodies[1..])
  }

  /**
   * What the reader enqueues: up to the first body that is refused though not empty, every body
   * that is not empty, verbatim and in order; and an empty body never stops it.
   */
  lemma {:induction false} ReaderEnqueues(peer: PeerId, classify: seq<byte> -> Family, s: State, bodies: seq<Body>)
    returns (n: nat)
    ensures n <= |bodies|
    ensures PushAll(peer, classify, s, bodies) == s.(log := s.log + Enqueuing(peer, classify, bodies[..n]))
    ensures n < |bodies| ==>
              bodies[n] != [] && Verdict(PushAll(peer, classify, s, bodies),
                                         Frame(peer, bodies[n], classify(bodies[n]), false)).Err?
    decreases |bodies|
  {
    hide Verdict;
    n := 0;
    if bodies == [] {
      assert s.log + [] == s.log;
    } else {
      var f := Frame(peer, bodies[0], classify(bodies[0]), false);
      EmptyExactly(s, f);
      if Verdict(s, f).Ok? || f.body == [] {
        var m := ReaderEnqueues(peer, classify, Push(s, f), bodies[1..]);
        n := m + 1;
        assert bodies[..n][1..] == bodies[1..][..m];
        var more := Enqueuing(peer, classify, bodies[1..][..m]);
        assert (s.log + [f]) + more == s.log + ([f] + more);
        assert [] + more == more;
      } else {
        assert bodies[..0] == [];
        assert s.log + [] == s.log;
      }
    }
  }

  lemma EmptyExactly(s: State, f: Frame)
    ensures Verdict(s, f) == Err(Empty) <==> f.body == []
  {}

  /** A stream cut anywhere feeds the queue exactly the frames wholly before the cut. */
  lemma {:induction false} ReceivedIsPushAll(peer: PeerId, classify: seq<byte> -> Family, s: State, data: seq<byte>)
    ensures Received(peer, classify, s, data) == PushAll(peer, classify, s, ReadAll(data).0)
    decreases |data|
  {
    match ReadFrame(data)
    case Got(body, rest) =>
      assert ReadAll(data).0[1..] == ReadAll(rest).0;
      var f := Frame(peer, body, classify(body), false);
      ReceivedIsPushAll(peer, classify, Push(s, f), rest);
      ReceivedIsPushAll(peer, classify, s, rest);
    case _ =>
  }

  /**
   * The two tasks composed over one link: whatever prefix of the writer's bytes arrives, the
   * reader enqueues the bodies of the frames wholly inside it, in the writer's order.
   */
  lemma WriterFeedsReader(out: State, feed: seq<seq<Outside>>, peer: PeerId, classify: seq<byte> -> Family, s: State,
                          k: nat)
    requires k <= |Wire(Outgoing(out, feed))|
    ensures var all := Outgoing(out, feed);
            var m := if k == |Wire(all)| then |all| else WholeFrames(all, k);
            Received(peer, classify, s, Wire(all)[..k]) == PushAll(peer, classify, s, all[..m])
  {
    ReceivedIsPushAll(peer, classify, s, Wire(Outgoing(out, feed))[..k]);
    ReadCutStream(Outgoing(out, feed), k);
  }
}

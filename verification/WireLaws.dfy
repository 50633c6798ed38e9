/**
 * When the path of crates/iroh-rooms-net/src/peer.rs loses a frame, and that it otherwise moves on:
 * each turn of the writer sends the next frame, each turn of the reader takes in the next one that
 * has arrived whole.
 */
module WireLaws {
  import opened Prelude
  import opened Queue
  import opened Framing
  import opened WirePath

  /**
   * The ways to lose a frame: its body is longer than a frame may be, the link fails before the
   * whole frame is out, or the inbound queue refuses it.
   */
  predicate Loses(l: Link, s: Path, e: Event) {
    match e
    case Write(limit) =>
      s.writing && Next(s.sender.state).Some?
      && var n := |Next(s.sender.state).value.body|; n > MAX_FRAME_BYTES || (limit.Some? && limit.value < 4 + n)
    case Read(arrived) =>
      s.reading && HasArrived(s, arrived) && Verdict(s.receiver.state, Incoming(l, s.written[|s.read|])).Err?
    case _ => false
  }

  /** A turn makes the path lossy in exactly these ways. */
  lemma LosesExactly(l: Link, s: Path, e: Event)
    requires Good(l, s)
    ensures Turn(l, s, e).lossy <==> s.lossy || Loses(l, s, e)
  {
    if e.Read? {
      ReadNowExactly(s, e.arrived);
    }
    hide Good, ReadNow, Verdict;
  }

  /**
   * A turn of the writer sends the next frame whole, unless that loses it: an oversized body is
   * skipped and the writer goes on, a failed link ends the writer inside the frame.
   */
  lemma WriterMovesOn(l: Link, s: Path, limit: Option<nat>)
    requires Good(l, s) && s.writing && Next(s.sender.state).Some?
    ensures var next, body := Turn(l, s, Write(limit)), Next(s.sender.state).value.body;
            && next.sender == Step(s.sender, TryPop) && next.read == s.read && next.receiver == s.receiver
            && (!Loses(l, s, Write(limit)) ==>
                  Fits(body) && next.written == s.written + [body] && next.partial == [] && next.writing)
            && (|body| > MAX_FRAME_BYTES ==> next.written == s.written && next.partial == [] && next.writing)
            && (Loses(l, s, Write(limit)) && |body| <= MAX_FRAME_BYTES ==>
                  next.written == s.written && !next.writing && next.partial == Encode(body)[..limit.value])
  {
    assert s.partial == [];
    hide Good;
  }

  /**
   * A turn of the reader takes in the next frame once it has arrived whole, and ends the reader
   * otherwise; a frame the queue refuses ends it too, except an empty one, which is skipped.
   */
  lemma ReaderMovesOn(l: Link, s: Path, arrived: nat)
    requires Good(l, s) && s.reading
    ensures var next := Turn(l, s, Read(arrived));
            && next.sender == s.sender && next.written == s.written
            && (!HasArrived(s, arrived) ==> next == s.(reading := false))
            && (HasArrived(s, arrived) ==>
                  var body := s.written[|s.read|];
                  && next.read == s.read + [body]
                  && next.receiver == Step(s.receiver, TryPush(Incoming(l, body)))
                  && (next.reading <==> body == [] || !Loses(l, s, Read(arrived))))
  {
    ReadNowExactly(s, arrived);
    hide Good, ReadNow;
  }

  /** Turn `i` of a run loses a frame. */
  predicate LosesAt(l: Link, start: Path, events: seq<Event>, i: nat) {
    i < |events| && Loses(l, RunPath(l, start, events[..i]), events[i])
  }

  lemma LosesEarlier(l: Link, start: Path, events: seq<Event>, i: nat)
    requires i + 1 < |events|
    ensures LosesAt(l, start, events[..|events| - 1], i) <==> LosesAt(l, start, events, i)
  {
    assert events[..|events| - 1][..i] == events[..i];
  }

  /** Over a whole run: the path is lossy exactly when some turn lost a frame. */
  lemma {:induction false} LossyExactly(l: Link, sendCaps: (nat, nat), recvCaps: (nat, nat), events: seq<Event>)
    ensures var start := Opened(sendCaps, recvCaps);
            RunPath(l, start, events).lossy <==> exists i: nat :: LosesAt(l, start, events, i)
  {
    var start := Opened(sendCaps, recvCaps);
    if events != [] {
      var n: nat := |events| - 1;
      var s := RunPath(l, start, events[..n]);
      LossyExactly(l, sendCaps, recvCaps, events[..n]);
      OpenedIsGood(l, sendCaps, recvCaps);
      RunsAreGood(l, start, events[..n]);
      LosesExactly(l, s, events[n]);
      assert RunPath(l, start, events) == Turn(l, s, events[n]);
      assert LosesAt(l, start, events, n) <==> Loses(l, s, events[n]);
      assert forall i: nat :: LosesAt(l, start, events, i) ==> i <= n;
      assert forall i: nat :: LosesAt(l, start, events[..n], i) ==> i < n;
      hide Good, Loses, Turn, RunPath, LosesAt;
      forall i: nat | i < n ensures LosesAt(l, start, events[..n], i) <==> LosesAt(l, start, events, i) {
        LosesEarlier(l, start, events, i);
      }
    }
  }
}

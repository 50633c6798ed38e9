/**
 * Length-prefixed framing of crates/iroh-rooms-net/src/frame.rs: a 4-byte big-endian length
 * and the body, over a byte stream that may end anywhere.
 */
module Framing {
  import opened Prelude
  import opened BigEndian

  const U32_MAX: nat := 0xffff_ffff
  const PREFIX_LEN: nat := 4

  datatype FrameError = Oversized(declared: nat) | Truncated | Io

  // ---------------------------------------------------------------------------
  // The wire format
  // ---------------------------------------------------------------------------

  lemma PrefixRoundTrip(n: nat)
    requires n <= U32_MAX
    ensures FromBytes(ToBytes(n, 4)) == n
  {
    Powers();
    FromToBytes(n, 4);
  }

  predicate Fits(body: seq<byte>) { |body| <= MAX_FRAME_BYTES }

  /** A body that fits in one frame. */
  type Body = b: seq<byte> | Fits(b) witness []

  /** The bytes of one frame. */
  function Encode(body: Body): (w: seq<byte>)
    ensures |w| == 4 + |body|
  {
    ToBytes(|body|, PREFIX_LEN) + body
  }

  /** The bytes of a sequence of frames. */
  function Wire(bodies: seq<Body>): seq<byte>
  {
    if bodies == [] then [] else Encode(bodies[0]) + Wire(bodies[1..])
  }

  lemma {:induction false} WireConcat(a: seq<Body>, b: seq<Body>)
    ensures Wire(a + b) == Wire(a) + Wire(b)
  {
    if a == [] {
      assert a + b == b;
    } else {
      assert (a + b)[1..] == a[1..] + b;
      WireConcat(a[1..], b);
    }
  }

  lemma WireAppend(a: seq<Body>, body: Body)
    ensures Wire(a + [body]) == Wire(a) + Encode(body)
  {
    WireConcat(a, [body]);
    assert Wire([body]) == Encode(body) + Wire([]);
  }

  // ---------------------------------------------------------------------------
  // Reading
  // ---------------------------------------------------------------------------

  /** The outcome of `read_frame` on a stream that ends after the given bytes. */
  datatype ReadResult = Got(body: Body, rest: seq<byte>) | CleanEnd | Failed(error: FrameError)

  function ReadFrame(data: seq<byte>): (r: ReadResult)
    ensures r.Got? ==> |r.rest| < |data|
  {
    if data == [] then CleanEnd
    else if |data| < 4 then Failed(Truncated)
    else
      var len := FromBytes(data[..4]);
      if len > MAX_FRAME_BYTES then Failed(Oversized(len))
      else if |data| < 4 + len then Failed(Truncated)
      else Got(data[4..4 + len], data[4 + len..])
  }

  /** Reading to the end: the frames obtained, and how the stream ended (`Ok` is a clean end). */
  function ReadAll(data: seq<byte>): (r: (seq<Body>, Result<(), FrameError>))
    decreases |data|
  {
    match ReadFrame(data)
    case Got(body, rest) =>
      var (bodies, end) := ReadAll(rest);
      ([body] + bodies, end)
    case CleanEnd => ([], Ok(()))
    case Failed(e) => ([], Err(e))
  }

  lemma ReadEncoded(body: Body, rest: seq<byte>)
    ensures ReadFrame(Encode(body) + rest) == Got(body, rest)
  {
    var data := Encode(body) + rest;
    assert data[..4] == ToBytes(|body|, PREFIX_LEN);
    PrefixRoundTrip(|body|);
    assert data[4..4 + |body|] == body;
    assert data[4 + |body|..] == rest;
  }

  /** A proper prefix of a frame is never read as a frame. */
  lemma ReadPartial(body: Body, k: nat)
    requires k < |Encode(body)|
    ensures ReadFrame(Encode(body)[..k]) == if k == 0 then CleanEnd else Failed(Truncated)
  {
    var data := Encode(body)[..k];
    if k >= 4 {
      assert data[..4] == ToBytes(|body|, PREFIX_LEN);
      PrefixRoundTrip(|body|);
    }
  }

  /** A prefix that declares more than a frame may hold is refused at once, with the declared length. */
  lemma OversizedIsRefused(n: nat, rest: seq<byte>)
    requires MAX_FRAME_BYTES < n <= U32_MAX
    ensures ReadFrame(ToBytes(n, PREFIX_LEN) + rest) == Failed(Oversized(n))
  {
    assert (ToBytes(n, PREFIX_LEN) + rest)[..4] == ToBytes(n, PREFIX_LEN);
    PrefixRoundTrip(n);
  }

  lemma WirePrefix(bodies: seq<Body>, m: nat)
    requires m < |bodies|
    ensures Wire(bodies[..m + 1]) == Encode(bodies[0]) + Wire(bodies[1..][..m])
  {
    assert bodies[..m + 1][1..] == bodies[1..][..m];
  }

  /** The number of whole frames within the first `k` bytes. */
  function WholeFrames(bodies: seq<Body>, k: nat): (m: nat)
    ensures m <= |bodies|
  {
    if bodies == [] then 0
    else
      if k < |Encode(bodies[0])| then 0
      else 1 + WholeFrames(bodies[1..], k - |Encode(bodies[0])|)
  }

  /** Whole frames are read one by one up to a tail that is no frame. */
  lemma {:induction false} ReadUpToTail(bodies: seq<Body>, tail: seq<byte>)
    requires !ReadFrame(tail).Got?
    ensures ReadAll(Wire(bodies) + tail) == (bodies, ReadAll(tail).1)
  {
    if bodies == [] {
      assert Wire(bodies) + tail == tail;
    } else {
      ReadUpToTail(bodies[1..], tail);
      assert Wire(bodies) + tail == Encode(bodies[0]) + (Wire(bodies[1..]) + tail);
      ReadEncoded(bodies[0], Wire(bodies[1..]) + tail);
      assert [bodies[0]] + bodies[1..] == bodies;
    }
  }

  lemma {:induction false} WholeFramesBound(bodies: seq<Body>, k: nat)
    requires k < |Wire(bodies)|
    ensures var m := WholeFrames(bodies, k);
            m < |bodies| && |Wire(bodies[..m])| <= k < |Wire(bodies[..m + 1])|
  {
    var head := Encode(bodies[0]);
    WirePrefix(bodies, 0);
    if k >= |head| {
      WholeFramesBound(bodies[1..], k - |head|);
      WirePrefix(bodies, WholeFrames(bodies[1..], k - |head|));
      WirePrefix(bodies, WholeFrames(bodies[1..], k - |head|) + 1);
    }
  }

  lemma WireSplit(bodies: seq<Body>, a: seq<Body>, b: Body, c: seq<Body>)
    requires bodies == a + [b] + c
    ensures Wire(a + [b]) == Wire(a) + Encode(b)
    ensures Wire(bodies) == Wire(a) + Encode(b) + Wire(c)
  {
    WireAppend(a, b);
    WireConcat(a + [b], c);
  }

  lemma TakeInMiddle(a: seq<byte>, b: seq<byte>, c: seq<byte>, k: nat)
    requires |a| <= k <= |a| + |b|
    ensures (a + b + c)[..k] == a + b[..k - |a|]
  {}

  /**
   * Reading a stream cut anywhere: the frames wholly before the cut, then a clean end exactly
   * when the cut is on a frame boundary, and a truncation error otherwise.
   */
  lemma ReadCutStream(bodies: seq<Body>, k: nat)
    requires k <= |Wire(bodies)|
    ensures var m := if k == |Wire(bodies)| then |bodies| else WholeFrames(bodies, k);
            ReadAll(Wire(bodies)[..k]) ==
            (bodies[..m], if k == |Wire(bodies[..m])| then Ok(()) else Err(Truncated))
  {
    if k == |Wire(bodies)| {
      assert Wire(bodies)[..k] == Wire(bodies) + [] && bodies[..|bodies|] == bodies;
      ReadUpToTail(bodies, []);
    } else {
      WholeFramesBound(bodies, k);
      var m := WholeFrames(bodies, k);
      WireSplit(bodies, bodies[..m], bodies[m], bodies[m + 1..]);
      assert bodies[..m] + [bodies[m]] == bodies[..m + 1];
      var j := k - |Wire(bodies[..m])|;
      TakeInMiddle(Wire(bodies[..m]), Encode(bodies[m]), Wire(bodies[m + 1..]), k);
      ReadPartial(bodies[m], j);
      ReadUpToTail(bodies[..m], Encode(bodies[m])[..j]);
    }
  }

  lemma SamePrefix(p: seq<byte>, a: seq<byte>, b: seq<byte>)
    ensures p + a == p + b <==> a == b
  {
    assert (p + a)[|p|..] == a && (p + b)[|p|..] == b;
  }

  /** A stream ends cleanly exactly when it is the encoding of the frames read from it. */
  lemma {:induction false} CleanStreamsAreEncodings(data: seq<byte>)
    ensures ReadAll(data).1.Ok? <==> data == Wire(ReadAll(data).0)
    decreases |data|
  {
    match ReadFrame(data)
    case Got(body, rest) =>
      CleanStreamsAreEncodings(rest);
      var bodies := ReadAll(rest).0;
      ToFromBytes(data[..4]);
      assert data == Encode(body) + rest;
      assert ([body] + bodies)[1..] == bodies;
      assert Wire([body] + bodies) == Encode(body) + Wire(bodies);
      hide Encode, Wire;
      SamePrefix(Encode(body), rest, Wire(bodies));
    case CleanEnd =>
    case Failed(_) =>
  }

  /** Concatenated frames decode in one way only. */
  lemma WireIsInjective(a: seq<Body>, b: seq<Body>)
    requires Wire(a) == Wire(b)
    ensures a == b
  {
    ReadWholeStream(a);
    ReadWholeStream(b);
  }

  lemma {:induction false} ReadWholeStream(bodies: seq<Body>)
    ensures ReadAll(Wire(bodies)) == (bodies, Ok(()))
  {
    if bodies != [] {
      ReadWholeStream(bodies[1..]);
      ReadEncoded(bodies[0], Wire(bodies[1..]));
      assert [bodies[0]] + bodies[1..] == bodies;
    }
  }

  // ---------------------------------------------------------------------------
  // The stream operations
  // ---------------------------------------------------------------------------

  /** The sending half: `capacity` is how many bytes the link carries before it fails. */
  class SendStream {
    var sent: seq<byte>
    const capacity: Option<nat>

    constructor (capacity: Option<nat>)
      ensures sent == [] && this.capacity == capacity
    {
      sent := [];
      this.capacity := capacity;
    }

    ghost predicate Valid()
      reads this
    {
      capacity.Some? ==> |sent| <= capacity.value
    }

    /** `write_all`: on failure some prefix of the data has gone out. */
    method WriteAll(data: seq<byte>) returns (ok: bool)
      requires Valid()
      modifies this
      ensures Valid()
      ensures ok <==> capacity.None? || |old(sent)| + |data| <= capacity.value
      ensures ok ==> sent == old(sent) + data
      ensures !ok ==> |sent| == capacity.value && sent == old(sent) + data[..|sent| - |old(sent)|]
    {
      if capacity.None? || |sent| + |data| <= capacity.value {
        sent := sent + data;
        return true;
      }
      sent := sent + data[..capacity.value - |sent|];
      ok := false;
    }
  }

  /** A proper prefix of the frame of `body`, possibly empty, was added to `before`. */
  ghost predicate CutInside(body: Body, before: seq<byte>, after: seq<byte>) {
    exists k :: 0 <= k < |Encode(body)| && after == before + Encode(body)[..k]
  }

  /**
   * `write_frame`: an oversized body writes nothing; a failed link leaves a proper prefix of
   * the frame behind; otherwise the whole frame is on the wire.
   */
  method WriteFrame(stream: SendStream, body: seq<byte>) returns (r: Result<(), FrameError>)
    requires stream.Valid()
    modifies stream
    ensures stream.Valid()
    ensures r.Ok? ==> Fits(body) && stream.sent == old(stream.sent) + Encode(body)
    ensures r.Err? && r.error.Oversized? <==> !Fits(body)
    ensures !Fits(body) ==> stream.sent == old(stream.sent)
                            && r == Err(Oversized(if |body| <= U32_MAX then |body| else U32_MAX))
    ensures r.Err? && Fits(body) ==> r.error == Io && CutInside(body, old(stream.sent), stream.sent)
  {
    if |body| > U32_MAX {
      return Err(Oversized(U32_MAX));
    }
    if |body| > MAX_FRAME_BYTES {
      return Err(Oversized(|body|));
    }
    var prefix := ToBytes(|body|, PREFIX_LEN);
    var ok := stream.WriteAll(prefix);
    if !ok {
      ghost var k := |stream.sent| - |old(stream.sent)|;
      assert Encode(body)[..k] == prefix[..k];
      return Err(Io);
    }
    ok := stream.WriteAll(body);
    if !ok {
      ghost var k := |stream.sent| - |old(stream.sent)|;
      assert Encode(body)[..k] == prefix + body[..k - 4];
      return Err(Io);
    }
    assert stream.sent == old(stream.sent) + Encode(body);
    r := Ok(());
  }

  /** The receiving half: the bytes that arrive before the stream finishes or is lost. */
  class RecvStream {
    const data: seq<byte>
    const lost: bool
    var pos: nat

    constructor (data: seq<byte>, lost: bool)
      ensures this.data == data && this.lost == lost && pos == 0
    {
      this.data := data;
      this.lost := lost;
      pos := 0;
    }

    ghost predicate Valid()
      reads this
    {
      pos <= |data|
    }

    function Rest(): seq<byte>
      requires Valid()
      reads this
    {
      data[pos..]
    }

    /** `read_exact`: `Err(Some(n))` is a finish after `n` bytes, `Err(None)` a lost stream. */
    method ReadExact(n: nat) returns (r: Result<seq<byte>, Option<nat>>)
      requires Valid()
      modifies this
      ensures Valid()
      ensures n <= |old(Rest())| ==> r == Ok(old(Rest())[..n]) && Rest() == old(Rest())[n..]
      ensures n > |old(Rest())| ==> r == Err(if lost then None else Some(|old(Rest())|)) && Rest() == []
    {
      if pos + n <= |data| {
        assert data[pos..][..n] == data[pos..pos + n] && data[pos..][n..] == data[pos + n..];
        r := Ok(data[pos..pos + n]);
        pos := pos + n;
      } else {
        r := Err(if lost then None else Some(|data| - pos));
        pos := |data|;
      }
    }
  }

  /** A lost stream reports an I/O error where a finished one reports its end. */
  function EndOf(r: ReadResult, lost: bool): Result<Option<seq<byte>>, FrameError> {
    match r
    case Got(body, _) => Ok(Some(body))
    case CleanEnd => if lost then Err(Io) else Ok(None)
    case Failed(e) => if lost && e == Truncated then Err(Io) else Err(e)
  }

  /** A lost stream never looks like a finished one, and a refusal to read on stays what it is. */
  lemma LossIsNotAnEnd(r: ReadResult)
    ensures EndOf(r, true) != Ok(None) && EndOf(r, true) != Err(Truncated)
    ensures EndOf(r, false) == Ok(None) <==> r.CleanEnd?
    ensures r.Failed? && r.error.Oversized? ==> EndOf(r, true) == EndOf(r, false) == Err(r.error)
    ensures forall lost :: r.Got? <==> EndOf(r, lost).Ok? && EndOf(r, lost).value.Some?
    ensures forall lost :: r.Got? ==> EndOf(r, lost).value.value == r.body
  {}

  /** `read_frame`: two exact reads decode exactly the frame the wire format describes. */
  method ReadFrameFrom(stream: RecvStream) returns (r: Result<Option<seq<byte>>, FrameError>)
    requires stream.Valid()
    modifies stream
    ensures stream.Valid()
    ensures r == EndOf(ReadFrame(old(stream.Rest())), stream.lost)
    ensures ReadFrame(old(stream.Rest())).Got? ==> stream.Rest() == ReadFrame(old(stream.Rest())).rest
  {
    ghost var data := stream.Rest();
    var prefix := stream.ReadExact(4);
    match prefix {
      case Err(None) => return Err(Io);
      case Err(Some(n)) => return if n == 0 then Ok(None) else Err(Truncated);
      case Ok(bytes) =>
        var len := FromBytes(bytes);
        if len > MAX_FRAME_BYTES {
          return Err(Oversized(len));
        }
        var body := stream.ReadExact(len);
        match body {
          case Err(None) => return Err(Io);
          case Err(Some(_)) => return Err(Truncated);
          case Ok(b) =>
            assert 4 + len <= |data| && b == data[4..4 + len];
            return Ok(Some(b));
        }
    }
  }
}

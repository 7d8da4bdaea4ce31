/** Frames on a byte stream: a tag, a length, a payload.  The one-shot reader, the reader that
    takes what has arrived, and the proof that how the bytes arrive makes no difference. */
module Frames {
  import opened Base
  import opened LittleEndian
  import opened Wire

  const HEADER := 5
  const IO_ERROR := "08006"

  type Decoder = (Byte, Bytes) -> Result<Message>

  predicate LengthSound(length: nat, max: nat) { 4 <= length <= max }

  // The first frame of a stream, as far as the bytes go.
  datatype Frame = NoMore | Cut | BadLength | Whole(tag: Byte, payload: Bytes, rest: Bytes)

  function FrameLength(header: Bytes): U32
    requires |header| >= HEADER
  {
    U32Of(header[1..HEADER])
  }

  function SplitFrame(stream: Bytes, max: nat): Frame {
    if stream == [] then NoMore
    else if |stream| < HEADER then Cut
    else
      var length := FrameLength(stream);
      if !LengthSound(length, max) then BadLength
      else if |stream| < length + 1 then Cut
      else Whole(stream[0], stream[HEADER..length + 1], stream[length + 1..])
  }

  // ---- the one-shot reader ----

  /** Reading one whole frame from a blocking stream; the bytes left over. */
  function ReadFrontend(decode: Decoder, stream: Bytes, max: nat): (Result<Option<Message>>, Bytes) {
    match SplitFrame(stream, max)
    case NoMore => (Ok(None), [])
    case Cut => (Err(IO_ERROR), [])
    case BadLength => (Err(PROTOCOL), stream[HEADER..])
    case Whole(tag, payload, rest) =>
      match decode(tag, payload)
      case Ok(m) => (Ok(Some(m)), rest)
      case Err(state) => (Err(state), rest)
  }

  // What a client of either reader observes.  A refused payload leaves the stream at the next
  // frame; a broken frame ends it.
  datatype Event = Got(message: Message) | Refused(state: string) | Ended | Broken

  /** Everything repeated one-shot reads deliver. */
  function Events(decode: Decoder, stream: Bytes, max: nat): seq<Event>
    decreases |stream|
  {
    match SplitFrame(stream, max)
    case NoMore => [Ended]
    case Cut => [Broken]
    case BadLength => [Broken]
    case Whole(tag, payload, rest) =>
      match decode(tag, payload)
      case Ok(m) => [Got(m)] + Events(decode, rest, max)
      case Err(state) => [Refused(state)] + Events(decode, rest, max)
  }

  function LengthOf(a: nat, b: nat, c: nat, d: nat): nat { 0x100_0000 * a + 0x1_0000 * b + 0x100 * c + d }

  /** A frame is whole exactly if its length, the four bytes after the tag, most significant first, is
      from 4 up to the limit and that many bytes follow the tag; a length out of that range is bad
      as soon as it is there. */
  lemma FrameIsWholeIff(stream: Bytes, max: nat)
    ensures var length: nat := if |stream| < 5 then 0
                               else LengthOf(stream[1], stream[2], stream[3], stream[4]);
            && (SplitFrame(stream, max).Whole? <==> 5 <= |stream| && 4 <= length <= max && length + 1 <= |stream|)
            && (SplitFrame(stream, max).BadLength? <==> 5 <= |stream| && (length < 4 || max < length))
            && (SplitFrame(stream, max).NoMore? <==> stream == [])
            && (SplitFrame(stream, max).Whole? ==>
                  var f := SplitFrame(stream, max);
                  f.tag == stream[0] && f.payload == stream[5..length + 1] && f.rest == stream[length + 1..])
  {
    if 5 <= |stream| {
      assert stream[1..5] == [stream[1], stream[2], stream[3], stream[4]];
    }
  }

  /** What a blocking read takes from the stream and answers: a whole frame and its message or refusal,
      the five bytes of a header with a bad length, or everything there is: a clean end if that is
      nothing, a lost connection if it is less than a frame. */
  lemma ReadTakesIff(decode: Decoder, stream: Bytes, max: nat)
    ensures var length: nat := if |stream| < 5 then 0
                               else LengthOf(stream[1], stream[2], stream[3], stream[4]);
            var (result, rest) := ReadFrontend(decode, stream, max);
            var bad := 5 <= |stream| && !(4 <= length <= max);
            var whole := 5 <= |stream| && 4 <= length <= max && length < |stream|;
            && (whole ==> rest == stream[length + 1..] && (result.Ok? ==> result.value.Some?)
                          && var decoded := decode(stream[0], stream[5..length + 1]);
                             if decoded.Ok? then result == Ok(Some(decoded.value)) else result == Err(decoded.state))
            && (bad ==> rest == stream[5..] && result == Err("08P01"))
            && (!whole && !bad ==> rest == [] && result == if stream == [] then Ok(None) else Err("08006"))
  {
    FrameIsWholeIff(stream, max);
  }

  /** A blocking read delivers the next event and leaves the stream at those that follow; after
      the end or a broken frame there are none. */
  lemma ReadDeliversNextEvent(decode: Decoder, stream: Bytes, max: nat)
    ensures var (result, rest) := ReadFrontend(decode, stream, max);
            var frame := SplitFrame(stream, max);
            var next := match result
                        case Ok(Some(m)) => Got(m)
                        case Ok(None) => Ended
                        case Err(state) => if frame.Whole? then Refused(state) else Broken;
            Events(decode, stream, max) == [next] + if frame.Whole? then Events(decode, rest, max) else []
  {
  }

  // ---- the incremental reader ----

  datatype Reader = Reader(header: Bytes, headerRead: nat, payload: Option<Bytes>, payloadRead: nat)

  // What the transport does with one read: nothing has arrived yet, it fails, or it hands over
  // up to `available` bytes, at least one unless the stream is at its end.
  datatype Arrival = Wait | Fails | Ready(available: nat)

  datatype Polled = Delivered(message: Message) | Pending | Closed

  /** Sound in mid-poll: what is buffered is a beginning of one frame. */
  predicate Buffers(r: Reader, max: nat) {
    && |r.header| == HEADER && r.headerRead <= HEADER
    && (r.payload.None? ==> r.payloadRead == 0)
    && (r.payload.Some? ==>
          && r.headerRead == HEADER && LengthSound(FrameLength(r.header), max)
          && |r.payload.value| == FrameLength(r.header) - 4 && r.payloadRead <= |r.payload.value|)
  }

  /** Sound between polls: no whole frame is left undelivered. */
  predicate Sound(r: Reader, max: nat) {
    && Buffers(r, max)
    && (r.payload.Some? ==> r.payloadRead < |r.payload.value|)
    && (r.payload.None? && r.headerRead == HEADER ==> !LengthSound(FrameLength(r.header), max))
  }

  predicate AtBoundary(r: Reader) { r.headerRead == 0 && r.payload.None? }

  /** The bytes taken from the stream and not delivered yet. */
  function Held(r: Reader): Bytes
    requires r.headerRead <= |r.header| && (r.payload.Some? ==> r.payloadRead <= |r.payload.value|)
  {
    r.header[..r.headerRead] + if r.payload.Some? then r.payload.value[..r.payloadRead] else []
  }

  function Zeros(n: nat): Bytes { seq(n, _ => 0) }

  function PreparePayload(r: Reader, max: nat): Result<Reader>
    requires |r.header| == HEADER && r.headerRead <= HEADER
  {
    if r.payload.Some? || r.headerRead < HEADER then Ok(r)
    else if !LengthSound(FrameLength(r.header), max) then Err(PROTOCOL)
    else Ok(r.(payload := Some(Zeros(FrameLength(r.header) - 4))))
  }

  function TakeComplete(decode: Decoder, r: Reader, max: nat): (Reader, Result<Option<Message>>)
    requires Buffers(r, max)
  {
    match PreparePayload(r, max)
    case Err(state) => (r, Err(state))
    case Ok(ready) =>
      if ready.payload.None? || ready.payloadRead < |ready.payload.value| then (ready, Ok(None))
      else
        var cleared := ready.(headerRead := 0, payload := None, payloadRead := 0);
        match decode(ready.header[0], ready.payload.value)
        case Ok(m) => (cleared, Ok(Some(m)))
        case Err(state) => (cleared, Err(state))
  }

  function AsDelivery(decoded: Result<Message>): Result<Option<Message>> {
    if decoded.Ok? then Ok(Some(decoded.value)) else Err(decoded.state)
  }

  function Lesser(a: nat, b: nat): nat { if a < b then a else b }

  /** The buffer one read may fill, and the reader with `bytes` in it. */
  function Wanted(r: Reader, max: nat): nat
    requires Buffers(r, max)
  {
    if r.headerRead < HEADER then HEADER - r.headerRead
    else if r.payload.Some? then |r.payload.value| - r.payloadRead
    else 0
  }

  function Received(r: Reader, max: nat, bytes: Bytes): Reader
    requires Buffers(r, max) && |bytes| <= Wanted(r, max)
  {
    if r.headerRead < HEADER then
      r.(header := Splice(r.header, r.headerRead, bytes), headerRead := r.headerRead + |bytes|)
    else if r.payload.Some? then
      r.(payload := Some(Splice(r.payload.value, r.payloadRead, bytes)), payloadRead := r.payloadRead + |bytes|)
    else r
  }

  function AsPolled(result: Result<Option<Message>>): Result<Polled> {
    if result.Err? then Err(result.state)
    else if result.value.None? then Ok(Pending)
    else Ok(Delivered(result.value.value))
  }

  /** One poll: deliver what is complete, else read once, then deliver what became complete. */
  function Poll(decode: Decoder, r: Reader, stream: Bytes, max: nat, arrival: Arrival): (Reader, Bytes, Result<Polled>)
    requires Buffers(r, max)
  {
    var (r1, first) := TakeComplete(decode, r, max);
    match first
    case Err(state) => (r1, stream, Err(state))
    case Ok(Some(m)) => (r1, stream, Ok(Delivered(m)))
    case Ok(None) =>
      match arrival
      case Wait => (r1, stream, Ok(Pending))
      case Fails => (r1, stream, Err(IO_ERROR))
      case Ready(available) =>
        var count := Lesser(if available == 0 then 1 else available, Lesser(Wanted(r1, max), |stream|));
        if count == 0 then
          (r1, stream, if AtBoundary(r1) then Ok(Closed) else Err(PROTOCOL))
        else
          var r2 := Received(r1, max, stream[..count]);
          assert Buffers(r2, max) by { ReceivedBuffers(r1, max, stream[..count]); }
          var (r3, second) := TakeComplete(decode, r2, max);
          (r3, stream[count..], AsPolled(second))
  }

  // ---- one poll against one read ----

  lemma ReceivedBuffers(r: Reader, max: nat, bytes: Bytes)
    requires Buffers(r, max) && |bytes| <= Wanted(r, max)
    ensures var after := Received(r, max, bytes);
            Buffers(after, max) && Held(after) == Held(r) + bytes
  {
    var after := Received(r, max, bytes);
    if r.headerRead < HEADER {
      assert after.header[..after.headerRead] == r.header[..r.headerRead] + bytes;
    } else if r.payload.Some? {
      assert after.payload.value[..after.payloadRead] == r.payload.value[..r.payloadRead] + bytes;
    }
  }

  /** Delivering: either a whole frame was buffered, and it is delivered and nothing is held,
      or nothing changes in what is held. */
  lemma TakeCompleteAgrees(decode: Decoder, r: Reader, max: nat, stream: Bytes)
    requires Buffers(r, max)
    ensures var (after, result) := TakeComplete(decode, r, max);
            && (result == Ok(None) ==> Sound(after, max) && Held(after) == Held(r)
                                       && (AtBoundary(after) <==> AtBoundary(r)))
            && (result != Ok(None) && AtBoundary(after) ==>
                  && Sound(after, max) && Held(after) == []
                  && var frame := SplitFrame(Held(r) + stream, max);
                     frame.Whole? && frame.rest == stream
                     && result == AsDelivery(decode(frame.tag, frame.payload)))
            && (result != Ok(None) && !AtBoundary(after) ==>
                  && after == r && result == Err(PROTOCOL) && Sound(after, max) && |Held(r)| == HEADER
                  && SplitFrame(Held(r) + stream, max) == BadLength)
  {
    var (after, result) := TakeComplete(decode, r, max);
    var all := Held(r) + stream;
    if r.headerRead == HEADER {
      assert r.header[..HEADER] == r.header;
      assert all[1..HEADER] == r.header[1..HEADER];
    }
    var ready := PreparePayload(r, max);
    if ready.Ok? && ready.value.payload.Some? && ready.value.payloadRead == |ready.value.payload.value| {
      assert Held(r) == r.header + ready.value.payload.value;
      assert all[HEADER..FrameLength(r.header) + 1] == ready.value.payload.value;
      assert all[FrameLength(r.header) + 1..] == stream;
    }
  }

  lemma NothingMoreIsCut(r: Reader, max: nat)
    requires Sound(r, max) && !AtBoundary(r) && (r.headerRead == HEADER ==> r.payload.Some?)
    ensures SplitFrame(Held(r), max) == Cut
  {
    if r.headerRead == HEADER {
      assert r.header[..HEADER] == r.header;
      assert Held(r)[1..HEADER] == r.header[1..HEADER];
    }
  }

  predicate BadHeader(r: Reader) { r.headerRead == HEADER && r.payload.None? }

  /** The event a poll stands for, if any: a transport failure is none, the caller may poll
      again. */
  function Observed(arrival: Arrival, after: Reader, result: Result<Polled>): Option<Event> {
    match result
    case Ok(Pending) => None
    case Ok(Closed) => Some(Ended)
    case Ok(Delivered(m)) => Some(Got(m))
    case Err(state) =>
      if BadHeader(after) then Some(Broken)
      else if arrival.Fails? then None
      else if AtBoundary(after) then Some(Refused(state))
      else Some(Broken)
  }

  // What is left of the stream for further events, once one is observed.
  predicate Continues(event: Event) { event.Got? || event.Refused? }

  lemma NothingToDeliver(decode: Decoder, r: Reader, max: nat)
    requires Sound(r, max)
    ensures TakeComplete(decode, r, max) == (r, if BadHeader(r) then Err(PROTOCOL) else Ok(None))
  {
  }

  lemma BadHeaderBreaks(decode: Decoder, r: Reader, max: nat, stream: Bytes)
    requires Sound(r, max) && BadHeader(r)
    ensures Events(decode, Held(r) + stream, max) == [Broken]
  {
    NothingToDeliver(decode, r, max);
    TakeCompleteAgrees(decode, r, max, stream);
  }

  ghost predicate Delivery(decode: Decoder, r: Reader, stream: Bytes, max: nat, after: Reader,
                           result: Result<Option<Message>>)
    requires Buffers(r, max) && Sound(after, max)
  {
    var events := Events(decode, Held(r) + stream, max);
    if result == Ok(None) then Held(after) + stream == Held(r) + stream
    else if BadHeader(after) then result.Err? && events == [Broken]
    else
      && AtBoundary(after) && Held(after) == []
      && events == [if result.Ok? then Got(result.value.value) else Refused(result.state)] + Events(decode, stream, max)
  }

  /** What delivering after a read amounts to. */
  lemma DeliveryAgrees(decode: Decoder, r: Reader, stream: Bytes, max: nat, after: Reader,
                       result: Result<Option<Message>>)
    requires Buffers(r, max) && !AtBoundary(r) && TakeComplete(decode, r, max) == (after, result)
    ensures Sound(after, max)
    ensures Delivery(decode, r, stream, max, after, result)
  {
    TakeCompleteAgrees(decode, r, max, stream);
  }

  lemma EndOfStream(decode: Decoder, r: Reader, max: nat)
    requires Sound(r, max) && !BadHeader(r)
    ensures Events(decode, Held(r) + [], max) == if AtBoundary(r) then [Ended] else [Broken]
  {
    assert Held(r) + [] == Held(r);
    if !AtBoundary(r) { NothingMoreIsCut(r, max); }
  }

  /** One poll against one read of the same bytes: no event means the undelivered bytes are the
      same; an event is the next one the one-shot reader has; and after a whole frame nothing
      is held, so no byte past the frame was taken. */
  lemma PollAgrees(decode: Decoder, r: Reader, stream: Bytes, max: nat, arrival: Arrival)
    requires Sound(r, max)
    ensures var (after, rest, result) := Poll(decode, r, stream, max, arrival);
            && Sound(after, max) && |rest| <= |stream|
            && (arrival.Ready? && stream != [] && !BadHeader(r) ==> |rest| < |stream|)
            && PollEvent(decode, r, stream, max, arrival, after, rest, Observed(arrival, after, result))
  {
    var (after, rest, result) := Poll(decode, r, stream, max, arrival);
    NothingToDeliver(decode, r, max);
    if BadHeader(r) {
      BadHeaderBreaks(decode, r, max, stream);
    } else if arrival.Ready? {
      var count := Lesser(if arrival.available == 0 then 1 else arrival.available, Lesser(Wanted(r, max), |stream|));
      if count == 0 {
        EndOfStream(decode, r, max);
        assert stream == [];
      } else {
        ReadAgrees(decode, r, stream, max, arrival, count, Received(r, max, stream[..count]));
      }
    }
  }

  ghost predicate PollEvent(decode: Decoder, r: Reader, stream: Bytes, max: nat, arrival: Arrival, after: Reader,
                            rest: Bytes,
                            event: Option<Event>)
    requires Sound(r, max) && Sound(after, max)
  {
    if event.None? then Held(after) + rest == Held(r) + stream && (arrival.Ready? ==> stream != [] && !BadHeader(r))
    else if Continues(event.value) then
      && Held(after) == [] && arrival.Ready? && stream != [] && !BadHeader(r)
      && Events(decode, Held(r) + stream, max) == [event.value] + Events(decode, rest, max)
    else Events(decode, Held(r) + stream, max) == [event.value]
  }

  lemma ReadAgrees(decode: Decoder, r: Reader, stream: Bytes, max: nat, arrival: Arrival, count: nat, r2: Reader)
    requires Sound(r, max) && !BadHeader(r) && arrival.Ready? && 0 < count <= |stream| && count <= Wanted(r, max)
    requires r2 == Received(r, max, stream[..count]) && Buffers(r2, max)
    ensures var (after, second) := TakeComplete(decode, r2, max);
            var result := AsPolled(second);
            && Sound(after, max)
            && PollEvent(decode, r, stream, max, arrival, after, stream[count..], Observed(arrival, after, result))
  {
    ReceivedBuffers(r, max, stream[..count]);
    assert Held(r2) + stream[count..] == Held(r) + stream by {
      assert stream == stream[..count] + stream[count..];
    }
    var (after, second) := TakeComplete(decode, r2, max);
    DeliveryAgrees(decode, r2, stream[count..], max, after, second);
  }

  // ---- whole runs ----

  /** The events repeated polls deliver while the bytes arrive in any way. */
  function Run(decode: Decoder, r: Reader, stream: Bytes, max: nat, arrivals: seq<Arrival>): seq<Event>
    requires Sound(r, max)
    decreases |arrivals|
  {
    if arrivals == [] then []
    else
      var (after, rest, result) := Poll(decode, r, stream, max, arrivals[0]);
      assert Sound(after, max) by { PollAgrees(decode, r, stream, max, arrivals[0]); }
      match Observed(arrivals[0], after, result)
      case None => Run(decode, after, rest, max, arrivals[1..])
      case Some(event) =>
        if Continues(event) then [event] + Run(decode, after, rest, max, arrivals[1..]) else [event]
  }

  function Reads(arrivals: seq<Arrival>): nat {
    if arrivals == [] then 0 else (if arrivals[0].Ready? then 1 else 0) + Reads(arrivals[1..])
  }

  /** However the bytes are split into reads, and wherever a read times out or fails in between,
      the polls deliver a prefix of what one-shot reads of the whole stream deliver, and all of
      it once more reads came through than the stream has bytes. */
  lemma {:induction false} ChunkingMakesNoDifference(decode: Decoder, r: Reader, stream: Bytes, max: nat,
                                                     arrivals: seq<Arrival>)
    requires Sound(r, max)
    ensures var events, all := Run(decode, r, stream, max, arrivals), Events(decode, Held(r) + stream, max);
            events <= all && (|stream| < Reads(arrivals) ==> events == all)
    decreases |arrivals|
  {
    if arrivals != [] {
      var (after, rest, result) := Poll(decode, r, stream, max, arrivals[0]);
      PollAgrees(decode, r, stream, max, arrivals[0]);
      ChunkingMakesNoDifference(decode, after, rest, max, arrivals[1..]);
      var event := Observed(arrivals[0], after, result);
      if event.Some? && Continues(event.value) {
        assert Held(after) + rest == rest;
      }
    }
  }

  function NewReader(): Reader { Reader(Zeros(HEADER), 0, None, 0) }

  /** A connection from its first byte: the polls deliver what one-shot reads deliver. */
  lemma PollingDeliversTheStream(decode: Decoder, stream: Bytes, max: nat, arrivals: seq<Arrival>)
    ensures Sound(NewReader(), max)
    ensures Run(decode, NewReader(), stream, max, arrivals) <= Events(decode, stream, max)
    ensures |stream| < Reads(arrivals) ==>
              Run(decode, NewReader(), stream, max, arrivals) == Events(decode, stream, max)
  {
    assert Held(NewReader()) + stream == stream;
    ChunkingMakesNoDifference(decode, NewReader(), stream, max, arrivals);
  }

  /** The end of the stream is reported as a close exactly on a frame boundary. */
  lemma ClosedExactlyOnBoundary(decode: Decoder, r: Reader, stream: Bytes, max: nat, arrival: Arrival)
    requires Sound(r, max)
    ensures Poll(decode, r, stream, max, arrival).2 == Ok(Closed) <==>
              arrival.Ready? && stream == [] && AtBoundary(r)
  {
    NothingToDeliver(decode, r, max);
  }

  /** A reader stopped by a bad length stays stopped and takes nothing more. */
  lemma BadLengthIsFinal(decode: Decoder, r: Reader, stream: Bytes, max: nat, arrival: Arrival)
    requires Sound(r, max) && BadHeader(r)
    ensures Poll(decode, r, stream, max, arrival) == (r, stream, Err(PROTOCOL))
  {
    NothingToDeliver(decode, r, max);
  }
}

/** The incremental reader over its own header and payload buffers. */
module FrontendPolling {
  import opened Base
  import opened LittleEndian
  import opened Wire
  import opened Frames
  import PayloadDecoder

  /** The reading end of a connection: the bytes sent and not yet read. */
  class Socket {
    var incoming: Bytes

    constructor (incoming: Bytes)
      ensures this.incoming == incoming
    {
      this.incoming := incoming;
    }

    /** One read into a buffer of `wanted` bytes, when the transport is ready. */
    method Read(wanted: nat, available: nat) returns (bytes: Bytes)
      modifies this
      ensures |bytes| == Lesser(if available == 0 then 1 else available, Lesser(wanted, |old(incoming)|))
      ensures bytes == old(incoming)[..|bytes|] && incoming == old(incoming)[|bytes|..]
    {
      var count := Lesser(if available == 0 then 1 else available, Lesser(wanted, |incoming|));
      bytes := incoming[..count];
      incoming := incoming[count..];
    }

    /** Reading exactly `wanted` bytes, or failing with everything read. */
    method ReadExact(wanted: nat) returns (r: Result<Bytes>)
      modifies this
      ensures wanted <= |old(incoming)| ==> r == Ok(old(incoming)[..wanted]) && incoming == old(incoming)[wanted..]
      ensures |old(incoming)| < wanted ==> r == Err(IO_ERROR) && incoming == []
    {
      if |incoming| < wanted {
        incoming := [];
        return Err(IO_ERROR);
      }
      r := Ok(incoming[..wanted]);
      incoming := incoming[wanted..];
    }
  }

  /** Reading one whole frame from a blocking connection. */
  method ReadFrontendMessage(socket: Socket, max: nat) returns (r: Result<Option<Message>>)
    modifies socket
    ensures (r, socket.incoming) == ReadFrontend(Decode, old(socket.incoming), max)
  {
    ghost var stream := socket.incoming;
    var tag := socket.Read(1, 1);
    if tag == [] { return Ok(None); }
    var header := socket.ReadExact(4);
    if header.Err? { return Err(header.state); }
    var length := U32Of(header.value);
    assert header.value == stream[1..HEADER] && socket.incoming == stream[HEADER..];
    if !LengthSound(length, max) { return Err(PROTOCOL); }
    var payload := socket.ReadExact(length - 4);
    if payload.Err? { return Err(payload.state); }
    assert payload.value == stream[HEADER..length + 1] && socket.incoming == stream[length + 1..];
    var message := PayloadDecoder.DecodeFrontend(tag[0], payload.value);
    r := if message.Ok? then Ok(Some(message.value)) else Err(message.state);
  }

  class FrontendMessageReader {
    const header: array<Byte>
    var headerRead: nat
    var payload: array?<Byte>
    var payloadRead: nat

    ghost function State(): Reader
      reads this, header, payload
    {
      Reader(header[..], headerRead, if payload == null then None else Some(payload[..]), payloadRead)
    }

    ghost predicate Valid(max: nat)
      reads this, header, payload
    {
      payload != header && Buffers(State(), max)
    }

    constructor ()
      ensures State() == NewReader() && forall max :: Valid(max)
      ensures fresh(header) && payload == null
    {
      header := new Byte[HEADER](_ => 0);
      headerRead, payload, payloadRead := 0, null, 0;
    }

    method PrepareBuffer(max: nat) returns (outcome: Outcome)
      requires Valid(max)
      modifies this
      ensures payload == old(payload) || fresh(payload)
      ensures Valid(max) && header[..] == old(header[..])
      ensures outcome.Failed? ==> PreparePayload(old(State()), max) == Err(outcome.state) && State() == old(State())
      ensures outcome.Done? ==> PreparePayload(old(State()), max) == Ok(State())
    {
      if payload != null || headerRead < HEADER { return Done; }
      assert header[..][1..HEADER] == header[1..HEADER];
      var length := U32Of(header[1..HEADER]);
      if !LengthSound(length, max) { return Failed(PROTOCOL); }
      payload := new Byte[length - 4](_ => 0);
      assert payload[..] == Zeros(length - 4);
      outcome := Done;
    }

    method TakeWhole(max: nat) returns (r: Result<Option<Message>>)
      requires Valid(max)
      modifies this
      ensures payload == old(payload) || payload == null || fresh(payload)
      ensures Valid(max) && (State(), r) == TakeComplete(Decode, old(State()), max)
    {
      var prepared := PrepareBuffer(max);
      if prepared.Failed? { return Err(prepared.state); }
      if payload == null || payloadRead < payload.Length { return Ok(None); }
      var tag, bytes := header[0], payload[..];
      payload, headerRead, payloadRead := null, 0, 0;
      var message := PayloadDecoder.DecodeFrontend(tag, bytes);
      r := if message.Ok? then Ok(Some(message.value)) else Err(message.state);
    }

    /** Putting what one read gave behind what was read before. */
    method Store(max: nat, bytes: Bytes)
      requires Valid(max) && |bytes| <= Wanted(State(), max)
      requires headerRead < HEADER || payload != null
      modifies this, header, payload
      ensures payload == old(payload)
      ensures Valid(max) && State() == Received(old(State()), max, bytes)
    {
      ReceivedBuffers(State(), max, bytes);
      if headerRead < HEADER {
        Overwrite(header, headerRead, bytes);
        headerRead := headerRead + |bytes|;
      } else {
        Overwrite(payload, payloadRead, bytes);
        payloadRead := payloadRead + |bytes|;
      }
    }

    method PollOnce(socket: Socket, max: nat, arrival: Arrival) returns (r: Result<Polled>)
      requires Valid(max)
      modifies this, header, payload, socket
      ensures Valid(max)
      ensures (State(), socket.incoming, r) == Poll(Decode, old(State()), old(socket.incoming), max, arrival)
    {
      ghost var stream := socket.incoming;
      var first := TakeWhole(max);
      if first != Ok(None) { return AsPolled(first); }
      if arrival.Wait? { return Ok(Pending); }
      if arrival.Fails? { return Err(IO_ERROR); }
      ghost var ready := State();
      var wanted := if headerRead < HEADER then HEADER - headerRead
                    else if payload != null then payload.Length - payloadRead else 0;
      assert wanted == Wanted(ready, max);
      var bytes := socket.Read(wanted, arrival.available);
      if bytes == [] {
        return if headerRead == 0 && payload == null then Ok(Closed) else Err(PROTOCOL);
      }
      Store(max, bytes);
      var second := TakeWhole(max);
      r := AsPolled(second);
    }
  }
}

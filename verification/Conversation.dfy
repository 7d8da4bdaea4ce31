/** A whole client conversation: messages framed on one end come out on the other, however the
    bytes travel. */
module Conversation {
  import opened Base
  import opened Wire
  import opened Frames
  import WireRoundTrip

  predicate Sendable(m: Message, max: nat) {
    Fits(m) && |Payload(m)| + 4 <= max && |Payload(m)| + 4 < U32_LIMIT
  }

  predicate AllSendable(messages: seq<Message>, max: nat) {
    messages == [] || (Sendable(messages[0], max) && AllSendable(messages[1..], max))
  }

  function Framed(m: Message): Bytes
    requires Fits(m) && |Payload(m)| + 4 < U32_LIMIT
  {
    [Tag(m)] + Be32(|Payload(m)| + 4) + Payload(m)
  }

  function Stream(messages: seq<Message>, max: nat): Bytes
    requires AllSendable(messages, max)
  {
    if messages == [] then [] else Framed(messages[0]) + Stream(messages[1..], max)
  }

  function Deliveries(messages: seq<Message>): seq<Event> {
    if messages == [] then [Ended] else [Got(messages[0])] + Deliveries(messages[1..])
  }

  lemma FramedSplits(tag: Byte, payload: Bytes, rest: Bytes, max: nat)
    requires |payload| + 4 <= max && |payload| + 4 < U32_LIMIT
    ensures SplitFrame([tag] + Be32(|payload| + 4) + payload + rest, max) == Whole(tag, payload, rest)
  {
    var length := |payload| + 4;
    var stream := [tag] + Be32(length) + payload + rest;
    assert stream[1..HEADER] == Be32(length);
    Be32Inverse(length, []);
    assert stream[HEADER..length + 1] == payload;
    assert stream[length + 1..] == rest;
  }

  lemma {:induction false} StreamDelivers(messages: seq<Message>, max: nat)
    requires AllSendable(messages, max)
    ensures Events(Decode, Stream(messages, max), max) == Deliveries(messages)
  {
    if messages != [] {
      var m, rest := messages[0], Stream(messages[1..], max);
      WireRoundTrip.DecodeInvertsEncode(m);
      FramedSplits(Tag(m), Payload(m), rest, max);
      assert Stream(messages, max) == Framed(m) + rest;
      StreamDelivers(messages[1..], max);
    }
  }

  /** Sent messages arrive: every one, in order, exactly once, then the close, whatever the
      splits, the time-outs and the retried failures on the way. */
  lemma SentIsReceived(messages: seq<Message>, max: nat, arrivals: seq<Arrival>)
    requires AllSendable(messages, max)
    ensures Sound(NewReader(), max)
    ensures var received := Run(Decode, NewReader(), Stream(messages, max), max, arrivals);
            && received <= Deliveries(messages)
            && (|Stream(messages, max)| < Reads(arrivals) ==> received == Deliveries(messages))
  {
    StreamDelivers(messages, max);
    PollingDeliversTheStream(Decode, Stream(messages, max), max, arrivals);
  }
}

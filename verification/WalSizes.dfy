/** How many bytes a log record takes, and so which valid records fit the log. */
module WalSizes {
  import opened Base
  import opened Page
  import opened Wal
  import opened WalCanonical

  function ImageSize(image: Option<PageBytes>): nat { if image.None? then 1 else 1 + PAGE_SIZE }

  function PayloadSize(p: Payload): nat {
    match p
    case PageUpdate(_, before, after) => 8 + ImageSize(before) + ImageSize(after)
    case Resize(_, _) => 16
    case Compensation(_, undo, _, _) => 24 + ImageSize(undo)
    case CheckpointBegin(active, dirty, horizon) =>
      8 + (|active| + |dirty|) * ENTRY + (if horizon.None? then 0 else 8)
    case CheckpointEnd(_, _, _, _) => 32
    case _ => 0
  }

  lemma PayloadHasItsSize(images: Images, p: Payload)
    requires CountsFit(p)
    ensures |EncodePayload(images, p)| == PayloadSize(p)
  {
    if p.CheckpointBegin? {
      EntriesLength(p.active);
      EntriesLength(p.dirty);
    }
  }

  /** The only valid record too large for the log is a checkpoint with over 1024 entries, or over
      1023 beside a horizon; and what is encoded has the size its payload asks for. */
  lemma EncodesUnlessCheckpointTooLarge(images: Images, crc: Crc, r: Wal.Record)
    requires Validate(images, r).Done?
    ensures Encode(images, crc, r).Ok? <==>
              (r.payload.CheckpointBegin? ==>
                 |r.payload.active| + |r.payload.dirty| <= if r.payload.horizon.None? then 1024 else 1023)
    ensures Encode(images, crc, r).Ok? ==>
              |Encode(images, crc, r).value| == RECORD_HEADER + PayloadSize(r.payload) <= MAX_RECORD
  {
    if CountsFit(r.payload) {
      PayloadHasItsSize(images, r.payload);
    }
  }
}

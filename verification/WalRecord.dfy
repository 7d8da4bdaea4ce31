/** Records of the write-ahead log: what makes one valid, its bytes, and its decoder. */
module Wal {
  import opened Base
  import opened LittleEndian
  import opened Page

  const LOG_MAGIC: Bytes := [79, 82, 68, 65, 87, 65, 76, 49]
  const LOG_VERSION := 1
  const RECORD_HEADER := 48
  const SUM_OFFSET := 44
  const MAX_PAYLOAD := 8 + 1 + PAGE_SIZE + 1 + PAGE_SIZE
  const MAX_RECORD := RECORD_HEADER + MAX_PAYLOAD

  // Log sequence numbers and transaction ids: never zero.
  type Id = n: U64 | n != 0 witness 1

  datatype Payload =
    | Begin
    | PageUpdate(page: U64, before: Option<PageBytes>, after: Option<PageBytes>)
    | Resize(beforeCount: U64, afterCount: U64)
    | Commit
    | Abort
    | Compensation(undone: U64, undo: Option<PageBytes>, resultingCount: U64, undoNext: Option<Id>)
    | CheckpointBegin(active: map<Id, Id>, dirty: map<U64, Id>, horizon: Option<Id>)
    | CheckpointEnd(begin: Id, dataGeneration: U64, durableLog: Id, pageCount: U64)

  datatype Record = Record(lsn: Id, transaction: Option<Id>, previous: Option<Id>, payload: Payload)

  // What the log asks of a page image.
  datatype Images = Images(
    check: (PageBytes, U64) -> Outcome,
    seal: PageBytes -> PageBytes,
    idOf: PageBytes -> U64,
    lsnOf: PageBytes -> U64)

  ghost predicate Lawful(images: Images) {
    forall page, id | images.check(page, id).Done? :: images.idOf(page) == id && images.seal(page) == page
  }

  // ---- validity ----

  predicate IsCheckpoint(p: Payload) { p.CheckpointBegin? || p.CheckpointEnd? }

  function ValidateImage(images: Images, id: U64, image: Option<PageBytes>, required: Option<Id>): Outcome {
    if image.None? then Done
    else
      var page := image.value;
      var checked := images.check(page, images.idOf(page));
      if checked.Failed? then checked
      else if images.idOf(page) != id then Failed(CORRUPT)
      else if required.Some? && images.lsnOf(page) != required.value then Failed(CORRUPT)
      else Done
  }

  function Then(first: Outcome, second: Outcome): Outcome { if first.Failed? then first else second }

  function ValidatePayload(images: Images, lsn: Id, p: Payload): Outcome {
    match p
    case PageUpdate(page, before, after) =>
      if before.None? && after.None? then Failed(CORRUPT)
      else Then(ValidateImage(images, page, before, None), ValidateImage(images, page, after, Some(lsn)))
    case Resize(before, after) => if before == after then Failed(CORRUPT) else Done
    case Compensation(page, undo, _, _) => ValidateImage(images, page, undo, Some(lsn))
    case CheckpointBegin(active, dirty, _) =>
      if || (exists id | id in active :: active[id] >= lsn)
         || (exists id | id in dirty :: dirty[id] >= lsn)
      then Failed(CORRUPT)
      else Done
    case CheckpointEnd(begin, _, durableLog, _) => if begin >= lsn || durableLog > lsn then Failed(CORRUPT) else Done
    case _ => Done
  }

  function Validate(images: Images, r: Record): Outcome {
    var system := IsCheckpoint(r.payload);
    if system != r.transaction.None? then Failed(CORRUPT)
    else if system && r.previous.Some? then Failed(CORRUPT)
    else if r.payload.Begin? && r.previous.Some? then Failed(CORRUPT)
    else if !system && !r.payload.Begin? && r.previous.None? then Failed(CORRUPT)
    else if r.previous.Some? && r.previous.value >= r.lsn then Failed(CORRUPT)
    else ValidatePayload(images, r.lsn, r.payload)
  }

  // ---- encoding ----

  function Raw(id: Option<Id>): U64 { if id.None? then 0 else id.value }

  function Kind(p: Payload): Byte {
    match p
    case Begin => 1
    case PageUpdate(_, _, _) => 2
    case Resize(_, _) => 3
    case Commit => 4
    case Abort => 5
    case Compensation(_, _, _, _) => 6
    case CheckpointBegin(_, _, _) => 7
    case CheckpointEnd(_, _, _, _) => 8
  }

  function EncodeImage(images: Images, image: Option<PageBytes>): Bytes {
    if image.None? then [0] else [1] + images.seal(image.value)
  }

  /** The entries of an ordered map, in ascending key order. */
  function EncodeEntries(m: map<U64, Id>): Bytes
    decreases |m.Keys|
  {
    if m.Keys == {} then []
    else
      var key: U64 := Least(m.Keys);
      U64Le(key) + (U64Le(m[key]) + EncodeEntries(m - {key}))
  }

  function EncodePayload(images: Images, p: Payload): Bytes
    requires p.CheckpointBegin? ==> |p.active| < U32_LIMIT && |p.dirty| < U32_LIMIT
  {
    match p
    case PageUpdate(page, before, after) => U64Le(page) + (EncodeImage(images, before) + EncodeImage(images, after))
    case Resize(before, after) => U64Le(before) + U64Le(after)
    case Compensation(page, undo, count, next) =>
      U64Le(page) + (EncodeImage(images, undo) + (U64Le(count) + U64Le(Raw(next))))
    case CheckpointBegin(active, dirty, horizon) =>
      U32Le(|active|) + (EncodeEntries(active) + (U32Le(|dirty|) + (EncodeEntries(dirty)
      + if horizon.None? then [] else U64Le(horizon.value))))
    case CheckpointEnd(begin, generation, durableLog, count) =>
      U64Le(begin) + (U64Le(generation) + (U64Le(durableLog) + U64Le(count)))
    case _ => []
  }

  function Header(kind: Byte, total: U32, lsn: U64, transaction: U64, previous: U64, payload: U32, sum: U32): (h: Bytes)
    ensures |h| == RECORD_HEADER
  {
    (LOG_MAGIC + U16Le(LOG_VERSION) + [kind, 0] + U32Le(total))
    + (U64Le(lsn) + U64Le(transaction) + U64Le(previous))
    + (U32Le(payload) + U32Le(sum))
  }

  function HeaderOf(r: Record, size: nat, sum: U32): Bytes
    requires size <= MAX_PAYLOAD
  {
    Header(Kind(r.payload), RECORD_HEADER + size, r.lsn, Raw(r.transaction), Raw(r.previous), size, sum)
  }

  predicate CountsFit(p: Payload) { p.CheckpointBegin? ==> |p.active| < U32_LIMIT && |p.dirty| < U32_LIMIT }

  predicate FitsLog(images: Images, p: Payload) { CountsFit(p) && |EncodePayload(images, p)| <= MAX_PAYLOAD }

  /** The bytes of a record, with the checksum of the whole record in its field. */
  function Encode(images: Images, crc: Crc, r: Record): Result<Bytes> {
    var checked := Validate(images, r);
    if checked.Failed? then Err(checked.state)
    else if !FitsLog(images, r.payload) then Err(CORRUPT)
    else
      var payload := EncodePayload(images, r.payload);
      var blank := HeaderOf(r, |payload|, 0) + payload;
      Ok(Splice(blank, SUM_OFFSET, U32Le(crc(blank))))
  }

  // ---- decoding ----

  function TakeId(b: Bytes): Result<Parsed<Id>> {
    var raw :- TakeU64(b);
    if raw.value == 0 then Err(CORRUPT) else Ok(Parsed(raw.value, raw.rest))
  }

  function OptionalId(raw: U64): Option<Id> { if raw == 0 then None else Some(raw) }

  function TakeImage(images: Images, b: Bytes, id: U64): Result<Parsed<Option<PageBytes>>> {
    var flag :- TakeU8(b);
    if flag.value == 0 then Ok(Parsed(None, flag.rest))
    else if flag.value != 1 || |flag.rest| < PAGE_SIZE then Err(CORRUPT)
    else
      var page: PageBytes := flag.rest[..PAGE_SIZE];
      match images.check(page, id)
      case Failed(state) => Err(state)
      case Done => Ok(Parsed(Some(page), flag.rest[PAGE_SIZE..]))
  }

  /** `count` entries after those in `soFar`; a key seen twice is refused, as is a zero key
      where keys are ids. */
  function TakeEntries(b: Bytes, count: nat, soFar: map<U64, Id>, zeroKeys: bool): (r: Result<Parsed<map<U64, Id>>>)
    ensures r.Ok? && !zeroKeys && 0 !in soFar ==> 0 !in r.value.value
    decreases count
  {
    if count == 0 then Ok(Parsed(soFar, b))
    else
      var key :- TakeU64(b);
      var lsn :- TakeId(key.rest);
      if (key.value == 0 && !zeroKeys) || key.value in soFar then Err(CORRUPT)
      else TakeEntries(lsn.rest, count - 1, soFar[key.value := lsn.value], zeroKeys)
  }

  function TakeMap(b: Bytes, zeroKeys: bool): Result<Parsed<map<U64, Id>>> {
    var count :- TakeU32(b);
    TakeEntries(count.rest, count.value, map[], zeroKeys)
  }

  function TakeHorizon(b: Bytes): Result<Parsed<Option<Id>>> {
    if b == [] then Ok(Parsed(None, b))
    else
      var raw :- TakeU64(b);
      Ok(Parsed(OptionalId(raw.value), raw.rest))
  }

  function Finish(b: Bytes, p: Payload): Result<Payload> {
    if b == [] then Ok(p) else Err(CORRUPT)
  }

  function DecodePageUpdate(images: Images, b: Bytes): Result<Payload> {
    var page :- TakeU64(b);
    var before :- TakeImage(images, page.rest, page.value);
    var after :- TakeImage(images, before.rest, page.value);
    Finish(after.rest, PageUpdate(page.value, before.value, after.value))
  }

  function DecodeCompensation(images: Images, b: Bytes): Result<Payload> {
    var page :- TakeU64(b);
    var undo :- TakeImage(images, page.rest, page.value);
    var count :- TakeU64(undo.rest);
    var next :- TakeU64(count.rest);
    Finish(next.rest, Compensation(page.value, undo.value, count.value, OptionalId(next.value)))
  }

  function DecodeCheckpointBegin(b: Bytes): Result<Payload> {
    var active :- TakeMap(b, false);
    var dirty :- TakeMap(active.rest, true);
    var horizon :- TakeHorizon(dirty.rest);
    Finish(horizon.rest, CheckpointBegin(active.value, dirty.value, horizon.value))
  }

  function DecodeCheckpointEnd(b: Bytes): Result<Payload> {
    var begin :- TakeId(b);
    var generation :- TakeU64(begin.rest);
    var durableLog :- TakeId(generation.rest);
    var count :- TakeU64(durableLog.rest);
    Finish(count.rest, CheckpointEnd(begin.value, generation.value, durableLog.value, count.value))
  }

  function DecodePayload(images: Images, kind: Byte, b: Bytes): Result<Payload>
    requires 1 <= kind <= 8
  {
    match kind
    case 1 => Finish(b, Begin)
    case 2 => DecodePageUpdate(images, b)
    case 3 =>
      var before :- TakeU64(b);
      var after :- TakeU64(before.rest);
      Finish(after.rest, Resize(before.value, after.value))
    case 4 => Finish(b, Commit)
    case 5 => Finish(b, Abort)
    case 6 => DecodeCompensation(images, b)
    case 7 => DecodeCheckpointBegin(b)
    case _ => DecodeCheckpointEnd(b)
  }

  datatype RecordHeader = RecordHeader(kind: Byte, total: nat, lsn: Id, transaction: Option<Id>, previous: Option<Id>,
                                       sum: U32)

  function ParseHeader(b: Bytes): Result<RecordHeader> {
    if |b| < RECORD_HEADER then Err(CORRUPT)
    else if b[..8] != LOG_MAGIC then Err(CORRUPT)
    else if U16At(b, 8) != LOG_VERSION then Err("0A000")
    else if b[10] < 1 || 8 < b[10] then Err(CORRUPT)
    else if b[11] != 0 then Err(CORRUPT)
    else if U32At(b, 12) < RECORD_HEADER || MAX_RECORD < U32At(b, 12) then Err(CORRUPT)
    else if U32At(b, 40) != U32At(b, 12) - RECORD_HEADER then Err(CORRUPT)
    else if U64At(b, 16) == 0 then Err(CORRUPT)
    else Ok(RecordHeader(b[10], U32At(b, 12), U64At(b, 16), OptionalId(U64At(b, 24)), OptionalId(U64At(b, 32)),
                         U32At(b, SUM_OFFSET)))
  }

  function FromBytes(images: Images, crc: Crc, b: Bytes): Result<Record> {
    var header :- ParseHeader(b);
    if |b| != header.total then Err(CORRUPT)
    else if crc(Splice(b, SUM_OFFSET, NO_CHECKSUM)) != header.sum then Err(CORRUPT)
    else
      var kind := b[10];
      var payload :- (assert 1 <= kind <= 8; DecodePayload(images, kind, b[RECORD_HEADER..]));
      var r := Record(header.lsn, header.transaction, header.previous, payload);
      match Validate(images, r)
      case Failed(state) => Err(state)
      case Done => Ok(r)
  }
}

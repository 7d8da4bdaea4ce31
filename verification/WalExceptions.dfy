/** Accepted bytes that are not the encoding of the record read from them: both ways in which a
    checkpoint can fail to be canonical do occur. */
module WalExceptions {
  import opened Base
  import opened LittleEndian
  import opened Page
  import opened Wal
  import opened WalRoundTrip
  import opened WalCanonical

  lemma EmptyMapTaken(b: Bytes, count: U32, rest: Bytes, zeroKeys: bool)
    requires count == 0 && b == U32Le(count) + rest
    ensures TakeMap(b, zeroKeys) == Ok(Parsed(map[], rest))
    ensures HasEntries(b) && AfterEntries(b) == rest
  {
    TakeU32Inverse(count, rest, []);
  }

  lemma ZeroHorizonTaken(b: Bytes, horizon: U64)
    requires horizon == 0 && b == U64Le(horizon)
    ensures TakeHorizon(b) == Ok(Parsed(None, [])) && |b| == 8 && U64At(b, 0) == 0
  {
    TakeU64Inverse(horizon, [], []);
    assert b + [] == b;
  }

  lemma ZeroHorizonPayload() returns (b: Bytes)
    ensures |b| == 16 && DecodeCheckpointBegin(b) == Ok(CheckpointBegin(map[], map[], None)) && !CheckpointCanonical(b)
  {
    var count: U32, horizon: U64 := 0, 0;
    var tail := U64Le(horizon);
    var dirty := U32Le(count) + tail;
    b := U32Le(count) + dirty;
    EmptyMapTaken(b, count, dirty, false);
    EmptyMapTaken(dirty, count, tail, true);
    ZeroHorizonTaken(tail, horizon);
  }

  lemma EmptyCheckpointIsValid(images: Images, r: Wal.Record)
    requires r.transaction.None? && r.previous.None? && r.payload == CheckpointBegin(map[], map[], None)
    ensures Validate(images, r).Done?
  {
  }

  lemma StampedPayload(r: Wal.Record, payload: Bytes, sum: U32, b: Bytes)
    requires |payload| <= MAX_PAYLOAD && b == HeaderOf(r, |payload|, sum) + payload
    ensures b[10] == Kind(r.payload) && b[RECORD_HEADER..] == payload
  {
    ParsesOwnHeader(b, r, payload, sum);
  }

  /** A payload that reads as a valid checkpoint without being canonical makes accepted bytes
      that are not what encoding the record gives, whatever the checksum function. */
  lemma CheckpointAccepted(images: Images, crc: Crc, r: Wal.Record, payload: Bytes) returns (b: Bytes)
    requires |payload| <= MAX_PAYLOAD && DecodeCheckpointBegin(payload) == Ok(r.payload)
             && !CheckpointCanonical(payload)
    requires r.payload.CheckpointBegin? && Validate(images, r).Done?
    ensures Wal.FromBytes(images, crc, b) == Ok(r) && !Canonical(b)
  {
    CheckpointKinds(images, payload);
    var blank := HeaderOf(r, |payload|, 0) + payload;
    ReadsUnderOwnHeader(images, crc, r, payload, blank);
    b := Splice(blank, SUM_OFFSET, U32Le(crc(blank)));
    StampedPayload(r, payload, crc(blank), b);
  }

  /** The first exception is real: a checkpoint with its horizon written as zero is accepted. */
  lemma ZeroHorizonIsAccepted(images: Images, crc: Crc, lsn: Id) returns (b: Bytes)
    ensures Wal.FromBytes(images, crc, b) == Ok(Wal.Record(lsn, None, None, CheckpointBegin(map[], map[], None)))
    ensures !Canonical(b)
  {
    var r := Wal.Record(lsn, None, None, CheckpointBegin(map[], map[], None));
    var payload := ZeroHorizonPayload();
    EmptyCheckpointIsValid(images, r);
    b := CheckpointAccepted(images, crc, r, payload);
  }

  /** The second entry of a pair, behind a first one. */
  lemma PairTaken(b: Bytes, first: Id, second: Id, lsn: Id, rest: Bytes)
    requires first != second
    requires b == U64Le(first) + (U64Le(lsn) + (U64Le(second) + (U64Le(lsn) + rest)))
    ensures TakeEntries(b, 2, map[], false) == Ok(Parsed(map[first := lsn, second := lsn], rest))
    ensures |b| >= 2 * ENTRY && U64At(b, 0) == first && U64At(b[ENTRY..], 0) == second && b[2 * ENTRY..] == rest
  {
    var none: map<U64, Id> := map[];
    var tail := U64Le(second) + (U64Le(lsn) + rest);
    EntryTaken(b, first, lsn, tail, 2, none);
    EntryTaken(tail, second, lsn, rest, 1, map[first := lsn]);
  }

  lemma EntryTaken(b: Bytes, key: Id, lsn: Id, rest: Bytes, count: nat, soFar: map<U64, Id>)
    requires 0 < count && key !in soFar && b == U64Le(key) + (U64Le(lsn) + rest)
    ensures TakeEntries(b, count, soFar, false) == TakeEntries(rest, count - 1, soFar[key := lsn], false)
    ensures |b| >= ENTRY && U64At(b, 0) == key && b[ENTRY..] == rest
  {
    TakeU64Inverse(key, U64Le(lsn) + rest, []);
    TakeIdInverse(lsn, rest, []);
  }

  lemma UnsortedPayload() returns (b: Bytes)
    ensures |b| == 40 && DecodeCheckpointBegin(b) == Ok(CheckpointBegin(map[2 := 1, 1 := 1], map[], None))
    ensures !CheckpointCanonical(b)
  {
    var none: U32, two: U32 := 0, 2;
    var tail: Bytes := [];
    var dirty := U32Le(none) + tail;
    var entries := U64Le(2) + (U64Le(1) + (U64Le(1) + (U64Le(1) + dirty)));
    b := U32Le(two) + entries;
    TakeU32Inverse(two, entries, []);
    PairTaken(entries, 2, 1, 1, dirty);
    EmptyMapTaken(dirty, none, tail, true);
    assert b[4..] == entries;
  }

  lemma PairCheckpointIsValid(images: Images, r: Wal.Record)
    requires r.transaction.None? && r.previous.None? && r.payload == CheckpointBegin(map[2 := 1, 1 := 1], map[], None)
    requires 1 < r.lsn
    ensures Validate(images, r).Done?
  {
  }

  /** So is the second: active transactions written out of key order are accepted. */
  lemma UnsortedEntriesAreAccepted(images: Images, crc: Crc, lsn: Id) returns (b: Bytes)
    requires 1 < lsn
    ensures Wal.FromBytes(images, crc, b)
         == Ok(Wal.Record(lsn, None, None, CheckpointBegin(map[2 := 1, 1 := 1], map[], None)))
    ensures !Canonical(b)
  {
    var r := Wal.Record(lsn, None, None, CheckpointBegin(map[2 := 1, 1 := 1], map[], None));
    var payload := UnsortedPayload();
    PairCheckpointIsValid(images, r);
    b := CheckpointAccepted(images, crc, r, payload);
  }
}

/** The log's codec inverts exactly: every valid record that fits is read back from its bytes,
    and the only accepted bytes that are not an encoding are checkpoints written out of key
    order or with an explicit zero horizon. */
module WalRoundTrip {
  import opened Base
  import opened LittleEndian
  import opened Page
  import opened Wal

  // ---- fields ----

  lemma TakeIdInverse(v: Id, rest: Bytes, b: Bytes)
    ensures TakeId(U64Le(v) + rest) == Ok(Parsed(v, rest))
    ensures TakeId(b).Ok? ==> b == U64Le(TakeId(b).value.value) + TakeId(b).value.rest
  {
    TakeU64Inverse(v, rest, b);
  }

  lemma ImageIsRead(images: Images, image: Option<PageBytes>, id: U64, rest: Bytes)
    requires Lawful(images) && (image.Some? ==> images.check(image.value, id).Done?)
    ensures TakeImage(images, EncodeImage(images, image) + rest, id) == Ok(Parsed(image, rest))
  {
    var b := EncodeImage(images, image) + rest;
    if image.Some? {
      assert b[1..] == image.value + rest;
      assert b[1..][..PAGE_SIZE] == image.value && b[1..][PAGE_SIZE..] == rest;
    }
  }

  lemma ReadImageWasEncoded(images: Images, b: Bytes, id: U64)
    requires Lawful(images) && TakeImage(images, b, id).Ok?
    ensures var p := TakeImage(images, b, id).value;
            b == EncodeImage(images, p.value) + p.rest && (p.value.Some? ==> images.check(p.value.value, id).Done?)
  {
    var flag := TakeU8(b).value;
    assert b == [flag.value] + flag.rest;
    if flag.value == 1 {
      assert flag.rest == flag.rest[..PAGE_SIZE] + flag.rest[PAGE_SIZE..];
    }
  }

  // ---- ordered maps ----

  lemma OneMoreEntry(b: Bytes, count: nat, soFar: map<U64, Id>, zeroKeys: bool, key: U64, lsn: Id, rest: Bytes)
    requires b == U64Le(key) + (U64Le(lsn) + rest) && key !in soFar && (zeroKeys || key != 0)
    ensures TakeEntries(b, count + 1, soFar, zeroKeys) == TakeEntries(rest, count, soFar[key := lsn], zeroKeys)
  {
    TakeU64Inverse(key, U64Le(lsn) + rest, []);
    TakeIdInverse(lsn, rest, []);
  }

  lemma EncodeEntriesSplits(m: map<U64, Id>, rest: Bytes)
    requires m.Keys != {}
    ensures var key: U64 := Least(m.Keys);
            EncodeEntries(m) + rest == U64Le(key) + (U64Le(m[key]) + (EncodeEntries(m - {key}) + rest))
  {
  }

  lemma FirstEntryIsRead(m: map<U64, Id>, rest: Bytes, soFar: map<U64, Id>, zeroKeys: bool, key: U64)
    requires m.Keys != {} && key == Least(m.Keys) && m.Keys !! soFar.Keys && (zeroKeys || 0 !in m)
    ensures TakeEntries(EncodeEntries(m) + rest, |m|, soFar, zeroKeys)
         == TakeEntries(EncodeEntries(m - {key}) + rest, |m - {key}|, soFar[key := m[key]], zeroKeys)
  {
    var fewer := m - {key};
    OneFewer(m, key);
    EncodeEntriesSplits(m, rest);
    OneMoreEntry(EncodeEntries(m) + rest, |fewer|, soFar, zeroKeys, key, m[key], EncodeEntries(fewer) + rest);
  }

  lemma OneFewer(m: map<U64, Id>, key: U64)
    requires key in m
    ensures |m - {key}| == |m| - 1 && (m - {key}).Keys == m.Keys - {key}
  {
    var fewer := m - {key};
    assert fewer.Keys == m.Keys - {key};
    assert |fewer.Keys| == |m.Keys| - 1 && |fewer| == |fewer.Keys| && |m| == |m.Keys|;
  }

  lemma AddingFirst(soFar: map<U64, Id>, m: map<U64, Id>, key: U64)
    requires key in m && m.Keys !! soFar.Keys
    ensures soFar[key := m[key]] + (m - {key}) == soFar + m
    ensures (m - {key}).Keys !! soFar[key := m[key]].Keys
  {
    var left, right := soFar[key := m[key]] + (m - {key}), soFar + m;
    assert left.Keys == right.Keys;
    forall k | k in left ensures left[k] == right[k] {
    }
  }

  lemma {:induction false} EntriesAreRead(m: map<U64, Id>, rest: Bytes, soFar: map<U64, Id>, zeroKeys: bool)
    requires m.Keys !! soFar.Keys && (zeroKeys || 0 !in m)
    ensures TakeEntries(EncodeEntries(m) + rest, |m|, soFar, zeroKeys) == Ok(Parsed(soFar + m, rest))
    decreases |m|
  {
    if m.Keys == {} {
      assert m == map[];
      assert EncodeEntries(m) + rest == rest && soFar + m == soFar;
    } else {
      var key: U64 := Least(m.Keys);
      FirstEntryIsRead(m, rest, soFar, zeroKeys, key);
      AddingFirst(soFar, m, key);
      OneFewer(m, key);
      EntriesAreRead(m - {key}, rest, soFar[key := m[key]], zeroKeys);
    }
  }

  lemma MapIsRead(m: map<U64, Id>, rest: Bytes, zeroKeys: bool)
    requires |m| < U32_LIMIT && (zeroKeys || 0 !in m)
    ensures TakeMap(U32Le(|m|) + (EncodeEntries(m) + rest), zeroKeys) == Ok(Parsed(m, rest))
  {
    TakeU32Inverse(|m|, EncodeEntries(m) + rest, []);
    EntriesAreRead(m, rest, map[], zeroKeys);
    assert map[] + m == m;
  }

  // ---- payloads ----

  lemma ImagesOf(images: Images, page: U64, image: Option<PageBytes>, required: Option<Id>)
    requires Lawful(images) && ValidateImage(images, page, image, required).Done?
    ensures image.Some? ==> images.check(image.value, page).Done?
  {
  }

  lemma PageUpdateIsRead(images: Images, lsn: Id, p: Payload)
    requires Lawful(images) && p.PageUpdate? && ValidatePayload(images, lsn, p).Done?
    ensures DecodePageUpdate(images, EncodePayload(images, p)) == Ok(p)
  {
    ImagesOf(images, p.page, p.before, None);
    ImagesOf(images, p.page, p.after, Some(lsn));
    var last := EncodeImage(images, p.after);
    TakeU64Inverse(p.page, EncodeImage(images, p.before) + last, []);
    ImageIsRead(images, p.before, p.page, last);
    ImageIsRead(images, p.after, p.page, []);
    assert last + [] == last;
  }

  lemma CompensationFromParts(images: Images, b: Bytes, page: Parsed<U64>, undo: Parsed<Option<PageBytes>>,
                              count: Parsed<U64>,
                              next: Parsed<U64>)
    requires TakeU64(b) == Ok(page) && TakeImage(images, page.rest, page.value) == Ok(undo)
    requires TakeU64(undo.rest) == Ok(count) && TakeU64(count.rest) == Ok(next) && next.rest == []
    ensures DecodeCompensation(images, b)
         == Ok(Compensation(page.value, undo.value, count.value, OptionalId(next.value)))
  {
  }

  lemma CompensationIsRead(images: Images, lsn: Id, p: Payload)
    requires Lawful(images) && p.Compensation? && ValidatePayload(images, lsn, p).Done?
    ensures DecodeCompensation(images, EncodePayload(images, p)) == Ok(p)
  {
    ImagesOf(images, p.undone, p.undo, Some(lsn));
    var last := U64Le(Raw(p.undoNext));
    var third := U64Le(p.resultingCount) + last;
    var second := EncodeImage(images, p.undo) + third;
    TakeU64Inverse(p.undone, second, []);
    ImageIsRead(images, p.undo, p.undone, third);
    TakeU64Inverse(p.resultingCount, last, []);
    TakeU64Inverse(Raw(p.undoNext), [], []);
    assert last + [] == last;
    OptionalRaw(p.undoNext);
    CompensationFromParts(images, U64Le(p.undone) + second, Parsed(p.undone, second), Parsed(p.undo, third),
                          Parsed(p.resultingCount, last), Parsed(Raw(p.undoNext), []));
  }

  lemma HorizonIsRead(horizon: Option<Id>)
    ensures var b := if horizon.None? then [] else U64Le(horizon.value);
            TakeHorizon(b) == Ok(Parsed(horizon, []))
  {
    if horizon.Some? {
      TakeU64Inverse(horizon.value, [], []);
      assert U64Le(horizon.value) + [] == U64Le(horizon.value);
    }
  }

  lemma CheckpointBeginIsRead(images: Images, p: Payload)
    requires p.CheckpointBegin? && CountsFit(p)
    ensures DecodeCheckpointBegin(EncodePayload(images, p)) == Ok(p)
  {
    var tail := if p.horizon.None? then [] else U64Le(p.horizon.value);
    var second := U32Le(|p.dirty|) + (EncodeEntries(p.dirty) + tail);
    MapIsRead(p.active, second, false);
    MapIsRead(p.dirty, tail, true);
    HorizonIsRead(p.horizon);
  }

  lemma CheckpointEndIsRead(images: Images, p: Payload)
    requires p.CheckpointEnd?
    ensures DecodeCheckpointEnd(EncodePayload(images, p)) == Ok(p)
  {
    var last := U64Le(p.pageCount);
    TakeIdInverse(p.begin, U64Le(p.dataGeneration) + (U64Le(p.durableLog) + last), []);
    TakeU64Inverse(p.dataGeneration, U64Le(p.durableLog) + last, []);
    TakeIdInverse(p.durableLog, last, []);
    TakeU64Inverse(p.pageCount, [], []);
    assert last + [] == last;
  }

  lemma ResizeIsRead(before: U64, after: U64)
    ensures TakeU64(U64Le(before) + U64Le(after)) == Ok(Parsed(before, U64Le(after)))
    ensures TakeU64(U64Le(after)) == Ok(Parsed(after, []))
  {
    TakeU64Inverse(before, U64Le(after), []);
    TakeU64Inverse(after, [], []);
    assert U64Le(after) + [] == U64Le(after);
  }

  lemma PagePayloadIsRead(images: Images, lsn: Id, p: Payload)
    requires Lawful(images) && ValidatePayload(images, lsn, p).Done? && (p.PageUpdate? || p.Compensation?)
    ensures DecodePayload(images, Kind(p), EncodePayload(images, p)) == Ok(p)
  {
    if p.PageUpdate? {
      PageUpdateIsRead(images, lsn, p);
    } else {
      CompensationIsRead(images, lsn, p);
    }
  }

  lemma CheckpointKinds(images: Images, b: Bytes)
    ensures DecodePayload(images, 7, b) == DecodeCheckpointBegin(b)
            && DecodePayload(images, 8, b) == DecodeCheckpointEnd(b)
  {
  }

  lemma CheckpointPayloadIsRead(images: Images, p: Payload)
    requires IsCheckpoint(p) && CountsFit(p)
    ensures DecodePayload(images, Kind(p), EncodePayload(images, p)) == Ok(p)
  {
    var b := EncodePayload(images, p);
    CheckpointKinds(images, b);
    if p.CheckpointBegin? {
      CheckpointBeginIsRead(images, p);
    } else {
      CheckpointEndIsRead(images, p);
    }
  }

  lemma SmallPayloadIsRead(images: Images, p: Payload)
    requires !IsCheckpoint(p) && !p.PageUpdate? && !p.Compensation?
    ensures DecodePayload(images, Kind(p), EncodePayload(images, p)) == Ok(p)
  {
    if p.Resize? {
      ResizeIsRead(p.beforeCount, p.afterCount);
    }
  }

  lemma PayloadIsRead(images: Images, lsn: Id, p: Payload)
    requires Lawful(images) && CountsFit(p) && ValidatePayload(images, lsn, p).Done?
    ensures DecodePayload(images, Kind(p), EncodePayload(images, p)) == Ok(p)
  {
    if p.PageUpdate? || p.Compensation? {
      PagePayloadIsRead(images, lsn, p);
    } else if IsCheckpoint(p) {
      CheckpointPayloadIsRead(images, p);
    } else {
      SmallPayloadIsRead(images, p);
    }
  }

  // ---- the header ----

  lemma HeaderFront(kind: Byte, total: U32, rest: Bytes)
    ensures var b := (LOG_MAGIC + U16Le(LOG_VERSION) + [kind, 0] + U32Le(total)) + rest;
            && b[..8] == LOG_MAGIC && U16At(b, 8) == LOG_VERSION && b[10] == kind && b[11] == 0 && U32At(b, 12) == total
  {
    var b := (LOG_MAGIC + U16Le(LOG_VERSION) + [kind, 0] + U32Le(total)) + rest;
    assert b[8..10] == U16Le(LOG_VERSION);
    assert b[12..16] == U32Le(total);
  }

  lemma HeaderMiddle(front: Bytes, lsn: U64, transaction: U64, previous: U64, rest: Bytes)
    requires |front| == 16
    ensures var b := front + (U64Le(lsn) + U64Le(transaction) + U64Le(previous)) + rest;
            U64At(b, 16) == lsn && U64At(b, 24) == transaction && U64At(b, 32) == previous
  {
    var b := front + (U64Le(lsn) + U64Le(transaction) + U64Le(previous)) + rest;
    assert b[16..24] == U64Le(lsn);
    assert b[24..32] == U64Le(transaction);
    assert b[32..40] == U64Le(previous);
  }

  lemma HeaderBack(front: Bytes, payload: U32, sum: U32, rest: Bytes)
    requires |front| == 40
    ensures var b := front + (U32Le(payload) + U32Le(sum)) + rest;
            U32At(b, 40) == payload && U32At(b, SUM_OFFSET) == sum
  {
    var b := front + (U32Le(payload) + U32Le(sum)) + rest;
    assert b[40..44] == U32Le(payload);
    assert b[44..48] == U32Le(sum);
  }

  ghost predicate HasHeader(b: Bytes, kind: Byte, total: U32, lsn: U64, transaction: U64, previous: U64, payload: U32,
                            sum: U32)
  {
    && |b| >= RECORD_HEADER && b[..8] == LOG_MAGIC && U16At(b, 8) == LOG_VERSION && b[10] == kind && b[11] == 0
    && U32At(b, 12) == total && U64At(b, 16) == lsn && U64At(b, 24) == transaction && U64At(b, 32) == previous
    && U32At(b, 40) == payload && U32At(b, SUM_OFFSET) == sum
  }

  lemma Regrouped(front: Bytes, middle: Bytes, back: Bytes, rest: Bytes)
    ensures var b := front + middle + back + rest;
            && b == front + (middle + back + rest) && b == front + middle + (back + rest)
            && b == (front + middle) + back + rest
  {
  }

  lemma HeaderIsRead(b: Bytes, kind: Byte, total: U32, lsn: U64, transaction: U64, previous: U64, payload: U32,
                     sum: U32, rest: Bytes)
    requires b == Header(kind, total, lsn, transaction, previous, payload, sum) + rest
    ensures HasHeader(b, kind, total, lsn, transaction, previous, payload, sum)
  {
    var front := LOG_MAGIC + U16Le(LOG_VERSION) + [kind, 0] + U32Le(total);
    var middle := U64Le(lsn) + U64Le(transaction) + U64Le(previous);
    var back := U32Le(payload) + U32Le(sum);
    Regrouped(front, middle, back, rest);
    HeaderFront(kind, total, middle + back + rest);
    HeaderMiddle(front, lsn, transaction, previous, back + rest);
    HeaderBack(front + middle, payload, sum, rest);
  }

  lemma ZeroChecksumBytes()
    ensures U32Le(0) == NO_CHECKSUM
  {
    assert ToLe(1, 0) == [0] && ToLe(2, 0) == [0, 0] && ToLe(3, 0) == [0, 0, 0];
  }

  /** Filling the checksum field makes the header that declares the checksum; clearing it again
      restores the bytes that were summed. */
  lemma ChecksumField(r: Wal.Record, payload: Bytes, sum: U32)
    requires |payload| <= MAX_PAYLOAD
    ensures var blank := HeaderOf(r, |payload|, 0) + payload;
            var bytes := Splice(blank, SUM_OFFSET, U32Le(sum));
            bytes == HeaderOf(r, |payload|, sum) + payload && Splice(bytes, SUM_OFFSET, NO_CHECKSUM) == blank
  {
    ZeroChecksumBytes();
    var blank := HeaderOf(r, |payload|, 0) + payload;
    var bytes := HeaderOf(r, |payload|, sum) + payload;
    assert bytes[..SUM_OFFSET] == blank[..SUM_OFFSET] && bytes[SUM_OFFSET + 4..] == blank[SUM_OFFSET + 4..];
    assert bytes[SUM_OFFSET..SUM_OFFSET + 4] == U32Le(sum) && blank[SUM_OFFSET..SUM_OFFSET + 4] == NO_CHECKSUM;
    SpliceIs(blank, bytes, SUM_OFFSET, U32Le(sum));
    SpliceIs(bytes, blank, SUM_OFFSET, NO_CHECKSUM);
  }

  lemma SpliceIs(b: Bytes, c: Bytes, offset: nat, data: Bytes)
    requires |b| == |c| && offset + |data| <= |b|
    requires c[..offset] == b[..offset] && c[offset + |data|..] == b[offset + |data|..]
    requires c[offset..offset + |data|] == data
    ensures Splice(b, offset, data) == c
  {
    assert c == c[..offset] + c[offset..offset + |data|] + c[offset + |data|..];
  }

  // ---- whole records ----

  lemma OptionalRaw(id: Option<Id>)
    ensures OptionalId(Raw(id)) == id
  {
  }

  lemma ParsesFields(b: Bytes, kind: Byte, total: U32, lsn: U64, transaction: U64, previous: U64, payload: U32,
                     sum: U32)
    requires HasHeader(b, kind, total, lsn, transaction, previous, payload, sum)
    requires 1 <= kind <= 8 && total == RECORD_HEADER + payload <= MAX_RECORD && lsn != 0
    ensures ParseHeader(b) == Ok(RecordHeader(kind, total, lsn, OptionalId(transaction), OptionalId(previous), sum))
    ensures b[10] == kind
  {
  }

  function OwnHeader(r: Wal.Record, size: nat, sum: U32): RecordHeader {
    RecordHeader(Kind(r.payload), RECORD_HEADER + size, r.lsn, r.transaction, r.previous, sum)
  }

  lemma ParsesOwnHeader(b: Bytes, r: Wal.Record, payload: Bytes, sum: U32)
    requires |payload| <= MAX_PAYLOAD && b == HeaderOf(r, |payload|, sum) + payload
    ensures ParseHeader(b) == Ok(OwnHeader(r, |payload|, sum)) && b[10] == Kind(r.payload)
  {
    HeaderIsRead(b, Kind(r.payload), RECORD_HEADER + |payload|, r.lsn, Raw(r.transaction), Raw(r.previous), |payload|,
                 sum, payload);
    ParsesFields(b, Kind(r.payload), RECORD_HEADER + |payload|, r.lsn, Raw(r.transaction), Raw(r.previous), |payload|,
                 sum);
    OptionalRaw(r.transaction);
    OptionalRaw(r.previous);
  }

  lemma ReadsParsed(images: Images, crc: Crc, b: Bytes, r: Wal.Record, size: nat, sum: U32)
    requires ParseHeader(b) == Ok(OwnHeader(r, size, sum)) && |b| == RECORD_HEADER + size && b[10] == Kind(r.payload)
    requires crc(Splice(b, SUM_OFFSET, NO_CHECKSUM)) == sum
    requires DecodePayload(images, Kind(r.payload), b[RECORD_HEADER..]) == Ok(r.payload) && Validate(images, r).Done?
    ensures Wal.FromBytes(images, crc, b) == Ok(r)
  {
  }

  /** A record whose payload bytes decode to it is read from them, under its own header and the
      checksum of the whole. */
  lemma ReadsUnderOwnHeader(images: Images, crc: Crc, r: Wal.Record, payload: Bytes, blank: Bytes)
    requires |payload| <= MAX_PAYLOAD && blank == HeaderOf(r, |payload|, 0) + payload
    requires DecodePayload(images, Kind(r.payload), payload) == Ok(r.payload) && Validate(images, r).Done?
    ensures var b := Splice(blank, SUM_OFFSET, U32Le(crc(blank)));
            Wal.FromBytes(images, crc, b) == Ok(r) && b == HeaderOf(r, |payload|, crc(blank)) + payload
  {
    var sum := crc(blank);
    var b := Splice(blank, SUM_OFFSET, U32Le(sum));
    ChecksumField(r, payload, sum);
    ParsesOwnHeader(b, r, payload, sum);
    assert b[RECORD_HEADER..] == payload;
    ReadsParsed(images, crc, b, r, |payload|, sum);
  }

  /** A record is read back from its bytes, whatever the checksum function. */
  lemma DecodeInvertsEncode(images: Images, crc: Crc, r: Wal.Record)
    requires Lawful(images) && Encode(images, crc, r).Ok?
    ensures Wal.FromBytes(images, crc, Encode(images, crc, r).value) == Ok(r)
  {
    var payload := EncodePayload(images, r.payload);
    PayloadIsRead(images, r.lsn, r.payload);
    ReadsUnderOwnHeader(images, crc, r, payload, HeaderOf(r, |payload|, 0) + payload);
  }
}

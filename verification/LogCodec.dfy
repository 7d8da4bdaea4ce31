/** The log's codec as the program runs it: an encoder that fills a buffer field by field and
    stamps the checksum last, and a decoder that advances over a payload. */
module LogCodec {
  import opened Base
  import opened LittleEndian
  import opened Page
  import opened Wal
  import WalRoundTrip

  // ---- encoding ----

  lemma PushOne(bytes: Bytes, remaining: map<U64, Id>, key: U64)
    requires remaining.Keys != {} && key == Least(remaining.Keys)
    ensures (bytes + U64Le(key) + U64Le(remaining[key])) + EncodeEntries(remaining - {key})
            == bytes + EncodeEntries(remaining)
  {
  }

  /** Pushing the entries of an ordered map, smallest key first. */
  method PushEntries(m: map<U64, Id>) returns (bytes: Bytes)
    ensures bytes == EncodeEntries(m)
  {
    bytes := [];
    var remaining := m;
    while remaining.Keys != {}
      invariant remaining.Keys <= m.Keys
      invariant bytes + EncodeEntries(remaining) == EncodeEntries(m)
      decreases |remaining.Keys|
    {
      var key: U64 := Least(remaining.Keys);
      PushOne(bytes, remaining, key);
      bytes := bytes + U64Le(key) + U64Le(remaining[key]);
      assert (remaining - {key}).Keys == remaining.Keys - {key};
      remaining := remaining - {key};
    }
    assert bytes + [] == bytes;
  }

  method PushPayload(images: Images, p: Payload) returns (bytes: Bytes)
    requires CountsFit(p)
    ensures bytes == EncodePayload(images, p)
  {
    if p.CheckpointBegin? {
      var active := PushEntries(p.active);
      var dirty := PushEntries(p.dirty);
      bytes := U32Le(|p.active|) + active + U32Le(|p.dirty|) + dirty;
      if p.horizon.Some? {
        bytes := bytes + U64Le(p.horizon.value);
      }
      Reassociate(U32Le(|p.active|), active, U32Le(|p.dirty|), dirty,
                  if p.horizon.None? then [] else U64Le(p.horizon.value));
    } else {
      bytes := EncodePayload(images, p);
    }
  }

  lemma Reassociate(a: Bytes, b: Bytes, c: Bytes, d: Bytes, e: Bytes)
    ensures a + b + c + d + e == a + (b + (c + (d + e)))
    ensures e == [] ==> a + b + c + d == a + (b + (c + (d + e)))
  {
  }

  /** Writing the next field of a buffer filled from the front. */
  method Put(target: array<Byte>, offset: nat, data: Bytes)
    requires offset + |data| <= target.Length
    modifies target
    ensures target[..offset + |data|] == old(target[..offset]) + data
    ensures target[offset + |data|..] == old(target[offset + |data|..])
  {
    Overwrite(target, offset, data);
  }

  method FillFront(bytes: array<Byte>, kind: Byte, total: U32)
    requires bytes.Length >= RECORD_HEADER
    modifies bytes
    ensures bytes[..16] == LOG_MAGIC + U16Le(LOG_VERSION) + [kind, 0] + U32Le(total)
    ensures bytes[16..] == old(bytes[16..])
  {
    ghost var rest := bytes[16..];
    Put(bytes, 0, LOG_MAGIC);
    assert bytes[16..] == bytes[8..][8..] == rest;
    Put(bytes, 8, U16Le(LOG_VERSION));
    assert bytes[16..] == bytes[10..][6..] == rest;
    Put(bytes, 10, [kind, 0]);
    assert bytes[16..] == bytes[12..][4..] == rest;
    Put(bytes, 12, U32Le(total));
  }

  method FillMiddle(bytes: array<Byte>, lsn: U64, transaction: U64, previous: U64)
    requires bytes.Length >= RECORD_HEADER
    modifies bytes
    ensures bytes[..40] == old(bytes[..16]) + (U64Le(lsn) + U64Le(transaction) + U64Le(previous))
    ensures bytes[40..] == old(bytes[40..])
  {
    ghost var rest := bytes[40..];
    Put(bytes, 16, U64Le(lsn));
    assert bytes[40..] == bytes[24..][16..] == rest;
    Put(bytes, 24, U64Le(transaction));
    assert bytes[40..] == bytes[32..][8..] == rest;
    Put(bytes, 32, U64Le(previous));
  }

  /** Everything but the checksum, which stays zero. */
  method FillRecord(bytes: array<Byte>, r: Wal.Record, payload: Bytes)
    requires |payload| <= MAX_PAYLOAD && bytes.Length == RECORD_HEADER + |payload|
    requires bytes[44..48] == NO_CHECKSUM
    modifies bytes
    ensures bytes[..] == HeaderOf(r, |payload|, 0) + payload
  {
    ghost var tail := bytes[16..];
    assert tail[28..][..4] == bytes[44..48];
    FillFront(bytes, Kind(r.payload), RECORD_HEADER + |payload|);
    assert bytes[40..] == bytes[16..][24..] == tail[24..];
    FillMiddle(bytes, r.lsn, Raw(r.transaction), Raw(r.previous));
    ghost var front, rest := bytes[..40], bytes[44..];
    assert rest == bytes[40..][4..] == tail[28..];
    Put(bytes, 40, U32Le(|payload|));
    assert bytes[44..48] == bytes[44..][..4] == rest[..4] == NO_CHECKSUM;
    WalRoundTrip.ZeroChecksumBytes();
    assert bytes[..48] == front + (U32Le(|payload|) + U32Le(0)) by {
      assert bytes[..48] == bytes[..44] + bytes[44..48];
    }
    Put(bytes, 48, payload);
    assert bytes[..] == bytes[..48 + |payload|];
  }

  method EncodeRecord(images: Images, crc: Crc, r: Wal.Record) returns (result: Result<Bytes>)
    ensures result == Encode(images, crc, r)
  {
    var checked := Validate(images, r);
    if checked.Failed? { return Err(checked.state); }
    if !CountsFit(r.payload) { return Err(CORRUPT); }
    var payload := PushPayload(images, r.payload);
    if MAX_PAYLOAD < |payload| { return Err(CORRUPT); }
    var bytes := new Byte[RECORD_HEADER + |payload|](_ => 0);
    assert bytes[44..48] == NO_CHECKSUM;
    FillRecord(bytes, r, payload);
    var sum := crc(bytes[..]);
    Overwrite(bytes, SUM_OFFSET, U32Le(sum));
    result := Ok(bytes[..]);
  }

  // ---- decoding ----

  class Decoder {
    const bytes: Bytes
    var offset: nat

    ghost predicate Valid()
      reads this
    {
      offset <= |bytes|
    }

    function Remaining(): Bytes
      requires Valid()
      reads this
    {
      bytes[offset..]
    }

    constructor (bytes: Bytes)
      ensures Valid() && Remaining() == bytes
    {
      this.bytes, offset := bytes, 0;
    }

    method Take(length: nat) returns (r: Result<Bytes>)
      requires Valid()
      modifies this`offset
      ensures Valid()
      ensures length <= |old(Remaining())| ==>
                r == Ok(old(Remaining())[..length]) && Remaining() == old(Remaining())[length..]
      ensures |old(Remaining())| < length ==> r == Err(CORRUPT)
    {
      if |bytes| < offset + length { return Err(CORRUPT); }
      r := Ok(bytes[offset..offset + length]);
      assert bytes[offset..][length..] == bytes[offset + length..]
             && bytes[offset..][..length] == bytes[offset..offset + length];
      offset := offset + length;
    }

    method ReadU8() returns (r: Result<Byte>)
      requires Valid()
      modifies this`offset
      ensures Valid()
      ensures r.Ok? ==> TakeU8(old(Remaining())) == Ok(Parsed(r.value, Remaining()))
      ensures r.Err? ==> TakeU8(old(Remaining())) == Err(r.state)
    {
      var b := Take(1);
      if b.Err? { return Err(b.state); }
      r := Ok(b.value[0]);
    }

    method ReadU32() returns (r: Result<U32>)
      requires Valid()
      modifies this`offset
      ensures Valid()
      ensures r.Ok? ==> TakeU32(old(Remaining())) == Ok(Parsed(r.value, Remaining()))
      ensures r.Err? ==> TakeU32(old(Remaining())) == Err(r.state)
    {
      var b := Take(4);
      if b.Err? { return Err(b.state); }
      assert b.value == old(Remaining())[0..4] && b.value[0..4] == b.value;
      r := Ok(U32At(b.value, 0));
    }

    method ReadU64() returns (r: Result<U64>)
      requires Valid()
      modifies this`offset
      ensures Valid()
      ensures r.Ok? ==> TakeU64(old(Remaining())) == Ok(Parsed(r.value, Remaining()))
      ensures r.Err? ==> TakeU64(old(Remaining())) == Err(r.state)
    {
      var b := Take(8);
      if b.Err? { return Err(b.state); }
      assert b.value == old(Remaining())[0..8] && b.value[0..8] == b.value;
      r := Ok(U64At(b.value, 0));
    }

    method ReadId() returns (r: Result<Id>)
      requires Valid()
      modifies this`offset
      ensures Valid()
      ensures r.Ok? ==> TakeId(old(Remaining())) == Ok(Parsed(r.value, Remaining()))
      ensures r.Err? ==> TakeId(old(Remaining())) == Err(r.state)
    {
      var raw := ReadU64();
      if raw.Err? { return Err(raw.state); }
      if raw.value == 0 { return Err(CORRUPT); }
      r := Ok(raw.value);
    }

    method ReadImage(images: Images, id: U64) returns (r: Result<Option<PageBytes>>)
      requires Valid()
      modifies this`offset
      ensures Valid()
      ensures r.Ok? ==> TakeImage(images, old(Remaining()), id) == Ok(Parsed(r.value, Remaining()))
      ensures r.Err? ==> TakeImage(images, old(Remaining()), id) == Err(r.state)
    {
      var flag := ReadU8();
      if flag.Err? { return Err(flag.state); }
      if flag.value == 0 { return Ok(None); }
      if flag.value != 1 { return Err(CORRUPT); }
      var page := Take(PAGE_SIZE);
      if page.Err? { return Err(page.state); }
      var checked := images.check(page.value, id);
      r := if checked.Failed? then Err(checked.state) else Ok(Some(page.value));
    }

    method ReadEntries(count: nat, zeroKeys: bool) returns (r: Result<map<U64, Id>>)
      requires Valid()
      modifies this`offset
      ensures Valid()
      ensures r.Ok? ==> TakeEntries(old(Remaining()), count, map[], zeroKeys) == Ok(Parsed(r.value, Remaining()))
      ensures r.Err? ==> TakeEntries(old(Remaining()), count, map[], zeroKeys) == Err(r.state)
    {
      ghost var whole := TakeEntries(Remaining(), count, map[], zeroKeys);
      var entries: map<U64, Id> := map[];
      var k := 0;
      while k < count
        invariant 0 <= k <= count && Valid()
        invariant TakeEntries(Remaining(), count - k, entries, zeroKeys) == whole
      {
        var key := ReadU64();
        if key.Err? { return Err(key.state); }
        var lsn := ReadId();
        if lsn.Err? { return Err(lsn.state); }
        if (key.value == 0 && !zeroKeys) || key.value in entries { return Err(CORRUPT); }
        entries := entries[key.value := lsn.value];
        k := k + 1;
      }
      r := Ok(entries);
    }

    method ReadMap(zeroKeys: bool) returns (r: Result<map<U64, Id>>)
      requires Valid()
      modifies this`offset
      ensures Valid()
      ensures r.Ok? ==> TakeMap(old(Remaining()), zeroKeys) == Ok(Parsed(r.value, Remaining()))
      ensures r.Err? ==> TakeMap(old(Remaining()), zeroKeys) == Err(r.state)
    {
      var count := ReadU32();
      if count.Err? { return Err(count.state); }
      r := ReadEntries(count.value, zeroKeys);
    }
  }

  method ReadPageUpdate(images: Images, bytes: Bytes) returns (r: Result<Payload>)
    ensures r == DecodePageUpdate(images, bytes)
  {
    var decoder := new Decoder(bytes);
    var page := decoder.ReadU64();
    if page.Err? { return Err(page.state); }
    var before := decoder.ReadImage(images, page.value);
    if before.Err? { return Err(before.state); }
    var after := decoder.ReadImage(images, page.value);
    if after.Err? { return Err(after.state); }
    r := Finish(decoder.Remaining(), PageUpdate(page.value, before.value, after.value));
  }

  method ReadCompensation(images: Images, bytes: Bytes) returns (r: Result<Payload>)
    ensures r == DecodeCompensation(images, bytes)
  {
    var decoder := new Decoder(bytes);
    var page := decoder.ReadU64();
    if page.Err? { return Err(page.state); }
    var undo := decoder.ReadImage(images, page.value);
    if undo.Err? { return Err(undo.state); }
    var count := decoder.ReadU64();
    if count.Err? { return Err(count.state); }
    var next := decoder.ReadU64();
    if next.Err? { return Err(next.state); }
    r := Finish(decoder.Remaining(), Compensation(page.value, undo.value, count.value, OptionalId(next.value)));
  }

  method ReadCheckpointBegin(bytes: Bytes) returns (r: Result<Payload>)
    ensures r == DecodeCheckpointBegin(bytes)
  {
    var decoder := new Decoder(bytes);
    var active := decoder.ReadMap(false);
    if active.Err? { return Err(active.state); }
    var dirty := decoder.ReadMap(true);
    if dirty.Err? { return Err(dirty.state); }
    var horizon: Option<Id> := None;
    if decoder.Remaining() != [] {
      var raw := decoder.ReadU64();
      if raw.Err? { return Err(raw.state); }
      horizon := OptionalId(raw.value);
    }
    r := Finish(decoder.Remaining(), CheckpointBegin(active.value, dirty.value, horizon));
  }

  method ReadCheckpointEnd(bytes: Bytes) returns (r: Result<Payload>)
    ensures r == DecodeCheckpointEnd(bytes)
  {
    var decoder := new Decoder(bytes);
    var begin := decoder.ReadId();
    if begin.Err? { return Err(begin.state); }
    var generation := decoder.ReadU64();
    if generation.Err? { return Err(generation.state); }
    var durableLog := decoder.ReadId();
    if durableLog.Err? { return Err(durableLog.state); }
    var count := decoder.ReadU64();
    if count.Err? { return Err(count.state); }
    r := Finish(decoder.Remaining(), CheckpointEnd(begin.value, generation.value, durableLog.value, count.value));
  }

  method ReadResize(images: Images, bytes: Bytes) returns (r: Result<Payload>)
    ensures r == DecodePayload(images, 3, bytes)
  {
    var decoder := new Decoder(bytes);
    var before := decoder.ReadU64();
    if before.Err? { return Err(before.state); }
    var after := decoder.ReadU64();
    if after.Err? { return Err(after.state); }
    r := Finish(decoder.Remaining(), Resize(before.value, after.value));
  }

  method ReadPayload(images: Images, kind: Byte, bytes: Bytes) returns (r: Result<Payload>)
    requires 1 <= kind <= 8
    ensures r == DecodePayload(images, kind, bytes)
  {
    match kind
    case 2 => r := ReadPageUpdate(images, bytes);
    case 3 => r := ReadResize(images, bytes);
    case 6 => r := ReadCompensation(images, bytes);
    case 7 => r := ReadCheckpointBegin(bytes);
    case 8 => r := ReadCheckpointEnd(bytes);
    case _ => r := Finish(bytes, if kind == 1 then Begin else if kind == 4 then Commit else Abort);
  }

  method ReadRecord(images: Images, crc: Crc, bytes: Bytes) returns (r: Result<Wal.Record>)
    ensures r == Wal.FromBytes(images, crc, bytes)
  {
    var header := ParseHeader(bytes);
    if header.Err? { return Err(header.state); }
    if |bytes| != header.value.total { return Err(CORRUPT); }
    var summed := Splice(bytes, SUM_OFFSET, NO_CHECKSUM);
    if crc(summed) != header.value.sum { return Err(CORRUPT); }
    var payload := ReadPayload(images, bytes[10], bytes[RECORD_HEADER..]);
    if payload.Err? { return Err(payload.state); }
    var decoded := Wal.Record(header.value.lsn, header.value.transaction, header.value.previous, payload.value);
    var checked := Validate(images, decoded);
    r := if checked.Failed? then Err(checked.state) else Ok(decoded);
  }
}

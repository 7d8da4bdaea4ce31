/** The converse of the round trip: which accepted bytes are the encoding of the record read
    from them.  All are, except checkpoints whose entries are out of key order or whose horizon
    is written as a zero. */
module WalCanonical {
  import opened Base
  import opened LittleEndian
  import opened Page
  import opened Wal
  import opened WalRoundTrip

  const ENTRY := 16

  /** The keys of the first `count` entries strictly ascend. */
  predicate KeysAscend(b: Bytes, count: nat)
    requires count * ENTRY <= |b|
    decreases count
  {
    count <= 1 || (U64At(b, 0) < U64At(b[ENTRY..], 0) && KeysAscend(b[ENTRY..], count - 1))
  }

  predicate HasEntries(b: Bytes) {
    4 <= |b| && 4 + U32At(b, 0) * ENTRY <= |b|
  }

  function AfterEntries(b: Bytes): Bytes
    requires HasEntries(b)
  {
    b[4 + U32At(b, 0) * ENTRY..]
  }

  predicate MapCanonical(b: Bytes)
    requires HasEntries(b)
  {
    KeysAscend(b[4..], U32At(b, 0))
  }

  /** A checkpoint payload as the encoder writes it: both maps in key order, and no horizon of
      zero. */
  predicate CheckpointCanonical(b: Bytes) {
    && HasEntries(b) && MapCanonical(b)
    && var dirty := AfterEntries(b);
       && HasEntries(dirty) && MapCanonical(dirty)
       && var tail := AfterEntries(dirty);
          8 <= |tail| ==> U64At(tail, 0) != 0
  }

  predicate Canonical(b: Bytes) {
    |b| >= RECORD_HEADER && (b[10] == 7 ==> CheckpointCanonical(b[RECORD_HEADER..]))
  }

  // ---- entries ----

  lemma FirstOfEncoded(m: map<U64, Id>, rest: Bytes)
    requires m.Keys != {}
    ensures var b := EncodeEntries(m) + rest; |b| >= ENTRY && U64At(b, 0) == Least(m.Keys)
    ensures (EncodeEntries(m) + rest)[ENTRY..] == EncodeEntries(m - {Least(m.Keys)}) + rest
  {
    var key: U64 := Least(m.Keys);
    EncodeEntriesSplits(m, rest);
    TakeU64Inverse(key, U64Le(m[key]) + (EncodeEntries(m - {key}) + rest), []);
  }

  /** What reading entries one at a time yields, and where it stops. */
  lemma FirstEntryRead(b: Bytes, count: nat, soFar: map<U64, Id>, zeroKeys: bool) returns (key: U64, lsn: Id)
    requires 0 < count && TakeEntries(b, count, soFar, zeroKeys).Ok?
    ensures |b| >= ENTRY && b == U64Le(key) + (U64Le(lsn) + b[ENTRY..]) && key == U64At(b, 0) && key !in soFar
    ensures TakeEntries(b, count, soFar, zeroKeys) == TakeEntries(b[ENTRY..], count - 1, soFar[key := lsn], zeroKeys)
  {
    key := TakeU64(b).value.value;
    var after := TakeU64(b).value.rest;
    lsn := TakeId(after).value.value;
    TakeU64Inverse(0, [], b);
    TakeIdInverse(1, [], after);
    assert after[8..] == b[ENTRY..];
  }

  lemma {:induction false} EntriesRead(b: Bytes, count: nat, soFar: map<U64, Id>, zeroKeys: bool)
    requires TakeEntries(b, count, soFar, zeroKeys).Ok?
    ensures var p := TakeEntries(b, count, soFar, zeroKeys).value;
            && count * ENTRY <= |b| && p.rest == b[count * ENTRY..]
            && soFar.Keys <= p.value.Keys && |p.value| == |soFar| + count
            && forall k | k in soFar :: p.value[k] == soFar[k]
    decreases count
  {
    if count != 0 {
      var key, lsn := FirstEntryRead(b, count, soFar, zeroKeys);
      EntriesRead(b[ENTRY..], count - 1, soFar[key := lsn], zeroKeys);
      GrowsByOne(soFar, key, lsn);
    }
  }

  lemma GrowsByOne(m: map<U64, Id>, key: U64, lsn: Id)
    requires key !in m
    ensures |m[key := lsn]| == |m| + 1
  {
    assert m[key := lsn].Keys == m.Keys + {key};
    assert |m[key := lsn].Keys| == |m.Keys| + 1 && |m[key := lsn]| == |m[key := lsn].Keys| && |m| == |m.Keys|;
  }

  lemma LeastOfOneMore(m: map<U64, Id>, key: U64)
    requires key in m
    ensures key == Least(m.Keys) <==> (m - {key}).Keys == {} || key < Least((m - {key}).Keys)
  {
    var fewer := m - {key};
    assert fewer.Keys == m.Keys - {key};
    assert m.Keys == fewer.Keys + {key};
    var least := Least(m.Keys);
    if fewer.Keys == {} {
      assert least in {key};
    } else {
      assert Least(fewer.Keys) in m.Keys;
      assert least == key || least in fewer.Keys;
    }
  }

  /** Joining an entry in front gives the encoding exactly when its key is the least. */
  lemma EncodedWithFirst(b: Bytes, m: map<U64, Id>, key: U64, rest: Bytes)
    requires |b| >= ENTRY && key in m && b == U64Le(key) + (U64Le(m[key]) + b[ENTRY..])
    ensures b == EncodeEntries(m) + rest <==> key == Least(m.Keys) && b[ENTRY..] == EncodeEntries(m - {key}) + rest
  {
    FirstOfEncoded(m, rest);
    EncodeEntriesSplits(m, rest);
    TakeU64Inverse(key, U64Le(m[key]) + b[ENTRY..], []);
  }

  lemma ReadMapMinus(all: map<U64, Id>, soFar: map<U64, Id>, key: U64, lsn: Id)
    requires key !in soFar && key in all
    ensures all - soFar[key := lsn].Keys == (all - soFar.Keys) - {key}
  {
    assert soFar[key := lsn].Keys == soFar.Keys + {key};
  }

  lemma {:induction false} EntriesCanonicalIffAscending(b: Bytes, count: nat, soFar: map<U64, Id>, zeroKeys: bool,
                                                        all: map<U64, Id>, rest: Bytes)
    requires TakeEntries(b, count, soFar, zeroKeys) == Ok(Parsed(all, rest))
    ensures count * ENTRY <= |b|
    ensures b == EncodeEntries(all - soFar.Keys) + rest <==> KeysAscend(b, count)
    decreases count
  {
    EntriesRead(b, count, soFar, zeroKeys);
    var m := all - soFar.Keys;
    if count == 0 {
      assert m.Keys == {};
      assert EncodeEntries(m) + rest == rest;
    } else {
      var key, lsn := FirstEntryRead(b, count, soFar, zeroKeys);
      var tail := b[ENTRY..];
      EntriesRead(tail, count - 1, soFar[key := lsn], zeroKeys);
      ReadMapMinus(all, soFar, key, lsn);
      EntriesCanonicalIffAscending(tail, count - 1, soFar[key := lsn], zeroKeys, all, rest);
      EncodedWithFirst(b, m, key, rest);
      LeastOfOneMore(m, key);
      FewerLeft(all, soFar, count, key);
      if count > 1 && tail == EncodeEntries(m - {key}) + rest {
        FirstOfEncoded(m - {key}, rest);
      }
    }
  }

  lemma KeysLeft(all: set<U64>, soFar: set<U64>, count: nat, key: U64)
    requires soFar <= all && |all| == |soFar| + count && key in all && key !in soFar
    ensures all - (soFar + {key}) == {} <==> count == 1
  {
    var left := all - (soFar + {key});
    assert all == left + (soFar + {key});
    assert |soFar + {key}| == |soFar| + 1;
    assert |all| == |left| + |soFar + {key}|;
  }

  lemma FewerLeft(all: map<U64, Id>, soFar: map<U64, Id>, count: nat, key: U64)
    requires soFar.Keys <= all.Keys && |all| == |soFar| + count && key in all && key !in soFar
    ensures ((all - soFar.Keys) - {key}).Keys == {} <==> count == 1
  {
    assert |all| == |all.Keys| && |soFar| == |soFar.Keys|;
    KeysLeft(all.Keys, soFar.Keys, count, key);
    assert ((all - soFar.Keys) - {key}).Keys == all.Keys - (soFar.Keys + {key});
  }

  // ---- checkpoints ----

  lemma MapCanonicalIff(b: Bytes, zeroKeys: bool, m: map<U64, Id>, rest: Bytes)
    requires TakeMap(b, zeroKeys) == Ok(Parsed(m, rest))
    ensures HasEntries(b) && AfterEntries(b) == rest && |m| == U32At(b, 0)
    ensures b == U32Le(|m|) + (EncodeEntries(m) + rest) <==> MapCanonical(b)
  {
    var count := TakeU32(b).value;
    TakeU32Inverse(0, [], b);
    EntriesRead(count.rest, count.value, map[], zeroKeys);
    EntriesCanonicalIffAscending(count.rest, count.value, map[], zeroKeys, m, rest);
    var none: map<U64, Id> := map[];
    assert m - none.Keys == m;
    assert b == U32Le(count.value) + count.rest;
    assert count.rest[count.value * ENTRY..] == b[4 + count.value * ENTRY..];
    if b == U32Le(|m|) + (EncodeEntries(m) + rest) {
      assert b[4..] == EncodeEntries(m) + rest;
    }
  }

  function HorizonBytes(horizon: Option<Id>): Bytes { if horizon.None? then [] else U64Le(horizon.value) }

  lemma HorizonCanonicalIff(b: Bytes, horizon: Option<Id>)
    requires TakeHorizon(b) == Ok(Parsed(horizon, []))
    ensures b == HorizonBytes(horizon) <==> (8 <= |b| ==> U64At(b, 0) != 0)
  {
    if b != [] {
      TakeU64Inverse(0, [], b);
    }
  }

  lemma {:induction false} EntriesLength(m: map<U64, Id>)
    ensures |EncodeEntries(m)| == |m| * ENTRY
    decreases |m|
  {
    if m.Keys == {} {
      assert m == map[];
    } else {
      var key: U64 := Least(m.Keys);
      OneFewer(m, key);
      EntriesLength(m - {key});
    }
  }

  lemma SplitEquality(b: Bytes, front: Bytes, rest: Bytes, other: Bytes)
    requires |front| <= |b| && b[|front|..] == rest
    ensures b == front + other <==> b == front + rest && rest == other
  {
  }

  lemma MapJoins(b: Bytes, m: map<U64, Id>, rest: Bytes, other: Bytes)
    requires HasEntries(b) && AfterEntries(b) == rest && |m| == U32At(b, 0) && |m| < U32_LIMIT
    ensures b == U32Le(|m|) + (EncodeEntries(m) + other) <==>
              b == U32Le(|m|) + (EncodeEntries(m) + rest) && rest == other
  {
    EntriesLength(m);
    var front := U32Le(|m|) + EncodeEntries(m);
    assert front + other == U32Le(|m|) + (EncodeEntries(m) + other);
    assert front + rest == U32Le(|m|) + (EncodeEntries(m) + rest);
    SplitEquality(b, front, rest, other);
  }

  lemma CheckpointParts(b: Bytes)
    returns (active: Parsed<map<U64, Id>>, dirty: Parsed<map<U64, Id>>, horizon: Parsed<Option<Id>>)
    requires DecodeCheckpointBegin(b).Ok?
    ensures TakeMap(b, false) == Ok(active) && TakeMap(active.rest, true) == Ok(dirty)
            && TakeHorizon(dirty.rest) == Ok(horizon)
    ensures horizon.rest == [] && 0 !in active.value
    ensures DecodeCheckpointBegin(b) == Ok(CheckpointBegin(active.value, dirty.value, horizon.value))
  {
    active := TakeMap(b, false).value;
    dirty := TakeMap(active.rest, true).value;
    horizon := TakeHorizon(dirty.rest).value;
  }

  lemma EncodedParts(images: Images, active: map<Id, Id>, dirty: map<U64, Id>, horizon: Option<Id>)
    requires |active| < U32_LIMIT && |dirty| < U32_LIMIT
    ensures EncodePayload(images, CheckpointBegin(active, dirty, horizon))
         == U32Le(|active|)
            + (EncodeEntries(active) + (U32Le(|dirty|) + (EncodeEntries(dirty) + HorizonBytes(horizon))))
  {
  }

  lemma CheckpointBeginCanonicalIff(images: Images, b: Bytes)
    requires DecodeCheckpointBegin(b).Ok?
    ensures var p := DecodeCheckpointBegin(b).value;
            p.CheckpointBegin? && CountsFit(p) && (b == EncodePayload(images, p) <==> CheckpointCanonical(b))
  {
    var active, dirty, horizon := CheckpointParts(b);
    MapCanonicalIff(b, false, active.value, active.rest);
    MapCanonicalIff(active.rest, true, dirty.value, dirty.rest);
    HorizonCanonicalIff(dirty.rest, horizon.value);
    var tail := HorizonBytes(horizon.value);
    var second := U32Le(|dirty.value|) + (EncodeEntries(dirty.value) + tail);
    MapJoins(active.rest, dirty.value, dirty.rest, tail);
    MapJoins(b, active.value, active.rest, second);
    EncodedParts(images, active.value, dirty.value, horizon.value);
  }

  // ---- the other payloads ----

  lemma ReadPageUpdateWasEncoded(images: Images, b: Bytes)
    requires Lawful(images) && DecodePageUpdate(images, b).Ok?
    ensures var p := DecodePageUpdate(images, b).value; p.PageUpdate? && EncodePayload(images, p) == b
  {
    var page := TakeU64(b).value;
    TakeU64Inverse(0, [], b);
    ReadImageWasEncoded(images, page.rest, page.value);
    var before := TakeImage(images, page.rest, page.value).value;
    ReadImageWasEncoded(images, before.rest, page.value);
    var after := TakeImage(images, before.rest, page.value).value;
    assert after.rest == [];
    assert EncodeImage(images, after.value) + [] == EncodeImage(images, after.value);
  }

  lemma ReadCompensationWasEncoded(images: Images, b: Bytes)
    requires Lawful(images) && DecodeCompensation(images, b).Ok?
    ensures var p := DecodeCompensation(images, b).value; p.Compensation? && EncodePayload(images, p) == b
  {
    var page := TakeU64(b).value;
    TakeU64Inverse(0, [], b);
    ReadImageWasEncoded(images, page.rest, page.value);
    var undo := TakeImage(images, page.rest, page.value).value;
    TakeU64Inverse(0, [], undo.rest);
    var count := TakeU64(undo.rest).value;
    TakeU64Inverse(0, [], count.rest);
    var next := TakeU64(count.rest).value;
    assert next.rest == [];
    assert U64Le(next.value) + [] == U64Le(next.value);
  }

  lemma ReadCheckpointEndWasEncoded(images: Images, b: Bytes)
    requires DecodeCheckpointEnd(b).Ok?
    ensures var p := DecodeCheckpointEnd(b).value; p.CheckpointEnd? && EncodePayload(images, p) == b
  {
    var begin := TakeId(b).value;
    TakeIdInverse(1, [], b);
    var generation := TakeU64(begin.rest).value;
    TakeU64Inverse(0, [], begin.rest);
    var durableLog := TakeId(generation.rest).value;
    TakeIdInverse(1, [], generation.rest);
    var count := TakeU64(durableLog.rest).value;
    TakeU64Inverse(0, [], durableLog.rest);
    assert count.rest == [];
    assert U64Le(count.value) + [] == U64Le(count.value);
  }

  lemma ReadResizeWasEncoded(images: Images, b: Bytes)
    requires DecodePayload(images, 3, b).Ok?
    ensures var p := DecodePayload(images, 3, b).value; p.Resize? && EncodePayload(images, p) == b
  {
    var before := TakeU64(b).value;
    TakeU64Inverse(0, [], b);
    TakeU64Inverse(0, [], before.rest);
    var after := TakeU64(before.rest).value;
    assert U64Le(after.value) + [] == U64Le(after.value);
  }

  /** A payload read from its bytes is encoded back to them exactly when they are canonical. */
  lemma PayloadCanonicalIff(images: Images, kind: Byte, b: Bytes)
    requires Lawful(images) && 1 <= kind <= 8 && DecodePayload(images, kind, b).Ok?
    ensures var p := DecodePayload(images, kind, b).value;
            && Kind(p) == kind && CountsFit(p)
            && (b == EncodePayload(images, p) <==> (kind == 7 ==> CheckpointCanonical(b)))
  {
    if kind == 2 { ReadPageUpdateWasEncoded(images, b); }
    else if kind == 3 { ReadResizeWasEncoded(images, b); }
    else if kind == 6 { ReadCompensationWasEncoded(images, b); }
    else if kind == 7 { CheckpointBeginCanonicalIff(images, b); }
    else if kind == 8 { ReadCheckpointEndWasEncoded(images, b); }
  }

  // ---- whole records ----

  lemma Joined(b: Bytes, i: nat, j: nat, k: nat)
    requires i <= j <= k <= |b|
    ensures b[i..k] == b[i..j] + b[j..k]
  {
  }

  lemma FrontWasWritten(b: Bytes)
    requires |b| >= 16 && b[..8] == LOG_MAGIC && U16At(b, 8) == LOG_VERSION && b[11] == 0
    ensures b[..16] == LOG_MAGIC + U16Le(LOG_VERSION) + [b[10], 0] + U32Le(U32At(b, 12))
  {
    U16Rewritten(b, 8);
    U32Rewritten(b, 12);
    assert b[10..12] == [b[10], 0];
    Joined(b, 0, 8, 10);
    Joined(b, 0, 10, 12);
    Joined(b, 0, 12, 16);
  }

  lemma MiddleWasWritten(b: Bytes)
    requires |b| >= 40
    ensures b[16..40] == U64Le(U64At(b, 16)) + U64Le(U64At(b, 24)) + U64Le(U64At(b, 32))
  {
    U64Rewritten(b, 16);
    U64Rewritten(b, 24);
    U64Rewritten(b, 32);
    Joined(b, 16, 24, 32);
    Joined(b, 16, 32, 40);
  }

  lemma BackWasWritten(b: Bytes)
    requires |b| >= RECORD_HEADER
    ensures b[40..48] == U32Le(U32At(b, 40)) + U32Le(U32At(b, SUM_OFFSET))
  {
    U32Rewritten(b, 40);
    U32Rewritten(b, 44);
    Joined(b, 40, 44, 48);
  }

  lemma JoinThree(b: Bytes, front: Bytes, middle: Bytes, back: Bytes)
    requires |b| >= RECORD_HEADER && b[..16] == front && b[16..40] == middle && b[40..48] == back
    ensures b[..RECORD_HEADER] == front + middle + back
  {
  }

  lemma HeaderWasWritten(b: Bytes)
    requires ParseHeader(b).Ok?
    ensures b[..RECORD_HEADER]
         == Header(b[10], U32At(b, 12), U64At(b, 16), U64At(b, 24), U64At(b, 32), U32At(b, 40), U32At(b, SUM_OFFSET))
  {
    FrontWasWritten(b);
    MiddleWasWritten(b);
    BackWasWritten(b);
    JoinThree(b, LOG_MAGIC + U16Le(LOG_VERSION) + [b[10], 0] + U32Le(U32At(b, 12)),
              U64Le(U64At(b, 16)) + U64Le(U64At(b, 24)) + U64Le(U64At(b, 32)),
              U32Le(U32At(b, 40)) + U32Le(U32At(b, SUM_OFFSET)));
  }

  lemma RawOptional(raw: U64)
    ensures Raw(OptionalId(raw)) == raw
  {
  }

  lemma RecordHeaderWasWritten(images: Images, crc: Crc, b: Bytes)
    requires Lawful(images) && Wal.FromBytes(images, crc, b).Ok?
    ensures var r := Wal.FromBytes(images, crc, b).value;
            var size := |b| - RECORD_HEADER;
            && 0 <= size <= MAX_PAYLOAD && 1 <= b[10] <= 8 && Validate(images, r).Done?
            && DecodePayload(images, b[10], b[RECORD_HEADER..]) == Ok(r.payload)
            && b[..RECORD_HEADER] == HeaderOf(r, size, U32At(b, SUM_OFFSET))
            && crc(Splice(b, SUM_OFFSET, NO_CHECKSUM)) == U32At(b, SUM_OFFSET)
  {
    HeaderWasWritten(b);
    PayloadCanonicalIff(images, b[10], b[RECORD_HEADER..]);
    RawOptional(U64At(b, 24));
    RawOptional(U64At(b, 32));
  }

  /** Bytes the decoder accepts are the encoding of the record it returns exactly when they are
      canonical: for every kind but a checkpoint's begin that is always so. */
  lemma AcceptedIsEncodingIffCanonical(images: Images, crc: Crc, b: Bytes)
    requires Lawful(images) && Wal.FromBytes(images, crc, b).Ok?
    ensures Encode(images, crc, Wal.FromBytes(images, crc, b).value) == Ok(b) <==> Canonical(b)
  {
    var r := Wal.FromBytes(images, crc, b).value;
    var size := |b| - RECORD_HEADER;
    var payload := b[RECORD_HEADER..];
    var sum := U32At(b, SUM_OFFSET);
    RecordHeaderWasWritten(images, crc, b);
    PayloadCanonicalIff(images, b[10], payload);
    assert b == HeaderOf(r, size, sum) + payload;
    ChecksumField(r, payload, sum);
    if Encode(images, crc, r) == Ok(b) {
      EncodedPayloadIs(images, crc, r, b);
    }
  }

  lemma EncodedPayloadIs(images: Images, crc: Crc, r: Wal.Record, b: Bytes)
    requires Encode(images, crc, r) == Ok(b)
    ensures |b| >= RECORD_HEADER && b[RECORD_HEADER..] == EncodePayload(images, r.payload)
  {
    var payload := EncodePayload(images, r.payload);
    var blank := HeaderOf(r, |payload|, 0) + payload;
    ChecksumField(r, payload, crc(blank));
  }

  // ---- slotted pages ----

  function SlottedImages(crc: Crc): Images {
    Images((page: PageBytes, id: U64) => Check(crc, page, id), (page: PageBytes) => Seal(crc, page),
           (page: PageBytes) => PageId(page), (page: PageBytes) => PageLsn(page))
  }

  /** Sealing a valid page changes nothing, so the log stores valid images as they are. */
  lemma SlottedImagesAreLawful(crc: Crc)
    ensures Lawful(SlottedImages(crc))
  {
    forall page: PageBytes, id: U64 | Check(crc, page, id).Done? ensures PageId(page) == id && Seal(crc, page) == page {
      SealingValidIsIdentity(crc, page);
    }
  }

  lemma SealingValidIsIdentity(crc: Crc, page: PageBytes)
    requires ChecksumMatches(crc, page)
    ensures Seal(crc, page) == page
  {
    ToFromLe(page[CHECKSUM_OFFSET..CHECKSUM_OFFSET + 4]);
    SpliceIs(page, page, CHECKSUM_OFFSET, U32Le(crc(Unsealed(page))));
  }
}

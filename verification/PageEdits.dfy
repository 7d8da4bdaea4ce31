/** What page edits preserve: validity, every earlier record, and the space account. */
module PageEdits {
  import opened Base
  import opened LittleEndian
  import opened Page

  // ---- a fresh page ----

  lemma FieldIn(h: Bytes, before: Bytes, field: Bytes, after: Bytes)
    requires after == before + field && after <= h
    ensures h[|before|..|after|] == field && before <= h
  {
  }

  lemma HeaderFields(id: U64, pageType: Byte)
    ensures var h := NewHeader(id, pageType);
            && h[..4] == MAGIC && h[4..6] == U16Le(FILE_FORMAT_VERSION) && h[6] == pageType && h[8..16] == U64Le(id)
            && h[16..24] == U64Le(0) && h[28..30] == U16Le(HEADER_SIZE) && h[30..32] == U16Le(PAGE_SIZE)
                && h[32..34] == U16Le(0)
  {
    var h := NewHeader(id, pageType);
    var h0 := MAGIC + U16Le(FILE_FORMAT_VERSION);
    var h1 := h0 + [pageType, 0];
    var h2 := h1 + U64Le(id);
    var h3 := h2 + U64Le(0);
    var h4 := h3 + NO_CHECKSUM;
    var h5 := h4 + U16Le(HEADER_SIZE);
    var h6 := h5 + U16Le(PAGE_SIZE);
    var h7 := h6 + U16Le(0);
    FieldIn(h, h6, U16Le(0), h7);
    FieldIn(h, h5, U16Le(PAGE_SIZE), h6);
    FieldIn(h, h4, U16Le(HEADER_SIZE), h5);
    FieldIn(h, h3, NO_CHECKSUM, h4);
    FieldIn(h, h2, U64Le(0), h3);
    FieldIn(h, h1, U64Le(id), h2);
    FieldIn(h, h0, [pageType, 0], h1);
    FieldIn(h, MAGIC, U16Le(FILE_FORMAT_VERSION), h0);
    assert h[6] == h[6..8][0];
  }

  lemma UnsealedNewPage(b: PageBytes, id: U64, pageType: Byte)
    requires pageType in {1, 2, 3} && NewHeader(id, pageType) <= b
    ensures Identified(b, id) && Layout(b) && PageLsn(b) == 0 && SlotCount(b) == 0
    ensures Lower(b) == HEADER_SIZE && Upper(b) == PAGE_SIZE
  {
    var h := NewHeader(id, pageType);
    HeaderFields(id, pageType);
    assert b[..HEADER_SIZE] == h;
    assert b[..4] == h[..4] && b[4..6] == h[4..6] && b[8..16] == h[8..16] && b[16..24] == h[16..24]
        && b[28..30] == h[28..30] && b[30..32] == h[30..32] && b[32..34] == h[32..34];
  }

  lemma NewPageIsValid(crc: Crc, id: U64, pageType: Byte)
    requires pageType in {1, 2, 3}
    ensures ValidPage(crc, NewPage(crc, id, pageType), id)
    ensures PageLsn(NewPage(crc, id, pageType)) == 0 && Records(NewPage(crc, id, pageType)) == []
    ensures FreeSpace(NewPage(crc, id, pageType)) == PAGE_SIZE - HEADER_SIZE
  {
    var b: PageBytes := NewHeader(id, pageType) + seq(PAGE_SIZE - HEADER_SIZE, _ => 0);
    UnsealedNewPage(b, id, pageType);
    SealKeepsLayout(crc, b);
    SealKeepsIdentity(crc, b, id);
    SealMatches(crc, b);
  }

  lemma SealKeepsIdentity(crc: Crc, b: PageBytes, id: U64)
    ensures Identified(Seal(crc, b), id) == Identified(b, id)
    ensures PageLsn(Seal(crc, b)) == PageLsn(b) && PageId(Seal(crc, b)) == PageId(b)
  {
    SameHead(b, Seal(crc, b), id) by {
      SealKeeps(crc, b, 0, CHECKSUM_OFFSET);
    }
  }

  lemma SameHead(b: PageBytes, c: PageBytes, id: U64)
    requires b[0..CHECKSUM_OFFSET] == c[0..CHECKSUM_OFFSET]
    ensures Identified(b, id) == Identified(c, id) && PageLsn(b) == PageLsn(c) && PageId(b) == PageId(c)
  {
    forall from, to | 0 <= from <= to <= CHECKSUM_OFFSET ensures b[from..to] == c[from..to] {
      Window(b, b[0..CHECKSUM_OFFSET], 0, from, to);
      Window(c, b[0..CHECKSUM_OFFSET], 0, from, to);
    }
    assert b[6] == b[6..7][0] && c[6] == c[6..7][0];
  }

  // ---- inserting a record ----

  lemma RecordUntouched(b: PageBytes, record: Bytes, from: nat, to: nat)
    requires BoundsSound(b) && CanFit(b, |record|) && from <= to <= PAGE_SIZE
    requires to <= LOWER_OFFSET || (HEADER_SIZE <= from && to <= Lower(b)) || Upper(b) <= from
    ensures WithRecord(b, record)[from..to] == b[from..to]
  {
    var lower, start := Lower(b), Upper(b) - |record|;
    var entry := U16Le(start) + U16Le(|record|) + U16Le(0);
    var bounds := U16Le(lower + SLOT_SIZE) + U16Le(start) + U16Le(SlotCount(b) + 1);
    var b1 := Splice(b, start, record);
    var b2 := Splice(b1, lower, entry);
    SpliceOutside(b, start, record, from, to);
    SpliceOutside(b1, lower, entry, from, to);
    SpliceOutside(b2, LOWER_OFFSET, bounds, from, to);
  }

  lemma Window(a: Bytes, b: Bytes, offset: nat, from: nat, to: nat)
    requires offset + |b| <= |a| && a[offset..offset + |b|] == b && from <= to <= |b|
    ensures a[offset + from..offset + to] == b[from..to]
  {
    forall k | 0 <= k < to - from ensures a[offset + from..offset + to][k] == b[from..to][k] {
      assert a[offset..offset + |b|][from + k] == a[offset + from + k];
    }
  }

  lemma Triple(a: Bytes, offset: nat, x: U16, y: U16, z: U16)
    requires offset + 6 <= |a| && a[offset..offset + 6] == U16Le(x) + U16Le(y) + U16Le(z)
    ensures U16At(a, offset) == x && U16At(a, offset + 2) == y && U16At(a, offset + 4) == z
  {
    var t := U16Le(x) + U16Le(y) + U16Le(z);
    Window(a, t, offset, 0, 2);
    Window(a, t, offset, 2, 4);
    Window(a, t, offset, 4, 6);
    assert t[0..2] == U16Le(x) && t[2..4] == U16Le(y) && t[4..6] == U16Le(z);
  }

  lemma RecordWritten(b: PageBytes, record: Bytes)
    requires BoundsSound(b) && CanFit(b, |record|)
    ensures var c, start := WithRecord(b, record), Upper(b) - |record|;
            && c[LOWER_OFFSET..LOWER_OFFSET + 6] == U16Le(Lower(b) + SLOT_SIZE) + U16Le(start) + U16Le(SlotCount(b) + 1)
            && c[Lower(b)..Lower(b) + 6] == U16Le(start) + U16Le(|record|) + U16Le(0)
            && c[start..Upper(b)] == record
  {
    var lower, start := Lower(b), Upper(b) - |record|;
    var entry := U16Le(start) + U16Le(|record|) + U16Le(0);
    var bounds := U16Le(lower + SLOT_SIZE) + U16Le(start) + U16Le(SlotCount(b) + 1);
    var b1 := Splice(b, start, record);
    var b2 := Splice(b1, lower, entry);
    SpliceInside(b, start, record);
    SpliceOutside(b1, lower, entry, start, start + |record|);
    SpliceOutside(b2, LOWER_OFFSET, bounds, start, start + |record|);
    SpliceInside(b1, lower, entry);
    SpliceOutside(b2, LOWER_OFFSET, bounds, lower, lower + 6);
    SpliceInside(b2, LOWER_OFFSET, bounds);
  }

  lemma RecordFields(b: PageBytes, record: Bytes)
    requires BoundsSound(b) && CanFit(b, |record|)
    ensures var c, start := WithRecord(b, record), Upper(b) - |record|;
            && Lower(c) == Lower(b) + SLOT_SIZE && Upper(c) == start && SlotCount(c) == SlotCount(b) + 1
            && U16At(c, Lower(b)) == start && U16At(c, Lower(b) + 2) == |record| && U16At(c, Lower(b) + 4) == 0
            && BoundsSound(c)
  {
    var c, start := WithRecord(b, record), Upper(b) - |record|;
    RecordWritten(b, record);
    Triple(c, LOWER_OFFSET, Lower(b) + SLOT_SIZE, start, SlotCount(b) + 1);
    Triple(c, Lower(b), start, |record|, 0);
  }

  lemma EarlierSlotKept(b: PageBytes, record: Bytes, slot: nat)
    requires Layout(b) && CanFit(b, |record|) && slot < SlotCount(b)
    ensures var c := WithRecord(b, record);
            && BoundsSound(c) && slot < SlotCount(c) && SlotSound(c, slot)
            && SlotOffset(c, slot) == SlotOffset(b, slot) && SlotLength(c, slot) == SlotLength(b, slot)
            && c[SlotOffset(b, slot)..SlotEnd(b, slot)] == b[SlotOffset(b, slot)..SlotEnd(b, slot)]
  {
    RecordFields(b, record);
    assert SlotSound(b, slot);
    RecordUntouched(b, record, SlotStart(slot), SlotStart(slot) + 2);
    RecordUntouched(b, record, SlotStart(slot) + 2, SlotStart(slot) + 4);
    RecordUntouched(b, record, SlotStart(slot) + 4, SlotStart(slot) + 6);
    RecordUntouched(b, record, SlotOffset(b, slot), SlotEnd(b, slot));
  }

  lemma NewSlot(b: PageBytes, record: Bytes)
    requires Layout(b) && CanFit(b, |record|)
    ensures var c, n := WithRecord(b, record), SlotCount(b);
            && BoundsSound(c) && SlotCount(c) == n + 1 && SlotSound(c, n)
            && SlotOffset(c, n) == Upper(b) - |record| && SlotEnd(c, n) == Upper(b)
            && c[SlotOffset(c, n)..SlotEnd(c, n)] == record
  {
    RecordWritten(b, record);
    RecordFields(b, record);
    assert SlotStart(SlotCount(b)) == Lower(b);
  }

  /** `c` has the slots of `b` and one more, whose record ends where the free space of `b` ended. */
  ghost predicate Extends(b: PageBytes, c: PageBytes)
    requires Layout(b)
  {
    && BoundsSound(c) && SlotCount(c) == SlotCount(b) + 1
    && (forall slot | 0 <= slot < SlotCount(b) ::
          && SlotSound(c, slot) && SlotOffset(c, slot) == SlotOffset(b, slot)
          && SlotLength(c, slot) == SlotLength(b, slot))
    && SlotSound(c, SlotCount(b)) && SlotEnd(c, SlotCount(b)) == Upper(b)
  }

  lemma ExtendsKeepsLayout(b: PageBytes, c: PageBytes)
    requires Layout(b) && Extends(b, c)
    ensures Layout(c)
  {
    forall i: nat, j: nat | i < j < SlotCount(c) ensures SlotsApart(c, i, j) {
      assert SlotSound(b, i);
      if j < SlotCount(b) {
        assert SlotsApart(b, i, j);
      }
    }
  }

  lemma WithRecordLayout(b: PageBytes, record: Bytes)
    requires Layout(b) && CanFit(b, |record|)
    ensures Layout(WithRecord(b, record))
    ensures FreeSpace(WithRecord(b, record)) == FreeSpace(b) - |record| - SLOT_SIZE
  {
    RecordFields(b, record);
    NewSlot(b, record);
    forall slot: nat | slot < SlotCount(b) {
      EarlierSlotKept(b, record, slot);
    }
    ExtendsKeepsLayout(b, WithRecord(b, record));
  }

  lemma SlotAfterInsert(b: PageBytes, record: Bytes, slot: nat)
    requires Layout(b) && CanFit(b, |record|) && slot <= SlotCount(b)
    ensures Layout(WithRecord(b, record)) && SlotCount(WithRecord(b, record)) == SlotCount(b) + 1
    ensures Record(WithRecord(b, record), slot).value == (Records(b) + [record])[slot]
  {
    WithRecordLayout(b, record);
    NewSlot(b, record);
    if slot < SlotCount(b) {
      EarlierSlotKept(b, record, slot);
    }
  }

  lemma WithRecordRecords(b: PageBytes, record: Bytes)
    requires Layout(b) && CanFit(b, |record|)
    ensures Layout(WithRecord(b, record))
    ensures Records(WithRecord(b, record)) == Records(b) + [record]
  {
    var c := WithRecord(b, record);
    SlotAfterInsert(b, record, 0);
    forall slot: nat | slot < SlotCount(c) ensures Records(c)[slot] == (Records(b) + [record])[slot] {
      SlotAfterInsert(b, record, slot);
    }
  }

  /** Inserting into a valid page yields a valid page of the same identity and LSN whose
      records are the earlier ones, byte for byte, followed by the new one; a record that
      does not fit changes nothing. */
  lemma InsertKeepsRecords(crc: Crc, b: PageBytes, id: U64, record: Bytes)
    requires ValidPage(crc, b, id)
    ensures var c := Insert(crc, b, record);
            && ValidPage(crc, c, id) && PageLsn(c) == PageLsn(b)
            && (CanFit(b, |record|) ==>
                  && Records(c) == Records(b) + [record] && Record(c, SlotCount(b)) == Ok(record)
                  && FreeSpace(c) == FreeSpace(b) - |record| - SLOT_SIZE)
            && (!CanFit(b, |record|) ==> c == b)
  {
    if CanFit(b, |record|) {
      var w := WithRecord(b, record);
      WithRecordLayout(b, record);
      WithRecordRecords(b, record);
      RecordUntouched(b, record, 0, CHECKSUM_OFFSET);
      SameHead(b, w, id);
      SealKeepsIdentity(crc, w, id);
      SealKeepsLayout(crc, w);
      SealMatches(crc, w);
      assert Record(Seal(crc, w), SlotCount(b)).value == Records(Seal(crc, w))[SlotCount(b)];
    }
  }

  /** Stamping an LSN keeps the page valid, its identity and all its records. */
  lemma SetLsnKeepsRecords(crc: Crc, b: PageBytes, id: U64, lsn: U64)
    requires ValidPage(crc, b, id)
    ensures var c := SetLsn(crc, b, lsn);
            ValidPage(crc, c, id) && PageLsn(c) == lsn && Records(c) == Records(b) && FreeSpace(c) == FreeSpace(b)
  {
    var w := Splice(b, 16, U64Le(lsn));
    SpliceInside(b, 16, U64Le(lsn));
    forall from, to | 0 <= from <= to <= PAGE_SIZE && (to <= 16 || 24 <= from) ensures w[from..to] == b[from..to] {
      SpliceOutside(b, 16, U64Le(lsn), from, to);
    }
    assert w[6] == w[6..7][0] && b[6] == b[6..7][0];
    assert w[..4] == w[0..4] && b[..4] == b[0..4];
    assert Identified(w, id);
    SameTailSameLayout(b, w);
    SealKeepsIdentity(crc, w, id);
    SealKeepsLayout(crc, w);
    SealMatches(crc, w);
  }

  // ---- any sequence of insertions ----

  function InsertAll(crc: Crc, b: PageBytes, records: seq<Bytes>): PageBytes
    requires BoundsSound(b)
    decreases |records|, 0
  {
    if records == [] then b
    else
      InsertAllBounds(crc, b, records[..|records| - 1]);
      Insert(crc, InsertAll(crc, b, records[..|records| - 1]), records[|records| - 1])
  }

  lemma {:induction false} InsertAllBounds(crc: Crc, b: PageBytes, records: seq<Bytes>)
    requires BoundsSound(b)
    ensures BoundsSound(InsertAll(crc, b, records))
    decreases |records|, 1
  {
    if records != [] {
      InsertAllBounds(crc, b, records[..|records| - 1]);
      var before := InsertAll(crc, b, records[..|records| - 1]);
      if CanFit(before, |records[|records| - 1]|) {
        RecordFields(before, records[|records| - 1]);
        SealKeepsLayout(crc, WithRecord(before, records[|records| - 1]));
      }
    }
  }

  /** The records of an insertion sequence that fitted when their turn came. */
  function Accepted(crc: Crc, b: PageBytes, records: seq<Bytes>): seq<Bytes>
    requires BoundsSound(b)
  {
    if records == [] then []
    else
      InsertAllBounds(crc, b, records[..|records| - 1]);
      var last := records[|records| - 1];
      Accepted(crc, b, records[..|records| - 1]) +
      (if CanFit(InsertAll(crc, b, records[..|records| - 1]), |last|) then [last] else [])
  }

  function TotalLength(records: seq<Bytes>): nat {
    if records == [] then 0 else TotalLength(records[..|records| - 1]) + |records[|records| - 1]|
  }

  lemma TotalLengthAppend(records: seq<Bytes>, last: Bytes)
    ensures TotalLength(records + [last]) == TotalLength(records) + |last|
  {
    assert (records + [last])[..|records|] == records;
  }

  function Accounted(b: PageBytes): nat
    requires Layout(b)
  {
    HEADER_SIZE + SlotCount(b) * SLOT_SIZE + FreeSpace(b) + TotalLength(Records(b))
  }

  lemma InsertKeepsAccount(crc: Crc, b: PageBytes, id: U64, record: Bytes)
    requires ValidPage(crc, b, id)
    ensures ValidPage(crc, Insert(crc, b, record), id)
    ensures Accounted(Insert(crc, b, record)) == Accounted(b)
  {
    InsertKeepsRecords(crc, b, id, record);
    TotalLengthAppend(Records(b), record);
    if CanFit(b, |record|) {
      assert |Records(Insert(crc, b, record))| == |Records(b)| + 1;
    }
  }

  /** `c` is `b` with `added` after its records, and the same bytes accounted for. */
  ghost predicate Grown(crc: Crc, b: PageBytes, c: PageBytes, id: U64, added: seq<Bytes>)
    requires Layout(b)
  {
    && ValidPage(crc, c, id) && PageLsn(c) == PageLsn(b) && Records(c) == Records(b) + added
    && Accounted(c) == Accounted(b)
  }

  lemma JoinRecords(a: seq<Bytes>, b: seq<Bytes>, c: seq<Bytes>)
    ensures (a + b) + c == a + (b + c)
  {
  }

  lemma GrownFurther(crc: Crc, b: PageBytes, c: PageBytes, d: PageBytes, id: U64, added: seq<Bytes>, more: seq<Bytes>)
    requires Layout(b) && Grown(crc, b, c, id, added)
    requires ValidPage(crc, d, id) && PageLsn(d) == PageLsn(c) && Records(d) == Records(c) + more
             && Accounted(d) == Accounted(c)
    ensures Grown(crc, b, d, id, added + more)
  {
    JoinRecords(Records(b), added, more);
  }

  lemma GrowsByOne(crc: Crc, b: PageBytes, c: PageBytes, id: U64, added: seq<Bytes>, record: Bytes)
    requires Layout(b) && Grown(crc, b, c, id, added)
    ensures Grown(crc, b, Insert(crc, c, record), id, added + if CanFit(c, |record|) then [record] else [])
  {
    var d := Insert(crc, c, record);
    InsertKeepsRecords(crc, c, id, record);
    InsertKeepsAccount(crc, c, id, record);
    if CanFit(c, |record|) {
      GrownFurther(crc, b, c, d, id, added, [record]);
    } else {
      assert added + [] == added;
    }
  }

  /** After any sequence of insertions a valid page is still valid, its earlier records are
      still there unchanged, the accepted ones follow in order, and the space taken by the
      header, the slots, the records and the gap has not changed in total. */
  lemma {:induction false} InsertAllKeepsRecords(crc: Crc, b: PageBytes, id: U64, records: seq<Bytes>)
    requires ValidPage(crc, b, id)
    ensures Grown(crc, b, InsertAll(crc, b, records), id, Accepted(crc, b, records))
    decreases |records|
  {
    if records == [] {
      assert Records(b) + [] == Records(b);
    } else {
      var front, last := records[..|records| - 1], records[|records| - 1];
      InsertAllKeepsRecords(crc, b, id, front);
      GrowsByOne(crc, b, InsertAll(crc, b, front), id, Accepted(crc, b, front), last);
    }
  }

  /** On a page built by `new` and insertions alone, every byte is accounted for. */
  lemma NewPageAccountsForEveryByte(crc: Crc, id: U64, pageType: Byte, records: seq<Bytes>)
    requires pageType in {1, 2, 3}
    ensures var b := NewPage(crc, id, pageType);
            && BoundsSound(b) && ValidPage(crc, InsertAll(crc, b, records), id)
            && Records(InsertAll(crc, b, records)) == Accepted(crc, b, records)
            && Accounted(InsertAll(crc, b, records)) == PAGE_SIZE
  {
    var b := NewPage(crc, id, pageType);
    NewPageIsValid(crc, id, pageType);
    InsertAllKeepsRecords(crc, b, id, records);
    assert [] + Accepted(crc, b, records) == Accepted(crc, b, records);
  }

  /** On such a page a record goes in exactly if the header, a slot for every record, the records and
      this one make no more than 8192 bytes; otherwise the page stays as it is. */
  lemma RecordGoesInIff(crc: Crc, id: U64, pageType: Byte, records: seq<Bytes>, record: Bytes)
    requires pageType in {1, 2, 3}
    ensures var start := NewPage(crc, id, pageType);
            BoundsSound(start) && ValidPage(crc, InsertAll(crc, start, records), id)
    ensures var b := InsertAll(crc, NewPage(crc, id, pageType), records);
            var after := Insert(crc, b, record);
            && Layout(after)
            && if 40 + 6 * (|Records(b)| + 1) + TotalLength(Records(b)) + |record| <= 8192
               then Records(after) == Records(b) + [record] else after == b
  {
    NewPageAccountsForEveryByte(crc, id, pageType, records);
    var b := InsertAll(crc, NewPage(crc, id, pageType), records);
    InsertKeepsRecords(crc, b, id, record);
  }

  /** A page is valid exactly if its raw fields say so: magic, version and type, its own id, bounds
      that match the slot count, slots with a zero flag that lie in the page above the gap, no byte
      in two of them, and the checksum of the page with that field cleared. */
  lemma ValidPageIff(crc: Crc, b: PageBytes, id: U64)
    ensures ValidPage(crc, b, id) <==>
              && b[..4] == [79, 82, 68, 65] && U16At(b, 4) == 1 && b[6] in {1, 2, 3} && U64At(b, 8) == id
              && U16At(b, 28) == 40 + 6 * U16At(b, 32) && U16At(b, 28) <= U16At(b, 30) <= 8192
              && (forall slot: nat | slot < U16At(b, 32) :: FieldsSound(b, slot))
              && (forall i: nat, j: nat, at: nat | i < j < U16At(b, 32) :: !(Occupies(b, i, at) && Occupies(b, j, at)))
              && U32At(b, 24) == crc(b[..24] + [0, 0, 0, 0] + b[28..])
  {
    assert Unsealed(b) == b[..24] + [0, 0, 0, 0] + b[28..];
    if BoundsSound(b) {
      LayoutByFields(b);
    }
  }

  /** A valid page is accepted; one of another version is reported as unsupported, and anything else as
      corrupt. */
  lemma VerdictIff(crc: Crc, b: PageBytes, id: U64)
    ensures Check(crc, b, id) == Done <==> ValidPage(crc, b, id)
    ensures Check(crc, b, id) == Failed("0A000") <==> b[..4] == [79, 82, 68, 65] && U16At(b, 4) != 1
    ensures Check(crc, b, id) in {Done, Failed("0A000"), Failed("XX001")}
  {
  }

  /** The flag of a slot is zero and its record lies in the page, above the gap. */
  predicate FieldsSound(b: PageBytes, slot: nat)
    requires 40 + 6 * slot + 6 <= 8192
  {
    var at := 40 + 6 * slot;
    U16At(b, at + 4) == 0 && U16At(b, 30) <= U16At(b, at) && U16At(b, at) + U16At(b, at + 2) <= 8192
  }

  predicate Occupies(b: PageBytes, slot: nat, at: nat)
    requires 40 + 6 * slot + 6 <= 8192
  {
    U16At(b, 40 + 6 * slot) <= at < U16At(b, 40 + 6 * slot) + U16At(b, 40 + 6 * slot + 2)
  }

  lemma ApartIffNoCommonByte(b: PageBytes, i: nat, j: nat)
    requires BoundsSound(b) && i < SlotCount(b) && j < SlotCount(b)
    ensures SlotsApart(b, i, j) <==> forall at: nat :: !(Occupies(b, i, at) && Occupies(b, j, at))
  {
    if !SlotsApart(b, i, j) {
      var at: nat := if SlotOffset(b, i) < SlotOffset(b, j) then SlotOffset(b, j) else SlotOffset(b, i);
      assert Occupies(b, i, at) && Occupies(b, j, at);
    }
  }

  lemma LayoutByFields(b: PageBytes)
    requires BoundsSound(b)
    ensures Layout(b) <==>
              && (forall slot: nat | slot < SlotCount(b) :: FieldsSound(b, slot))
              && forall i: nat, j: nat, at: nat | i < j < SlotCount(b) :: !(Occupies(b, i, at) && Occupies(b, j, at))
  {
    if Layout(b) {
      forall slot: nat | slot < SlotCount(b) ensures FieldsSound(b, slot) {
        assert SlotSound(b, slot);
      }
      forall i: nat, j: nat, at: nat | i < j < SlotCount(b) ensures !(Occupies(b, i, at) && Occupies(b, j, at)) {
        assert SlotsApart(b, i, j);
      }
    } else if exists slot :: 0 <= slot < SlotCount(b) && !SlotSound(b, slot) {
      var slot: nat :| slot < SlotCount(b) && !SlotSound(b, slot);
      assert !FieldsSound(b, slot);
    } else {
      var i: nat, j: nat :| i < j < SlotCount(b) && !SlotsApart(b, i, j);
      ApartIffNoCommonByte(b, i, j);
    }
  }
}

/** The slotted page as the program keeps it: a fixed byte array written in place. */
module SlottedPages {
  import opened Base
  import opened LittleEndian
  import opened Page
  import PageEdits

  lemma HeaderOverZeros(blank: Bytes, header: Bytes)
    requires |blank| == PAGE_SIZE && |header| == HEADER_SIZE && forall i | 0 <= i < PAGE_SIZE :: blank[i] == 0
    ensures Splice(blank, 0, header) == header + seq(PAGE_SIZE - HEADER_SIZE, _ => 0)
  {
  }

  lemma ThreeWrites(before: PageBytes, record: Bytes, start: U16, lower: U16, slots: U16, length: U16, b1: Bytes,
                    b2: Bytes, b3: Bytes)
    requires BoundsSound(before) && CanFit(before, |record|) && length == |record|
    requires start == Upper(before) - |record| && lower == Lower(before) && slots == SlotCount(before)
    requires lower + SLOT_SIZE < U16_LIMIT && slots + 1 < U16_LIMIT
    requires b1 == Splice(before, start, record)
    requires b2 == Splice(b1, lower, U16Le(start) + U16Le(length) + U16Le(0))
    requires b3 == Splice(b2, LOWER_OFFSET, U16Le(lower + SLOT_SIZE) + U16Le(start) + U16Le(slots + 1))
    ensures b3 == WithRecord(before, record)
  {
  }

  class SlottedPage {
    const crc: Crc
    const bytes: array<Byte>

    /** What `new` and `from_bytes` establish and every edit keeps. */
    ghost predicate Valid()
      reads this, bytes
    {
      bytes.Length == PAGE_SIZE && ValidPage(crc, bytes[..], PageId(bytes[..]))
    }

    constructor New(crc: Crc, id: U64, pageType: Byte)
      requires pageType in {1, 2, 3}
      ensures Valid() && fresh(bytes) && this.crc == crc && bytes[..] == NewPage(crc, id, pageType)
    {
      this.crc := crc;
      var header := NewHeader(id, pageType);
      var storage := new Byte[PAGE_SIZE](i => 0);
      bytes := storage;
      new;
      ghost var blank := bytes[..];
      Overwrite(bytes, 0, header);
      HeaderOverZeros(blank, header);
      SealInPlace();
      PageEdits.NewPageIsValid(crc, id, pageType);
    }

    constructor FromValid(crc: Crc, image: PageBytes)
      requires ValidPage(crc, image, PageId(image))
      ensures Valid() && fresh(bytes) && this.crc == crc && bytes[..] == image
    {
      this.crc := crc;
      var storage := new Byte[PAGE_SIZE](i requires 0 <= i < PAGE_SIZE => image[i]);
      bytes := storage;
      new;
      assert bytes[..] == image;
    }

    method SealInPlace()
      requires bytes.Length == PAGE_SIZE
      modifies bytes
      ensures bytes[..] == Seal(crc, old(bytes[..]))
    {
      ghost var before := bytes[..];
      Overwrite(bytes, CHECKSUM_OFFSET, NO_CHECKSUM);
      var checksum := crc(bytes[..]);
      Overwrite(bytes, CHECKSUM_OFFSET, U32Le(checksum));
      SpliceOver(before, CHECKSUM_OFFSET, NO_CHECKSUM, U32Le(checksum));
    }

    /** Three consecutive 16-bit fields: a slot entry, or the page's bounds and slot count. */
    method WriteFields(offset: nat, x: U16, y: U16, z: U16)
      requires bytes.Length == PAGE_SIZE && offset + 6 <= PAGE_SIZE
      modifies bytes
      ensures bytes[..] == Splice(old(bytes[..]), offset, U16Le(x) + U16Le(y) + U16Le(z))
    {
      ghost var before := bytes[..];
      Overwrite(bytes, offset, U16Le(x));
      Overwrite(bytes, offset + 2, U16Le(y));
      Overwrite(bytes, offset + 4, U16Le(z));
      SpliceTwice(before, offset, U16Le(x), U16Le(y));
      SpliceTwice(before, offset, U16Le(x) + U16Le(y), U16Le(z));
    }

    method Insert(record: Bytes) returns (slot: Option<U16>)
      requires Valid()
      modifies bytes
      ensures Valid() && bytes[..] == Page.Insert(crc, old(bytes[..]), record)
      ensures slot == if CanFit(old(bytes[..]), |record|) then Some(SlotCount(old(bytes[..]))) else None
    {
      PageEdits.InsertKeepsRecords(crc, bytes[..], PageId(bytes[..]), record);
      if !CanFit(bytes[..], |record|) {
        return None;
      }
      var slotId := SlotCount(bytes[..]);
      WriteRecord(record);
      SealInPlace();
      return Some(slotId);
    }

    method WriteRecord(record: Bytes)
      requires bytes.Length == PAGE_SIZE && BoundsSound(bytes[..]) && CanFit(bytes[..], |record|)
      modifies bytes
      ensures bytes[..] == WithRecord(old(bytes[..]), record)
    {
      var slotId, lower, upper := SlotCount(bytes[..]), Lower(bytes[..]), Upper(bytes[..]);
      var newUpper := upper - |record|;
      ghost var before := bytes[..];
      Overwrite(bytes, newUpper, record);
      ghost var b1 := bytes[..];
      WriteFields(lower, newUpper, |record|, 0);
      ghost var b2 := bytes[..];
      WriteFields(LOWER_OFFSET, lower + SLOT_SIZE, newUpper, slotId + 1);
      ThreeWrites(before, record, newUpper, lower, slotId, |record|, b1, b2, bytes[..]);
    }

    method SetLsn(lsn: U64)
      requires Valid()
      modifies bytes
      ensures Valid() && bytes[..] == Page.SetLsn(crc, old(bytes[..]), lsn)
    {
      ghost var before := bytes[..];
      PageEdits.SetLsnKeepsRecords(crc, before, PageId(before), lsn);
      Overwrite(bytes, 16, U64Le(lsn));
      SealInPlace();
    }

    method Record(slot: nat) returns (record: Result<Bytes>)
      requires Valid()
      ensures record == Page.Record(bytes[..], slot)
    {
      if slot >= SlotCount(bytes[..]) {
        return Err("XX001");
      }
      assert SlotSound(bytes[..], slot);
      var start := HEADER_SIZE + slot * SLOT_SIZE;
      var offset, length := U16At(bytes[..], start), U16At(bytes[..], start + 2);
      return Ok(bytes[offset..offset + length]);
    }
  }

  ghost predicate Claimed(b: PageBytes, slots: nat, index: int)
    requires BoundsSound(b) && slots <= SlotCount(b)
  {
    exists slot: nat :: slot < slots && InSlot(b, slot, index)
  }

  lemma ClaimedNext(b: PageBytes, slot: nat, index: int)
    requires BoundsSound(b) && slot < SlotCount(b)
    ensures Claimed(b, slot + 1, index) <==> Claimed(b, slot, index) || InSlot(b, slot, index)
  {
    if Claimed(b, slot, index) {
      var earlier: nat :| earlier < slot && InSlot(b, earlier, index);
      assert earlier < slot + 1;
    }
  }

  lemma SharedByteOverlaps(b: PageBytes, slot: nat, index: int)
    requires BoundsSound(b) && slot < SlotCount(b) && Claimed(b, slot, index) && InSlot(b, slot, index)
    ensures !Layout(b)
  {
    var earlier: nat :| earlier < slot && InSlot(b, earlier, index);
    assert !SlotsApart(b, earlier, slot);
  }

  lemma NoSharedByteApart(b: PageBytes, slot: nat)
    requires BoundsSound(b) && slot < SlotCount(b)
    requires forall index | InSlot(b, slot, index) :: !Claimed(b, slot, index)
    ensures forall earlier: nat | earlier < slot :: SlotsApart(b, earlier, slot)
  {
    forall earlier: nat | earlier < slot ensures SlotsApart(b, earlier, slot) {
      var first := if SlotOffset(b, earlier) <= SlotOffset(b, slot) then SlotOffset(b, slot)
                   else SlotOffset(b, earlier);
      if !SlotsApart(b, earlier, slot) {
        assert InSlot(b, slot, first) && InSlot(b, earlier, first);
      }
    }
  }

  /** The slot loop of `validate`: it collects the bytes every record occupies and stops at
      the first byte two records share. */
  method CheckSlots(b: PageBytes) returns (sound: bool)
    requires BoundsSound(b)
    ensures sound == Layout(b)
  {
    var occupied: set<int> := {};
    var slot := 0;
    while slot < SlotCount(b)
      invariant slot <= SlotCount(b)
      invariant forall index :: index in occupied <==> Claimed(b, slot, index)
      invariant forall i | 0 <= i < slot :: SlotSound(b, i)
      invariant forall i, j | 0 <= i < j < slot :: SlotsApart(b, i, j)
    {
      if !SlotSound(b, slot) {
        return false;
      }
      var index := SlotOffset(b, slot);
      ghost var before := occupied;
      while index < SlotEnd(b, slot)
        invariant SlotOffset(b, slot) <= index <= SlotEnd(b, slot)
        invariant forall x :: x in occupied <==> x in before || SlotOffset(b, slot) <= x < index
        invariant forall x | SlotOffset(b, slot) <= x < index :: x !in before
      {
        if index in occupied {
          SharedByteOverlaps(b, slot, index);
          return false;
        }
        occupied := occupied + {index};
        index := index + 1;
      }
      NoSharedByteApart(b, slot);
      forall x ensures x in occupied <==> Claimed(b, slot + 1, x) {
        ClaimedNext(b, slot, x);
      }
      slot := slot + 1;
    }
    return true;
  }

  /** `validate`, check by check in the program's order. */
  method Validate(crc: Crc, b: PageBytes, expected: U64) returns (outcome: Outcome)
    ensures outcome == Check(crc, b, expected)
  {
    if b[..4] != MAGIC {
      return Failed("XX001");
    }
    if U16At(b, 4) != FILE_FORMAT_VERSION {
      return Failed("0A000");
    }
    if b[6] !in {1, 2, 3} || PageId(b) != expected {
      return Failed("XX001");
    }
    if !BoundsSound(b) {
      return Failed("XX001");
    }
    var sound := CheckSlots(b);
    if !sound || U32At(b, CHECKSUM_OFFSET) != crc(Splice(b, CHECKSUM_OFFSET, NO_CHECKSUM)) {
      return Failed("XX001");
    }
    return Done;
  }
}

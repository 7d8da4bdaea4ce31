/** The 8 KiB slotted page: its byte layout, when a page is valid, and what inserting a
    record or stamping an LSN does to the bytes. */
module Page {
  import opened Base
  import opened LittleEndian

  const PAGE_SIZE := 8192
  const FILE_FORMAT_VERSION := 1
  const SLOT_SIZE := 6
  const HEADER_SIZE := 40
  const CHECKSUM_OFFSET := 24
  const LOWER_OFFSET := 28
  const UPPER_OFFSET := 30
  const SLOT_COUNT_OFFSET := 32
  const MAGIC: Bytes := [79, 82, 68, 65]
  const NO_CHECKSUM: Bytes := [0, 0, 0, 0]

  type PageBytes = b: Bytes | |b| == PAGE_SIZE witness seq(PAGE_SIZE, _ => 0)

  // The CRC-32C library, as a function of the bytes.
  type Crc = Bytes -> U32

  function PageId(b: PageBytes): U64 { U64At(b, 8) }
  function PageLsn(b: PageBytes): U64 { U64At(b, 16) }
  function Lower(b: PageBytes): U16 { U16At(b, LOWER_OFFSET) }
  function Upper(b: PageBytes): U16 { U16At(b, UPPER_OFFSET) }
  function SlotCount(b: PageBytes): U16 { U16At(b, SLOT_COUNT_OFFSET) }

  function FreeSpace(b: PageBytes): nat {
    if Lower(b) <= Upper(b) then Upper(b) - Lower(b) else 0
  }

  predicate BoundsSound(b: PageBytes) {
    Lower(b) == HEADER_SIZE + SlotCount(b) * SLOT_SIZE && Lower(b) <= Upper(b) <= PAGE_SIZE
  }

  function SlotStart(slot: nat): nat { HEADER_SIZE + slot * SLOT_SIZE }

  function SlotOffset(b: PageBytes, slot: nat): U16
    requires BoundsSound(b) && slot < SlotCount(b)
  {
    U16At(b, SlotStart(slot))
  }

  function SlotLength(b: PageBytes, slot: nat): U16
    requires BoundsSound(b) && slot < SlotCount(b)
  {
    U16At(b, SlotStart(slot) + 2)
  }

  function SlotEnd(b: PageBytes, slot: nat): nat
    requires BoundsSound(b) && slot < SlotCount(b)
  {
    SlotOffset(b, slot) + SlotLength(b, slot)
  }

  predicate SlotSound(b: PageBytes, slot: nat)
    requires BoundsSound(b) && slot < SlotCount(b)
  {
    U16At(b, SlotStart(slot) + 4) == 0 && Upper(b) <= SlotOffset(b, slot) && SlotEnd(b, slot) <= PAGE_SIZE
  }

  predicate InSlot(b: PageBytes, slot: nat, index: int)
    requires BoundsSound(b) && slot < SlotCount(b)
  {
    SlotOffset(b, slot) <= index < SlotEnd(b, slot)
  }

  predicate SlotsApart(b: PageBytes, i: nat, j: nat)
    requires BoundsSound(b) && i < SlotCount(b) && j < SlotCount(b)
  {
    || SlotEnd(b, i) <= SlotOffset(b, j) || SlotEnd(b, j) <= SlotOffset(b, i)
    || SlotLength(b, i) == 0 || SlotLength(b, j) == 0
  }

  /** The slot directory and the records fill disjoint stretches of the page. */
  predicate Layout(b: PageBytes) {
    && BoundsSound(b)
    && (forall slot | 0 <= slot < SlotCount(b) :: SlotSound(b, slot))
    && (forall i, j | 0 <= i < j < SlotCount(b) :: SlotsApart(b, i, j))
  }

  function Unsealed(b: PageBytes): PageBytes {
    Splice(b, CHECKSUM_OFFSET, NO_CHECKSUM)
  }

  function Seal(crc: Crc, b: PageBytes): PageBytes {
    Splice(b, CHECKSUM_OFFSET, U32Le(crc(Unsealed(b))))
  }

  predicate ChecksumMatches(crc: Crc, b: PageBytes) {
    U32At(b, CHECKSUM_OFFSET) == crc(Unsealed(b))
  }

  predicate Identified(b: PageBytes, expected: U64) {
    b[..4] == MAGIC && U16At(b, 4) == FILE_FORMAT_VERSION && b[6] in {1, 2, 3} && PageId(b) == expected
  }

  /** What a page must satisfy to be accepted as page `expected`. */
  predicate ValidPage(crc: Crc, b: PageBytes, expected: U64) {
    Identified(b, expected) && Layout(b) && ChecksumMatches(crc, b)
  }

  /** The verdict of `validate`: a foreign version is reported as such, anything else as corruption. */
  function Check(crc: Crc, b: PageBytes, expected: U64): Outcome {
    if b[..4] != MAGIC then Failed("XX001")
    else if U16At(b, 4) != FILE_FORMAT_VERSION then Failed("0A000")
    else if ValidPage(crc, b, expected) then Done
    else Failed("XX001")
  }

  function FromBytes(crc: Crc, bytes: Bytes, expected: U64): Result<PageBytes> {
    if |bytes| != PAGE_SIZE then Err("XX001")
    else match Check(crc, bytes, expected)
      case Done => Ok(bytes)
      case Failed(state) => Err(state)
  }

  function NewHeader(id: U64, pageType: Byte): (h: Bytes)
    ensures |h| == HEADER_SIZE
  {
    MAGIC + U16Le(FILE_FORMAT_VERSION) + [pageType, 0] + U64Le(id) + U64Le(0) + NO_CHECKSUM
    + U16Le(HEADER_SIZE) + U16Le(PAGE_SIZE) + U16Le(0) + [0, 0, 0, 0, 0, 0]
  }

  function NewPage(crc: Crc, id: U64, pageType: Byte): PageBytes {
    Seal(crc, NewHeader(id, pageType) + seq(PAGE_SIZE - HEADER_SIZE, _ => 0))
  }

  predicate CanFit(b: PageBytes, length: nat) {
    length + SLOT_SIZE <= FreeSpace(b) && length < U16_LIMIT
  }

  function WithRecord(b: PageBytes, record: Bytes): PageBytes
    requires BoundsSound(b) && CanFit(b, |record|)
  {
    var lower, upper := Lower(b), Upper(b);
    var start := upper - |record|;
    var b1 := Splice(b, start, record);
    var b2 := Splice(b1, lower, U16Le(start) + U16Le(|record|) + U16Le(0));
    Splice(b2, LOWER_OFFSET, U16Le(lower + SLOT_SIZE) + U16Le(start) + U16Le(SlotCount(b) + 1))
  }

  function Insert(crc: Crc, b: PageBytes, record: Bytes): PageBytes
    requires BoundsSound(b)
  {
    if CanFit(b, |record|) then Seal(crc, WithRecord(b, record)) else b
  }

  function SetLsn(crc: Crc, b: PageBytes, lsn: U64): PageBytes {
    Seal(crc, Splice(b, 16, U64Le(lsn)))
  }

  function Record(b: PageBytes, slot: nat): Result<Bytes>
    requires Layout(b)
  {
    if slot >= SlotCount(b) then Err("XX001")
    else
      assert SlotSound(b, slot);
      Ok(b[SlotOffset(b, slot)..SlotEnd(b, slot)])
  }

  function Records(b: PageBytes): (records: seq<Bytes>)
    requires Layout(b)
    ensures |records| == SlotCount(b)
  {
    seq(SlotCount(b), slot requires 0 <= slot < SlotCount(b) => Record(b, slot).value)
  }

  // ---- reading what was written ----

  lemma SealKeeps(crc: Crc, b: PageBytes, from: nat, to: nat)
    requires from <= to <= PAGE_SIZE && (to <= CHECKSUM_OFFSET || CHECKSUM_OFFSET + 4 <= from)
    ensures Seal(crc, b)[from..to] == b[from..to]
  {
    SpliceOutside(b, CHECKSUM_OFFSET, U32Le(crc(Unsealed(b))), from, to);
  }

  /** A sealed page carries its own checksum, whatever the checksum field held before. */
  lemma SealMatches(crc: Crc, b: PageBytes)
    ensures ChecksumMatches(crc, Seal(crc, b))
  {
    var sum := U32Le(crc(Unsealed(b)));
    SpliceOver(b, CHECKSUM_OFFSET, sum, NO_CHECKSUM);
    SpliceInside(b, CHECKSUM_OFFSET, sum);
  }

  /** The layout depends only on the bytes from the bounds onwards. */
  lemma SealKeepsLayout(crc: Crc, b: PageBytes)
    ensures Layout(Seal(crc, b)) == Layout(b)
    ensures Layout(b) ==> Records(Seal(crc, b)) == Records(b)
    ensures Lower(Seal(crc, b)) == Lower(b) && Upper(Seal(crc, b)) == Upper(b)
            && SlotCount(Seal(crc, b)) == SlotCount(b)
  {
    SameTailSameLayout(b, Seal(crc, b)) by {
      SealKeeps(crc, b, LOWER_OFFSET, PAGE_SIZE);
    }
  }

  lemma SameTail(b: PageBytes, c: PageBytes, from: nat, to: nat)
    requires b[LOWER_OFFSET..] == c[LOWER_OFFSET..] && LOWER_OFFSET <= from <= to <= PAGE_SIZE
    ensures b[from..to] == c[from..to]
  {
    assert b[from..to] == b[LOWER_OFFSET..][from - LOWER_OFFSET..to - LOWER_OFFSET];
    assert c[from..to] == c[LOWER_OFFSET..][from - LOWER_OFFSET..to - LOWER_OFFSET];
  }

  lemma SameTailSameLayout(b: PageBytes, c: PageBytes)
    requires b[LOWER_OFFSET..PAGE_SIZE] == c[LOWER_OFFSET..PAGE_SIZE]
    ensures Lower(b) == Lower(c) && Upper(b) == Upper(c) && SlotCount(b) == SlotCount(c)
    ensures Layout(b) == Layout(c)
    ensures Layout(b) ==> Records(b) == Records(c)
  {
    assert b[LOWER_OFFSET..] == c[LOWER_OFFSET..];
    forall offset: nat | LOWER_OFFSET <= offset <= PAGE_SIZE - 2 ensures U16At(b, offset) == U16At(c, offset) {
      SameTail(b, c, offset, offset + 2);
    }
    if BoundsSound(b) {
      forall slot: nat | slot < SlotCount(b)
        ensures SlotOffset(b, slot) == SlotOffset(c, slot) && SlotLength(b, slot) == SlotLength(c, slot)
        ensures SlotSound(b, slot) == SlotSound(c, slot)
      {
      }
      assert forall i, j | 0 <= i < j < SlotCount(b) :: SlotsApart(b, i, j) == SlotsApart(c, i, j);
      if Layout(b) {
        forall slot: nat | slot < SlotCount(b) ensures Record(b, slot) == Record(c, slot) {
          assert SlotSound(b, slot);
          SameTail(b, c, SlotOffset(b, slot), SlotEnd(b, slot));
        }
        assert Records(b) == Records(c);
      }
    }
  }
}

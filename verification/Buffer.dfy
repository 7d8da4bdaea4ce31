/** The buffer pool over a page file: frames with pins, dirt and access history, eviction by
    LRU-2, write-back behind a durability barrier. */
module Buffer {
  import opened Base
  import opened Page
  import opened PageFile

  const K := 2

  datatype Frame = Frame(page: PageBytes, pinCount: nat, dirty: bool, history: seq<U64>)

  // A page handed to the disk, the LSN the log was durable through at that moment, and
  // whether the write went through whole.
  datatype Written = Written(id: U64, page: PageBytes, durable: nat, whole: bool)

  datatype Pool = Pool(
    disk: Bytes,
    capacity: nat,
    clock: U64,
    frames: map<U64, Frame>,
    durable: nat,
    writes: seq<Written>)

  // The durability barrier: asked for an LSN it refuses, or answers an LSN the log is now
  // durable through, which is at least the one it was asked for.
  type Barrier = ask: U64 -> Result<nat> | forall lsn: U64 :: ask(lsn).Ok? ==> lsn <= ask(lsn).value
    witness (lsn: U64) => Ok(lsn)

  // What the barrier and the disk answer to one write-back; a failed write may leave `torn`.
  datatype Device = Device(barrier: Barrier, write: WriteAnswer)
  datatype WriteAnswer = WriteOk | WriteFails(torn: Bytes)

  function Max(a: nat, b: nat): nat { if a < b then b else a }

  function Tick(clock: U64): U64 {
    if clock + 1 < U64_LIMIT then clock + 1 else clock
  }

  // What the pool asks of a page: its identity and LSN, whether it is acceptable as a given
  // page, and the page with one more record, if it fits.
  datatype PageOps = PageOps(
    idOf: PageBytes -> U64,
    lsnOf: PageBytes -> U64,
    check: (PageBytes, U64) -> Outcome,
    insert: (PageBytes, Bytes) -> Option<PageBytes>)

  predicate Sound(ops: PageOps, page: PageBytes, id: U64) {
    ops.check(page, id).Done?
  }

  ghost predicate Lawful(ops: PageOps) {
    && (forall page, id | Sound(ops, page, id) :: ops.idOf(page) == id)
    && (forall page, id, record | Sound(ops, page, id) && ops.insert(page, record).Some? ::
          Sound(ops, ops.insert(page, record).value, id))
  }

  // ---- the disk manager ----

  function DiskRead(ops: PageOps, disk: Bytes, id: U64): Result<PageBytes> {
    if HasPartialTail(disk) || CompletePages(disk) <= id then Err("XX001")
    else match ops.check(PageAt(disk, id), id)
      case Done => Ok(PageAt(disk, id))
      case Failed(state) => Err(state)
  }

  predicate Writable(disk: Bytes, id: U64) {
    !HasPartialTail(disk) && id <= CompletePages(disk)
  }

  /** Flushing the log through the page's LSN, then writing the page. */
  function WriteBack(ops: PageOps, pool: Pool, page: PageBytes, device: Device): (Pool, Outcome) {
    match device.barrier(ops.lsnOf(page))
    case Err(state) => (pool, Failed(state))
    case Ok(through) =>
      var durable := Max(pool.durable, through);
      var id := ops.idOf(page);
      match ops.check(page, id)
      case Failed(state) => (pool.(durable := durable), Failed(state))
      case Done =>
        if !Writable(pool.disk, id) then (pool.(durable := durable), Failed("XX001"))
        else
          (pool.(durable := durable,
                 disk := WriteAt(pool.disk, id * PAGE_SIZE, BytesWritten(page, device.write)),
                 writes := pool.writes + [Written(id, page, durable, device.write.WriteOk?)]),
           if device.write.WriteOk? then Done else Failed("58030"))
  }

  function BytesWritten(page: PageBytes, answer: WriteAnswer): (written: Bytes)
    ensures |written| <= PAGE_SIZE
  {
    match answer
    case WriteOk => page
    case WriteFails(torn) => if |torn| <= PAGE_SIZE then torn else torn[..PAGE_SIZE]
  }

  // ---- replacement ----

  /** The key a frame is evicted by: frames seen fewer than K times first, by first access;
      then by the K-th most recent access. */
  function VictimKey(history: seq<U64>): (nat, U64) {
    if |history| < K then (0, if history == [] then 0 else history[0])
    else (1, history[|history| - K])
  }

  predicate EvictsBefore(a: seq<U64>, aId: U64, b: seq<U64>, bId: U64) {
    var x, y := VictimKey(a), VictimKey(b);
    x.0 < y.0 || (x.0 == y.0 && (x.1 < y.1 || (x.1 == y.1 && aId <= bId)))
  }

  predicate IsVictim(frames: map<U64, Frame>, id: U64) {
    && id in frames && frames[id].pinCount == 0
    && forall other | other in frames && frames[other].pinCount == 0 ::
         EvictsBefore(frames[id].history, id, frames[other].history, other)
  }

  predicate AllPinned(frames: map<U64, Frame>) {
    forall id | id in frames :: frames[id].pinCount != 0
  }

  function RecordAccess(history: seq<U64>, access: U64): seq<U64> {
    var longer := history + [access];
    if |longer| <= K then longer else longer[|longer| - K..]
  }

  // ---- the operations of the pool ----

  function FlushPage(ops: PageOps, pool: Pool, id: U64, device: Device): (Pool, Outcome) {
    if id !in pool.frames then (pool, Failed("XX001"))
    else if !pool.frames[id].dirty then (pool, Done)
    else
      var (after, outcome) := WriteBack(ops, pool, pool.frames[id].page, device);
      if outcome.Failed? then (after, outcome)
      else (after.(frames := after.frames[id := after.frames[id].(dirty := false)]), Done)
  }

  /** Making room for one frame.  `victim` is the frame the replacement rule selects; a failed
      write-back puts it back. */
  function EnsureCapacity(ops: PageOps, pool: Pool, victim: U64, device: Device): (Pool, Outcome)
    requires !AllPinned(pool.frames) ==> victim in pool.frames
  {
    if |pool.frames| < pool.capacity then (pool, Done)
    else if AllPinned(pool.frames) then (pool, Failed("53000"))
    else if !pool.frames[victim].dirty then (pool.(frames := pool.frames - {victim}), Done)
    else
      var (after, outcome) := WriteBack(ops, pool, pool.frames[victim].page, device);
      if outcome.Failed? then (after, outcome)
      else (after.(frames := after.frames - {victim}), Done)
  }

  function Fetch(ops: PageOps, pool: Pool, id: U64, victim: U64, device: Device): (Pool, Outcome)
    requires !AllPinned(pool.frames) ==> victim in pool.frames
  {
    var ticked := pool.(clock := Tick(pool.clock));
    if id in pool.frames then
      var frame := pool.frames[id];
      (ticked.(frames := pool.frames[id := frame.(pinCount := frame.pinCount + 1,
                                                  history := RecordAccess(frame.history, ticked.clock))]), Done)
    else
      var (roomy, outcome) := EnsureCapacity(ops, ticked, victim, device);
      if outcome.Failed? then (roomy, outcome)
      else match DiskRead(ops, roomy.disk, id)
        case Err(state) => (roomy, Failed(state))
        case Ok(page) => (roomy.(frames := roomy.frames[id := Frame(page, 1, false, [ticked.clock])]), Done)
  }

  function Install(ops: PageOps, pool: Pool, page: PageBytes, dirty: bool, victim: U64, device: Device): (Pool, Outcome)
    requires !AllPinned(pool.frames) ==> victim in pool.frames
  {
    var id := ops.idOf(page);
    match ops.check(page, id)
    case Failed(state) => (pool, Failed(state))
    case Done =>
      if id in pool.frames then (pool, Failed("55000"))
      else
        var (roomy, outcome) := EnsureCapacity(ops, pool, victim, device);
        if outcome.Failed? then (roomy, outcome)
        else
          var clock := Tick(roomy.clock);
          (roomy.(clock := clock, frames := roomy.frames[id := Frame(page, 0, dirty, [clock])]), Done)
  }

  function Replace(ops: PageOps, pool: Pool, id: U64, page: PageBytes): (Pool, Outcome) {
    if ops.idOf(page) != id then (pool, Failed("22023"))
    else match ops.check(page, id)
      case Failed(state) => (pool, Failed(state))
      case Done =>
        if id !in pool.frames then (pool, Failed("XX000"))
        else (pool.(frames := pool.frames[id := pool.frames[id].(page := page, dirty := true)]), Done)
  }

  predicate FramesSound(ops: PageOps, pool: Pool) {
    forall id | id in pool.frames :: Sound(ops, pool.frames[id].page, id)
  }

  function InsertRecord(ops: PageOps, pool: Pool, id: U64, record: Bytes): (Pool, Outcome) {
    if id !in pool.frames then (pool, Failed("XX000"))
    else match ops.insert(pool.frames[id].page, record)
      case None => (pool, Done)
      case Some(page) => (pool.(frames := pool.frames[id := pool.frames[id].(page := page, dirty := true)]), Done)
  }

  function MarkDirty(pool: Pool, id: U64): (Pool, Outcome) {
    if id !in pool.frames then (pool, Failed("XX000"))
    else (pool.(frames := pool.frames[id := pool.frames[id].(dirty := true)]), Done)
  }

  /** Dropping a guard. */
  function Unpin(pool: Pool, id: U64): Pool {
    if id !in pool.frames then pool
    else
      var frame := pool.frames[id];
      pool.(frames := pool.frames[id := frame.(pinCount := if frame.pinCount == 0 then 0 else frame.pinCount - 1)])
  }

  /** Flushing `ids` in ascending order, stopping at the first failure. */
  function FlushAscending(ops: PageOps, pool: Pool, ids: set<U64>, devices: U64 -> Device): (Pool, Outcome)
    decreases |ids|
  {
    if ids == {} then (pool, Done)
    else
      var id: U64 := Least(ids);
      var (after, outcome) := FlushPage(ops, pool, id, devices(id));
      if outcome.Failed? then (after, outcome) else FlushAscending(ops, after, ids - {id}, devices)
  }

  function FlushAll(ops: PageOps, pool: Pool, devices: U64 -> Device): (Pool, Outcome) {
    FlushAscending(ops, pool, pool.frames.Keys, devices)
  }

  // ---- what a client of the pool sees ----

  /** The page a client reads as `id`: the resident frame, else the bytes on disk. */
  function View(pool: Pool, id: U64): Option<PageBytes> {
    if id in pool.frames then Some(pool.frames[id].page)
    else if id < CompletePages(pool.disk) then Some(PageAt(pool.disk, id))
    else None
  }

  predicate OnDisk(pool: Pool, id: U64)
    requires id in pool.frames
  {
    id < CompletePages(pool.disk) && PageAt(pool.disk, id) == pool.frames[id].page
  }

  /** The disk holds `page` where it belongs. */
  predicate HoldsPage(ops: PageOps, disk: Bytes, page: PageBytes) {
    ops.idOf(page) < CompletePages(disk) && PageAt(disk, ops.idOf(page)) == page
  }

  /** Going from `a` to `b` drops the frame of `id` unwritten, though the disk does not hold it. */
  predicate Forgets(a: Pool, b: Pool, id: U64) {
    id in a.frames && id !in b.frames && !a.frames[id].dirty && !OnDisk(a, id)
  }

  ghost predicate SameViewUnlessForgotten(a: Pool, b: Pool) {
    forall id :: View(a, id) == View(b, id) <==> !Forgets(a, b, id)
  }

  ghost predicate SameView(a: Pool, b: Pool) {
    forall id :: View(a, id) == View(b, id)
  }

  /** A clean frame holds what the disk holds, unless it is one of the `loose` ones. */
  ghost predicate CleanMatchesDisk(pool: Pool, loose: set<U64>) {
    forall id | id in pool.frames && !pool.frames[id].dirty && id !in loose :: OnDisk(pool, id)
  }

  ghost predicate PoolInv(ops: PageOps, pool: Pool, loose: set<U64>) {
    && FramesSound(ops, pool) && CleanMatchesDisk(pool, loose)
    && 0 < pool.capacity && |pool.frames| <= pool.capacity
  }

  // ---- what the disk went through ----

  /** The latest write of page `id`. */
  function LastWrite(writes: seq<Written>, id: nat): Option<Written> {
    if writes == [] then None
    else if writes[|writes| - 1].id == id then Some(writes[|writes| - 1])
    else LastWrite(writes[..|writes| - 1], id)
  }

  /** Byte for byte, every difference between the two files is due to a listed write: a page
      without a write has the bytes it had, and a page last written whole holds that page. */
  ghost predicate WritesExplain(before: Bytes, writes: seq<Written>, after: Bytes) {
    forall id: nat :: match LastWrite(writes, id)
      case None => Extent(after, id) == Extent(before, id)
      case Some(w) => w.whole ==> Extent(after, id) == w.page
  }

  /** Every listed page was written when the log was already durable through its LSN. */
  ghost predicate LoggedFirst(ops: PageOps, writes: seq<Written>, durable: nat) {
    forall w | w in writes :: ops.idOf(w.page) == w.id && ops.lsnOf(w.page) <= w.durable <= durable
  }
}

/** Step by step, the buffer pool behaves as a plain map from page ids to pages, up to clean
    frames the disk does not hold, and hands nothing to the disk ahead of the log. */
module BufferRuns {
  import opened Base
  import opened Page
  import opened PageFile
  import opened Buffer

  // ---- one write-back ----

  /** Writing back a dirty resident frame never changes what a client sees, whether the
      barrier refuses, the disk refuses, or the write is torn. */
  lemma WriteBackKeepsView(ops: PageOps, pool: Pool, id: U64, device: Device, loose: set<U64>)
    requires Lawful(ops) && PoolInv(ops, pool, loose) && id in pool.frames && pool.frames[id].dirty
    ensures var (after, outcome) := WriteBack(ops, pool, pool.frames[id].page, device);
            && after.frames == pool.frames && after.capacity == pool.capacity && after.clock == pool.clock
            && PoolInv(ops, after, loose) && SameView(pool, after)
            && (forall other | other in pool.frames && other != id :: OnDisk(pool, other) <==> OnDisk(after, other))
            && (outcome.Done? ==> OnDisk(after, id))
  {
    var page := pool.frames[id].page;
    var (after, outcome) := WriteBack(ops, pool, page, device);
    assert Sound(ops, page, id);
    if after.disk != pool.disk || outcome.Done? {
      var written := BytesWritten(page, device.write);
      WritePage(pool.disk, id, written);
      assert after.disk == WriteAt(pool.disk, id * PAGE_SIZE, written);
    }
  }

  lemma SameKeysSameSize(a: map<U64, Frame>, b: map<U64, Frame>)
    requires a.Keys == b.Keys
    ensures |a| == |b|
  {
    assert |a| == |a.Keys| && |b| == |b.Keys|;
  }

  lemma CleaningKeepsView(ops: PageOps, pool: Pool, id: U64, loose: set<U64>)
    requires Lawful(ops) && PoolInv(ops, pool, loose) && id in pool.frames && OnDisk(pool, id)
    ensures var cleaned := pool.(frames := pool.frames[id := pool.frames[id].(dirty := false)]);
            PoolInv(ops, cleaned, loose) && SameView(pool, cleaned)
  {
    var cleaned := pool.(frames := pool.frames[id := pool.frames[id].(dirty := false)]);
    assert cleaned.frames.Keys == pool.frames.Keys;
    SameKeysSameSize(cleaned.frames, pool.frames);
  }

  /** Dropping a frame shows a client the page on disk in its place. */
  lemma DroppingFrame(ops: PageOps, pool: Pool, id: U64, loose: set<U64>)
    requires Lawful(ops) && PoolInv(ops, pool, loose) && id in pool.frames
    ensures var dropped := pool.(frames := pool.frames - {id});
            && PoolInv(ops, dropped, loose) && |dropped.frames| < pool.capacity
            && (forall other | other != id :: View(dropped, other) == View(pool, other))
            && (View(dropped, id) == View(pool, id) <==> OnDisk(pool, id))
  {
    var dropped := pool.(frames := pool.frames - {id});
    assert dropped.frames.Keys == pool.frames.Keys - {id};
    assert |pool.frames| == |pool.frames.Keys| && |dropped.frames| == |dropped.frames.Keys|;
  }

  lemma AddingFrame(ops: PageOps, pool: Pool, id: U64, frame: Frame, loose: set<U64>)
    requires Lawful(ops) && PoolInv(ops, pool, loose) && id !in pool.frames && |pool.frames| < pool.capacity
    requires Sound(ops, frame.page, id)
    requires !frame.dirty && id !in loose ==> id < CompletePages(pool.disk) && PageAt(pool.disk, id) == frame.page
    ensures PoolInv(ops, pool.(frames := pool.frames[id := frame]), loose)
    ensures forall other | other != id :: View(pool.(frames := pool.frames[id := frame]), other) == View(pool, other)
  {
    var added := pool.(frames := pool.frames[id := frame]);
    assert added.frames.Keys == pool.frames.Keys + {id};
    assert |pool.frames| == |pool.frames.Keys| && |added.frames| == |added.frames.Keys|;
  }

  lemma ChangingFrame(ops: PageOps, pool: Pool, id: U64, frame: Frame, loose: set<U64>)
    requires Lawful(ops) && PoolInv(ops, pool, loose) && id in pool.frames && Sound(ops, frame.page, id)
    requires !frame.dirty ==> !pool.frames[id].dirty && frame.page == pool.frames[id].page
    ensures PoolInv(ops, pool.(frames := pool.frames[id := frame]), loose)
    ensures forall other | other != id :: View(pool.(frames := pool.frames[id := frame]), other) == View(pool, other)
  {
    var changed := pool.(frames := pool.frames[id := frame]);
    assert changed.frames.Keys == pool.frames.Keys;
    SameKeysSameSize(changed.frames, pool.frames);
  }

  // ---- operation by operation ----

  lemma FlushPageKeepsView(ops: PageOps, pool: Pool, id: U64, device: Device, loose: set<U64>)
    requires Lawful(ops) && PoolInv(ops, pool, loose)
    ensures var (after, outcome) := FlushPage(ops, pool, id, device);
            && PoolInv(ops, after, loose) && SameView(pool, after) && after.frames.Keys == pool.frames.Keys
            && (forall other | other in pool.frames ::
                  after.frames[other] == pool.frames[other].(dirty := after.frames[other].dirty))
            && (forall other | other in pool.frames && other != id :: after.frames[other] == pool.frames[other])
            && (outcome.Done? ==> id in pool.frames && !after.frames[id].dirty)
  {
    if id in pool.frames && pool.frames[id].dirty {
      WriteBackKeepsView(ops, pool, id, device, loose);
      var (written, outcome) := WriteBack(ops, pool, pool.frames[id].page, device);
      if outcome.Done? {
        CleaningKeepsView(ops, written, id, loose);
      }
    }
  }

  lemma FlushPageReachesDisk(ops: PageOps, pool: Pool, id: U64, device: Device, other: U64, loose: set<U64>)
    requires Lawful(ops) && PoolInv(ops, pool, loose) && other in pool.frames
    ensures var (after, outcome) := FlushPage(ops, pool, id, device);
            && other in after.frames
            && (outcome.Done? ==>
                  (OnDisk(after, other) <==> (other == id && pool.frames[id].dirty) || OnDisk(pool, other)))
            && (!pool.frames[other].dirty ==> after.frames[other] == pool.frames[other])
  {
    if id in pool.frames && pool.frames[id].dirty {
      WriteBackKeepsView(ops, pool, id, device, loose);
    }
  }

  lemma EvictingDirty(ops: PageOps, pool: Pool, victim: U64, device: Device, loose: set<U64>)
    requires Lawful(ops) && PoolInv(ops, pool, loose) && victim in pool.frames && pool.frames[victim].dirty
    ensures var (written, outcome) := WriteBack(ops, pool, pool.frames[victim].page, device);
            && written.frames == pool.frames && written.capacity == pool.capacity && written.clock == pool.clock
            && PoolInv(ops, written, loose) && SameView(pool, written)
            && var dropped := written.(frames := written.frames - {victim});
               outcome.Done? ==>
                 PoolInv(ops, dropped, loose) && SameView(pool, dropped) && |dropped.frames| < dropped.capacity
  {
    WriteBackKeepsView(ops, pool, victim, device, loose);
    var (written, outcome) := WriteBack(ops, pool, pool.frames[victim].page, device);
    if outcome.Done? {
      DroppingFrame(ops, written, victim, loose);
    }
  }

  lemma EnsureCapacityKeepsView(ops: PageOps, pool: Pool, victim: U64, device: Device, loose: set<U64>)
    requires Lawful(ops) && PoolInv(ops, pool, loose) && (!AllPinned(pool.frames) ==> IsVictim(pool.frames, victim))
    ensures var (after, outcome) := EnsureCapacity(ops, pool, victim, device);
            && PoolInv(ops, after, loose) && SameViewUnlessForgotten(pool, after)
            && after.clock == pool.clock && after.capacity == pool.capacity
            && (after.frames == pool.frames
                || (IsVictim(pool.frames, victim) && after.frames == pool.frames - {victim}))
            && (outcome.Done? ==> |after.frames| < after.capacity)
            && (outcome.Failed? ==> after.frames == pool.frames)
  {
    if |pool.frames| >= pool.capacity && !AllPinned(pool.frames) {
      if pool.frames[victim].dirty {
        EvictingDirty(ops, pool, victim, device, loose);
      } else {
        DroppingFrame(ops, pool, victim, loose);
      }
    }
  }

  lemma TickKeepsInv(ops: PageOps, pool: Pool, clock: U64, loose: set<U64>)
    requires Lawful(ops) && PoolInv(ops, pool, loose)
    ensures PoolInv(ops, pool.(clock := clock), loose) && SameView(pool, pool.(clock := clock))
  {
  }

  lemma FetchResidentKeepsView(ops: PageOps, pool: Pool, id: U64, victim: U64, device: Device, loose: set<U64>)
    requires Lawful(ops) && PoolInv(ops, pool, loose) && id in pool.frames
    requires !AllPinned(pool.frames) ==> IsVictim(pool.frames, victim)
    ensures PoolInv(ops, Fetch(ops, pool, id, victim, device).0, loose)
    ensures SameView(pool, Fetch(ops, pool, id, victim, device).0)
  {
    var ticked, frame := pool.(clock := Tick(pool.clock)), pool.frames[id];
    TickKeepsInv(ops, pool, ticked.clock, loose);
    ChangingFrame(ops, ticked, id, frame.(pinCount := frame.pinCount + 1,
                                          history := RecordAccess(frame.history, ticked.clock)), loose);
  }

  lemma FetchMissingKeepsView(ops: PageOps, pool: Pool, id: U64, victim: U64, device: Device, loose: set<U64>)
    requires Lawful(ops) && PoolInv(ops, pool, loose) && (!AllPinned(pool.frames) ==> IsVictim(pool.frames, victim))
    requires id !in pool.frames
    ensures PoolInv(ops, Fetch(ops, pool, id, victim, device).0, loose)
    ensures SameViewUnlessForgotten(pool, Fetch(ops, pool, id, victim, device).0)
  {
    var ticked := pool.(clock := Tick(pool.clock));
    TickKeepsInv(ops, pool, ticked.clock, loose);
    EnsureCapacityKeepsView(ops, ticked, victim, device, loose);
    var (roomy, outcome) := EnsureCapacity(ops, ticked, victim, device);
    if outcome.Done? && DiskRead(ops, roomy.disk, id).Ok? {
      AddingFrame(ops, roomy, id, Frame(DiskRead(ops, roomy.disk, id).value, 1, false, [ticked.clock]), loose);
    }
  }

  lemma FetchKeepsView(ops: PageOps, pool: Pool, id: U64, victim: U64, device: Device, loose: set<U64>)
    requires Lawful(ops) && PoolInv(ops, pool, loose) && (!AllPinned(pool.frames) ==> IsVictim(pool.frames, victim))
    ensures PoolInv(ops, Fetch(ops, pool, id, victim, device).0, loose)
    ensures SameViewUnlessForgotten(pool, Fetch(ops, pool, id, victim, device).0)
  {
    if id in pool.frames {
      FetchResidentKeepsView(ops, pool, id, victim, device, loose);
    } else {
      FetchMissingKeepsView(ops, pool, id, victim, device, loose);
    }
  }

  lemma InstallChangesOnePage(ops: PageOps, pool: Pool, page: PageBytes, dirty: bool, victim: U64, device: Device,
                              loose: set<U64>)
    requires Lawful(ops) && PoolInv(ops, pool, loose) && (!AllPinned(pool.frames) ==> IsVictim(pool.frames, victim))
    requires || dirty || ops.idOf(page) in loose || HoldsPage(ops, pool.disk, page)
             || Install(ops, pool, page, dirty, victim, device).1.Failed?
    ensures var (after, outcome) := Install(ops, pool, page, dirty, victim, device);
            && PoolInv(ops, after, loose)
            && (forall id | outcome.Failed? || id != ops.idOf(page) ::
                  View(after, id) == View(pool, id) <==> !Forgets(pool, after, id))
            && (outcome.Done? ==> ops.idOf(page) !in pool.frames && View(after, ops.idOf(page)) == Some(page))
  {
    var id := ops.idOf(page);
    if ops.check(page, id).Done? && id !in pool.frames {
      EnsureCapacityKeepsView(ops, pool, victim, device, loose);
      var (roomy, outcome) := EnsureCapacity(ops, pool, victim, device);
      if outcome.Done? {
        TickKeepsInv(ops, roomy, Tick(roomy.clock), loose);
        assert View(roomy, id) == View(pool, id);
        AddingFrame(ops, roomy.(clock := Tick(roomy.clock)), id, Frame(page, 0, dirty, [Tick(roomy.clock)]), loose);
      }
    }
  }

  lemma ReplaceChangesOnePage(ops: PageOps, pool: Pool, id: U64, page: PageBytes, loose: set<U64>)
    requires Lawful(ops) && PoolInv(ops, pool, loose)
    ensures var (after, outcome) := Replace(ops, pool, id, page);
            && PoolInv(ops, after, loose)
            && (forall other | outcome.Failed? || other != id :: View(after, other) == View(pool, other))
            && (outcome.Done? ==> View(after, id) == Some(page))
  {
    if Replace(ops, pool, id, page).1.Done? {
      ChangingFrame(ops, pool, id, pool.frames[id].(page := page, dirty := true), loose);
    }
  }

  lemma InsertRecordChangesOnePage(ops: PageOps, pool: Pool, id: U64, record: Bytes, loose: set<U64>)
    requires Lawful(ops) && PoolInv(ops, pool, loose)
    ensures var (after, outcome) := InsertRecord(ops, pool, id, record);
            && PoolInv(ops, after, loose)
            && (forall other | outcome.Failed? || other != id :: View(after, other) == View(pool, other))
            && (outcome.Done? ==>
                  && id in pool.frames
                  && View(after, id) == Some(ops.insert(pool.frames[id].page, record).GetOr(pool.frames[id].page)))
  {
    if id in pool.frames && ops.insert(pool.frames[id].page, record).Some? {
      var grown := ops.insert(pool.frames[id].page, record).value;
      ChangingFrame(ops, pool, id, pool.frames[id].(page := grown, dirty := true), loose);
    }
  }

  lemma {:induction false} FlushAscendingKeepsView(ops: PageOps, pool: Pool, ids: set<U64>, devices: U64 -> Device,
                                                   loose: set<U64>)
    requires Lawful(ops) && PoolInv(ops, pool, loose)
    ensures var after := FlushAscending(ops, pool, ids, devices).0;
            && PoolInv(ops, after, loose) && SameView(pool, after) && after.frames.Keys == pool.frames.Keys
            && (forall id | id in pool.frames :: after.frames[id] == pool.frames[id].(dirty := after.frames[id].dirty))
    decreases |ids|
  {
    if ids != {} {
      var id := Least(ids);
      FlushPageKeepsView(ops, pool, id, devices(id), loose);
      FlushAscendingKeepsView(ops, FlushPage(ops, pool, id, devices(id)).0, ids - {id}, devices, loose);
    }
  }

  // ---- flushing everything to a healthy device ----

  predicate Healthy(ops: PageOps, pool: Pool, devices: U64 -> Device, ids: set<U64>)
    requires ids <= pool.frames.Keys
  {
    forall id | id in ids :: devices(id).barrier(ops.lsnOf(pool.frames[id].page)).Ok? && devices(id).write.WriteOk?
  }

  /** Dirty pages beyond the end of the file leave no gap below them. */
  ghost predicate NoGap(pool: Pool, ids: set<U64>)
    requires ids <= pool.frames.Keys
  {
    forall id, below | id in ids && pool.frames[id].dirty && CompletePages(pool.disk) <= below < id ::
      below in ids && pool.frames[below].dirty
  }

  lemma FlushDirtyPage(ops: PageOps, pool: Pool, id: U64, device: Device)
    requires Lawful(ops) && FramesSound(ops, pool) && !HasPartialTail(pool.disk)
    requires id in pool.frames && pool.frames[id].dirty
    requires device.barrier(ops.lsnOf(pool.frames[id].page)).Ok? && device.write.WriteOk?
    ensures var (after, outcome) := FlushPage(ops, pool, id, device);
            && (outcome.Done? <==> id <= CompletePages(pool.disk))
            && (outcome.Done? ==>
                  (!HasPartialTail(after.disk) && CompletePages(after.disk) == Max(CompletePages(pool.disk), id + 1)))
  {
    assert Sound(ops, pool.frames[id].page, id);
    if id <= CompletePages(pool.disk) {
      WritePage(pool.disk, id, pool.frames[id].page);
    }
  }

  lemma GapUnchangedBySkippingLeast(pool: Pool, after: Pool, ids: set<U64>, id: U64)
    requires ids <= pool.frames.Keys && IsLeast(ids, id)
    requires after.frames.Keys == pool.frames.Keys
    requires forall other | other in pool.frames && other != id :: after.frames[other] == pool.frames[other]
    requires CompletePages(after.disk)
             == if pool.frames[id].dirty then Max(CompletePages(pool.disk), id + 1) else CompletePages(pool.disk)
    requires pool.frames[id].dirty ==> id <= CompletePages(pool.disk)
    ensures NoGap(after, ids - {id}) <==> NoGap(pool, ids)
  {
    if NoGap(pool, ids) {
      forall x, below | x in ids - {id} && after.frames[x].dirty && CompletePages(after.disk) <= below < x
        ensures below in ids - {id} && after.frames[below].dirty
      {
        assert pool.frames[x].dirty;
        assert below in ids && pool.frames[below].dirty;
      }
    }
    if NoGap(after, ids - {id}) {
      forall x, below | x in ids && pool.frames[x].dirty && CompletePages(pool.disk) <= below < x
        ensures below in ids && pool.frames[below].dirty
      {
        if CompletePages(after.disk) <= below {
          assert after.frames[x].dirty;
          assert below in ids - {id} && after.frames[below].dirty;
        }
      }
    }
  }

  /** The first page of an ascending flush fails only over a gap, and otherwise leaves the
      question of a gap to the rest. */
  lemma FlushLeastMeetsGap(ops: PageOps, pool: Pool, ids: set<U64>, devices: U64 -> Device, id: U64, loose: set<U64>)
    requires Lawful(ops) && PoolInv(ops, pool, loose) && !HasPartialTail(pool.disk)
    requires ids <= pool.frames.Keys && Healthy(ops, pool, devices, ids) && IsLeast(ids, id)
    ensures var (after, outcome) := FlushPage(ops, pool, id, devices(id));
            && PoolInv(ops, after, loose) && ids <= after.frames.Keys
            && (outcome.Failed? ==> !NoGap(pool, ids))
            && (outcome.Done? ==>
                  && !HasPartialTail(after.disk) && Healthy(ops, after, devices, ids - {id})
                  && (NoGap(after, ids - {id}) <==> NoGap(pool, ids)))
  {
    var (after, outcome) := FlushPage(ops, pool, id, devices(id));
    FlushPageKeepsView(ops, pool, id, devices(id), loose);
    if pool.frames[id].dirty {
      FlushDirtyPage(ops, pool, id, devices(id));
    }
    if outcome.Failed? {
      assert CompletePages(pool.disk) < id && CompletePages(pool.disk) !in ids;
    } else {
      GapUnchangedBySkippingLeast(pool, after, ids, id);
    }
  }

  /** On a healthy device, flushing in ascending order meets the sparse-write check exactly
      when the dirty pages beyond the end of the file leave a gap. */
  lemma {:induction false} FlushAscendingSucceedsIffNoGap(ops: PageOps, pool: Pool, ids: set<U64>,
                                                          devices: U64 -> Device, loose: set<U64>)
    requires Lawful(ops) && PoolInv(ops, pool, loose) && !HasPartialTail(pool.disk)
    requires ids <= pool.frames.Keys && Healthy(ops, pool, devices, ids)
    ensures var (after, outcome) := FlushAscending(ops, pool, ids, devices);
            && (outcome.Done? <==> NoGap(pool, ids))
    decreases |ids|
  {
    if ids != {} {
      var id := Least(ids);
      FlushLeastMeetsGap(ops, pool, ids, devices, id, loose);
      var (after, outcome) := FlushPage(ops, pool, id, devices(id));
      if outcome.Done? {
        FlushAscendingSucceedsIffNoGap(ops, after, ids - {id}, devices, loose);
      }
    }
  }

  /** When a flush succeeds, every flushed frame is clean, and a page is on disk exactly if it
      was flushed dirty or was there before. */
  lemma {:induction false} FlushAscendingReachesDisk(ops: PageOps, pool: Pool, ids: set<U64>, devices: U64 -> Device,
                                                     id: U64, loose: set<U64>)
    requires Lawful(ops) && PoolInv(ops, pool, loose) && id in pool.frames
             && FlushAscending(ops, pool, ids, devices).1.Done?
    ensures var after := FlushAscending(ops, pool, ids, devices).0;
            && id in after.frames && (id in ids ==> !after.frames[id].dirty)
            && (OnDisk(after, id) <==> (id in ids && pool.frames[id].dirty) || OnDisk(pool, id))
            && (!pool.frames[id].dirty ==> after.frames[id] == pool.frames[id])
    decreases |ids|
  {
    if ids != {} {
      var least: U64 := Least(ids);
      FlushPageKeepsView(ops, pool, least, devices(least), loose);
      FlushPageReachesDisk(ops, pool, least, devices(least), id, loose);
      FlushAscendingReachesDisk(ops, FlushPage(ops, pool, least, devices(least)).0, ids - {least}, devices, id, loose);
    }
  }

  /** `flush_all` against a healthy device and an intact file succeeds exactly when the dirty
      new pages are contiguous with the end of the file.  Then nothing is left dirty, and a
      page is on disk exactly if it was dirty or was on disk before: a page that was installed
      as clean without being there still is not. */
  lemma FlushAllSucceedsIffContiguous(ops: PageOps, pool: Pool, devices: U64 -> Device, loose: set<U64>)
    requires Lawful(ops) && PoolInv(ops, pool, loose) && !HasPartialTail(pool.disk)
    requires Healthy(ops, pool, devices, pool.frames.Keys)
    ensures var (after, outcome) := FlushAll(ops, pool, devices);
            && (outcome.Done? <==> NoGap(pool, pool.frames.Keys))
            && (outcome.Done? ==> forall id | id in pool.frames ::
                  && id in after.frames && after.frames[id] == pool.frames[id].(dirty := false)
                  && (OnDisk(after, id) <==> pool.frames[id].dirty || OnDisk(pool, id))
                  && (id !in loose ==> OnDisk(after, id)))
  {
    FlushAscendingSucceedsIffNoGap(ops, pool, pool.frames.Keys, devices, loose);
    FlushAscendingKeepsView(ops, pool, pool.frames.Keys, devices, loose);
    if FlushAll(ops, pool, devices).1.Done? {
      forall id | id in pool.frames
        ensures var after := FlushAll(ops, pool, devices).0;
                && id in after.frames && !after.frames[id].dirty
                && (OnDisk(after, id) <==> pool.frames[id].dirty || OnDisk(pool, id))
      {
        FlushAscendingReachesDisk(ops, pool, pool.frames.Keys, devices, id, loose);
      }
    }
  }

  // ---- whole runs ----

  datatype Step =
    | FetchStep(id: U64, victim: U64, device: Device)
    | UnpinStep(id: U64)
    | InstallStep(page: PageBytes, dirty: bool, victim: U64, device: Device)
    | ReplaceStep(id: U64, page: PageBytes)
    | InsertStep(id: U64, record: Bytes)
    | MarkDirtyStep(id: U64)
    | FlushStep(id: U64, device: Device)
    | FlushAllStep(devices: U64 -> Device)

  /** The pool, the live guards per page, every access to each resident page since it became
      resident, and the resident pages installed as clean and never dirtied since.  All but
      the pool are history. */
  datatype World = World(pool: Pool, guards: map<U64, nat>, traces: map<U64, seq<U64>>, loose: set<U64>)

  function Guards(w: World, id: U64): nat {
    if id in w.guards then w.guards[id] else 0
  }

  /** Guard methods need a live guard, and the victim is the one the replacement rule selects. */
  ghost predicate Enabled(w: World, step: Step) {
    match step
    case FetchStep(_, victim, _) => !AllPinned(w.pool.frames) ==> IsVictim(w.pool.frames, victim)
    case InstallStep(_, _, victim, _) => !AllPinned(w.pool.frames) ==> IsVictim(w.pool.frames, victim)
    case UnpinStep(id) => 0 < Guards(w, id)
    case ReplaceStep(id, _) => 0 < Guards(w, id)
    case InsertStep(id, _) => 0 < Guards(w, id)
    case MarkDirtyStep(id) => 0 < Guards(w, id)
    case FlushStep(_, _) => true
    case FlushAllStep(_) => true
  }

  /** What a caller can check before it installs a page as clean: the disk holds the page. */
  ghost predicate CleanInstallAgrees(ops: PageOps, pool: Pool, step: Step) {
    step.InstallStep? ==> step.dirty || HoldsPage(ops, pool.disk, step.page)
  }

  ghost function Execute(ops: PageOps, w: World, step: Step): (Pool, Outcome)
    requires Enabled(w, step)
  {
    match step
    case FetchStep(id, victim, device) => Fetch(ops, w.pool, id, victim, device)
    case UnpinStep(id) => (Unpin(w.pool, id), Done)
    case InstallStep(page, dirty, victim, device) => Install(ops, w.pool, page, dirty, victim, device)
    case ReplaceStep(id, page) => Replace(ops, w.pool, id, page)
    case InsertStep(id, record) => InsertRecord(ops, w.pool, id, record)
    case MarkDirtyStep(id) => MarkDirty(w.pool, id)
    case FlushStep(id, device) => FlushPage(ops, w.pool, id, device)
    case FlushAllStep(devices) => FlushAll(ops, w.pool, devices)
  }

  /** The access this step makes, if any. */
  ghost predicate Touches(ops: PageOps, step: Step, outcome: Outcome, id: U64) {
    outcome.Done? && match step
      case FetchStep(fetched, _, _) => id == fetched
      case InstallStep(page, _, _, _) => id == ops.idOf(page)
      case _ => false
  }

  ghost function NextTraces(ops: PageOps, w: World, step: Step): map<U64, seq<U64>>
    requires Enabled(w, step)
  {
    var (pool, outcome) := Execute(ops, w, step);
    map id | id in pool.frames ::
      if Touches(ops, step, outcome, id) then
        (if id in w.pool.frames && id in w.traces then w.traces[id] else []) + [pool.clock]
      else if id in w.traces then w.traces[id] else []
  }

  ghost function NextLoose(ops: PageOps, w: World, step: Step): set<U64>
    requires Enabled(w, step)
  {
    var (pool, outcome) := Execute(ops, w, step);
    set id | id in w.loose + InstalledClean(ops, step, outcome) && id in pool.frames && !pool.frames[id].dirty
  }

  ghost function InstalledClean(ops: PageOps, step: Step, outcome: Outcome): set<U64> {
    if step.InstallStep? && !step.dirty && outcome.Done? then {ops.idOf(step.page)} else {}
  }

  ghost function Next(ops: PageOps, w: World, step: Step): World
    requires Enabled(w, step)
  {
    var (pool, outcome) := Execute(ops, w, step);
    World(pool,
          if step.FetchStep? && outcome.Done? then w.guards[step.id := Guards(w, step.id) + 1]
          else if step.UnpinStep? then w.guards[step.id := Guards(w, step.id) - 1]
          else w.guards,
          NextTraces(ops, w, step),
          NextLoose(ops, w, step))
  }

  ghost predicate PinsCountGuards(w: World) {
    && (forall id | id in w.pool.frames :: w.pool.frames[id].pinCount == Guards(w, id))
    && (forall id | 0 < Guards(w, id) :: id in w.pool.frames)
  }

  function LastK(trace: seq<U64>): seq<U64> {
    if |trace| <= K then trace else trace[|trace| - K..]
  }

  ghost predicate HistoriesTrimTraces(w: World) {
    && w.traces.Keys == w.pool.frames.Keys
    && forall id | id in w.traces :: w.traces[id] != [] && w.pool.frames[id].history == LastK(w.traces[id])
  }

  ghost predicate LooseIsClean(w: World) {
    forall id | id in w.loose :: id in w.pool.frames && !w.pool.frames[id].dirty
  }

  ghost predicate Inv(ops: PageOps, w: World) {
    PoolInv(ops, w.pool, w.loose) && LooseIsClean(w) && PinsCountGuards(w) && HistoriesTrimTraces(w)
  }

  /** What the step does to the page a client sees as `id`. */
  function AbstractStep(ops: PageOps, step: Step, outcome: Outcome, id: U64,
                        seen: Option<PageBytes>): Option<PageBytes>
  {
    if outcome.Failed? then seen
    else match step
      case InstallStep(page, _, _, _) => if id == ops.idOf(page) then Some(page) else seen
      case ReplaceStep(replaced, page) => if id == replaced then Some(page) else seen
      case InsertStep(grown, record) =>
        if id == grown && seen.Some? then Some(ops.insert(seen.value, record).GetOr(seen.value)) else seen
      case _ => seen
  }

  lemma UnpinKeepsView(ops: PageOps, pool: Pool, id: U64, loose: set<U64>)
    requires PoolInv(ops, pool, loose)
    ensures PoolInv(ops, Unpin(pool, id), loose) && SameView(pool, Unpin(pool, id))
  {
    if id in pool.frames {
      SameKeysSameSize(Unpin(pool, id).frames, pool.frames);
    }
  }

  lemma MarkDirtyKeepsView(ops: PageOps, pool: Pool, id: U64, loose: set<U64>)
    requires PoolInv(ops, pool, loose)
    ensures PoolInv(ops, MarkDirty(pool, id).0, loose) && SameView(pool, MarkDirty(pool, id).0)
  {
    if id in pool.frames {
      SameKeysSameSize(MarkDirty(pool, id).0.frames, pool.frames);
    }
  }

  /** One step of the pool is one step of the plain page map, except at the pages whose frame
      it forgets. */
  lemma StepOnView(ops: PageOps, w: World, step: Step, loose: set<U64>)
    requires Lawful(ops) && PoolInv(ops, w.pool, loose) && Enabled(w, step)
    requires CleanInstallAgrees(ops, w.pool, step) || InstalledClean(ops, step, Execute(ops, w, step).1) <= loose
    ensures var (pool, outcome) := Execute(ops, w, step);
            && PoolInv(ops, pool, loose)
            && forall id :: View(pool, id) == AbstractStep(ops, step, outcome, id, View(w.pool, id))
                            <==> !Forgets(w.pool, pool, id)
  {
    match step
    case FetchStep(id, victim, device) => FetchKeepsView(ops, w.pool, id, victim, device, loose);
    case UnpinStep(id) => UnpinKeepsView(ops, w.pool, id, loose);
    case InstallStep(page, dirty, victim, device) =>
      InstallChangesOnePage(ops, w.pool, page, dirty, victim, device, loose);
    case ReplaceStep(id, page) => ReplaceChangesOnePage(ops, w.pool, id, page, loose);
    case InsertStep(id, record) => InsertRecordChangesOnePage(ops, w.pool, id, record, loose);
    case MarkDirtyStep(id) => MarkDirtyKeepsView(ops, w.pool, id, loose);
    case FlushStep(id, device) => FlushPageKeepsView(ops, w.pool, id, device, loose);
    case FlushAllStep(devices) => FlushAscendingKeepsView(ops, w.pool, w.pool.frames.Keys, devices, loose);
  }

  /** A step departs from the plain page map at `id` exactly when it drops the frame of a page
      that was installed as clean, was never dirtied since, and is not what the disk holds. */
  lemma StepRefinesPageMapUnlessForgotten(ops: PageOps, w: World, step: Step, id: U64)
    requires Lawful(ops) && Inv(ops, w) && Enabled(w, step)
    ensures var (pool, outcome) := Execute(ops, w, step);
            View(pool, id) == AbstractStep(ops, step, outcome, id, View(w.pool, id))
            <==> !(id in w.loose && id !in pool.frames && !OnDisk(w.pool, id))
  {
    StepOnView(ops, w, step, w.loose + InstalledClean(ops, step, Execute(ops, w, step).1));
    assert id in w.pool.frames && !w.pool.frames[id].dirty && !OnDisk(w.pool, id) ==> id in w.loose;
  }
}

/** When the calls of the buffer pool succeed, told by the pool before the call. */
module BufferAnswers {
  import opened Base
  import opened Page
  import opened PageFile
  import opened Buffer
  import opened BufferRuns
  import opened BufferWorld

  /** The page can be written back: the barrier answers, the file has no partial tail, the page lies
      in it or right behind it, and the write goes through. */
  predicate Writes(ops: PageOps, pool: Pool, id: U64, device: Device)
    requires id in pool.frames
  {
    && device.barrier(ops.lsnOf(pool.frames[id].page)).Ok? && device.write.WriteOk?
    && !HasPartialTail(pool.disk) && id <= CompletePages(pool.disk)
  }

  /** There is room for one more frame, or an unguarded one that is clean or can be written back. */
  predicate HasRoom(ops: PageOps, pool: Pool, victim: U64, device: Device) {
    || |pool.frames| < pool.capacity
    || (&& (exists id | id in pool.frames :: pool.frames[id].pinCount == 0) && victim in pool.frames
        && (!pool.frames[victim].dirty || Writes(ops, pool, victim, device)))
  }

  /** The file has a valid page `id`, and no partial tail. */
  predicate Readable(ops: PageOps, disk: Bytes, id: U64) {
    !HasPartialTail(disk) && id < CompletePages(disk) && Sound(ops, PageAt(disk, id), id)
  }

  lemma WriteBackAnswered(ops: PageOps, pool: Pool, id: U64, device: Device)
    requires Lawful(ops) && FramesSound(ops, pool) && id in pool.frames
    ensures var (after, outcome) := WriteBack(ops, pool, pool.frames[id].page, device);
            && (outcome.Done? <==> Writes(ops, pool, id, device))
            && (outcome.Done? ==>
                  forall other: U64 | other != id ::
                    Readable(ops, after.disk, other) <==> Readable(ops, pool.disk, other))
  {
    assert Sound(ops, pool.frames[id].page, id);
    if Writes(ops, pool, id, device) {
      WritePage(pool.disk, id, pool.frames[id].page);
    }
  }

  lemma RoomAnswered(ops: PageOps, pool: Pool, victim: U64, device: Device, id: U64)
    requires Lawful(ops) && FramesSound(ops, pool) && (!AllPinned(pool.frames) ==> victim in pool.frames)
    requires id !in pool.frames
    ensures var (after, outcome) := EnsureCapacity(ops, pool, victim, device);
            && (outcome.Done? <==> HasRoom(ops, pool, victim, device))
            && (outcome.Done? ==> (Readable(ops, after.disk, id) <==> Readable(ops, pool.disk, id)))
  {
    if !AllPinned(pool.frames) {
      WriteBackAnswered(ops, pool, victim, device);
    }
  }

  lemma FetchAnswered(ops: PageOps, pool: Pool, id: U64, victim: U64, device: Device)
    requires Lawful(ops) && FramesSound(ops, pool) && (!AllPinned(pool.frames) ==> victim in pool.frames)
    ensures Fetch(ops, pool, id, victim, device).1.Done? <==>
              id in pool.frames || (HasRoom(ops, pool, victim, device) && Readable(ops, pool.disk, id))
  {
    if id !in pool.frames {
      RoomAnswered(ops, pool.(clock := Tick(pool.clock)), victim, device, id);
      RoomIgnoresClock(ops, pool, Tick(pool.clock), victim, device);
    }
  }

  lemma InstallAnswered(ops: PageOps, pool: Pool, page: PageBytes, dirty: bool, victim: U64, device: Device)
    requires Lawful(ops) && FramesSound(ops, pool) && (!AllPinned(pool.frames) ==> victim in pool.frames)
    ensures Install(ops, pool, page, dirty, victim, device).1.Done? <==>
              && Sound(ops, page, ops.idOf(page)) && ops.idOf(page) !in pool.frames
              && HasRoom(ops, pool, victim, device)
  {
    if ops.idOf(page) !in pool.frames {
      RoomAnswered(ops, pool, victim, device, ops.idOf(page));
    }
  }

  lemma FlushAnswered(ops: PageOps, pool: Pool, id: U64, device: Device)
    requires Lawful(ops) && FramesSound(ops, pool)
    ensures FlushPage(ops, pool, id, device).1.Done? <==>
              id in pool.frames && (!pool.frames[id].dirty || Writes(ops, pool, id, device))
  {
    if id in pool.frames {
      WriteBackAnswered(ops, pool, id, device);
    }
  }

  /** When a call succeeds: a fetch of a resident page, or of a valid page on disk for which there is
      room; an install of a valid page that is not resident and for which there is room; a replace
      by a valid page of the same identity; a flush of a resident page that is clean or can be
      written back. */
  lemma AnsweredIff(ops: PageOps, start: Pool, steps: seq<Step>, step: Step)
    requires Lawful(ops) && Fresh(start) && Legal(ops, start, steps) && Enabled(Run(ops, start, steps), step)
    ensures var w := Run(ops, start, steps);
            var pool, done := w.pool, Execute(ops, w, step).1.Done?;
            match step
            case FetchStep(id, victim, device) =>
              done <==> id in pool.frames || (HasRoom(ops, pool, victim, device) && Readable(ops, pool.disk, id))
            case InstallStep(page, _, victim, device) =>
              done <==> && Sound(ops, page, ops.idOf(page)) && ops.idOf(page) !in pool.frames
                        && HasRoom(ops, pool, victim, device)
            case ReplaceStep(id, page) => done <==> ops.idOf(page) == id && Sound(ops, page, id)
            case FlushStep(id, device) =>
              done <==> id in pool.frames && (!pool.frames[id].dirty || Writes(ops, pool, id, device))
            case FlushAllStep(_) => true
            case _ => done
  {
    var pool := Run(ops, start, steps).pool;
    ReachableInv(ops, start, steps);
    match step
    case FetchStep(id, victim, device) => FetchAnswered(ops, pool, id, victim, device);
    case InstallStep(page, dirty, victim, device) => InstallAnswered(ops, pool, page, dirty, victim, device);
    case FlushStep(id, device) => FlushAnswered(ops, pool, id, device);
    case _ =>
  }

  lemma RoomIgnoresClock(ops: PageOps, pool: Pool, clock: U64, victim: U64, device: Device)
    ensures HasRoom(ops, pool.(clock := clock), victim, device) <==> HasRoom(ops, pool, victim, device)
  {
  }

  /** A record goes into a resident page exactly if the page takes it, and dirties the frame. */
  lemma InsertedIff(ops: PageOps, start: Pool, steps: seq<Step>, id: U64, record: Bytes)
    requires Lawful(ops) && Fresh(start) && Legal(ops, start, steps)
    requires Enabled(Run(ops, start, steps), InsertStep(id, record))
    ensures var w := Run(ops, start, steps);
            var after := Execute(ops, w, InsertStep(id, record)).0;
            && id in w.pool.frames && id in after.frames
            && match ops.insert(w.pool.frames[id].page, record)
               case None => after == w.pool
               case Some(page) => after.frames[id].page == page && after.frames[id].dirty
  {
    ReachableInv(ops, start, steps);
  }

  /** What each refusal is reported as. */
  lemma RefusalsAre(ops: PageOps, pool: Pool, id: U64, page: PageBytes, dirty: bool, victim: U64, device: Device)
    requires !AllPinned(pool.frames) ==> victim in pool.frames
    ensures |pool.frames| >= pool.capacity && AllPinned(pool.frames) && id !in pool.frames ==>
              Fetch(ops, pool, id, victim, device).1 == Failed("53000")
    ensures |pool.frames| < pool.capacity && id !in pool.frames ==>
              var outcome := Fetch(ops, pool, id, victim, device).1;
              if HasPartialTail(pool.disk) || CompletePages(pool.disk) <= id then outcome == Failed("XX001")
              else outcome == ops.check(PageAt(pool.disk, id), id)
    ensures var own := ops.idOf(page);
            && (ops.check(page, own).Failed? ==>
                  Install(ops, pool, page, dirty, victim, device) == (pool, ops.check(page, own)))
            && (ops.check(page, own).Done? && own in pool.frames ==>
                  Install(ops, pool, page, dirty, victim, device) == (pool, Failed("55000")))
            && (own != id ==> Replace(ops, pool, id, page) == (pool, Failed("22023")))
    ensures id !in pool.frames ==> FlushPage(ops, pool, id, device) == (pool, Failed("XX001"))
    ensures id in pool.frames && pool.frames[id].dirty ==>
              var frame, outcome := pool.frames[id].page, FlushPage(ops, pool, id, device).1;
              match device.barrier(ops.lsnOf(frame))
              case Err(state) => FlushPage(ops, pool, id, device) == (pool, Failed(state))
              case Ok(_) =>
                if ops.check(frame, ops.idOf(frame)).Failed? then outcome == ops.check(frame, ops.idOf(frame))
                else if HasPartialTail(pool.disk) || CompletePages(pool.disk) < ops.idOf(frame) then
                  outcome == Failed("XX001")
                else outcome == if device.write.WriteOk? then Done else Failed("58030")
  {
  }

  /** Whether a resident page is dirty after a step other than a flush of all: replacing it, a record
      that goes in and an explicit mark make it so, and only a flush that succeeds makes it clean. */
  predicate DirtAfter(ops: PageOps, frame: Frame, step: Step, done: bool, id: U64) {
    match step
    case ReplaceStep(replaced, _) => frame.dirty || (replaced == id && done)
    case InsertStep(into, record) => frame.dirty || (into == id && ops.insert(frame.page, record).Some?)
    case MarkDirtyStep(marked) => frame.dirty || marked == id
    case FlushStep(flushed, _) => frame.dirty && !(flushed == id && done)
    case _ => frame.dirty
  }

  ghost predicate DirtFollows(ops: PageOps, before: map<U64, Frame>, after: map<U64, Frame>, step: Step, done: bool,
                              id: U64)
  {
    id in after ==>
      (after[id].dirty <==> if id in before then DirtAfter(ops, before[id], step, done, id)
                            else step.InstallStep? && step.dirty)
  }

  lemma FetchDirt(ops: PageOps, w: World, step: Step, id: U64)
    requires Enabled(w, step) && step.FetchStep?
    ensures var (after, outcome) := Execute(ops, w, step);
            DirtFollows(ops, w.pool.frames, after.frames, step, outcome.Done?, id)
  {
    if step.id !in w.pool.frames {
      RoomFrames(ops, w.pool.(clock := Tick(w.pool.clock)), step.victim, step.device);
    }
  }

  lemma InstallDirt(ops: PageOps, w: World, step: Step, id: U64)
    requires Enabled(w, step) && step.InstallStep?
    ensures var (after, outcome) := Execute(ops, w, step);
            DirtFollows(ops, w.pool.frames, after.frames, step, outcome.Done?, id)
  {
    RoomFrames(ops, w.pool, step.victim, step.device);
  }

  lemma FlushDirt(ops: PageOps, pool: Pool, id: U64, device: Device)
    ensures var (after, outcome) := FlushPage(ops, pool, id, device);
            && after.frames.Keys == pool.frames.Keys
            && (forall other | other in pool.frames && other != id :: after.frames[other] == pool.frames[other])
            && (outcome.Failed? ==> after.frames == pool.frames && (id in pool.frames ==> pool.frames[id].dirty))
            && (outcome.Done? ==> id in pool.frames && !after.frames[id].dirty)
  {
  }

  /** Over every run, which pages are dirty after a step: of the resident ones those just said, of the
      ones that come in only a page installed as dirty. */
  lemma DirtyAfterStepIff(ops: PageOps, start: Pool, steps: seq<Step>, step: Step, id: U64)
    requires Lawful(ops) && Fresh(start) && Legal(ops, start, steps) && Enabled(Run(ops, start, steps), step)
    requires !step.FlushAllStep?
    ensures var before := Run(ops, start, steps).pool.frames;
            var (after, outcome) := Execute(ops, Run(ops, start, steps), step);
            id in after.frames ==>
              (after.frames[id].dirty <==>
                 if id in before then DirtAfter(ops, before[id], step, outcome.Done?, id)
                 else step.InstallStep? && step.dirty)
  {
    DirtOfStep(ops, Run(ops, start, steps), step, id);
  }

  lemma DirtOfStep(ops: PageOps, w: World, step: Step, id: U64)
    requires Enabled(w, step) && !step.FlushAllStep?
    ensures var (after, outcome) := Execute(ops, w, step);
            DirtFollows(ops, w.pool.frames, after.frames, step, outcome.Done?, id)
  {
    match step
    case FetchStep(_, _, _) => FetchDirt(ops, w, step, id);
    case InstallStep(_, _, _, _) => InstallDirt(ops, w, step, id);
    case FlushStep(flushed, device) => FlushDirt(ops, w.pool, flushed, device);
    case _ =>
  }

  // ---- a flush of all ----

  /** Of `ids` the pages below `stop` are clean, and nothing else has changed. */
  ghost predicate CleanBelow(before: map<U64, Frame>, after: map<U64, Frame>, ids: set<U64>, stop: nat) {
    && after.Keys == before.Keys
    && forall id | id in before ::
         after[id].dirty <==> before[id].dirty && !(id in ids && id < stop)
  }

  lemma {:induction false} FlushedBelow(ops: PageOps, pool: Pool, ids: set<U64>, devices: U64 -> Device)
    returns (stop: nat)
    requires ids <= pool.frames.Keys
    ensures var (after, outcome) := FlushAscending(ops, pool, ids, devices);
            && CleanBelow(pool.frames, after.frames, ids, stop)
            && (outcome.Done? ==> forall id | id in ids :: id < stop)
            && (outcome.Failed? ==> stop in ids && pool.frames[stop].dirty)
    decreases |ids|
  {
    if ids == {} {
      stop := 0;
    } else {
      var least: U64 := Least(ids);
      FlushDirt(ops, pool, least, devices(least));
      var (flushed, outcome) := FlushPage(ops, pool, least, devices(least));
      if outcome.Failed? {
        stop := least;
      } else {
        var rest := FlushedBelow(ops, flushed, ids - {least}, devices);
        stop := if rest <= least then least + 1 else rest;
        assert forall id | id in ids :: id == least || id in ids - {least};
      }
    }
  }

  /** Over every run a flush of all goes up the page ids and stops at the first page that cannot be
      written: every page below it is clean afterwards, and from it on none became so. */
  lemma FlushAllStopsAtFirst(ops: PageOps, start: Pool, steps: seq<Step>, devices: U64 -> Device) returns (stop: nat)
    requires Lawful(ops) && Fresh(start) && Legal(ops, start, steps)
    ensures var pool := Run(ops, start, steps).pool;
            var (after, outcome) := FlushAll(ops, pool, devices);
            && after.frames.Keys == pool.frames.Keys
            && (forall id | id in pool.frames :: after.frames[id].dirty <==> pool.frames[id].dirty && stop <= id)
            && (outcome.Done? <==> forall id | id in pool.frames :: id < stop)
            && (outcome.Failed? ==> stop in pool.frames && pool.frames[stop].dirty)
  {
    stop := AllFlushedBelow(ops, Run(ops, start, steps).pool, devices);
  }

  lemma AllFlushedBelow(ops: PageOps, pool: Pool, devices: U64 -> Device) returns (stop: nat)
    ensures var (after, outcome) := FlushAll(ops, pool, devices);
            && after.frames.Keys == pool.frames.Keys
            && (forall id | id in pool.frames :: after.frames[id].dirty <==> pool.frames[id].dirty && stop <= id)
            && (outcome.Done? <==> forall id | id in pool.frames :: id < stop)
            && (outcome.Failed? ==> stop in pool.frames && pool.frames[stop].dirty)
  {
    stop := FlushedBelow(ops, pool, pool.frames.Keys, devices);
    if FlushAll(ops, pool, devices).1.Failed? {
      var id: U64 := stop;
      assert id in pool.frames && !(id < stop);
    }
  }
}

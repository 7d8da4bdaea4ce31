/** Whole runs of the buffer pool: pins, histories, the page-map refinement and the
    replacement rule, and the instance for slotted pages. */
module BufferWorld {
  import opened Base
  import opened Page
  import opened PageFile
  import opened Buffer
  import opened BufferRuns
  import opened BufferWrites
  import PageEdits

  /** What a step leaves in the frame of `id`, seen from the frames before it. */
  ghost predicate FrameStep(ops: PageOps, before: map<U64, Frame>, after: Pool, step: Step, outcome: Outcome, id: U64) {
    && (id in after.frames ==>
          var frame := after.frames[id];
          && (Touches(ops, step, outcome, id) ==>
                frame.history == if id in before then RecordAccess(before[id].history, after.clock) else [after.clock])
          && (!Touches(ops, step, outcome, id) ==> id in before && frame.history == before[id].history)
          && frame.pinCount == (if id in before then before[id].pinCount else 0)
                               + (if step.FetchStep? && outcome.Done? && id == step.id then 1 else 0)
                               - (if step.UnpinStep? && id == step.id && before[id].pinCount != 0 then 1 else 0))
    && (id !in after.frames ==>
          && (id in before ==> before[id].pinCount == 0)
          && !Touches(ops, step, outcome, id))
  }

  /** Making room takes away at most one unpinned frame. */
  lemma RoomFrames(ops: PageOps, pool: Pool, victim: U64, device: Device)
    requires !AllPinned(pool.frames) ==> IsVictim(pool.frames, victim)
    ensures var after := EnsureCapacity(ops, pool, victim, device).0;
            && after.clock == pool.clock
            && (after.frames == pool.frames
                || (victim in pool.frames && pool.frames[victim].pinCount == 0
                    && after.frames == pool.frames - {victim}))
  {
  }

  lemma FetchFrames(ops: PageOps, w: World, step: Step, id: U64)
    requires Enabled(w, step) && step.FetchStep?
    ensures var (after, outcome) := Execute(ops, w, step); FrameStep(ops, w.pool.frames, after, step, outcome, id)
  {
    if step.id !in w.pool.frames {
      RoomFrames(ops, w.pool.(clock := Tick(w.pool.clock)), step.victim, step.device);
    }
  }

  lemma InstalledFrame(ops: PageOps, w: World, step: Step, id: U64)
    requires Enabled(w, step) && step.InstallStep? && id == ops.idOf(step.page)
    ensures var (after, outcome) := Execute(ops, w, step); FrameStep(ops, w.pool.frames, after, step, outcome, id)
  {
    RoomFrames(ops, w.pool, step.victim, step.device);
  }

  lemma FrameBesideInstall(ops: PageOps, w: World, step: Step, id: U64)
    requires Enabled(w, step) && step.InstallStep? && id != ops.idOf(step.page)
    ensures var (after, outcome) := Execute(ops, w, step); FrameStep(ops, w.pool.frames, after, step, outcome, id)
  {
    RoomFrames(ops, w.pool, step.victim, step.device);
  }

  lemma StepFrames(ops: PageOps, w: World, step: Step, id: U64)
    requires Lawful(ops) && PoolInv(ops, w.pool, w.loose) && Enabled(w, step)
    ensures var (after, outcome) := Execute(ops, w, step); FrameStep(ops, w.pool.frames, after, step, outcome, id)
  {
    match step
    case FetchStep(_, _, _) => FetchFrames(ops, w, step, id);
    case InstallStep(page, _, _, _) =>
      if id == ops.idOf(page) { InstalledFrame(ops, w, step, id); } else { FrameBesideInstall(ops, w, step, id); }
    case FlushStep(flushed, device) => FlushPageKeepsView(ops, w.pool, flushed, device, w.loose);
    case FlushAllStep(devices) => FlushAscendingKeepsView(ops, w.pool, w.pool.frames.Keys, devices, w.loose);
    case _ =>
  }

  lemma TrimAfterAccess(trace: seq<U64>, access: U64)
    ensures LastK(trace + [access]) == RecordAccess(LastK(trace), access)
  {
  }

  lemma StepKeepsPins(ops: PageOps, w: World, step: Step)
    requires Lawful(ops) && PoolInv(ops, w.pool, w.loose) && PinsCountGuards(w) && Enabled(w, step)
    ensures PinsCountGuards(Next(ops, w, step))
  {
    var w' := Next(ops, w, step);
    forall id
      ensures id in w'.pool.frames ==> w'.pool.frames[id].pinCount == Guards(w', id)
      ensures 0 < Guards(w', id) ==> id in w'.pool.frames
    {
      StepFrames(ops, w, step, id);
    }
  }

  lemma StepKeepsHistories(ops: PageOps, w: World, step: Step)
    requires Lawful(ops) && PoolInv(ops, w.pool, w.loose) && HistoriesTrimTraces(w) && Enabled(w, step)
    ensures HistoriesTrimTraces(Next(ops, w, step))
  {
    var w' := Next(ops, w, step);
    forall id | id in w'.traces ensures w'.traces[id] != [] && w'.pool.frames[id].history == LastK(w'.traces[id]) {
      StepFrames(ops, w, step, id);
      if id in w.traces {
        TrimAfterAccess(w.traces[id], w'.pool.clock);
      }
    }
  }

  lemma StepKeepsInv(ops: PageOps, w: World, step: Step)
    requires Lawful(ops) && Inv(ops, w) && Enabled(w, step)
    ensures Inv(ops, Next(ops, w, step))
  {
    var (pool, outcome) := Execute(ops, w, step);
    var loose := w.loose + InstalledClean(ops, step, outcome);
    StepOnView(ops, w, step, loose);
    OnlyCleanResidentsMatter(ops, pool, loose, NextLoose(ops, w, step));
    StepKeepsPins(ops, w, step);
    StepKeepsHistories(ops, w, step);
  }

  lemma OnlyCleanResidentsMatter(ops: PageOps, pool: Pool, loose: set<U64>, kept: set<U64>)
    requires PoolInv(ops, pool, loose)
    requires forall id | id in loose && id in pool.frames && !pool.frames[id].dirty :: id in kept
    ensures PoolInv(ops, pool, kept)
  {
  }

  // ---- runs ----

  ghost predicate Legal(ops: PageOps, start: Pool, steps: seq<Step>)
    decreases |steps|, 0
  {
    steps != [] ==>
      && Legal(ops, start, steps[..|steps| - 1])
      && Enabled(Run(ops, start, steps[..|steps| - 1]), steps[|steps| - 1])
  }

  /** A run over an existing file, starting with no frame resident. */
  ghost function Run(ops: PageOps, start: Pool, steps: seq<Step>): World
    requires Legal(ops, start, steps)
    decreases |steps|, 1
  {
    if steps == [] then World(start, map[], map[], {})
    else Next(ops, Run(ops, start, steps[..|steps| - 1]), steps[|steps| - 1])
  }

  ghost predicate Fresh(start: Pool) {
    start.frames == map[] && start.writes == [] && 0 < start.capacity
  }

  lemma {:induction false} ReachableInv(ops: PageOps, start: Pool, steps: seq<Step>)
    requires Lawful(ops) && Fresh(start) && Legal(ops, start, steps)
    ensures Inv(ops, Run(ops, start, steps))
    decreases |steps|
  {
    if steps != [] {
      ReachableInv(ops, start, steps[..|steps| - 1]);
      StepKeepsInv(ops, Run(ops, start, steps[..|steps| - 1]), steps[|steps| - 1]);
    }
  }

  // ---- the page map ----

  /** The plain page map: what a client that never heard of frames would keep. */
  ghost function PageMap(ops: PageOps, start: Pool, steps: seq<Step>, id: U64): Option<PageBytes>
    requires Legal(ops, start, steps)
    decreases |steps|
  {
    if steps == [] then View(start, id)
    else
      var front, last := steps[..|steps| - 1], steps[|steps| - 1];
      AbstractStep(ops, last, Execute(ops, Run(ops, start, front), last).1, id, PageMap(ops, start, front, id))
  }

  /** At every moment of the run a client sees the page map. */
  ghost predicate RefinesThroughout(ops: PageOps, start: Pool, steps: seq<Step>)
    requires Legal(ops, start, steps)
    decreases |steps|
  {
    && (forall id :: View(Run(ops, start, steps).pool, id) == PageMap(ops, start, steps, id))
    && (steps != [] ==> RefinesThroughout(ops, start, steps[..|steps| - 1]))
  }

  /** No step drops a page installed as clean, never dirtied since, that the disk does not hold. */
  ghost predicate NothingForgotten(ops: PageOps, start: Pool, steps: seq<Step>)
    requires Legal(ops, start, steps)
    decreases |steps|
  {
    steps != [] ==>
      var before, after := Run(ops, start, steps[..|steps| - 1]), Run(ops, start, steps);
      && NothingForgotten(ops, start, steps[..|steps| - 1])
      && forall id | id in before.loose && id in before.pool.frames && id !in after.pool.frames ::
          OnDisk(before.pool, id)
  }

  /** Every clean install agrees with the disk at the call, which its caller can check. */
  ghost predicate CleanInstallsAgree(ops: PageOps, start: Pool, steps: seq<Step>)
    requires Legal(ops, start, steps)
    decreases |steps|
  {
    steps != [] ==>
      && CleanInstallsAgree(ops, start, steps[..|steps| - 1])
      && CleanInstallAgrees(ops, Run(ops, start, steps[..|steps| - 1]).pool, steps[|steps| - 1])
  }

  /** A run refines the page map if and only if it never forgets a page installed as clean. */
  lemma {:induction false} RefinesIffNothingForgotten(ops: PageOps, start: Pool, steps: seq<Step>)
    requires Lawful(ops) && Fresh(start) && Legal(ops, start, steps)
    ensures RefinesThroughout(ops, start, steps) <==> NothingForgotten(ops, start, steps)
    decreases |steps|
  {
    if steps != [] {
      var front, last := steps[..|steps| - 1], steps[|steps| - 1];
      RefinesIffNothingForgotten(ops, start, front);
      ReachableInv(ops, start, front);
      var before, after := Run(ops, start, front), Run(ops, start, steps);
      if RefinesThroughout(ops, start, front) {
        forall id
          ensures View(after.pool, id) == PageMap(ops, start, steps, id)
                  <==> !(id in before.loose && id !in after.pool.frames && !OnDisk(before.pool, id))
        {
          assert View(before.pool, id) == PageMap(ops, start, front, id);
          StepRefinesPageMapUnlessForgotten(ops, before, last, id);
        }
      }
    }
  }

  lemma {:induction false} AgreeingRunsMatchDisk(ops: PageOps, start: Pool, steps: seq<Step>)
    requires Lawful(ops) && Fresh(start) && Legal(ops, start, steps) && CleanInstallsAgree(ops, start, steps)
    ensures PoolInv(ops, Run(ops, start, steps).pool, {}) && NothingForgotten(ops, start, steps)
    decreases |steps|
  {
    if steps != [] {
      var front, last := steps[..|steps| - 1], steps[|steps| - 1];
      AgreeingRunsMatchDisk(ops, start, front);
      ReachableInv(ops, start, front);
      StepOnView(ops, Run(ops, start, front), last, {});
    }
  }

  /** Over every run whose clean installs agree with the disk, with any failures of the barrier
      and the disk, torn writes included, a client sees exactly the page map that only replace,
      insert and install change. */
  lemma PoolRefinesPageMap(ops: PageOps, start: Pool, steps: seq<Step>, id: U64)
    requires Lawful(ops) && Fresh(start) && Legal(ops, start, steps) && CleanInstallsAgree(ops, start, steps)
    ensures View(Run(ops, start, steps).pool, id) == PageMap(ops, start, steps, id)
  {
    AgreeingRunsMatchDisk(ops, start, steps);
    RefinesIffNothingForgotten(ops, start, steps);
  }

  // ---- residence and the log ----

  /** Over every run: no more frames than the capacity, as many pins as live guards, and a
      guarded page is resident. */
  lemma GuardedPagesStayResident(ops: PageOps, start: Pool, steps: seq<Step>, id: U64)
    requires Lawful(ops) && Fresh(start) && Legal(ops, start, steps)
    ensures var w := Run(ops, start, steps);
            && |w.pool.frames| <= w.pool.capacity
            && (0 < Guards(w, id) ==> id in w.pool.frames && Sound(ops, w.pool.frames[id].page, id))
            && (id in w.pool.frames ==> w.pool.frames[id].pinCount == Guards(w, id))
  {
    ReachableInv(ops, start, steps);
  }

  ghost function RunAnswers(steps: seq<Step>): Answers {
    if steps == [] then Answers(iset{}, true)
    else Both(RunAnswers(steps[..|steps| - 1]), StepAnswers(steps[|steps| - 1]))
  }

  /** The pool's writes account for the disk, and none came before the log. */
  ghost predicate AccountedFor(ops: PageOps, start: Pool, answers: Answers, pool: Pool) {
    && WritesExplain(start.disk, pool.writes, pool.disk) && LoggedFirst(ops, pool.writes, pool.durable)
    && Known(start.durable, answers, pool.durable)
    && forall w | w in pool.writes :: Known(start.durable, answers, w.durable) && (answers.allWhole ==> w.whole)
  }

  lemma StepKeepsAccount(ops: PageOps, start: Pool, before: Pool, after: Pool, past: Answers, now: Answers)
    requires AccountedFor(ops, start, past, before) && Accounts(ops, before, after, now)
    ensures AccountedFor(ops, start, Both(past, now), after)
  {
    assert after.writes == before.writes + Added(before, after);
    WritesExplainBoth(start.disk, before.writes, before.disk, Added(before, after), after.disk);
  }

  lemma {:induction false} RunIsAccountedFor(ops: PageOps, start: Pool, steps: seq<Step>)
    requires Lawful(ops) && Fresh(start) && Legal(ops, start, steps)
    ensures AccountedFor(ops, start, RunAnswers(steps), Run(ops, start, steps).pool)
    decreases |steps|
  {
    if steps != [] {
      var front, last := steps[..|steps| - 1], steps[|steps| - 1];
      RunIsAccountedFor(ops, start, front);
      ReachableInv(ops, start, front);
      StepAccounts(ops, Run(ops, start, front), last);
      StepKeepsAccount(ops, start, Run(ops, start, front).pool, Run(ops, start, steps).pool,
                       RunAnswers(front), StepAnswers(last));
    }
  }

  /** Over every run: wherever a byte of the file differs from the start, the pool wrote that
      page, and it wrote it when the log was durable through its LSN, by the barrier's own
      answer; after a whole write the page on disk is the one that was written. */
  lemma WalBeforeData(ops: PageOps, start: Pool, steps: seq<Step>, id: U64)
    requires Lawful(ops) && Fresh(start) && Legal(ops, start, steps)
    ensures var pool := Run(ops, start, steps).pool;
            match LastWrite(pool.writes, id)
            case None => Extent(pool.disk, id) == Extent(start.disk, id)
            case Some(w) =>
              && ops.idOf(w.page) == id && ops.lsnOf(w.page) <= w.durable <= pool.durable
              && Known(start.durable, RunAnswers(steps), w.durable)
              && (w.whole ==> id < CompletePages(pool.disk) && PageAt(pool.disk, id) == w.page)
  {
    RunIsAccountedFor(ops, start, steps);
    var pool := Run(ops, start, steps).pool;
    if LastWrite(pool.writes, id).Some? {
      LastWriteIsListed(pool.writes, id);
      WholeExtentIsPage(pool.disk, id);
    }
  }

  /** Unless a write failed, every page on disk that is not as it was has an LSN the log is
      durable through. */
  lemma ChangedPagesAreLogged(ops: PageOps, start: Pool, steps: seq<Step>, id: U64)
    requires Lawful(ops) && Fresh(start) && Legal(ops, start, steps) && RunAnswers(steps).allWhole
    requires Extent(Run(ops, start, steps).pool.disk, id) != Extent(start.disk, id)
    ensures var pool := Run(ops, start, steps).pool;
            && id < CompletePages(pool.disk) && ops.idOf(PageAt(pool.disk, id)) == id
            && ops.lsnOf(PageAt(pool.disk, id)) <= pool.durable
            && Known(start.durable, RunAnswers(steps), pool.durable)
  {
    WalBeforeData(ops, start, steps, id);
    RunIsAccountedFor(ops, start, steps);
    LastWriteIsListed(Run(ops, start, steps).pool.writes, id);
  }

  // ---- replacement ----

  lemma TrimKeepsVictimKey(trace: seq<U64>)
    ensures VictimKey(LastK(trace)) == VictimKey(trace)
  {
  }

  /** The victim by the full access traces: pages accessed fewer than K times first, by first
      access; otherwise by the K-th most recent access; ties by page id. */
  ghost predicate IsVictimByTrace(w: World, id: U64)
    requires w.traces.Keys == w.pool.frames.Keys
  {
    && id in w.pool.frames && Guards(w, id) == 0
    && forall other | other in w.pool.frames && Guards(w, other) == 0 ::
         EvictsBefore(w.traces[id], id, w.traces[other], other)
  }

  /** Over every run the victim picked from the trimmed histories is the one the full traces
      and the live guards determine. */
  lemma TrimmedHistoriesPickTheSameVictim(ops: PageOps, start: Pool, steps: seq<Step>, id: U64)
    requires Lawful(ops) && Fresh(start) && Legal(ops, start, steps)
    ensures Run(ops, start, steps).traces.Keys == Run(ops, start, steps).pool.frames.Keys
    ensures IsVictim(Run(ops, start, steps).pool.frames, id) <==> IsVictimByTrace(Run(ops, start, steps), id)
  {
    var w := Run(ops, start, steps);
    ReachableInv(ops, start, steps);
    forall other | other in w.pool.frames
      ensures VictimKey(w.pool.frames[other].history) == VictimKey(w.traces[other])
    {
      TrimKeepsVictimKey(w.traces[other]);
    }
  }

  // ---- slotted pages ----

  function SlottedOps(crc: Crc): PageOps {
    PageOps((b: PageBytes) => PageId(b), (b: PageBytes) => PageLsn(b), (b: PageBytes, id: U64) => Check(crc, b, id),
            (b: PageBytes, record: Bytes) =>
              if BoundsSound(b) && CanFit(b, |record|) then Some(Insert(crc, b, record)) else None)
  }

  /** Slotted pages are pages in the pool's sense: a valid page carries its own id, and is
      still valid with one more record. */
  lemma SlottedPagesAreLawful(crc: Crc)
    ensures Lawful(SlottedOps(crc))
  {
    var ops := SlottedOps(crc);
    forall b, id, record | Sound(ops, b, id) && ops.insert(b, record).Some?
      ensures Sound(ops, ops.insert(b, record).value, id)
    {
      PageEdits.InsertKeepsRecords(crc, b, id, record);
    }
  }

  // ---- the one way a client can be misled ----

  function OneCleanPage(page: PageBytes, id: U64, clock: U64): World {
    World(Pool([], 1, clock, map[id := Frame(page, 0, false, [clock])], 0, []), map[], map[id := [clock]], {id})
  }

  /** A pool of one frame makes room by dropping it. */
  lemma RoomForOne(ops: PageOps, pool: Pool, device: Device)
    requires pool.capacity == 1
    requires pool.frames == map[] || exists page, clock :: pool.frames == map[0 := Frame(page, 0, false, [clock])]
    ensures !AllPinned(pool.frames) ==> IsVictim(pool.frames, 0)
    ensures EnsureCapacity(ops, pool, 0, device) == (pool.(frames := map[]), Done)
  {
    if pool.frames != map[] {
      var page, clock :| pool.frames == map[0 := Frame(page, 0, false, [clock])];
      assert pool.frames.Keys == {0};
      assert |pool.frames| == |pool.frames.Keys| == 1;
      assert pool.frames - {0} == map[];
    }
  }

  lemma InstallIntoOne(ops: PageOps, pool: Pool, page: PageBytes, device: Device)
    requires Sound(ops, page, ops.idOf(page)) && ops.idOf(page) !in pool.frames && pool.clock < 2
    requires !AllPinned(pool.frames) ==> 0 in pool.frames
    requires EnsureCapacity(ops, pool, 0, device) == (pool.(frames := map[]), Done)
    ensures var clock := pool.clock + 1;
            Install(ops, pool, page, false, 0, device)
            == (pool.(clock := clock, frames := map[ops.idOf(page) := Frame(page, 0, false, [clock])]), Done)
  {
  }

  lemma CleanInstall(ops: PageOps, w: World, page: PageBytes, device: Device)
    requires w.pool.disk == [] && w.pool.capacity == 1 && w.pool.durable == 0
    requires w.pool.writes == [] && w.guards == map[]
    requires Sound(ops, page, ops.idOf(page)) && ops.idOf(page) !in w.pool.frames && w.pool.clock < 2
    requires w.pool.frames == map[] || exists resident :: w == OneCleanPage(resident, 0, 1)
    ensures Enabled(w, InstallStep(page, false, 0, device))
    ensures Execute(ops, w, InstallStep(page, false, 0, device)).1 == Done
    ensures Next(ops, w, InstallStep(page, false, 0, device)) == OneCleanPage(page, ops.idOf(page), w.pool.clock + 1)
  {
    var step := InstallStep(page, false, 0, device);
    RoomForOne(ops, w.pool, device);
    InstallIntoOne(ops, w.pool, page, device);
    HistoryOfInstall(ops, w, step);
  }

  lemma HistoryOfInstall(ops: PageOps, w: World, step: Step)
    requires step.InstallStep? && Enabled(w, step) && ops.idOf(step.page) !in w.pool.frames && !step.dirty
    requires var (pool, outcome) := Execute(ops, w, step);
             outcome.Done? && pool.frames == map[ops.idOf(step.page) := Frame(step.page, 0, false, [pool.clock])]
    ensures NextTraces(ops, w, step) == map[ops.idOf(step.page) := [Execute(ops, w, step).0.clock]]
    ensures NextLoose(ops, w, step) == {ops.idOf(step.page)}
  {
    var (pool, outcome) := Execute(ops, w, step);
    var id := ops.idOf(step.page);
    assert pool.frames.Keys == {id} && Touches(ops, step, outcome, id);
    var traces := NextTraces(ops, w, step);
    assert traces.Keys == {id} && traces[id] == [pool.clock];
    assert id in InstalledClean(ops, step, outcome) && !pool.frames[id].dirty;
  }

  lemma NewPageIsSound(crc: Crc, id: U64)
    ensures Sound(SlottedOps(crc), NewPage(crc, id, 1), id) && SlottedOps(crc).idOf(NewPage(crc, id, 1)) == id
  {
    PageEdits.NewPageIsValid(crc, id, 1);
  }

  /** With room for one frame: page 0 is installed as clean over an empty file, and installing
      page 1 evicts it unwritten.  A client that saw page 0 finds it gone. */
  lemma CleanPageIsForgotten(crc: Crc, device: Device)
    ensures var ops, start := SlottedOps(crc), Pool([], 1, 0, map[], 0, []);
            var first := InstallStep(NewPage(crc, 0, 1), false, 0, device);
            var steps := [first, InstallStep(NewPage(crc, 1, 1), false, 0, device)];
            && Lawful(ops) && Fresh(start) && Legal(ops, start, [first]) && Legal(ops, start, steps)
            && View(Run(ops, start, [first]).pool, 0) == Some(NewPage(crc, 0, 1))
            && PageMap(ops, start, steps, 0) == Some(NewPage(crc, 0, 1))
            && View(Run(ops, start, steps).pool, 0) == None
  {
    var ops, start := SlottedOps(crc), Pool([], 1, 0, map[], 0, []);
    var p, q := NewPage(crc, 0, 1), NewPage(crc, 1, 1);
    NewPageIsSound(crc, 0);
    NewPageIsSound(crc, 1);
    SlottedPagesAreLawful(crc);
    TwoCleanInstalls(ops, start, p, q, device);
  }

  lemma FirstCleanInstall(ops: PageOps, start: Pool, p: PageBytes, device: Device)
    requires start == Pool([], 1, 0, map[], 0, []) && ops.idOf(p) == 0 && Sound(ops, p, 0)
    ensures var first := InstallStep(p, false, 0, device);
            && Legal(ops, start, [first]) && Run(ops, start, [first]) == OneCleanPage(p, 0, 1)
            && PageMap(ops, start, [first], 0) == Some(p)
  {
    var first := InstallStep(p, false, 0, device);
    var nothing: seq<Step> := [];
    assert [first][..0] == nothing;
    assert Legal(ops, start, nothing) && Run(ops, start, nothing) == World(start, map[], map[], {});
    CleanInstall(ops, Run(ops, start, nothing), p, device);
  }

  lemma TwoCleanInstalls(ops: PageOps, start: Pool, p: PageBytes, q: PageBytes, device: Device)
    requires start == Pool([], 1, 0, map[], 0, []) && ops.idOf(p) == 0 && ops.idOf(q) == 1
    requires Sound(ops, p, 0) && Sound(ops, q, 1)
    ensures var first := InstallStep(p, false, 0, device);
            var steps := [first, InstallStep(q, false, 0, device)];
            && Legal(ops, start, [first]) && Legal(ops, start, steps)
            && View(Run(ops, start, [first]).pool, 0) == Some(p)
            && PageMap(ops, start, steps, 0) == Some(p) && View(Run(ops, start, steps).pool, 0) == None
  {
    var first, second := InstallStep(p, false, 0, device), InstallStep(q, false, 0, device);
    FirstCleanInstall(ops, start, p, device);
    assert [first, second][..1] == [first];
    CleanInstall(ops, Run(ops, start, [first]), q, device);
    assert Run(ops, start, [first, second]) == OneCleanPage(q, 1, 2);
  }
}

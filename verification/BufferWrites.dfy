/** What a step of the buffer pool hands to the disk: only dirty frames, only after the log,
    and every byte of the file that changes is accounted for. */
module BufferWrites {
  import opened Base
  import opened Page
  import opened PageFile
  import opened Buffer
  import opened BufferRuns

  // What the barrier may have answered, and whether no write failed.
  datatype Answers = Answers(lsns: iset<nat>, allWhole: bool)

  ghost function Both(a: Answers, b: Answers): Answers {
    Answers(a.lsns + b.lsns, a.allWhole && b.allWhole)
  }

  ghost function DeviceAnswers(device: Device): Answers {
    Answers(iset lsn: U64 | device.barrier(lsn).Ok? :: device.barrier(lsn).value, device.write.WriteOk?)
  }

  ghost function AllAnswers(devices: U64 -> Device): Answers {
    Answers(iset id: U64, lsn: U64 | devices(id).barrier(lsn).Ok? :: devices(id).barrier(lsn).value,
            forall id :: devices(id).write.WriteOk?)
  }

  ghost function StepAnswers(step: Step): Answers {
    match step
    case FetchStep(_, _, device) => DeviceAnswers(device)
    case InstallStep(_, _, _, device) => DeviceAnswers(device)
    case FlushStep(_, device) => DeviceAnswers(device)
    case FlushAllStep(devices) => AllAnswers(devices)
    case _ => Answers(iset{}, true)
  }

  function Added(before: Pool, after: Pool): seq<Written>
    requires before.writes <= after.writes
  {
    after.writes[|before.writes|..]
  }

  /** The log is known durable through `lsn` because it was before or because the barrier said so. */
  ghost predicate Known(durable: nat, answers: Answers, lsn: nat) {
    lsn == durable || lsn in answers.lsns
  }

  /** Only frames that were dirty are written, as they were, each when the log was known
      durable through its LSN; and these writes explain every byte of the disk. */
  ghost predicate Accounts(ops: PageOps, before: Pool, after: Pool, answers: Answers) {
    && before.writes <= after.writes
    && before.durable <= after.durable && Known(before.durable, answers, after.durable)
    && LoggedFirst(ops, Added(before, after), after.durable)
    && WritesExplain(before.disk, Added(before, after), after.disk)
    && forall w | w in Added(before, after) ::
         && w.id in before.frames && before.frames[w.id].dirty && w.page == before.frames[w.id].page
         && Known(before.durable, answers, w.durable) && (answers.allWhole ==> w.whole)
  }

  lemma {:induction false} LastWriteOfBoth(first: seq<Written>, second: seq<Written>, id: nat)
    ensures LastWrite(first + second, id)
         == if LastWrite(second, id).Some? then LastWrite(second, id) else LastWrite(first, id)
  {
    if second == [] {
      assert first + second == first;
    } else {
      assert (first + second)[..|first + second| - 1] == first + second[..|second| - 1];
      LastWriteOfBoth(first, second[..|second| - 1], id);
    }
  }

  lemma WritesExplainBoth(before: Bytes, first: seq<Written>, middle: Bytes, second: seq<Written>, after: Bytes)
    requires WritesExplain(before, first, middle) && WritesExplain(middle, second, after)
    ensures WritesExplain(before, first + second, after)
  {
    forall id: nat
      ensures match LastWrite(first + second, id)
              case None => Extent(after, id) == Extent(before, id)
              case Some(w) => w.whole ==> Extent(after, id) == w.page
    {
      LastWriteOfBoth(first, second, id);
    }
  }

  /** What is dirty in `after` was dirty in `before`, with the same page. */
  ghost predicate NothingNewlyDirty(before: Pool, after: Pool) {
    forall id | id in after.frames && after.frames[id].dirty ::
      id in before.frames && before.frames[id].dirty && before.frames[id].page == after.frames[id].page
  }

  lemma AccountsBoth(ops: PageOps, a: Pool, b: Pool, c: Pool, answers: Answers)
    requires Accounts(ops, a, b, answers) && Accounts(ops, b, c, answers) && NothingNewlyDirty(a, b)
    ensures Accounts(ops, a, c, answers)
  {
    assert Added(a, c) == Added(a, b) + Added(b, c);
    WritesExplainBoth(a.disk, Added(a, b), b.disk, Added(b, c), c.disk);
  }

  lemma NothingWritten(ops: PageOps, before: Pool, after: Pool, answers: Answers)
    requires after.disk == before.disk && after.writes == before.writes && after.durable == before.durable
    ensures Accounts(ops, before, after, answers)
  {
    assert Added(before, after) == [];
  }

  /** A refused barrier leaves the disk alone; an allowed write changes no byte outside its page. */
  lemma WriteBackAccounts(ops: PageOps, pool: Pool, id: U64, device: Device)
    requires Lawful(ops) && FramesSound(ops, pool) && id in pool.frames && pool.frames[id].dirty
    ensures Accounts(ops, pool, WriteBack(ops, pool, pool.frames[id].page, device).0, DeviceAnswers(device))
  {
    var page := pool.frames[id].page;
    var after := WriteBack(ops, pool, page, device).0;
    assert Sound(ops, page, id);
    if after.writes == pool.writes {
      assert Added(pool, after) == [];
    } else {
      var w := Written(id, page, after.durable, device.write.WriteOk?);
      assert Added(pool, after) == [w];
      WriteExplained(pool.disk, w, device.write);
    }
  }

  lemma WriteExplained(disk: Bytes, w: Written, answer: WriteAnswer)
    requires Writable(disk, w.id) && w.whole == answer.WriteOk?
    ensures w.id * PAGE_SIZE <= |disk|
    ensures WritesExplain(disk, [w], WriteAt(disk, w.id * PAGE_SIZE, BytesWritten(w.page, answer)))
  {
    var data := BytesWritten(w.page, answer);
    WritePage(disk, w.id, data);
    var after := WriteAt(disk, w.id * PAGE_SIZE, data);
    forall id: nat
      ensures match LastWrite([w], id)
              case None => Extent(after, id) == Extent(disk, id)
              case Some(last) => last.whole ==> Extent(after, id) == last.page
    {
      if id != w.id {
        assert LastWrite([w], id) == None;
        WriteKeepsOtherExtents(disk, w.id, data, id);
      } else if w.whole {
        WholeExtentIsPage(after, id);
      }
    }
  }

  lemma FlushPageAccounts(ops: PageOps, pool: Pool, id: U64, device: Device)
    requires Lawful(ops) && FramesSound(ops, pool)
    ensures var after := FlushPage(ops, pool, id, device).0;
            && Accounts(ops, pool, after, DeviceAnswers(device)) && NothingNewlyDirty(pool, after)
            && FramesSound(ops, after)
  {
    if id in pool.frames && pool.frames[id].dirty {
      WriteBackAccounts(ops, pool, id, device);
      assert WriteBack(ops, pool, pool.frames[id].page, device).0.frames == pool.frames;
    } else {
      NothingWritten(ops, pool, pool, DeviceAnswers(device));
    }
  }

  lemma MoreAnswersAccount(ops: PageOps, before: Pool, after: Pool, few: Answers, many: Answers)
    requires Accounts(ops, before, after, few) && few.lsns <= many.lsns && (many.allWhole ==> few.allWhole)
    ensures Accounts(ops, before, after, many)
  {
  }

  lemma {:induction false} FlushAscendingAccounts(ops: PageOps, pool: Pool, ids: set<U64>, devices: U64 -> Device)
    requires Lawful(ops) && FramesSound(ops, pool)
    ensures Accounts(ops, pool, FlushAscending(ops, pool, ids, devices).0, AllAnswers(devices))
    decreases |ids|
  {
    if ids == {} {
      NothingWritten(ops, pool, pool, AllAnswers(devices));
    } else {
      var id: U64 := Least(ids);
      var (after, outcome) := FlushPage(ops, pool, id, devices(id));
      FlushPageAccounts(ops, pool, id, devices(id));
      MoreAnswersAccount(ops, pool, after, DeviceAnswers(devices(id)), AllAnswers(devices));
      if outcome.Done? {
        FlushAscendingAccounts(ops, after, ids - {id}, devices);
        AccountsBoth(ops, pool, after, FlushAscending(ops, after, ids - {id}, devices).0, AllAnswers(devices));
      }
    }
  }

  lemma EnsureCapacityAccounts(ops: PageOps, pool: Pool, victim: U64, device: Device)
    requires Lawful(ops) && FramesSound(ops, pool) && (!AllPinned(pool.frames) ==> victim in pool.frames)
    ensures Accounts(ops, pool, EnsureCapacity(ops, pool, victim, device).0, DeviceAnswers(device))
  {
    if |pool.frames| >= pool.capacity && !AllPinned(pool.frames) && pool.frames[victim].dirty {
      WriteBackAccounts(ops, pool, victim, device);
    } else {
      NothingWritten(ops, pool, EnsureCapacity(ops, pool, victim, device).0, DeviceAnswers(device));
    }
  }

  /** Frames and clock of the later pool do not matter. */
  lemma SameFileSameAccounts(ops: PageOps, before: Pool, after: Pool, other: Pool, answers: Answers)
    requires Accounts(ops, before, after, answers)
    requires other.disk == after.disk && other.writes == after.writes && other.durable == after.durable
    ensures Accounts(ops, before, other, answers)
  {
  }

  lemma FetchAccounts(ops: PageOps, pool: Pool, id: U64, victim: U64, device: Device)
    requires Lawful(ops) && FramesSound(ops, pool) && (!AllPinned(pool.frames) ==> victim in pool.frames)
    ensures Accounts(ops, pool, Fetch(ops, pool, id, victim, device).0, DeviceAnswers(device))
  {
    var after := Fetch(ops, pool, id, victim, device).0;
    if id in pool.frames {
      NothingWritten(ops, pool, after, DeviceAnswers(device));
    } else {
      var ticked := pool.(clock := Tick(pool.clock));
      EnsureCapacityAccounts(ops, ticked, victim, device);
      SameFileSameAccounts(ops, ticked, EnsureCapacity(ops, ticked, victim, device).0, after, DeviceAnswers(device));
    }
  }

  lemma InstallAccounts(ops: PageOps, pool: Pool, page: PageBytes, dirty: bool, victim: U64, device: Device)
    requires Lawful(ops) && FramesSound(ops, pool) && (!AllPinned(pool.frames) ==> victim in pool.frames)
    ensures Accounts(ops, pool, Install(ops, pool, page, dirty, victim, device).0, DeviceAnswers(device))
  {
    var after := Install(ops, pool, page, dirty, victim, device).0;
    if ops.check(page, ops.idOf(page)).Done? && ops.idOf(page) !in pool.frames {
      EnsureCapacityAccounts(ops, pool, victim, device);
      SameFileSameAccounts(ops, pool, EnsureCapacity(ops, pool, victim, device).0, after, DeviceAnswers(device));
    } else {
      NothingWritten(ops, pool, after, DeviceAnswers(device));
    }
  }

  /** Whatever a step does to the bytes of the file, it wrote dirty frames behind the log. */
  lemma StepAccounts(ops: PageOps, w: World, step: Step)
    requires Lawful(ops) && FramesSound(ops, w.pool) && Enabled(w, step)
    ensures Accounts(ops, w.pool, Execute(ops, w, step).0, StepAnswers(step))
  {
    match step
    case FetchStep(id, victim, device) => FetchAccounts(ops, w.pool, id, victim, device);
    case InstallStep(page, dirty, victim, device) => InstallAccounts(ops, w.pool, page, dirty, victim, device);
    case FlushStep(id, device) => FlushPageAccounts(ops, w.pool, id, device);
    case FlushAllStep(devices) => FlushAscendingAccounts(ops, w.pool, w.pool.frames.Keys, devices);
    case _ => NothingWritten(ops, w.pool, Execute(ops, w, step).0, StepAnswers(step));
  }

  lemma {:induction false} LastWriteIsListed(writes: seq<Written>, id: nat)
    requires LastWrite(writes, id).Some?
    ensures LastWrite(writes, id).value in writes && LastWrite(writes, id).value.id == id
  {
    if writes[|writes| - 1].id != id {
      LastWriteIsListed(writes[..|writes| - 1], id);
    }
  }

  /** A step that changes a byte of page `id` on disk, or the length of the file there, wrote
      the frame of `id`, which was dirty, when the log was known durable through its LSN. */
  lemma ChangedBytesWereWritten(ops: PageOps, w: World, step: Step, id: U64)
    requires Lawful(ops) && FramesSound(ops, w.pool) && Enabled(w, step)
    requires Extent(Execute(ops, w, step).0.disk, id) != Extent(w.pool.disk, id)
    ensures w.pool.writes <= Execute(ops, w, step).0.writes
    ensures id in w.pool.frames && w.pool.frames[id].dirty
    ensures exists written | written in Added(w.pool, Execute(ops, w, step).0) ::
              && written.id == id && written.page == w.pool.frames[id].page
              && ops.lsnOf(written.page) <= written.durable && Known(w.pool.durable, StepAnswers(step), written.durable)
  {
    StepAccounts(ops, w, step);
    var added := Added(w.pool, Execute(ops, w, step).0);
    assert LastWrite(added, id).Some?;
    LastWriteIsListed(added, id);
  }
}

/** The buffer pool as the program runs it: fields changed in place by each call under the
    pool's lock.  Every method is proved to do what its specification in module Buffer says. */
module BufferService {
  import opened Base
  import opened Page
  import opened PageFile
  import Buffer
  import opened BufferRuns

  type Frame = Buffer.Frame

  class BufferPool {
    const ops: Buffer.PageOps
    var disk: Bytes
    var capacity: nat
    var clock: U64
    var frames: map<U64, Frame>
    var durable: nat
    ghost var writes: seq<Buffer.Written>

    ghost function State(): Buffer.Pool
      reads this
    {
      Buffer.Pool(disk, capacity, clock, frames, durable, writes)
    }

    constructor (ops: Buffer.PageOps, disk: Bytes, capacity: nat, durable: nat)
      requires 0 < capacity
      ensures this.ops == ops
      ensures State() == Buffer.Pool(disk, capacity, 0, map[], durable, [])
      ensures Buffer.PoolInv(ops, State(), {})
    {
      this.ops := ops;
      this.disk, this.capacity, clock := disk, capacity, 0;
      frames, this.durable, writes := map[], durable, [];
    }

    // ---- the disk manager ----

    method ReadPage(id: U64) returns (result: Result<PageBytes>)
      ensures result == Buffer.DiskRead(ops, disk, id)
    {
      if |disk| % PAGE_SIZE != 0 { return Err("XX001"); }
      var count := |disk| / PAGE_SIZE;
      if count <= id { return Err("XX001"); }
      var page := PageAt(disk, id);
      var checked := ops.check(page, id);
      match checked
      case Done => result := Ok(page);
      case Failed(state) => result := Err(state);
    }

    /** Flushing the log through the page's LSN and then writing the page: the shared tail of
        a flush and of an eviction. */
    method WriteBack(page: PageBytes, device: Buffer.Device) returns (outcome: Outcome)
      modifies this`disk, this`durable, this`writes
      ensures (State(), outcome) == Buffer.WriteBack(ops, old(State()), page, device)
    {
      var lsn, id := ops.lsnOf(page), ops.idOf(page);
      var answer := device.barrier(lsn);
      if answer.Err? { return Failed(answer.state); }
      durable := Buffer.Max(durable, answer.value);
      var checked := ops.check(page, id);
      if checked.Failed? { return checked; }
      if |disk| % PAGE_SIZE != 0 || |disk| / PAGE_SIZE < id { return Failed("XX001"); }
      var written: Bytes := page;
      if device.write.WriteFails? {
        written := device.write.torn;
        if PAGE_SIZE < |written| { written := written[..PAGE_SIZE]; }
      }
      disk := WriteAt(disk, id * PAGE_SIZE, written);
      writes := writes + [Buffer.Written(id, page, durable, device.write.WriteOk?)];
      outcome := if device.write.WriteOk? then Done else Failed("58030");
    }

    // ---- replacement ----

    /** One pass over the frames in page order, keeping the best unpinned one. */
    method ChooseVictim() returns (victim: Option<U64>)
      ensures victim.None? <==> Buffer.AllPinned(frames)
      ensures victim.Some? ==> Buffer.IsVictim(frames, victim.value)
    {
      victim := None;
      var remaining := frames.Keys;
      while remaining != {}
        invariant remaining <= frames.Keys
        invariant victim.None? ==> forall id | id in frames.Keys - remaining :: frames[id].pinCount != 0
        invariant victim.Some? ==> victim.value in frames && frames[victim.value].pinCount == 0
        invariant victim.Some? ==>
          forall id | id in frames.Keys - remaining && frames[id].pinCount == 0 ::
            Buffer.EvictsBefore(frames[victim.value].history, victim.value, frames[id].history, id)
        decreases |remaining|
      {
        var id: U64 := Least(remaining);
        if frames[id].pinCount == 0 {
          if victim.None? || !Buffer.EvictsBefore(frames[victim.value].history, victim.value, frames[id].history, id) {
            victim := Some(id);
          }
        }
        remaining := remaining - {id};
      }
    }

    /** Taking the victim out, writing it back if it is dirty, and putting it back when that
        fails. */
    method EnsureCapacity(device: Buffer.Device) returns (outcome: Outcome, ghost victim: U64)
      modifies this`disk, this`durable, this`writes, this`frames
      ensures !Buffer.AllPinned(old(frames)) ==> victim in old(frames)
      ensures old(capacity) <= |old(frames)| && !Buffer.AllPinned(old(frames)) ==> Buffer.IsVictim(old(frames), victim)
      ensures (State(), outcome) == Buffer.EnsureCapacity(ops, old(State()), victim, device)
    {
      ghost var before := State();
      victim := 0;
      if !Buffer.AllPinned(frames) {
        victim :| victim in frames;
      }
      if |frames| < capacity { return Done, victim; }
      var choice := ChooseVictim();
      if choice.None? { return Failed("53000"), victim; }
      victim := choice.value;
      var frame := frames[choice.value];
      frames := frames - {choice.value};
      if frame.dirty {
        outcome := WriteBack(frame.page, device);
        if outcome.Failed? {
          frames := frames[choice.value := frame];
          assert frames == before.frames;
          return;
        }
      }
      outcome := Done;
    }

    // ---- the calls a client makes ----

    method Fetch(id: U64, device: Buffer.Device) returns (outcome: Outcome, ghost victim: U64)
      modifies this`disk, this`durable, this`writes, this`frames, this`clock
      ensures !Buffer.AllPinned(old(frames)) ==> victim in old(frames)
      ensures id !in old(frames) && old(capacity) <= |old(frames)| && !Buffer.AllPinned(old(frames)) ==>
                Buffer.IsVictim(old(frames), victim)
      ensures (State(), outcome) == Buffer.Fetch(ops, old(State()), id, victim, device)
    {
      clock := Buffer.Tick(clock);
      var access := clock;
      if id in frames {
        victim := id;
        var frame := frames[id];
        frames := frames[id := frame.(pinCount := frame.pinCount + 1,
                                      history := Buffer.RecordAccess(frame.history, access))];
        return Done, victim;
      }
      outcome, victim := EnsureCapacity(device);
      if outcome.Failed? { return; }
      var read := ReadPage(id);
      match read
      case Err(state) => outcome := Failed(state);
      case Ok(page) => frames := frames[id := Buffer.Frame(page, 1, false, [access])];
    }

    method Install(page: PageBytes, dirty: bool, device: Buffer.Device) returns (outcome: Outcome, ghost victim: U64)
      modifies this`disk, this`durable, this`writes, this`frames, this`clock
      ensures !Buffer.AllPinned(old(frames)) ==> victim in old(frames)
      ensures outcome.Done? && old(capacity) <= |old(frames)| ==> Buffer.IsVictim(old(frames), victim)
      ensures (State(), outcome) == Buffer.Install(ops, old(State()), page, dirty, victim, device)
    {
      victim := 0;
      if !Buffer.AllPinned(frames) {
        victim :| victim in frames;
      }
      var id := ops.idOf(page);
      outcome := ops.check(page, id);
      if outcome.Failed? { return; }
      if id in frames { return Failed("55000"), victim; }
      outcome, victim := EnsureCapacity(device);
      if outcome.Failed? { return; }
      clock := Buffer.Tick(clock);
      frames := frames[id := Buffer.Frame(page, 0, dirty, [clock])];
    }

    method FlushPage(id: U64, device: Buffer.Device) returns (outcome: Outcome)
      modifies this`disk, this`durable, this`writes, this`frames
      ensures (State(), outcome) == Buffer.FlushPage(ops, old(State()), id, device)
      ensures frames.Keys == old(frames.Keys)
    {
      if id !in frames { return Failed("XX001"); }
      if !frames[id].dirty { return Done; }
      var page := frames[id].page;
      outcome := WriteBack(page, device);
      if outcome.Failed? { return; }
      frames := frames[id := frames[id].(dirty := false)];
      outcome := Done;
    }

    /** Flushing every resident page in ascending page order, up to the first failure. */
    method FlushAll(devices: U64 -> Buffer.Device) returns (outcome: Outcome)
      modifies this`disk, this`durable, this`writes, this`frames
      ensures (State(), outcome) == Buffer.FlushAll(ops, old(State()), devices)
    {
      ghost var all := Buffer.FlushAll(ops, State(), devices);
      var remaining := frames.Keys;
      while remaining != {}
        invariant Buffer.FlushAscending(ops, State(), remaining, devices) == all
        decreases |remaining|
      {
        var id: U64 := Least(remaining);
        outcome := FlushPage(id, devices(id));
        if outcome.Failed? { return; }
        remaining := remaining - {id};
      }
      outcome := Done;
    }

    method Replace(id: U64, page: PageBytes) returns (outcome: Outcome)
      modifies this`frames
      ensures (State(), outcome) == Buffer.Replace(ops, old(State()), id, page)
    {
      if ops.idOf(page) != id { return Failed("22023"); }
      outcome := ops.check(page, id);
      if outcome.Failed? { return; }
      if id !in frames { return Failed("XX000"); }
      frames := frames[id := frames[id].(page := page, dirty := true)];
    }

    method InsertRecord(id: U64, record: Bytes) returns (outcome: Outcome)
      modifies this`frames
      ensures (State(), outcome) == Buffer.InsertRecord(ops, old(State()), id, record)
    {
      if id !in frames { return Failed("XX000"); }
      var grown := ops.insert(frames[id].page, record);
      if grown.Some? {
        frames := frames[id := frames[id].(page := grown.value)];
        frames := frames[id := frames[id].(dirty := true)];
      }
      outcome := Done;
      assert grown.Some? ==> frames == old(frames)[id := old(frames)[id].(page := grown.value, dirty := true)];
    }

    method MarkDirty(id: U64) returns (outcome: Outcome)
      modifies this`frames
      ensures (State(), outcome) == Buffer.MarkDirty(old(State()), id)
    {
      if id !in frames { return Failed("XX000"); }
      frames := frames[id := frames[id].(dirty := true)];
      outcome := Done;
    }

    /** Dropping a guard. */
    method Unpin(id: U64)
      modifies this`frames
      ensures State() == Buffer.Unpin(old(State()), id)
    {
      if id in frames {
        var pins := frames[id].pinCount;
        frames := frames[id := frames[id].(pinCount := if pins == 0 then 0 else pins - 1)];
      }
    }
  }
}

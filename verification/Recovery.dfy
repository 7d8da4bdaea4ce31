/** Replaying planned page images into a data file that may be torn: each operation of the
    recovery file, the replay driver, and its convergence across crashes. */
module Recovery {
  import opened Base
  import opened Page
  import opened PageFile

  datatype Plan = Plan(target: nat, updates: set<nat>)

  function TargetLength(pages: nat): Result<nat> {
    if pages * PAGE_SIZE < U64_LIMIT then Ok(pages * PAGE_SIZE) else Err("XX001")
  }

  function Open(plan: Plan, file: Bytes): Outcome {
    if HasPartialTail(file) && CompletePages(file) < plan.target
       && CompletePages(file) !in plan.updates then Failed("XX001")
    else if TargetLength(plan.target).Err? then Failed("XX001")
    else Done
  }

  function ReadPage(crc: Crc, plan: Plan, file: Bytes, id: U64): Result<Option<PageBytes>> {
    var complete := CompletePages(file);
    if id >= complete then
      if id in plan.updates then Ok(None) else Err("XX001")
    else match FromBytes(crc, PageAt(file, id), id)
      case Ok(page) => Ok(Some(page))
      case Err(state) => if id in plan.updates then Ok(None) else Err(state)
  }

  function ApplyPage(crc: Crc, plan: Plan, file: Bytes, page: PageBytes): (Bytes, Outcome) {
    var id := PageId(page);
    match Check(crc, page, id)
    case Failed(state) => (file, Failed(state))
    case Done =>
      if id !in plan.updates || CompletePages(file) < id || TargetLength(id).Err? then (file, Failed("XX001"))
      else (WriteAt(file, id * PAGE_SIZE, page), Done)
  }

  function ResizePages(file: Bytes, pages: nat): (Bytes, Outcome) {
    match TargetLength(pages)
    case Ok(length) => (Resize(file, length), Done)
    case Err(state) => (file, Failed(state))
  }

  predicate AllPagesValid(crc: Crc, file: Bytes) {
    forall id | 0 <= id < CompletePages(file) && id < U64_LIMIT :: ValidPage(crc, PageAt(file, id), id)
  }

  /** The file handle recovery works through.  Its plan never changes. */
  class RecoveryDataFile {
    const crc: Crc
    const plan: Plan
    var file: Bytes

    constructor (crc: Crc, plan: Plan, file: Bytes)
      requires Open(plan, file) == Done
      ensures this.crc == crc && this.plan == plan && this.file == file
    {
      this.crc, this.plan, this.file := crc, plan, file;
    }

    method Read(id: U64) returns (page: Result<Option<PageBytes>>)
      ensures page == ReadPage(crc, plan, file, id)
    {
      var complete := CompletePages(file);
      if id >= complete {
        if id == complete && HasPartialTail(file) && id in plan.updates {
          return Ok(None);
        }
        var logical := complete + if HasPartialTail(file) then 1 else 0;
        if id >= logical && id in plan.updates {
          return Ok(None);
        }
        return Err("XX001");
      }
      var decoded := FromBytes(crc, PageAt(file, id), id);
      match decoded
      case Ok(image) => return Ok(Some(image));
      case Err(state) =>
        if id in plan.updates {
          return Ok(None);
        }
        return Err(state);
    }

    method Apply(page: PageBytes) returns (outcome: Outcome)
      modifies this
      ensures (file, outcome) == ApplyPage(crc, plan, old(file), page)
    {
      var id := PageId(page);
      var checked := Check(crc, page, id);
      if checked.Failed? {
        return checked;
      }
      if id !in plan.updates || CompletePages(file) < id {
        return Failed("XX001");
      }
      if id * PAGE_SIZE >= U64_LIMIT {
        return Failed("XX001");
      }
      file := WriteAt(file, id * PAGE_SIZE, page);
      return Done;
    }

    method Resize(pages: nat) returns (outcome: Outcome)
      modifies this
      ensures (file, outcome) == ResizePages(old(file), pages)
    {
      var length := TargetLength(pages);
      match length
      case Ok(bytes) =>
        file := PageFile.Resize(file, bytes);
        return Done;
      case Err(state) => return Failed(state);
    }

    /** Recovery finishes exactly when the file holds the target number of pages, no partial
        tail, and every page is valid and carries its own position as its identity. */
    method Finish() returns (outcome: Outcome)
      requires TargetLength(plan.target).Ok?
      ensures outcome.Done? <==>
              !HasPartialTail(file) && CompletePages(file) == plan.target && AllPagesValid(crc, file)
    {
      if HasPartialTail(file) || CompletePages(file) != plan.target {
        return Failed("XX001");
      }
      var id := 0;
      while id < CompletePages(file)
        invariant id <= CompletePages(file)
        invariant forall earlier | 0 <= earlier < id :: ValidPage(crc, PageAt(file, earlier), earlier)
      {
        var decoded := FromBytes(crc, PageAt(file, id), id);
        if decoded.Err? {
          return Failed(decoded.state);
        }
        id := id + 1;
      }
      return Done;
    }

    /** The replay: every planned page below the target in ascending order, then the resize. */
    method Replay(images: map<nat, PageBytes>) returns (outcome: Outcome)
      requires ImagesFit(crc, plan, images) && TargetLength(plan.target).Ok?
      modifies this
      ensures (file, outcome) == ReplayAll(crc, plan, images, old(file))
    {
      ghost var before := file;
      var id := 0;
      while id < plan.target
        invariant id <= plan.target
        invariant (file, Done) == ReplayUpTo(crc, plan, images, before, id)
      {
        if id in plan.updates {
          outcome := Apply(images[id]);
          if outcome.Failed? {
            FailureSticks(crc, plan, images, before, id + 1, plan.target);
            return;
          }
        }
        id := id + 1;
      }
      outcome := Resize(plan.target);
    }
  }

  // ---- the replay as a function ----

  ghost predicate ImagesFit(crc: Crc, plan: Plan, images: map<nat, PageBytes>) {
    forall id | id in plan.updates && id < plan.target ::
      id in images && id < U64_LIMIT && ValidPage(crc, images[id], id)
  }

  ghost function ReplayUpTo(crc: Crc, plan: Plan, images: map<nat, PageBytes>, file: Bytes, n: nat): (Bytes, Outcome)
    requires ImagesFit(crc, plan, images) && n <= plan.target
  {
    if n == 0 then (file, Done)
    else
      var (before, outcome) := ReplayUpTo(crc, plan, images, file, n - 1);
      if outcome.Failed? || n - 1 !in plan.updates then (before, outcome)
      else ApplyPage(crc, plan, before, images[n - 1])
  }

  ghost function ReplayAll(crc: Crc, plan: Plan, images: map<nat, PageBytes>, file: Bytes): (Bytes, Outcome)
    requires ImagesFit(crc, plan, images)
  {
    var (replayed, outcome) := ReplayUpTo(crc, plan, images, file, plan.target);
    if outcome.Failed? then (replayed, outcome) else ResizePages(replayed, plan.target)
  }

  lemma {:induction false} FailureSticks(crc: Crc, plan: Plan, images: map<nat, PageBytes>, file: Bytes, n: nat, m: nat)
    requires ImagesFit(crc, plan, images) && n <= m <= plan.target
    requires ReplayUpTo(crc, plan, images, file, n).1.Failed?
    ensures ReplayUpTo(crc, plan, images, file, m) == ReplayUpTo(crc, plan, images, file, n)
    decreases m - n
  {
    if n < m {
      FailureSticks(crc, plan, images, file, n, m - 1);
    }
  }

  /** What opening and reading answer.  A file is refused if its partial tail lies in a page that is
      wanted but not planned.  A page that is there and valid is read as it is; one that is missing or
      damaged reads as absent if it is planned and is refused otherwise. */
  lemma OpensAndReadsIff(crc: Crc, plan: Plan, file: Bytes, id: U64)
    ensures var whole := |file| / 8192;
            && (Open(plan, file).Done? <==>
                  && plan.target * 8192 < 0x1_0000_0000_0000_0000
                  && (|file| == whole * 8192 || plan.target <= whole || whole in plan.updates))
            && var page := ReadPage(crc, plan, file, id);
               if id < whole && ValidPage(crc, file[id * 8192..id * 8192 + 8192], id) then
                 page == Ok(Some(file[id * 8192..id * 8192 + 8192]))
               else if id in plan.updates then page == Ok(None)
               else page.Err?
  {
    assert |file| == |file| / 8192 * 8192 + |file| % 8192;
    if id < |file| / 8192 {
      assert PageAt(file, id) == file[id * 8192..id * 8192 + 8192];
    }
  }

  /** A page is applied exactly if it is valid, planned, and lies in the file or right behind its whole
      pages; then its bytes stand in their place, and no other byte of the file has changed. */
  lemma AppliesIff(crc: Crc, plan: Plan, file: Bytes, page: PageBytes)
    ensures var id: nat := PageId(page);
            var (after, outcome) := ApplyPage(crc, plan, file, page);
            && (outcome.Done? <==>
                  && ValidPage(crc, page, id) && id in plan.updates
                  && id <= |file| / 8192 && id * 8192 < 0x1_0000_0000_0000_0000)
            && (outcome.Failed? ==> after == file)
            && (outcome.Done? ==>
                  && id * 8192 <= |file| && after[..id * 8192] == file[..id * 8192]
                  && (id * 8192 + 8192 <= |file| ==>
                        after == file[..id * 8192] + page + file[id * 8192 + 8192..])
                  && (|file| < id * 8192 + 8192 ==> after == file[..id * 8192] + page))
  {
    assert |file| == |file| / 8192 * 8192 + |file| % 8192;
  }

  /** Resizing succeeds exactly if the length fits the machine word; the bytes up to the shorter length
      stay, and bytes that are added are zero. */
  lemma ResizesIff(file: Bytes, pages: nat)
    ensures var (after, outcome) := ResizePages(file, pages);
            && (outcome.Done? <==> pages * 8192 < 0x1_0000_0000_0000_0000)
            && (outcome.Failed? ==> after == file)
            && (outcome.Done? ==>
                  && |after| == pages * 8192
                  && forall k | 0 <= k < |after| :: after[k] == if k < |file| then file[k] else 0)
  {
  }

  // ---- convergence ----

  /** Every page below the target that the plan does not rewrite is complete and is the same
      as in the file recovery started from. */
  ghost predicate Recoverable(plan: Plan, origin: Bytes, file: Bytes) {
    forall id | 0 <= id < plan.target && id !in plan.updates ::
      id < CompletePages(origin) && id < CompletePages(file) && PageAt(file, id) == PageAt(origin, id)
  }

  ghost predicate Recovered(plan: Plan, images: map<nat, PageBytes>, origin: Bytes, file: Bytes)
    requires Recoverable(plan, origin, origin)
    requires forall id | id in plan.updates && id < plan.target :: id in images
  {
    && !HasPartialTail(file) && CompletePages(file) == plan.target
    && forall id | 0 <= id < plan.target ::
         PageAt(file, id) == if id in plan.updates then images[id] else PageAt(origin, id)
  }

  /** A write at a planned page, complete or torn, leaves the file recoverable. */
  lemma PlannedWriteKeepsRecoverable(plan: Plan, origin: Bytes, file: Bytes, id: nat, data: Bytes)
    requires Recoverable(plan, origin, file) && id in plan.updates && id <= CompletePages(file) && |data| <= PAGE_SIZE
    ensures id * PAGE_SIZE <= |file| && Recoverable(plan, origin, WriteAt(file, id * PAGE_SIZE, data))
  {
    WritePage(file, id, data);
  }

  lemma ResizeKeepsRecoverable(plan: Plan, origin: Bytes, file: Bytes)
    requires Recoverable(plan, origin, file)
    ensures Recoverable(plan, origin, Resize(file, plan.target * PAGE_SIZE))
  {
    ResizeKeepsPages(file, plan.target);
  }

  /** The first `n` pages are complete, the planned ones among them carry their images. */
  ghost predicate Progress(plan: Plan, images: map<nat, PageBytes>, origin: Bytes, file: Bytes, n: nat)
    requires n <= plan.target && forall id | id in plan.updates && id < plan.target :: id in images
  {
    && Recoverable(plan, origin, file) && n <= CompletePages(file)
    && forall id | 0 <= id < n && id in plan.updates :: PageAt(file, id) == images[id]
  }

  lemma ApplyProgresses(plan: Plan, images: map<nat, PageBytes>, origin: Bytes, file: Bytes, n: nat)
    requires n < plan.target && n in plan.updates && forall id | id in plan.updates && id < plan.target :: id in images
    requires Progress(plan, images, origin, file, n)
    ensures n * PAGE_SIZE <= |file|
    ensures Progress(plan, images, origin, WriteAt(file, n * PAGE_SIZE, images[n]), n + 1)
  {
    WritePage(file, n, images[n]);
    PlannedWriteKeepsRecoverable(plan, origin, file, n, images[n]);
  }

  lemma StepProgresses(plan: Plan, images: map<nat, PageBytes>, origin: Bytes, before: Bytes, after: Bytes, n: nat)
    requires n < plan.target && forall id | id in plan.updates && id < plan.target :: id in images
    requires Progress(plan, images, origin, before, n) && n * PAGE_SIZE <= |before|
    requires after == if n in plan.updates then WriteAt(before, n * PAGE_SIZE, images[n]) else before
    ensures Progress(plan, images, origin, after, n + 1)
  {
    if n in plan.updates {
      ApplyProgresses(plan, images, origin, before, n);
    }
  }

  lemma NextReplayStep(crc: Crc, plan: Plan, images: map<nat, PageBytes>, file: Bytes, n: nat, before: Bytes)
    requires ImagesFit(crc, plan, images) && TargetLength(plan.target).Ok? && n < plan.target
    requires ReplayUpTo(crc, plan, images, file, n) == (before, Done) && n <= CompletePages(before)
    ensures n * PAGE_SIZE <= |before|
    ensures ReplayUpTo(crc, plan, images, file, n + 1)
            == (if n in plan.updates then WriteAt(before, n * PAGE_SIZE, images[n]) else before, Done)
  {
  }

  lemma OneMorePageReplayed(crc: Crc, plan: Plan, images: map<nat, PageBytes>, origin: Bytes, file: Bytes, n: nat,
                            m: nat, before: Bytes)
    returns (replayed: Bytes)
    requires ImagesFit(crc, plan, images) && TargetLength(plan.target).Ok? && m == n + 1 && m <= plan.target
    requires ReplayUpTo(crc, plan, images, file, n) == (before, Done) && Progress(plan, images, origin, before, n)
    ensures ReplayUpTo(crc, plan, images, file, m) == (replayed, Done)
    ensures Progress(plan, images, origin, replayed, m)
  {
    NextReplayStep(crc, plan, images, file, n, before);
    replayed := if n in plan.updates then WriteAt(before, n * PAGE_SIZE, images[n]) else before;
    StepProgresses(plan, images, origin, before, replayed, n);
  }

  lemma NothingReplayedYet(crc: Crc, plan: Plan, images: map<nat, PageBytes>, origin: Bytes, file: Bytes)
    requires ImagesFit(crc, plan, images) && Recoverable(plan, origin, file)
    ensures ReplayUpTo(crc, plan, images, file, 0) == (file, Done) && Progress(plan, images, origin, file, 0)
  {
  }

  /** Replaying the first `n` pages of a recoverable file always succeeds. */
  lemma {:induction false} ReplayProgress(crc: Crc, plan: Plan, images: map<nat, PageBytes>, origin: Bytes, file: Bytes,
                                          n: nat)
    returns (replayed: Bytes)
    requires ImagesFit(crc, plan, images) && TargetLength(plan.target).Ok? && n <= plan.target
    requires Recoverable(plan, origin, file)
    ensures ReplayUpTo(crc, plan, images, file, n) == (replayed, Done)
    ensures Progress(plan, images, origin, replayed, n)
  {
    if n == 0 {
      replayed := file;
      NothingReplayedYet(crc, plan, images, origin, file);
    } else {
      var before := ReplayProgress(crc, plan, images, origin, file, n - 1);
      replayed := OneMorePageReplayed(crc, plan, images, origin, file, n - 1, n, before);
    }
  }

  /** From any recoverable file the replay succeeds and produces the recovered file. */
  lemma ReplayRecovers(crc: Crc, plan: Plan, images: map<nat, PageBytes>, origin: Bytes, file: Bytes)
    requires ImagesFit(crc, plan, images) && TargetLength(plan.target).Ok?
    requires Recoverable(plan, origin, origin) && Recoverable(plan, origin, file)
    ensures Open(plan, file) == Done
    ensures ReplayAll(crc, plan, images, file).1 == Done
    ensures Recovered(plan, images, origin, ReplayAll(crc, plan, images, file).0)
  {
    var replayed := ReplayProgress(crc, plan, images, origin, file, plan.target);
    ResizeKeepsPages(replayed, plan.target);
  }

  lemma RecoveredIsUnique(plan: Plan, images: map<nat, PageBytes>, origin: Bytes, a: Bytes, b: Bytes)
    requires Recoverable(plan, origin, origin)
    requires forall id | id in plan.updates && id < plan.target :: id in images
    requires Recovered(plan, images, origin, a) && Recovered(plan, images, origin, b)
    ensures a == b
  {
    PagesDetermineFile(a, b);
  }

  // A planned page whose write had not reached the disk whole, and the bytes it left there.
  datatype Damage = Damage(page: nat, torn: Bytes)

  // Where an attempt was cut short: after `pages` pages, or after the resize.  Nothing had been
  // synced, so any number of planned pages may be damaged, and the file may have lost whatever
  // it had grown by beyond `length`.
  datatype Crash = Crash(pages: nat, resized: bool, damage: seq<Damage>, length: nat)

  ghost predicate Possible(plan: Plan, crash: Crash) {
    && crash.pages <= plan.target
    && forall d | d in crash.damage :: d.page in plan.updates && |d.torn| <= PAGE_SIZE
  }

  function Damaged(file: Bytes, damage: seq<Damage>): Bytes {
    if damage == [] then file
    else
      var rest, last := Damaged(file, damage[..|damage| - 1]), damage[|damage| - 1];
      if last.page <= CompletePages(rest) then
        assert last.page * PAGE_SIZE <= |rest|;
        WriteAt(rest, last.page * PAGE_SIZE, last.torn)
      else rest
  }

  /** The file an interrupted attempt leaves behind. */
  ghost function Interrupted(crc: Crc, plan: Plan, images: map<nat, PageBytes>, file: Bytes, crash: Crash): Bytes
    requires ImagesFit(crc, plan, images) && Possible(plan, crash)
  {
    var reached := if crash.resized then ReplayAll(crc, plan, images, file).0
                   else ReplayUpTo(crc, plan, images, file, crash.pages).0;
    var damaged := Damaged(reached, crash.damage);
    if |file| <= crash.length < |damaged| then damaged[..crash.length] else damaged
  }

  ghost function AfterCrashes(crc: Crc, plan: Plan, images: map<nat, PageBytes>, file: Bytes,
                              crashes: seq<Crash>): Bytes
    requires ImagesFit(crc, plan, images) && forall crash | crash in crashes :: Possible(plan, crash)
  {
    if crashes == [] then file
    else
      var last := crashes[|crashes| - 1];
      assert last in crashes;
      Interrupted(crc, plan, images, AfterCrashes(crc, plan, images, file, crashes[..|crashes| - 1]), last)
  }

  lemma {:induction false} DamageKeepsRecoverable(plan: Plan, origin: Bytes, file: Bytes, damage: seq<Damage>)
    requires Recoverable(plan, origin, file)
    requires forall d | d in damage :: d.page in plan.updates && |d.torn| <= PAGE_SIZE
    ensures Recoverable(plan, origin, Damaged(file, damage))
  {
    if damage != [] {
      var front, last := damage[..|damage| - 1], damage[|damage| - 1];
      assert last in damage;
      DamageKeepsRecoverable(plan, origin, file, front);
      var rest := Damaged(file, front);
      if last.page <= CompletePages(rest) {
        PlannedWriteKeepsRecoverable(plan, origin, rest, last.page, last.torn);
      }
    }
  }

  lemma CutKeepsRecoverable(plan: Plan, origin: Bytes, start: Bytes, file: Bytes, length: nat)
    requires Recoverable(plan, origin, start) && Recoverable(plan, origin, file) && |start| <= length <= |file|
    ensures Recoverable(plan, origin, file[..length])
  {
    forall id: nat | id < plan.target && id !in plan.updates
      ensures id < CompletePages(file[..length]) && PageAt(file[..length], id) == PageAt(origin, id)
    {
      assert id < CompletePages(start) && PageAt(file, id) == PageAt(origin, id);
    }
  }

  lemma InterruptionKeepsRecoverable(crc: Crc, plan: Plan, images: map<nat, PageBytes>, origin: Bytes, file: Bytes,
                                     crash: Crash)
    requires ImagesFit(crc, plan, images) && TargetLength(plan.target).Ok? && Possible(plan, crash)
    requires Recoverable(plan, origin, file)
    ensures Recoverable(plan, origin, Interrupted(crc, plan, images, file, crash))
  {
    var reached := ReplayProgress(crc, plan, images, origin, file, if crash.resized then plan.target else crash.pages);
    if crash.resized {
      ResizeKeepsRecoverable(plan, origin, reached);
      reached := Resize(reached, plan.target * PAGE_SIZE);
    }
    DamageKeepsRecoverable(plan, origin, reached, crash.damage);
    var damaged := Damaged(reached, crash.damage);
    if |file| <= crash.length < |damaged| {
      CutKeepsRecoverable(plan, origin, file, damaged, crash.length);
    }
  }

  lemma {:induction false} CrashesKeepRecoverable(crc: Crc, plan: Plan, images: map<nat, PageBytes>, file: Bytes,
                                                  crashes: seq<Crash>)
    requires ImagesFit(crc, plan, images) && TargetLength(plan.target).Ok?
    requires forall crash | crash in crashes :: Possible(plan, crash)
    requires Recoverable(plan, file, file)
    ensures Recoverable(plan, file, AfterCrashes(crc, plan, images, file, crashes))
  {
    if crashes != [] {
      var front, last := crashes[..|crashes| - 1], crashes[|crashes| - 1];
      assert last in crashes;
      CrashesKeepRecoverable(crc, plan, images, file, front);
      InterruptionKeepsRecoverable(crc, plan, images, file, AfterCrashes(crc, plan, images, file, front), last);
    }
  }

  /** However often recovery is interrupted, and wherever, with any planned pages torn and any
      growth of the file lost, the next attempt under the same
      plan opens the file, replays without an error, ends with the very file an undisturbed
      run would have produced, and passes the final validation when the pages the plan
      leaves alone are valid. */
  lemma RecoveryConverges(crc: Crc, plan: Plan, images: map<nat, PageBytes>, file: Bytes, crashes: seq<Crash>)
    requires ImagesFit(crc, plan, images) && TargetLength(plan.target).Ok?
    requires forall crash | crash in crashes :: Possible(plan, crash)
    requires UnplannedPagesSound(crc, plan, file)
    ensures var torn := AfterCrashes(crc, plan, images, file, crashes);
            && Open(plan, torn) == Done
            && ReplayAll(crc, plan, images, torn) == ReplayAll(crc, plan, images, file)
            && ReplayAll(crc, plan, images, torn).1 == Done
    ensures var final := ReplayAll(crc, plan, images, file).0;
            !HasPartialTail(final) && CompletePages(final) == plan.target && AllPagesValid(crc, final)
  {
    var torn := AfterCrashes(crc, plan, images, file, crashes);
    CrashesKeepRecoverable(crc, plan, images, file, crashes);
    ReplayRecovers(crc, plan, images, file, torn);
    ReplayRecovers(crc, plan, images, file, file);
    RecoveredIsUnique(plan, images, file, ReplayAll(crc, plan, images, torn).0, ReplayAll(crc, plan, images, file).0);
  }

  // ---- when recovery can succeed at all ----

  /** A complete page the plan leaves alone is carried through; a page the file does not even
      begin is not begun by the replay either. */
  lemma {:induction false} UnplannedPageUntouched(crc: Crc, plan: Plan, images: map<nat, PageBytes>, file: Bytes,
                                                  id: nat, n: nat)
    requires ImagesFit(crc, plan, images) && id !in plan.updates && n <= plan.target
    ensures var replayed := ReplayUpTo(crc, plan, images, file, n).0;
            && (id < CompletePages(file) ==> id < CompletePages(replayed) && PageAt(replayed, id) == PageAt(file, id))
            && (|file| <= id * PAGE_SIZE ==> |replayed| <= id * PAGE_SIZE)
  {
    if 0 < n {
      UnplannedPageUntouched(crc, plan, images, file, id, n - 1);
      var (before, outcome) := ReplayUpTo(crc, plan, images, file, n - 1);
      if outcome.Done? && n - 1 in plan.updates && n - 1 <= CompletePages(before) {
        PlannedWriteLeavesPage(before, n - 1, images[n - 1], id);
      }
    }
  }

  lemma PlannedWriteLeavesPage(file: Bytes, planned: nat, image: PageBytes, id: nat)
    requires planned <= CompletePages(file) && planned != id
    ensures planned * PAGE_SIZE <= |file|
    ensures var written := WriteAt(file, planned * PAGE_SIZE, image);
            && (id < CompletePages(file) ==> id < CompletePages(written) && PageAt(written, id) == PageAt(file, id))
            && (|file| <= id * PAGE_SIZE ==> |written| <= id * PAGE_SIZE)
  {
    WritePage(file, planned, image);
  }

  /** A page that is valid after a resize was at least begun before it: the zeros a resize
      adds are no page. */
  lemma ValidPageWasBegun(crc: Crc, file: Bytes, count: nat, id: U64)
    requires id < count && id < CompletePages(Resize(file, count * PAGE_SIZE))
    requires ValidPage(crc, PageAt(Resize(file, count * PAGE_SIZE), id), id)
    ensures id * PAGE_SIZE < |file|
  {
    ResizeKeepsPages(file, count);
    var page := PageAt(Resize(file, count * PAGE_SIZE), id);
    assert page[..4][0] == page[0];
  }

  ghost predicate UnplannedPagesSound(crc: Crc, plan: Plan, file: Bytes) {
    forall id | 0 <= id < plan.target && id !in plan.updates ::
      id < CompletePages(file) && id < U64_LIMIT && ValidPage(crc, PageAt(file, id), id)
  }

  lemma SuccessMeansSound(crc: Crc, plan: Plan, images: map<nat, PageBytes>, file: Bytes, id: nat)
    requires ImagesFit(crc, plan, images) && TargetLength(plan.target).Ok? && id < plan.target && id !in plan.updates
    requires Open(plan, file) == Done && ReplayAll(crc, plan, images, file).1 == Done
    requires AllPagesValid(crc, ReplayAll(crc, plan, images, file).0)
    ensures id < CompletePages(file) && id < U64_LIMIT && ValidPage(crc, PageAt(file, id), id)
  {
    var replayed := ReplayUpTo(crc, plan, images, file, plan.target).0;
    ResizeKeepsPages(replayed, plan.target);
    ValidPageWasBegun(crc, replayed, plan.target, id);
    UnplannedPageUntouched(crc, plan, images, file, id, plan.target);
  }

  /** Opening, replaying and validating a file succeed together exactly when every page
      below the target that the plan does not rewrite is already complete and valid. */
  lemma RecoverySucceedsIffUnplannedSound(crc: Crc, plan: Plan, images: map<nat, PageBytes>, file: Bytes)
    requires ImagesFit(crc, plan, images) && TargetLength(plan.target).Ok?
    ensures UnplannedPagesSound(crc, plan, file) <==>
            && Open(plan, file) == Done && ReplayAll(crc, plan, images, file).1 == Done
            && AllPagesValid(crc, ReplayAll(crc, plan, images, file).0)
  {
    var (final, outcome) := ReplayAll(crc, plan, images, file);
    if UnplannedPagesSound(crc, plan, file) {
      RecoveryConverges(crc, plan, images, file, []);
    }
    if Open(plan, file) == Done && outcome == Done && AllPagesValid(crc, final) {
      forall id: nat | id < plan.target && id !in plan.updates
        ensures id < CompletePages(file) && id < U64_LIMIT && ValidPage(crc, PageAt(file, id), id)
      {
        SuccessMeansSound(crc, plan, images, file, id);
      }
    }
  }
}

/** Who holds and who waits, told by the run alone: a lock is held exactly from the call that was
    granted it to the release that drops it, and what a call is answered follows from that. */
module LockHistory {
  import opened Base
  import opened Deadlock
  import opened Locks
  import opened LockRuns
  import opened LockAborts
  import opened LockCycles

  // A request holds a lock on the key, or waits for one.
  datatype Fact = Held(key: LockKey, r: Request) | Waits(key: LockKey, r: Request)

  predicate Holds(s: State, f: Fact) {
    f.r in At(if f.Held? then s.granted else s.waiting, f.key)
  }

  /** A turn of the call that asks for `r` on `key`. */
  predicate IsTurnOf(w: World, step: Step, key: LockKey, r: Request) {
    match step
    case EnterStep(k, q, _, _) => k == key && q == r
    case WakeStep(id, _, _) => id in w.tickets && w.tickets[id] == Ticket(key, r)
    case _ => false
  }

  /** What a turn of a call is answered. */
  ghost function Answer(limit: nat, w: World, step: Step): Verdict
    requires Enabled(w, step) && (step.EnterStep? || step.WakeStep?)
  {
    match step
    case EnterStep(key, r, cancelled, expired) => Enter(limit, w.table, key, r, cancelled, expired).1
    case WakeStep(id, cancelled, expired) =>
      Poll(w.table, w.tickets[id].key, w.tickets[id].request, cancelled, expired).1
  }

  /** A lock is taken by being granted it, a place in the queue by being told to wait. */
  ghost predicate Sets(limit: nat, w: World, step: Step, f: Fact)
    requires Enabled(w, step)
  {
    && IsTurnOf(w, step, f.key, f.r)
    && match f
       case Held(_, _) => Answer(limit, w, step).Granted?
       case Waits(_, _) => step.EnterStep? && Answer(limit, w, step).Waiting?
  }

  /** Both end with the transaction; a lock also with its own release, a wait with any other answer. */
  ghost predicate Clears(limit: nat, w: World, step: Step, f: Fact)
    requires Enabled(w, step)
  {
    || step == ReleaseTransactionStep(f.r.txn)
    || match f
       case Held(key, r) => step == ReleaseRequestStep(key, r.id)
       case Waits(key, r) => step.WakeStep? && IsTurnOf(w, step, key, r) && !Answer(limit, w, step).Waiting?
  }

  lemma PollOnFact(w: World, id: nat, cancelled: bool, expired: bool, f: Fact)
    requires WaitersTicketed(w) && HoldersReturned(w) && id in w.tickets
    ensures var ticket := w.tickets[id];
            var (after, verdict) := Poll(w.table, ticket.key, ticket.request, cancelled, expired);
            Holds(after, f) <==>
              if Ticket(f.key, f.r) == ticket && !verdict.Waiting?
              then f.Held? && (Holds(w.table, f) || verdict.Granted?)
              else Holds(w.table, f)
  {
    var ticket := w.tickets[id];
    AtRetain(w.table.waiting, ticket.key, ExceptId(id), f.key);
  }

  lemma EnqueueOnFact(s: State, key: LockKey, r: Request, f: Fact)
    ensures Holds(FlagVictim(Enqueue(s, key, r)), f) <==> Holds(s, f) || f == Waits(key, r)
  {
  }

  lemma QueuedOnFact(limit: nat, w: World, step: Step, f: Fact)
    requires Inv(w) && HoldersReturned(w) && Enabled(w, step) && Queued(limit, w, step)
    ensures Holds(Next(limit, w, step).table, f) <==> Holds(w.table, f) || Sets(limit, w, step, f)
  {
    var w1 := EnqueueWorld(w, step.key, step.request);
    EnqueuedTickets(w, step.key, step.request, w1);
    PollOnFact(w1, step.request.id, step.cancelled, step.expired, f);
    EnqueueOnFact(w.table, step.key, step.request, f);
    if f.r == step.request {
      NewcomerIsUnknown(w, step.request, f);
    }
  }

  lemma NewcomerIsUnknown(w: World, r: Request, f: Fact)
    requires WaitersTicketed(w) && HoldersReturned(w) && r.id !in w.used && f.r == r
    ensures !Holds(w.table, f)
  {
  }

  lemma EnterOnFact(limit: nat, w: World, step: Step, f: Fact)
    requires Inv(w) && HoldersReturned(w) && Enabled(w, step) && step.EnterStep?
    ensures Holds(Next(limit, w, step).table, f) <==> Holds(w.table, f) || Sets(limit, w, step, f)
  {
    if Queued(limit, w, step) {
      QueuedOnFact(limit, w, step, f);
    }
  }

  lemma ReleaseOnFact(limit: nat, w: World, step: Step, f: Fact)
    requires step.ReleaseTransactionStep? || step.ReleaseRequestStep?
    ensures Holds(Next(limit, w, step).table, f) <==> Holds(w.table, f) && !Clears(limit, w, step, f)
  {
    var queues := if f.Held? then w.table.granted else w.table.waiting;
    if step.ReleaseTransactionStep? {
      AtRetain(queues, f.key, ExceptTransaction(step.txn), f.key);
    } else {
      AtRetain(queues, step.key, ExceptId(step.id), f.key);
    }
  }

  lemma StepOnFact(limit: nat, w: World, step: Step, f: Fact)
    requires Inv(w) && HoldersReturned(w) && Enabled(w, step)
    ensures Holds(Next(limit, w, step).table, f) <==>
              (Holds(w.table, f) && !Clears(limit, w, step, f)) || Sets(limit, w, step, f)
  {
    match step
    case EnterStep(_, _, _, _) => EnterOnFact(limit, w, step, f);
    case WakeStep(id, cancelled, expired) => PollOnFact(w, id, cancelled, expired, f);
    case _ => ReleaseOnFact(limit, w, step, f);
  }

  // ---- over a run ----

  ghost predicate SetsAt(limit: nat, steps: seq<Step>, m: nat, f: Fact)
    requires m < |steps|
  {
    && Legal(limit, steps[..m]) && Enabled(Run(limit, steps[..m]), steps[m])
    && Sets(limit, Run(limit, steps[..m]), steps[m], f)
  }

  ghost predicate ClearsAt(limit: nat, steps: seq<Step>, m: nat, f: Fact)
    requires m < |steps|
  {
    && Legal(limit, steps[..m]) && Enabled(Run(limit, steps[..m]), steps[m])
    && Clears(limit, Run(limit, steps[..m]), steps[m], f)
  }

  ghost predicate Since(limit: nat, steps: seq<Step>, m: nat, f: Fact) {
    m < |steps| && SetsAt(limit, steps, m, f) && forall k | m < k < |steps| :: !ClearsAt(limit, steps, k, f)
  }

  ghost predicate Stands(limit: nat, steps: seq<Step>, f: Fact) {
    exists m :: Since(limit, steps, m, f)
  }

  lemma SinceGrows(limit: nat, front: seq<Step>, last: Step, m: nat, f: Fact)
    requires Legal(limit, front) && Enabled(Run(limit, front), last)
    ensures var w := Run(limit, front);
            Since(limit, front + [last], m, f) <==>
              || (Since(limit, front, m, f) && !Clears(limit, w, last, f))
              || (m == |front| && Sets(limit, w, last, f))
  {
    var steps := front + [last];
    assert steps[..|front|] == front;
    assert ClearsAt(limit, steps, |front|, f) <==> Clears(limit, Run(limit, front), last, f);
    forall k: nat | k < |front|
      ensures ClearsAt(limit, steps, k, f) == ClearsAt(limit, front, k, f)
      ensures SetsAt(limit, steps, k, f) == SetsAt(limit, front, k, f)
    {
      assert steps[..k] == front[..k];
    }
    if m == |front| {
      assert SetsAt(limit, steps, m, f) <==> Sets(limit, Run(limit, front), last, f);
    }
  }

  /** Over every run a request holds a lock exactly if a call was granted it and neither the lock
      nor its transaction was released since, and waits exactly if its call was told to wait and
      has not been answered otherwise or released since. */
  lemma {:induction false} HeldIffStands(limit: nat, steps: seq<Step>, f: Fact)
    requires Legal(limit, steps)
    ensures Holds(Run(limit, steps).table, f) <==> Stands(limit, steps, f)
    decreases |steps|
  {
    if steps != [] {
      var front, last := steps[..|steps| - 1], steps[|steps| - 1];
      assert steps == front + [last];
      HeldIffStands(limit, front, f);
      ReachableReturned(limit, front);
      StepOnFact(limit, Run(limit, front), last, f);
      forall m: nat {
        SinceGrows(limit, front, last, m, f);
      }
      assert Since(limit, steps, |front|, f) <==> Sets(limit, Run(limit, front), last, f);
    }
  }

  // ---- what a call is answered ----

  /** An exclusive lock shares its key with no other transaction, an update lock only with shared
      ones, a shared lock with shared ones and one update lock. */
  predicate InTheWay(x: Request, r: Request) {
    && x.txn != r.txn
    && (x.mode.Exclusive? || r.mode.Exclusive? || (x.mode.Update? && r.mode.Update?))
  }

  lemma WayIsConflict(x: Request, r: Request)
    ensures InTheWay(x, r) <==> Conflicts(r, x)
  {
  }

  // ---- any turn of a call ----

  predicate ArrivedBefore(w: World, x: Request, before: nat) {
    x.id in w.arrival && w.arrival[x.id] < before
  }

  ghost predicate BlockedNow(w: World, key: LockKey, r: Request, before: nat) {
    exists x :: Conflicts(r, x) && (|| x in At(w.table.granted, key)
                                    || (x in At(w.table.waiting, key) && ArrivedBefore(w, x, before)))
  }

  /** A lock that stands, or a wait that stands and began before moment `before`, is in the way. */
  ghost predicate Blocked(limit: nat, steps: seq<Step>, key: LockKey, r: Request, before: nat)
    requires Legal(limit, steps)
  {
    exists x :: InTheWay(x, r) && (|| Stands(limit, steps, Held(key, x))
                                   || (&& Stands(limit, steps, Waits(key, x))
                                       && ArrivedBefore(Run(limit, steps), x, before)))
  }

  lemma BlockedByHistory(limit: nat, steps: seq<Step>, key: LockKey, r: Request, before: nat)
    requires Legal(limit, steps)
    ensures BlockedNow(Run(limit, steps), key, r, before) <==> Blocked(limit, steps, key, r, before)
  {
    var w := Run(limit, steps);
    forall x
      ensures Stands(limit, steps, Held(key, x)) <==> x in At(w.table.granted, key)
      ensures Stands(limit, steps, Waits(key, x)) <==> x in At(w.table.waiting, key)
      ensures InTheWay(x, r) <==> Conflicts(r, x)
    {
      HeldIffStands(limit, steps, Held(key, x));
      HeldIffStands(limit, steps, Waits(key, x));
      assert Holds(w.table, Held(key, x)) <==> x in At(w.table.granted, key);
      assert Holds(w.table, Waits(key, x)) <==> x in At(w.table.waiting, key);
    }
  }

  lemma EarlierIsAhead(w: World, key: LockKey, i: nat, j: nat)
    requires InArrivalOrder(w) && i < |At(w.table.waiting, key)| && j < |At(w.table.waiting, key)|
    requires var q := At(w.table.waiting, key);
             q[i].id in w.arrival && q[j].id in w.arrival && w.arrival[q[i].id] < w.arrival[q[j].id]
    ensures i < j
  {
  }

  lemma BlockedCannotRun(w: World, key: LockKey, position: nat, x: Request)
    requires InArrivalOrder(w) && position < |At(w.table.waiting, key)|
    requires var r := At(w.table.waiting, key)[position];
             && r.id in w.arrival && Conflicts(r, x)
             && (x in At(w.table.granted, key)
                 || (x in At(w.table.waiting, key) && ArrivedBefore(w, x, w.arrival[r.id])))
    ensures !CanRun(w.table, key, position)
  {
    var q := At(w.table.waiting, key);
    if x !in At(w.table.granted, key) {
      var i :| 0 <= i < |q| && q[i] == x;
      EarlierIsAhead(w, key, i, position);
    }
  }

  lemma StuckIsBlocked(w: World, key: LockKey, position: nat)
    requires InArrivalOrder(w) && position < |At(w.table.waiting, key)| && !CanRun(w.table, key, position)
    ensures var r := At(w.table.waiting, key)[position];
            r.id in w.arrival && BlockedNow(w, key, r, w.arrival[r.id])
  {
    var q := At(w.table.waiting, key);
    var r := q[position];
    assert r in q;
    if i :| 0 <= i < position && Conflicts(r, q[i]) {
      assert q[i] in q && w.arrival[At(w.table.waiting, key)[i].id] < w.arrival[At(w.table.waiting, key)[position].id];
      assert ArrivedBefore(w, q[i], w.arrival[r.id]);
    } else {
      var x :| x in At(w.table.granted, key) && Conflicts(r, x);
    }
  }

  lemma RunsIffNotBlocked(w: World, key: LockKey, position: nat)
    requires InArrivalOrder(w) && position < |At(w.table.waiting, key)|
    ensures var r := At(w.table.waiting, key)[position];
            r.id in w.arrival && (CanRun(w.table, key, position) <==> !BlockedNow(w, key, r, w.arrival[r.id]))
  {
    var r := At(w.table.waiting, key)[position];
    assert r in At(w.table.waiting, key);
    if !CanRun(w.table, key, position) {
      StuckIsBlocked(w, key, position);
    } else if BlockedNow(w, key, r, w.arrival[r.id]) {
      var x :| Conflicts(r, x) && (x in At(w.table.granted, key)
                                   || (x in At(w.table.waiting, key) && ArrivedBefore(w, x, w.arrival[r.id])));
      BlockedCannotRun(w, key, position, x);
    }
  }

  /** What a later turn of a call is answered, by the run alone: it notices its victim flag, a
      cancellation, that its transaction was released, that nothing is in its way any more, or its
      deadline, in that order. */
  lemma WakeIsAnswered(limit: nat, steps: seq<Step>, id: nat, cancelled: bool, expired: bool)
    requires Legal(limit, steps) && id in Run(limit, steps).tickets
    ensures var w := Run(limit, steps);
            var (key, r) := (w.tickets[id].key, w.tickets[id].request);
            Answer(limit, w, WakeStep(id, cancelled, expired)) ==
              if exists n :: NamedAndKept(limit, steps, n, r.txn) then Refused("40P01")
              else if cancelled then Refused("57014")
              else if !Stands(limit, steps, Waits(key, r)) then Refused("XX000")
              else if id !in w.arrival || !Blocked(limit, steps, key, r, w.arrival[id]) then Granted
              else if expired then Refused("55P03")
              else Waiting
  {
    var w := Run(limit, steps);
    var key, r := w.tickets[id].key, w.tickets[id].request;
    ReachableInv(limit, steps);
    FlaggedIffNamedAndKept(limit, steps, r.txn);
    HeldIffStands(limit, steps, Waits(key, r));
    WakeRunsIff(w, id);
    if id in w.arrival {
      BlockedByHistory(limit, steps, key, r, w.arrival[id]);
    }
  }

  /** The request of a waiting call, seen at a later poll. */
  lemma WakeRunsIff(w: World, id: nat)
    requires WaitersTicketed(w) && InArrivalOrder(w) && id in w.tickets
    ensures var (key, r) := (w.tickets[id].key, w.tickets[id].request);
            && r.id == id && (IsWaiting(w.table, key, id) <==> Holds(w.table, Waits(key, r)))
            && (IsWaiting(w.table, key, id) ==>
                  && id in w.arrival
                  && (CanRun(w.table, key, PositionOf(At(w.table.waiting, key), id))
                      <==> !BlockedNow(w, key, r, w.arrival[id])))
  {
    WaitingIsHolding(w, id);
    var key := w.tickets[id].key;
    if IsWaiting(w.table, key, id) {
      var position := PositionOf(At(w.table.waiting, key), id);
      assert At(w.table.waiting, key)[position] in At(w.table.waiting, key);
      RunsIffNotBlocked(w, key, position);
    }
  }

  lemma WaitingIsHolding(w: World, id: nat)
    requires WaitersTicketed(w) && id in w.tickets
    ensures IsWaiting(w.table, w.tickets[id].key, id) <==>
              Holds(w.table, Waits(w.tickets[id].key, w.tickets[id].request))
  {
  }

  // ---- the first turn, and the bound on waiting calls ----

  function IdsOf(q: seq<Request>): set<nat> { set r | r in q :: r.id }

  predicate QueueDistinct(q: seq<Request>) {
    forall i, j | 0 <= i < j < |q| :: q[i].id != q[j].id
  }

  /** No request id stands twice in the queues. */
  ghost predicate IdsDistinct(queues: Queues) {
    && (forall key | key in queues :: QueueDistinct(queues[key]))
    && forall key, other | key in queues && other in queues && key != other ::
         IdsOf(queues[key]) !! IdsOf(queues[other])
  }

  ghost function WaitingIds(queues: Queues): set<nat> {
    set key, id | key in queues && id in IdsOf(queues[key]) :: id
  }

  lemma {:induction false} IdsOfQueue(q: seq<Request>)
    requires QueueDistinct(q)
    ensures |IdsOf(q)| == |q|
  {
    if q != [] {
      var front, last := q[..|q| - 1], q[|q| - 1];
      forall i, j | 0 <= i < j < |front| ensures front[i].id != front[j].id {
        assert q[i].id != q[j].id;
      }
      IdsOfQueue(front);
      assert q == front + [last];
      assert IdsOf(q) == IdsOf(front) + {last.id};
    }
  }

  lemma IdsWithout(queues: Queues, key: LockKey)
    requires IdsDistinct(queues) && key in queues
    ensures IdsDistinct(queues - {key})
    ensures WaitingIds(queues) == IdsOf(queues[key]) + WaitingIds(queues - {key})
    ensures IdsOf(queues[key]) !! WaitingIds(queues - {key})
  {
    var rest := queues - {key};
    forall id ensures id in WaitingIds(queues) <==> id in IdsOf(queues[key]) || id in WaitingIds(rest) {
      if other :| other in queues && id in IdsOf(queues[other]) && other != key {
        assert other in rest && id in IdsOf(rest[other]);
      }
    }
    forall other | other in rest ensures IdsOf(queues[key]) !! IdsOf(rest[other]) {
    }
  }

  lemma {:induction false} TotalIsCount(queues: Queues)
    requires IdsDistinct(queues)
    ensures TotalWaiting(queues) == |WaitingIds(queues)|
    decreases |queues|
  {
    if queues == map[] {
      assert WaitingIds(queues) == {};
    } else {
      assert queues.Keys != {};
      var key :| key in queues;
      TotalWithout(queues, key);
      IdsWithout(queues, key);
      TotalIsCount(queues - {key});
      IdsOfQueue(queues[key]);
    }
  }

  lemma QueuedIdsAreDistinct(w: World)
    requires WaitersTicketed(w) && InArrivalOrder(w)
    ensures IdsDistinct(w.table.waiting)
  {
    var queues := w.table.waiting;
    forall key | key in queues ensures QueueDistinct(queues[key]) {
      forall i, j | 0 <= i < j < |queues[key]| ensures queues[key][i].id != queues[key][j].id {
        assert w.arrival[At(queues, key)[i].id] < w.arrival[At(queues, key)[j].id];
      }
    }
    forall key, other, id | key in queues && other in queues && id in IdsOf(queues[key]) && id in IdsOf(queues[other])
      ensures key == other
    {
      var x :| x in At(queues, key) && x.id == id;
      var y :| y in At(queues, other) && y.id == id;
    }
  }

  /** The calls that wait. */
  ghost function WaitingCalls(limit: nat, steps: seq<Step>): set<nat>
    requires Legal(limit, steps)
  {
    var w := Run(limit, steps);
    set id | id in w.tickets && Stands(limit, steps, Waits(w.tickets[id].key, w.tickets[id].request))
  }

  lemma WaitersAreCountedOnce(limit: nat, steps: seq<Step>)
    requires Legal(limit, steps)
    ensures TotalWaiting(Run(limit, steps).table.waiting) == |WaitingCalls(limit, steps)|
  {
    var w := Run(limit, steps);
    ReachableInv(limit, steps);
    QueuedIdsAreDistinct(w);
    TotalIsCount(w.table.waiting);
    forall id ensures id in WaitingCalls(limit, steps) <==> id in WaitingIds(w.table.waiting) {
      CallWaitsIffQueued(limit, steps, id);
    }
    assert WaitingCalls(limit, steps) == WaitingIds(w.table.waiting);
  }

  lemma QueuedIdIsTicketed(w: World, id: nat)
    requires WaitersTicketed(w)
    ensures id in WaitingIds(w.table.waiting) <==>
              id in w.tickets && Holds(w.table, Waits(w.tickets[id].key, w.tickets[id].request))
  {
    if key :| key in w.table.waiting && id in IdsOf(w.table.waiting[key]) {
      var r :| r in w.table.waiting[key] && r.id == id;
      assert r in At(w.table.waiting, key);
    }
    if id in w.tickets && Holds(w.table, Waits(w.tickets[id].key, w.tickets[id].request)) {
      assert id in IdsOf(w.table.waiting[w.tickets[id].key]);
    }
  }

  lemma CallWaitsIffQueued(limit: nat, steps: seq<Step>, id: nat)
    requires Legal(limit, steps) && WaitersTicketed(Run(limit, steps))
    ensures id in WaitingCalls(limit, steps) <==> id in WaitingIds(Run(limit, steps).table.waiting)
  {
    var w := Run(limit, steps);
    QueuedIdIsTicketed(w, id);
    if id in w.tickets {
      HeldIffStands(limit, steps, Waits(w.tickets[id].key, w.tickets[id].request));
    }
  }

  lemma EmptyQueueByHistory(limit: nat, steps: seq<Step>, key: LockKey)
    requires Legal(limit, steps)
    ensures At(Run(limit, steps).table.waiting, key) == [] <==> forall x :: !Stands(limit, steps, Waits(key, x))
  {
    var q := At(Run(limit, steps).table.waiting, key);
    forall x ensures x in q <==> Stands(limit, steps, Waits(key, x)) {
      HeldIffStands(limit, steps, Waits(key, x));
      assert Holds(Run(limit, steps).table, Waits(key, x)) <==> x in q;
    }
    if q != [] {
      assert q[0] in q;
    }
  }

  lemma HoldersByHistory(limit: nat, steps: seq<Step>, key: LockKey, r: Request)
    requires Legal(limit, steps)
    ensures HoldersCompatible(Run(limit, steps).table, key, r) <==>
              forall x :: Stands(limit, steps, Held(key, x)) ==> !InTheWay(x, r)
  {
    var s := Run(limit, steps).table;
    forall x
      ensures x in At(s.granted, key) <==> Stands(limit, steps, Held(key, x))
      ensures InTheWay(x, r) <==> Conflicts(r, x)
    {
      HeldIffStands(limit, steps, Held(key, x));
      assert Holds(s, Held(key, x)) <==> x in At(s.granted, key);
    }
  }

  /** The queue of the entering request, seen at its first poll. */
  lemma EnteringRunsIff(w: World, key: LockKey, r: Request)
    requires Inv(w) && r.id !in w.used
    ensures var s := FlagVictim(Enqueue(w.table, key, r));
            && IsWaiting(s, key, r.id)
            && (CanRun(s, key, PositionOf(At(s.waiting, key), r.id)) <==> !BlockedNow(w, key, r, w.clock))
  {
    var w1 := EnqueueWorld(w, key, r);
    var q := At(w.table.waiting, key);
    EnqueuedTickets(w, key, r, w1);
    assert At(w1.table.waiting, key) == q + [r] && (q + [r])[|q|] == r;
    var position := PositionOf(q + [r], r.id);
    assert (q + [r])[position] in q + [r];
    RunsIffNotBlocked(w1, key, position);
    EnteringIsBlockedAlike(w, key, r, w1);
  }

  lemma EnteringIsBlockedAlike(w: World, key: LockKey, r: Request, w1: World)
    requires Inv(w) && r.id !in w.used && w1 == EnqueueWorld(w, key, r)
    ensures BlockedNow(w1, key, r, w.clock) <==> BlockedNow(w, key, r, w.clock)
  {
    var q := At(w.table.waiting, key);
    assert At(w1.table.waiting, key) == q + [r] && w1.table.granted == w.table.granted;
    forall x | Conflicts(r, x)
      ensures x in At(w1.table.waiting, key) <==> x in q
      ensures x in q ==> ArrivedBefore(w, x, w.clock) && ArrivedBefore(w1, x, w.clock)
    {
      if x in q {
        WaiterArrived(w, key, x);
      }
    }
  }

  /** What a new call is answered, by the run alone: it is granted its lock at once if nobody waits
      for the key and no lock is in its way; else it fails if as many calls wait as may; else it
      notices what a later turn notices, in the same order. */
  lemma EnterIsAnswered(limit: nat, steps: seq<Step>, key: LockKey, r: Request, cancelled: bool, expired: bool)
    requires Legal(limit, steps) && r.id !in Run(limit, steps).used
    ensures var w := Run(limit, steps);
            Answer(limit, w, EnterStep(key, r, cancelled, expired)) ==
              if (forall x :: !Stands(limit, steps, Waits(key, x)))
                 && (forall x :: Stands(limit, steps, Held(key, x)) ==> !InTheWay(x, r)) then Granted
              else if |WaitingCalls(limit, steps)| >= limit then Refused("54000")
              else if Victim(WaitForGraph(Enqueue(w.table, key, r))) == Some(r.txn)
                      || (exists n :: NamedAndKept(limit, steps, n, r.txn)) then Refused("40P01")
              else if cancelled then Refused("57014")
              else if !Blocked(limit, steps, key, r, w.clock) then Granted
              else if expired then Refused("55P03")
              else Waiting
  {
    var w := Run(limit, steps);
    ReachableInv(limit, steps);
    EmptyQueueByHistory(limit, steps, key);
    HoldersByHistory(limit, steps, key, r);
    WaitersAreCountedOnce(limit, steps);
    FlaggedIffNamedAndKept(limit, steps, r.txn);
    EnteringRunsIff(w, key, r);
    BlockedByHistory(limit, steps, key, r, w.clock);
    EnterByTable(limit, w.table, key, r, cancelled, expired);
  }

  lemma EnterByTable(limit: nat, s: State, key: LockKey, r: Request, cancelled: bool, expired: bool)
    requires IsWaiting(FlagVictim(Enqueue(s, key, r)), key, r.id)
    ensures var s1 := FlagVictim(Enqueue(s, key, r));
            Enter(limit, s, key, r, cancelled, expired).1 ==
              if At(s.waiting, key) == [] && HoldersCompatible(s, key, r) then Granted
              else if TotalWaiting(s.waiting) >= limit then Refused("54000")
              else if Victim(WaitForGraph(Enqueue(s, key, r))) == Some(r.txn) || r.txn in s.victims
                then Refused("40P01")
              else if cancelled then Refused("57014")
              else if CanRun(s1, key, PositionOf(At(s1.waiting, key), r.id)) then Granted
              else if expired then Refused("55P03")
              else Waiting
  {
  }

  /** Where nobody waits for the key, a new request is granted at once exactly if no lock that is
      still held is in its way; in particular when every lock on the key was released. */
  lemma FreshRequestIsGrantedIff(limit: nat, steps: seq<Step>, key: LockKey, r: Request, cancelled: bool, expired: bool)
    requires Legal(limit, steps) && r.id !in Run(limit, steps).used
    requires forall x :: !Stands(limit, steps, Waits(key, x))
    ensures var step := EnterStep(key, r, cancelled, expired);
            && (Answer(limit, Run(limit, steps), step).Granted? <==>
                  forall x :: Stands(limit, steps, Held(key, x)) ==> !InTheWay(x, r))
            && ((forall x :: !Stands(limit, steps, Held(key, x))) ==> Answer(limit, Run(limit, steps), step).Granted?)
  {
    EnterIsAnswered(limit, steps, key, r, cancelled, expired);
  }
}

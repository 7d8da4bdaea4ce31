/** Every run of the lock manager: holders are compatible, nobody overtakes, the wait-for
    graph only grows when a request is queued, and victim flags never outlive their wait. */
module LockRuns {
  import opened Base
  import opened Deadlock
  import opened Locks

  datatype Ticket = Ticket(key: LockKey, request: Request)

  /** The lock table with the calls that are still inside `acquire`, the request ids handed
      out, and the moment each request was queued.  The last two are history. */
  datatype World = World(
    table: State,
    tickets: map<nat, Ticket>,
    used: set<nat>,
    arrival: map<nat, nat>,
    clock: nat)

  datatype Step =
    | EnterStep(key: LockKey, request: Request, cancelled: bool, expired: bool)
    | WakeStep(id: nat, cancelled: bool, expired: bool)
    | ReleaseTransactionStep(txn: TxId)
    | ReleaseRequestStep(key: LockKey, id: nat)

  const Initial := World(Empty, map[], {}, map[], 0)

  /** Request ids come from a counter; only a call still waiting can wake. */
  predicate Enabled(w: World, step: Step) {
    match step
    case EnterStep(_, request, _, _) => request.id !in w.used
    case WakeStep(id, _, _) => id in w.tickets
    case _ => true
  }

  ghost predicate Queued(limit: nat, w: World, step: Step) {
    step.EnterStep? && MustQueue(w.table, step.key, step.request) && TotalWaiting(w.table.waiting) < limit
  }

  ghost function EnqueueWorld(w: World, key: LockKey, r: Request): World {
    World(FlagVictim(Enqueue(w.table, key, r)), w.tickets[r.id := Ticket(key, r)], w.used + {r.id},
          w.arrival[r.id := w.clock], w.clock + 1)
  }

  function PollWorld(w: World, id: nat, cancelled: bool, expired: bool): World
    requires id in w.tickets
  {
    var (table, verdict) := Poll(w.table, w.tickets[id].key, w.tickets[id].request, cancelled, expired);
    w.(table := table, tickets := if verdict.Waiting? then w.tickets else w.tickets - {id})
  }

  ghost function Next(limit: nat, w: World, step: Step): World
    requires Enabled(w, step)
  {
    match step
    case EnterStep(key, r, cancelled, expired) =>
      if Queued(limit, w, step) then PollWorld(EnqueueWorld(w, key, r), r.id, cancelled, expired)
      else w.(table := Enter(limit, w.table, key, r, cancelled, expired).0, used := w.used + {r.id})
    case WakeStep(id, cancelled, expired) => PollWorld(w, id, cancelled, expired)
    case ReleaseTransactionStep(t) => w.(table := ReleaseTransaction(w.table, t))
    case ReleaseRequestStep(key, id) => w.(table := ReleaseRequest(w.table, key, id))
  }

  ghost predicate Legal(limit: nat, steps: seq<Step>)
    decreases |steps|, 0
  {
    steps != [] ==>
      && Legal(limit, steps[..|steps| - 1])
      && Enabled(Run(limit, steps[..|steps| - 1]), steps[|steps| - 1])
  }

  ghost function Run(limit: nat, steps: seq<Step>): World
    requires Legal(limit, steps)
    decreases |steps|, 1
  {
    if steps == [] then Initial
    else Next(limit, Run(limit, steps[..|steps| - 1]), steps[|steps| - 1])
  }

  // ---- what holds in every reachable state ----

  ghost predicate HoldersAgree(s: State) {
    forall key, a, b | a in At(s.granted, key) && b in At(s.granted, key) :: !Conflicts(a, b)
  }

  ghost predicate WaitersTicketed(w: World) {
    && w.tickets.Keys <= w.used
    && (forall id | id in w.tickets :: w.tickets[id].request.id == id)
    && forall key, r | r in At(w.table.waiting, key) :: r.id in w.tickets && w.tickets[r.id] == Ticket(key, r)
  }

  ghost predicate InArrivalOrder(w: World) {
    && (forall key, r | r in At(w.table.waiting, key) :: r.id in w.arrival && w.arrival[r.id] < w.clock)
    && forall key, i, j | 0 <= i < j < |At(w.table.waiting, key)| ::
         w.arrival[At(w.table.waiting, key)[i].id] < w.arrival[At(w.table.waiting, key)[j].id]
  }

  /** Every flagged transaction has a request in some queue. */
  ghost predicate VictimsWait(s: State) {
    forall t | t in s.victims :: exists key, r :: r in At(s.waiting, key) && r.txn == t
  }

  ghost predicate Inv(w: World) {
    HoldersAgree(w.table) && WaitersTicketed(w) && InArrivalOrder(w) && VictimsWait(w.table)
  }

  ghost predicate Subgraph(smaller: State, larger: State) {
    forall a, b | WaitsFor(smaller, a, b) :: WaitsFor(larger, a, b)
  }

  // ---- edges: only queueing a request adds any ----

  lemma FromSamePlace(s: State, s': State, key: LockKey, n: nat, m: nat)
    requires n < |At(s'.waiting, key)| && m < |At(s.waiting, key)|
    requires At(s'.waiting, key)[n] == At(s.waiting, key)[m]
    requires forall r | r in Ahead(s', key, n) && Conflicts(At(s.waiting, key)[m], r) :: r in Ahead(s, key, m)
    ensures forall a, b | Contributes(s', key, n, a, b) :: Contributes(s, key, m, a, b)
  {
  }

  lemma RetainShrinks(s: State, s': State, keep: Filter, dropped: Filter)
    requires forall key ::
               At(s'.granted, key) == Retain(At(s.granted, key), keep) || At(s'.granted, key) == At(s.granted, key)
    requires forall key ::
               At(s'.waiting, key) == Retain(At(s.waiting, key), dropped) || At(s'.waiting, key) == At(s.waiting, key)
    ensures Subgraph(s', s)
  {
    forall a, b | WaitsFor(s', a, b) ensures WaitsFor(s, a, b) {
      var key, n :| Contributes(s', key, n, a, b);
      var m := n;
      if At(s'.waiting, key) == Retain(At(s.waiting, key), dropped) {
        m := RetainKeepsOrder(At(s.waiting, key), dropped, n);
      }
      FromSamePlace(s, s', key, n, m);
      assert Contributes(s, key, m, a, b);
    }
  }

  lemma RemoveWaiterShrinks(s: State, key: LockKey, id: nat)
    ensures Subgraph(RemoveWaiter(s, key, id), s)
  {
    var keep := ExceptId(id);
    forall other {
      AtRetain(s.waiting, key, keep, other);
    }
    RetainShrinks(s, RemoveWaiter(s, key, id), keep, keep);
  }

  lemma ReleaseTransactionShrinks(s: State, t: TxId)
    ensures Subgraph(ReleaseTransaction(s, t), s)
  {
    var keep := ExceptTransaction(t);
    forall key ensures At(ReleaseTransaction(s, t).granted, key) == Retain(At(s.granted, key), keep)
      ensures At(ReleaseTransaction(s, t).waiting, key) == Retain(At(s.waiting, key), keep)
    {
      AtRetain(s.granted, key, keep, key);
      AtRetain(s.waiting, key, keep, key);
    }
    RetainShrinks(s, ReleaseTransaction(s, t), keep, keep);
  }

  lemma ReleaseRequestShrinks(s: State, key: LockKey, id: nat)
    ensures Subgraph(ReleaseRequest(s, key, id), s)
  {
    var keep := ExceptId(id);
    forall other {
      AtRetain(s.granted, key, keep, other);
    }
    RetainShrinks(s, ReleaseRequest(s, key, id), keep, keep);
  }

  lemma GrantImmediatelyShrinks(s: State, key: LockKey, r: Request)
    requires CanGrantImmediately(s, key, r)
    ensures Subgraph(Grant(s, key, r), s)
  {
    forall a, b | WaitsFor(Grant(s, key, r), a, b) ensures WaitsFor(s, a, b) {
      var other, n :| Contributes(Grant(s, key, r), other, n, a, b);
      FromSamePlace(s, Grant(s, key, r), other, n, n);
      assert Contributes(s, other, n, a, b);
    }
  }

  /** Whoever still waits on the key after a grant from its queue had the same conflicts
      ahead of it: the granted request conflicts with nobody that was ahead of it. */
  lemma GrantWaiterPlace(s: State, key: LockKey, r: Request, position: nat, n: nat) returns (m: nat)
    requires position < |At(s.waiting, key)| && At(s.waiting, key)[position] == r && CanRun(s, key, position)
    requires n < |Retain(At(s.waiting, key), ExceptId(r.id))|
    ensures m < |At(s.waiting, key)|
    ensures At(s.waiting, key)[m] == Retain(At(s.waiting, key), ExceptId(r.id))[n]
    ensures forall x | x in Retain(At(s.waiting, key), ExceptId(r.id))[..n] :: x in At(s.waiting, key)[..m]
    ensures Conflicts(At(s.waiting, key)[m], r) ==> r in At(s.waiting, key)[..m]
  {
    var keep := ExceptId(r.id);
    var q := At(s.waiting, key);
    m := RetainKeepsOrder(q, keep, n);
    assert Retain(q, keep)[n] in Retain(q, keep);
    if position < m {
      assert q[..m][position] == r;
    } else {
      ConflictsSymmetric(q[m], r);
    }
  }

  /** Moving a waiter that can run to the holders adds no edge. */
  lemma GrantWaiterShrinks(s: State, key: LockKey, r: Request)
    requires IsWaiting(s, key, r.id) && CanRun(s, key, PositionOf(At(s.waiting, key), r.id))
    requires forall x | x in At(s.waiting, key) && x.id == r.id :: x == r
    ensures Subgraph(Grant(RemoveWaiter(s, key, r.id), key, r), s)
  {
    var s' := Grant(RemoveWaiter(s, key, r.id), key, r);
    var position := PositionOf(At(s.waiting, key), r.id);
    assert At(s.waiting, key)[position] in At(s.waiting, key);
    forall a, b | WaitsFor(s', a, b) ensures WaitsFor(s, a, b) {
      var other, n :| Contributes(s', other, n, a, b);
      AtRetain(s.waiting, key, ExceptId(r.id), other);
      var m := n;
      if other == key {
        m := GrantWaiterPlace(s, key, r, position, n);
        assert At(s'.granted, key) == At(s.granted, key) + [r];
      }
      FromSamePlace(s, s', other, n, m);
      assert Contributes(s, other, m, a, b);
    }
  }

  lemma SameQueuesSameGraph(s: State, s': State)
    requires s.granted == s'.granted && s.waiting == s'.waiting
    ensures Subgraph(s, s') && Subgraph(s', s)
  {
    forall key, n, a, b ensures Contributes(s, key, n, a, b) <==> Contributes(s', key, n, a, b) {
    }
    forall a, b | WaitsFor(s, a, b) ensures WaitsFor(s', a, b) {
      var key, n :| Contributes(s, key, n, a, b);
      assert Contributes(s', key, n, a, b);
    }
    forall a, b | WaitsFor(s', a, b) ensures WaitsFor(s, a, b) {
      var key, n :| Contributes(s', key, n, a, b);
      assert Contributes(s, key, n, a, b);
    }
  }

  lemma PollShrinks(s: State, key: LockKey, r: Request, cancelled: bool, expired: bool)
    requires forall x | x in At(s.waiting, key) && x.id == r.id :: x == r
    ensures Subgraph(Poll(s, key, r, cancelled, expired).0, s)
  {
    RemoveWaiterShrinks(s, key, r.id);
    if r.txn in s.victims {
      var unflagged := s.(victims := s.victims - {r.txn});
      RemoveWaiterShrinks(unflagged, key, r.id);
      SameQueuesSameGraph(s, unflagged);
    } else if !cancelled && IsWaiting(s, key, r.id) && CanRun(s, key, PositionOf(At(s.waiting, key), r.id)) {
      GrantWaiterShrinks(s, key, r);
    }
  }

  /** Queueing a request adds edges only out of its own transaction. */
  lemma EnqueueAddsOwnEdges(s: State, key: LockKey, r: Request, a: TxId, b: TxId)
    requires WaitsFor(Enqueue(s, key, r), a, b)
    ensures a == r.txn || WaitsFor(s, a, b)
  {
    var s' := Enqueue(s, key, r);
    var other, n :| Contributes(s', other, n, a, b);
    if n < |At(s.waiting, other)| {
      assert At(s'.waiting, other)[..n] == At(s.waiting, other)[..n];
      FromSamePlace(s, s', other, n, n);
      assert Contributes(s, other, n, a, b);
    }
  }

  // ---- the invariant, one step at a time ----

  lemma OrderAfterRetain(w: World, key: LockKey, keep: Filter, i: nat, j: nat)
    requires InArrivalOrder(w) && i < j < |Retain(At(w.table.waiting, key), keep)|
    ensures var q' := Retain(At(w.table.waiting, key), keep);
            q'[i].id in w.arrival && q'[j].id in w.arrival && w.arrival[q'[i].id] < w.arrival[q'[j].id]
  {
    var n, m := RetainPair(At(w.table.waiting, key), keep, i, j);
    assert At(w.table.waiting, key)[n] in At(w.table.waiting, key)
           && At(w.table.waiting, key)[m] in At(w.table.waiting, key);
    assert w.arrival[At(w.table.waiting, key)[n].id] < w.arrival[At(w.table.waiting, key)[m].id];
  }

  /** Removing waiters leaves the rest of every queue in order. */
  lemma FewerWaiters(w: World, w': World, keep: Filter)
    requires InArrivalOrder(w) && w'.arrival == w.arrival && w'.clock == w.clock
    requires forall key :: At(w'.table.waiting, key) == Retain(At(w.table.waiting, key), keep)
                           || At(w'.table.waiting, key) == At(w.table.waiting, key)
    ensures InArrivalOrder(w')
    ensures forall key, r | r in At(w'.table.waiting, key) :: r in At(w.table.waiting, key)
  {
    forall key, i, j | 0 <= i < j < |At(w'.table.waiting, key)|
      ensures w'.arrival[At(w'.table.waiting, key)[i].id] < w'.arrival[At(w'.table.waiting, key)[j].id]
    {
      if At(w'.table.waiting, key) == Retain(At(w.table.waiting, key), keep) {
        OrderAfterRetain(w, key, keep, i, j);
      } else {
        assert w.arrival[At(w.table.waiting, key)[i].id] < w.arrival[At(w.table.waiting, key)[j].id];
      }
    }
  }

  lemma PollKeepsHolders(s: State, key: LockKey, r: Request, cancelled: bool, expired: bool)
    requires HoldersAgree(s)
    requires forall x | x in At(s.waiting, key) && x.id == r.id :: x == r
    ensures HoldersAgree(Poll(s, key, r, cancelled, expired).0)
  {
    var s' := Poll(s, key, r, cancelled, expired).0;
    if s'.granted != s.granted {
      GrantKeepsHolders(RemoveWaiter(s, key, r.id), key, r);
    }
  }

  lemma GrantKeepsHolders(s: State, key: LockKey, r: Request)
    requires HoldersAgree(s) && HoldersCompatible(s, key, r)
    ensures HoldersAgree(Grant(s, key, r))
  {
    forall other, a, b | a in At(Grant(s, key, r).granted, other) && b in At(Grant(s, key, r).granted, other)
      ensures !Conflicts(a, b)
    {
      assert At(Grant(s, key, r).granted, other) == At(s.granted, other) + (if other == key then [r] else []);
      ConflictsSymmetric(a, b);
    }
  }

  lemma RemovedFrom(s: State, key: LockKey, id: nat, other: LockKey)
    ensures At(RemoveWaiter(s, key, id).waiting, other)
            == if other == key then Retain(At(s.waiting, key), ExceptId(id)) else At(s.waiting, other)
  {
    AtRetain(s.waiting, key, ExceptId(id), other);
  }

  lemma RemovalKeepsTickets(w: World, w': World, id: nat)
    requires WaitersTicketed(w) && id in w.tickets
    requires w'.tickets == w.tickets - {id} && w'.used == w.used
    requires w'.table.waiting == RemoveWaiter(w.table, w.tickets[id].key, id).waiting
    ensures WaitersTicketed(w')
  {
    forall key, r | r in At(w'.table.waiting, key) ensures r.id in w'.tickets && w'.tickets[r.id] == Ticket(key, r) {
      RemovedFrom(w.table, w.tickets[id].key, id, key);
      assert r in At(w.table.waiting, key);
    }
  }

  lemma RemovalKeepsOrder(w: World, w': World, key: LockKey, id: nat)
    requires InArrivalOrder(w) && w'.arrival == w.arrival && w'.clock == w.clock
    requires w'.table.waiting == RemoveWaiter(w.table, key, id).waiting
    ensures InArrivalOrder(w')
  {
    forall other
      ensures At(w'.table.waiting, other)
           == if other == key then Retain(At(w.table.waiting, key), ExceptId(id)) else At(w.table.waiting, other)
    {
      RemovedFrom(w.table, key, id, other);
    }
    FewerWaiters(w, w', ExceptId(id));
  }

  lemma RemovalKeepsVictims(w: World, w': World, id: nat)
    requires WaitersTicketed(w) && VictimsWait(w.table) && id in w.tickets
    requires w'.table.waiting == RemoveWaiter(w.table, w.tickets[id].key, id).waiting
    requires w'.table.victims <= w.table.victims - {w.tickets[id].request.txn}
    ensures VictimsWait(w'.table)
  {
    forall t | t in w'.table.victims ensures exists key, r :: r in At(w'.table.waiting, key) && r.txn == t {
      var key, r :| r in At(w.table.waiting, key) && r.txn == t;
      RemovedFrom(w.table, w.tickets[id].key, id, key);
      assert r in At(w'.table.waiting, key);
    }
  }

  /** What a poll can do to the queues, the flags and the tickets: remove the request and
      take its flag away, or leave them alone (the request may already be gone). */
  ghost predicate PollShape(w: World, w': World, id: nat)
    requires id in w.tickets
  {
    var s, key, r := w.table, w.tickets[id].key, w.tickets[id].request;
    && w'.used == w.used && w'.arrival == w.arrival && w'.clock == w.clock
    && (|| (&& w'.table.waiting == RemoveWaiter(s, key, id).waiting
            && w'.table.victims <= s.victims - {r.txn}
            && w'.tickets == w.tickets - {id})
        || (&& w'.table == s
            && (w'.tickets == w.tickets || (w'.tickets == w.tickets - {id} && !IsWaiting(s, key, id)))))
  }

  lemma PollHasShape(w: World, id: nat, cancelled: bool, expired: bool)
    requires id in w.tickets && w.tickets[id].request.id == id
    ensures PollShape(w, PollWorld(w, id, cancelled, expired), id)
  {
  }

  lemma ShapeKeepsInv(w: World, w': World, id: nat)
    requires Inv(w) && id in w.tickets && PollShape(w, w', id) && HoldersAgree(w'.table)
    ensures Inv(w')
  {
    if w'.table.waiting == RemoveWaiter(w.table, w.tickets[id].key, id).waiting && w'.tickets == w.tickets - {id}
       && w'.table != w.table {
      RemovalKeepsTickets(w, w', id);
      RemovalKeepsOrder(w, w', w.tickets[id].key, id);
      RemovalKeepsVictims(w, w', id);
    } else {
      assert w'.table == w.table;
    }
  }

  lemma PollKeepsInv(w: World, id: nat, cancelled: bool, expired: bool)
    requires Inv(w) && id in w.tickets
    ensures Inv(PollWorld(w, id, cancelled, expired))
  {
    PollKeepsHolders(w.table, w.tickets[id].key, w.tickets[id].request, cancelled, expired);
    PollHasShape(w, id, cancelled, expired);
    ShapeKeepsInv(w, PollWorld(w, id, cancelled, expired), id);
  }

  lemma PollWorldShrinks(w: World, id: nat, cancelled: bool, expired: bool)
    requires WaitersTicketed(w) && id in w.tickets
    ensures Subgraph(PollWorld(w, id, cancelled, expired).table, w.table)
  {
    PollShrinks(w.table, w.tickets[id].key, w.tickets[id].request, cancelled, expired);
  }

  lemma WaitersInQueues(s: State, t: TxId)
    ensures t in Waiters(s) <==> exists key, r :: r in At(s.waiting, key) && r.txn == t
  {
    if t in Waiters(s) {
      var key, r :| key in s.waiting && r in s.waiting[key] && r.txn == t;
      assert r in At(s.waiting, key);
    }
  }

  lemma FlagKeepsVictims(s: State)
    requires VictimsWait(s)
    ensures VictimsWait(FlagVictim(s))
  {
    forall t | t in FlagVictim(s).victims ensures exists key, r :: r in At(s.waiting, key) && r.txn == t {
      if t !in s.victims {
        assert t in WaitForGraph(s);
        WaitersInQueues(s, t);
      }
    }
  }

  lemma EnqueuedAt(s: State, key: LockKey, r: Request, other: LockKey)
    ensures At(Enqueue(s, key, r).waiting, other) == At(s.waiting, other) + (if other == key then [r] else [])
  {
  }

  lemma EnqueueKeepsVictims(s: State, key: LockKey, r: Request)
    requires VictimsWait(s)
    ensures VictimsWait(Enqueue(s, key, r))
  {
    forall t | t in s.victims ensures exists other, x :: x in At(Enqueue(s, key, r).waiting, other) && x.txn == t {
      var other, x :| x in At(s.waiting, other) && x.txn == t;
      EnqueuedAt(s, key, r, other);
      assert x in At(Enqueue(s, key, r).waiting, other);
    }
  }

  lemma EnqueueKeepsTickets(w: World, w': World, key: LockKey, r: Request)
    requires WaitersTicketed(w) && r.id !in w.used
    requires w'.table.waiting == Enqueue(w.table, key, r).waiting
    requires w'.tickets == w.tickets[r.id := Ticket(key, r)] && w'.used == w.used + {r.id}
    ensures WaitersTicketed(w')
  {
    forall other, x | x in At(w'.table.waiting, other)
      ensures x.id in w'.tickets && w'.tickets[x.id] == Ticket(other, x)
    {
      EnqueuedAt(w.table, key, r, other);
    }
  }

  lemma EnqueueKeepsOrder(w: World, w': World, key: LockKey, r: Request)
    requires InArrivalOrder(w) && WaitersTicketed(w) && r.id !in w.used
    requires w'.table.waiting == Enqueue(w.table, key, r).waiting
    requires w'.arrival == w.arrival[r.id := w.clock] && w'.clock == w.clock + 1
    ensures InArrivalOrder(w')
  {
    forall other, x | x in At(w'.table.waiting, other) ensures x.id in w'.arrival && w'.arrival[x.id] < w'.clock {
      EnqueuedAt(w.table, key, r, other);
    }
    forall other, i, j | 0 <= i < j < |At(w'.table.waiting, other)|
      ensures w'.arrival[At(w'.table.waiting, other)[i].id] < w'.arrival[At(w'.table.waiting, other)[j].id]
    {
      EnqueuedAt(w.table, key, r, other);
      var q := At(w.table.waiting, other);
      assert q[i] in q;
      if j < |q| {
        assert q[j] in q;
        assert w.arrival[At(w.table.waiting, other)[i].id] < w.arrival[At(w.table.waiting, other)[j].id];
      }
    }
  }

  lemma EnqueueKeepsInv(w: World, key: LockKey, r: Request)
    requires Inv(w) && r.id !in w.used
    ensures Inv(EnqueueWorld(w, key, r))
  {
    var w' := EnqueueWorld(w, key, r);
    EnqueueKeepsTickets(w, w', key, r);
    EnqueueKeepsOrder(w, w', key, r);
    EnqueueKeepsVictims(w.table, key, r);
    FlagKeepsVictims(Enqueue(w.table, key, r));
  }

  lemma ReleaseKeepsTickets(w: World, t: TxId)
    requires WaitersTicketed(w) && HoldersAgree(w.table) && VictimsWait(w.table)
    ensures var w' := w.(table := ReleaseTransaction(w.table, t));
            WaitersTicketed(w') && HoldersAgree(w'.table) && VictimsWait(w'.table)
  {
    var w' := w.(table := ReleaseTransaction(w.table, t));
    forall key
      ensures forall r :: r in At(w'.table.granted, key) <==> r in At(w.table.granted, key) && r.txn != t
      ensures forall r :: r in At(w'.table.waiting, key) <==> r in At(w.table.waiting, key) && r.txn != t
    {
      AtRetain(w.table.granted, key, ExceptTransaction(t), key);
      AtRetain(w.table.waiting, key, ExceptTransaction(t), key);
    }
    forall v | v in w'.table.victims ensures exists key, r :: r in At(w'.table.waiting, key) && r.txn == v {
      var key, r :| r in At(w.table.waiting, key) && r.txn == v;
      assert r in At(w'.table.waiting, key);
    }
  }

  lemma ReleaseTransactionKeepsInv(w: World, t: TxId)
    requires Inv(w)
    ensures Inv(w.(table := ReleaseTransaction(w.table, t)))
  {
    ReleaseKeepsTickets(w, t);
    forall key
      ensures At(ReleaseTransaction(w.table, t).waiting, key) == Retain(At(w.table.waiting, key), ExceptTransaction(t))
    {
      AtRetain(w.table.waiting, key, ExceptTransaction(t), key);
    }
    FewerWaiters(w, w.(table := ReleaseTransaction(w.table, t)), ExceptTransaction(t));
  }

  lemma ReleaseRequestKeepsInv(w: World, key: LockKey, id: nat)
    requires Inv(w)
    ensures Inv(w.(table := ReleaseRequest(w.table, key, id)))
  {
    var keep := ExceptId(id);
    forall other
      ensures At(ReleaseRequest(w.table, key, id).granted, other)
              == if other == key then Retain(At(w.table.granted, key), keep) else At(w.table.granted, other)
    {
      AtRetain(w.table.granted, key, keep, other);
    }
  }

  lemma EnterKeepsInv(limit: nat, w: World, step: Step)
    requires Inv(w) && Enabled(w, step) && step.EnterStep? && !Queued(limit, w, step)
    ensures Inv(Next(limit, w, step))
  {
    if !MustQueue(w.table, step.key, step.request) {
      GrantKeepsHolders(w.table, step.key, step.request);
    }
  }

  lemma StepKeepsInv(limit: nat, w: World, step: Step)
    requires Inv(w) && Enabled(w, step)
    ensures Inv(Next(limit, w, step))
  {
    match step
    case EnterStep(key, r, cancelled, expired) =>
      if Queued(limit, w, step) {
        EnqueueKeepsInv(w, key, r);
        PollKeepsInv(EnqueueWorld(w, key, r), r.id, cancelled, expired);
      } else {
        EnterKeepsInv(limit, w, step);
      }
    case WakeStep(id, cancelled, expired) => PollKeepsInv(w, id, cancelled, expired);
    case ReleaseTransactionStep(t) => ReleaseTransactionKeepsInv(w, t);
    case ReleaseRequestStep(key, id) => ReleaseRequestKeepsInv(w, key, id);
  }

  lemma {:induction false} ReachableInv(limit: nat, steps: seq<Step>)
    requires Legal(limit, steps)
    ensures Inv(Run(limit, steps))
    decreases |steps|
  {
    if steps != [] {
      ReachableInv(limit, steps[..|steps| - 1]);
      StepKeepsInv(limit, Run(limit, steps[..|steps| - 1]), steps[|steps| - 1]);
    }
  }

  // ---- the theorems ----

  lemma PolledEdges(w1: World, s1: State, id: nat, cancelled: bool, expired: bool, a: TxId, b: TxId)
    requires WaitersTicketed(w1) && id in w1.tickets
    requires w1.table.granted == s1.granted && w1.table.waiting == s1.waiting
    requires WaitsFor(PollWorld(w1, id, cancelled, expired).table, a, b)
    ensures WaitsFor(s1, a, b)
  {
    PollWorldShrinks(w1, id, cancelled, expired);
    SameQueuesSameGraph(s1, w1.table);
  }

  lemma EnqueuedTickets(w: World, key: LockKey, r: Request, w1: World)
    requires Inv(w) && r.id !in w.used && w1 == EnqueueWorld(w, key, r)
    ensures WaitersTicketed(w1) && InArrivalOrder(w1) && r.id in w1.tickets && w1.tickets[r.id] == Ticket(key, r)
    ensures w1.table.granted == w.table.granted && w1.table.waiting == Enqueue(w.table, key, r).waiting
    ensures w1.arrival == w.arrival[r.id := w.clock]
  {
    EnqueueKeepsInv(w, key, r);
  }

  lemma QueueingEdges(w: World, step: Step, a: TxId, b: TxId)
    requires Inv(w) && Enabled(w, step) && step.EnterStep?
    requires WaitsFor(PollWorld(EnqueueWorld(w, step.key, step.request), step.request.id, step.cancelled,
                                step.expired).table, a, b)
    ensures WaitsFor(Enqueue(w.table, step.key, step.request), a, b)
    ensures WaitsFor(w.table, a, b) || a == step.request.txn
  {
    var w1 := EnqueueWorld(w, step.key, step.request);
    EnqueuedTickets(w, step.key, step.request, w1);
    PolledEdges(w1, Enqueue(w.table, step.key, step.request), step.request.id, step.cancelled, step.expired, a, b);
    EnqueueAddsOwnEdges(w.table, step.key, step.request, a, b);
  }

  lemma OtherStepsShrink(limit: nat, w: World, step: Step)
    requires Inv(w) && Enabled(w, step) && !Queued(limit, w, step)
    ensures Subgraph(Next(limit, w, step).table, w.table)
  {
    match step
    case EnterStep(key, r, _, _) =>
      if !MustQueue(w.table, key, r) {
        GrantImmediatelyShrinks(w.table, key, r);
      }
    case WakeStep(id, cancelled, expired) => PollWorldShrinks(w, id, cancelled, expired);
    case ReleaseTransactionStep(t) => ReleaseTransactionShrinks(w.table, t);
    case ReleaseRequestStep(key, id) => ReleaseRequestShrinks(w.table, key, id);
  }

  /** Every step that is not the queueing of a request leaves a subgraph of the wait-for
      graph; queueing one adds edges only out of the requester. */
  lemma OnlyQueueingAddsEdges(limit: nat, w: World, step: Step, a: TxId, b: TxId)
    requires Inv(w) && Enabled(w, step) && WaitsFor(Next(limit, w, step).table, a, b)
    ensures WaitsFor(w.table, a, b) || (Queued(limit, w, step) && a == step.request.txn)
    ensures Queued(limit, w, step) ==> WaitsFor(Enqueue(w.table, step.key, step.request), a, b)
  {
    if Queued(limit, w, step) {
      QueueingEdges(w, step, a, b);
    } else {
      OtherStepsShrink(limit, w, step);
    }
  }

  ghost predicate Deadlocked(s: State, c: seq<TxId>) {
    ClosedWalk(WaitForGraph(s), c)
  }

  /** The step queued a request of a transaction on the cycle, the cycle was there when the
      search ran, and the search named a victim no smaller than any member of the cycle. */
  ghost predicate CaughtAt(limit: nat, steps: seq<Step>, n: nat, c: seq<TxId>)
    requires Legal(limit, steps) && n < |steps|
  {
    && Legal(limit, steps[..n])
    && var w, step := Run(limit, steps[..n]), steps[n];
    && Queued(limit, w, step) && step.request.txn in c
    && var s := Enqueue(w.table, step.key, step.request);
    && Deadlocked(s, c)
    && Victim(WaitForGraph(s)).Some?
    && OnCycle(WaitForGraph(s), Victim(WaitForGraph(s)).value)
    && forall x | x in c :: x <= Victim(WaitForGraph(s)).value
  }

  lemma CycleUsesNewEdge(s: State, s': State, c: seq<TxId>) returns (a: TxId, b: TxId)
    requires Deadlocked(s', c) && !Deadlocked(s, c)
    ensures a in c && WaitsFor(s', a, b) && !WaitsFor(s, a, b)
  {
    var i :| 0 <= i < |c| - 1 && !Edge(WaitForGraph(s), c[i], c[i + 1]);
    a, b := c[i], c[i + 1];
    EdgeIffWaitsFor(s, a, b);
    EdgeIffWaitsFor(s', a, b);
  }

  lemma CycleStaysInLarger(smaller: State, larger: State, c: seq<TxId>)
    requires Subgraph(smaller, larger) && Deadlocked(smaller, c)
    ensures Deadlocked(larger, c)
  {
    forall i | 0 <= i < |c| - 1 ensures Edge(WaitForGraph(larger), c[i], c[i + 1]) {
      assert Edge(WaitForGraph(smaller), c[i], c[i + 1]);
      EdgeIffWaitsFor(smaller, c[i], c[i + 1]);
      EdgeIffWaitsFor(larger, c[i], c[i + 1]);
    }
  }

  lemma VictimBoundsCycle(g: Graph, c: seq<TxId>)
    requires ClosedWalk(g, c)
    ensures Victim(g).Some? && OnCycle(g, Victim(g).value)
    ensures forall x | x in c :: x <= Victim(g).value
  {
    NoVictimIffAcyclic(g);
  }

  /** A cycle that was not there before this step runs through the requester, and the search
      made at this step names a victim. */
  lemma NewCycleIsCaught(limit: nat, w: World, step: Step, c: seq<TxId>)
    requires Inv(w) && Enabled(w, step)
    requires Deadlocked(Next(limit, w, step).table, c) && !Deadlocked(w.table, c)
    ensures Queued(limit, w, step) && step.request.txn in c
    ensures var g := WaitForGraph(Enqueue(w.table, step.key, step.request));
            && ClosedWalk(g, c) && Victim(g).Some? && OnCycle(g, Victim(g).value)
            && forall x | x in c :: x <= Victim(g).value
  {
    var s' := Next(limit, w, step).table;
    var a, b := CycleUsesNewEdge(w.table, s', c);
    OnlyQueueingAddsEdges(limit, w, step, a, b);
    var s1 := Enqueue(w.table, step.key, step.request);
    forall a, b | WaitsFor(s', a, b) ensures WaitsFor(s1, a, b) {
      OnlyQueueingAddsEdges(limit, w, step, a, b);
    }
    CycleStaysInLarger(s', s1, c);
    VictimBoundsCycle(WaitForGraph(s1), c);
  }

  lemma NoEdgeAtFirst(c: seq<TxId>)
    ensures !Deadlocked(Empty, c)
  {
    assert WaitForGraph(Empty) == map[];
    assert 2 <= |c| ==> !Edge(WaitForGraph(Empty), c[0], c[1]);
  }

  lemma LastOfPrefix(limit: nat, steps: seq<Step>, k: nat)
    requires 0 < k <= |steps| && Legal(limit, steps[..k])
    ensures Legal(limit, steps[..k - 1]) && Enabled(Run(limit, steps[..k - 1]), steps[k - 1])
    ensures Run(limit, steps[..k]) == Next(limit, Run(limit, steps[..k - 1]), steps[k - 1])
  {
    assert steps[..k][..k - 1] == steps[..k - 1];
  }

  lemma CaughtAtLastStep(limit: nat, steps: seq<Step>, k: nat, c: seq<TxId>)
    requires Legal(limit, steps) && 0 < k <= |steps| && Legal(limit, steps[..k]) && Legal(limit, steps[..k - 1])
    requires !Deadlocked(Run(limit, steps[..k - 1]).table, c) && Deadlocked(Run(limit, steps[..k]).table, c)
    ensures CaughtAt(limit, steps, k - 1, c)
  {
    LastOfPrefix(limit, steps, k);
    ReachableInv(limit, steps[..k - 1]);
    NewCycleIsCaught(limit, Run(limit, steps[..k - 1]), steps[k - 1], c);
  }

  lemma {:induction false} CaughtWithin(limit: nat, steps: seq<Step>, k: nat, c: seq<TxId>) returns (n: nat)
    requires Legal(limit, steps) && k <= |steps| && Legal(limit, steps[..k])
             && Deadlocked(Run(limit, steps[..k]).table, c)
    ensures n < k && CaughtAt(limit, steps, n, c)
    decreases k
  {
    if k == 0 {
      NoEdgeAtFirst(c);
      assert false;
    } else {
      LastOfPrefix(limit, steps, k);
      if Deadlocked(Run(limit, steps[..k - 1]).table, c) {
        n := CaughtWithin(limit, steps, k - 1, c);
      } else {
        n := k - 1;
        CaughtAtLastStep(limit, steps, k, c);
      }
    }
  }

  /** Searching only when a request is queued misses no deadlock: every cycle present in a
      reachable state was caught at the step of the run that closed it. */
  lemma EveryDeadlockWasCaught(limit: nat, steps: seq<Step>, c: seq<TxId>) returns (n: nat)
    requires Legal(limit, steps) && Deadlocked(Run(limit, steps).table, c)
    ensures n < |steps| && CaughtAt(limit, steps, n, c)
  {
    assert steps[..|steps|] == steps;
    n := CaughtWithin(limit, steps, |steps|, c);
  }

  /** In every reachable state no two transactions hold conflicting locks on one key: an exclusive
      holder is alone, and no two hold update locks. */
  lemma HoldersAlwaysCompatible(limit: nat, steps: seq<Step>, key: LockKey, a: Request, b: Request)
    requires Legal(limit, steps)
    requires a in At(Run(limit, steps).table.granted, key) && b in At(Run(limit, steps).table.granted, key)
    ensures a.txn == b.txn || Compatible(a.mode, b.mode)
    ensures a.txn != b.txn ==> !a.mode.Exclusive? && !b.mode.Exclusive? && !(a.mode.Update? && b.mode.Update?)
  {
    ReachableInv(limit, steps);
    assert !Conflicts(a, b);
  }

  /** No overtaking: while a request waits, a conflicting request of another transaction is
      granted on its key only if it was queued earlier. */
  lemma NoOvertaking(limit: nat, steps: seq<Step>, step: Step, key: LockKey, waiting: Request, granted: Request)
    requires Legal(limit, steps) && Enabled(Run(limit, steps), step)
    requires var w := Run(limit, steps);
             && waiting in At(w.table.waiting, key) && Conflicts(waiting, granted)
             && granted !in At(w.table.granted, key)
             && granted in At(Next(limit, w, step).table.granted, key)
    ensures var w := Run(limit, steps);
            && granted in At(w.table.waiting, key)
            && granted.id in w.arrival && waiting.id in w.arrival
            && w.arrival[granted.id] < w.arrival[waiting.id]
  {
    var w := Run(limit, steps);
    ReachableInv(limit, steps);
    if step.WakeStep? {
      GrantedWasAhead(w, step.id, step.cancelled, step.expired, key, waiting, granted);
    } else if step.EnterStep? {
      if Queued(limit, w, step) {
        NewcomerNeverOvertakes(w, step.key, step.request, step.cancelled, step.expired, key, waiting, granted);
      } else {
        ImmediateGrantSkipsNobody(limit, w, step, key, waiting, granted);
      }
    } else if step.ReleaseTransactionStep? {
      AtRetain(w.table.granted, key, ExceptTransaction(step.txn), key);
    } else {
      AtRetain(w.table.granted, step.key, ExceptId(step.id), key);
    }
  }

  lemma PollGrantsOnlyItsRequest(s: State, key: LockKey, r: Request, cancelled: bool, expired: bool, other: LockKey,
                                 x: Request)
    requires x !in At(s.granted, other) && x in At(Poll(s, key, r, cancelled, expired).0.granted, other)
    ensures other == key && x == r && IsWaiting(s, key, r.id) && CanRun(s, key, PositionOf(At(s.waiting, key), r.id))
  {
  }

  /** A conflicting waiter is behind the one that may run. */
  lemma RunnerIsAhead(s: State, key: LockKey, position: nat, waiting: Request) returns (j: nat)
    requires position < |At(s.waiting, key)| && CanRun(s, key, position)
    requires waiting in At(s.waiting, key) && Conflicts(waiting, At(s.waiting, key)[position])
    ensures position < j < |At(s.waiting, key)| && At(s.waiting, key)[j] == waiting
  {
    j :| 0 <= j < |At(s.waiting, key)| && At(s.waiting, key)[j] == waiting;
    ConflictsSymmetric(waiting, At(s.waiting, key)[position]);
  }

  lemma RunnerArrivedFirst(w: World, key: LockKey, q: seq<Request>, position: nat, waiting: Request)
    requires InArrivalOrder(w) && q == At(w.table.waiting, key)
    requires position < |q| && CanRun(w.table, key, position) && waiting in q && Conflicts(waiting, q[position])
    ensures q[position].id in w.arrival && waiting.id in w.arrival && w.arrival[q[position].id] < w.arrival[waiting.id]
  {
    var j := RunnerIsAhead(w.table, key, position, waiting);
    assert q[position] in q && q[j] in q;
    assert w.arrival[At(w.table.waiting, key)[position].id] < w.arrival[At(w.table.waiting, key)[j].id];
  }

  lemma WaiterIsTicketed(w: World, id: nat, key: LockKey, r: Request)
    requires WaitersTicketed(w) && id in w.tickets && r in At(w.table.waiting, key) && r.id == id
    ensures w.tickets[id] == Ticket(key, r)
  {
  }

  lemma GrantedWasAhead(w: World, id: nat, cancelled: bool, expired: bool, key: LockKey, waiting: Request,
                        granted: Request)
    requires WaitersTicketed(w) && InArrivalOrder(w) && id in w.tickets
    requires waiting in At(w.table.waiting, key) && Conflicts(waiting, granted)
    requires granted !in At(w.table.granted, key)
    requires granted in At(PollWorld(w, id, cancelled, expired).table.granted, key)
    ensures granted in At(w.table.waiting, key) && granted.id == id
    ensures granted.id in w.arrival && waiting.id in w.arrival && w.arrival[granted.id] < w.arrival[waiting.id]
  {
    var ticket := w.tickets[id];
    PollGrantsOnlyItsRequest(w.table, ticket.key, ticket.request, cancelled, expired, key, granted);
    var q := At(w.table.waiting, key);
    var position := PositionOf(q, granted.id);
    assert q[position] in q;
    assert granted.id == id;
    WaiterIsTicketed(w, id, key, q[position]);
    RunnerArrivedFirst(w, key, q, position, waiting);
  }

  lemma WaiterArrived(w: World, key: LockKey, r: Request)
    requires Inv(w) && r in At(w.table.waiting, key)
    ensures r.id in w.arrival && w.arrival[r.id] < w.clock && r.id in w.used
  {
  }

  /** A request that is just being queued is not granted past a conflicting waiter. */
  lemma NewcomerNeverOvertakes(w: World, entered: LockKey, r: Request, cancelled: bool, expired: bool, key: LockKey,
                               waiting: Request, granted: Request)
    requires Inv(w) && r.id !in w.used
    requires waiting in At(w.table.waiting, key) && Conflicts(waiting, granted) && granted !in At(w.table.granted, key)
    ensures granted !in At(PollWorld(EnqueueWorld(w, entered, r), r.id, cancelled, expired).table.granted, key)
  {
    var w1 := EnqueueWorld(w, entered, r);
    EnqueuedTickets(w, entered, r, w1);
    WaiterArrived(w, key, waiting);
    assert waiting in At(w1.table.waiting, key);
    if granted in At(PollWorld(w1, r.id, cancelled, expired).table.granted, key) {
      GrantedWasAhead(w1, r.id, cancelled, expired, key, waiting, granted);
      assert false;
    }
  }

  lemma ImmediateGrantSkipsNobody(limit: nat, w: World, step: Step, key: LockKey, waiting: Request, granted: Request)
    requires step.EnterStep? && Enabled(w, step) && !Queued(limit, w, step)
    requires waiting in At(w.table.waiting, key) && granted !in At(w.table.granted, key)
    ensures granted !in At(Next(limit, w, step).table.granted, key)
  {
  }

  /** A transaction is aborted as a deadlock victim only while one of its requests waits: its
      flag was raised by the very search made for this request, or it already had another
      request waiting. */
  lemma FlagsNeverOutliveTheirWait(limit: nat, steps: seq<Step>, t: TxId)
    requires Legal(limit, steps) && t in Run(limit, steps).table.victims
    ensures exists key, r :: r in At(Run(limit, steps).table.waiting, key) && r.txn == t
  {
    ReachableInv(limit, steps);
  }

  lemma AbortNamesVictim(limit: nat, s: State, key: LockKey, r: Request, cancelled: bool, expired: bool)
    requires Enter(limit, s, key, r, cancelled, expired).1 == Refused("40P01") && r.txn !in s.victims
    ensures Victim(WaitForGraph(Enqueue(s, key, r))) == Some(r.txn)
  {
  }

  lemma NoWaitNoFlag(s: State, t: TxId)
    requires VictimsWait(s) && t !in Waiters(s)
    ensures t !in s.victims
  {
    WaitersInQueues(s, t);
  }

  lemma DeadlockAbortIsDeserved(limit: nat, steps: seq<Step>, key: LockKey, r: Request, cancelled: bool, expired: bool)
    requires Legal(limit, steps) && r.id !in Run(limit, steps).used
    requires Enter(limit, Run(limit, steps).table, key, r, cancelled, expired).1 == Refused("40P01")
    requires r.txn !in Waiters(Run(limit, steps).table)
    ensures var g := WaitForGraph(Enqueue(Run(limit, steps).table, key, r));
            Victim(g) == Some(r.txn) && OnCycle(g, r.txn)
  {
    var s := Run(limit, steps).table;
    ReachableInv(limit, steps);
    NoWaitNoFlag(s, r.txn);
    AbortNamesVictim(limit, s, key, r, cancelled, expired);
    NoVictimIffAcyclic(WaitForGraph(Enqueue(s, key, r)));
  }
}

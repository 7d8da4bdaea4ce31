/** How long a deadlock lasts: a cycle of blocked requests stands exactly until one of its
    requests is refused or released, so an abort is genuine exactly if some cycle that a search
    saw still has all its requests. */
module LockCycles {
  import opened Base
  import opened Deadlock
  import opened Locks
  import opened LockRuns
  import opened LockAborts

  // ---- who blocks whom ----

  // A waiting request and one it must wait for, on one key.
  datatype Block = Block(key: LockKey, waiter: Request, blocker: Request)

  ghost predicate Before(q: seq<Request>, y: Request, x: Request) {
    exists i, j :: 0 <= i < j < |q| && q[i] == y && q[j] == x
  }

  ghost predicate Blocks(s: State, x: Block) {
    var q := At(s.waiting, x.key);
    && x.waiter in q && Conflicts(x.waiter, x.blocker)
    && (x.blocker in At(s.granted, x.key) || Before(q, x.blocker, x.waiter))
  }

  lemma BlockIsEdge(s: State, x: Block)
    requires Blocks(s, x)
    ensures WaitsFor(s, x.waiter.txn, x.blocker.txn)
  {
    var q := At(s.waiting, x.key);
    var n: nat;
    if Before(q, x.blocker, x.waiter) {
      var i, j :| 0 <= i < j < |q| && q[i] == x.blocker && q[j] == x.waiter;
      n := j;
      assert q[..n][i] == x.blocker;
    } else {
      n :| n < |q| && q[n] == x.waiter;
    }
    assert x.blocker in Ahead(s, x.key, n);
    assert Contributes(s, x.key, n, x.waiter.txn, x.blocker.txn);
  }

  lemma EdgeIsBlock(s: State, a: TxId, b: TxId) returns (x: Block)
    requires WaitsFor(s, a, b)
    ensures Blocks(s, x) && x.waiter.txn == a && x.blocker.txn == b
  {
    var key, n :| Contributes(s, key, n, a, b);
    var q := At(s.waiting, key);
    var r :| r in Ahead(s, key, n) && Conflicts(q[n], r) && r.txn == b;
    if r !in At(s.granted, key) {
      var i :| 0 <= i < n && q[..n][i] == r;
      assert q[i] == r && Before(q, r, q[n]);
    }
    x := Block(key, q[n], r);
  }

  /** Each block's waiter belongs to the transaction the block before it waits for. */
  ghost predicate Linked(p: seq<Block>, from: TxId, to: TxId) {
    && p != [] && p[0].waiter.txn == from && p[|p| - 1].blocker.txn == to
    && forall i | 0 < i < |p| :: p[i].waiter.txn == p[i - 1].blocker.txn
  }

  ghost predicate AllBlock(s: State, p: seq<Block>) {
    forall x | x in p :: Blocks(s, x)
  }

  /** Blocked requests in a ring, starting and ending with `t`. */
  ghost predicate Ring(s: State, p: seq<Block>, t: TxId) {
    Linked(p, t, t) && AllBlock(s, p)
  }

  lemma ChainIsWalk(s: State, p: seq<Block>, from: TxId, to: TxId) returns (c: seq<TxId>)
    requires Linked(p, from, to) && AllBlock(s, p)
    ensures 2 <= |c| && Walk(WaitForGraph(s), c) && c[0] == from && Last(c) == to
  {
    c := seq(|p|, i requires 0 <= i < |p| => p[i].waiter.txn) + [to];
    forall i | 0 <= i < |c| - 1 ensures Edge(WaitForGraph(s), c[i], c[i + 1]) {
      assert p[i] in p;
      BlockIsEdge(s, p[i]);
      assert i + 1 < |p| ==> p[i + 1].waiter.txn == p[i + 1 - 1].blocker.txn;
      EdgeIffWaitsFor(s, c[i], c[i + 1]);
    }
  }

  lemma OneMoreLink(s: State, x: Block, p: seq<Block>, to: TxId)
    requires Blocks(s, x) && Linked(p, x.blocker.txn, to) && AllBlock(s, p)
    ensures Linked([x] + p, x.waiter.txn, to) && AllBlock(s, [x] + p)
  {
    var q := [x] + p;
    forall i | 0 < i < |q| ensures q[i].waiter.txn == q[i - 1].blocker.txn {
      assert q[i] == p[i - 1] && (1 < i ==> p[i - 1].waiter.txn == p[i - 1 - 1].blocker.txn);
    }
  }

  lemma {:induction false} WalkIsChain(s: State, c: seq<TxId>) returns (p: seq<Block>)
    requires 2 <= |c| && Walk(WaitForGraph(s), c)
    ensures Linked(p, c[0], Last(c)) && AllBlock(s, p)
  {
    assert Edge(WaitForGraph(s), c[0], c[1]);
    EdgeIffWaitsFor(s, c[0], c[1]);
    var x := EdgeIsBlock(s, c[0], c[1]);
    if |c| == 2 {
      p := [x];
    } else {
      TailIsWalk(WaitForGraph(s), c);
      var tail := WalkIsChain(s, c[1..]);
      OneMoreLink(s, x, tail, Last(c));
      p := [x] + tail;
    }
  }

  lemma TailIsWalk(g: Graph, c: seq<TxId>)
    requires 2 < |c| && Walk(g, c)
    ensures Walk(g, c[1..]) && c[1..][0] == c[1] && Last(c[1..]) == Last(c)
  {
    forall i | 0 <= i < |c[1..]| - 1 ensures Edge(g, c[1..][i], c[1..][i + 1]) {
      assert Edge(g, c[i + 1], c[i + 1 + 1]);
    }
  }

  lemma OnCycleIffRing(s: State, t: TxId)
    ensures OnCycle(WaitForGraph(s), t) <==> exists p :: Ring(s, p, t)
  {
    if OnCycle(WaitForGraph(s), t) {
      var c :| ClosedWalk(WaitForGraph(s), c) && c[0] == t;
      var p := WalkIsChain(s, c);
      assert Ring(s, p, t);
    }
    if p :| Ring(s, p, t) {
      var c := ChainIsWalk(s, p, t, t);
      assert ClosedWalk(WaitForGraph(s), c);
    }
  }

  // ---- what one step does to a block ----

  lemma RetainBefore(q: seq<Request>, keep: Filter, y: Request, x: Request)
    ensures Before(Retain(q, keep), y, x) <==> Before(q, y, x) && Keeps(keep, y) && Keeps(keep, x)
  {
    var kept := Retain(q, keep);
    if Before(kept, y, x) {
      var i, j :| 0 <= i < j < |kept| && kept[i] == y && kept[j] == x;
      var n, m := RetainPair(q, keep, i, j);
      assert kept[i] in kept && kept[j] in kept;
    }
    if Before(q, y, x) && Keeps(keep, y) && Keeps(keep, x) {
      var i, j :| 0 <= i < j < |q| && q[i] == y && q[j] == x;
      var n := RetainFinds(q, keep, j);
      assert q[..j][i] == y;
      var k :| 0 <= k < n && kept[..n][k] == y;
      assert kept[k] == y && kept[n] == x;
    }
  }

  /** A granted request's call has returned. */
  ghost predicate HoldersReturned(w: World) {
    forall key, r | r in At(w.table.granted, key) :: r.id in w.used && r.id !in w.tickets
  }

  lemma RemovalOnBlock(s: State, key: LockKey, id: nat, x: Block)
    ensures var q := At(s.waiting, x.key);
            Blocks(RemoveWaiter(s, key, id), x) <==>
              && Blocks(s, x)
              && !(x.key == key && (x.waiter.id == id || (x.blocker.id == id && x.blocker !in At(s.granted, key))))
  {
    AtRetain(s.waiting, key, ExceptId(id), x.key);
    RetainBefore(At(s.waiting, x.key), ExceptId(id), x.blocker, x.waiter);
  }

  /** A request that may run blocks afterwards just whom it blocked while it waited. */
  lemma GrantOnBlock(s: State, key: LockKey, r: Request, x: Block)
    requires IsWaiting(s, key, r.id) && CanRun(s, key, PositionOf(At(s.waiting, key), r.id))
    requires forall y | y in At(s.waiting, key) && y.id == r.id :: y == r
    requires forall i, j | 0 <= i < j < |At(s.waiting, key)| :: At(s.waiting, key)[i] != At(s.waiting, key)[j]
    ensures Blocks(Grant(RemoveWaiter(s, key, r.id), key, r), x) <==> Blocks(s, x)
  {
    var q := At(s.waiting, key);
    var position := PositionOf(q, r.id);
    assert q[position] in q;
    RemovalOnBlock(s, key, r.id, x);
    AtRetain(s.waiting, key, ExceptId(r.id), x.key);
    if x.key == key {
      if x.blocker == r && x.waiter in q && Conflicts(x.waiter, r) {
        var j := RunnerIsAhead(s, key, position, x.waiter);
        assert Before(q, r, x.waiter);
      }
      if Blocks(s, x) && x.waiter.id == r.id {
        RunnerIsNotBlocked(s, position, x);
      }
      if Blocks(s, x) && x.blocker.id == r.id && x.blocker !in At(s.granted, key) {
        var i, j :| 0 <= i < j < |q| && q[i] == x.blocker && q[j] == x.waiter;
        assert q[i] in q;
      }
    }
  }

  lemma RunnerIsNotBlocked(s: State, position: nat, x: Block)
    requires position < |At(s.waiting, x.key)| && At(s.waiting, x.key)[position] == x.waiter
    requires CanRun(s, x.key, position)
    requires var q := At(s.waiting, x.key); forall i, j | 0 <= i < j < |q| :: q[i] != q[j]
    ensures !Blocks(s, x)
  {
    var q := At(s.waiting, x.key);
    if Before(q, x.blocker, x.waiter) {
      var i, j :| 0 <= i < j < |q| && q[i] == x.blocker && q[j] == x.waiter;
      assert j == position;
    }
  }

  // ---- who leaves ----

  /** The poll of `id` refuses it. */
  ghost predicate RefusedNow(w: World, id: nat, cancelled: bool, expired: bool)
    requires id in w.tickets
  {
    Poll(w.table, w.tickets[id].key, w.tickets[id].request, cancelled, expired).1.Refused?
  }

  /** At this step the request leaves its key: refused at its own poll, released with its
      transaction, or released by itself once granted. */
  ghost predicate Leaves(limit: nat, w: World, step: Step, key: LockKey, r: Request)
    requires Enabled(w, step)
  {
    match step
    case EnterStep(k, q, cancelled, expired) =>
      Queued(limit, w, step) && q.id == r.id && RefusedNow(EnqueueWorld(w, k, q), q.id, cancelled, expired)
    case WakeStep(id, cancelled, expired) => id == r.id && RefusedNow(w, id, cancelled, expired)
    case ReleaseTransactionStep(t) => t == r.txn
    case ReleaseRequestStep(k, id) => k == key && id == r.id && r in At(w.table.granted, key)
  }

  /** The table in which this step's search, if it makes one, looks for cycles. */
  ghost function Searched(limit: nat, w: World, step: Step): State {
    if Queued(limit, w, step) then Enqueue(w.table, step.key, step.request) else w.table
  }

  lemma BlockIsTicketed(w: World, x: Block, id: nat)
    requires WaitersTicketed(w) && HoldersReturned(w) && Blocks(w.table, x) && id in w.tickets
    requires id in {x.waiter.id, x.blocker.id}
    ensures w.tickets[id].key == x.key && IsWaiting(w.table, x.key, id)
    ensures x.blocker.id == id ==> x.blocker !in At(w.table.granted, x.key)
  {
    var q := At(w.table.waiting, x.key);
    if x.blocker.id == id {
      var i, j :| 0 <= i < j < |q| && q[i] == x.blocker && q[j] == x.waiter;
      assert q[i] in q;
    }
  }

  lemma RefusedOnBlock(w: World, id: nat, x: Block)
    requires WaitersTicketed(w) && HoldersReturned(w) && id in w.tickets
    ensures Blocks(RemoveWaiter(w.table, w.tickets[id].key, id), x) <==>
              Blocks(w.table, x) && id !in {x.waiter.id, x.blocker.id}
  {
    RemovalOnBlock(w.table, w.tickets[id].key, id, x);
    if Blocks(w.table, x) && id in {x.waiter.id, x.blocker.id} {
      BlockIsTicketed(w, x, id);
    }
  }

  lemma GrantedOnBlock(w: World, id: nat, x: Block)
    requires WaitersTicketed(w) && InArrivalOrder(w) && id in w.tickets
    requires var key := w.tickets[id].key;
             IsWaiting(w.table, key, id) && CanRun(w.table, key, PositionOf(At(w.table.waiting, key), id))
    ensures var ticket := w.tickets[id];
            Blocks(Grant(RemoveWaiter(w.table, ticket.key, id), ticket.key, ticket.request), x) <==> Blocks(w.table, x)
  {
    var q := At(w.table.waiting, w.tickets[id].key);
    forall i, j | 0 <= i < j < |q| ensures q[i] != q[j] {
      assert w.arrival[q[i].id] < w.arrival[q[j].id];
    }
    GrantOnBlock(w.table, w.tickets[id].key, w.tickets[id].request, x);
  }

  lemma FlagsDoNotBlock(s: State, s': State, x: Block)
    requires s.granted == s'.granted && s.waiting == s'.waiting
    ensures Blocks(s, x) <==> Blocks(s', x)
  {
  }

  lemma PollOnBlock(w: World, id: nat, cancelled: bool, expired: bool, x: Block)
    requires WaitersTicketed(w) && InArrivalOrder(w) && HoldersReturned(w) && id in w.tickets
    ensures Blocks(PollWorld(w, id, cancelled, expired).table, x) <==>
              Blocks(w.table, x) && !(RefusedNow(w, id, cancelled, expired) && id in {x.waiter.id, x.blocker.id})
  {
    var s, ticket := w.table, w.tickets[id];
    var (after, verdict) := Poll(s, ticket.key, ticket.request, cancelled, expired);
    RefusedOnBlock(w, id, x);
    if verdict.Granted? {
      GrantedOnBlock(w, id, x);
    } else if after.waiting == RemoveWaiter(s, ticket.key, id).waiting {
      FlagsDoNotBlock(after, RemoveWaiter(s, ticket.key, id), x);
    } else if verdict.Refused? && Blocks(s, x) && id in {x.waiter.id, x.blocker.id} {
      BlockIsTicketed(w, x, id);
    }
  }

  lemma EnqueueOnBlock(s: State, key: LockKey, r: Request, x: Block)
    ensures Blocks(Enqueue(s, key, r), x) <==>
              Blocks(s, x) || (x.key == key && x.waiter == r && Conflicts(r, x.blocker)
                               && x.blocker in At(s.granted, key) + At(s.waiting, key))
  {
    var q := At(s.waiting, key);
    if Before(q, x.blocker, x.waiter) {
      var i, j :| 0 <= i < j < |q| && q[i] == x.blocker && q[j] == x.waiter;
      assert (q + [r])[i] == x.blocker && (q + [r])[j] == x.waiter;
    }
    if x.waiter == r && x.blocker in q {
      var i :| 0 <= i < |q| && q[i] == x.blocker;
      assert (q + [r])[i] == x.blocker && (q + [r])[|q|] == r;
    }
    if Before(q + [r], x.blocker, x.waiter) {
      var i, j :| 0 <= i < j < |q + [r]| && (q + [r])[i] == x.blocker && (q + [r])[j] == x.waiter;
      assert q[i] == x.blocker && (j < |q| ==> q[j] == x.waiter);
    }
  }

  lemma ReleaseOnBlock(s: State, t: TxId, x: Block)
    ensures Blocks(ReleaseTransaction(s, t), x) <==> Blocks(s, x) && x.waiter.txn != t && x.blocker.txn != t
  {
    var keep := ExceptTransaction(t);
    AtRetain(s.granted, x.key, keep, x.key);
    AtRetain(s.waiting, x.key, keep, x.key);
    RetainBefore(At(s.waiting, x.key), keep, x.blocker, x.waiter);
  }

  lemma ReleaseRequestOnBlock(w: World, key: LockKey, id: nat, x: Block)
    requires WaitersTicketed(w) && HoldersReturned(w)
    ensures Blocks(ReleaseRequest(w.table, key, id), x) <==>
              Blocks(w.table, x) && !(x.key == key && x.blocker.id == id && x.blocker in At(w.table.granted, key))
  {
    var q := At(w.table.waiting, x.key);
    AtRetain(w.table.granted, key, ExceptId(id), x.key);
    if Before(q, x.blocker, x.waiter) {
      var i, j :| 0 <= i < j < |q| && q[i] == x.blocker && q[j] == x.waiter;
      assert q[i] in q;
    }
  }

  lemma ImmediateGrantOnBlock(s: State, key: LockKey, r: Request, x: Block)
    requires CanGrantImmediately(s, key, r)
    ensures Blocks(Grant(s, key, r), x) <==> Blocks(s, x)
  {
  }

  lemma EnteringOnBlock(w: World, key: LockKey, r: Request, cancelled: bool, expired: bool, x: Block)
    requires Inv(w) && HoldersReturned(w) && r.id !in w.used
    ensures var w1 := EnqueueWorld(w, key, r);
            Blocks(PollWorld(w1, r.id, cancelled, expired).table, x) <==>
              Blocks(Enqueue(w.table, key, r), x)
              && !(RefusedNow(w1, r.id, cancelled, expired) && r.id in {x.waiter.id, x.blocker.id})
  {
    var w1 := EnqueueWorld(w, key, r);
    EnqueuedTickets(w, key, r, w1);
    PollOnBlock(w1, r.id, cancelled, expired, x);
    assert Blocks(w1.table, x) <==> Blocks(Enqueue(w.table, key, r), x);
  }

  /** A step leaves blocked exactly those who were, once its request is queued, and neither of
      whose requests leaves. */
  lemma StepOnBlock(limit: nat, w: World, step: Step, x: Block)
    requires Inv(w) && HoldersReturned(w) && Enabled(w, step)
    ensures Blocks(Next(limit, w, step).table, x) <==>
              && Blocks(Searched(limit, w, step), x)
              && !Leaves(limit, w, step, x.key, x.waiter) && !Leaves(limit, w, step, x.key, x.blocker)
  {
    match step
    case EnterStep(key, r, cancelled, expired) =>
      if Queued(limit, w, step) {
        EnteringOnBlock(w, key, r, cancelled, expired, x);
      } else if !MustQueue(w.table, key, r) {
        ImmediateGrantOnBlock(w.table, key, r, x);
      }
    case WakeStep(id, cancelled, expired) => PollOnBlock(w, id, cancelled, expired, x);
    case ReleaseTransactionStep(t) => ReleaseOnBlock(w.table, t, x);
    case ReleaseRequestStep(key, id) =>
      ReleaseRequestOnBlock(w, key, id, x);
      if Blocks(w.table, x) {
        WaiterIsNotGranted(w, x);
      }
  }

  lemma WaiterIsNotGranted(w: World, x: Block)
    requires WaitersTicketed(w) && HoldersReturned(w) && Blocks(w.table, x)
    ensures x.waiter !in At(w.table.granted, x.key)
  {
  }

  lemma PollKeepsReturned(w: World, id: nat, cancelled: bool, expired: bool)
    requires WaitersTicketed(w) && HoldersReturned(w) && id in w.tickets
    ensures HoldersReturned(PollWorld(w, id, cancelled, expired))
  {
    var w', ticket := PollWorld(w, id, cancelled, expired), w.tickets[id];
    forall key, r | r in At(w'.table.granted, key) ensures r.id in w'.used && r.id !in w'.tickets {
      assert r in At(w.table.granted, key) || r == ticket.request;
    }
  }

  lemma StepKeepsReturned(limit: nat, w: World, step: Step)
    requires Inv(w) && HoldersReturned(w) && Enabled(w, step)
    ensures HoldersReturned(Next(limit, w, step))
  {
    match step
    case EnterStep(key, r, cancelled, expired) =>
      if Queued(limit, w, step) {
        EnqueuedTickets(w, key, r, EnqueueWorld(w, key, r));
        PollKeepsReturned(EnqueueWorld(w, key, r), r.id, cancelled, expired);
      } else {
        forall k, held | held in At(Next(limit, w, step).table.granted, k)
          ensures held.id in w.used + {r.id} && held.id !in w.tickets
        {
          assert held in At(w.table.granted, k) || held == r;
        }
      }
    case WakeStep(id, cancelled, expired) => PollKeepsReturned(w, id, cancelled, expired);
    case ReleaseTransactionStep(t) => FewerHoldersReturned(w, Next(limit, w, step), ExceptTransaction(t));
    case ReleaseRequestStep(key, id) => FewerHoldersReturned(w, Next(limit, w, step), ExceptId(id));
  }

  lemma FewerHoldersReturned(w: World, w': World, keep: Filter)
    requires HoldersReturned(w) && w'.used == w.used && w'.tickets == w.tickets
    requires || w'.table.granted == RetainAll(w.table.granted, keep)
             || exists key :: w'.table.granted == RetainAt(w.table.granted, key, keep)
    ensures HoldersReturned(w')
  {
    forall key, r | r in At(w'.table.granted, key) ensures r in At(w.table.granted, key) {
      AtRetain(w.table.granted, key, keep, key);
      if k :| w'.table.granted == RetainAt(w.table.granted, k, keep) {
        AtRetain(w.table.granted, k, keep, key);
      }
    }
  }

  lemma {:induction false} ReachableReturned(limit: nat, steps: seq<Step>)
    requires Legal(limit, steps)
    ensures Inv(Run(limit, steps)) && HoldersReturned(Run(limit, steps))
    decreases |steps|
  {
    ReachableInv(limit, steps);
    if steps != [] {
      ReachableInv(limit, steps[..|steps| - 1]);
      ReachableReturned(limit, steps[..|steps| - 1]);
      StepKeepsReturned(limit, Run(limit, steps[..|steps| - 1]), steps[|steps| - 1]);
    }
  }

  // ---- over a run ----

  /** No request of the ring leaves at this step. */
  ghost predicate AllStay(limit: nat, w: World, step: Step, p: seq<Block>)
    requires Enabled(w, step)
  {
    forall x | x in p :: !Leaves(limit, w, step, x.key, x.waiter) && !Leaves(limit, w, step, x.key, x.blocker)
  }

  lemma RingAfterStep(limit: nat, w: World, step: Step, p: seq<Block>, t: TxId)
    requires Inv(w) && HoldersReturned(w) && Enabled(w, step)
    ensures Ring(Next(limit, w, step).table, p, t) <==>
              Ring(Searched(limit, w, step), p, t) && AllStay(limit, w, step, p)
    ensures Ring(w.table, p, t) ==> Ring(Searched(limit, w, step), p, t)
  {
    forall x | x in p
      ensures Blocks(Next(limit, w, step).table, x) <==>
                && Blocks(Searched(limit, w, step), x)
                && !Leaves(limit, w, step, x.key, x.waiter) && !Leaves(limit, w, step, x.key, x.blocker)
      ensures Blocks(w.table, x) ==> Blocks(Searched(limit, w, step), x)
    {
      StepOnBlock(limit, w, step, x);
      if Queued(limit, w, step) {
        EnqueueOnBlock(w.table, step.key, step.request, x);
      }
    }
  }

  ghost predicate SeenAt(limit: nat, steps: seq<Step>, n: nat, p: seq<Block>, t: TxId)
    requires n < |steps|
  {
    && Legal(limit, steps[..n]) && Queued(limit, Run(limit, steps[..n]), steps[n])
    && Ring(Searched(limit, Run(limit, steps[..n]), steps[n]), p, t)
  }

  ghost predicate StaysAt(limit: nat, steps: seq<Step>, m: nat, p: seq<Block>)
    requires m < |steps|
  {
    && Legal(limit, steps[..m]) && Enabled(Run(limit, steps[..m]), steps[m])
    && AllStay(limit, Run(limit, steps[..m]), steps[m], p)
  }

  /** The search made at step `n` saw the ring, and since then none of its requests was
      refused or released. */
  ghost predicate SeenAndStays(limit: nat, steps: seq<Step>, n: nat, p: seq<Block>, t: TxId) {
    n < |steps| && SeenAt(limit, steps, n, p, t) && forall m | n <= m < |steps| :: StaysAt(limit, steps, m, p)
  }

  lemma SeenAndStaysGrows(limit: nat, front: seq<Step>, last: Step, n: nat, p: seq<Block>, t: TxId)
    requires Legal(limit, front) && Enabled(Run(limit, front), last)
    ensures var w := Run(limit, front);
            SeenAndStays(limit, front + [last], n, p, t) <==>
              && AllStay(limit, w, last, p)
              && (SeenAndStays(limit, front, n, p, t)
                  || (n == |front| && Queued(limit, w, last) && Ring(Searched(limit, w, last), p, t)))
  {
    var steps := front + [last];
    assert steps[..|front|] == front;
    assert StaysAt(limit, steps, |front|, p) <==> AllStay(limit, Run(limit, front), last, p);
    forall m: nat | m < |front|
      ensures StaysAt(limit, steps, m, p) == StaysAt(limit, front, m, p)
      ensures SeenAt(limit, steps, m, p, t) == SeenAt(limit, front, m, p, t)
    {
      assert steps[..m] == front[..m];
    }
    if n == |front| {
      assert SeenAt(limit, steps, n, p, t) <==>
          Queued(limit, Run(limit, front), last) && Ring(Searched(limit, Run(limit, front), last), p, t);
    }
  }

  /** In every reachable state the rings are exactly those that some search saw and that have
      lost no request since. */
  lemma {:induction false} RingIffSeenAndStays(limit: nat, steps: seq<Step>, p: seq<Block>, t: TxId)
    requires Legal(limit, steps)
    ensures Ring(Run(limit, steps).table, p, t) <==> exists n :: SeenAndStays(limit, steps, n, p, t)
    decreases |steps|
  {
    if steps == [] {
      assert Linked(p, t, t) ==> p[0] in p && !Blocks(Empty, p[0]);
    } else {
      var front, last := steps[..|steps| - 1], steps[|steps| - 1];
      assert steps == front + [last];
      RingIffSeenAndStays(limit, front, p, t);
      ReachableReturned(limit, front);
      RingAfterStep(limit, Run(limit, front), last, p, t);
      forall n: nat {
        SeenAndStaysGrows(limit, front, last, n, p, t);
      }
      assert SeenAndStays(limit, steps, |front|, p, t) <==>
          && AllStay(limit, Run(limit, front), last, p)
          && (SeenAndStays(limit, front, |front|, p, t)
              || (Queued(limit, Run(limit, front), last) && Ring(Searched(limit, Run(limit, front), last), p, t)));
    }
  }

  /** A transaction is deadlocked exactly if some search of the run saw a ring of blocked
      requests through it none of which has been refused or released since. */
  lemma DeadlockedIffRingStays(limit: nat, steps: seq<Step>, t: TxId)
    requires Legal(limit, steps)
    ensures OnCycle(WaitForGraph(Run(limit, steps).table), t) <==> exists n, p :: SeenAndStays(limit, steps, n, p, t)
  {
    OnCycleIffRing(Run(limit, steps).table, t);
    var s := Run(limit, steps).table;
    if p :| Ring(s, p, t) {
      RingIffSeenAndStays(limit, steps, p, t);
      var n :| SeenAndStays(limit, steps, n, p, t);
    }
    if n, p :| SeenAndStays(limit, steps, n, p, t) {
      RingIffSeenAndStays(limit, steps, p, t);
      assert Ring(s, p, t);
    }
  }

  // ---- when a delivered abort is genuine ----

  /** A flag that is delivered at a later poll is stale exactly if every ring through the
      transaction that any search saw has lost a request since. */
  lemma LaterAbortIsStaleIff(limit: nat, steps: seq<Step>, id: nat, cancelled: bool, expired: bool)
    requires Legal(limit, steps) && id in Run(limit, steps).tickets
    ensures var w := Run(limit, steps);
            var t := w.tickets[id].request.txn;
            && (Poll(w.table, w.tickets[id].key, w.tickets[id].request, cancelled, expired).1 == Refused("40P01")
                <==> exists n :: NamedAndKept(limit, steps, n, t))
            && (!OnCycle(WaitForGraph(w.table), t) <==> forall n, p :: !SeenAndStays(limit, steps, n, p, t))
  {
    AbortIffNamedAndKept(limit, steps, id, cancelled, expired);
    DeadlockedIffRingStays(limit, steps, Run(limit, steps).tickets[id].request.txn);
  }

  /** The search that raised the flag saw a ring through the transaction; if one such ring has
      lost no request since, the transaction is still deadlocked, and so it is when another of
      its requests enters. */
  lemma FlagIsGenuineWhileRingStays(limit: nat, steps: seq<Step>, n: nat, t: TxId)
    requires Legal(limit, steps) && NamedAndKept(limit, steps, n, t)
    ensures exists p :: SeenAt(limit, steps, n, p, t)
    ensures forall p | SeenAndStays(limit, steps, n, p, t) :: Ring(Run(limit, steps).table, p, t)
    ensures forall p, key, r | SeenAndStays(limit, steps, n, p, t) ::
              Ring(Enqueue(Run(limit, steps).table, key, r), p, t)
  {
    var s := Searched(limit, Run(limit, steps[..n]), steps[n]);
    NoVictimIffAcyclic(WaitForGraph(s));
    OnCycleIffRing(s, t);
    var p :| Ring(s, p, t);
    assert SeenAt(limit, steps, n, p, t);
    forall p | SeenAndStays(limit, steps, n, p, t) ensures Ring(Run(limit, steps).table, p, t) {
      RingIffSeenAndStays(limit, steps, p, t);
    }
    forall p, key, r | SeenAndStays(limit, steps, n, p, t)
      ensures Ring(Enqueue(Run(limit, steps).table, key, r), p, t)
    {
      RingIffSeenAndStays(limit, steps, p, t);
      RingSurvivesQueueing(Run(limit, steps).table, key, r, p, t);
    }
  }

  lemma RingSurvivesQueueing(s: State, key: LockKey, r: Request, p: seq<Block>, t: TxId)
    requires Ring(s, p, t)
    ensures Ring(Enqueue(s, key, r), p, t)
  {
    forall x | x in p ensures Blocks(Enqueue(s, key, r), x) {
      EnqueueOnBlock(s, key, r, x);
    }
  }

  ghost predicate Uses(p: seq<Block>, r: Request) {
    exists x | x in p :: x.waiter == r
  }

  lemma PollAbortsFlagged(s: State, key: LockKey, r: Request, cancelled: bool, expired: bool)
    ensures Poll(s, key, r, cancelled, expired).1 == Refused("40P01") <==> r.txn in s.victims
  {
  }

  lemma EnterAbortsFlagged(limit: nat, s: State, key: LockKey, r: Request, cancelled: bool, expired: bool)
    ensures Enter(limit, s, key, r, cancelled, expired).1 == Refused("40P01") <==>
              && MustQueue(s, key, r) && TotalWaiting(s.waiting) < limit
              && (Victim(WaitForGraph(Enqueue(s, key, r))) == Some(r.txn) || r.txn in s.victims)
  {
    PollAbortsFlagged(FlagVictim(Enqueue(s, key, r)), key, r, cancelled, expired);
  }

  /** An acquire ends in a deadlock abort on entering exactly if it had to queue and its
      transaction was flagged before or is named by the search made now. */
  lemma EnteringAbortIff(limit: nat, steps: seq<Step>, key: LockKey, r: Request, cancelled: bool, expired: bool)
    requires Legal(limit, steps)
    ensures var before := Run(limit, steps).table;
            Enter(limit, before, key, r, cancelled, expired).1 == Refused("40P01") <==>
              && MustQueue(before, key, r) && TotalWaiting(before.waiting) < limit
              && (|| Victim(WaitForGraph(Enqueue(before, key, r))) == Some(r.txn)
                  || exists n :: NamedAndKept(limit, steps, n, r.txn))
  {
    FlaggedIffNamedAndKept(limit, steps, r.txn);
    EnterAbortsFlagged(limit, Run(limit, steps).table, key, r, cancelled, expired);
  }

  /** Such an abort is genuine exactly if a ring seen before has lost no request, or the entering
      request closes one. */
  lemma EnteringAbortIsGenuineIff(limit: nat, steps: seq<Step>, key: LockKey, r: Request)
    requires Legal(limit, steps)
    ensures var s := Enqueue(Run(limit, steps).table, key, r);
            OnCycle(WaitForGraph(s), r.txn) <==>
              || (exists n, p :: SeenAndStays(limit, steps, n, p, r.txn))
              || (exists p :: Ring(s, p, r.txn) && Uses(p, r))
  {
    var before := Run(limit, steps).table;
    var s := Enqueue(before, key, r);
    OnCycleIffRing(s, r.txn);
    forall p | Ring(s, p, r.txn) && !Uses(p, r)
      ensures exists n :: SeenAndStays(limit, steps, n, p, r.txn)
    {
      forall x | x in p ensures Blocks(before, x) {
        EnqueueOnBlock(before, key, r, x);
      }
      RingIffSeenAndStays(limit, steps, p, r.txn);
    }
    forall n, p | SeenAndStays(limit, steps, n, p, r.txn) ensures Ring(s, p, r.txn) {
      RingIffSeenAndStays(limit, steps, p, r.txn);
      RingSurvivesQueueing(before, key, r, p, r.txn);
    }
  }
}

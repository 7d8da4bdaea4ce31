/** What aborting a deadlock victim achieves: every flag that is delivered was raised by a search
    of the run and kept since, even if its cycle is gone by then; and one abort breaks every
    cycle exactly if the victim lies on all of them. */
module LockAborts {
  import opened Base
  import opened Deadlock
  import opened Locks
  import opened LockRuns

  // ---- when a transaction is flagged ----

  /** The search made at this step names `t`. */
  ghost predicate Names(limit: nat, w: World, step: Step, t: TxId) {
    Queued(limit, w, step) && Victim(WaitForGraph(Enqueue(w.table, step.key, step.request))) == Some(t)
  }

  /** This step would take a flag of `t` away: it polls for a request of `t`, or releases `t`. */
  ghost predicate Takes(limit: nat, w: World, step: Step, t: TxId)
    requires Enabled(w, step)
  {
    match step
    case EnterStep(_, r, _, _) => Queued(limit, w, step) && r.txn == t
    case WakeStep(id, _, _) => w.tickets[id].request.txn == t
    case ReleaseTransactionStep(released) => released == t
    case ReleaseRequestStep(_, _) => false
  }

  lemma FlagAfterStep(limit: nat, w: World, step: Step, t: TxId)
    requires Enabled(w, step)
    ensures t in Next(limit, w, step).table.victims
            <==> !Takes(limit, w, step, t) && (t in w.table.victims || Names(limit, w, step, t))
  {
    match step
    case EnterStep(key, r, cancelled, expired) =>
      if Queued(limit, w, step) {
        var flagged := EnqueueWorld(w, key, r);
        assert t in flagged.table.victims <==> t in w.table.victims || Names(limit, w, step, t);
        PollTakesOwnFlag(flagged, r.id, cancelled, expired, t);
      }
    case WakeStep(id, cancelled, expired) => PollTakesOwnFlag(w, id, cancelled, expired, t);
    case _ =>
  }

  lemma PollTakesOwnFlag(w: World, id: nat, cancelled: bool, expired: bool, t: TxId)
    requires id in w.tickets
    ensures t in PollWorld(w, id, cancelled, expired).table.victims
            <==> t in w.table.victims && t != w.tickets[id].request.txn
  {
  }

  /** The search at step `n` named `t`, and no step from then on took the flag away. */
  ghost predicate NamedAndKept(limit: nat, steps: seq<Step>, n: nat, t: TxId) {
    && n < |steps| && NamedAt(limit, steps, n, t)
    && forall m | n <= m < |steps| :: KeptAt(limit, steps, m, t)
  }

  ghost predicate NamedAt(limit: nat, steps: seq<Step>, n: nat, t: TxId)
    requires n < |steps|
  {
    Legal(limit, steps[..n]) && Names(limit, Run(limit, steps[..n]), steps[n], t)
  }

  ghost predicate KeptAt(limit: nat, steps: seq<Step>, m: nat, t: TxId)
    requires m < |steps|
  {
    && Legal(limit, steps[..m]) && Enabled(Run(limit, steps[..m]), steps[m])
    && !Takes(limit, Run(limit, steps[..m]), steps[m], t)
  }

  lemma LegalPrefix(limit: nat, steps: seq<Step>, step: Step, n: nat, t: TxId)
    requires n < |steps|
    ensures NamedAt(limit, steps + [step], n, t) == NamedAt(limit, steps, n, t)
    ensures KeptAt(limit, steps + [step], n, t) == KeptAt(limit, steps, n, t)
  {
    assert (steps + [step])[..n] == steps[..n];
  }

  lemma NamedAndKeptGrows(limit: nat, front: seq<Step>, last: Step, n: nat, t: TxId)
    requires Legal(limit, front) && Enabled(Run(limit, front), last)
    ensures NamedAndKept(limit, front + [last], n, t)
            <==> && !Takes(limit, Run(limit, front), last, t)
                 && (NamedAndKept(limit, front, n, t) || (n == |front| && Names(limit, Run(limit, front), last, t)))
  {
    var steps := front + [last];
    assert steps[..|front|] == front;
    assert KeptAt(limit, steps, |front|, t) <==> !Takes(limit, Run(limit, front), last, t);
    forall m: nat | m < |front|
      ensures KeptAt(limit, steps, m, t) == KeptAt(limit, front, m, t)
              && NamedAt(limit, steps, m, t) == NamedAt(limit, front, m, t)
    {
      LegalPrefix(limit, front, last, m, t);
    }
    if n == |front| {
      assert NamedAt(limit, steps, n, t) <==> Names(limit, Run(limit, front), last, t);
    }
  }

  /** A transaction is flagged exactly if some search of the run named it and, from then on, no
      request of it was polled and it was not released. */
  lemma {:induction false} FlaggedIffNamedAndKept(limit: nat, steps: seq<Step>, t: TxId)
    requires Legal(limit, steps)
    ensures t in Run(limit, steps).table.victims <==> exists n :: NamedAndKept(limit, steps, n, t)
  {
    if steps != [] {
      var front, last := steps[..|steps| - 1], steps[|steps| - 1];
      assert steps == front + [last];
      FlaggedIffNamedAndKept(limit, front, t);
      FlagAfterStep(limit, Run(limit, front), last, t);
      forall n: nat {
        NamedAndKeptGrows(limit, front, last, n, t);
      }
      assert NamedAndKept(limit, steps, |front|, t)
        <==> !Takes(limit, Run(limit, front), last, t)
             && (NamedAndKept(limit, front, |front|, t) || Names(limit, Run(limit, front), last, t));
    }
  }

  /** Any poll of a waiting request ends in a deadlock abort exactly if an earlier search named
      its transaction and the flag was kept since. */
  lemma AbortIffNamedAndKept(limit: nat, steps: seq<Step>, id: nat, cancelled: bool, expired: bool)
    requires Legal(limit, steps) && id in Run(limit, steps).tickets
    ensures var w := Run(limit, steps);
            var ticket := w.tickets[id];
            Poll(w.table, ticket.key, ticket.request, cancelled, expired).1 == Refused("40P01")
            <==> exists n :: NamedAndKept(limit, steps, n, ticket.request.txn)
  {
    FlaggedIffNamedAndKept(limit, steps, Run(limit, steps).tickets[id].request.txn);
  }

  /** When its flag was raised, the transaction lay on a cycle, as the largest on any. */
  lemma NamedWasOnCycle(limit: nat, steps: seq<Step>, n: nat, t: TxId, c: seq<TxId>)
    requires NamedAndKept(limit, steps, n, t)
    ensures var g := WaitForGraph(Enqueue(Run(limit, steps[..n]).table, steps[n].key, steps[n].request));
            OnCycle(g, t) && (ClosedWalk(g, c) ==> forall i | 0 <= i < |c| :: c[i] <= t)
  {
    NoVictimIffAcyclic(WaitForGraph(Enqueue(Run(limit, steps[..n]).table, steps[n].key, steps[n].request)));
  }

  // ---- what releasing the victim breaks ----

  /** A kept request keeps everything kept that was ahead of it. */
  lemma {:induction false} RetainFinds(q: seq<Request>, keep: Filter, m: nat) returns (n: nat)
    requires m < |q| && Keeps(keep, q[m])
    ensures n < |Retain(q, keep)| && Retain(q, keep)[n] == q[m]
    ensures forall r | r in q[..m] && Keeps(keep, r) :: r in Retain(q, keep)[..n]
  {
    var front := q[..|q| - 1];
    if m < |front| {
      n := RetainFinds(front, keep, m);
      assert front[..m] == q[..m] && Retain(q, keep)[..n] == Retain(front, keep)[..n];
    } else {
      n := |Retain(front, keep)|;
      assert q[..m] == front && Retain(q, keep)[..n] == Retain(front, keep);
    }
  }

  lemma ReleasedHasNoEdges(s: State, v: TxId, a: TxId, b: TxId)
    requires WaitsFor(ReleaseTransaction(s, v), a, b)
    ensures a != v && b != v && WaitsFor(s, a, b)
  {
    var s', keep := ReleaseTransaction(s, v), ExceptTransaction(v);
    ReleaseTransactionShrinks(s, v);
    var key, n :| Contributes(s', key, n, a, b);
    AtRetain(s.granted, key, keep, key);
    AtRetain(s.waiting, key, keep, key);
    var q' := At(s'.waiting, key);
    assert q'[n] in q' && Keeps(keep, q'[n]);
    var r :| r in Ahead(s', key, n) && r.txn == b;
    assert r in At(s'.granted, key) || r in q';
    assert Keeps(keep, r);
  }

  lemma ReleaseKeepsOtherEdges(s: State, v: TxId, a: TxId, b: TxId)
    requires a != v && b != v && WaitsFor(s, a, b)
    ensures WaitsFor(ReleaseTransaction(s, v), a, b)
  {
    var s', keep := ReleaseTransaction(s, v), ExceptTransaction(v);
    var key, m :| Contributes(s, key, m, a, b);
    AtRetain(s.granted, key, keep, key);
    AtRetain(s.waiting, key, keep, key);
    var q := At(s.waiting, key);
    var n := RetainFinds(q, keep, m);
    var r :| r in Ahead(s, key, m) && Conflicts(q[m], r) && r.txn == b;
    BlockerKept(s, s', key, m, n, v, r);
    assert Contributes(s', key, n, a, b);
  }

  lemma BlockerKept(s: State, s': State, key: LockKey, m: nat, n: nat, v: TxId, r: Request)
    requires m < |At(s.waiting, key)| && n < |At(s'.waiting, key)| && r in Ahead(s, key, m) && r.txn != v
    requires At(s'.granted, key) == Retain(At(s.granted, key), ExceptTransaction(v))
    requires forall x | x in At(s.waiting, key)[..m] && x.txn != v :: x in At(s'.waiting, key)[..n]
    ensures r in Ahead(s', key, n)
  {
  }

  /** Releasing `v` takes away the edges at `v` and no others. */
  lemma ReleaseDropsOwnEdges(s: State, v: TxId, a: TxId, b: TxId)
    ensures WaitsFor(ReleaseTransaction(s, v), a, b) <==> a != v && b != v && WaitsFor(s, a, b)
  {
    if WaitsFor(ReleaseTransaction(s, v), a, b) {
      ReleasedHasNoEdges(s, v, a, b);
    } else if a != v && b != v && WaitsFor(s, a, b) {
      ReleaseKeepsOtherEdges(s, v, a, b);
    }
  }

  lemma WalkAvoids(g: Graph, g': Graph, v: TxId, c: seq<TxId>)
    requires forall a, b :: Edge(g', a, b) <==> a != v && b != v && Edge(g, a, b)
    ensures ClosedWalk(g', c) <==> ClosedWalk(g, c) && v !in c
  {
    if ClosedWalk(g', c) {
      forall i | 0 <= i < |c| ensures c[i] != v {
        assert Edge(g', c[if i == 0 then 0 else i - 1], c[if i == 0 then 1 else i]);
      }
    }
  }

  lemma CycleAvoiding(s: State, v: TxId, c: seq<TxId>)
    ensures Deadlocked(ReleaseTransaction(s, v), c) <==> Deadlocked(s, c) && v !in c
  {
    var s' := ReleaseTransaction(s, v);
    forall a, b ensures Edge(WaitForGraph(s'), a, b) <==> a != v && b != v && Edge(WaitForGraph(s), a, b) {
      EdgeIffWaitsFor(s, a, b);
      EdgeIffWaitsFor(s', a, b);
      ReleaseDropsOwnEdges(s, v, a, b);
    }
    WalkAvoids(WaitForGraph(s), WaitForGraph(s'), v, c);
  }

  /** Aborting and releasing a transaction leaves no deadlock if and only if it lies on every
      cycle. */
  lemma AbortBreaksAllIffOnEvery(s: State, v: TxId)
    ensures (forall c :: !Deadlocked(ReleaseTransaction(s, v), c)) <==> forall c | Deadlocked(s, c) :: v in c
  {
    forall c ensures Deadlocked(ReleaseTransaction(s, v), c) <==> Deadlocked(s, c) && v !in c {
      CycleAvoiding(s, v, c);
    }
  }

  // ---- two runs: an abort after the cycle is gone, and a cycle left after the abort ----

  const LIMIT := 8
  const Left := Table(1)
  const Right := Table(2)
  const Middle := Table(3)

  function Exclusively(id: nat, txn: TxId): Request { Request(id, txn, Exclusive) }

  lemma OneMoreStep(steps: seq<Step>, step: Step)
    requires Legal(LIMIT, steps) && Enabled(Run(LIMIT, steps), step)
    ensures Legal(LIMIT, steps + [step]) && Run(LIMIT, steps + [step]) == Next(LIMIT, Run(LIMIT, steps), step)
  {
    assert (steps + [step])[..|steps|] == steps;
  }

  function Entering(key: LockKey, r: Request): Step { EnterStep(key, r, false, false) }

  lemma GrantNext(steps: seq<Step>, key: LockKey, r: Request)
    requires Legal(LIMIT, steps) && r.id !in Run(LIMIT, steps).used
             && CanGrantImmediately(Run(LIMIT, steps).table, key, r)
    ensures var w, more := Run(LIMIT, steps), steps + [Entering(key, r)];
            Legal(LIMIT, more) && Run(LIMIT, more) == w.(table := Grant(w.table, key, r), used := w.used + {r.id})
  {
    OneMoreStep(steps, Entering(key, r));
  }

  /** A first waiter behind a conflicting holder, when the search does not name its transaction. */
  lemma WaitNext(steps: seq<Step>, key: LockKey, r: Request, holder: Request)
    requires Legal(LIMIT, steps)
    requires var w := Run(LIMIT, steps);
             && r.id !in w.used && At(w.table.waiting, key) == [] && r.txn !in w.table.victims
             && holder in At(w.table.granted, key) && Conflicts(r, holder) && TotalWaiting(w.table.waiting) < LIMIT
             && Victim(WaitForGraph(Enqueue(w.table, key, r))) != Some(r.txn)
    ensures var w, more := Run(LIMIT, steps), steps + [Entering(key, r)];
            Legal(LIMIT, more) && Run(LIMIT, more) == EnqueueWorld(w, key, r)
  {
    var w := Run(LIMIT, steps);
    OneMoreStep(steps, Entering(key, r));
    FirstWaiterWaits(FlagVictim(Enqueue(w.table, key, r)), key, r, holder);
    assert Queued(LIMIT, w, Entering(key, r));
  }

  lemma FirstWaiterWaits(s: State, key: LockKey, r: Request, holder: Request)
    requires At(s.waiting, key) == [r] && holder in At(s.granted, key) && Conflicts(r, holder) && r.txn !in s.victims
    ensures Poll(s, key, r, false, false) == (s, Waiting)
  {
    assert PositionOf([r], r.id) == 0;
    assert !HoldersCompatible(s, key, r);
  }

  lemma DescendingHasNoVictim(g: Graph)
    requires forall a, b | Edge(g, a, b) :: b < a
    ensures Victim(g) == None && forall c :: !ClosedWalk(g, c)
  {
    forall c ensures !ClosedWalk(g, c) {
      if ClosedWalk(g, c) {
        Descends(g, c, |c| - 1);
      }
    }
    NoVictimIffAcyclic(g);
  }

  lemma {:induction false} Descends(g: Graph, c: seq<TxId>, i: nat)
    requires (forall a, b | Edge(g, a, b) :: b < a) && Walk(g, c) && 0 < i < |c|
    ensures c[i] < c[0]
  {
    assert Edge(g, c[i - 1], c[i]);
    if 1 < i {
      Descends(g, c, i - 1);
    }
  }

  lemma TwoCycle(g: Graph, v: TxId, x: TxId)
    requires Edge(g, v, x) && Edge(g, x, v)
    ensures ClosedWalk(g, [v, x, v])
  {
  }

  /** The victim is the transaction on a cycle above which nobody waits. */
  lemma VictimIs(g: Graph, v: TxId, x: TxId)
    requires Edge(g, v, x) && Edge(g, x, v) && forall t | t in g :: t <= v
    ensures Victim(g) == Some(v)
  {
    TwoCycle(g, v, x);
    EdgeTargetOnCycle(g, [v, x, v], 0);
  }

  lemma EdgeOfWaiter(s: State, key: LockKey, r: Request, h: Request)
    requires r in At(s.waiting, key) && h in At(s.granted, key) && Conflicts(r, h)
    ensures Edge(WaitForGraph(s), r.txn, h.txn)
  {
    var n :| 0 <= n < |At(s.waiting, key)| && At(s.waiting, key)[n] == r;
    assert h in Ahead(s, key, n);
    assert Contributes(s, key, n, r.txn, h.txn);
    EdgeIffWaitsFor(s, r.txn, h.txn);
  }

  /** With at most one waiter a key, edges lead only from waiters to conflicting holders. */
  lemma SingleWaiterEdge(s: State, a: TxId, b: TxId) returns (key: LockKey, r: Request, h: Request)
    requires (forall key :: |At(s.waiting, key)| <= 1) && Edge(WaitForGraph(s), a, b)
    ensures r in At(s.waiting, key) && h in At(s.granted, key) && Conflicts(r, h) && r.txn == a && h.txn == b
  {
    EdgeIffWaitsFor(s, a, b);
    var n: int;
    key, n :| Contributes(s, key, n, a, b);
    r := At(s.waiting, key)[n];
    h :| h in Ahead(s, key, n) && Conflicts(r, h) && h.txn == b;
    assert At(s.waiting, key)[..0] == [];
  }

  lemma EnqueuedFirst(s: State, key: LockKey, r: Request)
    requires key !in s.waiting
    ensures Enqueue(s, key, r) == s.(waiting := s.waiting[key := [r]])
  {
    assert At(s.waiting, key) + [r] == [r];
  }

  lemma GrantedFirst(s: State, key: LockKey, r: Request)
    requires key !in s.granted
    ensures Grant(s, key, r) == s.(granted := s.granted[key := [r]])
  {
    assert At(s.granted, key) + [r] == [r];
  }

  lemma TotalOfOne(key: LockKey, r: Request)
    ensures TotalWaiting(map[key := [r]]) == 1
  {
    TotalWithout(map[key := [r]], key);
    assert map[key := [r]] - {key} == map[];
  }

  lemma TotalOfTwo(key: LockKey, r: Request, other: LockKey, x: Request)
    requires key != other
    ensures TotalWaiting(map[key := [r], other := [x]]) == 2
  {
    TotalWithout(map[key := [r], other := [x]], key);
    assert map[key := [r], other := [x]] - {key} == map[other := [x]];
    TotalOfOne(other, x);
  }

  const TwoHeld: Queues := map[Left := [Exclusively(1, 1)], Right := [Exclusively(2, 2)]]

  /** 1 and 2 each hold a key, and 2 waits for the key of 1. */
  lemma OneWaits() returns (steps: seq<Step>)
    ensures Legal(LIMIT, steps)
    ensures var w := Run(LIMIT, steps);
            w.table == State(TwoHeld, map[Left := [Exclusively(3, 2)]], {}) && w.used == {1, 2, 3}
            && w.tickets == map[3 := Ticket(Left, Exclusively(3, 2))]
  {
    steps := [];
    GrantedFirst(Run(LIMIT, steps).table, Left, Exclusively(1, 1));
    GrantNext(steps, Left, Exclusively(1, 1));
    steps := steps + [Entering(Left, Exclusively(1, 1))];
    assert Run(LIMIT, steps).table == State(map[Left := [Exclusively(1, 1)]], map[], {});
    GrantedFirst(Run(LIMIT, steps).table, Right, Exclusively(2, 2));
    GrantNext(steps, Right, Exclusively(2, 2));
    steps := steps + [Entering(Right, Exclusively(2, 2))];
    assert Run(LIMIT, steps).table == State(TwoHeld, map[], {});
    var s := State(TwoHeld, map[Left := [Exclusively(3, 2)]], {});
    EnqueuedFirst(State(TwoHeld, map[], {}), Left, Exclusively(3, 2));
    OnlyTwoWaits(s);
    WaitNext(steps, Left, Exclusively(3, 2), Exclusively(1, 1));
    steps := steps + [Entering(Left, Exclusively(3, 2))];
  }

  lemma OnlyTwoWaits(s: State)
    requires s.granted == TwoHeld && s.waiting == map[Left := [Exclusively(3, 2)]]
    ensures Victim(WaitForGraph(s)) == None && forall c :: !Deadlocked(s, c)
  {
    forall a, b | Edge(WaitForGraph(s), a, b) ensures b < a {
      var key, r, h := SingleWaiterEdge(s, a, b);
    }
    DescendingHasNoVictim(WaitForGraph(s));
  }

  /** 1 waits for the key of 2 as well, and the search names 2. */
  lemma BothWait() returns (steps: seq<Step>)
    ensures Legal(LIMIT, steps)
    ensures var w := Run(LIMIT, steps);
            && w.table == State(TwoHeld, map[Left := [Exclusively(3, 2)], Right := [Exclusively(4, 1)]], {2})
            && w.tickets == map[3 := Ticket(Left, Exclusively(3, 2)), 4 := Ticket(Right, Exclusively(4, 1))]
  {
    steps := OneWaits();
    TotalOfOne(Left, Exclusively(3, 2));
    var s := State(TwoHeld, map[Left := [Exclusively(3, 2)], Right := [Exclusively(4, 1)]], {});
    EnqueuedFirst(Run(LIMIT, steps).table, Right, Exclusively(4, 1));
    assert Run(LIMIT, steps).table.waiting[Right := [Exclusively(4, 1)]] == s.waiting;
    BothWaitVictim(s);
    WaitNext(steps, Right, Exclusively(4, 1), Exclusively(2, 2));
    steps := steps + [Entering(Right, Exclusively(4, 1))];
  }

  lemma BothWaitVictim(s: State)
    requires s.granted == TwoHeld && s.waiting == map[Left := [Exclusively(3, 2)], Right := [Exclusively(4, 1)]]
    ensures Victim(WaitForGraph(s)) == Some(2)
  {
    EdgeOfWaiter(s, Left, Exclusively(3, 2), Exclusively(1, 1));
    EdgeOfWaiter(s, Right, Exclusively(4, 1), Exclusively(2, 2));
    assert forall t | t in Waiters(s) :: t <= 2;
    VictimIs(WaitForGraph(s), 2, 1);
  }

  /** The flag outlives its cycle: 1 times out, nothing is deadlocked any more, and the next poll
      of 2 still ends in a deadlock abort. */
  lemma StaleAbort() returns (steps: seq<Step>, id: nat)
    ensures Legal(LIMIT, steps) && id in Run(LIMIT, steps).tickets
    ensures var w := Run(LIMIT, steps);
            && (forall c :: !Deadlocked(w.table, c))
            && Poll(w.table, w.tickets[id].key, w.tickets[id].request, false, false).1 == Refused("40P01")
  {
    steps := BothWait();
    id := 3;
    var w := Run(LIMIT, steps);
    OneMoreStep(steps, WakeStep(4, false, true));
    TimeOutOfOne(w.table);
    steps := steps + [WakeStep(4, false, true)];
    OnlyTwoWaits(Run(LIMIT, steps).table);
  }

  lemma TimeOutOfOne(s: State)
    requires s == State(TwoHeld, map[Left := [Exclusively(3, 2)], Right := [Exclusively(4, 1)]], {2})
    ensures Poll(s, Right, Exclusively(4, 1), false, true)
         == (State(TwoHeld, map[Left := [Exclusively(3, 2)]], {2}), Refused("55P03"))
  {
    var r := Exclusively(4, 1);
    assert r in At(s.waiting, Right) && PositionOf([r], 4) == 0 && Exclusively(2, 2) in At(s.granted, Right);
    assert !HoldersCompatible(s, Right, r);
    assert Retain([r], ExceptId(4)) == [];
    assert s.waiting - {Right} == map[Left := [Exclusively(3, 2)]];
  }

  function Sharing(id: nat, txn: TxId): Request { Request(id, txn, Shared) }

  const ThreeHeld: Queues :=
    map[Left := [Exclusively(1, 1)], Middle := [Exclusively(2, 1)], Right := [Sharing(3, 2), Sharing(4, 3)]]

  /** 1 holds two keys, 2 and 3 share a third. */
  lemma ThreeHold() returns (steps: seq<Step>)
    ensures Legal(LIMIT, steps)
    ensures var w := Run(LIMIT, steps);
            w.table == State(ThreeHeld, map[], {}) && w.used == {1, 2, 3, 4}
  {
    steps := [];
    GrantedFirst(Run(LIMIT, steps).table, Left, Exclusively(1, 1));
    GrantNext(steps, Left, Exclusively(1, 1));
    steps := steps + [Entering(Left, Exclusively(1, 1))];
    assert Run(LIMIT, steps).table == State(map[Left := [Exclusively(1, 1)]], map[], {});
    GrantedFirst(Run(LIMIT, steps).table, Middle, Exclusively(2, 1));
    GrantNext(steps, Middle, Exclusively(2, 1));
    steps := steps + [Entering(Middle, Exclusively(2, 1))];
    var two := map[Left := [Exclusively(1, 1)], Middle := [Exclusively(2, 1)]];
    assert Run(LIMIT, steps).table == State(two, map[], {});
    GrantedFirst(Run(LIMIT, steps).table, Right, Sharing(3, 2));
    GrantNext(steps, Right, Sharing(3, 2));
    steps := steps + [Entering(Right, Sharing(3, 2))];
    assert Run(LIMIT, steps).table == State(two[Right := [Sharing(3, 2)]], map[], {});
    GrantNext(steps, Right, Sharing(4, 3));
    steps := steps + [Entering(Right, Sharing(4, 3))];
    assert [Sharing(3, 2)] + [Sharing(4, 3)] == [Sharing(3, 2), Sharing(4, 3)];
  }

  const FirstQueue: Queues := map[Left := [Exclusively(5, 2)]]
  const SecondQueue: Queues := map[Left := [Exclusively(5, 2)], Middle := [Exclusively(6, 3)]]
  const ThirdQueue: Queues := map[Left := [Exclusively(5, 2)], Middle := [Exclusively(6, 3)],
                                  Right := [Exclusively(7, 1)]]

  lemma SmallerHoldersFirst(s: State)
    requires s.granted == ThreeHeld && (s.waiting == FirstQueue || s.waiting == SecondQueue)
    ensures Victim(WaitForGraph(s)) == None
  {
    forall a, b | Edge(WaitForGraph(s), a, b) ensures b < a {
      var key, r, h := SingleWaiterEdge(s, a, b);
    }
    DescendingHasNoVictim(WaitForGraph(s));
  }

  /** 2 and 3 each wait for a key of 1. */
  lemma FirstOfTwoWaits() returns (steps: seq<Step>)
    ensures Legal(LIMIT, steps)
    ensures var w := Run(LIMIT, steps);
            w.table == State(ThreeHeld, FirstQueue, {}) && w.used == {1, 2, 3, 4, 5}
  {
    steps := ThreeHold();
    EnqueuedFirst(Run(LIMIT, steps).table, Left, Exclusively(5, 2));
    SmallerHoldersFirst(State(ThreeHeld, FirstQueue, {}));
    WaitNext(steps, Left, Exclusively(5, 2), Exclusively(1, 1));
    steps := steps + [Entering(Left, Exclusively(5, 2))];
  }

  lemma TwoWait() returns (steps: seq<Step>)
    ensures Legal(LIMIT, steps)
    ensures var w := Run(LIMIT, steps);
            w.table == State(ThreeHeld, SecondQueue, {}) && w.used == {1, 2, 3, 4, 5, 6}
  {
    steps := FirstOfTwoWaits();
    TotalOfOne(Left, Exclusively(5, 2));
    EnqueuedFirst(Run(LIMIT, steps).table, Middle, Exclusively(6, 3));
    assert FirstQueue[Middle := [Exclusively(6, 3)]] == SecondQueue;
    SmallerHoldersFirst(State(ThreeHeld, SecondQueue, {}));
    WaitNext(steps, Middle, Exclusively(6, 3), Exclusively(2, 1));
    steps := steps + [Entering(Middle, Exclusively(6, 3))];
  }

  lemma CyclesThroughOne(s: State)
    requires s.granted == ThreeHeld && s.waiting == ThirdQueue
    ensures Victim(WaitForGraph(s)) == Some(3) && Deadlocked(s, [2, 1, 2])
  {
    EdgeOfWaiter(s, Left, Exclusively(5, 2), Exclusively(1, 1));
    EdgeOfWaiter(s, Middle, Exclusively(6, 3), Exclusively(2, 1));
    EdgeOfWaiter(s, Right, Exclusively(7, 1), Sharing(3, 2));
    EdgeOfWaiter(s, Right, Exclusively(7, 1), Sharing(4, 3));
    assert forall t | t in Waiters(s) :: t <= 3;
    VictimIs(WaitForGraph(s), 3, 1);
    TwoCycle(WaitForGraph(s), 2, 1);
  }

  lemma AllWait() returns (steps: seq<Step>)
    ensures Legal(LIMIT, steps) && Run(LIMIT, steps).table == State(ThreeHeld, ThirdQueue, {3})
  {
    steps := TwoWait();
    TotalOfTwo(Left, Exclusively(5, 2), Middle, Exclusively(6, 3));
    EnqueuedFirst(Run(LIMIT, steps).table, Right, Exclusively(7, 1));
    assert SecondQueue[Right := [Exclusively(7, 1)]] == ThirdQueue;
    CyclesThroughOne(State(ThreeHeld, ThirdQueue, {}));
    WaitNext(steps, Right, Exclusively(7, 1), Sharing(3, 2));
    steps := steps + [Entering(Right, Exclusively(7, 1))];
  }

  /** One victim is not enough: the last request closes two cycles that share only the
      requester, the search names 3, and with 3 aborted and released 1 and 2 are deadlocked. */
  lemma SecondCycleSurvives() returns (steps: seq<Step>)
    ensures Legal(LIMIT, steps)
    ensures var s := Run(LIMIT, steps).table;
            s.victims == {3} && Victim(WaitForGraph(s)) == Some(3) && Deadlocked(ReleaseTransaction(s, 3), [2, 1, 2])
  {
    steps := AllWait();
    var s := Run(LIMIT, steps).table;
    CyclesThroughOne(s);
    CycleAvoiding(s, 3, [2, 1, 2]);
  }
}

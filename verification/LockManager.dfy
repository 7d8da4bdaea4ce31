/** The lock manager as the program runs it: one object holding the two tables and the
    victim flags.  `acquire` sleeps between its turns, so its first critical section
    (`Enter`) and every later turn (`Poll`) are separate methods. */
module LockService {
  import opened Base
  import opened Deadlock
  import opened Locks

  class LockManager {
    const maximumWaiters: nat
    var granted: Queues
    var waiting: Queues
    var victims: set<TxId>

    function Table(): State
      reads this
    {
      State(granted, waiting, victims)
    }

    constructor (maximumWaiters: nat)
      requires maximumWaiters != 0
      ensures this.maximumWaiters == maximumWaiters && Table() == Empty
    {
      this.maximumWaiters := maximumWaiters;
      granted, waiting, victims := map[], map[], {};
    }

    method CountWaiting() returns (count: nat)
      ensures count == TotalWaiting(waiting)
    {
      count := 0;
      var pending := waiting;
      while pending != map[]
        invariant pending.Keys <= waiting.Keys && count + TotalWaiting(pending) == TotalWaiting(waiting)
        decreases |pending|
      {
        assert pending.Keys != {};
        var key :| key in pending;
        TotalWithout(pending, key);
        count := count + |pending[key]|;
        pending := pending - {key};
      }
    }

    /** The edges found so far: all positions of the keys in `done`, and the first `n` of `key`. */
    ghost predicate Scanned(done: set<LockKey>, key: LockKey, n: nat, k: LockKey, position: int)
      reads this
    {
      k in waiting && 0 <= position < |waiting[k]| && (k in done || (k == key && position < n))
    }

    ghost predicate Records(graph: Graph, done: set<LockKey>, key: LockKey, n: nat)
      reads this
    {
      && (forall a :: a in graph <==> exists k, j :: Scanned(done, key, n, k, j) && waiting[k][j].txn == a)
      && forall a, b :: Edge(graph, a, b) <==> exists k, j ::
          Scanned(done, key, n, k, j) && Contributes(Table(), k, j, a, b)
    }

    method AddPosition(graph: Graph, ghost done: set<LockKey>, key: LockKey, position: nat) returns (more: Graph)
      requires key in waiting && position < |waiting[key]| && key !in done
      requires Records(graph, done, key, position)
      ensures Records(more, done, key, position + 1)
    {
      var request := waiting[key][position];
      var edges := if request.txn in graph then graph[request.txn] else {};
      edges := edges + (set lock | lock in At(granted, key) && Conflicts(request, lock) :: lock.txn);
      edges := edges + (set earlier | earlier in waiting[key][..position] && Conflicts(request, earlier) ::
                        earlier.txn);
      more := graph[request.txn := edges];
      assert edges
          == (if request.txn in graph then graph[request.txn] else {}) + BlockersAt(Table(), key, position) by {
        forall b
          ensures b in BlockersAt(Table(), key, position) <==>
                  b in (set lock | lock in At(granted, key) && Conflicts(request, lock) :: lock.txn)
                       + (set earlier | earlier in waiting[key][..position] && Conflicts(request, earlier) ::
                          earlier.txn)
        {
        }
      }
      assert Scanned(done, key, position + 1, key, position);
      forall k, j
        ensures Scanned(done, key, position + 1, k, j) <==>
                  Scanned(done, key, position, k, j) || (k == key && j == position)
      {
      }
      forall a, b
        ensures Edge(more, a, b) <==> Edge(graph, a, b) || Contributes(Table(), key, position, a, b)
      {
      }
    }

    method BuildWaitForGraph() returns (graph: Graph)
      ensures graph == WaitForGraph(Table())
    {
      graph := map[];
      var pending := waiting.Keys;
      while pending != {}
        invariant pending <= waiting.Keys
        invariant Records(graph, waiting.Keys - pending, Database, 0)
      {
        var key :| key in pending;
        ghost var done := waiting.Keys - pending;
        RestartAt(graph, done, key);
        var position := 0;
        while position < |waiting[key]|
          invariant position <= |waiting[key]| && Records(graph, done, key, position)
        {
          graph := AddPosition(graph, done, key, position);
          position := position + 1;
        }
        pending := pending - {key};
        assert waiting.Keys - pending == done + {key};
        FinishKey(graph, done, key);
      }
      assert waiting.Keys - pending == waiting.Keys;
      CompleteGraph(graph);
    }

    lemma RestartAt(graph: Graph, done: set<LockKey>, key: LockKey)
      requires Records(graph, done, Database, 0)
      ensures Records(graph, done, key, 0)
    {
      assert forall k, j :: Scanned(done, key, 0, k, j) == Scanned(done, Database, 0, k, j);
    }

    lemma FinishKey(graph: Graph, done: set<LockKey>, key: LockKey)
      requires key in waiting && Records(graph, done, key, |waiting[key]|)
      ensures Records(graph, done + {key}, Database, 0)
    {
      assert forall k, j :: Scanned(done + {key}, Database, 0, k, j) == Scanned(done, key, |waiting[key]|, k, j);
    }

    lemma CompleteGraph(graph: Graph)
      requires Records(graph, waiting.Keys, Database, 0)
      ensures graph == WaitForGraph(Table())
    {
      var whole := WaitForGraph(Table());
      forall a ensures a in graph <==> a in whole {
        if a in whole {
          var k, r :| k in waiting && r in waiting[k] && r.txn == a;
          var j :| 0 <= j < |waiting[k]| && waiting[k][j] == r;
          assert Scanned(waiting.Keys, Database, 0, k, j);
        }
        if a in graph {
          var k, j :| Scanned(waiting.Keys, Database, 0, k, j) && waiting[k][j].txn == a;
          assert waiting[k][j] in waiting[k];
        }
      }
      forall a, b ensures Edge(graph, a, b) <==> Edge(whole, a, b) {
        EdgeIffWaitsFor(Table(), a, b);
        if WaitsFor(Table(), a, b) {
          var k, j :| Contributes(Table(), k, j, a, b);
          assert Scanned(waiting.Keys, Database, 0, k, j);
        }
      }
      forall a | a in graph ensures graph[a] == whole[a] {
        forall b ensures b in graph[a] <==> b in whole[a] {
          assert Edge(graph, a, b) <==> Edge(whole, a, b);
        }
      }
    }

    method RemoveWaiter(key: LockKey, id: nat)
      modifies this
      ensures Table() == Locks.RemoveWaiter(old(Table()), key, id)
    {
      if key in waiting {
        var kept := Retain(waiting[key], ExceptId(id));
        waiting := if kept == [] then waiting - {key} else waiting[key := kept];
      }
    }

    method Grant(key: LockKey, r: Request)
      modifies this
      ensures Table() == Locks.Grant(old(Table()), key, r)
    {
      granted := granted[key := At(granted, key) + [r]];
    }

    /** The program's error for a request that is no longer in its queue is XX000. */
    method WaiterCanRun(key: LockKey, id: nat) returns (answer: Result<bool>)
      ensures answer == if IsWaiting(Table(), key, id)
                        then Ok(CanRun(Table(), key, PositionOf(At(waiting, key), id)))
                        else Err("XX000")
    {
      if key !in waiting {
        return Err("XX000");
      }
      var requests := waiting[key];
      var position := 0;
      while position < |requests| && requests[position].id != id
        invariant position <= |requests|
        invariant forall i | 0 <= i < position :: requests[i].id != id
      {
        position := position + 1;
      }
      if position == |requests| {
        return Err("XX000");
      }
      assert requests[position] in requests;
      assert position == PositionOf(requests, id);
      var earlierCompatible := forall i | 0 <= i < position :: !Conflicts(requests[position], requests[i]);
      return Ok(earlierCompatible && HoldersCompatible(Table(), key, requests[position]));
    }

    method Poll(key: LockKey, r: Request, cancelled: bool, expired: bool) returns (verdict: Verdict)
      modifies this
      ensures (Table(), verdict) == Locks.Poll(old(Table()), key, r, cancelled, expired)
    {
      if r.txn in victims {
        victims := victims - {r.txn};
        RemoveWaiter(key, r.id);
        return Refused("40P01");
      }
      if cancelled {
        RemoveWaiter(key, r.id);
        return Refused("57014");
      }
      var canRun := WaiterCanRun(key, r.id);
      if canRun.Err? {
        return Refused(canRun.state);
      }
      if canRun.value {
        RemoveWaiter(key, r.id);
        Grant(key, r);
        return Granted;
      }
      if expired {
        RemoveWaiter(key, r.id);
        return Refused("55P03");
      }
      return Waiting;
    }

    method Enter(key: LockKey, r: Request, cancelled: bool, expired: bool) returns (verdict: Verdict)
      modifies this
      ensures (Table(), verdict) == Locks.Enter(maximumWaiters, old(Table()), key, r, cancelled, expired)
    {
      if CanGrantImmediately(Table(), key, r) {
        Grant(key, r);
        return Granted;
      }
      var waiterCount := CountWaiting();
      if waiterCount >= maximumWaiters {
        return Refused("54000");
      }
      waiting := waiting[key := At(waiting, key) + [r]];
      var graph := BuildWaitForGraph();
      var victim := DeadlockVictim(graph);
      if victim.Some? {
        victims := victims + {victim.value};
      }
      verdict := Poll(key, r, cancelled, expired);
    }

    method ReleaseTransaction(t: TxId)
      modifies this
      ensures Table() == Locks.ReleaseTransaction(old(Table()), t)
    {
      granted := RetainEverywhere(granted, t);
      waiting := RetainEverywhere(waiting, t);
      victims := victims - {t};
    }

    method RetainEverywhere(queues: Queues, t: TxId) returns (kept: Queues)
      ensures kept == RetainAll(queues, ExceptTransaction(t))
    {
      kept := map[];
      var pending := queues.Keys;
      while pending != {}
        invariant pending <= queues.Keys
        invariant forall key :: key in kept <==>
                    key in queues && key !in pending && Retain(queues[key], ExceptTransaction(t)) != []
        invariant forall key | key in kept :: kept[key] == Retain(queues[key], ExceptTransaction(t))
      {
        var key :| key in pending;
        var q := Retain(queues[key], ExceptTransaction(t));
        if q != [] {
          kept := kept[key := q];
        }
        pending := pending - {key};
      }
    }

    method ReleaseRequest(key: LockKey, id: nat)
      modifies this
      ensures Table() == Locks.ReleaseRequest(old(Table()), key, id)
    {
      if key in granted {
        var kept := Retain(granted[key], ExceptId(id));
        granted := if kept == [] then granted - {key} else granted[key := kept];
      }
    }
  }
}

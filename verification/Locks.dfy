/** The lock table: holders and first-come queues per key, the victim flags, and what each
    critical section of the manager does to them. */
module Locks {
  import opened Base
  import opened Deadlock

  datatype LockKey =
    | Database
    | Schema(schemaId: U64)
    | Table(tableId: U64)
    | Row(rowTable: U64, versionId: U64)
    | IndexKey(indexId: U64, fingerprint: Bytes)
    | Maintenance(maintained: Option<U64>)

  datatype LockMode = Shared | Update | Exclusive

  // A request keeps its identity when it moves from the queue to the holders.
  datatype Request = Request(id: nat, txn: TxId, mode: LockMode)

  type Queues = map<LockKey, seq<Request>>

  datatype State = State(granted: Queues, waiting: Queues, victims: set<TxId>)

  datatype Verdict = Granted | Waiting | Refused(state: string)

  const Empty := State(map[], map[], {})

  predicate Compatible(a: LockMode, b: LockMode) {
    (a.Shared? && b.Shared?) || (a.Shared? && b.Update?) || (a.Update? && b.Shared?)
  }

  predicate Conflicts(a: Request, b: Request) {
    a.txn != b.txn && !Compatible(a.mode, b.mode)
  }

  function At(queues: Queues, key: LockKey): seq<Request> {
    if key in queues then queues[key] else []
  }

  // The two filters the manager applies to its lists.
  datatype Filter = ExceptId(id: nat) | ExceptTransaction(txn: TxId)

  predicate Keeps(keep: Filter, r: Request) {
    match keep
    case ExceptId(id) => r.id != id
    case ExceptTransaction(txn) => r.txn != txn
  }

  function Retain(q: seq<Request>, keep: Filter): (kept: seq<Request>)
    ensures forall r :: r in kept <==> r in q && Keeps(keep, r)
  {
    if q == [] then []
    else
      var rest := Retain(q[..|q| - 1], keep);
      if Keeps(keep, q[|q| - 1]) then rest + [q[|q| - 1]] else rest
  }

  /** Applying `retain` to one queue, then dropping the entry once it is empty. */
  function RetainAt(queues: Queues, key: LockKey, keep: Filter): Queues {
    if key !in queues then queues
    else
      var kept := Retain(queues[key], keep);
      if kept == [] then queues - {key} else queues[key := kept]
  }

  function RetainAll(queues: Queues, keep: Filter): Queues {
    map key | key in queues && Retain(queues[key], keep) != [] :: Retain(queues[key], keep)
  }

  predicate HoldersCompatible(s: State, key: LockKey, r: Request) {
    forall lock | lock in At(s.granted, key) :: !Conflicts(r, lock)
  }

  predicate CanGrantImmediately(s: State, key: LockKey, r: Request) {
    At(s.waiting, key) == [] && HoldersCompatible(s, key, r)
  }

  predicate IsWaiting(s: State, key: LockKey, id: nat) {
    exists r | r in At(s.waiting, key) :: r.id == id
  }

  function PositionOf(q: seq<Request>, id: nat): (position: nat)
    requires exists r | r in q :: r.id == id
    ensures position < |q| && q[position].id == id
    ensures forall i | 0 <= i < position :: q[i].id != id
  {
    if q[0].id == id then 0
    else
      assert exists r | r in q[1..] :: r.id == id by {
        var r :| r in q && r.id == id;
        assert r in q[1..];
      }
      1 + PositionOf(q[1..], id)
  }

  /** The waiter at `position` may run: nobody ahead of it in the queue, and no holder,
      conflicts with it. */
  predicate CanRun(s: State, key: LockKey, position: nat)
    requires position < |At(s.waiting, key)|
  {
    var q := At(s.waiting, key);
    (forall i | 0 <= i < position :: !Conflicts(q[position], q[i])) && HoldersCompatible(s, key, q[position])
  }

  function Grant(s: State, key: LockKey, r: Request): State {
    s.(granted := s.granted[key := At(s.granted, key) + [r]])
  }

  function RemoveWaiter(s: State, key: LockKey, id: nat): State {
    s.(waiting := RetainAt(s.waiting, key, ExceptId(id)))
  }

  function Enqueue(s: State, key: LockKey, r: Request): State {
    s.(waiting := s.waiting[key := At(s.waiting, key) + [r]])
  }

  // ---- the wait-for graph ----

  function Ahead(s: State, key: LockKey, position: nat): seq<Request>
    requires position < |At(s.waiting, key)|
  {
    At(s.granted, key) + At(s.waiting, key)[..position]
  }

  /** Whom the waiter at `position` waits for. */
  function BlockersAt(s: State, key: LockKey, position: nat): set<TxId>
    requires position < |At(s.waiting, key)|
  {
    set r | r in Ahead(s, key, position) && Conflicts(At(s.waiting, key)[position], r) :: r.txn
  }

  ghost predicate Contributes(s: State, key: LockKey, position: int, a: TxId, b: TxId) {
    && 0 <= position < |At(s.waiting, key)|
    && At(s.waiting, key)[position].txn == a
    && b in BlockersAt(s, key, position)
  }

  ghost predicate WaitsFor(s: State, a: TxId, b: TxId) {
    exists key, position :: Contributes(s, key, position, a, b)
  }

  function Waiters(s: State): set<TxId> {
    set key, r | key in s.waiting && r in s.waiting[key] :: r.txn
  }

  ghost function WaitForGraph(s: State): Graph {
    map a | a in Waiters(s) ::
      set key, position, b | key in s.waiting && 0 <= position < |s.waiting[key]| && s.waiting[key][position].txn == a
                             && b in BlockersAt(s, key, position) :: b
  }

  ghost function TotalWaiting(queues: Queues): nat {
    if queues == map[] then 0
    else
      var key :| key in queues;
      |queues[key]| + TotalWaiting(queues - {key})
  }

  // ---- the critical sections ----

  /** One turn of a waiting request's loop: it notices a victim flag, a cancellation, that
      it may run, or its deadline, in that order. */
  function Poll(s: State, key: LockKey, r: Request, cancelled: bool, expired: bool): (State, Verdict) {
    if r.txn in s.victims then
      (RemoveWaiter(s.(victims := s.victims - {r.txn}), key, r.id), Refused("40P01"))
    else if cancelled then (RemoveWaiter(s, key, r.id), Refused("57014"))
    else if !IsWaiting(s, key, r.id) then (s, Refused("XX000"))
    else if CanRun(s, key, PositionOf(At(s.waiting, key), r.id)) then
      (Grant(RemoveWaiter(s, key, r.id), key, r), Granted)
    else if expired then (RemoveWaiter(s, key, r.id), Refused("55P03"))
    else (s, Waiting)
  }

  ghost function FlagVictim(s: State): State {
    match Victim(WaitForGraph(s))
    case Some(v) => s.(victims := s.victims + {v})
    case None => s
  }

  predicate MustQueue(s: State, key: LockKey, r: Request) {
    !CanGrantImmediately(s, key, r)
  }

  /** The first critical section of an acquire, up to its first wait. */
  ghost function Enter(maximumWaiters: nat, s: State, key: LockKey, r: Request, cancelled: bool, expired: bool)
    : (State, Verdict)
  {
    if !MustQueue(s, key, r) then (Grant(s, key, r), Granted)
    else if TotalWaiting(s.waiting) >= maximumWaiters then (s, Refused("54000"))
    else Poll(FlagVictim(Enqueue(s, key, r)), key, r, cancelled, expired)
  }

  function ReleaseTransaction(s: State, t: TxId): State {
    State(RetainAll(s.granted, ExceptTransaction(t)), RetainAll(s.waiting, ExceptTransaction(t)), s.victims - {t})
  }

  function ReleaseRequest(s: State, key: LockKey, id: nat): State {
    s.(granted := RetainAt(s.granted, key, ExceptId(id)))
  }

  // ---- facts about queues and the graph ----

  lemma ConflictsSymmetric(a: Request, b: Request)
    ensures Conflicts(a, b) == Conflicts(b, a)
  {
  }

  /** Filtering keeps the order: every kept position comes from one position, and whatever
      is ahead of it afterwards was ahead of it before. */
  lemma {:induction false} RetainKeepsOrder(q: seq<Request>, keep: Filter, n: nat) returns (m: nat)
    requires n < |Retain(q, keep)|
    ensures m < |q| && q[m] == Retain(q, keep)[n]
    ensures forall r | r in Retain(q, keep)[..n] :: r in q[..m]
    ensures Retain(q, keep)[..n] == Retain(q[..m], keep)
  {
    var front := q[..|q| - 1];
    if n < |Retain(front, keep)| {
      m := RetainKeepsOrder(front, keep, n);
      assert front[..m] == q[..m];
      assert Retain(q, keep)[..n] == Retain(front, keep)[..n];
    } else {
      m := |q| - 1;
      assert Retain(q, keep)[..n] == Retain(front, keep);
    }
  }

  lemma RetainPair(q: seq<Request>, keep: Filter, i: nat, j: nat) returns (n: nat, m: nat)
    requires i < j < |Retain(q, keep)|
    ensures n < m < |q| && q[n] == Retain(q, keep)[i] && q[m] == Retain(q, keep)[j]
  {
    m := RetainKeepsOrder(q, keep, j);
    assert Retain(q, keep)[..j][i] in q[..m];
    n :| 0 <= n < m && q[n] == Retain(q, keep)[i];
  }

  lemma AtRetain(queues: Queues, key: LockKey, keep: Filter, other: LockKey)
    ensures At(RetainAt(queues, key, keep), other)
         == if other == key then Retain(At(queues, key), keep) else At(queues, other)
    ensures At(RetainAll(queues, keep), other) == Retain(At(queues, other), keep)
  {
  }

  lemma EdgeIffWaitsFor(s: State, a: TxId, b: TxId)
    ensures Edge(WaitForGraph(s), a, b) <==> WaitsFor(s, a, b)
  {
    if WaitsFor(s, a, b) {
      var key, position :| Contributes(s, key, position, a, b);
      assert s.waiting[key][position] in s.waiting[key];
    }
    if Edge(WaitForGraph(s), a, b) {
      var key, position :| key in s.waiting && 0 <= position < |s.waiting[key]| && s.waiting[key][position].txn == a
                           && b in BlockersAt(s, key, position);
      assert Contributes(s, key, position, a, b);
    }
  }

  /** A waiter can run exactly when it puts no edge into the wait-for graph. */
  lemma CanRunIffContributesNothing(s: State, key: LockKey, position: nat)
    requires position < |At(s.waiting, key)|
    ensures CanRun(s, key, position) <==>
            forall b :: !Contributes(s, key, position, At(s.waiting, key)[position].txn, b)
  {
    var q := At(s.waiting, key);
    var a := q[position].txn;
    forall r | r in Ahead(s, key, position) && Conflicts(q[position], r)
      ensures Contributes(s, key, position, a, r.txn)
    {
    }
    if CanRun(s, key, position) {
      forall b ensures !Contributes(s, key, position, a, b) {
        forall r | r in Ahead(s, key, position) ensures !Conflicts(q[position], r) {
        }
      }
    } else {
      assert exists r :: r in Ahead(s, key, position) && Conflicts(q[position], r) by {
        if !HoldersCompatible(s, key, q[position]) {
          var lock :| lock in At(s.granted, key) && Conflicts(q[position], lock);
          assert lock in Ahead(s, key, position);
        } else {
          var i :| 0 <= i < position && Conflicts(q[position], q[i]);
          assert q[..position][i] in Ahead(s, key, position);
        }
      }
      var r :| r in Ahead(s, key, position) && Conflicts(q[position], r);
      assert Contributes(s, key, position, a, r.txn);
    }
  }

  lemma {:induction false} TotalWithout(queues: Queues, key: LockKey)
    requires key in queues
    ensures TotalWaiting(queues) == |queues[key]| + TotalWaiting(queues - {key})
    decreases |queues|
  {
    var chosen :| chosen in queues && TotalWaiting(queues) == |queues[chosen]| + TotalWaiting(queues - {chosen});
    if chosen != key {
      TotalWithout(queues - {chosen}, key);
      TotalWithout(queues - {key}, chosen);
      assert queues - {chosen} - {key} == queues - {key} - {chosen};
    }
  }
}

/** What the tracker knows about a transaction, told by the run alone: which calls were answered,
    and what later calls took back; and serializability of committed transactions stated over
    what their calls recorded. */
module SsiHistory {
  import opened Base
  import opened PredicateLocks
  import opened Ssi
  import opened SsiRuns

  /** What a call answers; an abort and a cleanup always succeed. */
  function Answer(options: Options, s: State, step: Step): Outcome {
    match step
    case BeginStep(t, snapshot, readOnly) => Begin(options, s, t, snapshot, readOnly).1
    case ReadStep(t, p) => RecordRead(options, s, t, p).1
    case WriteStep(t, p) => RecordWrite(options, s, t, p).1
    case RefreshStep(t, snapshot) => RefreshSnapshot(s, t, snapshot).1
    case CommitStep(t) => Commit(s, t).1
    case RollbackStep(t, sp) => RollbackTo(s, t, sp).1
    case AbortStep(_) => Done
    case CleanupStep(_) => Done
  }

  datatype Kind = Reads | Writes

  // What can be known of a transaction.
  datatype Fact =
    | Registered(t: TxId)
    | Committed(t: TxId)
    | HasSnapshot(t: TxId, snapshot: Snapshot)
    | Recorded(t: TxId, kind: Kind, p: PredicateLock)

  /** The tracker knows it. */
  predicate Holds(s: State, f: Fact) {
    && f.t in s
    && match f
       case Registered(_) => true
       case Committed(t) => s[t].committed
       case HasSnapshot(t, snapshot) => s[t].snapshot == snapshot
       case Recorded(t, kind, p) => p in if kind.Reads? then s[t].readSet else s[t].writeSet
  }

  predicate Restores(step: Step, t: TxId, kind: Kind, p: PredicateLock) {
    step.RollbackStep? && step.t == t && p in if kind.Reads? then step.sp.readSet else step.sp.writeSet
  }

  /** An answered call that makes the fact true. */
  predicate Sets(options: Options, s: State, step: Step, f: Fact) {
    && Answer(options, s, step).Done?
    && match f
       case Registered(t) => step.BeginStep? && step.t == t
       case Committed(t) => step == CommitStep(t)
       case HasSnapshot(t, snapshot) =>
         (step.BeginStep? && step.t == t && step.snapshot == snapshot) || step == RefreshStep(t, snapshot)
       case Recorded(t, kind, p) =>
         (if kind.Reads? then step == ReadStep(t, p) else step == WriteStep(t, p)) || Restores(step, t, kind, p)
  }

  /** The transaction is forgotten: aborted, refused as a pivot, or committed with both its id and
      its snapshot's end below the horizon of a cleanup. */
  predicate Leaves(options: Options, s: State, step: Step, t: TxId) {
    match step
    case AbortStep(u) => u == t
    case CommitStep(u) => u == t && Answer(options, s, step) == Failed("40001")
    case CleanupStep(horizon) => t in s && s[t].committed && t < horizon && s[t].snapshot.xmax < horizon
    case _ => false
  }

  /** A call that makes the fact false. */
  predicate Clears(options: Options, s: State, step: Step, f: Fact) {
    || Leaves(options, s, step, f.t)
    || (&& Answer(options, s, step).Done?
        && match f
           case HasSnapshot(t, snapshot) => step.RefreshStep? && step.t == t && step.snapshot != snapshot
           case Recorded(t, kind, p) => step.RollbackStep? && step.t == t && !Restores(step, t, kind, p)
           case _ => false)
  }

  lemma LinkOnFact(s: State, t: TxId, readers: set<TxId>, writers: set<TxId>, f: Fact)
    ensures Holds(Link(s, t, readers, writers), f) <==> Holds(s, f)
  {
  }

  lemma ReadOnFact(options: Options, s: State, t: TxId, p: PredicateLock, f: Fact)
    ensures Holds(RecordRead(options, s, t, p).0, f) <==> Holds(s, f) || Sets(options, s, ReadStep(t, p), f)
  {
    if t in s {
      LinkOnFact(s[t := s[t].(readSet := s[t].readSet + {p})], t, {}, UnseenWriters(s, t, p), f);
    }
  }

  lemma WriteOnFact(options: Options, s: State, t: TxId, p: PredicateLock, f: Fact)
    ensures Holds(RecordWrite(options, s, t, p).0, f) <==> Holds(s, f) || Sets(options, s, WriteStep(t, p), f)
  {
    if t in s {
      LinkOnFact(s[t := s[t].(writeSet := s[t].writeSet + {p})], t, OverlappingReaders(s, t, p), {}, f);
    }
  }

  lemma RollbackOnFact(options: Options, s: State, t: TxId, sp: Savepoint, f: Fact)
    ensures var step := RollbackStep(t, sp);
            Holds(RollbackTo(s, t, sp).0, f)
            <==> (Holds(s, f) && !Clears(options, s, step, f)) || Sets(options, s, step, f)
  {
    if t in s && !s[t].committed {
      RollbackIsExact(s, t, sp);
    }
  }

  /** A step makes a fact true, or it was true and the step does not take it back. */
  lemma StepOnFact(options: Options, w: World, step: Step, f: Fact)
    requires IdsIssued(w) && Enabled(w, step)
    ensures Holds(Execute(options, w.txns, step), f) <==>
              (Holds(w.txns, f) && !Clears(options, w.txns, step, f)) || Sets(options, w.txns, step, f)
  {
    match step
    case ReadStep(t, p) => ReadOnFact(options, w.txns, t, p, f);
    case WriteStep(t, p) => WriteOnFact(options, w.txns, t, p, f);
    case RollbackStep(t, sp) => RollbackOnFact(options, w.txns, t, sp, f);
    case _ =>
  }

  // ---- over a run ----

  ghost predicate SetsAt(options: Options, steps: seq<Step>, m: nat, f: Fact)
    requires m < |steps|
  {
    Sets(options, Run(options, steps[..m]).txns, steps[m], f)
  }

  ghost predicate ClearsAt(options: Options, steps: seq<Step>, m: nat, f: Fact)
    requires m < |steps|
  {
    Clears(options, Run(options, steps[..m]).txns, steps[m], f)
  }

  /** Call `m` of the run made the fact true and no later call took it back. */
  ghost predicate Since(options: Options, steps: seq<Step>, m: nat, f: Fact) {
    m < |steps| && SetsAt(options, steps, m, f) && forall k | m < k < |steps| :: !ClearsAt(options, steps, k, f)
  }

  ghost predicate Stands(options: Options, steps: seq<Step>, f: Fact) {
    exists m :: Since(options, steps, m, f)
  }

  lemma SinceGrows(options: Options, front: seq<Step>, last: Step, m: nat, f: Fact)
    ensures var s := Run(options, front).txns;
            Since(options, front + [last], m, f) <==>
              || (Since(options, front, m, f) && !Clears(options, s, last, f))
              || (m == |front| && Sets(options, s, last, f))
  {
    var steps := front + [last];
    assert steps[..|front|] == front;
    assert ClearsAt(options, steps, |front|, f) <==> Clears(options, Run(options, front).txns, last, f);
    forall k: nat | k < |front|
      ensures ClearsAt(options, steps, k, f) == ClearsAt(options, front, k, f)
      ensures SetsAt(options, steps, k, f) == SetsAt(options, front, k, f)
    {
      assert steps[..k] == front[..k];
    }
    if m == |front| {
      assert SetsAt(options, steps, m, f) <==> Sets(options, Run(options, front).txns, last, f);
    }
  }

  /** Over every run the tracker knows exactly what an answered call said and no later call took
      back: who is registered, who has committed, with which snapshot, and every predicate a
      transaction reads or writes. */
  lemma {:induction false} KnownIffStands(options: Options, steps: seq<Step>, f: Fact)
    requires Legal(options, steps)
    ensures Holds(Run(options, steps).txns, f) <==> Stands(options, steps, f)
  {
    if steps != [] {
      var front, last := steps[..|steps| - 1], steps[|steps| - 1];
      assert steps == front + [last];
      KnownIffStands(options, front, f);
      ReachableInv(options, front);
      StepOnFact(options, Run(options, front), last, f);
      forall m: nat {
        SinceGrows(options, front, last, m, f);
      }
      assert Since(options, steps, |front|, f) <==> Sets(options, Run(options, front).txns, last, f);
    }
  }

  /** Which calls are answered: a new transaction while there is room, a read or a write of a
      registered one while it has recorded few enough, a change of snapshot before anything is
      recorded and before commit, a rollback before commit. */
  lemma AnsweredIff(options: Options, steps: seq<Step>, step: Step)
    requires Legal(options, steps) && Enabled(Run(options, steps), step)
    ensures var s := Run(options, steps).txns;
            Answer(options, s, step).Done? <==>
              match step
              case BeginStep(_, _, _) => |s| < options.maximumTransactions
              case ReadStep(t, _) => t in s && |s[t].readSet| < options.maximumPredicates
              case WriteStep(t, _) => t in s && |s[t].writeSet| < options.maximumPredicates
              case RefreshStep(t, snapshot) =>
                && t in s && !s[t].committed
                && (s[t].snapshot == snapshot
                    || forall kind, p :: !Stands(options, steps, Recorded(t, kind, p)))
              case CommitStep(t) => t in s && !(HasCommittedIncoming(s, t) && s[t].outgoing != {})
              case RollbackStep(t, _) => t in s && !s[t].committed
              case _ => true
  {
    var s := Run(options, steps).txns;
    ReachableInv(options, steps);
    if step.RefreshStep? && step.t in s {
      forall kind, p { KnownIffStands(options, steps, Recorded(step.t, kind, p)); }
      if s[step.t].readSet != {} {
        var p :| p in s[step.t].readSet;
        assert Stands(options, steps, Recorded(step.t, Reads, p));
      }
      if s[step.t].writeSet != {} {
        var p :| p in s[step.t].writeSet;
        assert Stands(options, steps, Recorded(step.t, Writes, p));
      }
    }
  }

  // ---- savepoints that were taken ----

  /** Every rollback of the run goes back to a savepoint that was taken earlier in it. */
  ghost predicate SavepointsTaken(options: Options, steps: seq<Step>) {
    forall k | 0 <= k < |steps| && steps[k].RollbackStep? :: TakenBefore(options, steps, k)
  }

  ghost predicate TakenBefore(options: Options, steps: seq<Step>, k: nat)
    requires k < |steps| && steps[k].RollbackStep?
  {
    exists n | 0 <= n <= k :: TakeSavepoint(Run(options, steps[..n]).txns, steps[k].t) == Ok(steps[k].sp)
  }

  predicate Calls(step: Step, t: TxId, kind: Kind, p: PredicateLock) {
    if kind.Reads? then step == ReadStep(t, p) else step == WriteStep(t, p)
  }

  /** Then nothing is recorded that an answered read or write did not record. */
  lemma {:induction false} OnlyCallsRecord(options: Options, steps: seq<Step>, t: TxId, kind: Kind, p: PredicateLock)
    returns (m: nat)
    requires Legal(options, steps) && SavepointsTaken(options, steps)
    requires Holds(Run(options, steps).txns, Recorded(t, kind, p))
    ensures m < |steps| && Calls(steps[m], t, kind, p)
    ensures Answer(options, Run(options, steps[..m]).txns, steps[m]).Done?
    decreases |steps|
  {
    var f := Recorded(t, kind, p);
    KnownIffStands(options, steps, f);
    m :| Since(options, steps, m, f);
    if !Calls(steps[m], t, kind, p) {
      assert TakenBefore(options, steps, m);
      var n :| 0 <= n <= m && TakeSavepoint(Run(options, steps[..n]).txns, t) == Ok(steps[m].sp);
      PrefixIsLegal(options, steps, n);
      PrefixSavepointsTaken(options, steps, n);
      m := OnlyCallsRecord(options, steps[..n], t, kind, p);
      assert steps[..n][..m] == steps[..m];
    }
  }

  lemma PrefixSavepointsTaken(options: Options, steps: seq<Step>, n: nat)
    requires SavepointsTaken(options, steps) && n <= |steps|
    ensures SavepointsTaken(options, steps[..n])
  {
    forall k | 0 <= k < n && steps[..n][k].RollbackStep? ensures TakenBefore(options, steps[..n], k) {
      assert TakenBefore(options, steps, k);
      var j :| 0 <= j <= k && TakeSavepoint(Run(options, steps[..j]).txns, steps[k].t) == Ok(steps[k].sp);
      assert steps[..n][..j] == steps[..j];
    }
  }

  lemma {:induction false} PrefixIsLegal(options: Options, steps: seq<Step>, n: nat)
    requires Legal(options, steps) && n <= |steps|
    ensures Legal(options, steps[..n])
    decreases |steps|
  {
    if n == |steps| {
      assert steps[..n] == steps;
    } else {
      PrefixIsLegal(options, steps[..|steps| - 1], n);
      assert steps[..|steps| - 1][..n] == steps[..n];
    }
  }

  // ---- serializability of what was recorded ----

  /** `r` recorded a read that overlaps what `x` recorded as written. */
  ghost predicate ReadWhatWrote(options: Options, steps: seq<Step>, r: TxId, x: TxId) {
    exists p, q :: Overlaps(p, q) && Stands(options, steps, Recorded(r, Reads, p))
                   && Stands(options, steps, Recorded(x, Writes, q))
  }

  /** `x` has committed before the snapshot of `r`. */
  ghost predicate SnapshotHas(options: Options, steps: seq<Step>, r: TxId, x: TxId) {
    && Stands(options, steps, Committed(x))
    && exists snapshot ::
         Stands(options, steps, HasSnapshot(r, snapshot)) && x < snapshot.xmax && x !in snapshot.inProgress
  }

  /** `r` did not see what `x` wrote. */
  ghost predicate Misses(options: Options, steps: seq<Step>, r: TxId, x: TxId) {
    && r != x && Stands(options, steps, Registered(r)) && Stands(options, steps, Registered(x))
    && ReadWhatWrote(options, steps, r, x) && !SnapshotHas(options, steps, r, x)
  }

  lemma ConflictIsRecorded(options: Options, steps: seq<Step>, r: TxId, x: TxId)
    requires Legal(options, steps) && r in Run(options, steps).txns && x in Run(options, steps).txns
    ensures RwConflict(Run(options, steps).txns, r, x) <==> ReadWhatWrote(options, steps, r, x)
  {
    var s := Run(options, steps).txns;
    if RwConflict(s, r, x) {
      var p :| p in s[r].readSet && OverlapsAny(p, s[x].writeSet);
      var q :| q in s[x].writeSet && Overlaps(p, q);
      KnownIffStands(options, steps, Recorded(r, Reads, p));
      KnownIffStands(options, steps, Recorded(x, Writes, q));
    }
    if p, q :| Overlaps(p, q) && Stands(options, steps, Recorded(r, Reads, p))
               && Stands(options, steps, Recorded(x, Writes, q)) {
      KnownIffStands(options, steps, Recorded(r, Reads, p));
      KnownIffStands(options, steps, Recorded(x, Writes, q));
      assert OverlapsAny(p, s[x].writeSet);
    }
  }

  lemma VisibleIsRecorded(options: Options, steps: seq<Step>, r: TxId, x: TxId)
    requires Legal(options, steps) && r in Run(options, steps).txns && x in Run(options, steps).txns
    ensures var s := Run(options, steps).txns; VisibleTo(s, x, s[r].snapshot) <==> SnapshotHas(options, steps, r, x)
  {
    var s := Run(options, steps).txns;
    KnownIffStands(options, steps, Committed(x));
    KnownIffStands(options, steps, HasSnapshot(r, s[r].snapshot));
    if snapshot :| Stands(options, steps, HasSnapshot(r, snapshot)) && x < snapshot.xmax && x !in snapshot.inProgress {
      KnownIffStands(options, steps, HasSnapshot(r, snapshot));
    }
  }

  /** In every reachable state an edge joins only a reader and a writer that recorded overlapping
      predicates, and joins every two such unless the reader's snapshot has the writer. */
  lemma EdgesAreRecordedConflicts(options: Options, steps: seq<Step>, r: TxId, x: TxId)
    requires Legal(options, steps) && Stands(options, steps, Registered(r)) && Stands(options, steps, Registered(x))
    ensures var s := Run(options, steps).txns;
            && (HasEdge(s, r, x) ==> r != x && ReadWhatWrote(options, steps, r, x))
            && (Misses(options, steps, r, x) ==> HasEdge(s, r, x))
            && r in s && x in s && (HasEdge(s, r, x) <==> r in s[x].incoming)
  {
    KnownIffStands(options, steps, Registered(r));
    KnownIffStands(options, steps, Registered(x));
    ConflictIsRecorded(options, steps, r, x);
    VisibleIsRecorded(options, steps, r, x);
    ReachableInv(options, steps);
    var s := Run(options, steps).txns;
    assert PairAgrees(s, r, x);
  }

  /** A transaction that a committed one missed, and that itself missed a third, cannot commit. */
  lemma PivotIsRefused(options: Options, steps: seq<Step>, r: TxId, t: TxId, x: TxId)
    requires Legal(options, steps) && Stands(options, steps, Committed(r))
    requires Misses(options, steps, r, t) && Misses(options, steps, t, x)
    ensures Commit(Run(options, steps).txns, t).1 == Failed("40001")
    ensures t !in Commit(Run(options, steps).txns, t).0
  {
    KnownIffStands(options, steps, Committed(r));
    EdgesAreRecordedConflicts(options, steps, r, t);
    EdgesAreRecordedConflicts(options, steps, t, x);
    var s := Run(options, steps).txns;
    assert r in s[t].incoming && r in s && s[r].committed;
  }

  ghost predicate RecordedCycle(options: Options, steps: seq<Step>, c: seq<TxId>) {
    && 2 <= |c| && c[0] == c[|c| - 1]
    && forall i | 0 <= i < |c| - 1 :: Misses(options, steps, c[i], c[i + 1]) && Stands(options, steps, Committed(c[i]))
  }

  /** Over every run: no registered transactions that have all committed form a ring in which each
      recorded a read of what the next recorded as written and its snapshot does not have. */
  lemma NoRecordedCycleCommits(options: Options, steps: seq<Step>, c: seq<TxId>)
    requires Legal(options, steps)
    ensures !RecordedCycle(options, steps, c)
  {
    if RecordedCycle(options, steps, c) {
      var s := Run(options, steps).txns;
      forall i | 0 <= i < |c| - 1 ensures CommittedEdge(s, c[i], c[i + 1]) {
        var after := if i + 1 == |c| - 1 then 0 else i + 1;
        assert c[after] == c[i + 1] && Stands(options, steps, Committed(c[after]));
        assert Misses(options, steps, c[i], c[i + 1]) && Stands(options, steps, Committed(c[i]));
        KnownIffStands(options, steps, Committed(c[i]));
        KnownIffStands(options, steps, Committed(c[i + 1]));
        EdgesAreRecordedConflicts(options, steps, c[i], c[i + 1]);
      }
      assert CommittedCycle(s, c);
      CommittedGraphIsAcyclic(options, steps, c);
    }
  }

  /** Write skew: of two registered transactions that each missed what the other wrote, not both
      have committed. */
  lemma WriteSkewIsRefused(options: Options, steps: seq<Step>, a: TxId, b: TxId)
    requires Legal(options, steps) && Misses(options, steps, a, b) && Misses(options, steps, b, a)
    ensures !Stands(options, steps, Committed(a)) || !Stands(options, steps, Committed(b))
  {
    if Stands(options, steps, Committed(a)) && Stands(options, steps, Committed(b)) {
      assert RecordedCycle(options, steps, [a, b, a]);
      NoRecordedCycleCommits(options, steps, [a, b, a]);
    }
  }
}

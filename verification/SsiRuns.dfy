/** Every run of the serializable-snapshot tracker: the edges agree with the predicates,
    and no cycle of dependencies ever gets all its members committed. */
module SsiRuns {
  import opened Base
  import opened PredicateLocks
  import opened Ssi

  datatype Step =
    | BeginStep(t: TxId, snapshot: Snapshot, readOnly: bool)
    | ReadStep(t: TxId, p: PredicateLock)
    | WriteStep(t: TxId, p: PredicateLock)
    | RefreshStep(t: TxId, snapshot: Snapshot)
    | CommitStep(t: TxId)
    | RollbackStep(t: TxId, sp: Savepoint)
    | AbortStep(t: TxId)
    | CleanupStep(horizon: TxId)

  /** The tracker's state, with the ids handed out so far and the moment each transaction
      first committed; the last two are history, not state the program keeps. */
  datatype World = World(txns: State, issued: set<TxId>, committedAt: map<TxId, nat>, clock: nat)

  const Initial := World(map[], {}, map[], 0)

  function Execute(options: Options, s: State, step: Step): State {
    match step
    case BeginStep(t, snapshot, readOnly) => Begin(options, s, t, snapshot, readOnly).0
    case ReadStep(t, p) => RecordRead(options, s, t, p).0
    case WriteStep(t, p) => RecordWrite(options, s, t, p).0
    case RefreshStep(t, snapshot) => RefreshSnapshot(s, t, snapshot).0
    case CommitStep(t) => Commit(s, t).0
    case RollbackStep(t, sp) => RollbackTo(s, t, sp).0
    case AbortStep(t) => Abort(s, t)
    case CleanupStep(horizon) => CleanupBefore(s, horizon)
  }

  /** Ids come from a counter, so `begin` is given a new one; nothing is recorded for a
      transaction once it has committed. */
  predicate Enabled(w: World, step: Step) {
    match step
    case BeginStep(t, _, _) => t !in w.issued
    case ReadStep(t, _) => t in w.txns ==> !w.txns[t].committed
    case WriteStep(t, _) => t in w.txns ==> !w.txns[t].committed
    case _ => true
  }

  predicate CommitsNow(w: World, step: Step) {
    step.CommitStep? && step.t in w.txns && !w.txns[step.t].committed && Commit(w.txns, step.t).1.Done?
  }

  function Next(options: Options, w: World, step: Step): World {
    World(Execute(options, w.txns, step),
          if step.BeginStep? then w.issued + {step.t} else w.issued,
          if CommitsNow(w, step) then w.committedAt[step.t := w.clock] else w.committedAt,
          w.clock + 1)
  }

  function Run(options: Options, steps: seq<Step>): World {
    if steps == [] then Initial
    else Next(options, Run(options, steps[..|steps| - 1]), steps[|steps| - 1])
  }

  predicate Legal(options: Options, steps: seq<Step>) {
    steps != [] ==>
      && Legal(options, steps[..|steps| - 1])
      && Enabled(Run(options, steps[..|steps| - 1]), steps[|steps| - 1])
  }

  // ---- what holds in every reachable state ----

  /** The edge between two registered transactions, against what they read and wrote. */
  ghost predicate PairAgrees(s: State, r: TxId, x: TxId)
    requires r in s && x in s
  {
    && (x in s[r].outgoing <==> r in s[x].incoming)
    && (x in s[r].outgoing ==> r != x && RwConflict(s, r, x))
    && (r != x && RwConflict(s, r, x) ==> x in s[r].outgoing || VisibleTo(s, x, s[r].snapshot))
  }

  ghost predicate EdgesAgree(s: State) {
    forall r, x | r in s && x in s :: PairAgrees(s, r, x)
  }

  ghost predicate IdsIssued(w: World) {
    && w.txns.Keys <= w.issued
    && forall t | t in w.txns :: w.txns[t].incoming <= w.issued && w.txns[t].outgoing <= w.issued
  }

  ghost predicate CommitTimesKnown(w: World) {
    forall t | t in w.txns && w.txns[t].committed :: t in w.committedAt && w.committedAt[t] < w.clock
  }

  predicate CommittedEdge(s: State, r: TxId, x: TxId) {
    r in s && x in s && s[r].committed && s[x].committed && x in s[r].outgoing
  }

  /** A committed pivot was never the last of its three to commit. */
  ghost predicate PivotNotLast(w: World, r: TxId, p: TxId, x: TxId)
    requires CommitTimesKnown(w) && CommittedEdge(w.txns, r, p) && CommittedEdge(w.txns, p, x)
  {
    w.committedAt[p] < w.committedAt[r] || w.committedAt[p] < w.committedAt[x]
  }

  ghost predicate NoPivotLast(w: World)
    requires CommitTimesKnown(w)
  {
    forall r, p, x | CommittedEdge(w.txns, r, p) && CommittedEdge(w.txns, p, x) :: PivotNotLast(w, r, p, x)
  }

  ghost predicate Inv(w: World) {
    IdsIssued(w) && EdgesAgree(w.txns) && CommitTimesKnown(w) && NoPivotLast(w)
  }

  ghost predicate CommittedCycle(s: State, c: seq<TxId>) {
    && 2 <= |c| && c[0] == c[|c| - 1]
    && forall i | 0 <= i < |c| - 1 :: CommittedEdge(s, c[i], c[i + 1])
  }

  // ---- one step at a time ----

  lemma OverlapGrows(readSet: set<PredicateLock>, writeSet: set<PredicateLock>, p: PredicateLock)
    ensures PredicatesOverlap(readSet + {p}, writeSet) <==>
              PredicatesOverlap(readSet, writeSet) || OverlapsAny(p, writeSet)
    ensures PredicatesOverlap(readSet, writeSet + {p}) <==>
              PredicatesOverlap(readSet, writeSet) || OverlapsAny(p, readSet)
  {
    if OverlapsAny(p, writeSet) {
      assert p in readSet + {p};
    }
    forall q | q in readSet
      ensures OverlapsAny(q, writeSet + {p}) <==> OverlapsAny(q, writeSet) || Overlaps(q, p)
    {
      if Overlaps(q, p) {
        assert p in writeSet + {p};
      }
    }
    forall q | q in readSet ensures Overlaps(q, p) == Overlaps(p, q) {
      OverlapsSymmetric(q, p);
    }
    if OverlapsAny(p, readSet) {
      var q :| q in readSet && Overlaps(p, q);
      assert OverlapsAny(q, writeSet + {p});
    }
  }

  lemma ReadAgrees(options: Options, s: State, t: TxId, p: PredicateLock)
    requires EdgesAgree(s)
    ensures EdgesAgree(RecordRead(options, s, t, p).0)
  {
    var s' := RecordRead(options, s, t, p).0;
    if s' != s {
      forall r, x | r in s' && x in s' ensures PairAgrees(s', r, x) {
        assert PairAgrees(s, r, x);
        OverlapGrows(s[t].readSet, s[x].writeSet, p);
      }
    }
  }

  lemma WriteAgrees(options: Options, s: State, t: TxId, p: PredicateLock)
    requires EdgesAgree(s)
    ensures EdgesAgree(RecordWrite(options, s, t, p).0)
  {
    var s' := RecordWrite(options, s, t, p).0;
    if s' != s {
      forall r, x | r in s' && x in s' ensures PairAgrees(s', r, x) {
        assert PairAgrees(s, r, x);
        OverlapGrows(s[r].readSet, s[t].writeSet, p);
      }
    }
  }

  /** What a rollback leaves: the edges at `t` are exactly the overlaps of the restored
      predicates, in both directions, and nothing else in the state moved. */
  lemma RollbackIsExact(s: State, t: TxId, sp: Savepoint)
    requires t in s && !s[t].committed
    ensures var s' := RollbackTo(s, t, sp).0;
            && RollbackTo(s, t, sp).1 == Done && s'.Keys == s.Keys
            && s'[t].readSet == sp.readSet && s'[t].writeSet == sp.writeSet
            && (forall x | x in s && x != t ::
                  && (x in s'[t].outgoing <==> PredicatesOverlap(sp.readSet, s[x].writeSet))
                  && (t in s'[x].incoming <==> PredicatesOverlap(sp.readSet, s[x].writeSet))
                  && (x in s'[t].incoming <==> PredicatesOverlap(s[x].readSet, sp.writeSet))
                  && (t in s'[x].outgoing <==> PredicatesOverlap(s[x].readSet, sp.writeSet)))
            && s'[t].outgoing + s'[t].incoming <= s.Keys - {t}
            && (forall x, y | x in s && x != t && y != t ::
                  && (y in s'[x].outgoing <==> y in s[x].outgoing)
                  && (y in s'[x].incoming <==> y in s[x].incoming)
                  && s'[x] == s[x].(incoming := s'[x].incoming, outgoing := s'[x].outgoing))
            && s'[t] == s[t].(readSet := sp.readSet, writeSet := sp.writeSet,
                              incoming := s'[t].incoming, outgoing := s'[t].outgoing)
  {
  }

  lemma RollbackAgrees(s: State, t: TxId, sp: Savepoint)
    requires EdgesAgree(s)
    ensures EdgesAgree(RollbackTo(s, t, sp).0)
  {
    if t in s && !s[t].committed {
      RollbackIsExact(s, t, sp);
      var s' := RollbackTo(s, t, sp).0;
      forall r, x | r in s' && x in s' ensures PairAgrees(s', r, x) {
        assert PairAgrees(s, r, x);
      }
    }
  }

  lemma OtherStepsAgree(options: Options, w: World, step: Step)
    requires EdgesAgree(w.txns) && IdsIssued(w) && Enabled(w, step)
    requires step.BeginStep? || step.RefreshStep? || step.CommitStep? || step.AbortStep? || step.CleanupStep?
    ensures EdgesAgree(Execute(options, w.txns, step))
  {
    var s, s' := w.txns, Execute(options, w.txns, step);
    forall r, x | r in s' && x in s' ensures PairAgrees(s', r, x) {
      if r in s && x in s {
        assert PairAgrees(s, r, x);
      }
    }
  }

  lemma EveryStepAgrees(options: Options, w: World, step: Step)
    requires EdgesAgree(w.txns) && IdsIssued(w) && Enabled(w, step)
    ensures EdgesAgree(Execute(options, w.txns, step))
  {
    match step
    case ReadStep(t, p) => ReadAgrees(options, w.txns, t, p);
    case WriteStep(t, p) => WriteAgrees(options, w.txns, t, p);
    case RollbackStep(t, sp) => RollbackAgrees(w.txns, t, sp);
    case _ => OtherStepsAgree(options, w, step);
  }

  ghost predicate IdsWithin(s: State, issued: set<TxId>) {
    s.Keys <= issued && forall t | t in s :: s[t].incoming <= issued && s[t].outgoing <= issued
  }

  lemma LinkKeepsIds(s: State, t: TxId, readers: set<TxId>, writers: set<TxId>, issued: set<TxId>)
    requires IdsWithin(s, issued) && t in issued && readers <= issued && writers <= issued
    ensures IdsWithin(Link(s, t, readers, writers), issued)
  {
  }

  lemma RecordingKeepsIds(options: Options, s: State, t: TxId, p: PredicateLock, issued: set<TxId>)
    requires IdsWithin(s, issued)
    ensures IdsWithin(RecordRead(options, s, t, p).0, issued) && IdsWithin(RecordWrite(options, s, t, p).0, issued)
  {
    if t in s {
      LinkKeepsIds(s[t := s[t].(readSet := s[t].readSet + {p})], t, {}, UnseenWriters(s, t, p), issued);
      LinkKeepsIds(s[t := s[t].(writeSet := s[t].writeSet + {p})], t, OverlappingReaders(s, t, p), {}, issued);
    }
  }

  lemma RollbackKeepsIds(s: State, t: TxId, sp: Savepoint, issued: set<TxId>)
    requires IdsWithin(s, issued)
    ensures IdsWithin(RollbackTo(s, t, sp).0, issued)
  {
    if t in s && !s[t].committed {
      var restored := s[t := s[t].(readSet := sp.readSet, writeSet := sp.writeSet, incoming := {}, outgoing := {})];
      LinkKeepsIds(Forget(restored, t), t, ReadersOf(s, t, sp.writeSet), WritersOf(s, t, sp.readSet), issued);
    }
  }

  lemma RemovalKeepsIds(s: State, t: TxId, horizon: TxId, issued: set<TxId>)
    requires IdsWithin(s, issued)
    ensures IdsWithin(Abort(s, t), issued) && IdsWithin(CleanupBefore(s, horizon), issued)
  {
  }

  lemma StepKeepsIds(options: Options, w: World, step: Step)
    requires IdsIssued(w)
    ensures IdsIssued(Next(options, w, step))
  {
    assert IdsWithin(w.txns, w.issued);
    match step
    case ReadStep(t, p) => RecordingKeepsIds(options, w.txns, t, p, w.issued);
    case WriteStep(t, p) => RecordingKeepsIds(options, w.txns, t, p, w.issued);
    case RollbackStep(t, sp) => RollbackKeepsIds(w.txns, t, sp, w.issued);
    case AbortStep(t) => RemovalKeepsIds(w.txns, t, 0, w.issued);
    case CleanupStep(horizon) => RemovalKeepsIds(w.txns, 0, horizon, w.issued);
    case _ =>
  }

  /** Only a commit creates an edge between two committed transactions. */
  lemma CommittedEdgesOnlyFromCommit(options: Options, w: World, step: Step, r: TxId, x: TxId)
    requires IdsIssued(w) && Enabled(w, step) && CommittedEdge(Execute(options, w.txns, step), r, x)
    ensures CommittedEdge(w.txns, r, x) || (CommitsNow(w, step) && (step.t == r || step.t == x))
  {
  }

  lemma StepKeepsPivots(options: Options, w: World, step: Step)
    requires Inv(w) && Enabled(w, step)
    ensures CommitTimesKnown(Next(options, w, step)) && NoPivotLast(Next(options, w, step))
  {
    var w' := Next(options, w, step);
    assert CommitTimesKnown(w');
    forall r, p, x | CommittedEdge(w'.txns, r, p) && CommittedEdge(w'.txns, p, x)
      ensures PivotNotLast(w', r, p, x)
    {
      CommittedEdgesOnlyFromCommit(options, w, step, r, p);
      CommittedEdgesOnlyFromCommit(options, w, step, p, x);
      if CommittedEdge(w.txns, r, p) && CommittedEdge(w.txns, p, x) {
        assert PivotNotLast(w, r, p, x);
      } else if p == step.t {
        // r is a committed incoming edge and x an outgoing one, so the commit was refused.
        assert false;
      }
    }
  }

  lemma StepKeepsInv(options: Options, w: World, step: Step)
    requires Inv(w) && Enabled(w, step)
    ensures Inv(Next(options, w, step))
  {
    StepKeepsIds(options, w, step);
    EveryStepAgrees(options, w, step);
    StepKeepsPivots(options, w, step);
  }

  lemma {:induction false} ReachableInv(options: Options, steps: seq<Step>)
    requires Legal(options, steps)
    ensures Inv(Run(options, steps))
  {
    if steps != [] {
      ReachableInv(options, steps[..|steps| - 1]);
      StepKeepsInv(options, Run(options, steps[..|steps| - 1]), steps[|steps| - 1]);
    }
  }

  // ---- the theorems ----

  lemma {:induction false} LatestOf(times: map<TxId, nat>, c: seq<TxId>, n: nat) returns (last: nat)
    requires 0 < n <= |c| && forall i | 0 <= i < n :: c[i] in times
    ensures last < n && forall i | 0 <= i < n :: times[c[i]] <= times[c[last]]
  {
    last := n - 1;
    if 1 < n {
      var before := LatestOf(times, c, n - 1);
      if times[c[last]] < times[c[before]] {
        last := before;
      }
    }
  }

  /** The last member of a cycle to commit is a pivot that committed last of its three. */
  lemma CycleHasLastPivot(w: World, c: seq<TxId>) returns (r: TxId, p: TxId, x: TxId)
    requires CommitTimesKnown(w) && CommittedCycle(w.txns, c)
    ensures CommittedEdge(w.txns, r, p) && CommittedEdge(w.txns, p, x)
    ensures !PivotNotLast(w, r, p, x)
  {
    forall i | 0 <= i < |c| - 1 ensures c[i] in w.committedAt {
      assert CommittedEdge(w.txns, c[i], c[i + 1]);
    }
    var i := LatestOf(w.committedAt, c, |c| - 1);
    var before := if i == 0 then |c| - 2 else i - 1;
    assert c[before + 1] == c[i];
    assert CommittedEdge(w.txns, c[before], c[before + 1]) && CommittedEdge(w.txns, c[i], c[i + 1]);
    var after := if i + 1 == |c| - 1 then 0 else i + 1;
    assert c[after] == c[i + 1];
    r, p, x := c[before], c[i], c[i + 1];
  }

  /** In every run, the dependency graph between committed transactions has no cycle. */
  lemma CommittedGraphIsAcyclic(options: Options, steps: seq<Step>, c: seq<TxId>)
    requires Legal(options, steps)
    ensures !CommittedCycle(Run(options, steps).txns, c)
  {
    ReachableInv(options, steps);
    if CommittedCycle(Run(options, steps).txns, c) {
      var r, p, x := CycleHasLastPivot(Run(options, steps), c);
      assert false;
    }
  }

  /** In every reachable state an edge joins two registered transactions only when the
      reader's predicates overlap the writer's, it is stored on both ends, and every
      overlap has its edge unless the reader's snapshot already contains the writer. */
  lemma EdgesAreExactlyConflicts(options: Options, steps: seq<Step>, r: TxId, x: TxId)
    requires Legal(options, steps)
    requires r in Run(options, steps).txns && x in Run(options, steps).txns && r != x
    ensures var s := Run(options, steps).txns;
            && (HasEdge(s, r, x) <==> r in s[x].incoming)
            && (HasEdge(s, r, x) ==> RwConflict(s, r, x))
            && (RwConflict(s, r, x) && !VisibleTo(s, x, s[r].snapshot) ==> HasEdge(s, r, x))
            && !HasEdge(s, r, r)
  {
    ReachableInv(options, steps);
    var s := Run(options, steps).txns;
    assert PairAgrees(s, r, x) && PairAgrees(s, r, r);
  }

  /** In every reachable state, of three committed transactions joined by two consecutive
      edges the middle one was not the last to commit. */
  lemma CommittedPivotWasNotLast(options: Options, steps: seq<Step>, r: TxId, p: TxId, x: TxId)
    requires Legal(options, steps)
    requires CommittedEdge(Run(options, steps).txns, r, p) && CommittedEdge(Run(options, steps).txns, p, x)
    ensures {r, p, x} <= Run(options, steps).committedAt.Keys
    ensures var at := Run(options, steps).committedAt; at[p] < at[r] || at[p] < at[x]
  {
    ReachableInv(options, steps);
    assert PivotNotLast(Run(options, steps), r, p, x);
  }

  /** An overlap without an edge: `t` read what `x` wrote, but `x` had committed before the
      snapshot of `t`, so it was excused. */
  ghost predicate Excused(s: State, t: TxId, x: TxId)
    requires t in s && x in s
  {
    x != t && VisibleTo(s, x, s[t].snapshot) && RwConflict(s, t, x) && !HasEdge(s, t, x)
  }

  /** `t` names a transaction that is no longer registered. */
  ghost predicate Dangles(s: State, t: TxId)
    requires t in s
  {
    !(s[t].outgoing <= s.Keys && s[t].incoming <= s.Keys)
  }

  /** The edges at `t` are exactly its overlaps. */
  ghost predicate ExactAt(s: State, t: TxId)
    requires t in s
  {
    !Dangles(s, t) && forall x | x in s :: !Excused(s, t, x)
  }

  lemma RollbackRebuildsOwnEdges(s: State, t: TxId, sp: Savepoint)
    requires EdgesAgree(s) && t in s && !s[t].committed && TakeSavepoint(s, t) == Ok(sp) && ExactAt(s, t)
    ensures WritersOf(s, t, sp.readSet) == s[t].outgoing
    ensures ReadersOf(s, t, sp.writeSet) == s[t].incoming
  {
    forall x
      ensures x in WritersOf(s, t, sp.readSet) <==> x in s[t].outgoing
      ensures x in ReadersOf(s, t, sp.writeSet) <==> x in s[t].incoming
    {
      if x in s {
        assert PairAgrees(s, t, x) && PairAgrees(s, x, t);
      }
    }
  }

  lemma RollbackChangesNothing(s: State, t: TxId, sp: Savepoint, x: TxId)
    requires EdgesAgree(s) && t in s && !s[t].committed && TakeSavepoint(s, t) == Ok(sp)
    requires ExactAt(s, t) && x in s
    ensures RollbackTo(s, t, sp).0[x] == s[x]
  {
    RollbackRebuildsOwnEdges(s, t, sp);
    if x != t {
      assert PairAgrees(s, t, x) && PairAgrees(s, x, t);
      assert s[x].outgoing - {t} + (if t in s[x].outgoing then {t} else {}) == s[x].outgoing;
      assert s[x].incoming - {t} + (if t in s[x].incoming then {t} else {}) == s[x].incoming;
    }
  }

  lemma UnchangedRollbackWasExact(s: State, t: TxId, sp: Savepoint)
    requires t in s && !s[t].committed && TakeSavepoint(s, t) == Ok(sp)
    requires RollbackTo(s, t, sp).0 == s
    ensures ExactAt(s, t)
  {
    RollbackIsExact(s, t, sp);
  }

  lemma ExactRollbackRestores(s: State, t: TxId, sp: Savepoint)
    requires EdgesAgree(s) && t in s && !s[t].committed && TakeSavepoint(s, t) == Ok(sp) && ExactAt(s, t)
    ensures RollbackTo(s, t, sp).0 == s
  {
    var after := RollbackTo(s, t, sp).0;
    assert after.Keys == s.Keys;
    forall x | x in s ensures after[x] == s[x] {
      RollbackChangesNothing(s, t, sp, x);
    }
  }

  lemma RollbackRestoresIffExact(s: State, t: TxId)
    requires EdgesAgree(s) && t in s && !s[t].committed
    ensures TakeSavepoint(s, t).Ok? && (RollbackTo(s, t, TakeSavepoint(s, t).value).0 == s <==> ExactAt(s, t))
  {
    var sp := TakeSavepoint(s, t).value;
    if ExactAt(s, t) {
      ExactRollbackRestores(s, t, sp);
    } else if RollbackTo(s, t, sp).0 == s {
      UnchangedRollbackWasExact(s, t, sp);
    }
  }

  /** Rolling back to a savepoint just taken restores the state if and only if no overlap of
      what `t` read with a committed writer visible to it lacks its edge, and `t` names no
      transaction that is gone.  Otherwise the rollback adds the excused edges and drops the
      dangling ones. */
  lemma SavepointRoundTrip(options: Options, steps: seq<Step>, t: TxId)
    requires Legal(options, steps)
    requires var s := Run(options, steps).txns; t in s && !s[t].committed
    ensures var s := Run(options, steps).txns;
            && TakeSavepoint(s, t).Ok?
            && var after := RollbackTo(s, t, TakeSavepoint(s, t).value).0;
            && (after == s <==> ExactAt(s, t))
            && after[t].outgoing == s[t].outgoing * s.Keys + (set x | x in s && Excused(s, t, x))
            && after[t].incoming == s[t].incoming * s.Keys
  {
    ReachableInv(options, steps);
    RollbackRestoresIffExact(Run(options, steps).txns, t);
    RollbackSettlesEdges(Run(options, steps).txns, t);
  }

  /** The edges at `t` after a rollback to a savepoint just taken. */
  lemma RollbackSettlesEdges(s: State, t: TxId)
    requires EdgesAgree(s) && t in s && !s[t].committed
    ensures var after := RollbackTo(s, t, Savepoint(s[t].readSet, s[t].writeSet)).0;
            && t in after
            && after[t].outgoing == s[t].outgoing * s.Keys + (set x | x in s && Excused(s, t, x))
            && after[t].incoming == s[t].incoming * s.Keys
  {
    var after := RollbackTo(s, t, Savepoint(s[t].readSet, s[t].writeSet)).0;
    RollbackIsExact(s, t, Savepoint(s[t].readSet, s[t].writeSet));
    forall x
      ensures x in after[t].outgoing <==> x in s[t].outgoing * s.Keys + (set y | y in s && Excused(s, t, y))
      ensures x in after[t].incoming <==> x in s[t].incoming * s.Keys
    {
      if x in s {
        assert PairAgrees(s, t, x) && PairAgrees(s, x, t) && PairAgrees(s, t, t);
      }
    }
  }

  // ---- refusals owed to transactions that are gone ----

  /** The state without any mention of a transaction that is not registered. */
  function Swept(s: State): State {
    map id | id in s :: s[id].(incoming := s[id].incoming * s.Keys, outgoing := s[id].outgoing * s.Keys)
  }

  lemma SweptCommitsLikewise(s: State, t: TxId)
    requires t in s
    ensures Commit(Swept(s), t).1.Failed? <==> HasCommittedIncoming(s, t) && !(s[t].outgoing !! s.Keys)
  {
    var swept := Swept(s);
    assert swept.Keys == s.Keys && swept[t].outgoing == s[t].outgoing * s.Keys;
    assert swept[t].outgoing == {} <==> s[t].outgoing !! s.Keys by {
      if x :| x in s[t].outgoing && x in s.Keys {
        assert x in swept[t].outgoing;
      }
    }
    assert HasCommittedIncoming(swept, t) <==> HasCommittedIncoming(s, t) by {
      if r :| r in s[t].incoming && r in s && s[r].committed {
        assert r in swept[t].incoming && swept[r].committed;
      }
      if r :| r in swept[t].incoming && r in swept && swept[r].committed {
        assert r in s[t].incoming && s[r].committed;
      }
    }
  }

  lemma BetweenTwoIff(s: State, t: TxId)
    requires EdgesAgree(s) && t in s
    ensures HasCommittedIncoming(s, t) && !(s[t].outgoing !! s.Keys) <==>
              exists r, x :: r in s && x in s && s[r].committed && HasEdge(s, r, t) && HasEdge(s, t, x)
  {
    if HasCommittedIncoming(s, t) && !(s[t].outgoing !! s.Keys) {
      var r :| r in s[t].incoming && r in s && s[r].committed;
      var x :| x in s[t].outgoing && x in s.Keys;
      assert PairAgrees(s, r, t);
      assert HasEdge(s, r, t) && HasEdge(s, t, x);
    }
    if r, x :| r in s && x in s && s[r].committed && HasEdge(s, r, t) && HasEdge(s, t, x) {
      assert PairAgrees(s, r, t);
      assert r in s[t].incoming && x in s[t].outgoing && x in s.Keys;
    }
  }

  /** In every reachable state: without dangling ids a commit is refused exactly if the
      transaction lies between a committed reader and a writer that are both registered; and a
      refusal is owed to dangling ids alone exactly if it has a committed reader, and writers to
      name, but none that is registered. */
  lemma RefusedByDanglingAloneIff(options: Options, steps: seq<Step>, t: TxId)
    requires Legal(options, steps) && t in Run(options, steps).txns
    ensures var s := Run(options, steps).txns;
            && (Commit(Swept(s), t).1.Failed? <==>
                  exists r, x :: r in s && x in s && s[r].committed && HasEdge(s, r, t) && HasEdge(s, t, x))
            && (Commit(s, t).1.Failed? && Commit(Swept(s), t).1.Done? <==>
                  HasCommittedIncoming(s, t) && s[t].outgoing != {} && s[t].outgoing !! s.Keys)
  {
    var s := Run(options, steps).txns;
    ReachableInv(options, steps);
    SweptCommitsLikewise(s, t);
    BetweenTwoIff(s, t);
  }

  // ---- runs with an excused read and with dangling edges ----

  const Roomy := Options(8, 8)
  const Cell := Row(1, 1)

  const Idle := Transaction(Snapshot(1, {}), false, false, {}, {}, {}, {})
  const Reader := Idle.(readSet := {Cell})
  const Writer := Idle.(writeSet := {Cell})

  lemma CellOverlapsItself()
    ensures OverlapsAny(Cell, {Cell}) && PredicatesOverlap({Cell}, {Cell})
  {
    assert Cell in {Cell} && Overlaps(Cell, Cell);
  }

  lemma OneMoreStep(steps: seq<Step>, step: Step)
    requires Legal(Roomy, steps) && Enabled(Run(Roomy, steps), step)
    ensures Legal(Roomy, steps + [step]) && Run(Roomy, steps + [step]) == Next(Roomy, Run(Roomy, steps), step)
  {
    assert (steps + [step])[..|steps|] == steps;
  }

  lemma BeginOne(s: State, t: TxId, snapshot: Snapshot)
    requires t !in s && |s| < 8
    ensures Begin(Roomy, s, t, snapshot, false) == (s[t := Idle.(snapshot := snapshot)], Done)
  {
  }

  lemma BeginNext(steps: seq<Step>, t: TxId, snapshot: Snapshot)
    requires Legal(Roomy, steps)
    requires var w := Run(Roomy, steps); t !in w.issued && t !in w.txns && |w.txns| < 8
    ensures var w, more := Run(Roomy, steps), steps + [BeginStep(t, snapshot, false)];
            && Legal(Roomy, more)
            && Run(Roomy, more)
               == World(w.txns[t := Idle.(snapshot := snapshot)], w.issued + {t}, w.committedAt, w.clock + 1)
  {
    OneMoreStep(steps, BeginStep(t, snapshot, false));
    BeginOne(Run(Roomy, steps).txns, t, snapshot);
  }

  /** A read of the cell by a transaction that read nothing, with no writer it fails to see. */
  lemma ReadNext(steps: seq<Step>, t: TxId)
    requires Legal(Roomy, steps)
    requires var s := Run(Roomy, steps).txns;
             t in s && !s[t].committed && s[t].readSet == {} && UnseenWriters(s, t, Cell) == {}
    ensures var w, more := Run(Roomy, steps), steps + [ReadStep(t, Cell)];
            && Legal(Roomy, more)
            && Run(Roomy, more)
               == World(w.txns[t := w.txns[t].(readSet := {Cell})], w.issued, w.committedAt, w.clock + 1)
  {
    OneMoreStep(steps, ReadStep(t, Cell));
    ReadAlone(Run(Roomy, steps).txns, t);
  }

  lemma ReadAlone(s: State, t: TxId)
    requires t in s && s[t].readSet == {} && UnseenWriters(s, t, Cell) == {}
    ensures RecordRead(Roomy, s, t, Cell) == (s[t := s[t].(readSet := {Cell})], Done)
  {
    assert s[t].readSet + {Cell} == {Cell};
    LinkNone(s[t := s[t].(readSet := {Cell})], t);
  }

  lemma WriteNext(steps: seq<Step>, t: TxId, readers: set<TxId>)
    requires Legal(Roomy, steps)
    requires var s := Run(Roomy, steps).txns;
             t in s && !s[t].committed && s[t].writeSet == {} && OverlappingReaders(s, t, Cell) == readers
    ensures var w, more := Run(Roomy, steps), steps + [WriteStep(t, Cell)];
            && Legal(Roomy, more)
            && Run(Roomy, more) == World(Link(w.txns[t := w.txns[t].(writeSet := {Cell})], t, readers, {}),
                                         w.issued, w.committedAt, w.clock + 1)
  {
    OneMoreStep(steps, WriteStep(t, Cell));
    assert {} + {Cell} == {Cell};
  }

  /** Transaction 2 read what 1 had committed before the snapshot of 2: no edge joins them,
      until a rollback to a savepoint just taken adds 2 -> 1. */
  lemma ExcusedReadGainsEdge() returns (steps: seq<Step>)
    ensures Legal(Roomy, steps)
    ensures var s := Run(Roomy, steps).txns;
            && 1 in s && 2 in s && !s[2].committed && !HasEdge(s, 2, 1) && Excused(s, 2, 1)
            && TakeSavepoint(s, 2).Ok? && HasEdge(RollbackTo(s, 2, TakeSavepoint(s, 2).value).0, 2, 1)
  {
    steps := WriterCommitted();
    var late := Idle.(snapshot := Snapshot(5, {}));
    BeginNext(steps, 2, Snapshot(5, {}));
    steps := steps + [BeginStep(2, Snapshot(5, {}), false)];
    var s := Run(Roomy, steps).txns;
    assert s == map[1 := Writer.(committed := true), 2 := late];
    assert UnseenWriters(s, 2, Cell) == {};
    ReadNext(steps, 2);
    steps := steps + [ReadStep(2, Cell)];
    CellOverlapsItself();
    SavepointRoundTrip(Roomy, steps, 2);
  }

  lemma WriterCommitted() returns (steps: seq<Step>)
    ensures Legal(Roomy, steps)
    ensures Run(Roomy, steps) == World(map[1 := Writer.(committed := true)], {1}, map[1 := 2], 3)
  {
    steps := [];
    BeginNext(steps, 1, Snapshot(1, {}));
    steps := steps + [BeginStep(1, Snapshot(1, {}), false)];
    assert Run(Roomy, steps) == World(map[1 := Idle], {1}, map[], 1);
    assert OverlappingReaders(map[1 := Idle], 1, Cell) == {};
    WriteNext(steps, 1, {});
    LinkNone(map[1 := Writer], 1);
    steps := steps + [WriteStep(1, Cell)];
    assert Run(Roomy, steps) == World(map[1 := Writer], {1}, map[], 2);
    OneMoreStep(steps, CommitStep(1));
    steps := steps + [CommitStep(1)];
  }

  lemma ThreeBegun() returns (steps: seq<Step>)
    ensures Legal(Roomy, steps)
    ensures Run(Roomy, steps) == World(map[1 := Idle, 2 := Idle, 3 := Idle], {1, 2, 3}, map[], 3)
  {
    steps := [];
    BeginNext(steps, 1, Snapshot(1, {}));
    steps := steps + [BeginStep(1, Snapshot(1, {}), false)];
    assert Run(Roomy, steps) == World(map[1 := Idle], {1}, map[], 1);
    BeginNext(steps, 2, Snapshot(1, {}));
    steps := steps + [BeginStep(2, Snapshot(1, {}), false)];
    assert Run(Roomy, steps) == World(map[1 := Idle, 2 := Idle], {1, 2}, map[], 2);
    BeginNext(steps, 3, Snapshot(1, {}));
    steps := steps + [BeginStep(3, Snapshot(1, {}), false)];
  }

  lemma NothingWrittenYet(s: State, t: TxId)
    requires t in s && forall o | o in s :: s[o].writeSet == {}
    ensures UnseenWriters(s, t, Cell) == {}
  {
  }

  lemma OneHasRead() returns (steps: seq<Step>)
    ensures Legal(Roomy, steps)
    ensures Run(Roomy, steps) == World(OneReader, {1, 2, 3}, map[], 4)
  {
    steps := ThreeBegun();
    NothingWrittenYet(Run(Roomy, steps).txns, 1);
    ReadNext(steps, 1);
    steps := steps + [ReadStep(1, Cell)];
  }

  lemma SecondReads()
    ensures 2 in OneReader && OneReader[2 := OneReader[2].(readSet := {Cell})] == TwoReaders
    ensures UnseenWriters(OneReader, 2, Cell) == {}
  {
    NothingWrittenYet(OneReader, 2);
  }

  lemma TwoHaveRead() returns (steps: seq<Step>)
    ensures Legal(Roomy, steps)
    ensures Run(Roomy, steps) == World(TwoReaders, {1, 2, 3}, map[], 5)
  {
    steps := OneHasRead();
    SecondReads();
    assert !OneReader[2].committed && OneReader[2].readSet == {};
    ReadNext(steps, 2);
    steps := steps + [ReadStep(2, Cell)];
  }

  const OneReader: State := map[1 := Reader, 2 := Idle, 3 := Idle]
  const TwoReaders: State := map[1 := Reader, 2 := Reader, 3 := Idle]
  const Pivot := Reader.(writeSet := {Cell}, incoming := {1})
  const OneEdge: State := map[1 := Reader.(outgoing := {2}), 2 := Pivot, 3 := Idle]
  const TwoEdges: State :=
    map[1 := Reader.(outgoing := {2, 3}), 2 := Pivot.(outgoing := {3}), 3 := Writer.(incoming := {1, 2})]

  lemma LinkedAt(s: State, t: TxId, readers: set<TxId>, linked: State)
    requires t in s && linked.Keys == s.Keys && linked[t] == s[t].(incoming := s[t].incoming + readers)
    requires forall id | id in s && id != t ::
               linked[id] == if id in readers then s[id].(outgoing := s[id].outgoing + {t}) else s[id]
    ensures Link(s, t, readers, {}) == linked
  {
    forall id | id in s ensures Link(s, t, readers, {})[id] == linked[id] {
      assert s[id].outgoing + {} == s[id].outgoing;
    }
  }

  lemma OneEdgeLinked()
    ensures Link(TwoReaders[2 := Reader.(writeSet := {Cell})], 2, {1}, {}) == OneEdge
  {
    LinkedAt(TwoReaders[2 := Reader.(writeSet := {Cell})], 2, {1}, OneEdge);
  }

  lemma TwoEdgesLinked()
    ensures Link(OneEdge[3 := Writer], 3, {1, 2}, {}) == TwoEdges
  {
    assert {2} + {3} == {2, 3};
    LinkedAt(OneEdge[3 := Writer], 3, {1, 2}, TwoEdges);
  }

  lemma ReadersOfCell()
    ensures OverlappingReaders(TwoReaders, 2, Cell) == {1}
    ensures OverlappingReaders(OneEdge, 3, Cell) == {1, 2}
  {
    CellOverlapsItself();
  }

  /** Then 2 writes it, which 1 did not see. */
  lemma SecondHasWritten() returns (steps: seq<Step>)
    ensures Legal(Roomy, steps) && Run(Roomy, steps) == World(OneEdge, {1, 2, 3}, map[], 6)
  {
    steps := TwoHaveRead();
    ReadersOfCell();
    assert Reader.(writeSet := {Cell}) == Run(Roomy, steps).txns[2].(writeSet := {Cell});
    OneEdgeLinked();
    WriteNext(steps, 2, {1});
    steps := steps + [WriteStep(2, Cell)];
  }

  /** And 3 writes it, which neither saw: 2 is a pivot. */
  lemma PivotBetween() returns (steps: seq<Step>)
    ensures Legal(Roomy, steps) && Run(Roomy, steps) == World(TwoEdges, {1, 2, 3}, map[], 7)
  {
    steps := SecondHasWritten();
    ReadersOfCell();
    WriteNext(steps, 3, {1, 2});
    TwoEdgesLinked();
    steps := steps + [WriteStep(3, Cell)];
  }

  /** Once 1 has committed, the commit of 2 is refused and its node removed, but 3 still names
      it, until a rollback to a savepoint just taken drops the edge. */
  lemma RefusedPivotDangles() returns (steps: seq<Step>)
    ensures Legal(Roomy, steps)
    ensures var s := Run(Roomy, steps).txns;
            && 2 !in s && 3 in s && !s[3].committed && 2 in s[3].incoming && Dangles(s, 3)
            && TakeSavepoint(s, 3).Ok? && 2 !in RollbackTo(s, 3, TakeSavepoint(s, 3).value).0[3].incoming
  {
    steps := PivotBetween();
    OneMoreStep(steps, CommitStep(1));
    steps := steps + [CommitStep(1)];
    var s := Run(Roomy, steps).txns;
    assert 1 in s[2].incoming && s[1].committed && 3 in s[2].outgoing;
    assert HasCommittedIncoming(s, 2);
    OneMoreStep(steps, CommitStep(2));
    steps := steps + [CommitStep(2)];
    SavepointRoundTrip(Roomy, steps, 3);
  }

  lemma ThirdReadsToo() returns (steps: seq<Step>)
    ensures Legal(Roomy, steps)
    ensures Run(Roomy, steps).txns.Keys == {1, 2, 3}
    ensures var s := Run(Roomy, steps).txns;
            && s[1].incoming == {} && 1 in s[2].incoming && 3 in s[2].outgoing
            && 1 in s[3].incoming && s[3].outgoing == {2} && !s[3].committed
  {
    steps := PivotBetween();
    CellOverlapsItself();
    assert UnseenWriters(TwoEdges, 3, Cell) == {2};
    OneMoreStep(steps, ReadStep(3, Cell));
    steps := steps + [ReadStep(3, Cell)];
  }

  /** If 3 also read what 2 wrote: 2, refused, is gone when 3 commits, and yet 3 is refused for
      the edge to it alone. */
  lemma DanglingEdgeRefusesCommit() returns (steps: seq<Step>)
    ensures Legal(Roomy, steps)
    ensures var s := Run(Roomy, steps).txns;
            && 2 !in s && 3 in s && s[3].outgoing == {2} && Commit(s, 3).1 == Failed("40001")
            && Commit(Swept(s), 3).1 == Done
  {
    steps := ThirdReadsToo();
    OneMoreStep(steps, CommitStep(1));
    steps := steps + [CommitStep(1)];
    var s := Run(Roomy, steps).txns;
    assert 1 in s[2].incoming && s[1].committed && 3 in s[2].outgoing;
    assert HasCommittedIncoming(s, 2);
    OneMoreStep(steps, CommitStep(2));
    steps := steps + [CommitStep(2)];
    s := Run(Roomy, steps).txns;
    assert 1 in s[3].incoming && s[1].committed && 2 in s[3].outgoing;
    assert HasCommittedIncoming(s, 3);
    RefusedByDanglingAloneIff(Roomy, steps, 3);
  }
}

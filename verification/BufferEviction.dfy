/** Which page the pool evicts, told by the accesses of the run alone: LRU-2. */
module BufferEviction {
  import opened Base
  import opened Page
  import opened Buffer
  import opened BufferRuns
  import opened BufferWorld

  // ---- the rule ----

  // For each page when it was accessed since it became resident, first access first.
  type Times = map<U64, seq<nat>>

  predicate Earlier(a: nat, aId: U64, b: nat, bId: U64) { a < b || (a == b && aId <= bId) }

  ghost predicate Timed(ids: set<U64>, times: Times) {
    ids <= times.Keys && forall x | x in ids :: times[x] != []
  }

  ghost predicate SomeSeldomUsed(ids: set<U64>, times: Times)
    requires Timed(ids, times)
  {
    exists x :: x in ids && |times[x]| < 2
  }

  /** LRU-2: if some page was accessed fewer than twice, it is such a page and none other had an
      earlier first access; otherwise no page has an earlier last access but one.  Of equal times
      the smaller id counts as earlier. */
  ghost predicate LeastRecent(ids: set<U64>, times: Times, id: U64)
    requires Timed(ids, times)
  {
    && id in ids
    && if SomeSeldomUsed(ids, times) then
         |times[id]| < 2 && forall x | x in ids && |times[x]| < 2 :: Earlier(times[id][0], id, times[x][0], x)
       else
         forall x | x in ids :: Earlier(times[id][|times[id]| - 2], id, times[x][|times[x]| - 2], x)
  }

  /** The rule looks at the order of the times alone. */
  ghost predicate SameOrder(ids: set<U64>, s: Times, t: Times)
    requires ids <= s.Keys && ids <= t.Keys
  {
    && (forall x | x in ids :: |s[x]| == |t[x]|)
    && forall a, b | a in ids && b in ids :: OrdersAgree(s[a], t[a], s[b], t[b])
  }

  predicate OrdersAgree(s: seq<nat>, t: seq<nat>, u: seq<nat>, v: seq<nat>) {
    && |s| == |t| && |u| == |v|
    && forall i, j | 0 <= i < |s| && 0 <= j < |u| :: s[i] < u[j] <==> t[i] < v[j]
  }

  lemma EarlierAlike(s: seq<nat>, t: seq<nat>, u: seq<nat>, v: seq<nat>, a: U64, b: U64, i: nat, j: nat)
    requires OrdersAgree(s, t, u, v) && OrdersAgree(u, v, s, t) && i < |s| && j < |u|
    ensures Earlier(s[i], a, u[j], b) <==> Earlier(t[i], a, v[j], b)
  {
    assert u[j] < s[i] <==> v[j] < t[i];
  }

  lemma SameOrderSameVictim(ids: set<U64>, s: Times, t: Times, id: U64)
    requires Timed(ids, s) && Timed(ids, t) && SameOrder(ids, s, t)
    ensures LeastRecent(ids, s, id) <==> LeastRecent(ids, t, id)
  {
    if id in ids {
      forall x | x in ids
        ensures Earlier(s[id][0], id, s[x][0], x) <==> Earlier(t[id][0], id, t[x][0], x)
        ensures 2 <= |s[id]| && 2 <= |s[x]| ==>
                  (Earlier(s[id][|s[id]| - 2], id, s[x][|s[x]| - 2], x)
                   <==> Earlier(t[id][|t[id]| - 2], id, t[x][|t[x]| - 2], x))
      {
        assert OrdersAgree(s[id], t[id], s[x], t[x]) && OrdersAgree(s[x], t[x], s[id], t[id]);
        EarlierAlike(s[id], t[id], s[x], t[x], id, x, 0, 0);
        if 2 <= |s[id]| && 2 <= |s[x]| {
          EarlierAlike(s[id], t[id], s[x], t[x], id, x, |s[id]| - 2, |s[x]| - 2);
        }
      }
    }
  }

  // ---- by the moments of accesses ----

  ghost function Evictable(w: World): set<U64> { set id | id in w.pool.frames && Guards(w, id) == 0 }

  ghost function Moments(w: World): Times { map id | id in w.traces :: w.traces[id] }

  /** Who goes first of two pages. */
  lemma EvictsBeforeByTrace(a: seq<U64>, aId: U64, b: seq<U64>, bId: U64)
    requires a != [] && b != []
    ensures EvictsBefore(a, aId, b, bId) <==>
              if |b| < 2 then |a| < 2 && Earlier(a[0], aId, b[0], bId)
              else |a| < 2 || Earlier(a[|a| - 2], aId, b[|b| - 2], bId)
  {
  }

  ghost predicate GoesBefore(times: Times, a: U64, b: U64)
    requires a in times && b in times && times[a] != [] && times[b] != []
  {
    var s, t := times[a], times[b];
    if |t| < 2 then |s| < 2 && Earlier(s[0], a, t[0], b)
    else |s| < 2 || Earlier(s[|s| - 2], a, t[|t| - 2], b)
  }

  lemma FirstOfAllIsLeastRecent(ids: set<U64>, times: Times, id: U64)
    requires Timed(ids, times) && id in ids
    ensures (forall x | x in ids :: GoesBefore(times, id, x)) <==> LeastRecent(ids, times, id)
  {
    if SomeSeldomUsed(ids, times) {
      var seldom :| seldom in ids && |times[seldom]| < 2;
      assert GoesBefore(times, id, seldom) ==> |times[id]| < 2;
    }
  }

  lemma VictimByTraceIsLeastRecent(w: World, id: U64)
    requires w.traces.Keys == w.pool.frames.Keys && forall x | x in w.traces :: w.traces[x] != []
    ensures IsVictimByTrace(w, id) <==> LeastRecent(Evictable(w), Moments(w), id)
  {
    if id in Evictable(w) {
      FirstOfAllIsLeastRecent(Evictable(w), Moments(w), id);
      forall x | x in Evictable(w)
        ensures EvictsBefore(w.traces[id], id, w.traces[x], x) <==> GoesBefore(Moments(w), id, x)
      {
        EvictsBeforeByTrace(w.traces[id], id, w.traces[x], x);
      }
      assert IsVictimByTrace(w, id) <==> forall x | x in Evictable(w) :: GoesBefore(Moments(w), id, x);
    }
  }

  /** Over every run the pool evicts, of the unguarded pages, the least recent by the moments its
      clock showed. */
  lemma VictimIsLeastRecent(ops: PageOps, start: Pool, steps: seq<Step>, id: U64)
    requires Lawful(ops) && Fresh(start) && Legal(ops, start, steps)
    ensures var w := Run(ops, start, steps);
            && Timed(Evictable(w), Moments(w))
            && (IsVictim(w.pool.frames, id) <==> LeastRecent(Evictable(w), Moments(w), id))
  {
    ReachableInv(ops, start, steps);
    TrimmedHistoriesPickTheSameVictim(ops, start, steps, id);
    VictimByTraceIsLeastRecent(Run(ops, start, steps), id);
  }

  // ---- by the order of the calls ----

  /** The calls of the run that accessed a page since it became resident. */
  ghost function Accesses(ops: PageOps, start: Pool, steps: seq<Step>, id: U64): seq<nat>
    requires Legal(ops, start, steps)
    decreases |steps|
  {
    if steps == [] then []
    else
      var front, last := steps[..|steps| - 1], steps[|steps| - 1];
      var w := Run(ops, start, front);
      var (after, outcome) := Execute(ops, w, last);
      if id !in after.frames then []
      else (if id in w.pool.frames then Accesses(ops, start, front, id) else [])
           + (if Touches(ops, last, outcome, id) then [|front|] else [])
  }

  /** A step moves the clock by at most one, and by one if it accesses a page. */
  lemma StepOnClock(ops: PageOps, w: World, step: Step, id: U64)
    requires Lawful(ops) && PoolInv(ops, w.pool, w.loose) && Enabled(w, step) && w.pool.clock + 1 < U64_LIMIT
    ensures var (after, outcome) := Execute(ops, w, step);
            && w.pool.clock <= after.clock <= w.pool.clock + 1
            && (Touches(ops, step, outcome, id) ==> after.clock == w.pool.clock + 1)
  {
    match step
    case FetchStep(fetched, victim, device) =>
      if fetched !in w.pool.frames {
        RoomFrames(ops, w.pool.(clock := Tick(w.pool.clock)), victim, device);
      }
    case InstallStep(_, _, victim, device) => RoomFrames(ops, w.pool, victim, device);
    case FlushAllStep(devices) => FlushingKeepsClock(ops, w.pool, w.pool.frames.Keys, devices);
    case _ =>
  }

  lemma {:induction false} FlushingKeepsClock(ops: PageOps, pool: Pool, ids: set<U64>, devices: U64 -> Device)
    ensures FlushAscending(ops, pool, ids, devices).0.clock == pool.clock
    decreases |ids|
  {
    if ids != {} {
      var id: U64 := Least(ids);
      FlushingKeepsClock(ops, FlushPage(ops, pool, id, devices(id)).0, ids - {id}, devices);
    }
  }

  ghost function AllAccesses(ops: PageOps, start: Pool, steps: seq<Step>): Times
    requires Legal(ops, start, steps)
  {
    map id | id in Run(ops, start, steps).pool.frames :: Accesses(ops, start, steps, id)
  }

  /** Each access is listed by its call, and later calls have later moments. */
  ghost predicate InCallOrder(ops: PageOps, start: Pool, steps: seq<Step>)
    requires Legal(ops, start, steps)
  {
    var w := Run(ops, start, steps);
    && w.pool.clock <= start.clock + |steps|
    && (forall id | id in w.traces ::
          Listed(w.traces[id], Accesses(ops, start, steps, id), w.pool.clock, |steps|))
    && forall a, b | a in w.traces && b in w.traces ::
         OrdersAgree(w.traces[a], Accesses(ops, start, steps, a), w.traces[b], Accesses(ops, start, steps, b))
  }

  predicate Listed(trace: seq<nat>, calls: seq<nat>, clock: nat, bound: nat) {
    |calls| == |trace| && forall i | 0 <= i < |calls| :: calls[i] < bound && trace[i] <= clock
  }

  lemma AccessOneMore(ops: PageOps, start: Pool, front: seq<Step>, last: Step, id: U64)
    requires Lawful(ops) && Fresh(start) && Legal(ops, start, front) && Enabled(Run(ops, start, front), last)
    requires Legal(ops, start, front + [last]) && id in Run(ops, start, front + [last]).traces
    ensures var w, w' := Run(ops, start, front), Run(ops, start, front + [last]);
            var touched := Touches(ops, last, Execute(ops, w, last).1, id);
            && w' == Next(ops, w, last)
            && Accesses(ops, start, front + [last], id)
               == (if id in w.traces then Accesses(ops, start, front, id) else []) + (if touched then [|front|] else [])
            && w'.traces[id]
               == (if id in w.traces then w.traces[id] else []) + (if touched then [w'.pool.clock] else [])
  {
    var steps := front + [last];
    assert steps[..|steps| - 1] == front;
    ReachableInv(ops, start, front);
    StepFrames(ops, Run(ops, start, front), last, id);
  }

  /** The accesses of a page before the step, as moments and as calls. */
  ghost function Past(ops: PageOps, start: Pool, front: seq<Step>, id: U64): (seq<nat>, seq<nat>)
    requires Legal(ops, start, front)
  {
    var w := Run(ops, start, front);
    if id in w.traces then (w.traces[id], Accesses(ops, start, front, id)) else ([], [])
  }

  function Extended(times: seq<nat>, touched: bool, time: nat): seq<nat> {
    times + if touched then [time] else []
  }

  lemma ListOneMore(trace: seq<nat>, calls: seq<nat>, clock: nat, call: nat, later: nat, touched: bool)
    requires Listed(trace, calls, clock, call) && clock <= later
    ensures Listed(Extended(trace, touched, later), Extended(calls, touched, call), later, call + 1)
  {
  }

  lemma OrderOneMore(s: seq<nat>, calls: seq<nat>, t: seq<nat>, others: seq<nat>, call: nat, clock: nat, later: nat,
                     touchedS: bool, touchedT: bool)
    requires OrdersAgree(s, calls, t, others) && Listed(s, calls, clock, call) && Listed(t, others, clock, call)
    requires touchedS || touchedT ==> clock < later
    ensures OrdersAgree(Extended(s, touchedS, later), Extended(calls, touchedS, call),
                        Extended(t, touchedT, later), Extended(others, touchedT, call))
  {
  }

  lemma ExtendedByStep(ops: PageOps, start: Pool, front: seq<Step>, last: Step, id: U64)
    requires Lawful(ops) && Fresh(start) && Legal(ops, start, front) && Enabled(Run(ops, start, front), last)
    requires Legal(ops, start, front + [last]) && InCallOrder(ops, start, front)
    requires start.clock + |front| + 1 < U64_LIMIT && id in Run(ops, start, front + [last]).traces
    ensures var w, w' := Run(ops, start, front), Run(ops, start, front + [last]);
            var (moments, calls) := Past(ops, start, front, id);
            var touched := Touches(ops, last, Execute(ops, w, last).1, id);
            && Listed(moments, calls, w.pool.clock, |front|)
            && w'.traces[id] == Extended(moments, touched, w'.pool.clock)
            && Accesses(ops, start, front + [last], id) == Extended(calls, touched, |front|)
            && w.pool.clock <= w'.pool.clock <= w.pool.clock + 1 && (touched ==> w.pool.clock < w'.pool.clock)
  {
    ReachableInv(ops, start, front);
    AccessOneMore(ops, start, front, last, id);
    StepOnClock(ops, Run(ops, start, front), last, id);
  }

  lemma OrderAfterStep(ops: PageOps, start: Pool, front: seq<Step>, last: Step, a: U64, b: U64)
    requires Lawful(ops) && Fresh(start) && Legal(ops, start, front) && Enabled(Run(ops, start, front), last)
    requires Legal(ops, start, front + [last]) && InCallOrder(ops, start, front)
    requires start.clock + |front| + 1 < U64_LIMIT
    requires a in Run(ops, start, front + [last]).traces && b in Run(ops, start, front + [last]).traces
    ensures var w', steps := Run(ops, start, front + [last]), front + [last];
            && Listed(w'.traces[a], Accesses(ops, start, steps, a), w'.pool.clock, |steps|)
            && OrdersAgree(w'.traces[a], Accesses(ops, start, steps, a), w'.traces[b], Accesses(ops, start, steps, b))
  {
    var w, w' := Run(ops, start, front), Run(ops, start, front + [last]);
    var outcome := Execute(ops, w, last).1;
    ExtendedByStep(ops, start, front, last, a);
    ExtendedByStep(ops, start, front, last, b);
    var (s, calls) := Past(ops, start, front, a);
    var (t, others) := Past(ops, start, front, b);
    ListOneMore(s, calls, w.pool.clock, |front|, w'.pool.clock, Touches(ops, last, outcome, a));
    OrderOneMore(s, calls, t, others, |front|, w.pool.clock, w'.pool.clock, Touches(ops, last, outcome, a),
                 Touches(ops, last, outcome, b));
  }

  lemma StepKeepsCallOrder(ops: PageOps, start: Pool, front: seq<Step>, last: Step)
    requires Lawful(ops) && Fresh(start) && Legal(ops, start, front) && Enabled(Run(ops, start, front), last)
    requires Legal(ops, start, front + [last]) && InCallOrder(ops, start, front)
    requires start.clock + |front| + 1 < U64_LIMIT
    ensures InCallOrder(ops, start, front + [last])
  {
    var w, w', steps := Run(ops, start, front), Run(ops, start, front + [last]), front + [last];
    ReachableInv(ops, start, front);
    StepOnClock(ops, w, last, 0);
    assert steps[..|steps| - 1] == front && w' == Next(ops, w, last);
    forall id | id in w'.traces ensures Listed(w'.traces[id], Accesses(ops, start, steps, id), w'.pool.clock, |steps|) {
      OrderAfterStep(ops, start, front, last, id, id);
    }
    forall a, b | a in w'.traces && b in w'.traces
      ensures OrdersAgree(w'.traces[a], Accesses(ops, start, steps, a), w'.traces[b], Accesses(ops, start, steps, b))
    {
      OrderAfterStep(ops, start, front, last, a, b);
    }
  }

  lemma {:induction false} AccessesAreInCallOrder(ops: PageOps, start: Pool, steps: seq<Step>)
    requires Lawful(ops) && Fresh(start) && Legal(ops, start, steps) && start.clock + |steps| < U64_LIMIT
    ensures InCallOrder(ops, start, steps)
    decreases |steps|
  {
    if steps == [] {
      NothingAccessedYet(ops, start);
    } else {
      var front, last := steps[..|steps| - 1], steps[|steps| - 1];
      var whole := front + [last];
      assert whole == steps;
      AccessesAreInCallOrder(ops, start, front);
      StepKeepsCallOrder(ops, start, front, last);
      assert InCallOrder(ops, start, whole);
    }
  }

  lemma NothingAccessedYet(ops: PageOps, start: Pool)
    requires Fresh(start) && Legal(ops, start, [])
    ensures InCallOrder(ops, start, [])
  {
  }

  lemma CallsKeepOrder(ops: PageOps, start: Pool, steps: seq<Step>)
    requires Legal(ops, start, steps) && InCallOrder(ops, start, steps)
    requires var w := Run(ops, start, steps); w.traces.Keys == w.pool.frames.Keys && Timed(Evictable(w), Moments(w))
    ensures var w := Run(ops, start, steps);
            && Timed(Evictable(w), AllAccesses(ops, start, steps))
            && SameOrder(Evictable(w), Moments(w), AllAccesses(ops, start, steps))
  {
    var w := Run(ops, start, steps);
    forall x | x in Evictable(w) ensures |AllAccesses(ops, start, steps)[x]| == |Moments(w)[x]| > 0 {
      assert Listed(w.traces[x], Accesses(ops, start, steps, x), w.pool.clock, |steps|);
    }
  }

  /** Over every run shorter than the clock is wide, the pool evicts, of the unguarded pages, the
      least recent by the order in which the calls of the run accessed them. */
  lemma VictimIsLeastRecentlyUsed(ops: PageOps, start: Pool, steps: seq<Step>, id: U64)
    requires Lawful(ops) && Fresh(start) && Legal(ops, start, steps) && start.clock + |steps| < U64_LIMIT
    ensures var w := Run(ops, start, steps);
            && Timed(Evictable(w), AllAccesses(ops, start, steps))
            && (IsVictim(w.pool.frames, id) <==> LeastRecent(Evictable(w), AllAccesses(ops, start, steps), id))
  {
    var w := Run(ops, start, steps);
    VictimIsLeastRecent(ops, start, steps, id);
    AccessesAreInCallOrder(ops, start, steps);
    ReachableInv(ops, start, steps);
    CallsKeepOrder(ops, start, steps);
    SameOrderSameVictim(Evictable(w), Moments(w), AllAccesses(ops, start, steps), id);
  }

  /** A step evicts only to make room in a full pool for a page that is not resident, and then
      only the victim. */
  lemma EvictedToMakeRoom(ops: PageOps, w: World, step: Step, id: U64)
    requires Lawful(ops) && PoolInv(ops, w.pool, w.loose) && Enabled(w, step)
    requires id in w.pool.frames && id !in Execute(ops, w, step).0.frames
    ensures (step.FetchStep? && step.id !in w.pool.frames)
            || (step.InstallStep? && ops.idOf(step.page) !in w.pool.frames)
    ensures |w.pool.frames| == w.pool.capacity && id == step.victim && IsVictim(w.pool.frames, id)
  {
    match step
    case FetchStep(_, victim, device) =>
      EvictsVictimOnly(ops, w.pool.(clock := Tick(w.pool.clock)), victim, device, id);
    case InstallStep(_, _, victim, device) => EvictsVictimOnly(ops, w.pool, victim, device, id);
    case FlushStep(flushed, device) => FlushPageKeepsView(ops, w.pool, flushed, device, w.loose);
    case FlushAllStep(devices) => FlushAscendingKeepsView(ops, w.pool, w.pool.frames.Keys, devices, w.loose);
    case _ =>
  }

  lemma EvictsVictimOnly(ops: PageOps, pool: Pool, victim: U64, device: Device, id: U64)
    requires (!AllPinned(pool.frames) ==> victim in pool.frames) && |pool.frames| <= pool.capacity && id in pool.frames
    ensures id !in EnsureCapacity(ops, pool, victim, device).0.frames ==>
              id == victim && |pool.frames| == pool.capacity && !AllPinned(pool.frames)
  {
  }

  /** Over every such run a page leaves only a full pool, for a page that is not resident, alone,
      and as the least recently used. */
  lemma EvictionIsForced(ops: PageOps, start: Pool, steps: seq<Step>, step: Step, id: U64)
    requires Lawful(ops) && Fresh(start) && Legal(ops, start, steps) && start.clock + |steps| < U64_LIMIT
    requires var w := Run(ops, start, steps);
             Enabled(w, step) && id in w.pool.frames && id !in Execute(ops, w, step).0.frames
    ensures var w := Run(ops, start, steps);
            && ((step.FetchStep? && step.id !in w.pool.frames)
                || (step.InstallStep? && ops.idOf(step.page) !in w.pool.frames))
            && |w.pool.frames| == w.pool.capacity && Timed(Evictable(w), AllAccesses(ops, start, steps))
            && LeastRecent(Evictable(w), AllAccesses(ops, start, steps), id)
            && forall x | x in w.pool.frames && x !in Execute(ops, w, step).0.frames :: x == id
  {
    var w := Run(ops, start, steps);
    ReachableInv(ops, start, steps);
    EvictedToMakeRoom(ops, w, step, id);
    VictimIsLeastRecentlyUsed(ops, start, steps, id);
    forall x | x in w.pool.frames && x !in Execute(ops, w, step).0.frames ensures x == id {
      EvictedToMakeRoom(ops, w, step, x);
    }
  }
}

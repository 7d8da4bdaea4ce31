/** The shared memory grant: operators of one query take and return bytes concurrently through
    compare-and-exchange on one counter.  Every atomic access is a step. */
module Memory {
  import opened Base

  // What a reservation's owner is in the middle of.  A pending exchange remembers the counter
  // as last observed; `Taken` and `Returned` are exchanges that succeeded and whose bytes the
  // reservation does not show yet.
  datatype Doing =
    | Idle
    | Taking(extra: nat, observed: nat, opening: bool)
    | Taken(added: nat, reached: nat)
    | Noted(recorded: nat)
    | Returning(less: nat, seen: nat, drop: bool)
    | Returned(removed: nat, dropped: bool)

  datatype Reservation = Reservation(bytes: nat, doing: Doing)

  datatype Grant = Grant(hard: nat, current: nat, peak: nat, reservations: map<nat, Reservation>)

  const EXCEEDED := "53200"

  /** The bytes of the counter a reservation answers for. */
  function Held(r: Reservation): int {
    match r.doing
    case Taken(extra, _) => r.bytes + extra
    case Noted(extra) => r.bytes + extra
    case Returned(less, _) => r.bytes - less
    case _ => r.bytes
  }

  function Total(reservations: map<nat, Reservation>): int
    decreases |reservations.Keys|
  {
    if reservations.Keys == {} then 0
    else
      var id := Least(reservations.Keys);
      Held(reservations[id]) + Total(reservations - {id})
  }

  // ---- steps ----

  datatype Step =
    | Reserve(id: nat, wanted: nat)
    | Grow(id: nat, additional: nat)
    | Exchange(id: nat, spurious: bool)
    | NotePeak(id: nat)
    | Credit(id: nat)
    | Shrink(id: nat, to: nat)
    | Drop(id: nat)
    | Debit(id: nat)
    | Transfer(id: nat, target: nat, moved: nat)

  predicate At(g: Grant, id: nat, doing: Doing) {
    id in g.reservations && g.reservations[id].doing == doing
  }

  predicate Pending(g: Grant, id: nat) {
    id in g.reservations && (g.reservations[id].doing.Taking? || g.reservations[id].doing.Returning?)
  }

  /** A reservation is owned: nothing else touches it while a call on it is under way. */
  predicate Enabled(g: Grant, step: Step) {
    match step
    case Reserve(id, _) => id !in g.reservations
    case Grow(id, _) => At(g, id, Idle)
    case Exchange(id, _) => Pending(g, id)
    case NotePeak(id) => id in g.reservations && g.reservations[id].doing.Taken?
    case Credit(id) => id in g.reservations && g.reservations[id].doing.Noted?
    case Shrink(id, to) => At(g, id, Idle) && to < g.reservations[id].bytes
    case Drop(id) => At(g, id, Idle)
    case Debit(id) => id in g.reservations && g.reservations[id].doing.Returned?
    case Transfer(id, target, _) => At(g, id, Idle) && At(g, target, Idle) && id != target
  }

  function With(g: Grant, id: nat, r: Reservation): Grant {
    g.(reservations := g.reservations[id := r])
  }

  function Gone(g: Grant, id: nat): Grant {
    g.(reservations := g.reservations - {id})
  }

  /** Asking for bytes: none are always granted, otherwise the counter is read. */
  function Ask(g: Grant, id: nat, bytes: nat, extra: nat, opening: bool): Grant {
    With(g, id, Reservation(bytes, if extra == 0 then Idle else Taking(extra, g.current, opening)))
  }

  /** One turn of the taking loop: refuse, succeed, or look again.  A sum past the machine word
      is past the limit too.  A reservation that was being opened never comes to be. */
  function ExchangeTake(g: Grant, id: nat, bytes: nat, extra: nat, observed: nat, opening: bool,
                        spurious: bool): (Grant, Outcome)
  {
    var next := observed + extra;
    if g.hard < next then
      (if opening then Gone(g, id) else With(g, id, Reservation(bytes, Idle)), Failed(EXCEEDED))
    else if observed == g.current && !spurious then
      (With(g.(current := next), id, Reservation(bytes, Taken(extra, next))), Done)
    else (With(g, id, Reservation(bytes, Taking(extra, g.current, opening))), Done)
  }

  /** One turn of the returning loop; the subtraction saturates. */
  function ExchangeReturn(g: Grant, id: nat, bytes: nat, less: nat, observed: nat, drop: bool, spurious: bool): Grant {
    var next := if less <= observed then observed - less else 0;
    if observed == g.current && !spurious then
      With(g.(current := next), id, Reservation(bytes, Returned(less, drop)))
    else With(g, id, Reservation(bytes, Returning(less, g.current, drop)))
  }

  function Execute(g: Grant, step: Step): (Grant, Outcome)
    requires Enabled(g, step)
  {
    match step
    case Reserve(id, wanted) => (Ask(g, id, 0, wanted, true), Done)
    case Grow(id, additional) => (Ask(g, id, g.reservations[id].bytes, additional, false), Done)
    case Exchange(id, spurious) =>
      var r := g.reservations[id];
      if r.doing.Taking? then ExchangeTake(g, id, r.bytes, r.doing.extra, r.doing.observed, r.doing.opening, spurious)
      else (ExchangeReturn(g, id, r.bytes, r.doing.less, r.doing.seen, r.doing.drop, spurious), Done)
    case NotePeak(id) =>
      var r := g.reservations[id];
      (With(g.(peak := if g.peak < r.doing.reached then r.doing.reached else g.peak), id,
            Reservation(r.bytes, Noted(r.doing.added))), Done)
    case Credit(id) =>
      var r := g.reservations[id];
      (With(g, id, Reservation(r.bytes + r.doing.recorded, Idle)), Done)
    case Shrink(id, to) =>
      var r := g.reservations[id];
      (With(g, id, Reservation(r.bytes, Returning(r.bytes - to, g.current, false))), Done)
    case Drop(id) =>
      var r := g.reservations[id];
      if r.bytes == 0 then (Gone(g, id), Done)
      else (With(g, id, Reservation(r.bytes, Returning(r.bytes, g.current, true))), Done)
    case Debit(id) =>
      var r := g.reservations[id];
      if r.doing.dropped then (Gone(g, id), Done)
      else (With(g, id, Reservation(if r.doing.removed <= r.bytes then r.bytes - r.doing.removed else 0, Idle)), Done)
    case Transfer(id, target, moved) =>
      var source, sink := g.reservations[id], g.reservations[target];
      if source.bytes < moved then (g, Failed("XX000"))
      else
        (With(With(g, id, Reservation(source.bytes - moved, Idle)),
              target, Reservation(sink.bytes + moved, Idle)), Done)
  }

  // ---- the invariant ----

  /** A pending exchange has seen enough bytes for what it returns, so the saturating
      subtraction never saturates; a reservation never returns more than it has. */
  predicate Covered(r: Reservation) {
    match r.doing
    case Taking(_, _, opening) => opening ==> r.bytes == 0
    case Returning(less, seen, drop) => less <= r.bytes && less <= seen && (drop ==> less == r.bytes)
    case Returned(less, dropped) => less <= r.bytes && (dropped ==> less == r.bytes)
    case _ => true
  }

  /** The counter was never above the peak without its exchange being on the way to note it. */
  ghost predicate PeakFollows(g: Grant) {
    g.current <= g.peak || exists id :: id in g.reservations && Reached(g.reservations[id], g.current)
  }

  predicate Reached(r: Reservation, level: nat) { r.doing.Taken? && level <= r.doing.reached }

  predicate EntrySound(g: Grant, r: Reservation) {
    Covered(r) && (r.doing.Taken? ==> r.doing.reached <= g.hard)
  }

  ghost predicate EntriesSound(g: Grant) {
    forall id | id in g.reservations :: EntrySound(g, g.reservations[id])
  }

  ghost predicate Inv(g: Grant) {
    && g.current == Total(g.reservations)
    && g.current <= g.hard && g.peak <= g.hard
    && EntriesSound(g) && PeakFollows(g)
  }

  // ---- sums ----

  /** Any entry can be taken out of the sum first. */
  lemma {:induction false} TotalTakesOut(m: map<nat, Reservation>, id: nat)
    requires id in m
    ensures Total(m) == Held(m[id]) + Total(m - {id})
    decreases |m.Keys|
  {
    var least := Least(m.Keys);
    if id != least {
      var rest := m - {least};
      assert rest.Keys == m.Keys - {least};
      TotalTakesOut(rest, id);
      var fewer := m - {id};
      assert fewer.Keys == m.Keys - {id};
      assert least in fewer.Keys && forall k | k in fewer.Keys :: least <= k;
      assert Least(fewer.Keys) == least;
      assert rest - {id} == fewer - {least};
    }
  }

  lemma TotalAfterUpdate(m: map<nat, Reservation>, id: nat, r: Reservation)
    ensures Total(m[id := r]) == Held(r) + Total(m - {id})
  {
    TotalTakesOut(m[id := r], id);
    assert m[id := r] - {id} == m - {id};
  }

  lemma TotalWithoutAbsent(m: map<nat, Reservation>, id: nat)
    requires id !in m
    ensures Total(m - {id}) == Total(m)
  {
    assert m - {id} == m;
  }

  lemma {:induction false} TotalIsNotNegative(m: map<nat, Reservation>)
    requires forall id | id in m :: Covered(m[id])
    ensures 0 <= Total(m)
    decreases |m.Keys|
  {
    if m.Keys != {} {
      var id := Least(m.Keys);
      assert (m - {id}).Keys == m.Keys - {id};
      TotalIsNotNegative(m - {id});
    }
  }

  /** One reservation never answers for more than the counter. */
  lemma HeldIsWithinTotal(m: map<nat, Reservation>, id: nat)
    requires id in m && forall k | k in m :: Covered(m[k])
    ensures 0 <= Held(m[id]) <= Total(m)
  {
    TotalTakesOut(m, id);
    TotalIsNotNegative(m - {id});
  }

  // ---- every step keeps the invariant ----

  lemma WithinCounter(g: Grant, id: nat)
    requires Inv(g) && id in g.reservations
    ensures 0 <= Held(g.reservations[id]) <= g.current <= g.hard
  {
    forall k | k in g.reservations ensures Covered(g.reservations[k]) {
      assert EntrySound(g, g.reservations[k]);
    }
    HeldIsWithinTotal(g.reservations, id);
  }

  lemma UpdateKeepsEntries(g: Grant, id: nat, r: Reservation)
    requires EntriesSound(g) && EntrySound(g, r)
    ensures EntriesSound(With(g, id, r))
  {
    forall k | k in With(g, id, r).reservations ensures EntrySound(g, With(g, id, r).reservations[k]) {
      if k != id {
        assert EntrySound(g, g.reservations[k]);
      }
    }
  }

  lemma UpdateKeepsInv(g: Grant, id: nat, r: Reservation, current: nat, peak: nat)
    requires Inv(g) && EntrySound(g, r)
    requires current <= g.hard && peak <= g.hard
    requires var before := if id in g.reservations then Held(g.reservations[id]) else 0;
             current == g.current - before + Held(r)
    requires PeakFollows(With(g.(current := current, peak := peak), id, r))
    ensures Inv(With(g.(current := current, peak := peak), id, r))
  {
    UpdateKeepsEntries(g, id, r);
    TotalAfterUpdate(g.reservations, id, r);
    if id in g.reservations {
      TotalTakesOut(g.reservations, id);
    } else {
      TotalWithoutAbsent(g.reservations, id);
    }
  }

  lemma RemovalKeepsInv(g: Grant, id: nat)
    requires Inv(g) && id in g.reservations && Held(g.reservations[id]) == 0 && !g.reservations[id].doing.Taken?
    ensures Inv(Gone(g, id))
  {
    TotalTakesOut(g.reservations, id);
    if !(g.current <= g.peak) {
      var k :| k in g.reservations && Reached(g.reservations[k], g.current);
      assert k in Gone(g, id).reservations && Reached(Gone(g, id).reservations[k], g.current);
    }
  }

  lemma PeakFollowsElsewhere(g: Grant, id: nat, r: Reservation, current: nat)
    requires PeakFollows(g) && current <= g.current
    requires id in g.reservations ==> !g.reservations[id].doing.Taken?
    ensures PeakFollows(With(g.(current := current), id, r))
  {
    if !(g.current <= g.peak) {
      var k :| k in g.reservations && Reached(g.reservations[k], g.current);
      assert k != id;
      assert Reached(With(g.(current := current), id, r).reservations[k], current);
    }
  }

  lemma LocalKeepsInv(g: Grant, id: nat, r: Reservation)
    requires Inv(g) && EntrySound(g, r) && !r.doing.Taken?
    requires id in g.reservations ==> !g.reservations[id].doing.Taken? && Held(g.reservations[id]) == Held(r)
    requires id !in g.reservations ==> Held(r) == 0
    ensures Inv(With(g, id, r))
  {
    PeakFollowsElsewhere(g, id, r, g.current);
    UpdateKeepsInv(g, id, r, g.current, g.peak);
  }

  lemma TakeKeepsInv(g: Grant, id: nat, spurious: bool)
    requires Inv(g) && Pending(g, id) && g.reservations[id].doing.Taking?
    ensures Inv(Execute(g, Exchange(id, spurious)).0)
  {
    var r := g.reservations[id];
    var next := r.doing.observed + r.doing.extra;
    assert EntrySound(g, r);
    if g.hard < next {
      if r.doing.opening {
        RemovalKeepsInv(g, id);
      } else {
        LocalKeepsInv(g, id, Reservation(r.bytes, Idle));
      }
    } else if r.doing.observed == g.current && !spurious {
      var taken := Reservation(r.bytes, Taken(r.doing.extra, next));
      assert Reached(With(g.(current := next), id, taken).reservations[id], next);
      UpdateKeepsInv(g, id, taken, next, g.peak);
    } else {
      LocalKeepsInv(g, id, Reservation(r.bytes, Taking(r.doing.extra, g.current, r.doing.opening)));
    }
  }

  lemma ReturnKeepsInv(g: Grant, id: nat, spurious: bool)
    requires Inv(g) && Pending(g, id) && g.reservations[id].doing.Returning?
    ensures Inv(Execute(g, Exchange(id, spurious)).0)
  {
    var r := g.reservations[id];
    assert EntrySound(g, r);
    WithinCounter(g, id);
    if r.doing.seen == g.current && !spurious {
      var returned := Reservation(r.bytes, Returned(r.doing.less, r.doing.drop));
      PeakFollowsElsewhere(g, id, returned, g.current - r.doing.less);
      UpdateKeepsInv(g, id, returned, g.current - r.doing.less, g.peak);
    } else {
      LocalKeepsInv(g, id, Reservation(r.bytes, Returning(r.doing.less, g.current, r.doing.drop)));
    }
  }

  lemma NotePeakKeepsInv(g: Grant, id: nat)
    requires Inv(g) && Enabled(g, NotePeak(id))
    ensures Inv(Execute(g, NotePeak(id)).0)
  {
    var r := g.reservations[id];
    assert EntrySound(g, r);
    var noted := Reservation(r.bytes, Noted(r.doing.added));
    var peak := if g.peak < r.doing.reached then r.doing.reached else g.peak;
    var after := With(g.(peak := peak), id, noted);
    if !(g.current <= peak) {
      var k :| k in g.reservations && Reached(g.reservations[k], g.current);
      assert k != id;
      assert Reached(after.reservations[k], after.current);
    }
    UpdateKeepsInv(g, id, noted, g.current, peak);
  }

  lemma TransferKeepsTotal(m: map<nat, Reservation>, id: nat, target: nat, source: Reservation, sink: Reservation)
    requires id in m && target in m && id != target
    requires Held(source) + Held(sink) == Held(m[id]) + Held(m[target])
    ensures Total(m[id := source][target := sink]) == Total(m)
  {
    var m1 := m[id := source];
    TotalTakesOut(m, id);
    TotalAfterUpdate(m, id, source);
    TotalTakesOut(m1, target);
    TotalAfterUpdate(m1, target, sink);
  }

  lemma TransferKeepsPeak(g: Grant, id: nat, target: nat, source: Reservation, sink: Reservation)
    requires PeakFollows(g) && At(g, id, Idle) && At(g, target, Idle) && id != target
    ensures PeakFollows(With(With(g, id, source), target, sink))
  {
    var middle := With(g, id, source);
    PeakFollowsElsewhere(g, id, source, g.current);
    PeakFollowsElsewhere(middle, target, sink, middle.current);
  }

  lemma TransferKeepsEntries(g: Grant, id: nat, target: nat, source: Reservation, sink: Reservation)
    requires EntriesSound(g) && EntrySound(g, source) && EntrySound(g, sink)
    ensures EntriesSound(With(With(g, id, source), target, sink))
  {
    UpdateKeepsEntries(g, id, source);
    UpdateKeepsEntries(With(g, id, source), target, sink);
  }

  lemma TransferredState(g: Grant, id: nat, target: nat, moved: nat)
    requires Enabled(g, Transfer(id, target, moved)) && moved <= g.reservations[id].bytes
    ensures Execute(g, Transfer(id, target, moved)).0
         == With(With(g, id, Reservation(g.reservations[id].bytes - moved, Idle)), target,
                 Reservation(g.reservations[target].bytes + moved, Idle))
  {
  }

  lemma TransferKeepsInv(g: Grant, id: nat, target: nat, moved: nat)
    requires Inv(g) && Enabled(g, Transfer(id, target, moved)) && moved <= g.reservations[id].bytes
    ensures Inv(Execute(g, Transfer(id, target, moved)).0)
  {
    var source := Reservation(g.reservations[id].bytes - moved, Idle);
    var sink := Reservation(g.reservations[target].bytes + moved, Idle);
    TransferredState(g, id, target, moved);
    TransferKeepsTotal(g.reservations, id, target, source, sink);
    TransferKeepsPeak(g, id, target, source, sink);
    TransferKeepsEntries(g, id, target, source, sink);
  }

  lemma ShrinkKeepsInv(g: Grant, id: nat, less: nat, drop: bool)
    requires Inv(g) && At(g, id, Idle) && less <= g.reservations[id].bytes
             && (drop ==> less == g.reservations[id].bytes)
    ensures Inv(With(g, id, Reservation(g.reservations[id].bytes, Returning(less, g.current, drop))))
  {
    WithinCounter(g, id);
    LocalKeepsInv(g, id, Reservation(g.reservations[id].bytes, Returning(less, g.current, drop)));
  }

  lemma DebitKeepsInv(g: Grant, id: nat)
    requires Inv(g) && Enabled(g, Debit(id))
    ensures Inv(Execute(g, Debit(id)).0)
  {
    var r := g.reservations[id];
    assert EntrySound(g, r);
    if r.doing.dropped {
      RemovalKeepsInv(g, id);
    } else {
      LocalKeepsInv(g, id, Reservation(r.bytes - r.doing.removed, Idle));
    }
  }

  lemma StepKeepsInv(g: Grant, step: Step)
    requires Inv(g) && Enabled(g, step)
    ensures Inv(Execute(g, step).0)
  {
    match step
    case Reserve(id, wanted) => LocalKeepsInv(g, id, Ask(g, id, 0, wanted, true).reservations[id]);
    case Grow(id, additional) =>
      LocalKeepsInv(g, id, Ask(g, id, g.reservations[id].bytes, additional, false).reservations[id]);
    case Exchange(id, spurious) =>
      if g.reservations[id].doing.Taking? { TakeKeepsInv(g, id, spurious); } else { ReturnKeepsInv(g, id, spurious); }
    case NotePeak(id) => NotePeakKeepsInv(g, id);
    case Credit(id) =>
      LocalKeepsInv(g, id, Reservation(g.reservations[id].bytes + g.reservations[id].doing.recorded, Idle));
    case Shrink(id, to) => ShrinkKeepsInv(g, id, g.reservations[id].bytes - to, false);
    case Drop(id) =>
      if g.reservations[id].bytes == 0 {
        RemovalKeepsInv(g, id);
      } else {
        ShrinkKeepsInv(g, id, g.reservations[id].bytes, true);
      }
    case Debit(id) => DebitKeepsInv(g, id);
    case Transfer(id, target, moved) =>
      if moved <= g.reservations[id].bytes { TransferKeepsInv(g, id, target, moved); }
  }

  // ---- runs ----

  function NewGrant(hard: nat): Grant { Grant(hard, 0, 0, map[]) }

  ghost predicate Legal(hard: nat, steps: seq<Step>)
    decreases |steps|, 0
  {
    steps != [] ==>
      Legal(hard, steps[..|steps| - 1]) && Enabled(Run(hard, steps[..|steps| - 1]), steps[|steps| - 1])
  }

  ghost function Run(hard: nat, steps: seq<Step>): Grant
    requires Legal(hard, steps)
    decreases |steps|, 1
  {
    if steps == [] then NewGrant(hard)
    else Execute(Run(hard, steps[..|steps| - 1]), steps[|steps| - 1]).0
  }

  lemma {:induction false} ReachableInv(hard: nat, steps: seq<Step>)
    requires Legal(hard, steps)
    ensures Inv(Run(hard, steps)) && Run(hard, steps).hard == hard
    decreases |steps|
  {
    if steps != [] {
      ReachableInv(hard, steps[..|steps| - 1]);
      StepKeepsInv(Run(hard, steps[..|steps| - 1]), steps[|steps| - 1]);
    }
  }

  /** Over every interleaving: the counter is what the reservations and the calls under way
      account for, within the hard limit; and when no call is under way it is the sum of the
      reservations and no higher than the recorded peak. */
  lemma CounterAccountsForReservations(hard: nat, steps: seq<Step>)
    requires Legal(hard, steps)
    ensures var g := Run(hard, steps);
            && g.current == Total(g.reservations) && g.current <= hard && g.peak <= hard
            && ((forall id | id in g.reservations :: g.reservations[id].doing.Idle?) ==>
                  g.current <= g.peak && g.current == Bytes(g.reservations))
  {
    ReachableInv(hard, steps);
    var g := Run(hard, steps);
    if forall id | id in g.reservations :: g.reservations[id].doing.Idle? {
      IdleTotal(g.reservations);
    }
  }

  /** The plain sum of what reservations show. */
  function Bytes(m: map<nat, Reservation>): nat
    decreases |m.Keys|
  {
    if m.Keys == {} then 0
    else
      var id := Least(m.Keys);
      m[id].bytes + Bytes(m - {id})
  }

  lemma {:induction false} IdleTotal(m: map<nat, Reservation>)
    requires forall id | id in m :: m[id].doing.Idle?
    ensures Total(m) == Bytes(m)
    decreases |m.Keys|
  {
    if m.Keys != {} {
      var id := Least(m.Keys);
      assert (m - {id}).Keys == m.Keys - {id};
      IdleTotal(m - {id});
    }
  }

  /** Growing cannot overflow the reservation once the counter was raised: what is credited
      stays within the hard limit. */
  lemma CreditStaysWithinLimit(hard: nat, steps: seq<Step>, id: nat)
    requires Legal(hard, steps) && Enabled(Run(hard, steps), Credit(id))
    ensures var r := Run(hard, steps).reservations[id]; r.bytes + r.doing.recorded <= hard
  {
    ReachableInv(hard, steps);
    WithinCounter(Run(hard, steps), id);
  }

  /** Nor can a transfer overflow its target. */
  lemma TransferStaysWithinLimit(hard: nat, steps: seq<Step>, id: nat, target: nat, moved: nat)
    requires Legal(hard, steps) && Enabled(Run(hard, steps), Transfer(id, target, moved))
    requires moved <= Run(hard, steps).reservations[id].bytes
    ensures Run(hard, steps).reservations[target].bytes + moved <= hard
  {
    ReachableInv(hard, steps);
    var g := Run(hard, steps);
    TransferKeepsInv(g, id, target, moved);
    WithinCounter(Execute(g, Transfer(id, target, moved)).0, target);
  }

  /** A returning exchange never saturates: the counter it observed covers what it returns. */
  lemma ReturnNeverSaturates(hard: nat, steps: seq<Step>, id: nat)
    requires Legal(hard, steps)
    ensures var g := Run(hard, steps);
            id in g.reservations && g.reservations[id].doing.Returning? ==>
              g.reservations[id].doing.less <= g.reservations[id].doing.seen
  {
    ReachableInv(hard, steps);
    var g := Run(hard, steps);
    if id in g.reservations {
      assert EntrySound(g, g.reservations[id]);
    }
  }

  /** When the last reservation is gone, every byte has been returned. */
  lemma EverythingIsReturned(hard: nat, steps: seq<Step>)
    requires Legal(hard, steps) && Run(hard, steps).reservations == map[]
    ensures Run(hard, steps).current == 0
  {
    ReachableInv(hard, steps);
  }

  // ---- the peak ----

  /** The highest the counter ever was. */
  ghost function Highest(hard: nat, steps: seq<Step>): nat
    requires Legal(hard, steps)
    decreases |steps|
  {
    if steps == [] then 0
    else
      var before, now := Highest(hard, steps[..|steps| - 1]), Run(hard, steps).current;
      if before < now then now else before
  }

  /** The peak is `highest`, or an exchange that reached it has yet to note it. */
  ghost predicate PeakTracks(g: Grant, highest: nat) {
    && g.current <= highest && g.peak <= highest
    && (forall id | id in g.reservations && g.reservations[id].doing.Taken? ::
          g.reservations[id].doing.reached <= highest)
    && (highest <= g.peak || exists id :: id in g.reservations && Reached(g.reservations[id], highest))
  }

  lemma StepTracksPeak(g: Grant, step: Step, highest: nat)
    requires PeakTracks(g, highest) && Enabled(g, step)
    ensures var after := Execute(g, step).0;
            PeakTracks(after, if highest < after.current then after.current else highest)
  {
    var after := Execute(g, step).0;
    if step.Exchange? && highest < after.current {
      assert Reached(after.reservations[step.id], after.current);
    } else if !(highest <= g.peak) {
      var k :| k in g.reservations && Reached(g.reservations[k], highest);
      if step != NotePeak(k) {
        assert k in after.reservations && after.reservations[k] == g.reservations[k];
      }
    }
  }

  /** The recorded peak never exceeds the highest the counter was, and is it whenever no exchange has
      yet to note what it reached. */
  lemma {:induction false} PeakIsHighest(hard: nat, steps: seq<Step>)
    requires Legal(hard, steps)
    ensures var g := Run(hard, steps);
            && PeakTracks(g, Highest(hard, steps))
            && g.peak <= Highest(hard, steps)
            && ((forall id | id in g.reservations :: !g.reservations[id].doing.Taken?) ==>
                  g.peak == Highest(hard, steps))
    decreases |steps|
  {
    if steps != [] {
      var front := steps[..|steps| - 1];
      PeakIsHighest(hard, front);
      StepTracksPeak(Run(hard, front), steps[|steps| - 1], Highest(hard, front));
    }
  }

  // ---- refusals ----

  /** At some moment of the run the counter left no room for `extra` bytes. */
  ghost predicate WasFull(hard: nat, steps: seq<Step>, extra: nat) {
    exists m | 0 <= m <= |steps| :: Legal(hard, steps[..m]) && hard < Run(hard, steps[..m]).current + extra
  }

  ghost predicate WasObserved(hard: nat, steps: seq<Step>, observed: nat) {
    exists m | 0 <= m <= |steps| :: Legal(hard, steps[..m]) && Run(hard, steps[..m]).current == observed
  }

  lemma ObservedGrows(hard: nat, front: seq<Step>, last: Step, observed: nat)
    requires WasObserved(hard, front, observed)
    ensures WasObserved(hard, front + [last], observed)
  {
    var m :| 0 <= m <= |front| && Legal(hard, front[..m]) && Run(hard, front[..m]).current == observed;
    assert (front + [last])[..m] == front[..m];
  }

  /** What a call that takes bytes goes by is the counter at some moment of the run. */
  lemma {:induction false} TakingObserved(hard: nat, steps: seq<Step>, id: nat)
    requires Legal(hard, steps) && id in Run(hard, steps).reservations
    requires Run(hard, steps).reservations[id].doing.Taking?
    ensures WasObserved(hard, steps, Run(hard, steps).reservations[id].doing.observed)
    decreases |steps|
  {
    if steps != [] {
      var front, last := steps[..|steps| - 1], steps[|steps| - 1];
      var before := Run(hard, front);
      assert steps == front + [last];
      var doing := Run(hard, steps).reservations[id].doing;
      if id in before.reservations && before.reservations[id].doing == doing {
        TakingObserved(hard, front, id);
        ObservedGrows(hard, front, last, doing.observed);
      } else {
        assert doing.observed == before.current;
        assert steps[..|front|] == front;
      }
    }
  }

  /** An exchange that takes bytes is refused only if at some moment of the run they did not fit
      under the hard limit; with nobody else at the counter it succeeds exactly if they fit now. */
  lemma RefusedOnlyIfFull(hard: nat, steps: seq<Step>, id: nat, spurious: bool)
    requires Legal(hard, steps) && Enabled(Run(hard, steps), Exchange(id, spurious))
    requires Run(hard, steps).reservations[id].doing.Taking?
    ensures var g := Run(hard, steps);
            var doing := g.reservations[id].doing;
            var (after, outcome) := Execute(g, Exchange(id, spurious));
            && (outcome.Failed? ==> outcome == Failed("53200") && WasFull(hard, steps, doing.extra))
            && (doing.observed == g.current && !spurious ==>
                  && (outcome.Done? <==> g.current + doing.extra <= hard)
                  && (outcome.Done? ==> after.current == g.current + doing.extra))
            && (outcome.Failed? ==> after.current == g.current)
  {
    ReachableInv(hard, steps);
    TakingObserved(hard, steps, id);
    var observed := Run(hard, steps).reservations[id].doing.observed;
    var m :| 0 <= m <= |steps| && Legal(hard, steps[..m]) && Run(hard, steps[..m]).current == observed;
  }
}

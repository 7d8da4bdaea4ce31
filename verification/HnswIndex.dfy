/** The vector index as the program builds it: nodes whose link lists are rewritten in place. */
module VectorIndex {
  import opened Base
  import opened Hnsw
  import opened HnswGraph
  import opened HnswNearest

  // ---- facts the searches rest on ----

  ghost function BetterNodes(metric: Metric, nodes: seq<Node>, query: Vector, n: Neighbor): set<nat> {
    set i | i in Below(|nodes|) && Better(Neighbor(DistanceOr(metric, nodes, query, i), i), n)
  }

  lemma ImprovingShrinks(metric: Metric, nodes: seq<Node>, query: Vector, current: Neighbor, next: Neighbor)
    requires Better(next, current) && Measured(metric, nodes, query, next)
    ensures |BetterNodes(metric, nodes, query, next)| < |BetterNodes(metric, nodes, query, current)|
  {
    assert next.index in BetterNodes(metric, nodes, query, current);
    SubsetIsSmaller(BetterNodes(metric, nodes, query, next), BetterNodes(metric, nodes, query, current));
  }

  ghost predicate AllLinksVisited(nodes: seq<Node>, level: nat, expanded: set<nat>, visited: set<nat>) {
    forall i, j | i in expanded && j in Links(nodes, i, level) :: j in visited
  }

  lemma StartMatches(start: Neighbor, size: nat)
    requires start.index < size
    ensures VisitedMatches({start}, {start.index}, size)
  {
    assert start in {start};
  }

  /** When the closest candidate is beyond the worst of the best, no best node is waiting. */
  lemma StoppingIsSafe(best: set<Neighbor>, candidates: set<Neighbor>)
    requires best != {} && candidates != {}
    requires Value(Farthest(best).distance) < Value(Closest(candidates).distance)
    ensures best !! candidates
  {
    forall n | n in best ensures Value(n.distance) <= Value(Farthest(best).distance) {
      assert n == Farthest(best) || Closer(n, Farthest(best));
    }
    forall n | n in candidates ensures Value(Closest(candidates).distance) <= Value(n.distance) {
      assert n == Closest(candidates) || Closer(Closest(candidates), n);
    }
  }

  /** A search in progress: the heaps are sound, every best node is expanded or waiting, and
      every link of an expanded node has been measured. */
  ghost predicate Underway(metric: Metric, nodes: seq<Node>, query: Vector, level: nat, entry: nat, ef: nat,
                           heaps: Heaps,
                           expanded: set<nat>) {
    && SeenSound(metric, nodes, query, level, entry, heaps.seen) && Sees(heaps.seen, entry)
    && VisitedMatches(heaps.seen, heaps.visited, |nodes|) && HeapsSound(heaps.seen, heaps.best, heaps.candidates, ef)
    && (forall b | b in heaps.best && b.index !in expanded :: b in heaps.candidates)
    && AllLinksVisited(nodes, level, expanded, heaps.visited)
  }

  lemma SearchStarts(metric: Metric, nodes: seq<Node>, query: Vector, level: nat, ef: nat, start: Neighbor,
                     heaps: Heaps)
    requires Measured(metric, nodes, query, start) && Reaches(nodes, start.index, level) && 0 < ef
    requires heaps == Heaps({start}, {start.index}, {start}, {start})
    ensures Underway(metric, nodes, query, level, start.index, ef, heaps, {})
  {
    ReachesItself(nodes, level, start.index);
    StartMatches(start, |nodes|);
    assert start in heaps.seen;
  }

  lemma SearchGoesOn(metric: Metric, nodes: seq<Node>, query: Vector, level: nat, entry: nat, ef: nat, heaps: Heaps,
                     popped: Heaps,
                     after: Heaps, candidate: Neighbor, expanded: set<nat>)
    requires Underway(metric, nodes, query, level, entry, ef, heaps, expanded)
    requires popped == heaps.(candidates := heaps.candidates - {candidate})
    requires SeenSound(metric, nodes, query, level, entry, after.seen)
             && VisitedMatches(after.seen, after.visited, |nodes|)
    requires HeapsSound(after.seen, after.best, after.candidates, ef) && Grew(popped, after)
    requires forall j | j in Links(nodes, candidate.index, level) :: j in after.visited
    ensures Underway(metric, nodes, query, level, entry, ef, after, expanded + {candidate.index})
  {
    var n :| n in heaps.seen && n.index == entry;
    assert n in after.seen;
  }

  lemma FinishedBeam(metric: Metric, nodes: seq<Node>, query: Vector, level: nat, ef: nat, beam: Beam, heaps: Heaps,
                     expanded: set<nat>)
    requires Underway(metric, nodes, query, level, beam.entry, ef, heaps, expanded)
    requires heaps.best !! heaps.candidates && beam.visited == heaps.seen
    requires Elements(beam.result) == heaps.best && Sorted(beam.result)
    ensures BeamSound(metric, nodes, query, level, ef, beam) && beam.result != []
    ensures forall n | n in beam.result :: Reaches(nodes, n.index, level)
  {
    forall r | r in beam.result ensures r in heaps.best {
      assert r in Elements(beam.result);
    }
    forall r, j | r in beam.result && j in Links(nodes, r.index, level) ensures Sees(beam.visited, j) {
      assert r.index in expanded;
    }
  }

  lemma PushedShape(mid: seq<Node>, i: nat, level: nat, links: seq<nat>)
    requires Reaches(mid, i, level)
    ensures SameShape(mid, WithLinks(mid, i, level, links)) && Links(WithLinks(mid, i, level, links), i, level) == links
    ensures SameElsewhere(mid, WithLinks(mid, i, level, links), level)
    ensures forall j: nat | j != i :: Links(WithLinks(mid, i, level, links), j, level) == Links(mid, j, level)
  {
  }

  lemma ShapesChain(a: seq<Node>, b: seq<Node>, c: seq<Node>, level: nat)
    requires SameShape(a, b) && SameShape(b, c) && SameElsewhere(a, b, level) && SameElsewhere(b, c, level)
    ensures SameShape(a, c) && SameElsewhere(a, c, level)
  {
    forall other: nat | other != level ensures SameLinks(a, c, other) {
      assert SameLinks(a, b, other) && SameLinks(b, c, other);
    }
  }

  lemma BackLinkAt(metric: Metric, m: nat, before: seq<Node>, mid: seq<Node>, after: seq<Node>, new_: nat, level: nat,
                   done: seq<nat>, i: nat, j: nat)
    requires BackLinked(metric, m, before, mid, new_, level, done) && SameShape(mid, after) && j < |after|
    requires j != i ==> Links(after, j, level) == Links(mid, j, level)
    requires RelinkedTo(metric, after, i, Links(before, i, level), new_, m, level) && i !in done
    ensures if j in done + [i] then RelinkedTo(metric, after, j, Links(before, j, level), new_, m, level)
            else Links(after, j, level) == Links(before, j, level)
  {
    if j in done {
      RelinkedSameShape(metric, mid, after, j, Links(before, j, level), new_, m, level);
    }
  }

  lemma BackLinkJoins(metric: Metric, m: nat, before: seq<Node>, mid: seq<Node>, after: seq<Node>, new_: nat,
                      level: nat, done: seq<nat>, i: nat)
    requires BackLinked(metric, m, before, mid, new_, level, done)
    requires SameShape(mid, after) && SameElsewhere(mid, after, level)
    requires forall j: nat | j != i :: Links(after, j, level) == Links(mid, j, level)
    requires RelinkedTo(metric, after, i, Links(before, i, level), new_, m, level) && i !in done
    ensures BackLinked(metric, m, before, after, new_, level, done + [i])
  {
    ShapesChain(before, mid, after, level);
    forall j: nat | j < |after|
      ensures if j in done + [i] then RelinkedTo(metric, after, j, Links(before, j, level), new_, m, level)
              else Links(after, j, level) == Links(before, j, level)
    {
      BackLinkAt(metric, m, before, mid, after, new_, level, done, i, j);
    }
  }

  lemma BackLinkOneMore(metric: Metric, m: nat, before: seq<Node>, mid: seq<Node>, pushed: seq<Node>, after: seq<Node>,
                        new_: nat,
                        level: nat, chosen: seq<nat>, k: nat)
    requires k < |chosen| && Distinct(chosen) && chosen[k] !in chosen[..k]
    requires BackLinked(metric, m, before, mid, new_, level, chosen[..k])
    requires Reaches(mid, chosen[k], level)
    requires pushed == WithLinks(mid, chosen[k], level, Links(mid, chosen[k], level) + [new_])
    requires after == WithLinks(pushed, chosen[k], level,
                        Nearest(metric, pushed, pushed[chosen[k]].vector, ToSet(Links(pushed, chosen[k], level)), m))
    requires AllMeasurable(metric, pushed, pushed[chosen[k]].vector, ToSet(Links(pushed, chosen[k], level)))
    ensures BackLinked(metric, m, before, after, new_, level, chosen[..k + 1])
  {
    var i := chosen[k];
    PushedShape(mid, i, level, Links(mid, i, level) + [new_]);
    PushedShape(pushed, i, level, Nearest(metric, pushed, pushed[i].vector, ToSet(Links(pushed, i, level)), m));
    assert Links(pushed, i, level) == Links(before, i, level) + [new_];
    ShapesChain(mid, pushed, after, level);
    assert RelinkedTo(metric, after, i, Links(before, i, level), new_, m, level) by {
      NearestSameShape(metric, pushed, after, mid[i].vector, ToSet(Links(before, i, level) + [new_]), m);
    }
    assert chosen[..k + 1] == chosen[..k] + [i];
    BackLinkJoins(metric, m, before, mid, after, new_, level, chosen[..k], i);
  }

  lemma OneDistanceEach(metric: Metric, nodes: seq<Node>, query: Vector, level: nat, ef: nat, beam: Beam, a: Neighbor,
                        b: Neighbor)
    requires BeamSound(metric, nodes, query, level, ef, beam) && a in beam.result && b in beam.result
             && a.index == b.index
    ensures a == b
  {
    assert a in Elements(beam.result) && b in Elements(beam.result);
    assert Measured(metric, nodes, query, a) && Measured(metric, nodes, query, b);
  }

  lemma FoundIsPresent(metric: Metric, nodes: seq<Node>, m: nat, query: Vector, new_: nat, level: nat, ef: nat,
                       beam: Beam, n: Neighbor)
    requires BeamSound(metric, nodes, query, level, ef, beam) && GraphSound(nodes, m) && n in beam.result
    requires beam.entry != new_ && Reaches(nodes, beam.entry, level) && forall i: nat :: new_ !in Links(nodes, i, level)
    ensures n.index != new_ && Reaches(nodes, n.index, level) && Measured(metric, nodes, query, n)
  {
    assert n in Elements(beam.result);
    UnlinkedIsUnreachable(nodes, level, beam.entry, new_);
    assert Reachable(nodes, level, beam.entry, n.index);
    ReachableIsPresent(nodes, m, level, beam.entry, n.index);
  }

  /** A search of a level no node links `new_` into never returns it, and the front of its
      result is fit to be the new node's list. */
  lemma SelectionIsSound(metric: Metric, nodes: seq<Node>, m: nat, query: Vector, new_: nat, level: nat, ef: nat,
                         beam: Beam)
    requires BeamSound(metric, nodes, query, level, ef, beam) && GraphSound(nodes, m) && 0 < m
    requires beam.entry != new_ && Reaches(nodes, beam.entry, level) && forall i: nat :: new_ !in Links(nodes, i, level)
    requires beam.result != []
    ensures Others(beam.result, new_) == beam.result
    ensures var chosen := Indexes(Take(beam.result, m)); chosen != [] && Choosable(nodes, m, new_, level, chosen)
    ensures forall n | n in Take(beam.result, m) :: Measured(metric, nodes, query, n)
  {
    forall n | n in beam.result
      ensures n.index != new_ && Reaches(nodes, n.index, level) && Measured(metric, nodes, query, n)
    {
      FoundIsPresent(metric, nodes, m, query, new_, level, ef, beam, n);
    }
    NothingToDrop(beam.result, new_);
    forall a, b | a in beam.result && b in beam.result && a.index == b.index ensures a == b {
      OneDistanceEach(metric, nodes, query, level, ef, beam, a, b);
    }
    FrontIsChoosable(nodes, m, new_, level, beam.result);
    forall n | n in Take(beam.result, m) ensures n in beam.result {
    }
  }

  lemma ChoosingKeepsGraphSound(nodes: seq<Node>, m: nat, new_: nat, level: nat, chosen: seq<nat>)
    requires GraphSound(nodes, m) && Reaches(nodes, new_, level) && Choosable(nodes, m, new_, level, chosen)
    ensures GraphSound(WithLinks(nodes, new_, level, chosen), m)
  {
    var after := WithLinks(nodes, new_, level, chosen);
    forall i: nat, other: nat ensures ListSound(after, m, i, other) {
      assert ListSound(nodes, m, i, other);
      if i == new_ && other == level {
        forall k | 0 <= k < |chosen| ensures LinkSound(after, i, other, chosen[k]) {
          assert chosen[k] in chosen;
        }
      } else {
        ListStaysSound(nodes, after, m, i, other);
      }
    }
  }

  lemma ChosenArePresent(nodes: seq<Node>, m: nat, new_: nat, level: nat, chosen: seq<nat>)
    requires Reaches(nodes, new_, level) && Choosable(nodes, m, new_, level, chosen)
    ensures new_ !in chosen
    ensures forall j | j in chosen :: Reaches(WithLinks(nodes, new_, level, chosen), j, level)
  {
    forall j | j in chosen ensures j != new_ && Reaches(WithLinks(nodes, new_, level, chosen), j, level) {
      assert LinkSound(nodes, new_, level, j);
    }
  }

  lemma IndexSet(front: seq<Neighbor>)
    ensures ToSet(Indexes(front)) == set k | 0 <= k < |front| :: front[k].index
  {
    var chosen := Indexes(front);
    forall j | j in ToSet(chosen) ensures j in set k | 0 <= k < |front| :: front[k].index {
      var k :| 0 <= k < |chosen| && chosen[k] == j;
      assert front[k].index == j;
    }
  }

  lemma SettingSameLinks(nodes: seq<Node>, i: nat, level: nat)
    requires Reaches(nodes, i, level)
    ensures WithLinks(nodes, i, level, Links(nodes, i, level)) == nodes
  {
    assert nodes[i].neighbors[level := Links(nodes, i, level)] == nodes[i].neighbors;
  }

  /** The new node's own list survives its pruning unchanged. */
  lemma PruningChosenChangesNothing(metric: Metric, m: nat, before: seq<Node>, linked: seq<Node>, new_: nat, level: nat,
                                    front: seq<Neighbor>)
    requires SameShape(before, linked) && Reaches(linked, new_, level) && Links(linked, new_, level) == Indexes(front)
    requires Sorted(front) && |front| <= m && forall n | n in front :: Measured(metric, before, before[new_].vector, n)
    ensures WithLinks(linked, new_, level,
              Nearest(metric, linked, linked[new_].vector, ToSet(Links(linked, new_, level)), m)) == linked
  {
    IndexSet(front);
    RescoringKeepsOrder(metric, before, before[new_].vector, front, ToSet(Indexes(front)), m);
    NearestSameShape(metric, before, linked, before[new_].vector, ToSet(Indexes(front)), m);
    SettingSameLinks(linked, new_, level);
  }

  /** Choosing and linking back together link the level. */
  lemma LevelIsLinked(metric: Metric, m: nat, before: seq<Node>, after: seq<Node>, new_: nat, level: nat,
                      chosen: seq<nat>)
    requires Reaches(before, new_, level) && new_ !in chosen
    requires BackLinked(metric, m, WithLinks(before, new_, level, chosen), after, new_, level, chosen)
    ensures SameShape(before, after) && LevelLinked(metric, m, before, after, new_, level, chosen)
  {
    var selected := WithLinks(before, new_, level, chosen);
    assert SameShape(before, selected) && Links(selected, new_, level) == chosen;
    forall other: nat | other != level ensures SameLinks(before, after, other) {
      assert SameLinks(selected, after, other);
    }
    forall i: nat | i < |after| && i != new_ ensures Links(selected, i, level) == Links(before, i, level) {
    }
  }

  lemma RelinkedFromBefore(metric: Metric, m: nat, before: seq<Node>, after: seq<Node>, new_: nat, level: nat,
                           chosen: seq<nat>)
    requires Reaches(before, new_, level) && new_ !in chosen
    requires BackLinksNearest(metric, m, WithLinks(before, new_, level, chosen), after, new_, level, chosen)
    ensures BackLinksNearest(metric, m, before, after, new_, level, chosen)
  {
    forall i | i in chosen ensures RelinksNearest(metric, m, before, after, new_, level, i) {
      assert RelinksNearest(metric, m, WithLinks(before, new_, level, chosen), after, new_, level, i);
      PushedShape(before, new_, level, chosen);
    }
  }

  lemma BeamIsMeasured(metric: Metric, before: seq<Node>, after: seq<Node>, new_: nat, level: nat, ef: nat, beam: Beam)
    requires new_ < |before| && SameShape(before, after)
    requires BeamSound(metric, before, before[new_].vector, level, ef, beam)
    ensures forall n | n in beam.result :: Measured(metric, after, after[new_].vector, n)
  {
    forall n | n in beam.result ensures Measured(metric, after, after[new_].vector, n) {
      assert n in Elements(beam.result);
      assert Measured(metric, before, before[new_].vector, n);
    }
  }

  lemma DescendRefused(metric: Metric, nodes: seq<Node>, vector: Vector)
    requires exists i :: 0 <= i < |nodes| && metric(vector, nodes[i].vector).Err?
    ensures !Total(metric, Vectors(nodes) + {vector})
  {
    var i :| 0 <= i < |nodes| && metric(vector, nodes[i].vector).Err?;
    assert nodes[i].vector in Vectors(nodes) + {vector};
  }

  lemma LinkingRefused(metric: Metric, before: seq<Node>, now: seq<Node>, vector: Vector)
    requires Extends(before, now) && |now| == |before| + 1 && now[|before|].vector == vector
    requires exists i, j :: 0 <= i < |now| && 0 <= j < |now| && metric(now[i].vector, now[j].vector).Err?
    ensures !Total(metric, Vectors(before) + {vector})
  {
    var i, j :| 0 <= i < |now| && 0 <= j < |now| && metric(now[i].vector, now[j].vector).Err?;
    assert forall k | 0 <= k < |now| :: k < |before| ==> now[k].vector == before[k].vector;
    assert now[i].vector in Vectors(before) + {vector} && now[j].vector in Vectors(before) + {vector};
  }

  ghost predicate Appended(before: seq<Node>, after: seq<Node>, rowId: U64, vector: Vector, level: nat) {
    && |after| == |before| + 1 && Extends(before, after)
    && after[|before|].rowId == rowId && after[|before|].vector == vector && |after[|before|].neighbors| == level + 1
  }

  lemma AppendedStays(before: seq<Node>, base: seq<Node>, after: seq<Node>, rowId: U64, vector: Vector, level: nat)
    requires Appended(before, base, rowId, vector, level) && SameShape(base, after)
    ensures Appended(before, after, rowId, vector, level)
  {
    forall i | 0 <= i < |before|
      ensures before[i].rowId == after[i].rowId && before[i].vector == after[i].vector
      ensures |before[i].neighbors| == |after[i].neighbors|
    {
      assert base[i].rowId == before[i].rowId;
    }
  }

  ghost predicate GreedyEnd(metric: Metric, nodes: seq<Node>, query: Vector, level: nat, i: nat) {
    && Reaches(nodes, i, level) && metric(query, nodes[i].vector).Ok?
    && LocalOptimum(metric, nodes, query, level, Neighbor(metric(query, nodes[i].vector).value, i))
  }

  /** Part way down the levels: those above `level` are linked, and the search of the next one
      has its entry. */
  ghost predicate Progress(metric: Metric, m: nat, ef: nat, before: seq<Node>, base: seq<Node>, now: seq<Node>,
                           level: int,
                           connectMax: nat, first: nat, entry: nat, beams: map<nat, Beam>) {
    && -1 <= level && GraphSound(now, m) && PartlyInserted(metric, m, ef, before, base, now, level, connectMax, beams)
    && EntriesChain(now, |before|, level, connectMax, first, beams)
    && (0 <= level ==> Reaches(before, entry, level))
    && entry == if level == connectMax then first else FirstLink(now, |before|, level + 1)
  }

  lemma SameShapeChain(a: seq<Node>, b: seq<Node>, c: seq<Node>)
    requires SameShape(a, b) && SameShape(b, c)
    ensures SameShape(a, c)
  {
  }

  lemma ReadyToConnect(metric: Metric, m: nat, ef: nat, before: seq<Node>, base: seq<Node>, mid: seq<Node>, level: nat,
                       connectMax: nat,
                       first: nat, beams: map<nat, Beam>, entry: nat)
    requires Progress(metric, m, ef, before, base, mid, level, connectMax, first, entry, beams)
    requires GraphSound(before, m) && |base| == |before| + 1 && Extends(before, base)
             && Reaches(base, |before|, connectMax)
    requires SameAllLinks(before, base) && level <= connectMax
    ensures GraphSound(mid, m) && SameLinks(before, mid, level) && SameShape(base, mid) && Reaches(before, entry, level)
    ensures Reaches(mid, |before|, level) && Reaches(mid, entry, level) && entry != |before|
    ensures forall i: nat :: |before| !in Links(mid, i, level)
  {
    assert SameLinks(base, mid, level) && SameLinks(before, base, level);
    forall i: nat ensures |before| !in Links(mid, i, level) && Links(mid, i, level) == Links(before, i, level) {
      assert Links(before, i, level) == Links(base, i, level);
      assert ListSound(before, m, i, level);
    }
  }

  lemma ProgressStep(metric: Metric, m: nat, ef: nat, before: seq<Node>, base: seq<Node>, mid: seq<Node>,
                     now: seq<Node>, level: nat,
                     connectMax: nat, first: nat, entry: nat, beams: map<nat, Beam>, beam: Beam, next: nat)
    requires Progress(metric, m, ef, before, base, mid, level, connectMax, first, entry, beams) && level <= connectMax
    requires GraphSound(before, m) && |base| == |before| + 1 && Extends(before, base) && SameLinks(before, mid, level)
    requires GraphSound(now, m) && beam.entry == entry && Reaches(before, entry, level)
    requires |before| < |mid| && BeamSound(metric, mid, mid[|before|].vector, level, ef, beam)
    requires var chosen := Indexes(Take(beam.result, m));
             chosen != [] && next == chosen[0] && LevelLinked(metric, m, mid, now, |before|, level, chosen)
    ensures Progress(metric, m, ef, before, base, now, level - 1, connectMax, first, next, beams[level := beam])
  {
    LinkedLevelIsInserted(metric, m, ef, before, base, mid, now, level, beam);
    OneMoreLevel(metric, m, ef, before, base, mid, now, level, connectMax, beams, beam, Indexes(Take(beam.result, m)));
    ChainOneMore(mid, now, |before|, level, connectMax, first, beams, beam);
    NextEntryIsReady(metric, m, ef, before, now, level, beam, next);
  }

  lemma NextEntryIsReady(metric: Metric, m: nat, ef: nat, before: seq<Node>, now: seq<Node>, level: nat, beam: Beam,
                         next: nat)
    requires LevelInserted(metric, m, ef, before, now, level, beam) && next == Indexes(Take(beam.result, m))[0]
    ensures next == FirstLink(now, |before|, level) && Reaches(before, next, level)
    ensures level > 0 ==> Reaches(before, next, level - 1)
  {
    assert next in Indexes(Take(beam.result, m));
  }

  lemma EntryStaysSound(before: seq<Node>, base: seq<Node>, after: seq<Node>, entry: Option<nat>, maxLevel: nat,
                        newLevel: nat)
    requires EntrySound(before, entry, maxLevel) && entry.Some? && Extends(before, base) && |base| == |before| + 1
    requires |base[|before|].neighbors| == newLevel + 1 && SameShape(base, after)
    ensures EntrySound(after, if maxLevel < newLevel then Some(|before|) else entry,
                       if maxLevel < newLevel then newLevel else maxLevel)
    ensures Extends(before, after)
  {
    forall i | 0 <= i < |after| ensures i < |before| ==> |after[i].neighbors| == |before[i].neighbors| {
      assert |after[i].neighbors| == |base[i].neighbors|;
    }
  }

  class HnswIndex {
    const m: nat
    const efConstruction: nat
    const metric: Metric
    const levelOf: U64 -> nat
    const accept: Vector -> Outcome
    var nodes: seq<Node>
    var entryPoint: Option<nat>
    var maxLevel: nat

    ghost predicate Valid()
      reads this
    {
      2 <= m <= efConstruction && GraphSound(nodes, m) && EntrySound(nodes, entryPoint, maxLevel)
    }

    constructor (m: nat, efConstruction: nat, metric: Metric, levelOf: U64 -> nat, accept: Vector -> Outcome)
      requires 2 <= m <= efConstruction
      ensures Valid() && nodes == []
      ensures this.m == m && this.efConstruction == efConstruction
      ensures this.metric == metric && this.levelOf == levelOf && this.accept == accept
    {
      this.m, this.efConstruction, this.metric, this.levelOf := m, efConstruction, metric, levelOf;
      this.accept := accept;
      nodes, entryPoint, maxLevel := [], None, 0;
    }

    method Measure(query: Vector, i: nat) returns (measured: Result<Neighbor>)
      requires i < |nodes|
      ensures measured.Ok? ==> measured.value.index == i && Measured(metric, nodes, query, measured.value)
      ensures measured.Err? <==> metric(query, nodes[i].vector).Err?
      ensures measured.Err? ==> measured == Err(metric(query, nodes[i].vector).state)
    {
      var distance := metric(query, nodes[i].vector);
      match distance
      case Ok(d) => measured := Ok(Neighbor(d, i));
      case Err(state) => measured := Err(state);
    }

    // ---- greedy descent ----

    /** The best link of `current` that improves on it, if any: one pass of greedy descent. */
    method Improve(query: Vector, current: Neighbor, level: nat) returns (result: Result<Option<Neighbor>>)
      requires GraphSound(nodes, m) && Measured(metric, nodes, query, current)
      ensures result.Ok? && result.value.Some? ==>
        && Better(result.value.value, current)
        && Measured(metric, nodes, query, result.value.value) && Reaches(nodes, result.value.value.index, level)
      ensures result.Ok? && result.value.None? ==> LocalOptimum(metric, nodes, query, level, current)
      ensures result.Err? ==> exists i :: 0 <= i < |nodes| && metric(query, nodes[i].vector).Err?
    {
      var links := Links(nodes, current.index, level);
      assert ListSound(nodes, m, current.index, level);
      var improved: Option<Neighbor> := None;
      var k := 0;
      while k < |links|
        invariant 0 <= k <= |links|
        invariant improved.Some? ==> Better(improved.value, current) && Reaches(nodes, improved.value.index, level)
                                     && Measured(metric, nodes, query, improved.value)
        invariant improved.None? ==> forall i | 0 <= i < k ::
          links[i] < |nodes| && metric(query, nodes[links[i]].vector).Ok? &&
          !Better(Neighbor(metric(query, nodes[links[i]].vector).value, links[i]), current)
      {
        var next := Measure(query, links[k]);
        if next.Err? { return Err(next.state); }
        var bar := if improved.Some? then improved.value.distance else current.distance;
        if Value(next.value.distance) < Value(bar)
           || (Value(next.value.distance) == Value(bar) && links[k] < current.index) {
          improved := Some(next.value);
        }
        k := k + 1;
      }
      result := Ok(improved);
    }

    /** Moving to a better linked node until there is none.  Every move improves the node in
        (distance, index) order, so the descent ends. */
    method GreedyClosest(query: Vector, start: nat, level: nat) returns (result: Result<nat>)
      requires GraphSound(nodes, m) && Reaches(nodes, start, level)
      ensures result.Ok? ==>
        && Reaches(nodes, result.value, level)
        && metric(query, nodes[start].vector).Ok? && metric(query, nodes[result.value].vector).Ok?
        && var first := Neighbor(metric(query, nodes[start].vector).value, start);
           var last := Neighbor(metric(query, nodes[result.value].vector).value, result.value);
           LocalOptimum(metric, nodes, query, level, last) && (last == first || Better(last, first))
      ensures result.Err? ==> exists i :: 0 <= i < |nodes| && metric(query, nodes[i].vector).Err?
    {
      var measured := Measure(query, start);
      if measured.Err? { return Err(measured.state); }
      var current := measured.value;
      while true
        invariant Reaches(nodes, current.index, level) && Measured(metric, nodes, query, current)
        invariant current == measured.value || Better(current, measured.value)
        decreases |BetterNodes(metric, nodes, query, current)|
      {
        var improved := Improve(query, current, level);
        if improved.Err? { return Err(improved.state); }
        if improved.value.None? { return Ok(current.index); }
        ImprovingShrinks(metric, nodes, query, current, improved.value.value);
        current := improved.value.value;
      }
    }

    // ---- beam search ----

    /** Measuring every link of one node that no search step has measured yet. */
    method Expand(query: Vector, entry: nat, level: nat, ef: nat, candidate: nat, heaps: Heaps)
      returns (outcome: Outcome, after: Heaps)
      requires GraphSound(nodes, m) && 0 < ef && Reachable(nodes, level, entry, candidate)
      requires SeenSound(metric, nodes, query, level, entry, heaps.seen)
      requires VisitedMatches(heaps.seen, heaps.visited, |nodes|)
      requires HeapsSound(heaps.seen, heaps.best, heaps.candidates, ef)
      ensures outcome.Failed? ==> exists i :: 0 <= i < |nodes| && metric(query, nodes[i].vector).Err?
      ensures outcome.Done? ==>
        && SeenSound(metric, nodes, query, level, entry, after.seen)
        && VisitedMatches(after.seen, after.visited, |nodes|)
        && HeapsSound(after.seen, after.best, after.candidates, ef)
        && Grew(heaps, after)
        && (forall j | j in Links(nodes, candidate, level) :: j in after.visited)
    {
      after := heaps;
      var links := Links(nodes, candidate, level);
      assert ListSound(nodes, m, candidate, level);
      var k := 0;
      while k < |links|
        invariant 0 <= k <= |links|
        invariant SeenSound(metric, nodes, query, level, entry, after.seen)
        invariant VisitedMatches(after.seen, after.visited, |nodes|)
        invariant HeapsSound(after.seen, after.best, after.candidates, ef)
        invariant Grew(heaps, after)
        invariant Covered(links, k, after.visited)
      {
        var j := links[k];
        ghost var visited := after.visited;
        if j !in after.visited {
          var next := Measure(query, j);
          if next.Err? { return Failed(next.state), after; }
          SeenGrows(metric, nodes, query, level, entry, after.seen, candidate, next.value);
          VisitKeepsMatch(after.seen, after.visited, |nodes|, next.value);
          VisitGrows(heaps, after, ef, next.value);
          after := Visit(after, ef, next.value);
        }
        CoverOneMore(links, k, visited, after.visited);
        k := k + 1;
      }
      outcome := Done;
    }

    /** Best-first search of one level with a bounded heap of the `ef` best nodes seen. */
    method SearchLayer(query: Vector, entry: nat, level: nat, ef: nat)
      returns (result: Result<seq<Neighbor>>, ghost beam: Beam)
      requires GraphSound(nodes, m) && Reaches(nodes, entry, level) && 0 < ef
      ensures result.Ok? ==> BeamSound(metric, nodes, query, level, ef, beam)
      ensures result.Ok? ==> beam.result == result.value && beam.entry == entry && result.value != []
      ensures result.Ok? ==> forall n | n in result.value :: Reaches(nodes, n.index, level)
      ensures result.Err? ==> exists i :: 0 <= i < |nodes| && metric(query, nodes[i].vector).Err?
    {
      beam := Beam(entry, {}, []);
      var start := Measure(query, entry);
      if start.Err? { return Err(start.state), beam; }
      var heaps := Heaps({start.value}, {entry}, {start.value}, {start.value});
      ghost var expanded: set<nat> := {};
      SearchStarts(metric, nodes, query, level, ef, start.value, heaps);
      while heaps.candidates != {}
        invariant Underway(metric, nodes, query, level, entry, ef, heaps, expanded)
        decreases |nodes| - |heaps.visited|, |heaps.candidates|
      {
        var candidate := Closest(heaps.candidates);
        if ef <= |heaps.best| && Value(Farthest(heaps.best).distance) < Value(candidate.distance) {
          StoppingIsSafe(heaps.best, heaps.candidates);
          break;
        }
        var popped := heaps.(candidates := heaps.candidates - {candidate});
        var outcome, after := Expand(query, entry, level, ef, candidate.index, popped);
        if outcome.Failed? { return Err(outcome.state), beam; }
        SubsetIsSmaller(popped.visited, after.visited);
        SearchGoesOn(metric, nodes, query, level, entry, ef, heaps, popped, after, candidate, expanded);
        expanded := expanded + {candidate.index};
        heaps := after;
      }
      result := Ok(Ascending(heaps.best));
      AscendingIsSorted(heaps.best);
      beam := Beam(entry, heaps.seen, result.value);
      FinishedBeam(metric, nodes, query, level, ef, beam, heaps, expanded);
    }

    // ---- insertion ----

    /** Cutting one list back to the `m` nearest of its distinct links. */
    method PruneNeighbors(i: nat, level: nat) returns (outcome: Outcome)
      requires Reaches(nodes, i, level)
      requires forall j | j in Links(nodes, i, level) :: j < |nodes|
      modifies this`nodes
      ensures outcome.Failed? ==> nodes == old(nodes)
      ensures outcome.Failed? ==>
        exists j :: 0 <= j < |nodes| && metric(nodes[i].vector, nodes[j].vector).Err?
      ensures outcome.Done? ==>
        nodes == WithLinks(old(nodes), i, level,
                   Nearest(metric, old(nodes), old(nodes)[i].vector, ToSet(Links(old(nodes), i, level)), m))
      ensures outcome.Done? ==>
        && AllMeasurable(metric, old(nodes), old(nodes)[i].vector, ToSet(Links(old(nodes), i, level)))
        && KeepsNearest(metric, nodes, nodes[i].vector, Links(nodes, i, level), ToSet(Links(old(nodes), i, level)), m)
    {
      var origin := nodes[i].vector;
      var pool := ToSet(Links(nodes, i, level));
      var remaining := pool;
      var scored: set<Neighbor> := {};
      while remaining != {}
        invariant remaining <= pool && nodes == old(nodes)
        invariant scored == Scored(metric, nodes, origin, pool - remaining)
        invariant AllMeasurable(metric, nodes, origin, pool - remaining)
        decreases |remaining|
      {
        var j := Least(remaining);
        var measured := Measure(origin, j);
        if measured.Err? { return Failed(measured.state); }
        assert pool - (remaining - {j}) == (pool - remaining) + {j};
        scored := scored + {measured.value};
        remaining := remaining - {j};
      }
      assert pool - remaining == pool;
      ghost var before := nodes;
      NearestKeepsNearest(metric, before, origin, pool, m);
      nodes := WithLinks(nodes, i, level, Indexes(Take(Ascending(scored), m)));
      PushedShape(before, i, level, Nearest(metric, before, origin, pool, m));
      KeepsNearestSameShape(metric, before, nodes, origin, Links(nodes, i, level), pool, m);
      outcome := Done;
    }

    /** Each chosen node links back to the new one and is cut back to its `m` nearest. */
    method LinkBack(new_: nat, level: nat, chosen: seq<nat>) returns (outcome: Outcome)
      requires GraphSound(nodes, m) && new_ < |nodes| && Distinct(chosen) && new_ !in chosen
      requires forall j | j in chosen :: Reaches(nodes, j, level)
      modifies this`nodes
      ensures SameShape(old(nodes), nodes)
      ensures outcome.Failed? ==> exists i, j ::
                0 <= i < |nodes| && 0 <= j < |nodes| && metric(nodes[i].vector, nodes[j].vector).Err?
      ensures outcome.Done? ==> BackLinked(metric, m, old(nodes), nodes, new_, level, chosen)
      ensures outcome.Done? ==> BackLinksNearest(metric, m, old(nodes), nodes, new_, level, chosen)
    {
      ghost var before := nodes;
      var k := 0;
      while k < |chosen|
        invariant 0 <= k <= |chosen|
        invariant BackLinked(metric, m, before, nodes, new_, level, chosen[..k])
      {
        var i := chosen[k];
        ReachesSameShape(before, nodes, i, level);
        assert i !in chosen[..k];
        assert ListSound(before, m, i, level);
        ghost var mid := nodes;
        nodes := WithLinks(nodes, i, level, Links(nodes, i, level) + [new_]);
        ghost var pushed := nodes;
        PushedShape(mid, i, level, Links(mid, i, level) + [new_]);
        outcome := PruneNeighbors(i, level);
        if outcome.Failed? { return; }
        BackLinkOneMore(metric, m, before, mid, pushed, nodes, new_, level, chosen, k);
        k := k + 1;
      }
      assert chosen[..k] == chosen;
      BackLinkedIsNearest(metric, m, before, nodes, new_, level, chosen);
      outcome := Done;
    }

    /** The nodes a new node links to on one level: the `m` nearest a search finds. */
    method Select(new_: nat, level: nat, entry: nat) returns (selected: Result<seq<nat>>, ghost beam: Beam)
      requires 2 <= m <= efConstruction && GraphSound(nodes, m)
      requires Reaches(nodes, new_, level) && Reaches(nodes, entry, level) && entry != new_
      requires forall i: nat :: new_ !in Links(nodes, i, level)
      ensures selected.Err? ==> exists i, j ::
                0 <= i < |nodes| && 0 <= j < |nodes| && metric(nodes[i].vector, nodes[j].vector).Err?
      ensures selected.Ok? ==>
        && BeamSound(metric, nodes, nodes[new_].vector, level, efConstruction, beam) && beam.entry == entry
        && selected.value == Indexes(Take(beam.result, m)) && selected.value != []
        && Choosable(nodes, m, new_, level, selected.value)
        && forall n | n in Take(beam.result, m) :: Measured(metric, nodes, nodes[new_].vector, n)
    {
      var found;
      found, beam := SearchLayer(nodes[new_].vector, entry, level, efConstruction);
      if found.Err? { return Err(found.state), beam; }
      SelectionIsSound(metric, nodes, m, nodes[new_].vector, new_, level, efConstruction, beam);
      selected := Ok(Indexes(Take(Others(found.value, new_), m)));
    }

    /** Setting the new node's links, linking back, and pruning the new node's own list. */
    method LinkSelected(new_: nat, level: nat, selected: seq<nat>, ghost front: seq<Neighbor>)
      returns (outcome: Outcome)
      requires GraphSound(nodes, m) && Reaches(nodes, new_, level) && Choosable(nodes, m, new_, level, selected)
      requires selected == Indexes(front) && Sorted(front) && |front| <= m
      requires forall n | n in front :: Measured(metric, nodes, nodes[new_].vector, n)
      modifies this`nodes
      ensures SameShape(old(nodes), nodes)
      ensures outcome.Failed? ==> exists i, j ::
                0 <= i < |nodes| && 0 <= j < |nodes| && metric(nodes[i].vector, nodes[j].vector).Err?
      ensures outcome.Done? ==> GraphSound(nodes, m) && LevelLinked(metric, m, old(nodes), nodes, new_, level, selected)
      ensures outcome.Done? ==> BackLinksNearest(metric, m, old(nodes), nodes, new_, level, selected)
    {
      ghost var before := nodes;
      ChoosingKeepsGraphSound(before, m, new_, level, selected);
      ChosenArePresent(before, m, new_, level, selected);
      nodes := WithLinks(nodes, new_, level, selected);
      outcome := LinkBack(new_, level, selected);
      if outcome.Failed? { return; }
      LevelIsLinked(metric, m, before, nodes, new_, level, selected);
      RelinkedFromBefore(metric, m, before, nodes, new_, level, selected);
      ghost var linked := nodes;
      outcome := PruneNeighbors(new_, level);
      if outcome.Failed? { return; }
      PruningChosenChangesNothing(metric, m, before, linked, new_, level, front);
      LinkingKeepsGraphSound(metric, m, before, nodes, new_, level, selected);
    }

    /** Linking the new node into one level: search from `entry`, link to the `m` nearest, let
        them link back, and hand on the nearest as the entry of the next level down. */
    method ConnectLevel(new_: nat, level: nat, entry: nat) returns (outcome: Outcome, next: nat, ghost beam: Beam)
      requires 2 <= m <= efConstruction && GraphSound(nodes, m)
      requires Reaches(nodes, new_, level) && Reaches(nodes, entry, level) && entry != new_
      requires forall i: nat :: new_ !in Links(nodes, i, level)
      modifies this`nodes
      ensures SameShape(old(nodes), nodes)
      ensures outcome.Failed? ==> exists i, j ::
                0 <= i < |nodes| && 0 <= j < |nodes| && metric(nodes[i].vector, nodes[j].vector).Err?
      ensures outcome.Done? ==>
        && GraphSound(nodes, m)
        && BeamSound(metric, old(nodes), old(nodes)[new_].vector, level, efConstruction, beam) && beam.entry == entry
        && var chosen := Indexes(Take(beam.result, m));
           && Choosable(old(nodes), m, new_, level, chosen) && chosen != [] && next == chosen[0]
           && LevelLinked(metric, m, old(nodes), nodes, new_, level, chosen)
      ensures outcome.Done? ==>
        && LevelNearest(metric, m, old(nodes), nodes, new_, level, beam)
        && IsNearestFound(metric, nodes, nodes[new_].vector, beam, next)
    {
      next := entry;
      ghost var before := nodes;
      var selection;
      selection, beam := Select(new_, level, entry);
      if selection.Err? { return Failed(selection.state), next, beam; }
      outcome := LinkSelected(new_, level, selection.value, Take(beam.result, m));
      if outcome.Failed? { return; }
      BeamIsMeasured(metric, before, nodes, new_, level, efConstruction, beam);
      LinkedToNearest(metric, m, before, nodes, new_, level, beam);
      if Links(nodes, new_, level) != [] {
        next := Links(nodes, new_, level)[0];
      }
    }

    /** The node the linking starts from: greedy descent through the levels above the new
        node's own. */
    method Descend(query: Vector, start: nat, top: nat, newLevel: nat) returns (result: Result<nat>)
      requires GraphSound(nodes, m) && Reaches(nodes, start, top)
      ensures result.Ok? && top <= newLevel ==> result.value == start
      ensures result.Ok? && newLevel < top ==> GreedyEnd(metric, nodes, query, newLevel + 1, result.value)
      ensures result.Err? ==> exists i :: 0 <= i < |nodes| && metric(query, nodes[i].vector).Err?
    {
      var entry := start;
      var level := top;
      while newLevel < level
        invariant top <= newLevel ==> level == top && entry == start
        invariant newLevel < top ==> newLevel <= level <= top && Reaches(nodes, entry, level)
        invariant newLevel < top && level < top ==> GreedyEnd(metric, nodes, query, level + 1, entry)
      {
        var closest := GreedyClosest(query, entry, level);
        if closest.Err? { return closest; }
        entry := closest.value;
        level := level - 1;
      }
      result := Ok(entry);
    }

    /** One turn of the linking: the level `level`, entered at `entry`. */
    method ConnectNext(new_: nat, level: nat, entry: nat, ghost connectMax: nat, ghost first: nat,
                       ghost before: seq<Node>, ghost base: seq<Node>, ghost beams: map<nat, Beam>)
      returns (outcome: Outcome, next: nat, ghost more: map<nat, Beam>)
      requires 2 <= m <= efConstruction && GraphSound(before, m) && new_ == |before| && level <= connectMax
      requires |base| == |before| + 1 && Extends(before, base) && Reaches(base, |before|, connectMax)
      requires SameAllLinks(before, base)
      requires Progress(metric, m, efConstruction, before, base, nodes, level, connectMax, first, entry, beams)
      modifies this`nodes
      ensures outcome.Failed? ==> SameShape(base, nodes) && exists i, j ::
                0 <= i < |nodes| && 0 <= j < |nodes| && metric(nodes[i].vector, nodes[j].vector).Err?
      ensures outcome.Done? ==>
                Progress(metric, m, efConstruction, before, base, nodes, level - 1, connectMax, first, next, more)
    {
      ghost var mid := nodes;
      ReadyToConnect(metric, m, efConstruction, before, base, mid, level, connectMax, first, beams, entry);
      ghost var beam;
      outcome, next, beam := ConnectLevel(new_, level, entry);
      more := beams[level := beam];
      if outcome.Failed? {
        SameShapeChain(base, mid, nodes);
        return;
      }
      ProgressStep(metric, m, efConstruction, before, base, mid, nodes, level, connectMax, first, entry, beams, beam,
                   next);
    }

    /** Linking the newest node into each level in turn, from the highest it shares down. */
    method ConnectAll(connectMax: nat, first: nat, ghost before: seq<Node>)
      returns (outcome: Outcome, ghost beams: map<nat, Beam>)
      requires 2 <= m <= efConstruction && GraphSound(before, m) && GraphSound(nodes, m)
      requires |nodes| == |before| + 1 && Extends(before, nodes) && Reaches(nodes, |before|, connectMax)
      requires SameAllLinks(before, nodes)
      requires Reaches(before, first, connectMax)
      modifies this`nodes
      ensures SameShape(old(nodes), nodes)
      ensures outcome.Failed? ==> exists i, j ::
                0 <= i < |nodes| && 0 <= j < |nodes| && metric(nodes[i].vector, nodes[j].vector).Err?
      ensures outcome.Done? ==>
        GraphSound(nodes, m) && InsertedInto(metric, m, efConstruction, before, nodes, connectMax, first, beams)
    {
      ghost var base := nodes;
      beams := map[];
      var newIndex := |nodes| - 1;
      var entry: nat := first;
      var level: int := connectMax;
      while 0 <= level
        invariant level <= connectMax
        invariant Progress(metric, m, efConstruction, before, base, nodes, level, connectMax, first, entry, beams)
      {
        var connected, next, more := ConnectNext(newIndex, level, entry, connectMax, first, before, base, beams);
        if connected.Failed? { return connected, beams; }
        beams := more;
        entry := next;
        level := level - 1;
      }
      AllLevelsInserted(metric, m, efConstruction, before, base, nodes, level, connectMax, first, beams);
      outcome := Done;
    }

    method InsertFirst(rowId: U64, vector: Vector)
      requires Valid() && entryPoint.None?
      modifies this`nodes, this`entryPoint, this`maxLevel
      ensures Valid() && Appended(old(nodes), nodes, rowId, vector, levelOf(rowId))
    {
      var newLevel := levelOf(rowId);
      AddingBareNode(nodes, m, rowId, vector, newLevel);
      nodes := nodes + [Bare(rowId, vector, newLevel)];
      entryPoint, maxLevel := Some(0), newLevel;
    }

    /** Adding a node that is not linked yet and linking it level by level. */
    method AppendAndConnect(rowId: U64, vector: Vector, newLevel: nat, connectMax: nat, first: nat)
      returns (outcome: Outcome, ghost beams: map<nat, Beam>)
      requires 2 <= m <= efConstruction && GraphSound(nodes, m) && connectMax <= newLevel
               && Reaches(nodes, first, connectMax)
      modifies this`nodes
      ensures Appended(old(nodes), nodes, rowId, vector, newLevel)
      ensures outcome.Failed? ==> exists i, j ::
                0 <= i < |nodes| && 0 <= j < |nodes| && metric(nodes[i].vector, nodes[j].vector).Err?
      ensures outcome.Done? ==>
        GraphSound(nodes, m) && InsertedInto(metric, m, efConstruction, old(nodes), nodes, connectMax, first, beams)
    {
      ghost var before := nodes;
      AddingBareNode(nodes, m, rowId, vector, newLevel);
      nodes := nodes + [Bare(rowId, vector, newLevel)];
      ghost var base := nodes;
      outcome, beams := ConnectAll(connectMax, first, before);
      AppendedStays(before, base, nodes, rowId, vector, newLevel);
    }

    method Insert(rowId: U64, vector: Vector)
      returns (outcome: Outcome, ghost beams: map<nat, Beam>, ghost first: nat)
      requires Valid()
      modifies this`nodes, this`entryPoint, this`maxLevel
      ensures outcome.Done? ==> Valid()
      ensures outcome.Failed? ==> !Total(metric, Vectors(old(nodes)) + {vector})
      ensures outcome.Done? ==> Appended(old(nodes), nodes, rowId, vector, levelOf(rowId))
      ensures outcome.Done? && old(entryPoint).Some? ==>
        var connectMax := if levelOf(rowId) <= old(maxLevel) then levelOf(rowId) else old(maxLevel);
        && InsertedInto(metric, m, efConstruction, old(nodes), nodes, connectMax, first, beams)
        && InsertedNearest(metric, m, old(nodes), nodes, connectMax, beams)
        && (old(maxLevel) <= levelOf(rowId) ==> first == old(entryPoint).value)
        && (levelOf(rowId) < old(maxLevel) ==> GreedyEnd(metric, old(nodes), vector, levelOf(rowId) + 1, first))
    {
      beams, first := map[], 0;
      if entryPoint.None? {
        InsertFirst(rowId, vector);
        return Done, beams, first;
      }
      ghost var before := nodes;
      var newLevel, newIndex := levelOf(rowId), |nodes|;
      var connectMax := if newLevel <= maxLevel then newLevel else maxLevel;
      var start := Descend(vector, entryPoint.value, maxLevel, newLevel);
      if start.Err? {
        DescendRefused(metric, nodes, vector);
        return Failed(start.state), beams, first;
      }
      first := start.value;
      outcome, beams := AppendAndConnect(rowId, vector, newLevel, connectMax, start.value);
      if outcome.Failed? {
        LinkingRefused(metric, before, nodes, vector);
        return;
      }
      InsertedIsNearest(metric, m, efConstruction, before, nodes, connectMax, first, beams);
      if maxLevel < newLevel {
        entryPoint, maxLevel := Some(newIndex), newLevel;
      }
      EntryStaysSound(before, nodes, nodes, old(entryPoint), old(maxLevel), newLevel);
    }

    // ---- the check after a build ----

    method CheckList(i: nat, level: nat) returns (sound: bool)
      ensures sound <==> ListSound(nodes, m, i, level)
    {
      var links := Links(nodes, i, level);
      if m < |links| { return false; }
      var unique: set<nat> := {};
      var k := 0;
      while k < |links|
        invariant 0 <= k <= |links|
        invariant Distinct(links[..k]) && unique == ToSet(links[..k])
        invariant forall a | 0 <= a < k :: LinkSound(nodes, i, level, links[a])
      {
        if |nodes| <= links[k] || links[k] == i || |nodes[links[k]].neighbors| <= level || links[k] in unique {
          if links[k] in unique {
            var a :| 0 <= a < k && links[a] == links[k];
          }
          return false;
        }
        assert links[..k + 1] == links[..k] + [links[k]];
        unique := unique + {links[k]};
        k := k + 1;
      }
      assert links[..k] == links;
      sound := true;
    }

    /** Exactly what the check at the end of a build tests. */
    ghost predicate Checked()
      reads this
    {
      && (entryPoint.None? ==> nodes == [])
      && (entryPoint.Some? ==> entryPoint.value < |nodes| && |nodes[entryPoint.value].neighbors| == maxLevel + 1)
      && forall i: nat | i < |nodes| :: NodeChecked(i)
    }

    ghost predicate NodeChecked(i: nat)
      requires i < |nodes|
      reads this
    {
      && (forall j: nat | j < i :: nodes[j].rowId != nodes[i].rowId)
      && accept(nodes[i].vector).Done?
      && forall level: nat | level < |nodes[i].neighbors| :: ListSound(nodes, m, i, level)
    }

    method CheckNode(i: nat, rows: set<U64>) returns (outcome: Outcome)
      requires i < |nodes| && forall row :: row in rows <==> exists j: nat :: j < i && nodes[j].rowId == row
      ensures outcome.Done? <==> NodeChecked(i)
    {
      if nodes[i].rowId in rows { return Failed("XX000"); }
      outcome := accept(nodes[i].vector);
      if outcome.Failed? { return; }
      var level := 0;
      while level < |nodes[i].neighbors|
        invariant 0 <= level <= |nodes[i].neighbors|
        invariant forall l: nat | l < level :: ListSound(nodes, m, i, l)
      {
        var sound := CheckList(i, level);
        if !sound { return Failed("XX000"); }
        level := level + 1;
      }
      outcome := Done;
    }

    method ValidateGraph() returns (outcome: Outcome)
      ensures outcome.Done? <==> Checked()
    {
      if entryPoint.None? {
        return if nodes == [] then Done else Failed("XX000");
      }
      if |nodes| <= entryPoint.value || |nodes[entryPoint.value].neighbors| != maxLevel + 1 { return Failed("XX000"); }
      var rows: set<U64> := {};
      var i := 0;
      while i < |nodes|
        invariant 0 <= i <= |nodes|
        invariant forall row :: row in rows <==> exists j: nat :: j < i && nodes[j].rowId == row
        invariant forall j: nat | j < i :: NodeChecked(j)
      {
        outcome := CheckNode(i, rows);
        if outcome.Failed? { return; }
        rows := rows + {nodes[i].rowId};
        i := i + 1;
      }
      outcome := Done;
    }
  }

  // ---- building an index ----

  datatype Record = Record(rowId: U64, vector: Vector)

  datatype Config = Config(dimensions: nat, m: nat, efConstruction: nat, efSearch: nat)

  datatype Limits = Limits(maxDocuments: nat, maxDimensions: nat, maxEfSearch: nat)

  predicate ConfigSound(config: Config, limits: Limits) {
    && 0 < limits.maxDocuments && 0 < limits.maxDimensions && 0 < limits.maxEfSearch
    && 0 < config.dimensions <= limits.maxDimensions
    && 2 <= config.m <= 64 && config.m <= config.efConstruction <= 4096
    && 0 < config.efSearch <= limits.maxEfSearch
  }

  ghost predicate DistinctRows(records: seq<Record>) {
    forall i, j | 0 <= i < j < |records| :: records[i].rowId != records[j].rowId
  }

  ghost predicate InRowOrder(records: seq<Record>) {
    forall i, j | 0 <= i < j < |records| :: records[i].rowId <= records[j].rowId
  }

  function InsertByRow(record: Record, sorted: seq<Record>): seq<Record> {
    if sorted == [] || record.rowId <= sorted[0].rowId then [record] + sorted
    else [sorted[0]] + InsertByRow(record, sorted[1..])
  }

  /** The records in row order; equal rows keep their order. */
  function SortByRow(records: seq<Record>): seq<Record> {
    if records == [] then [] else InsertByRow(records[0], SortByRow(records[1..]))
  }

  lemma OrderCons(first: Record, rest: seq<Record>)
    requires InRowOrder(rest) && forall r | r in multiset(rest) :: first.rowId <= r.rowId
    ensures InRowOrder([first] + rest)
  {
    var all := [first] + rest;
    forall i, j | 0 <= i < j < |all| ensures all[i].rowId <= all[j].rowId {
      assert rest[j - 1] in multiset(rest);
      if 0 < i {
        assert rest[i - 1].rowId <= rest[j - 1].rowId;
      }
    }
  }

  lemma HeadIsLeast(sorted: seq<Record>)
    requires InRowOrder(sorted) && sorted != []
    ensures forall r | r in multiset(sorted) :: sorted[0].rowId <= r.rowId
    ensures InRowOrder(sorted[1..]) && multiset(sorted) == multiset{sorted[0]} + multiset(sorted[1..])
  {
    assert sorted == [sorted[0]] + sorted[1..];
    forall r | r in multiset(sorted) ensures sorted[0].rowId <= r.rowId {
      var k :| 0 <= k < |sorted| && sorted[k] == r;
    }
  }

  lemma MultisetCons(first: Record, rest: seq<Record>)
    ensures multiset([first] + rest) == multiset{first} + multiset(rest)
  {
  }

  lemma InsertBehindHead(record: Record, sorted: seq<Record>, rest: seq<Record>)
    requires sorted != [] && InRowOrder(sorted) && sorted[0].rowId <= record.rowId
    requires InRowOrder(rest) && multiset(rest) == multiset(sorted[1..]) + multiset{record} && |rest| == |sorted|
    ensures InRowOrder([sorted[0]] + rest) && multiset([sorted[0]] + rest) == multiset(sorted) + multiset{record}
  {
    HeadIsLeast(sorted);
    OrderCons(sorted[0], rest);
    MultisetCons(sorted[0], rest);
  }

  lemma InsertInFront(record: Record, sorted: seq<Record>)
    requires InRowOrder(sorted) && (sorted != [] ==> record.rowId <= sorted[0].rowId)
    ensures InRowOrder([record] + sorted) && multiset([record] + sorted) == multiset(sorted) + multiset{record}
  {
    if sorted != [] {
      HeadIsLeast(sorted);
    }
    OrderCons(record, sorted);
    MultisetCons(record, sorted);
  }

  lemma {:induction false} InsertByRowKeepsOrder(record: Record, sorted: seq<Record>)
    requires InRowOrder(sorted)
    ensures InRowOrder(InsertByRow(record, sorted))
    ensures multiset(InsertByRow(record, sorted)) == multiset(sorted) + multiset{record}
    ensures |InsertByRow(record, sorted)| == |sorted| + 1
  {
    if sorted == [] || record.rowId <= sorted[0].rowId {
      InsertInFront(record, sorted);
    } else {
      var tail := sorted[1..];
      InsertByRowKeepsOrder(record, tail);
      InsertBehindHead(record, sorted, InsertByRow(record, tail));
    }
  }

  lemma {:induction false} SortByRowSorts(records: seq<Record>)
    ensures InRowOrder(SortByRow(records)) && multiset(SortByRow(records)) == multiset(records)
    ensures |SortByRow(records)| == |records|
  {
    if records != [] {
      SortByRowSorts(records[1..]);
      InsertByRowKeepsOrder(records[0], SortByRow(records[1..]));
      assert records == [records[0]] + records[1..];
    }
  }

  ghost predicate NoneHasRow(records: seq<Record>, rowId: U64) {
    forall r | r in multiset(records) :: r.rowId != rowId
  }

  lemma DistinctCons(first: Record, rest: seq<Record>)
    ensures DistinctRows([first] + rest) <==> DistinctRows(rest) && NoneHasRow(rest, first.rowId)
  {
    var all := [first] + rest;
    forall k | 0 <= k < |rest| ensures all[k + 1] == rest[k] && rest[k] in multiset(rest) {
    }
    if DistinctRows(all) {
      forall i, j | 0 <= i < j < |rest| ensures rest[i].rowId != rest[j].rowId {
        assert all[i + 1].rowId != all[j + 1].rowId;
      }
      forall r | r in multiset(rest) ensures r.rowId != first.rowId {
        var k :| 0 <= k < |rest| && rest[k] == r;
        assert all[0].rowId != all[k + 1].rowId;
      }
    }
  }

  lemma {:induction false} InsertKeepsDistinctness(record: Record, sorted: seq<Record>)
    requires InRowOrder(sorted)
    ensures DistinctRows(InsertByRow(record, sorted)) <==> DistinctRows(sorted) && NoneHasRow(sorted, record.rowId)
  {
    if sorted == [] || record.rowId <= sorted[0].rowId {
      DistinctCons(record, sorted);
    } else {
      var tail := sorted[1..];
      assert sorted == [sorted[0]] + tail;
      InsertKeepsDistinctness(record, tail);
      InsertByRowKeepsOrder(record, tail);
      DistinctCons(sorted[0], InsertByRow(record, tail));
      DistinctCons(sorted[0], tail);
      assert NoneHasRow(InsertByRow(record, tail), sorted[0].rowId) <==> NoneHasRow(tail, sorted[0].rowId) by {
        assert record in multiset(tail) + multiset{record};
        assert forall r :: r in multiset(tail) ==> r in multiset(InsertByRow(record, tail));
      }
    }
  }

  /** Sorting neither makes nor hides a duplicate row. */
  lemma {:induction false} SortKeepsDistinctness(records: seq<Record>)
    ensures DistinctRows(SortByRow(records)) <==> DistinctRows(records)
  {
    if records != [] {
      var rest := records[1..];
      assert records == [records[0]] + rest;
      SortByRowSorts(rest);
      SortKeepsDistinctness(rest);
      InsertKeepsDistinctness(records[0], SortByRow(rest));
      DistinctCons(records[0], rest);
    }
  }

  function ValidateVector(config: Config, finite: Vector -> Outcome, vector: Vector): Outcome {
    if |vector| != config.dimensions then Failed("22023") else finite(vector)
  }

  ghost predicate Buildable(config: Config, limits: Limits, finite: Vector -> Outcome, records: seq<Record>) {
    && ConfigSound(config, limits) && |records| <= limits.maxDocuments && DistinctRows(records)
    && AllAccepted((v: Vector) => ValidateVector(config, finite, v), records)
  }

  /** What a build demands of its settings and its records. */
  lemma BuildableIff(config: Config, limits: Limits, finite: Vector -> Outcome, records: seq<Record>)
    ensures Buildable(config, limits, finite, records) <==>
      && limits.maxDocuments != 0 && limits.maxDimensions != 0 && limits.maxEfSearch != 0
      && config.dimensions != 0 && config.dimensions <= limits.maxDimensions
      && 1 < config.m < 65
      && config.efConstruction < 4097 && config.m <= config.efConstruction
      && config.efSearch != 0 && config.efSearch <= limits.maxEfSearch
      && |records| <= limits.maxDocuments
      && (forall r | r in records :: |r.vector| == config.dimensions && finite(r.vector).Done?)
      && forall i, j | 0 <= i < |records| && 0 <= j < |records| && i != j :: records[i].rowId != records[j].rowId
  {
    var accept := (v: Vector) => ValidateVector(config, finite, v);
    forall i | 0 <= i < |records| ensures records[i] in records {
    }
    if Buildable(config, limits, finite, records) {
      forall r | r in records ensures |r.vector| == config.dimensions && finite(r.vector).Done? {
        var i :| 0 <= i < |records| && records[i] == r;
        assert accept(records[i].vector).Done?;
      }
      forall i, j | 0 <= i < |records| && 0 <= j < |records| && i != j ensures records[i].rowId != records[j].rowId {
        if j < i { assert records[j].rowId != records[i].rowId; }
      }
    }
  }

  function RecordVectors(records: seq<Record>): set<Vector> { set r | r in multiset(records) :: r.vector }

  ghost predicate HoldsRecords(nodes: seq<Node>, records: seq<Record>) {
    && |nodes| == |records|
    && forall i | 0 <= i < |nodes| :: nodes[i].rowId == records[i].rowId && nodes[i].vector == records[i].vector
  }

  ghost predicate AllAccepted(accept: Vector -> Outcome, records: seq<Record>) {
    forall i | 0 <= i < |records| :: accept(records[i].vector).Done?
  }

  lemma InsertRefused(metric: Metric, sorted: seq<Record>, k: nat, nodes: seq<Node>)
    requires k < |sorted| && HoldsRecords(nodes, sorted[..k])
    requires !Total(metric, Vectors(nodes) + {sorted[k].vector})
    ensures !Total(metric, RecordVectors(sorted))
  {
    forall v | v in Vectors(nodes) + {sorted[k].vector} ensures v in RecordVectors(sorted) {
      if v == sorted[k].vector {
        assert sorted[k] in multiset(sorted);
      } else {
        var i :| 0 <= i < |nodes| && nodes[i].vector == v;
        assert sorted[i] in multiset(sorted);
      }
    }
  }

  lemma OneMoreRecord(before: seq<Node>, after: seq<Node>, sorted: seq<Record>, k: nat, level: nat)
    requires k < |sorted| && HoldsRecords(before, sorted[..k])
    requires Appended(before, after, sorted[k].rowId, sorted[k].vector, level)
    ensures HoldsRecords(after, sorted[..k + 1])
  {
  }

  lemma OneMoreDistinct(sorted: seq<Record>, k: nat)
    requires k < |sorted| && DistinctRows(sorted[..k]) && forall j | 0 <= j < k :: sorted[j].rowId != sorted[k].rowId
    ensures DistinctRows(sorted[..k + 1])
  {
  }

  /** The loop of a build: each record in turn, up to the first duplicate row, unacceptable
      vector or refused distance. */
  method InsertAll(index: HnswIndex, sorted: seq<Record>) returns (outcome: Outcome)
    requires index.Valid() && index.nodes == []
    modifies index
    ensures outcome.Done? ==> index.Valid() && HoldsRecords(index.nodes, sorted)
    ensures outcome.Done? ==> DistinctRows(sorted) && AllAccepted(index.accept, sorted)
    ensures outcome.Failed? ==>
      !DistinctRows(sorted) || !AllAccepted(index.accept, sorted) || !Total(index.metric, RecordVectors(sorted))
  {
    var seen: set<U64> := {};
    var k := 0;
    while k < |sorted|
      invariant 0 <= k <= |sorted|
      invariant index.Valid() && HoldsRecords(index.nodes, sorted[..k])
      invariant forall row :: row in seen <==> exists j: nat :: j < k && sorted[j].rowId == row
      invariant DistinctRows(sorted[..k]) && AllAccepted(index.accept, sorted[..k])
    {
      var record := sorted[k];
      if record.rowId in seen { return Failed("22023"); }
      seen := seen + {record.rowId};
      outcome := index.accept(record.vector);
      if outcome.Failed? { return; }
      OneMoreDistinct(sorted, k);
      ghost var before := index.nodes;
      ghost var beams, first;
      outcome, beams, first := index.Insert(record.rowId, record.vector);
      if outcome.Failed? {
        InsertRefused(index.metric, sorted, k, before);
        return;
      }
      OneMoreRecord(before, index.nodes, sorted, k, index.levelOf(record.rowId));
      k := k + 1;
    }
    assert sorted[..k] == sorted;
    outcome := Done;
  }

  /** The final check of a build cannot fail. */
  lemma BuiltGraphIsChecked(index: HnswIndex, sorted: seq<Record>)
    requires index.Valid() && HoldsRecords(index.nodes, sorted)
    requires DistinctRows(sorted) && AllAccepted(index.accept, sorted)
    ensures index.Checked()
  {
  }

  lemma SortingKeepsMembers(records: seq<Record>, r: Record)
    ensures r in SortByRow(records) <==> r in records
  {
    SortByRowSorts(records);
    assert r in multiset(records) <==> r in records;
    assert r in multiset(SortByRow(records)) <==> r in SortByRow(records);
  }

  lemma SortingKeepsAccepted(accept: Vector -> Outcome, records: seq<Record>)
    ensures AllAccepted(accept, SortByRow(records)) <==> AllAccepted(accept, records)
  {
    var sorted := SortByRow(records);
    forall i | 0 <= i < |sorted| ensures sorted[i] in records {
      SortingKeepsMembers(records, sorted[i]);
    }
    forall i | 0 <= i < |records| ensures records[i] in sorted {
      SortingKeepsMembers(records, records[i]);
    }
  }

  lemma SortingKeepsBuildable(accept: Vector -> Outcome, records: seq<Record>)
    ensures DistinctRows(SortByRow(records)) <==> DistinctRows(records)
    ensures AllAccepted(accept, SortByRow(records)) <==> AllAccepted(accept, records)
    ensures RecordVectors(SortByRow(records)) == RecordVectors(records)
  {
    SortByRowSorts(records);
    SortKeepsDistinctness(records);
    SortingKeepsAccepted(accept, records);
  }

  /** Building an index.  It succeeds only on sound settings, few enough records, distinct rows
      and acceptable vectors, and then always does if every distance is finite; the check at
      the end never fails. */
  method Build(config: Config, limits: Limits, metric: Metric, levelOf: U64 -> nat, finite: Vector -> Outcome,
               records: seq<Record>)
    returns (outcome: Outcome, index: HnswIndex?)
    ensures outcome.Done? ==> Buildable(config, limits, finite, records)
    ensures Buildable(config, limits, finite, records) && Total(metric, RecordVectors(records)) ==> outcome.Done?
    ensures !ConfigSound(config, limits) ==> outcome == Failed("22023")
    ensures ConfigSound(config, limits) && limits.maxDocuments < |records| ==> outcome == Failed("54000")
    ensures outcome.Done? ==>
      && index != null && fresh(index) && index.m == config.m
      && index.Valid() && index.Checked() && HoldsRecords(index.nodes, SortByRow(records))
  {
    index := null;
    if !ConfigSound(config, limits) { return Failed("22023"), index; }
    if limits.maxDocuments < |records| { return Failed("54000"), index; }
    var accept := (v: Vector) => ValidateVector(config, finite, v);
    var sorted := SortByRow(records);
    SortingKeepsBuildable(accept, records);
    var built := new HnswIndex(config.m, config.efConstruction, metric, levelOf, accept);
    outcome := InsertAll(built, sorted);
    if outcome.Failed? { return; }
    outcome := built.ValidateGraph();
    BuiltGraphIsChecked(built, sorted);
    assert outcome.Done?;
    index := built;
  }
}

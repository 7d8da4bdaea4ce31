/** How the graph changes when a node is linked in: what one level's links become, why the
    graph stays sound, and why a level can be described on the graph before the insertion. */
module HnswGraph {
  import opened Base
  import opened Hnsw

  function ToSet(s: seq<nat>): set<nat> { set j | j in s }

  function WithLinks(nodes: seq<Node>, i: nat, level: nat, links: seq<nat>): seq<Node>
    requires Reaches(nodes, i, level)
  {
    nodes[i := nodes[i].(neighbors := nodes[i].neighbors[level := links])]
  }

  /** Rows, vectors and levels of the nodes are the same. */
  ghost predicate SameShape(a: seq<Node>, b: seq<Node>) {
    && |a| == |b|
    && forall i | 0 <= i < |a| ::
         a[i].rowId == b[i].rowId && a[i].vector == b[i].vector && |a[i].neighbors| == |b[i].neighbors|
  }

  ghost predicate SameLinks(a: seq<Node>, b: seq<Node>, level: nat) {
    forall i: nat :: Links(a, i, level) == Links(b, i, level)
  }

  ghost predicate SameAllLinks(a: seq<Node>, b: seq<Node>) {
    forall level: nat :: SameLinks(a, b, level)
  }

  ghost predicate SameElsewhere(a: seq<Node>, b: seq<Node>, level: nat) {
    forall other: nat | other != level :: SameLinks(a, b, other)
  }

  lemma NearestSameShape(metric: Metric, a: seq<Node>, b: seq<Node>, origin: Vector, pool: set<nat>, m: nat)
    requires SameShape(a, b)
    ensures Nearest(metric, a, origin, pool, m) == Nearest(metric, b, origin, pool, m)
  {
    assert Scored(metric, a, origin, pool) == Scored(metric, b, origin, pool) by {
      forall j | j in pool ensures DistanceOr(metric, a, origin, j) == DistanceOr(metric, b, origin, j) {
      }
    }
  }

  // ---- one level linked ----

  /** The links of `i` once a new node was offered to it and the list cut back to `m`. */
  function Relinked(metric: Metric, nodes: seq<Node>, i: nat, old_: seq<nat>, new_: nat, m: nat): seq<nat>
    requires i < |nodes|
  {
    Nearest(metric, nodes, nodes[i].vector, ToSet(old_ + [new_]), m)
  }

  ghost predicate AllMeasurable(metric: Metric, nodes: seq<Node>, origin: Vector, pool: set<nat>) {
    forall j | j in pool :: j < |nodes| && metric(origin, nodes[j].vector).Ok?
  }

  /** The links of `i` are `old_` and the new one, all of them measured, cut back to the `m` nearest. */
  ghost predicate RelinkedTo(metric: Metric, nodes: seq<Node>, i: nat, old_: seq<nat>, new_: nat, m: nat, level: nat) {
    && i < |nodes| && Links(nodes, i, level) == Relinked(metric, nodes, i, old_, new_, m)
    && AllMeasurable(metric, nodes, nodes[i].vector, ToSet(old_ + [new_]))
  }

  lemma RelinkedSameShape(metric: Metric, a: seq<Node>, b: seq<Node>, i: nat, old_: seq<nat>, new_: nat, m: nat,
                          level: nat)
    requires SameShape(a, b) && Links(a, i, level) == Links(b, i, level)
    requires RelinkedTo(metric, a, i, old_, new_, m, level)
    ensures RelinkedTo(metric, b, i, old_, new_, m, level)
  {
    NearestSameShape(metric, a, b, a[i].vector, ToSet(old_ + [new_]), m);
  }

  ghost predicate BackLinked(metric: Metric, m: nat, before: seq<Node>, after: seq<Node>, new_: nat, level: nat,
                             done: seq<nat>)
  {
    && SameShape(before, after) && SameElsewhere(before, after, level)
    && forall i: nat | i < |after| ::
         if i in done then RelinkedTo(metric, after, i, Links(before, i, level), new_, m, level)
         else Links(after, i, level) == Links(before, i, level)
  }

  /** The new node links to `chosen`; each of those links back, keeping its `m` nearest. */
  ghost predicate LevelLinked(metric: Metric, m: nat, before: seq<Node>, after: seq<Node>, new_: nat, level: nat,
                              chosen: seq<nat>)
  {
    && SameShape(before, after) && SameElsewhere(before, after, level)
    && Links(after, new_, level) == chosen
    && forall i: nat | i < |after| && i != new_ ::
         if i in chosen then RelinkedTo(metric, after, i, Links(before, i, level), new_, m, level)
         else Links(after, i, level) == Links(before, i, level)
  }

  ghost predicate Choosable(nodes: seq<Node>, m: nat, new_: nat, level: nat, chosen: seq<nat>) {
    |chosen| <= m && Distinct(chosen) && forall j | j in chosen :: LinkSound(nodes, new_, level, j)
  }

  lemma ReachesSameShape(a: seq<Node>, b: seq<Node>, i: nat, level: nat)
    requires SameShape(a, b)
    ensures Reaches(a, i, level) == Reaches(b, i, level)
  {
  }

  lemma ListStaysSound(a: seq<Node>, b: seq<Node>, m: nat, i: nat, level: nat)
    requires SameShape(a, b) && ListSound(a, m, i, level) && Links(a, i, level) == Links(b, i, level)
    ensures ListSound(b, m, i, level)
  {
  }

  lemma RelinkedListSound(metric: Metric, nodes: seq<Node>, m: nat, i: nat, level: nat, old_: seq<nat>, new_: nat)
    requires Reaches(nodes, i, level) && i != new_ && Reaches(nodes, new_, level)
    requires forall j | j in old_ :: LinkSound(nodes, i, level, j)
    requires Links(nodes, i, level) == Relinked(metric, nodes, i, old_, new_, m)
    ensures ListSound(nodes, m, i, level)
  {
    NearestIsSound(metric, nodes, nodes[i].vector, ToSet(old_ + [new_]), m);
    var links := Links(nodes, i, level);
    forall k | 0 <= k < |links| ensures LinkSound(nodes, i, level, links[k]) {
      assert links[k] in ToSet(old_ + [new_]);
    }
  }

  /** Linking a node into one level keeps the whole graph sound. */
  lemma LinkingKeepsGraphSound(metric: Metric, m: nat, before: seq<Node>, after: seq<Node>, new_: nat, level: nat,
                               chosen: seq<nat>)
    requires GraphSound(before, m) && Reaches(before, new_, level)
    requires Choosable(before, m, new_, level, chosen)
    requires LevelLinked(metric, m, before, after, new_, level, chosen)
    ensures GraphSound(after, m)
  {
    forall i | 0 <= i < |after| ensures after[i].neighbors != [] {
      assert |after[i].neighbors| == |before[i].neighbors|;
    }
    forall i: nat, other: nat ensures ListSound(after, m, i, other) {
      assert ListSound(before, m, i, other);
      if other != level {
        assert SameLinks(before, after, other);
        ListStaysSound(before, after, m, i, other);
      } else if i == new_ {
        forall k | 0 <= k < |chosen| ensures LinkSound(after, i, level, chosen[k]) {
          assert chosen[k] in chosen;
        }
      } else if i in chosen && i < |after| {
        assert LinkSound(before, new_, level, i);
        RelinkedListSound(metric, after, m, i, level, Links(before, i, level), new_);
      } else {
        ListStaysSound(before, after, m, i, other);
      }
    }
  }

  // ---- the graph with a node added but not linked yet ----

  function Bare(rowId: U64, vector: Vector, level: nat): Node {
    Node(rowId, vector, seq(level + 1, _ => []))
  }

  lemma AddingBareNode(nodes: seq<Node>, m: nat, rowId: U64, vector: Vector, level: nat)
    requires GraphSound(nodes, m)
    ensures var grown := nodes + [Bare(rowId, vector, level)];
            && GraphSound(grown, m)
            && SameAllLinks(nodes, grown)
            && (forall i: nat, other: nat :: |nodes| !in Links(grown, i, other))
  {
    var grown := nodes + [Bare(rowId, vector, level)];
    forall i: nat, other: nat
      ensures Links(nodes, i, other) == Links(grown, i, other) && ListSound(grown, m, i, other)
      ensures |nodes| !in Links(grown, i, other)
    {
      assert ListSound(nodes, m, i, other);
    }
  }

  // ---- describing a search on the graph before the insertion ----

  lemma {:induction false} SameWalk(a: seq<Node>, b: seq<Node>, level: nat, path: seq<nat>)
    requires SameLinks(a, b, level)
    ensures Walk(a, level, path) == Walk(b, level, path)
  {
    forall k | 0 < k < |path|
      ensures path[k] in Links(a, path[k - 1], level) <==> path[k] in Links(b, path[k - 1], level)
    {
    }
  }

  lemma SameReach(a: seq<Node>, b: seq<Node>, level: nat, from: nat, to: nat)
    requires SameLinks(a, b, level) && Reachable(b, level, from, to)
    ensures Reachable(a, level, from, to)
  {
    var path :| Walk(b, level, path) && path[0] == from && path[|path| - 1] == to;
    SameWalk(a, b, level, path);
    assert Walk(a, level, path) && path[0] == from && path[|path| - 1] == to;
  }

  lemma ReachableIsPresent(nodes: seq<Node>, m: nat, level: nat, from: nat, to: nat)
    requires GraphSound(nodes, m) && Reachable(nodes, level, from, to) && Reaches(nodes, from, level)
    ensures Reaches(nodes, to, level)
  {
    var path :| Walk(nodes, level, path) && path[0] == from && path[|path| - 1] == to;
    if |path| > 1 {
      var last := path[|path| - 2];
      assert to in Links(nodes, last, level);
      assert ListSound(nodes, m, last, level);
    }
  }

  lemma UnlinkedIsUnreachable(nodes: seq<Node>, level: nat, from: nat, to: nat)
    requires from != to && forall i: nat :: to !in Links(nodes, i, level)
    ensures !Reachable(nodes, level, from, to)
  {
    forall path | Walk(nodes, level, path) && path[0] == from ensures path[|path| - 1] != to {
      if |path| > 1 {
        assert path[|path| - 1] in Links(nodes, path[|path| - 2], level);
      }
    }
  }

  /** Nodes of `b` are those of `a` plus more, with the same rows and vectors. */
  ghost predicate Extends(a: seq<Node>, b: seq<Node>) {
    && |a| <= |b|
    && forall i | 0 <= i < |a| ::
         a[i].rowId == b[i].rowId && a[i].vector == b[i].vector && |a[i].neighbors| == |b[i].neighbors|
  }

  /** A beam on a grown graph whose level is unchanged is a beam on the graph before. */
  lemma BeamOnGraphBefore(metric: Metric, m: nat, before: seq<Node>, after: seq<Node>, query: Vector, level: nat,
                          ef: nat, beam: Beam)
    requires GraphSound(before, m) && Extends(before, after) && SameLinks(before, after, level)
    requires Reaches(before, beam.entry, level)
    requires BeamSound(metric, after, query, level, ef, beam)
    ensures BeamSound(metric, before, query, level, ef, beam)
    ensures forall r | r in beam.result :: Reaches(before, r.index, level)
  {
    forall n | n in beam.visited
      ensures Measured(metric, before, query, n) && Reachable(before, level, beam.entry, n.index)
              && Reaches(before, n.index, level)
    {
      SameReach(before, after, level, beam.entry, n.index);
      ReachableIsPresent(before, m, level, beam.entry, n.index);
      assert Measured(metric, after, query, n);
    }
    forall r | r in beam.result ensures r in beam.visited {
      assert r in Elements(beam.result);
    }
    forall r, j | r in beam.result && j in Links(before, r.index, level) ensures Sees(beam.visited, j) {
      assert Links(before, r.index, level) == Links(after, r.index, level);
    }
  }

  // ---- one whole insertion ----

  /** One level after an insertion, told on the graph before it: the new node links to the `m`
      nearest of a beam search, and each of those links back within its own `m` nearest. */
  ghost predicate LevelInserted(metric: Metric, m: nat, ef: nat, before: seq<Node>, after: seq<Node>, level: nat,
                                beam: Beam)
  {
    && |after| == |before| + 1
    && BeamSound(metric, before, after[|before|].vector, level, ef, beam)
    && var chosen := Indexes(Take(beam.result, m));
       && chosen != [] && Links(after, |before|, level) == chosen
       && (forall j | j in chosen :: Reaches(before, j, level))
       && forall i: nat | i < |before| ::
            if i in chosen then RelinkedTo(metric, after, i, Links(before, i, level), |before|, m, level)
            else Links(after, i, level) == Links(before, i, level)
  }

  lemma LevelInsertedStays(metric: Metric, m: nat, ef: nat, before: seq<Node>, mid: seq<Node>, after: seq<Node>,
                           level: nat, beam: Beam)
    requires LevelInserted(metric, m, ef, before, mid, level, beam)
    requires SameShape(mid, after) && SameLinks(mid, after, level)
    ensures LevelInserted(metric, m, ef, before, after, level, beam)
  {
    forall i: nat | i < |before|
      ensures if i in Indexes(Take(beam.result, m))
              then RelinkedTo(metric, after, i, Links(before, i, level), |before|, m, level)
              else Links(after, i, level) == Links(before, i, level)
    {
      if i in Indexes(Take(beam.result, m)) {
        RelinkedSameShape(metric, mid, after, i, Links(before, i, level), |before|, m, level);
      }
    }
  }

  /** Where the search of each level starts: at the top level given, below it at the first
      link the new node got one level up. */
  ghost predicate EntriesChain(after: seq<Node>, new_: nat, from: int, connectMax: nat, first: nat,
                               beams: map<nat, Beam>)
  {
    forall l: nat | from < l <= connectMax ::
      l in beams && beams[l].entry == if l == connectMax then first else FirstLink(after, new_, l + 1)
  }

  function FirstLink(nodes: seq<Node>, i: nat, level: nat): nat {
    var links := Links(nodes, i, level);
    if links == [] then i else links[0]
  }

  lemma ChainOneMore(mid: seq<Node>, now: seq<Node>, new_: nat, level: nat, connectMax: nat, first: nat,
                     beams: map<nat, Beam>,
                     beam: Beam)
    requires EntriesChain(mid, new_, level, connectMax, first, beams) && level <= connectMax
    requires SameElsewhere(mid, now, level)
    requires beam.entry == if level == connectMax then first else FirstLink(mid, new_, level + 1)
    ensures EntriesChain(now, new_, level - 1, connectMax, first, beams[level := beam])
  {
    forall l: nat | level < l ensures FirstLink(now, new_, l) == FirstLink(mid, new_, l) {
      assert SameLinks(mid, now, l);
    }
  }

  /** The results without one node. */
  function Others(s: seq<Neighbor>, i: nat): seq<Neighbor> {
    if s == [] then []
    else if s[0].index == i then Others(s[1..], i)
    else [s[0]] + Others(s[1..], i)
  }

  lemma {:induction false} NothingToDrop(s: seq<Neighbor>, i: nat)
    requires forall n | n in s :: n.index != i
    ensures Others(s, i) == s
  {
    if s != [] {
      assert s == [s[0]] + s[1..];
      NothingToDrop(s[1..], i);
    }
  }

  /** The chosen links of a sorted search result are distinct, present and within `m`. */
  lemma FrontIsChoosable(nodes: seq<Node>, m: nat, new_: nat, level: nat, result: seq<Neighbor>)
    requires Sorted(result) && (forall n | n in result :: Reaches(nodes, n.index, level) && n.index != new_)
    requires forall a, b | a in result && b in result && a.index == b.index :: a == b
    ensures Choosable(nodes, m, new_, level, Indexes(Take(result, m)))
  {
    var front := Take(result, m);
    var chosen := Indexes(front);
    forall a, b | 0 <= a < b < |chosen| ensures chosen[a] != chosen[b] {
      assert front[a] in result && front[b] in result && Closer(front[a], front[b]);
    }
    forall j | j in chosen ensures LinkSound(nodes, new_, level, j) {
      var k :| 0 <= k < |chosen| && chosen[k] == j;
      assert front[k] in result;
    }
  }

  function Vectors(nodes: seq<Node>): set<Vector> { set i | 0 <= i < |nodes| :: nodes[i].vector }

  /** The metric gives a finite distance between any two of the vectors. */
  ghost predicate Total(metric: Metric, vectors: set<Vector>) {
    forall a, b | a in vectors && b in vectors :: metric(a, b).Ok?
  }

  // ---- the descending loop over levels ----

  /** Part way through an insertion: levels above `level` are linked, those at or below it are
      as they were, and no node links to the new one there. */
  ghost predicate PartlyInserted(metric: Metric, m: nat, ef: nat, before: seq<Node>, base: seq<Node>, now: seq<Node>,
                                 level: int, connectMax: nat, beams: map<nat, Beam>) {
    && SameShape(base, now)
    && (forall l: nat | l <= level || connectMax < l :: SameLinks(base, now, l))
    && (forall l: nat | level < l <= connectMax :: l in beams && LevelInserted(metric, m, ef, before, now, l, beams[l]))
  }

  lemma LinkedLevelIsInserted(metric: Metric, m: nat, ef: nat, before: seq<Node>, base: seq<Node>, mid: seq<Node>,
                              now: seq<Node>,
                              level: nat, beam: Beam)
    requires GraphSound(before, m) && |base| == |before| + 1 && Extends(before, base)
    requires SameShape(base, mid) && SameLinks(before, mid, level)
    requires Reaches(before, beam.entry, level)
    requires BeamSound(metric, mid, base[|before|].vector, level, ef, beam)
    requires var chosen := Indexes(Take(beam.result, m));
             chosen != [] && LevelLinked(metric, m, mid, now, |before|, level, chosen)
    ensures LevelInserted(metric, m, ef, before, now, level, beam)
  {
    assert Extends(before, mid);
    BeamOnGraphBefore(metric, m, before, mid, base[|before|].vector, level, ef, beam);
    var front := Take(beam.result, m);
    forall j | j in Indexes(front) ensures Reaches(before, j, level) {
      var k :| 0 <= k < |front| && Indexes(front)[k] == j;
      assert front[k] in beam.result;
    }
    forall i: nat | i < |before| ensures Links(mid, i, level) == Links(before, i, level) {
    }
  }

  /** One more level linked. */
  lemma OneMoreLevel(metric: Metric, m: nat, ef: nat, before: seq<Node>, base: seq<Node>, mid: seq<Node>,
                     now: seq<Node>,
                     level: nat, connectMax: nat, beams: map<nat, Beam>, beam: Beam, chosen: seq<nat>)
    requires PartlyInserted(metric, m, ef, before, base, mid, level, connectMax, beams) && level <= connectMax
    requires LevelLinked(metric, m, mid, now, |before|, level, chosen)
    requires LevelInserted(metric, m, ef, before, now, level, beam)
    ensures PartlyInserted(metric, m, ef, before, base, now, level - 1, connectMax, beams[level := beam])
  {
    forall l: nat | l != level ensures SameLinks(mid, now, l) {
    }
    forall l: nat | l < level || connectMax < l ensures SameLinks(base, now, l) {
      assert SameLinks(base, mid, l) && SameLinks(mid, now, l);
    }
    forall l: nat | level < l <= connectMax ensures LevelInserted(metric, m, ef, before, now, l, beams[l]) {
      assert SameLinks(mid, now, l);
      LevelInsertedStays(metric, m, ef, before, mid, now, l, beams[l]);
    }
  }

  /** The graph after a whole insertion, told on the graph before it. */
  ghost predicate InsertedInto(metric: Metric, m: nat, ef: nat, before: seq<Node>, after: seq<Node>, connectMax: nat,
                               first: nat,
                               beams: map<nat, Beam>) {
    && (forall l: nat | l <= connectMax :: l in beams && LevelInserted(metric, m, ef, before, after, l, beams[l]))
    && (forall l: nat, i: nat | connectMax < l && i < |before| :: Links(after, i, l) == Links(before, i, l))
    && (forall l: nat | connectMax < l :: Links(after, |before|, l) == [])
    && EntriesChain(after, |before|, -1, connectMax, first, beams)
  }

  lemma AllLevelsInserted(metric: Metric, m: nat, ef: nat, before: seq<Node>, base: seq<Node>, now: seq<Node>,
                          level: int,
                          connectMax: nat, first: nat, beams: map<nat, Beam>)
    requires level == -1 && PartlyInserted(metric, m, ef, before, base, now, level, connectMax, beams)
    requires EntriesChain(now, |before|, level, connectMax, first, beams)
    requires |base| == |before| + 1 && SameAllLinks(before, base)
    ensures InsertedInto(metric, m, ef, before, now, connectMax, first, beams)
  {
    forall l: nat, i: nat | connectMax < l ensures Links(now, i, l) == Links(before, i, l) {
      assert SameLinks(base, now, l) && SameLinks(before, base, l);
    }
  }
}

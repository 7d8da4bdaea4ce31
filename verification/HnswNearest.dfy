/** Which links the vector index keeps, told by the metric alone: of the nodes offered, the nearest,
    nearest first, as many as fit. */
module HnswNearest {
  import opened Base
  import opened Hnsw
  import opened HnswGraph

  /** `a` is nearer to `origin` than `b`: at a smaller distance, or at the same one with a smaller
      index. */
  ghost predicate Nearer(metric: Metric, nodes: seq<Node>, origin: Vector, a: nat, b: nat) {
    && a < |nodes| && b < |nodes|
    && var x, y := metric(origin, nodes[a].vector), metric(origin, nodes[b].vector);
       x.Ok? && y.Ok? && (x.value < y.value || (x.value == y.value && a < b))
  }

  /** `kept` are links out of `pool`, each once and nearest first, `m` of them or all there are, and
      nearer than every one that was dropped. */
  ghost predicate KeepsNearest(metric: Metric, nodes: seq<Node>, origin: Vector, kept: seq<nat>, pool: set<nat>,
                               m: nat) {
    && |kept| == (if |pool| < m then |pool| else m)
    && (forall i | 0 <= i < |kept| :: kept[i] in pool)
    && (forall i, k | 0 <= i < k < |kept| :: Nearer(metric, nodes, origin, kept[i], kept[k]))
    && forall i, j | 0 <= i < |kept| && j in pool && j !in kept :: Nearer(metric, nodes, origin, kept[i], j)
  }

  /** Greedy descent stops exactly where no link leads nearer: at an equal distance, or between the two
      zeros, the smaller index wins. */
  lemma LocalOptimumIff(metric: Metric, nodes: seq<Node>, query: Vector, level: nat, node: Neighbor)
    requires Measured(metric, nodes, query, node)
    ensures LocalOptimum(metric, nodes, query, level, node) <==>
      forall j | j in Links(nodes, node.index, level) ::
        && j < |nodes| && metric(query, nodes[j].vector).Ok?
        && var distance := metric(query, nodes[j].vector).value;
           if -1 <= distance <= 0 && -1 <= node.distance <= 0 then node.index <= j
           else node.distance < distance || (node.distance == distance && node.index <= j)
  {
    var links := Links(nodes, node.index, level);
    forall j | j in links ensures exists k :: 0 <= k < |links| && links[k] == j {
    }
    forall k | 0 <= k < |links| ensures links[k] in links {
    }
  }

  // ---- sorting and cutting ----

  lemma CloserIsNearer(metric: Metric, nodes: seq<Node>, origin: Vector, a: Neighbor, b: Neighbor)
    requires Measured(metric, nodes, origin, a) && Measured(metric, nodes, origin, b) && Closer(a, b)
    ensures Nearer(metric, nodes, origin, a.index, b.index)
  {
  }

  ghost function IndexSetOf(s: seq<Neighbor>): set<nat> { set n | n in s :: n.index }

  lemma {:induction false} AsManyIndexes(metric: Metric, nodes: seq<Node>, origin: Vector, s: seq<Neighbor>)
    requires Sorted(s) && forall n | n in s :: Measured(metric, nodes, origin, n)
    ensures |IndexSetOf(s)| == |s|
  {
    if s != [] {
      var front, last := s[..|s| - 1], s[|s| - 1];
      assert s == front + [last] && last in s;
      AsManyIndexes(metric, nodes, origin, front);
      assert IndexSetOf(s) == IndexSetOf(front) + {last.index};
      forall n | n in front ensures n.index != last.index {
        var k :| 0 <= k < |front| && front[k] == n;
        assert s[k] in s && Closer(s[k], s[|s| - 1]);
      }
    }
  }

  /** The front of a sorted list of measured nodes keeps the nearest of them. */
  lemma FrontKeepsNearest(metric: Metric, nodes: seq<Node>, origin: Vector, s: seq<Neighbor>, m: nat)
    requires Sorted(s) && forall n | n in s :: Measured(metric, nodes, origin, n)
    ensures KeepsNearest(metric, nodes, origin, Indexes(Take(s, m)), IndexSetOf(s), m)
  {
    var kept := Indexes(Take(s, m));
    AsManyIndexes(metric, nodes, origin, s);
    forall i | 0 <= i < |kept| ensures kept[i] in IndexSetOf(s) {
      assert s[i] in s;
    }
    forall i, k | 0 <= i < k < |s| ensures Nearer(metric, nodes, origin, s[i].index, s[k].index) {
      assert s[i] in s && s[k] in s;
      CloserIsNearer(metric, nodes, origin, s[i], s[k]);
    }
    forall i, j | 0 <= i < |kept| && j in IndexSetOf(s) && j !in kept
      ensures Nearer(metric, nodes, origin, kept[i], j)
    {
      var n :| n in s && n.index == j;
      var k :| 0 <= k < |s| && s[k] == n;
      forall l | 0 <= l < |kept| ensures kept[l] == s[l].index && kept[l] != j {
        assert kept[l] in kept;
      }
      assert i < k;
    }
  }

  lemma ScoredAreMeasured(metric: Metric, nodes: seq<Node>, origin: Vector, pool: set<nat>)
    requires AllMeasurable(metric, nodes, origin, pool)
    ensures var order := Ascending(Scored(metric, nodes, origin, pool));
            && Sorted(order) && IndexSetOf(order) == pool
            && forall n | n in order :: Measured(metric, nodes, origin, n)
  {
    var scored := Scored(metric, nodes, origin, pool);
    var order := Ascending(scored);
    AscendingIsSorted(scored);
    forall n | n in order ensures n in scored {
      assert n in Elements(order);
    }
    forall j | j in pool ensures j in IndexSetOf(order) {
      var n := Neighbor(DistanceOr(metric, nodes, origin, j), j);
      assert n in Elements(order);
      assert n in order;
    }
  }

  lemma NearestKeepsNearest(metric: Metric, nodes: seq<Node>, origin: Vector, pool: set<nat>, m: nat)
    requires AllMeasurable(metric, nodes, origin, pool)
    ensures KeepsNearest(metric, nodes, origin, Nearest(metric, nodes, origin, pool, m), pool, m)
  {
    ScoredAreMeasured(metric, nodes, origin, pool);
    FrontKeepsNearest(metric, nodes, origin, Ascending(Scored(metric, nodes, origin, pool)), m);
  }

  lemma KeepsNearestSameShape(metric: Metric, a: seq<Node>, b: seq<Node>, origin: Vector, kept: seq<nat>,
                              pool: set<nat>, m: nat)
    requires SameShape(a, b) && KeepsNearest(metric, a, origin, kept, pool, m)
    ensures KeepsNearest(metric, b, origin, kept, pool, m)
  {
    forall x, y | Nearer(metric, a, origin, x, y) ensures Nearer(metric, b, origin, x, y) {
    }
  }

  // ---- linking back ----

  /** Each node of `done` keeps the nearest of its links and the new one. */
  ghost predicate BackLinksNearest(metric: Metric, m: nat, before: seq<Node>, after: seq<Node>, new_: nat, level: nat,
                                   done: seq<nat>)
  {
    forall i | i in done :: RelinksNearest(metric, m, before, after, new_, level, i)
  }

  ghost predicate RelinksNearest(metric: Metric, m: nat, before: seq<Node>, after: seq<Node>, new_: nat, level: nat,
                                 i: nat)
  {
    && i < |after|
    && KeepsNearest(metric, after, after[i].vector, Links(after, i, level), ToSet(Links(before, i, level) + [new_]), m)
  }

  lemma BackLinkedIsNearest(metric: Metric, m: nat, before: seq<Node>, after: seq<Node>, new_: nat, level: nat,
                            done: seq<nat>)
    requires BackLinked(metric, m, before, after, new_, level, done) && forall i | i in done :: i < |after|
    ensures BackLinksNearest(metric, m, before, after, new_, level, done)
  {
    forall i | i in done ensures RelinksNearest(metric, m, before, after, new_, level, i) {
      NearestKeepsNearest(metric, after, after[i].vector, ToSet(Links(before, i, level) + [new_]), m);
    }
  }

  // ---- one level of an insertion ----

  /** The new node keeps the nearest of what the search returned, and each of those the nearest of
      its links before and the new one. */
  ghost predicate LevelNearest(metric: Metric, m: nat, before: seq<Node>, after: seq<Node>, new_: nat, level: nat,
                               beam: Beam)
  {
    && new_ < |after|
    && KeepsNearest(metric, after, after[new_].vector, Links(after, new_, level), IndexSetOf(beam.result), m)
    && BackLinksNearest(metric, m, before, after, new_, level, Links(after, new_, level))
  }

  /** No node the search returned is nearer than `i`. */
  ghost predicate IsNearestFound(metric: Metric, nodes: seq<Node>, origin: Vector, beam: Beam, i: nat) {
    i in IndexSetOf(beam.result)
    && forall j | j in IndexSetOf(beam.result) && j != i :: Nearer(metric, nodes, origin, i, j)
  }

  lemma FirstIsNearest(metric: Metric, nodes: seq<Node>, origin: Vector, kept: seq<nat>, beam: Beam, m: nat)
    requires KeepsNearest(metric, nodes, origin, kept, IndexSetOf(beam.result), m) && kept != []
    ensures IsNearestFound(metric, nodes, origin, beam, kept[0])
  {
    forall j | j in IndexSetOf(beam.result) && j != kept[0] ensures Nearer(metric, nodes, origin, kept[0], j) {
      if j in kept {
        var k :| 0 <= k < |kept| && kept[k] == j;
        assert Nearer(metric, nodes, origin, kept[0], kept[k]);
      }
    }
  }

  /** A level linked to the front of a search result is linked to the nearest. */
  lemma LinkedToNearest(metric: Metric, m: nat, before: seq<Node>, after: seq<Node>, new_: nat, level: nat, beam: Beam)
    requires new_ < |after| && Sorted(beam.result) && Links(after, new_, level) == Indexes(Take(beam.result, m))
    requires forall n | n in beam.result :: Measured(metric, after, after[new_].vector, n)
    requires BackLinksNearest(metric, m, before, after, new_, level, Links(after, new_, level))
    ensures LevelNearest(metric, m, before, after, new_, level, beam)
    ensures Links(after, new_, level) != [] ==>
              IsNearestFound(metric, after, after[new_].vector, beam, Links(after, new_, level)[0])
  {
    FrontKeepsNearest(metric, after, after[new_].vector, beam.result, m);
    if Links(after, new_, level) != [] {
      FirstIsNearest(metric, after, after[new_].vector, Links(after, new_, level), beam, m);
    }
  }

  // ---- a whole insertion ----

  /** Every level keeps the nearest, and every search but the first one starts at the nearest node
      the one before it found. */
  ghost predicate InsertedNearest(metric: Metric, m: nat, before: seq<Node>, after: seq<Node>, connectMax: nat,
                                  beams: map<nat, Beam>)
  {
    && |before| < |after|
    && (forall l: nat | l <= connectMax ::
          l in beams && LevelNearest(metric, m, before, after, |before|, l, beams[l]))
    && forall l: nat {:trigger EntersAtNearest(metric, after, |before|, beams, l)} | l < connectMax ::
         EntersAtNearest(metric, after, |before|, beams, l)
  }

  /** The search of level `l` started at the nearest node the search one level up found. */
  ghost predicate EntersAtNearest(metric: Metric, after: seq<Node>, new_: nat, beams: map<nat, Beam>, l: nat) {
    && new_ < |after| && l in beams && l + 1 in beams
    && IsNearestFound(metric, after, after[new_].vector, beams[l + 1], beams[l].entry)
  }

  lemma LevelInsertedIsNearest(metric: Metric, m: nat, ef: nat, before: seq<Node>, after: seq<Node>, level: nat,
                               beam: Beam)
    requires LevelInserted(metric, m, ef, before, after, level, beam) && Extends(before, after)
    ensures LevelNearest(metric, m, before, after, |before|, level, beam)
    ensures IsNearestFound(metric, after, after[|before|].vector, beam, FirstLink(after, |before|, level))
  {
    var chosen := Links(after, |before|, level);
    forall n | n in beam.result ensures Measured(metric, after, after[|before|].vector, n) {
      assert n in Elements(beam.result);
      assert Measured(metric, before, after[|before|].vector, n);
    }
    forall i | i in chosen ensures RelinksNearest(metric, m, before, after, |before|, level, i) {
      assert Reaches(before, i, level);
      NearestKeepsNearest(metric, after, after[i].vector, ToSet(Links(before, i, level) + [|before|]), m);
    }
    LinkedToNearest(metric, m, before, after, |before|, level, beam);
  }

  lemma LevelOfInsertion(metric: Metric, m: nat, ef: nat, before: seq<Node>, after: seq<Node>, connectMax: nat,
                         first: nat, beams: map<nat, Beam>, l: nat)
    requires l <= connectMax && InsertedInto(metric, m, ef, before, after, connectMax, first, beams)
    ensures l in beams && LevelInserted(metric, m, ef, before, after, l, beams[l])
    ensures l < connectMax ==> beams[l].entry == FirstLink(after, |before|, l + 1)
  {
  }

  lemma EntryOfInsertion(metric: Metric, m: nat, ef: nat, before: seq<Node>, after: seq<Node>, beams: map<nat, Beam>,
                         l: nat)
    requires Extends(before, after) && l in beams && l + 1 in beams
    requires LevelInserted(metric, m, ef, before, after, l + 1, beams[l + 1])
    requires beams[l].entry == FirstLink(after, |before|, l + 1)
    ensures EntersAtNearest(metric, after, |before|, beams, l)
  {
    LevelInsertedIsNearest(metric, m, ef, before, after, l + 1, beams[l + 1]);
  }

  /** A whole insertion links every level to the nearest. */
  lemma InsertedIsNearest(metric: Metric, m: nat, ef: nat, before: seq<Node>, after: seq<Node>, connectMax: nat,
                          first: nat, beams: map<nat, Beam>)
    requires |after| == |before| + 1 && Extends(before, after)
    requires InsertedInto(metric, m, ef, before, after, connectMax, first, beams)
    ensures InsertedNearest(metric, m, before, after, connectMax, beams)
  {
    forall l: nat | l <= connectMax
      ensures l in beams && LevelNearest(metric, m, before, after, |before|, l, beams[l])
    {
      LevelOfInsertion(metric, m, ef, before, after, connectMax, first, beams, l);
      LevelInsertedIsNearest(metric, m, ef, before, after, l, beams[l]);
    }
    forall l: nat | l < connectMax ensures EntersAtNearest(metric, after, |before|, beams, l) {
      LevelOfInsertion(metric, m, ef, before, after, connectMax, first, beams, l);
      LevelOfInsertion(metric, m, ef, before, after, connectMax, first, beams, l + 1);
      EntryOfInsertion(metric, m, ef, before, after, beams, l);
    }
  }
}

/** The navigable small-world graph of the vector index: measured neighbours and their order,
    the links of a level, the invariant a finished graph has, and what a beam search returns. */
module Hnsw {
  import opened Base

  // The coordinates of a vector, as opaque words: only the metric looks inside.
  type Vector = seq<U32>

  // A finite f32 by its place in the total order of floats: -1 is -0.0 and 0 is +0.0.
  type Distance = int

  /** What `<` and `==` on floats compare: both zeros are one value. */
  function Value(distance: Distance): int { if distance == -1 then 0 else distance }

  datatype Neighbor = Neighbor(distance: Distance, index: nat)

  datatype Node = Node(rowId: U64, vector: Vector, neighbors: seq<seq<nat>>)

  type Metric = (Vector, Vector) -> Result<Distance>

  /** The order of the heaps and the sorts: by distance in the total order, then by index. */
  predicate Closer(a: Neighbor, b: Neighbor) {
    a.distance < b.distance || (a.distance == b.distance && a.index < b.index)
  }

  /** The order greedy descent improves in. */
  predicate Better(a: Neighbor, b: Neighbor) {
    Value(a.distance) < Value(b.distance) || (Value(a.distance) == Value(b.distance) && a.index < b.index)
  }

  // ---- finite sets of neighbours ----

  ghost predicate IsClosest(pool: set<Neighbor>, n: Neighbor) {
    n in pool && forall other | other in pool :: other == n || Closer(n, other)
  }

  ghost predicate IsFarthest(pool: set<Neighbor>, n: Neighbor) {
    n in pool && forall other | other in pool :: other == n || Closer(other, n)
  }

  lemma {:induction false} ExtremesExist(pool: set<Neighbor>) returns (closest: Neighbor, farthest: Neighbor)
    requires pool != {}
    ensures IsClosest(pool, closest) && IsFarthest(pool, farthest)
    decreases |pool|
  {
    var n :| n in pool;
    var rest := pool - {n};
    assert pool == rest + {n};
    if rest == {} {
      closest, farthest := n, n;
    } else {
      var c, f := ExtremesExist(rest);
      closest := if Closer(n, c) then n else c;
      farthest := if Closer(f, n) then n else f;
    }
  }

  lemma ClosestExists(pool: set<Neighbor>)
    requires pool != {}
    ensures exists n :: n in pool && forall other | other in pool :: other == n || Closer(n, other)
  {
    var c, f := ExtremesExist(pool);
    assert c in pool && forall other | other in pool :: other == c || Closer(c, other);
  }

  lemma FarthestExists(pool: set<Neighbor>)
    requires pool != {}
    ensures exists n :: n in pool && forall other | other in pool :: other == n || Closer(other, n)
  {
    var c, f := ExtremesExist(pool);
    assert f in pool && forall other | other in pool :: other == f || Closer(other, f);
  }

  /** What popping a min-heap yields. */
  function Closest(pool: set<Neighbor>): (n: Neighbor)
    requires pool != {}
    ensures IsClosest(pool, n)
  {
    ClosestExists(pool);
    var n :| n in pool && forall other | other in pool :: other == n || Closer(n, other);
    n
  }

  /** What peeking at or popping a max-heap yields. */
  function Farthest(pool: set<Neighbor>): (n: Neighbor)
    requires pool != {}
    ensures IsFarthest(pool, n)
  {
    FarthestExists(pool);
    var n :| n in pool && forall other | other in pool :: other == n || Closer(other, n);
    n
  }

  ghost predicate Sorted(s: seq<Neighbor>) {
    forall i, j | 0 <= i < j < |s| :: Closer(s[i], s[j])
  }

  function Elements(s: seq<Neighbor>): set<Neighbor> { set n | n in s }

  lemma ElementsOfCons(n: Neighbor, rest: seq<Neighbor>)
    ensures Elements([n] + rest) == {n} + Elements(rest)
  {
    forall m | m in Elements(rest) ensures m in [n] + rest {
      var k :| 0 <= k < |rest| && rest[k] == m;
      assert ([n] + rest)[k + 1] == m;
    }
    assert ([n] + rest)[0] == n;
  }

  /** The pool in order, closest first. */
  function Ascending(pool: set<Neighbor>): seq<Neighbor>
    decreases |pool|
  {
    if pool == {} then [] else [Closest(pool)] + Ascending(pool - {Closest(pool)})
  }

  lemma {:induction false} AscendingIsSorted(pool: set<Neighbor>)
    ensures var s := Ascending(pool); Elements(s) == pool && |s| == |pool| && Sorted(s)
    decreases |pool|
  {
    if pool != {} {
      var n := Closest(pool);
      var rest := Ascending(pool - {n});
      AscendingIsSorted(pool - {n});
      ElementsOfCons(n, rest);
      forall i | 0 <= i < |rest| ensures Closer(n, rest[i]) {
        assert rest[i] in Elements(rest);
      }
    }
  }

  lemma {:induction false} SortedIsAscending(s: seq<Neighbor>)
    requires Sorted(s)
    ensures Ascending(Elements(s)) == s
  {
    if s != [] {
      var pool := Elements(s);
      assert s[0] in pool;
      var n := Closest(pool);
      assert n == s[0] by {
        assert n in s;
      }
      assert s == [s[0]] + s[1..];
      assert pool - {s[0]} == Elements(s[1..]);
      SortedIsAscending(s[1..]);
    }
  }

  function Take<T>(s: seq<T>, k: nat): seq<T> { if |s| <= k then s else s[..k] }

  function Indexes(s: seq<Neighbor>): (r: seq<nat>)
    ensures |r| == |s| && forall i | 0 <= i < |s| :: r[i] == s[i].index
  {
    seq(|s|, i requires 0 <= i < |s| => s[i].index)
  }

  /** `best` holds the k nearest of `pool`, or all of it when there are fewer. */
  ghost predicate NearestOf(best: set<Neighbor>, pool: set<Neighbor>, k: nat) {
    && best <= pool
    && |best| <= k && (|best| < k ==> best == pool)
    && forall b, n | b in best && n in pool - best :: Closer(b, n)
  }

  /** One offer to a bounded heap: it keeps the k nearest of what it has seen. */
  lemma OfferKeepsNearest(best: set<Neighbor>, pool: set<Neighbor>, k: nat, next: Neighbor)
    requires NearestOf(best, pool, k) && 0 < k && next !in pool && best != {}
    ensures |best| < k ==> NearestOf(best + {next}, pool + {next}, k)
    ensures |best| == k && Closer(next, Farthest(best)) ==>
              Farthest(best + {next}) == Farthest(best) &&
              NearestOf(best + {next} - {Farthest(best)}, pool + {next}, k)
    ensures |best| == k && !Closer(next, Farthest(best)) ==> NearestOf(best, pool + {next}, k)
  {
    var worst := Farthest(best);
    if |best| == k && Closer(next, worst) {
      var larger := best + {next};
      var top := Farthest(larger);
      assert top == worst;
      assert |larger| == k + 1;
      assert |larger - {worst}| == k;
      forall b, n | b in larger - {worst} && n in pool + {next} - (larger - {worst})
        ensures Closer(b, n)
      {
        if n != worst {
          assert n in pool - best;
          assert Closer(worst, n);
        }
      }
    }
  }

  // ---- links ----

  function Links(nodes: seq<Node>, i: nat, level: nat): seq<nat> {
    if i < |nodes| && level < |nodes[i].neighbors| then nodes[i].neighbors[level] else []
  }

  predicate Reaches(nodes: seq<Node>, i: nat, level: nat) {
    i < |nodes| && level < |nodes[i].neighbors|
  }

  /** A link may lead to any other node that is present at the link's level. */
  predicate LinkSound(nodes: seq<Node>, i: nat, level: nat, j: nat) {
    j != i && Reaches(nodes, j, level)
  }

  predicate Distinct(s: seq<nat>) {
    forall a, b | 0 <= a < b < |s| :: s[a] != s[b]
  }

  predicate ListSound(nodes: seq<Node>, m: nat, i: nat, level: nat) {
    var links := Links(nodes, i, level);
    && |links| <= m && Distinct(links)
    && forall k | 0 <= k < |links| :: LinkSound(nodes, i, level, links[k])
  }

  ghost predicate GraphSound(nodes: seq<Node>, m: nat) {
    && (forall i | 0 <= i < |nodes| :: nodes[i].neighbors != [])
    && forall i: nat, level: nat :: ListSound(nodes, m, i, level)
  }

  /** The entry point is a node of the highest level. */
  ghost predicate EntrySound(nodes: seq<Node>, entry: Option<nat>, maxLevel: nat) {
    match entry
    case None => nodes == [] && maxLevel == 0
    case Some(e) =>
      && e < |nodes| && |nodes[e].neighbors| == maxLevel + 1
      && forall i | 0 <= i < |nodes| :: |nodes[i].neighbors| <= maxLevel + 1
  }

  ghost predicate Walk(nodes: seq<Node>, level: nat, path: seq<nat>) {
    path != [] && forall k | 0 < k < |path| :: path[k] in Links(nodes, path[k - 1], level)
  }

  ghost predicate Reachable(nodes: seq<Node>, level: nat, from: nat, to: nat) {
    exists path :: Walk(nodes, level, path) && path[0] == from && path[|path| - 1] == to
  }

  lemma ReachesItself(nodes: seq<Node>, level: nat, i: nat)
    ensures Reachable(nodes, level, i, i)
  {
    assert Walk(nodes, level, [i]) && [i][0] == i && [i][|[i]| - 1] == i;
  }

  lemma ReachesFurther(nodes: seq<Node>, level: nat, from: nat, i: nat, j: nat)
    requires Reachable(nodes, level, from, i) && j in Links(nodes, i, level)
    ensures Reachable(nodes, level, from, j)
  {
    var path :| Walk(nodes, level, path) && path[0] == from && path[|path| - 1] == i;
    var longer := path + [j];
    assert Walk(nodes, level, longer) && longer[0] == from && longer[|longer| - 1] == j;
  }

  /** What is closed under the links of a level holds everything a walk reaches. */
  lemma {:induction false} WalkStaysInside(nodes: seq<Node>, level: nat, path: seq<nat>, inside: set<nat>)
    requires Walk(nodes, level, path) && path[0] in inside
    requires forall i, j | i in inside && j in Links(nodes, i, level) :: j in inside
    ensures path[|path| - 1] in inside
    decreases |path|
  {
    if |path| > 1 {
      assert path[1] in Links(nodes, path[0], level);
      var rest := path[1..];
      WalkStaysInside(nodes, level, rest, inside);
    }
  }

  // ---- measuring ----

  ghost predicate Measured(metric: Metric, nodes: seq<Node>, query: Vector, n: Neighbor) {
    n.index < |nodes| && metric(query, nodes[n.index].vector) == Ok(n.distance)
  }

  ghost predicate Sees(visited: set<Neighbor>, i: nat) {
    exists n :: n in visited && n.index == i
  }

  // A search of one level: where it started, everything it measured, and what it returned.
  datatype Beam = Beam(entry: nat, visited: set<Neighbor>, result: seq<Neighbor>)

  ghost predicate VisitedSound(metric: Metric, nodes: seq<Node>, query: Vector, level: nat, beam: Beam) {
    && Sees(beam.visited, beam.entry)
    && (forall n | n in beam.visited :: Measured(metric, nodes, query, n))
    && (forall n | n in beam.visited :: Reachable(nodes, level, beam.entry, n.index))
  }

  /** What a beam search of one level guarantees: it returns the `ef` nearest of the nodes it
      measured, in order, and it has looked at every link of every node it returns. */
  ghost predicate BeamSound(metric: Metric, nodes: seq<Node>, query: Vector, level: nat, ef: nat, beam: Beam) {
    && VisitedSound(metric, nodes, query, level, beam)
    && Sorted(beam.result)
    && NearestOf(Elements(beam.result), beam.visited, ef)
    && forall r, j | r in beam.result && j in Links(nodes, r.index, level) :: Sees(beam.visited, j)
  }

  /** Local optimality: a link that leads out of the result leads to a node farther than
      everything returned, and the result is full. */
  lemma BeamIsLocallyOptimal(metric: Metric, nodes: seq<Node>, query: Vector, level: nat, ef: nat, beam: Beam,
                             r: Neighbor, j: nat)
    requires BeamSound(metric, nodes, query, level, ef, beam)
    requires r in beam.result && j in Links(nodes, r.index, level)
    ensures |beam.result| <= ef
    ensures j < |nodes| && metric(query, nodes[j].vector).Ok?
    ensures (exists k :: 0 <= k < |beam.result| && beam.result[k].index == j)
            || (|beam.result| == ef && forall k | 0 <= k < |beam.result| ::
                  Closer(beam.result[k], Neighbor(metric(query, nodes[j].vector).value, j)))
  {
    SortedIsAscending(beam.result);
    AscendingIsSorted(Elements(beam.result));
    assert |Elements(beam.result)| == |beam.result|;
    assert Sees(beam.visited, j);
    var n :| n in beam.visited && n.index == j;
    if n in beam.result {
      var k :| 0 <= k < |beam.result| && beam.result[k] == n;
    } else {
      assert n in beam.visited - Elements(beam.result);
      forall k | 0 <= k < |beam.result| ensures Closer(beam.result[k], n) {
        assert beam.result[k] in Elements(beam.result);
      }
    }
  }

  /** A result shorter than `ef` is exactly what the level's links reach from the entry. */
  lemma ShortBeamIsEverythingReachable(metric: Metric, nodes: seq<Node>, query: Vector, level: nat, ef: nat, beam: Beam,
                                       i: nat)
    requires BeamSound(metric, nodes, query, level, ef, beam) && |beam.result| < ef
    ensures (exists k :: 0 <= k < |beam.result| && beam.result[k].index == i)
            <==> Reachable(nodes, level, beam.entry, i)
  {
    SortedIsAscending(beam.result);
    AscendingIsSorted(Elements(beam.result));
    var inside := set n | n in beam.visited :: n.index;
    if Reachable(nodes, level, beam.entry, i) {
      var path :| Walk(nodes, level, path) && path[0] == beam.entry && path[|path| - 1] == i;
      forall a, b | a in inside && b in Links(nodes, a, level) ensures b in inside {
        var n :| n in beam.visited && n.index == a;
        assert n in Elements(beam.result);
        assert n in beam.result;
        assert Sees(beam.visited, b);
      }
      WalkStaysInside(nodes, level, path, inside);
      var n :| n in beam.visited && n.index == i;
      assert n in Elements(beam.result);
      var k :| 0 <= k < |beam.result| && beam.result[k] == n;
    }
    if k :| 0 <= k < |beam.result| && beam.result[k].index == i {
      assert beam.result[k] in Elements(beam.result);
    }
  }

  /** No link of `node` leads to a better node. */
  ghost predicate LocalOptimum(metric: Metric, nodes: seq<Node>, query: Vector, level: nat, node: Neighbor) {
    && Measured(metric, nodes, query, node)
    && forall k | 0 <= k < |Links(nodes, node.index, level)| ::
         var j := Links(nodes, node.index, level)[k];
         j < |nodes| && metric(query, nodes[j].vector).Ok? &&
         !Better(Neighbor(metric(query, nodes[j].vector).value, j), node)
  }

  // ---- one beam search under way ----

  // The sets a search works on: every node measured, and of those the bounded heap of the
  // best and the heap of those still to expand.
  datatype Heaps = Heaps(seen: set<Neighbor>, visited: set<nat>, best: set<Neighbor>, candidates: set<Neighbor>)

  ghost predicate SeenSound(metric: Metric, nodes: seq<Node>, query: Vector, level: nat, entry: nat,
                            seen: set<Neighbor>)
  {
    && (forall n | n in seen :: Measured(metric, nodes, query, n) && Reaches(nodes, n.index, level))
    && (forall n {:trigger Reachable(nodes, level, entry, n.index)} | n in seen ::
        Reachable(nodes, level, entry, n.index))
  }

  ghost predicate VisitedMatches(seen: set<Neighbor>, visited: set<nat>, size: nat) {
    && (forall n | n in seen :: n.index in visited)
    && (forall i | i in visited :: i < size)
    && (forall i {:trigger Sees(seen, i)} | i in visited :: Sees(seen, i))
    && |visited| <= size
  }

  ghost predicate HeapsSound(seen: set<Neighbor>, best: set<Neighbor>, candidates: set<Neighbor>, ef: nat) {
    best != {} && candidates <= seen && NearestOf(best, seen, ef)
  }

  /** The heaps after a newly measured node is offered to them. */
  function Offered(best: set<Neighbor>, candidates: set<Neighbor>, ef: nat,
                   next: Neighbor): (set<Neighbor>, set<Neighbor>)
    requires best != {}
  {
    if |best| < ef then (best + {next}, candidates + {next})
    else if Closer(next, Farthest(best)) then (best + {next} - {Farthest(best + {next})}, candidates + {next})
    else (best, candidates)
  }

  /** The heaps after one more node is measured. */
  function Visit(heaps: Heaps, ef: nat, next: Neighbor): Heaps
    requires heaps.best != {}
  {
    var (best, candidates) := Offered(heaps.best, heaps.candidates, ef, next);
    Heaps(heaps.seen + {next}, heaps.visited + {next.index}, best, candidates)
  }

  /** What measuring more nodes may do to the heaps: nothing already measured or waiting is
      lost, and a newly best node is waiting to be expanded. */
  ghost predicate Grew(before: Heaps, after: Heaps) {
    && before.seen <= after.seen && before.visited <= after.visited && before.candidates <= after.candidates
    && (after.visited == before.visited ==> after.candidates == before.candidates)
    && after.best <= before.best + after.candidates
  }

  lemma OfferKeepsHeaps(seen: set<Neighbor>, best: set<Neighbor>, candidates: set<Neighbor>, ef: nat, next: Neighbor)
    requires HeapsSound(seen, best, candidates, ef) && 0 < ef && next !in seen
    ensures var (b, c) := Offered(best, candidates, ef, next);
            HeapsSound(seen + {next}, b, c, ef) && candidates <= c && b <= best + c
  {
    OfferKeepsNearest(best, seen, ef, next);
    var (b, c) := Offered(best, candidates, ef, next);
    if |best| == ef && Closer(next, Farthest(best)) {
      assert next in b;
    }
  }

  lemma VisitGrows(start: Heaps, heaps: Heaps, ef: nat, next: Neighbor)
    requires HeapsSound(heaps.seen, heaps.best, heaps.candidates, ef) && 0 < ef && next !in heaps.seen
    requires Grew(start, heaps) && next.index !in heaps.visited
    ensures var after := Visit(heaps, ef, next);
            Grew(start, after) && HeapsSound(after.seen, after.best, after.candidates, ef)
  {
    OfferKeepsHeaps(heaps.seen, heaps.best, heaps.candidates, ef, next);
  }

  lemma SeenGrows(metric: Metric, nodes: seq<Node>, query: Vector, level: nat, entry: nat, seen: set<Neighbor>,
                  from: nat, next: Neighbor)
    requires SeenSound(metric, nodes, query, level, entry, seen) && Measured(metric, nodes, query, next)
    requires Reachable(nodes, level, entry, from) && next.index in Links(nodes, from, level)
             && Reaches(nodes, next.index, level)
    ensures SeenSound(metric, nodes, query, level, entry, seen + {next})
  {
    ReachesFurther(nodes, level, entry, from, next.index);
  }

  ghost predicate Covered(links: seq<nat>, k: nat, visited: set<nat>) {
    forall i | 0 <= i < k && i < |links| :: links[i] in visited
  }

  lemma CoverOneMore(links: seq<nat>, k: nat, visited: set<nat>, after: set<nat>)
    requires k < |links| && Covered(links, k, visited) && visited <= after && links[k] in after
    ensures Covered(links, k + 1, after)
  {
  }

  function Below(n: nat): (s: set<nat>)
    ensures |s| == n && forall i: nat :: i in s <==> i < n
  {
    if n == 0 then {} else Below(n - 1) + {n - 1}
  }

  lemma VisitKeepsMatch(seen: set<Neighbor>, visited: set<nat>, size: nat, next: Neighbor)
    requires VisitedMatches(seen, visited, size) && next.index < size && next.index !in visited
    ensures VisitedMatches(seen + {next}, visited + {next.index}, size) && next !in seen
  {
    SubsetIsSmaller(visited + {next.index}, Below(size));
    forall i | i in visited + {next.index} ensures Sees(seen + {next}, i) {
      if i in visited {
        assert Sees(seen, i);
        var n :| n in seen && n.index == i;
        assert n in seen + {next};
      } else {
        assert next in seen + {next};
      }
    }
  }

  // ---- the nearest of a set of links ----

  function DistanceOr(metric: Metric, nodes: seq<Node>, origin: Vector, j: nat): Distance {
    if j < |nodes| && metric(origin, nodes[j].vector).Ok? then metric(origin, nodes[j].vector).value else 0
  }

  function Scored(metric: Metric, nodes: seq<Node>, origin: Vector, pool: set<nat>): set<Neighbor> {
    set j | j in pool :: Neighbor(DistanceOr(metric, nodes, origin, j), j)
  }

  /** The at most `m` links of `pool` that are nearest to `origin`, nearest first. */
  function Nearest(metric: Metric, nodes: seq<Node>, origin: Vector, pool: set<nat>, m: nat): seq<nat> {
    Indexes(Take(Ascending(Scored(metric, nodes, origin, pool)), m))
  }

  lemma NearestIsSound(metric: Metric, nodes: seq<Node>, origin: Vector, pool: set<nat>, m: nat)
    ensures var kept := Nearest(metric, nodes, origin, pool, m);
            && |kept| <= m && Distinct(kept)
            && (forall j | j in kept :: j in pool)
            && (pool != {} && 0 < m ==> kept != [])
  {
    var scored := Scored(metric, nodes, origin, pool);
    var order := Ascending(scored);
    AscendingIsSorted(scored);
    var kept := Nearest(metric, nodes, origin, pool, m);
    forall a, b | 0 <= a < b < |kept| ensures kept[a] != kept[b] {
      assert order[a] in Elements(order) && order[b] in Elements(order);
    }
    forall j | j in kept ensures j in pool {
      var k :| 0 <= k < |kept| && kept[k] == j;
      assert order[k] in Elements(order);
    }
    if pool != {} {
      var j :| j in pool;
      assert Neighbor(DistanceOr(metric, nodes, origin, j), j) in scored;
    }
  }

  /** Scoring and sorting again what is already the front of a beam changes nothing. */
  lemma RescoringKeepsOrder(metric: Metric, nodes: seq<Node>, query: Vector, s: seq<Neighbor>, pool: set<nat>, m: nat)
    requires Sorted(s) && |s| <= m
    requires forall n | n in s :: Measured(metric, nodes, query, n)
    requires pool == set k | 0 <= k < |s| :: s[k].index
    ensures Nearest(metric, nodes, query, pool, m) == Indexes(s)
  {
    assert Scored(metric, nodes, query, pool) == Elements(s) by {
      forall j | j in pool ensures Neighbor(DistanceOr(metric, nodes, query, j), j) in Elements(s) {
        var k :| 0 <= k < |s| && s[k].index == j;
        assert s[k] in s;
      }
      forall n | n in Elements(s) ensures n in Scored(metric, nodes, query, pool) {
        var k :| 0 <= k < |s| && s[k] == n;
        assert n.index in pool;
      }
    }
    SortedIsAscending(s);
  }
}

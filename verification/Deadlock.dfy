/** The search for a deadlock victim in a wait-for graph: every simple path out of every
    waiting transaction is enumerated with an explicit stack. */
module Deadlock {
  import opened Base

  type TxId = nat
  type Graph = map<TxId, set<TxId>>

  predicate Edge(g: Graph, a: TxId, b: TxId) {
    a in g && b in g[a]
  }

  ghost predicate Walk(g: Graph, p: seq<TxId>) {
    p != [] && forall i | 0 <= i < |p| - 1 :: Edge(g, p[i], p[i + 1])
  }

  function Last(p: seq<TxId>): TxId
    requires p != []
  {
    p[|p| - 1]
  }

  ghost predicate ClosedWalk(g: Graph, c: seq<TxId>) {
    2 <= |c| && Walk(g, c) && c[0] == Last(c)
  }

  ghost predicate OnCycle(g: Graph, x: TxId) {
    exists c :: ClosedWalk(g, c) && c[0] == x
  }

  ghost function CycleMembers(g: Graph): set<TxId> {
    set x | x in g && OnCycle(g, x)
  }

  ghost function MaxOf(s: set<TxId>): (m: TxId)
    requires s != {}
    ensures m in s && forall x | x in s :: x <= m
  {
    var x :| x in s;
    if s == {x} then x
    else
      assert s - {x} != {};
      assert forall y | y in s :: y == x || y in s - {x};
      var m := MaxOf(s - {x});
      if m < x then x else m
  }

  /** The transaction to abort: the largest one lying on any cycle. */
  ghost function Victim(g: Graph): Option<TxId> {
    if CycleMembers(g) == {} then None else Some(MaxOf(CycleMembers(g)))
  }

  ghost predicate Distinct(p: seq<TxId>) {
    forall i, j | 0 <= i < j < |p| :: p[i] != p[j]
  }

  ghost predicate SimplePath(g: Graph, origin: TxId, p: seq<TxId>) {
    Walk(g, p) && p[0] == origin && Distinct(p)
  }

  // ---- paths and cycles ----

  lemma EdgeTargetOnCycle(g: Graph, c: seq<TxId>, i: nat)
    requires ClosedWalk(g, c) && i < |c|
    ensures OnCycle(g, c[i]) && c[i] in CycleMembers(g)
  {
    if i == |c| - 1 {
      assert Edge(g, c[0], c[1]);
    } else {
      var turned := c[i..] + c[1..i + 1];
      forall k | 0 <= k < |turned| - 1 ensures Edge(g, turned[k], turned[k + 1]) {
        var j := if i + k < |c| - 1 then i + k else i + k - (|c| - 1);
        assert turned[k] == c[j] && turned[k + 1] == c[j + 1];
      }
      assert ClosedWalk(g, turned) && turned[0] == c[i];
      assert Edge(g, turned[0], turned[1]);
    }
  }

  lemma ClosingPathIsCycle(g: Graph, origin: TxId, p: seq<TxId>, x: TxId)
    requires SimplePath(g, origin, p) && Edge(g, Last(p), origin) && x in p
    ensures x in CycleMembers(g)
  {
    var c := p + [origin];
    assert ClosedWalk(g, c);
    var i :| 0 <= i < |p| && p[i] == x;
    EdgeTargetOnCycle(g, c, i);
  }

  /** A walk that can be closed can be closed without repeating a node. */
  lemma {:induction false} CutRepeats(g: Graph, origin: TxId, p: seq<TxId>) returns (simple: seq<TxId>)
    requires Walk(g, p) && p[0] == origin && Edge(g, Last(p), origin)
    ensures SimplePath(g, origin, simple) && Edge(g, Last(simple), origin)
    decreases |p|
  {
    if Distinct(p) {
      simple := p;
    } else {
      var i, j :| 0 <= i < j < |p| && p[i] == p[j];
      var shorter := p[..i] + p[j..];
      assert forall k | 0 <= k < |shorter| :: shorter[k] == if k < i then p[k] else p[k + (j - i)];
      assert shorter[0] == origin;
      simple := CutRepeats(g, origin, shorter);
    }
  }

  lemma CycleHasClosingPath(g: Graph, origin: TxId) returns (simple: seq<TxId>)
    requires OnCycle(g, origin)
    ensures SimplePath(g, origin, simple) && Edge(g, Last(simple), origin)
  {
    var c :| ClosedWalk(g, c) && c[0] == origin;
    var p := c[..|c| - 1];
    assert Edge(g, c[|c| - 2], c[|c| - 1]);
    simple := CutRepeats(g, origin, p);
  }

  // ---- the bound on the work still on the stack ----

  ghost function Nodes(g: Graph): set<TxId> {
    g.Keys + set a, b | a in g && b in g[a] :: b
  }

  lemma {:induction false} DistinctFits(p: seq<TxId>, nodes: set<TxId>)
    requires Distinct(p) && forall x | x in p :: x in nodes
    ensures |p| <= |nodes|
    ensures |p| == |nodes| ==> forall x | x in nodes :: x in p
  {
    if p == [] {
      assert |nodes| == 0 ==> nodes == {};
    } else {
      var x, rest := Last(p), p[..|p| - 1];
      assert p == rest + [x];
      forall y | y in rest ensures y in nodes - {x} {
        assert y in p;
      }
      DistinctFits(rest, nodes - {x});
      assert nodes == nodes - {x} + {x};
    }
  }

  ghost function Weight(fanout: nat, room: nat): nat {
    if room == 0 then 1 else 1 + Times(fanout, Weight(fanout, room - 1))
  }

  ghost function Times(n: nat, w: nat): nat {
    if n == 0 then 0 else w + Times(n - 1, w)
  }

  lemma TimesMonotone(m: nat, n: nat, w: nat)
    requires m <= n
    ensures Times(m, w) <= Times(n, w)
  {
  }

  lemma TimesZero(n: nat)
    ensures Times(n, 0) == 0
  {
  }

  datatype Frame = Frame(current: TxId, path: seq<TxId>)

  ghost predicate Good(g: Graph, origin: TxId, f: Frame) {
    SimplePath(g, origin, f.path) && f.current == Last(f.path) && |f.path| <= |Nodes(g)|
  }

  ghost function StackWeight(size: nat, stack: seq<Frame>): nat
    requires forall f | f in stack :: |f.path| <= size
  {
    if stack == [] then 0
    else StackWeight(size, stack[..|stack| - 1]) + Weight(size, size - |stack[|stack| - 1].path|)
  }

  /** What one successor of a frame whose path has length `length` may add to the stack. */
  ghost function Share(size: nat, length: nat): nat {
    if length < size then Weight(size, size - length - 1) else 0
  }

  /** A popped frame weighed more than all its successors can add. */
  lemma PoppedWeight(size: nat, stack: seq<Frame>, f: Frame, rest: seq<Frame>, fanout: nat)
    requires stack != [] && f == stack[|stack| - 1] && rest == stack[..|stack| - 1] && fanout <= size
    requires forall h | h in stack :: |h.path| <= size
    ensures StackWeight(size, rest) + Times(fanout, Share(size, |f.path|)) < StackWeight(size, stack)
  {
    if size == |f.path| {
      TimesZero(fanout);
    } else {
      TimesMonotone(fanout, size, Share(size, |f.path|));
    }
  }

  lemma SimplePathFits(g: Graph, origin: TxId, p: seq<TxId>)
    requires SimplePath(g, origin, p) && origin in g
    ensures |p| <= |Nodes(g)|
    ensures |p| == |Nodes(g)| ==> forall x | x in Nodes(g) :: x in p
  {
    forall x | x in p ensures x in Nodes(g) {
      var i :| 0 <= i < |p| && p[i] == x;
      if 0 < i {
        assert Edge(g, p[i - 1], p[i]);
      }
    }
    DistinctFits(p, Nodes(g));
  }

  lemma ExtendPath(g: Graph, origin: TxId, f: Frame, next: TxId)
    requires Good(g, origin, f) && origin in g && Edge(g, f.current, next) && next !in f.path
    ensures Good(g, origin, Frame(next, f.path + [next])) && |f.path| < |Nodes(g)|
  {
    var p := f.path + [next];
    assert forall i | 0 <= i < |p| - 1 :: Edge(g, p[i], p[i + 1]) by {
      forall i | 0 <= i < |p| - 1 ensures Edge(g, p[i], p[i + 1]) {
        if i < |f.path| - 1 {
          assert Edge(g, f.path[i], f.path[i + 1]);
        }
      }
    }
    SimplePathFits(g, origin, p);
  }

  lemma FanoutFits(g: Graph, a: TxId)
    requires a in g
    ensures |g[a]| <= |Nodes(g)|
  {
    assert g[a] <= Nodes(g);
    SubsetIsSmaller(g[a], Nodes(g));
  }

  // ---- which simple paths the stack still stands for ----

  ghost predicate Covered(stack: seq<Frame>, p: seq<TxId>) {
    exists i | 0 <= i < |stack| :: stack[i].path <= p
  }

  /** If this path closes a cycle, its origin has been recorded. */
  ghost predicate Settled(g: Graph, origin: TxId, members: set<TxId>, p: seq<TxId>)
    requires p != []
  {
    Edge(g, Last(p), origin) ==> origin in members
  }

  /** The path continues `path` through a successor not looked at yet, or is `path` itself
      with the way back to the origin not looked at yet. */
  predicate ThroughPending(origin: TxId, path: seq<TxId>, pending: set<TxId>, p: seq<TxId>) {
    path <= p && (if |p| == |path| then origin in pending else p[|path|] in pending)
  }

  ghost predicate Accounted(g: Graph, origin: TxId, stack: seq<Frame>, members: set<TxId>,
                            path: seq<TxId>, pending: set<TxId>)
  {
    forall p | SimplePath(g, origin, p) ::
      Covered(stack, p) || Settled(g, origin, members, p) || ThroughPending(origin, path, pending, p)
  }

  lemma CoveredByMore(stack: seq<Frame>, f: Frame, p: seq<TxId>)
    ensures Covered(stack + [f], p) <==> Covered(stack, p) || f.path <= p
  {
    if Covered(stack, p) {
      var i :| 0 <= i < |stack| && stack[i].path <= p;
      assert (stack + [f])[i].path <= p;
    }
    if f.path <= p {
      assert (stack + [f])[|stack|].path <= p;
    }
  }

  lemma PopAccounts(g: Graph, origin: TxId, stack: seq<Frame>, members: set<TxId>)
    requires stack != [] && Accounted(g, origin, stack, members, [], {})
    requires Good(g, origin, stack[|stack| - 1])
    ensures var f := stack[|stack| - 1];
            Accounted(g, origin, stack[..|stack| - 1], members, f.path, if f.current in g then g[f.current] else {})
  {
    var f, rest := stack[|stack| - 1], stack[..|stack| - 1];
    var pending := if f.current in g then g[f.current] else {};
    forall p | SimplePath(g, origin, p)
      ensures Covered(rest, p) || Settled(g, origin, members, p) || ThroughPending(origin, f.path, pending, p)
    {
      CoveredByMore(rest, f, p);
      assert rest + [f] == stack;
      if f.path <= p {
        if |p| == |f.path| {
          assert p == f.path;
        } else {
          assert Edge(g, p[|f.path| - 1], p[|f.path|]);
        }
      }
    }
  }

  lemma BackEdgeAccounts(g: Graph, origin: TxId, stack: seq<Frame>, members: set<TxId>, f: Frame, pending: set<TxId>)
    requires Accounted(g, origin, stack, members, f.path, pending) && Good(g, origin, f)
    ensures Accounted(g, origin, stack, members + (set x | x in f.path) + {origin}, f.path, pending - {origin})
  {
    var more := members + (set x | x in f.path) + {origin};
    forall p | SimplePath(g, origin, p)
      ensures Covered(stack, p) || Settled(g, origin, more, p) || ThroughPending(origin, f.path, pending - {origin}, p)
    {
    }
  }

  lemma SkipAccounts(g: Graph, origin: TxId, stack: seq<Frame>, members: set<TxId>, f: Frame, pending: set<TxId>,
                     next: TxId)
    requires Accounted(g, origin, stack, members, f.path, pending) && Good(g, origin, f)
    requires next != origin && next in f.path
    ensures Accounted(g, origin, stack, members, f.path, pending - {next})
  {
    forall p | SimplePath(g, origin, p) && ThroughPending(origin, f.path, pending, p)
      ensures ThroughPending(origin, f.path, pending - {next}, p)
    {
      if |p| > |f.path| {
        var i :| 0 <= i < |f.path| && f.path[i] == next;
        assert p[i] == next;
      }
    }
  }

  lemma PushAccounts(g: Graph, origin: TxId, stack: seq<Frame>, members: set<TxId>, f: Frame, pending: set<TxId>,
                     next: TxId)
    requires Accounted(g, origin, stack, members, f.path, pending) && Good(g, origin, f) && next != origin
    ensures Accounted(g, origin, stack + [Frame(next, f.path + [next])], members, f.path, pending - {next})
  {
    var pushed := Frame(next, f.path + [next]);
    forall p | SimplePath(g, origin, p)
      ensures Covered(stack + [pushed], p) || Settled(g, origin, members, p)
              || ThroughPending(origin, f.path, pending - {next}, p)
    {
      CoveredByMore(stack, pushed, p);
      if ThroughPending(origin, f.path, pending, p) && |p| > |f.path| && p[|f.path|] == next {
        assert pushed.path <= p;
      }
    }
  }

  // ---- the search ----

  ghost predicate AllGood(g: Graph, origin: TxId, stack: seq<Frame>) {
    forall f | f in stack :: Good(g, origin, f)
  }

  /** Following one successor: back to the origin closes a cycle, a node already on the path is
      skipped, any other node is put on the stack. */
  method Follow(g: Graph, origin: TxId, f: Frame, next: TxId, ghost pending: set<TxId>, stack: seq<Frame>,
                members: set<TxId>)
    returns (stack': seq<Frame>, members': set<TxId>)
    requires origin in g && Good(g, origin, f) && AllGood(g, origin, stack) && members <= CycleMembers(g)
    requires next in pending && Edge(g, f.current, next) && Accounted(g, origin, stack, members, f.path, pending)
    ensures AllGood(g, origin, stack') && members <= members' <= CycleMembers(g)
    ensures Accounted(g, origin, stack', members', f.path, pending - {next})
    ensures StackWeight(|Nodes(g)|, stack') <= StackWeight(|Nodes(g)|, stack) + Share(|Nodes(g)|, |f.path|)
  {
    stack', members' := stack, members;
    if next == origin {
      forall x | x in f.path ensures x in CycleMembers(g) {
        ClosingPathIsCycle(g, origin, f.path, x);
      }
      BackEdgeAccounts(g, origin, stack, members, f, pending);
      members' := members + (set x | x in f.path) + {next};
    } else if next in f.path {
      SkipAccounts(g, origin, stack, members, f, pending, next);
    } else {
      ExtendPath(g, origin, f, next);
      PushAccounts(g, origin, stack, members, f, pending, next);
      stack' := stack + [Frame(next, f.path + [next])];
      assert stack'[..|stack'| - 1] == stack;
    }
  }

  /** Following every successor of a frame. */
  method FollowAll(g: Graph, origin: TxId, f: Frame, successors: set<TxId>, stack: seq<Frame>, members: set<TxId>)
    returns (stack': seq<Frame>, members': set<TxId>)
    requires origin in g && Good(g, origin, f) && AllGood(g, origin, stack) && members <= CycleMembers(g)
    requires (forall next | next in successors :: Edge(g, f.current, next))
             && Accounted(g, origin, stack, members, f.path, successors)
    ensures AllGood(g, origin, stack') && members <= members' <= CycleMembers(g)
    ensures Accounted(g, origin, stack', members', f.path, {})
    ensures StackWeight(|Nodes(g)|, stack') <= StackWeight(|Nodes(g)|, stack)
            + Times(|successors|, Share(|Nodes(g)|, |f.path|))
  {
    ghost var size, share := |Nodes(g)|, Share(|Nodes(g)|, |f.path|);
    stack', members' := stack, members;
    var pending := successors;
    while pending != {}
      invariant pending <= successors && members <= members' <= CycleMembers(g)
      invariant AllGood(g, origin, stack') && Accounted(g, origin, stack', members', f.path, pending)
      invariant StackWeight(size, stack') + Times(|pending|, share) <= StackWeight(size, stack)
                + Times(|successors|, share)
      decreases |pending|
    {
      var next :| next in pending;
      stack', members' := Follow(g, origin, f, next, pending, stack', members');
      assert |pending - {next}| == |pending| - 1;
      pending := pending - {next};
    }
  }

  /** All members of the cycles that pass through `origin` are added, and nothing that lies
      on no cycle. */
  method SearchFrom(g: Graph, origin: TxId, found: set<TxId>) returns (members: set<TxId>)
    requires origin in g && found <= CycleMembers(g)
    ensures found <= members <= CycleMembers(g)
    ensures OnCycle(g, origin) ==> origin in members
  {
    members := found;
    ghost var size := |Nodes(g)|;
    SimplePathFits(g, origin, [origin]);
    var stack := [Frame(origin, [origin])];
    StartAccounts(g, origin, stack, members);
    while stack != []
      invariant found <= members <= CycleMembers(g)
      invariant AllGood(g, origin, stack) && Accounted(g, origin, stack, members, [], {})
      decreases StackWeight(size, stack)
    {
      var f, rest := stack[|stack| - 1], stack[..|stack| - 1];
      var successors := if f.current in g then g[f.current] else {};
      PopAccounts(g, origin, stack, members);
      if f.current in g {
        FanoutFits(g, f.current);
      }
      PoppedWeight(size, stack, f, rest, |successors|);
      stack, members := FollowAll(g, origin, f, successors, rest, members);
      NothingPending(g, origin, stack, members, f.path);
    }
    OriginIsSettled(g, origin, stack, members);
  }

  lemma StartAccounts(g: Graph, origin: TxId, stack: seq<Frame>, members: set<TxId>)
    requires stack == [Frame(origin, [origin])]
    ensures Accounted(g, origin, stack, members, [], {})
  {
    forall p | SimplePath(g, origin, p) ensures Covered(stack, p) {
      assert stack[0].path <= p;
    }
  }

  lemma OriginIsSettled(g: Graph, origin: TxId, stack: seq<Frame>, members: set<TxId>)
    requires stack == [] && Accounted(g, origin, stack, members, [], {})
    ensures OnCycle(g, origin) ==> origin in members
  {
    if OnCycle(g, origin) {
      var p := CycleHasClosingPath(g, origin);
      assert Settled(g, origin, members, p);
    }
  }

  lemma NothingPending(g: Graph, origin: TxId, stack: seq<Frame>, members: set<TxId>, path: seq<TxId>)
    requires Accounted(g, origin, stack, members, path, {})
    ensures Accounted(g, origin, stack, members, [], {})
  {
  }

  method Largest(members: set<TxId>) returns (largest: Option<TxId>)
    ensures largest == if members == {} then None else Some(MaxOf(members))
  {
    largest := None;
    var pending := members;
    while pending != {}
      invariant pending <= members
      invariant largest.None? ==> pending == members
      invariant largest.Some? ==> largest.value in members
      invariant largest.Some? ==> forall y | y in members && y !in pending :: y <= largest.value
    {
      var x :| x in pending;
      if largest.None? || largest.value < x {
        largest := Some(x);
      }
      pending := pending - {x};
    }
    if members != {} {
      assert largest.value == MaxOf(members);
    }
  }

  /** The victim search returns the largest transaction lying on any cycle, and nothing
      exactly when the graph has no cycle. */
  method DeadlockVictim(g: Graph) returns (victim: Option<TxId>)
    ensures victim == Victim(g)
  {
    var members: set<TxId> := {};
    var origins := g.Keys;
    while origins != {}
      invariant origins <= g.Keys && members <= CycleMembers(g)
      invariant CycleMembers(g) - origins <= members
    {
      var origin :| origin in origins;
      members := SearchFrom(g, origin, members);
      origins := origins - {origin};
    }
    assert members == CycleMembers(g);
    victim := Largest(members);
  }

  /** No victim is named exactly when no walk returns to its start. */
  lemma NoVictimIffAcyclic(g: Graph)
    ensures Victim(g).None? <==> forall c :: !ClosedWalk(g, c)
    ensures Victim(g).Some? ==> OnCycle(g, Victim(g).value)
    ensures Victim(g).Some? ==> forall c, i | ClosedWalk(g, c) && 0 <= i < |c| :: c[i] <= Victim(g).value
  {
    forall c, i | ClosedWalk(g, c) && 0 <= i < |c|
      ensures Victim(g).Some? && c[i] <= Victim(g).value
    {
      EdgeTargetOnCycle(g, c, i);
    }
    if forall c :: !ClosedWalk(g, c) {
      assert forall x | x in CycleMembers(g) :: false;
    } else {
      var c :| ClosedWalk(g, c);
      EdgeTargetOnCycle(g, c, 0);
    }
  }
}

/** Serializable snapshot isolation: the registered transactions, the read/write
    dependency edges between them, and what every operation does to both. */
module Ssi {
  import opened Base
  import opened PredicateLocks

  type TxId = nat

  datatype Snapshot = Snapshot(xmax: TxId, inProgress: set<TxId>)

  datatype Transaction = Transaction(
    snapshot: Snapshot,
    readOnly: bool,
    committed: bool,
    readSet: set<PredicateLock>,
    writeSet: set<PredicateLock>,
    incoming: set<TxId>,
    outgoing: set<TxId>)

  datatype Savepoint = Savepoint(readSet: set<PredicateLock>, writeSet: set<PredicateLock>)

  datatype Options = Options(maximumTransactions: nat, maximumPredicates: nat)

  type State = map<TxId, Transaction>

  /** The reader did not see what the writer wrote. */
  predicate HasEdge(s: State, reader: TxId, writer: TxId) {
    reader in s && writer in s[reader].outgoing
  }

  /** The writer's effects are part of the reader's snapshot. */
  predicate VisibleTo(s: State, writer: TxId, snapshot: Snapshot)
    requires writer in s
  {
    s[writer].committed && writer < snapshot.xmax && writer !in snapshot.inProgress
  }

  predicate RwConflict(s: State, reader: TxId, writer: TxId)
    requires reader in s && writer in s
  {
    PredicatesOverlap(s[reader].readSet, s[writer].writeSet)
  }

  /** The state after recording an edge from each of `readers` to `t` and from `t` to each of
      `writers`, on both ends. */
  function Link(s: State, t: TxId, readers: set<TxId>, writers: set<TxId>): State {
    map id | id in s ::
      if id == t then s[id].(outgoing := s[id].outgoing + writers, incoming := s[id].incoming + readers)
      else s[id].(outgoing := if id in readers then s[id].outgoing + {t} else s[id].outgoing,
                  incoming := if id in writers then s[id].incoming + {t} else s[id].incoming)
  }

  /** The state in which no transaction other than `t` mentions `t`. */
  function Forget(s: State, t: TxId): State {
    map id | id in s :: s[id].(incoming := s[id].incoming - {t}, outgoing := s[id].outgoing - {t})
  }

  /** One edge, recorded on the reader first: an unregistered writer is noticed too late to undo that. */
  function AddDependency(s: State, reader: TxId, writer: TxId): (State, Outcome) {
    if reader !in s then (s, Failed("25P01"))
    else
      var s1 := s[reader := s[reader].(outgoing := s[reader].outgoing + {writer})];
      if writer !in s then (s1, Failed("25P01"))
      else (s1[writer := s1[writer].(incoming := s1[writer].incoming + {reader})], Done)
  }

  function Begin(options: Options, s: State, t: TxId, snapshot: Snapshot, readOnly: bool): (State, Outcome) {
    if |s| >= options.maximumTransactions then (s, Failed("54000"))
    else (s[t := Transaction(snapshot, readOnly, false, {}, {}, {}, {})],
          if t in s then Failed("25001") else Done)
  }

  function UnseenWriters(s: State, t: TxId, p: PredicateLock): set<TxId>
    requires t in s
  {
    set o | o in s && o != t && !VisibleTo(s, o, s[t].snapshot) && OverlapsAny(p, s[o].writeSet)
  }

  function OverlappingReaders(s: State, t: TxId, p: PredicateLock): set<TxId> {
    set o | o in s && o != t && OverlapsAny(p, s[o].readSet)
  }

  function RecordRead(options: Options, s: State, t: TxId, p: PredicateLock): (State, Outcome) {
    if t !in s then (s, Failed("25P01"))
    else if |s[t].readSet| >= options.maximumPredicates then (s, Failed("54000"))
    else (Link(s[t := s[t].(readSet := s[t].readSet + {p})], t, {}, UnseenWriters(s, t, p)), Done)
  }

  function RecordWrite(options: Options, s: State, t: TxId, p: PredicateLock): (State, Outcome) {
    if t !in s then (s, Failed("25P01"))
    else if |s[t].writeSet| >= options.maximumPredicates then (s, Failed("54000"))
    else (Link(s[t := s[t].(writeSet := s[t].writeSet + {p})], t, OverlappingReaders(s, t, p), {}), Done)
  }

  function RefreshSnapshot(s: State, t: TxId, snapshot: Snapshot): (State, Outcome) {
    if t !in s then (s, Failed("25P01"))
    else if s[t].committed then (s, Failed("25000"))
    else if s[t].snapshot == snapshot then (s, Done)
    else if s[t].readSet != {} || s[t].writeSet != {} then (s, Failed("25001"))
    else (s[t := s[t].(snapshot := snapshot)], Done)
  }

  predicate HasCommittedIncoming(s: State, t: TxId)
    requires t in s
  {
    exists r | r in s[t].incoming :: r in s && s[r].committed
  }

  function Commit(s: State, t: TxId): (State, Outcome) {
    if t !in s then (s, Failed("25P01"))
    else if HasCommittedIncoming(s, t) && s[t].outgoing != {} then (s - {t}, Failed("40001"))
    else (s[t := s[t].(committed := true)], Done)
  }

  function TakeSavepoint(s: State, t: TxId): Result<Savepoint> {
    if t !in s then Err("25P01")
    else if s[t].committed then Err("25000")
    else Ok(Savepoint(s[t].readSet, s[t].writeSet))
  }

  function ReadersOf(s: State, t: TxId, writeSet: set<PredicateLock>): set<TxId> {
    set o | o in s && o != t && PredicatesOverlap(s[o].readSet, writeSet)
  }

  function WritersOf(s: State, t: TxId, readSet: set<PredicateLock>): set<TxId> {
    set o | o in s && o != t && PredicatesOverlap(readSet, s[o].writeSet)
  }

  function RollbackTo(s: State, t: TxId, sp: Savepoint): (State, Outcome) {
    if t !in s then (s, Failed("25P01"))
    else if s[t].committed then (s, Failed("25000"))
    else
      var restored := s[t := s[t].(readSet := sp.readSet, writeSet := sp.writeSet, incoming := {}, outgoing := {})];
      (Link(Forget(restored, t), t, ReadersOf(s, t, sp.writeSet), WritersOf(s, t, sp.readSet)), Done)
  }

  function Abort(s: State, t: TxId): State {
    Forget(s - {t}, t)
  }

  predicate Removable(s: State, t: TxId, horizon: TxId)
    requires t in s
  {
    s[t].committed && t < horizon && s[t].snapshot.xmax < horizon
  }

  /** Dropping a set of transactions and every mention of them. */
  function Without(s: State, gone: set<TxId>): State {
    map id | id in s && id !in gone ::
      s[id].(incoming := s[id].incoming - gone, outgoing := s[id].outgoing - gone)
  }

  function CleanupBefore(s: State, horizon: TxId): State {
    Without(s, set t | t in s && Removable(s, t, horizon))
  }

  // ---- the ways a call is refused ----

  /** A transaction that begins again is registered afresh, without what it had recorded, before the
      duplicate is reported; all others stay as they are. */
  lemma BeginningAgainForgets(options: Options, s: State, t: TxId, snapshot: Snapshot, readOnly: bool)
    requires t in s && |s| < options.maximumTransactions
    ensures var (after, outcome) := Begin(options, s, t, snapshot, readOnly);
            && outcome == Failed("25001") && after.Keys == s.Keys
            && after[t].snapshot == snapshot && !after[t].committed
            && after[t].readSet == {} && after[t].writeSet == {} && after[t].incoming == {} && after[t].outgoing == {}
            && forall other | other in s && other != t :: after[other] == s[other]
  {
  }

  /** An edge to a writer that is not registered is refused after the reader has been given its end. */
  lemma HalfAnEdgeStays(s: State, reader: TxId, writer: TxId)
    requires reader in s && writer !in s
    ensures var (after, outcome) := AddDependency(s, reader, writer);
            && outcome == Failed("25P01") && after.Keys == s.Keys && HasEdge(after, reader, writer)
            && forall id, other | id in s && (id != reader || other != writer) ::
                 other in after[id].outgoing <==> other in s[id].outgoing
  {
  }

  /** What each refusal is reported as; a refused call leaves the state as it was, but for a refused
      commit, which removes its transaction. */
  lemma RefusalsAre(options: Options, s: State, t: TxId, p: PredicateLock, snapshot: Snapshot, sp: Savepoint)
    ensures t !in s ==>
              && RecordRead(options, s, t, p) == RecordWrite(options, s, t, p) == (s, Failed("25P01"))
              && RefreshSnapshot(s, t, snapshot) == Commit(s, t) == RollbackTo(s, t, sp) == (s, Failed("25P01"))
              && TakeSavepoint(s, t) == Err("25P01")
    ensures t in s ==>
              && (|s[t].readSet| >= options.maximumPredicates ==>
                    RecordRead(options, s, t, p) == (s, Failed("54000")))
              && (|s[t].writeSet| >= options.maximumPredicates ==>
                    RecordWrite(options, s, t, p) == (s, Failed("54000")))
              && (s[t].committed ==>
                    && RefreshSnapshot(s, t, snapshot) == RollbackTo(s, t, sp) == (s, Failed("25000"))
                    && TakeSavepoint(s, t) == Err("25000"))
              && (!s[t].committed && s[t].snapshot != snapshot && s[t].readSet + s[t].writeSet != {} ==>
                    RefreshSnapshot(s, t, snapshot) == (s, Failed("25001")))
              && (Commit(s, t).1.Failed? ==> Commit(s, t) == (s - {t}, Failed("40001")))
    ensures |s| >= options.maximumTransactions ==>
              forall readOnly :: Begin(options, s, t, snapshot, readOnly) == (s, Failed("54000"))
  {
  }

  lemma LinkNone(s: State, t: TxId)
    ensures Link(s, t, {}, {}) == s
  {
    assert forall id | id in s :: Link(s, t, {}, {})[id] == s[id];
  }

  lemma LinkOneMoreWriter(s: State, t: TxId, readers: set<TxId>, writers: set<TxId>, w: TxId)
    requires t in s && w in s && w != t
    ensures AddDependency(Link(s, t, readers, writers), t, w) == (Link(s, t, readers, writers + {w}), Done)
  {
    var added := AddDependency(Link(s, t, readers, writers), t, w).0;
    var linked := Link(s, t, readers, writers + {w});
    forall id | id in s ensures added[id] == linked[id] {
      if id == t {
        assert s[t].outgoing + writers + {w} == s[t].outgoing + (writers + {w});
      } else if id == w && w in writers {
        assert s[w].incoming + {t} + {t} == s[w].incoming + {t};
      }
    }
    assert added == linked;
  }

  lemma LinkOneMoreReader(s: State, t: TxId, readers: set<TxId>, writers: set<TxId>, r: TxId)
    requires t in s && r in s && r != t
    ensures AddDependency(Link(s, t, readers, writers), r, t) == (Link(s, t, readers + {r}, writers), Done)
  {
    var added := AddDependency(Link(s, t, readers, writers), r, t).0;
    var linked := Link(s, t, readers + {r}, writers);
    forall id | id in s ensures added[id] == linked[id] {
      if id == t {
        assert s[t].incoming + readers + {r} == s[t].incoming + (readers + {r});
      } else if id == r && r in readers {
        assert s[r].outgoing + {t} + {t} == s[r].outgoing + {t};
      }
    }
    assert added == linked;
  }

  lemma WithoutNone(s: State)
    ensures Without(s, {}) == s
  {
    assert forall id | id in s :: Without(s, {})[id] == s[id];
  }

  lemma WithoutOneMore(s: State, gone: set<TxId>, t: TxId)
    ensures Abort(Without(s, gone), t) == Without(s, gone + {t})
  {
    forall id | id in s && id !in gone + {t}
      ensures Abort(Without(s, gone), t)[id] == Without(s, gone + {t})[id]
    {
      assert s[id].incoming - gone - {t} == s[id].incoming - (gone + {t});
      assert s[id].outgoing - gone - {t} == s[id].outgoing - (gone + {t});
    }
  }
}

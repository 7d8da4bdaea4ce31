/** The dependency tracker as the program runs it: one object whose methods update the
    map of registered transactions in place.  Each public method runs under one mutex,
    so each is one step of the state machine in `SsiRuns`. */
module SsiTracker {
  import opened Base
  import opened PredicateLocks
  import opened Ssi

  class SsiManager {
    const options: Options
    var transactions: State

    constructor (options: Options)
      requires options.maximumTransactions != 0 && options.maximumPredicates != 0
      ensures this.options == options && transactions == map[]
    {
      this.options := options;
      transactions := map[];
    }

    method Begin(t: TxId, snapshot: Snapshot, readOnly: bool) returns (outcome: Outcome)
      modifies this
      ensures (transactions, outcome) == Ssi.Begin(options, old(transactions), t, snapshot, readOnly)
    {
      if |transactions| >= options.maximumTransactions {
        return Failed("54000");
      }
      var replaced := t in transactions;
      transactions := transactions[t := Transaction(snapshot, readOnly, false, {}, {}, {}, {})];
      return if replaced then Failed("25001") else Done;
    }

    method AddDependency(reader: TxId, writer: TxId) returns (outcome: Outcome)
      modifies this
      ensures (transactions, outcome) == Ssi.AddDependency(old(transactions), reader, writer)
    {
      if reader !in transactions {
        return Failed("25P01");
      }
      transactions :=
        transactions[reader := transactions[reader].(outgoing := transactions[reader].outgoing + {writer})];
      if writer !in transactions {
        return Failed("25P01");
      }
      transactions :=
        transactions[writer := transactions[writer].(incoming := transactions[writer].incoming + {reader})];
      return Done;
    }

    method AddDependencies(t: TxId, readers: set<TxId>, writers: set<TxId>) returns (outcome: Outcome)
      requires t in transactions && readers <= transactions.Keys - {t} && writers <= transactions.Keys - {t}
      modifies this
      ensures outcome == Done && transactions == Link(old(transactions), t, readers, writers)
    {
      ghost var before := transactions;
      LinkNone(before, t);
      var pending := writers;
      assert writers - pending == {};
      while pending != {}
        invariant pending <= writers && transactions == Link(before, t, {}, writers - pending)
      {
        var w :| w in pending;
        LinkOneMoreWriter(before, t, {}, writers - pending, w);
        assert writers - pending + {w} == writers - (pending - {w});
        outcome := AddDependency(t, w);
        pending := pending - {w};
      }
      assert writers - pending == writers;
      pending := readers;
      assert readers - pending == {};
      while pending != {}
        invariant pending <= readers && transactions == Link(before, t, readers - pending, writers)
      {
        var r :| r in pending;
        LinkOneMoreReader(before, t, readers - pending, writers, r);
        assert readers - pending + {r} == readers - (pending - {r});
        outcome := AddDependency(r, t);
        pending := pending - {r};
      }
      assert readers - pending == readers;
      return Done;
    }

    method RecordRead(t: TxId, p: PredicateLock) returns (outcome: Outcome)
      modifies this
      ensures (transactions, outcome) == Ssi.RecordRead(options, old(transactions), t, p)
    {
      if t !in transactions {
        return Failed("25P01");
      }
      if |transactions[t].readSet| >= options.maximumPredicates {
        return Failed("54000");
      }
      var writers := UnseenWriters(transactions, t, p);
      transactions := transactions[t := transactions[t].(readSet := transactions[t].readSet + {p})];
      outcome := AddDependencies(t, {}, writers);
    }

    method RecordWrite(t: TxId, p: PredicateLock) returns (outcome: Outcome)
      modifies this
      ensures (transactions, outcome) == Ssi.RecordWrite(options, old(transactions), t, p)
    {
      if t !in transactions {
        return Failed("25P01");
      }
      if |transactions[t].writeSet| >= options.maximumPredicates {
        return Failed("54000");
      }
      var readers := OverlappingReaders(transactions, t, p);
      transactions := transactions[t := transactions[t].(writeSet := transactions[t].writeSet + {p})];
      outcome := AddDependencies(t, readers, {});
    }

    method RefreshSnapshot(t: TxId, snapshot: Snapshot) returns (outcome: Outcome)
      modifies this
      ensures (transactions, outcome) == Ssi.RefreshSnapshot(old(transactions), t, snapshot)
    {
      if t !in transactions {
        return Failed("25P01");
      }
      if transactions[t].committed {
        return Failed("25000");
      }
      if transactions[t].snapshot == snapshot {
        return Done;
      }
      if transactions[t].readSet != {} || transactions[t].writeSet != {} {
        return Failed("25001");
      }
      transactions := transactions[t := transactions[t].(snapshot := snapshot)];
      return Done;
    }

    method Commit(t: TxId) returns (outcome: Outcome)
      modifies this
      ensures (transactions, outcome) == Ssi.Commit(old(transactions), t)
    {
      if t !in transactions {
        return Failed("25P01");
      }
      if HasCommittedIncoming(transactions, t) && transactions[t].outgoing != {} {
        transactions := transactions - {t};
        return Failed("40001");
      }
      transactions := transactions[t := transactions[t].(committed := true)];
      return Done;
    }

    method TakeSavepoint(t: TxId) returns (sp: Result<Savepoint>)
      ensures sp == Ssi.TakeSavepoint(transactions, t)
    {
      if t !in transactions {
        return Err("25P01");
      }
      if transactions[t].committed {
        return Err("25000");
      }
      return Ok(Savepoint(transactions[t].readSet, transactions[t].writeSet));
    }

    method RollbackTo(t: TxId, sp: Savepoint) returns (outcome: Outcome)
      modifies this
      ensures (transactions, outcome) == Ssi.RollbackTo(old(transactions), t, sp)
    {
      if t !in transactions {
        return Failed("25P01");
      }
      if transactions[t].committed {
        return Failed("25000");
      }
      transactions := transactions[t := transactions[t].(readSet := sp.readSet, writeSet := sp.writeSet,
                                                         incoming := {}, outgoing := {})];
      ClearMentions(t);
      var readers, writers := ReadersOf(transactions, t, sp.writeSet), WritersOf(transactions, t, sp.readSet);
      assert readers == ReadersOf(old(transactions), t, sp.writeSet);
      assert writers == WritersOf(old(transactions), t, sp.readSet);
      outcome := AddDependencies(t, readers, writers);
    }

    method ClearMentions(t: TxId)
      modifies this
      ensures transactions == Forget(old(transactions), t)
    {
      var pending := transactions.Keys;
      while pending != {}
        invariant pending <= old(transactions).Keys == transactions.Keys
        invariant forall id | id in transactions ::
                    transactions[id]
                    == if id in pending then old(transactions)[id] else Forget(old(transactions), t)[id]
      {
        var id :| id in pending;
        transactions := transactions[id := transactions[id].(incoming := transactions[id].incoming - {t},
                                                            outgoing := transactions[id].outgoing - {t})];
        pending := pending - {id};
      }
    }

    method RemoveTransaction(t: TxId)
      modifies this
      ensures transactions == Ssi.Abort(old(transactions), t)
    {
      transactions := transactions - {t};
      ClearMentions(t);
    }

    method Abort(t: TxId)
      modifies this
      ensures transactions == Ssi.Abort(old(transactions), t)
    {
      RemoveTransaction(t);
    }

    method CleanupBefore(horizon: TxId)
      modifies this
      ensures transactions == Ssi.CleanupBefore(old(transactions), horizon)
    {
      ghost var removable := set t | t in transactions && Removable(transactions, t, horizon);
      var pending := set t | t in transactions && Removable(transactions, t, horizon);
      WithoutNone(transactions);
      assert removable - pending == {};
      while pending != {}
        invariant pending <= removable
        invariant transactions == Without(old(transactions), removable - pending)
      {
        var t :| t in pending;
        var rest := pending - {t};
        assert removable - rest == removable - pending + {t};
        WithoutOneMore(old(transactions), removable - pending, t);
        RemoveTransaction(t);
        pending := rest;
      }
      assert removable - pending == removable;
    }
  }
}

/** The rewrite preserves meaning: the plan yields the rows the query asks for, whichever
    access path the costs pick, except when a filter is folded to true that is in fact unknown;
    and nothing depends on the columns outside the required ones. */
module OptimizerMeaning {
  import opened Base
  import opened Optimizer

  // ---- constant filters ----

  datatype Truth = True | False | Unknown | NotConstant

  /** Three-valued truth of an expression built from literals. */
  function Kleene(e: Expr): Truth {
    match e
    case Literal(Boolean(b)) => if b then True else False
    case Literal(Null) => Unknown
    case Unary(Not, operand) =>
      (match Kleene(operand)
       case True => False
       case False => True
       case other => other)
    case Binary(l, op, r) =>
      var lt, rt := Kleene(l), Kleene(r);
      if !(op.And? || op.Or?) || lt.NotConstant? || rt.NotConstant? then NotConstant
      else if op.And? then
        if lt.False? || rt.False? then False else if lt.True? && rt.True? then True else Unknown
      else
        if lt.True? || rt.True? then True else if lt.False? && rt.False? then False else Unknown
    case _ => NotConstant
  }

  function AsValue(t: Truth): Value
    requires !t.NotConstant?
  {
    if t.Unknown? then Null else Boolean(t.True?)
  }

  /** The one misjudgement: the filter is unknown, but folded to true. */
  predicate FoldsUnknownToTrue(filter: Expr) {
    ConstantTruth(filter) == Some(true) && Kleene(filter).Unknown?
  }

  /** A folded filter is a constant, with the folded truth unless it is unknown. */
  lemma {:induction false} FoldingAgreesUnlessUnknown(env: Env, e: Expr, row: Row)
    ensures ConstantTruth(e).Some? <==> !Kleene(e).NotConstant?
    ensures !Kleene(e).NotConstant? ==> Eval(env, e, row) == Ok(AsValue(Kleene(e)))
    ensures !Kleene(e).NotConstant? && !Kleene(e).Unknown? ==> ConstantTruth(e) == Some(Kleene(e).True?)
    decreases e
  {
    if e.Unary? && e.unary.Not? {
      FoldingAgreesUnlessUnknown(env, e.operand, row);
    } else if e.Binary? {
      FoldingAgreesUnlessUnknown(env, e.left, row);
      FoldingAgreesUnlessUnknown(env, e.right, row);
    }
  }

  predicate HasNull(e: Expr) {
    match e
    case Literal(v) => v.Null?
    case Unary(_, operand) => HasNull(operand)
    case Binary(l, _, r) => HasNull(l) || HasNull(r)
    case _ => false
  }

  predicate NoNullBeneathNot(e: Expr) {
    match e
    case Unary(op, operand) => (op.Not? ==> !HasNull(operand)) && NoNullBeneathNot(operand)
    case Binary(l, _, r) => NoNullBeneathNot(l) && NoNullBeneathNot(r)
    case _ => true
  }

  lemma {:induction false} NoNullIsKnown(e: Expr)
    requires !HasNull(e)
    ensures !Kleene(e).Unknown?
  {
    if e.Unary? {
      NoNullIsKnown(e.operand);
    } else if e.Binary? {
      NoNullIsKnown(e.left);
      NoNullIsKnown(e.right);
    }
  }

  /** Without a NULL beneath NOT the misjudgement cannot happen. */
  lemma {:induction false} NoNullBeneathNotFoldsRight(env: Env, e: Expr)
    requires NoNullBeneathNot(e)
    ensures !FoldsUnknownToTrue(e)
  {
    if e.Unary? && e.unary.Not? {
      NoNullIsKnown(e.operand);
    } else if e.Binary? {
      NoNullBeneathNotFoldsRight(env, e.left);
      NoNullBeneathNotFoldsRight(env, e.right);
      FoldingAgreesUnlessUnknown(env, e.left, []);
      FoldingAgreesUnlessUnknown(env, e.right, []);
    }
  }

  lemma {:induction false} ConstantFilter(env: Env, filter: Expr, rows: seq<Row>)
    requires !Kleene(filter).NotConstant?
    ensures FilterRows(env, filter, rows) == Ok(if Kleene(filter).True? then rows else [])
  {
    if rows != [] {
      FoldingAgreesUnlessUnknown(env, filter, rows[0]);
      ConstantFilter(env, filter, rows[1..]);
      assert rows == [rows[0]] + rows[1..];
    }
  }

  /** The rows that pass a filter; a row on which it fails does not pass. */
  function Passing(env: Env, filter: Expr, rows: seq<Row>): seq<Row> {
    if rows == [] then []
    else if Matches(env, filter, rows[0]) == Ok(true) then [rows[0]] + Passing(env, filter, rows[1..])
    else Passing(env, filter, rows[1..])
  }

  ghost predicate Evaluates(env: Env, filter: Expr, rows: seq<Row>) {
    forall row | row in rows :: Matches(env, filter, row).Ok?
  }

  lemma {:induction false} FilterRowsIsPassing(env: Env, filter: Expr, rows: seq<Row>)
    ensures FilterRows(env, filter, rows).Ok? <==> Evaluates(env, filter, rows)
    ensures FilterRows(env, filter, rows).Ok? ==> FilterRows(env, filter, rows).value == Passing(env, filter, rows)
  {
    if rows != [] {
      FilterRowsIsPassing(env, filter, rows[1..]);
      assert rows == [rows[0]] + rows[1..];
      assert forall row | row in rows[1..] :: row in rows;
    }
  }

  lemma {:induction false} PassingCount(env: Env, filter: Expr, rows: seq<Row>, row: Row)
    ensures multiset(Passing(env, filter, rows))[row]
         == if Matches(env, filter, row) == Ok(true) then multiset(rows)[row] else 0
  {
    if rows != [] {
      PassingCount(env, filter, rows[1..], row);
      assert rows == [rows[0]] + rows[1..];
    }
  }

  // ---- index scans ----

  /** Swapping the operands of a comparison reverses its operator. */
  lemma ReverseMeansSwapped(library: Library, op: BinaryOp, a: Value, b: Value)
    requires Lawful(library) && Indexable(op)
    ensures EvalBinary(library, op, a, b).Ok? ==>
              EvalBinary(library, Reverse(op), b, a) == EvalBinary(library, op, a, b)
  {
    if !a.Null? && !b.Null? && library.compare(a, b).Ok? {
      assert library.compare(b, a) == Ok(-library.compare(a, b).value);
    }
  }

  lemma KeyIsTheSameEverywhere(env: Env, key: Expr, row: Row)
    requires IsKey(key)
    ensures Eval(env, key, row) == Eval(env, key, [])
  {
  }

  predicate Accepts(env: Env, op: BinaryOp, value: Value, key: Expr) {
    Eval(env, key, []).Ok? && EvalBinary(env.library, op, value, Eval(env, key, []).value) == Ok(Boolean(true))
  }

  /** With the column first, a filter that compares it with a key accepts the same rows. */
  lemma FilterAcceptsColumnFirst(env: Env, filter: Expr, column: nat, op: BinaryOp, key: Expr, row: Row)
    requires Lawful(env.library) && ColumnFirst(filter) == Some((column, op, key))
    ensures Matches(env, filter, row) == Ok(true) <==> column < |row| && Accepts(env, op, row[column], key)
  {
    KeyIsTheSameEverywhere(env, key, row);
    var l, r := Eval(env, filter.left, row), Eval(env, filter.right, row);
    assert l.Err? || r.Err? ==> Eval(env, filter, row).Err?;
    if l.Ok? && r.Ok? {
      var v := Eval(env, key, []).value;
      if filter.left.Column? && IsKey(filter.right) {
        assert Eval(env, filter, row) == EvalBinary(env.library, op, row[column], v);
      } else {
        assert Eval(env, filter, row) == EvalBinary(env.library, filter.op, v, row[column]);
        assert filter.op == Reverse(op);
        ReverseMeansSwapped(env.library, op, row[column], v);
        ReverseMeansSwapped(env.library, filter.op, v, row[column]);
      }
    }
  }

  /** A row the comparison accepts, at a place in the index outside the range of its key. */
  predicate IndexMisses(env: Env, access: Access, row: Row)
    requires access.ByIndex? && ScanKey(env, access.key, access.dataType).Ok?
  {
    && access.column < |row| && Accepts(env, access.operator, row[access.column], access.key)
    && !OrderHolds(access.operator,
                   env.library.keyOrder(row[access.column], ScanKey(env, access.key, access.dataType).value))
  }

  lemma FirstFound(env: Env, nullKeys: bool, filter: Expr, access: Access, rows: seq<Row>)
    requires Lawful(env.library) && access.ByIndex? && KeyReady(env, access) && rows != []
    requires ColumnFirst(filter) == Some((access.column, access.operator, access.key))
    ensures Found(env, nullKeys, filter, access, rows)
         == if Matches(env, filter, rows[0]) == Ok(true) && !IndexMisses(env, access, rows[0])
            then [rows[0]] + Found(env, nullKeys, filter, access, rows[1..])
            else Found(env, nullKeys, filter, access, rows[1..])
    ensures IndexMisses(env, access, rows[0]) ==> Matches(env, filter, rows[0]) == Ok(true)
    ensures Matches(env, filter, rows[0]) == Ok(true) ==> !ScanKey(env, access.key, access.dataType).value.Null?
  {
    FilterAcceptsColumnFirst(env, filter, access.column, access.operator, access.key, rows[0]);
    var key := ScanKey(env, access.key, access.dataType).value;
    var reached := IndexRows(env, nullKeys, access.column, access.operator, key, rows[1..]);
    assert ([rows[0]] + reached)[1..] == reached;
  }

  lemma FewerAreNotMore(few: seq<Row>, many: seq<Row>, row: Row)
    requires multiset(few) <= multiset(many)
    ensures few != [row] + many && multiset(few) <= multiset([row] + many)
    ensures multiset([row] + few) <= multiset([row] + many)
  {
    assert multiset(many) == multiset(few) + (multiset(many) - multiset(few));
    assert |multiset(few)| <= |multiset(many)|;
  }

  /** The rows an index scan finds and the filter keeps. */
  function Found(env: Env, nullKeys: bool, filter: Expr, access: Access, rows: seq<Row>): seq<Row>
    requires access.ByIndex? && KeyReady(env, access)
  {
    var key := ScanKey(env, access.key, access.dataType).value;
    Passing(env, filter, IndexRows(env, nullKeys, access.column, access.operator, key, rows))
  }

  ghost predicate MissesNone(env: Env, access: Access, rows: seq<Row>)
    requires access.ByIndex? && KeyReady(env, access)
  {
    forall row | row in rows :: !IndexMisses(env, access, row)
  }

  /** The index finds only rows that pass, and all of them exactly if it misses none. */
  lemma {:induction false} IndexFindsPassing(env: Env, nullKeys: bool, filter: Expr, access: Access, rows: seq<Row>)
    requires Lawful(env.library) && access.ByIndex? && KeyReady(env, access)
    requires ColumnFirst(filter) == Some((access.column, access.operator, access.key))
    ensures multiset(Found(env, nullKeys, filter, access, rows)) <= multiset(Passing(env, filter, rows))
    ensures Found(env, nullKeys, filter, access, rows) == Passing(env, filter, rows) <==> MissesNone(env, access, rows)
    ensures ScanKey(env, access.key, access.dataType).value.Null? ==>
              Passing(env, filter, rows) == [] && MissesNone(env, access, rows)
  {
    if rows != [] {
      var first, later := rows[0], rows[1..];
      IndexFindsPassing(env, nullKeys, filter, access, later);
      FirstFound(env, nullKeys, filter, access, rows);
      assert rows == [first] + later;
      assert MissesNone(env, access, rows) <==> !IndexMisses(env, access, first) && MissesNone(env, access, later);
      FewerAreNotMore(Found(env, nullKeys, filter, access, later), Passing(env, filter, later), first);
      if Matches(env, filter, first) == Ok(true) && !IndexMisses(env, access, first) {
        SameTail(first, Found(env, nullKeys, filter, access, later), Passing(env, filter, later));
      }
    }
  }

  lemma SameTail(row: Row, a: seq<Row>, b: seq<Row>)
    ensures [row] + a == [row] + b <==> a == b
  {
    assert ([row] + a)[1..] == a && ([row] + b)[1..] == b;
  }

  // ---- the theorem ----

  lemma CandidateComesFromComparison(table: Table, filter: Expr)
    requires IndexCandidate(table, filter).Some?
    ensures var access := IndexCandidate(table, filter).value;
            && access.ByIndex? && ColumnFirst(filter) == Some((access.column, access.operator, access.key))
            && access.column < |table.columns| && access.dataType == table.columns[access.column].dataType
  {
  }

  /** The access path can be set up: an index scan needs a key that evaluates and can be coerced
      to the column's type. */
  predicate KeyReady(env: Env, access: Access) {
    access.ByIndex? ==> ScanKey(env, access.key, access.dataType).Ok?
  }

  /** An index scan can be set up and its range holds every row it should. */
  ghost predicate IndexServes(env: Env, access: Access, rows: seq<Row>) {
    access.ByIndex? ==> KeyReady(env, access) && MissesNone(env, access, rows)
  }

  lemma {:induction false} IndexRowsAreReached(env: Env, nullKeys: bool, column: nat, op: BinaryOp, key: Value,
                                               rows: seq<Row>)
    ensures forall row :: row in IndexRows(env, nullKeys, column, op, key, rows)
                          <==> row in rows && IndexReaches(env, nullKeys, column, op, key, row)
  {
    if rows != [] {
      IndexRowsAreReached(env, nullKeys, column, op, key, rows[1..]);
      assert rows == [rows[0]] + rows[1..];
    }
  }

  /** What the access path hands to the filter: nothing is lost exactly if the index serves. */
  lemma ScanHandsOn(env: Env, nullKeys: bool, table: Table, filter: Expr, preferIndex: bool)
    requires Lawful(env.library) && Kleene(filter).NotConstant?
    ensures var access := ChooseAccess(table, Some(filter), preferIndex);
            var source := ScanRows(env, nullKeys, access, table.rows);
            && !access.Empty? && (source.Ok? <==> KeyReady(env, access))
            && (source.Ok? ==>
                  && multiset(Passing(env, filter, source.value)) <= multiset(Passing(env, filter, table.rows))
                  && (Passing(env, filter, source.value) == Passing(env, filter, table.rows)
                      <==> IndexServes(env, access, table.rows))
                  && forall row | row in source.value :: row in table.rows)
  {
    FoldingAgreesUnlessUnknown(env, filter, []);
    var access := ChooseAccess(table, Some(filter), preferIndex);
    if access.ByIndex? {
      CandidateComesFromComparison(table, filter);
      if KeyReady(env, access) {
        IndexFindsPassing(env, nullKeys, filter, access, table.rows);
        IndexRowsAreReached(env, nullKeys, access.column, access.operator,
                            ScanKey(env, access.key, access.dataType).value, table.rows);
      }
    }
  }

  /** A plan over a filter that is not constant: it succeeds exactly if its key is ready and the
      filter evaluates on every row it reaches.  It never yields a row that does not pass, and
      yields all that do exactly if an index it uses serves. */
  lemma PlanOfOpenFilter(env: Env, nullKeys: bool, table: Table, outputs: seq<Expr>, filter: Expr, orders: seq<Order>,
                         preferIndex: bool)
    requires Lawful(env.library) && Kleene(filter).NotConstant?
    ensures var access := ChooseAccess(table, Some(filter), preferIndex);
            var source := ScanRows(env, nullKeys, access, table.rows);
            var rows := RowsOf(env, nullKeys, Core(table, outputs, Some(filter), orders, preferIndex), table.rows);
            && (rows.Ok? <==> KeyReady(env, access) && source.Ok? && Evaluates(env, filter, source.value))
            && (rows.Ok? ==>
                  && multiset(rows.value) <= multiset(Passing(env, filter, table.rows))
                  && (rows.value == Passing(env, filter, table.rows) <==> IndexServes(env, access, table.rows)))
  {
    ScanHandsOn(env, nullKeys, table, filter, preferIndex);
    FoldingAgreesUnlessUnknown(env, filter, []);
    var source := ScanRows(env, nullKeys, ChooseAccess(table, Some(filter), preferIndex), table.rows);
    if source.Ok? {
      FilterRowsIsPassing(env, filter, source.value);
    }
  }

  /** Whichever path is picked, the plan yields exactly the rows the query asks for, if and only
      if the filter is not an unknown folded to true over rows to let through, and an index scan,
      if one is picked, has a key that can be evaluated and coerced, and misses no row. */
  lemma PlanYieldsWhatIsAsked(env: Env, nullKeys: bool, table: Table, outputs: seq<Expr>, filter: Option<Expr>,
                              orders: seq<Order>, preferIndex: bool)
    requires Lawful(env.library) && Asked(env, filter, table.rows).Ok?
    ensures RowsOf(env, nullKeys, Core(table, outputs, filter, orders, preferIndex), table.rows)
            == Asked(env, filter, table.rows)
            <==> && (filter.Some? && FoldsUnknownToTrue(filter.value) ==> table.rows == [])
                 && IndexServes(env, ChooseAccess(table, filter, preferIndex), table.rows)
  {
    if filter.Some? {
      FoldingAgreesUnlessUnknown(env, filter.value, []);
      if !Kleene(filter.value).NotConstant? {
        ConstantFilter(env, filter.value, table.rows);
      } else {
        FilterRowsIsPassing(env, filter.value, table.rows);
        ScanHandsOn(env, nullKeys, table, filter.value, preferIndex);
        PlanOfOpenFilter(env, nullKeys, table, outputs, filter.value, orders, preferIndex);
      }
    }
  }

  /** Where the query fails on some row, a plan succeeds exactly if it uses an index whose key is
      ready and whose range leaves out every failing row. */
  lemma PlanOfFailingQuery(env: Env, nullKeys: bool, table: Table, outputs: seq<Expr>, filter: Expr, orders: seq<Order>,
                           preferIndex: bool)
    requires Lawful(env.library) && Asked(env, Some(filter), table.rows).Err?
    ensures var access := ChooseAccess(table, Some(filter), preferIndex);
            var rows := RowsOf(env, nullKeys, Core(table, outputs, Some(filter), orders, preferIndex), table.rows);
            && (rows.Ok? <==>
                  && access.ByIndex? && KeyReady(env, access)
                  && var key := ScanKey(env, access.key, access.dataType).value;
                     key.Null? || forall row | row in table.rows && Matches(env, filter, row).Err? ::
                                    !IndexReaches(env, nullKeys, access.column, access.operator, key, row))
            && (rows.Ok? ==> multiset(rows.value) <= multiset(Passing(env, filter, table.rows)))
  {
    FoldingAgreesUnlessUnknown(env, filter, []);
    if !Kleene(filter).NotConstant? {
      ConstantFilter(env, filter, table.rows);
    } else {
      FilterRowsIsPassing(env, filter, table.rows);
      PlanOfOpenFilter(env, nullKeys, table, outputs, filter, orders, preferIndex);
      var access := ChooseAccess(table, Some(filter), preferIndex);
      if access.ByIndex? && KeyReady(env, access) {
        IndexRowsAreReached(env, nullKeys, access.column, access.operator,
                            ScanKey(env, access.key, access.dataType).value, table.rows);
      }
    }
  }

  // ---- what an index misses ----

  /** The index order of a column's values refines their comparison with a key: what is less
      comes before it, what is greater after it, what is equal compares as equal. */
  ghost predicate Refines(env: Env, access: Access, value: Value)
    requires access.ByIndex? && KeyReady(env, access)
  {
    var v, key := Eval(env, access.key, []).value, ScanKey(env, access.key, access.dataType).value;
    var order := env.library.compare(value, v);
    !value.Null? && !v.Null? ==>
      && (order.Ok? && order.value < 0 ==> env.library.keyOrder(value, key) < 0)
      && (order.Ok? && 0 < order.value ==> 0 < env.library.keyOrder(value, key))
      && (env.library.equal(value, v) ==> order == Ok(0))
  }

  predicate EqualToKey(env: Env, access: Access, value: Value)
    requires access.ByIndex? && KeyReady(env, access)
  {
    var v := Eval(env, access.key, []).value;
    && !value.Null? && !v.Null?
    && if access.operator.Eq? then env.library.equal(value, v) else env.library.compare(value, v) == Ok(0)
  }

  /** The row's value counts as equal to the key without being the same key to the index, and the
      operator admits equality but its range leaves the value out: for `=` on either side of the
      key, for `<=` after it, for `>=` before it. */
  predicate Ties(env: Env, access: Access, row: Row)
    requires access.ByIndex? && KeyReady(env, access)
  {
    && access.column < |row| && EqualToKey(env, access, row[access.column])
    && var place := env.library.keyOrder(row[access.column], ScanKey(env, access.key, access.dataType).value);
       match access.operator
       case Eq => place != 0
       case LtEq => 0 < place
       case GtEq => place < 0
       case _ => false
  }

  /** Where the index order refines the comparison, an index misses only ties. */
  lemma IndexMissesOnlyTies(env: Env, access: Access, row: Row)
    requires access.ByIndex? && KeyReady(env, access) && Indexable(access.operator)
    requires access.column < |row| ==> Refines(env, access, row[access.column])
    ensures IndexMisses(env, access, row) <==> Ties(env, access, row)
  {
  }

  ghost predicate AllRefine(env: Env, access: Access, rows: seq<Row>)
    requires access.ByIndex? && KeyReady(env, access)
  {
    forall row | row in rows && access.column < |row| :: Refines(env, access, row[access.column])
  }

  /** Where the index order refines the comparison, a plan yields exactly what the query asks for
      if and only if no unknown is folded to true over rows, an index scan has a usable key, and no
      row ties with that key. */
  lemma PlanYieldsUnlessTied(env: Env, nullKeys: bool, table: Table, outputs: seq<Expr>, filter: Option<Expr>,
                             orders: seq<Order>, preferIndex: bool)
    requires Lawful(env.library) && Asked(env, filter, table.rows).Ok?
    requires var access := ChooseAccess(table, filter, preferIndex);
             access.ByIndex? && KeyReady(env, access) ==> AllRefine(env, access, table.rows)
    ensures var access := ChooseAccess(table, filter, preferIndex);
            RowsOf(env, nullKeys, Core(table, outputs, filter, orders, preferIndex), table.rows)
            == Asked(env, filter, table.rows)
            <==> && (filter.Some? && FoldsUnknownToTrue(filter.value) ==> table.rows == [])
                 && (access.ByIndex? ==>
                       KeyReady(env, access) && forall row | row in table.rows :: !Ties(env, access, row))
  {
    PlanYieldsWhatIsAsked(env, nullKeys, table, outputs, filter, orders, preferIndex);
    var access := ChooseAccess(table, filter, preferIndex);
    if access.ByIndex? && KeyReady(env, access) {
      CandidateComesFromComparison(table, filter.value);
      forall row | row in table.rows ensures IndexMisses(env, access, row) <==> Ties(env, access, row) {
        IndexMissesOnlyTies(env, access, row);
      }
    }
  }

  /** The index takes for the key every value that counts as equal to it. */
  ghost predicate Agrees(env: Env, access: Access, value: Value)
    requires access.ByIndex? && KeyReady(env, access)
  {
    && Refines(env, access, value)
    && (EqualToKey(env, access, value) ==>
          env.library.keyOrder(value, ScanKey(env, access.key, access.dataType).value) == 0)
  }

  /** An index whose order agrees with the comparison never loses a row. */
  lemma AgreeingIndexLosesNothing(env: Env, nullKeys: bool, table: Table, outputs: seq<Expr>, filter: Option<Expr>,
                                  orders: seq<Order>, preferIndex: bool)
    requires Lawful(env.library) && Asked(env, filter, table.rows).Ok?
    requires var access := ChooseAccess(table, filter, preferIndex);
             access.ByIndex? && KeyReady(env, access) ==>
               forall row | row in table.rows && access.column < |row| :: Agrees(env, access, row[access.column])
    ensures RowsOf(env, nullKeys, Core(table, outputs, filter, orders, preferIndex), table.rows)
            == Asked(env, filter, table.rows)
            <==> && (filter.Some? && FoldsUnknownToTrue(filter.value) ==> table.rows == [])
                 && KeyReady(env, ChooseAccess(table, filter, preferIndex))
  {
    PlanYieldsUnlessTied(env, nullKeys, table, outputs, filter, orders, preferIndex);
  }

  /** The misjudgement happens: NOT NULL lets every row through, though no row passes it. */
  lemma NotNullLetsEverythingThrough(env: Env, nullKeys: bool, table: Table, preferIndex: bool)
    ensures var filter := Unary(Not, Literal(Null));
            && FoldsUnknownToTrue(filter) && Asked(env, Some(filter), table.rows) == Ok([])
            && RowsOf(env, nullKeys, Core(table, [], Some(filter), [], preferIndex), table.rows) == Ok(table.rows)
  {
    var filter := Unary(Not, Literal(Null));
    assert Kleene(Literal(Null)).Unknown?;
    ConstantFilter(env, filter, table.rows);
  }

  const FLOAT := 1

  // A float by its place in the total order of floats: the two zeros are 0 and, before it, -1.
  function Magnitude(place: int): int { if place < 0 then place + 1 else place }

  /** Floats as operators see them, for which the two zeros are equal, and as an index orders them,
      for which they are not. */
  function Floats(): Library {
    var fails: Result<Value> := Err(MISMATCH);
    Library((_: Value) => fails, (_: Value, _: nat) => fails, (_: seq<Value>) => fails,
            (_: nat, _: seq<Value>) => fails,
            (_: Value, _: seq<Value>, _: bool) => fails, (_: nat, _: Value, _: Value) => fails,
            (a: Value, b: Value) => a == b || (a.Scalar? && b.Scalar? && Magnitude(a.content) == Magnitude(b.content)),
            (a: Value, b: Value) =>
              if a.Scalar? && b.Scalar? then Ok(Magnitude(a.content) - Magnitude(b.content)) else Err(MISMATCH),
            (v: Value, _: nat) => Ok(v),
            (a: Value, b: Value) => if a.Scalar? && b.Scalar? then a.content - b.content else 0)
  }

  function OneParameter(value: Value): Env {
    Env(Floats(), [value], (_: nat) => Err(MISMATCH))
  }

  lemma FloatsAreLawful()
    ensures Lawful(Floats())
  {
  }

  /** A row holding the negative zero passes `column = 0.0`, but an index scan does not find it. */
  lemma IndexMissesNegativeZero(nullKeys: bool)
    ensures var env := OneParameter(Scalar(FLOAT, 0));
            var row := [Scalar(FLOAT, -1)];
            var table := Table([TableColumn(7, FLOAT)], [Index(1, true, [7])], [row]);
            var filter := Binary(Column(0), Eq, Parameter(0));
            && Lawful(env.library) && Asked(env, Some(filter), table.rows) == Ok([row])
            && RowsOf(env, nullKeys, Core(table, [], Some(filter), [], true), table.rows) == Ok([])
            && RowsOf(env, nullKeys, Core(table, [], Some(filter), [], false), table.rows) == Ok([row])
  {
    var env := OneParameter(Scalar(FLOAT, 0));
    var row := [Scalar(FLOAT, -1)];
    var filter := Binary(Column(0), Eq, Parameter(0));
    var table := Table([TableColumn(7, FLOAT)], [Index(1, true, [7])], [row]);
    var access := ByIndex(Index(1, true, [7]), 0, FLOAT, Eq, Parameter(0));
    var key := Scalar(FLOAT, 0);
    assert [row][1..] == [] && [row] + [] == [row];
    assert Matches(env, filter, row) == Ok(true);
    assert ChooseAccess(table, Some(filter), true) == access;
    assert ScanKey(env, Parameter(0), FLOAT) == Ok(key);
    assert IndexRows(env, nullKeys, 0, Eq, key, [row]) == [];
    FloatsAreLawful();
    assert FilterRows(env, filter, [row]) == Ok([row]);
    var none: seq<Row> := [];
    assert FilterRows(env, filter, none) == Ok(none);
  }

  lemma FloatsRefine(env: Env, access: Access, value: Value)
    requires env.library == Floats() && access.ByIndex? && KeyReady(env, access) && (value.Scalar? || value.Null?)
    ensures Refines(env, access, value)
  {
  }

  const NEGATIVE_ZERO := -1
  const POSITIVE_ZERO := 0

  /** Value and key are opposite zeros, in the order the operator's range leaves out. */
  predicate OppositeZeros(op: BinaryOp, value: Value, key: Value) {
    && value.Scalar? && key.Scalar?
    && match op
       case Eq => {value.content, key.content} == {NEGATIVE_ZERO, POSITIVE_ZERO}
       case LtEq => value.content == POSITIVE_ZERO && key.content == NEGATIVE_ZERO
       case GtEq => value.content == NEGATIVE_ZERO && key.content == POSITIVE_ZERO
       case _ => false
  }

  /** Over floats an index misses exactly the opposite zero. */
  lemma FloatIndexMissesOppositeZero(env: Env, access: Access, row: Row)
    requires env.library == Floats() && access.ByIndex? && KeyReady(env, access) && Indexable(access.operator)
    ensures IndexMisses(env, access, row) <==>
              && access.column < |row|
              && OppositeZeros(access.operator, row[access.column], Eval(env, access.key, []).value)
  {
    if access.column < |row| {
      var value, v := row[access.column], Eval(env, access.key, []).value;
      if value.Scalar? && v.Scalar? {
        assert {value.content, v.content} == {NEGATIVE_ZERO, POSITIVE_ZERO} <==>
               value.content != v.content && Magnitude(value.content) == Magnitude(v.content);
      }
    }
  }

  /** So over floats a plan yields exactly what the query asks for if and only if no unknown is
      folded to true over rows, the key evaluates, and the column does not hold the opposite zero
      of a zero key. */
  lemma FloatPlanYieldsUnlessOppositeZero(env: Env, nullKeys: bool, table: Table, outputs: seq<Expr>,
                                          filter: Option<Expr>, orders: seq<Order>, preferIndex: bool)
    requires env.library == Floats() && Asked(env, filter, table.rows).Ok?
    ensures var access := ChooseAccess(table, filter, preferIndex);
            RowsOf(env, nullKeys, Core(table, outputs, filter, orders, preferIndex), table.rows)
            == Asked(env, filter, table.rows)
            <==> && (filter.Some? && FoldsUnknownToTrue(filter.value) ==> table.rows == [])
                 && (access.ByIndex? ==>
                       && Eval(env, access.key, []).Ok?
                       && forall row | row in table.rows && access.column < |row| ::
                            !OppositeZeros(access.operator, row[access.column], Eval(env, access.key, []).value))
  {
    FloatsAreLawful();
    PlanYieldsWhatIsAsked(env, nullKeys, table, outputs, filter, orders, preferIndex);
    var access := ChooseAccess(table, filter, preferIndex);
    if access.ByIndex? && KeyReady(env, access) {
      CandidateComesFromComparison(table, filter.value);
      forall row | row in table.rows
        ensures IndexMisses(env, access, row) <==>
                  && access.column < |row|
                  && OppositeZeros(access.operator, row[access.column], Eval(env, access.key, []).value)
      {
        FloatIndexMissesOppositeZero(env, access, row);
      }
    }
  }

  /** A parameter that is not bound fails an index scan of an empty table, which a sequential
      scan passes through. */
  lemma UnboundKeyFailsOverNothing(nullKeys: bool)
    ensures var env := OneParameter(Null);
            var table := Table([TableColumn(7, FLOAT)], [Index(1, true, [7])], []);
            var filter := Binary(Column(0), Eq, Parameter(1));
            && Asked(env, Some(filter), table.rows) == Ok([])
            && RowsOf(env, nullKeys, Core(table, [], Some(filter), [], true), table.rows).Err?
            && RowsOf(env, nullKeys, Core(table, [], Some(filter), [], false), table.rows) == Ok([])
  {
    var table := Table([TableColumn(7, FLOAT)], [Index(1, true, [7])], []);
    assert ChooseAccess(table, Some(Binary(Column(0), Eq, Parameter(1))), true)
        == ByIndex(Index(1, true, [7]), 0, FLOAT, Eq, Parameter(1));
  }

  /** Without an index in the plan, the plan also fails exactly where the query does. */
  lemma SequentialPlanFailsAlike(env: Env, nullKeys: bool, table: Table, outputs: seq<Expr>, filter: Option<Expr>,
                                 orders: seq<Order>)
    ensures RowsOf(env, nullKeys, Core(table, outputs, filter, orders, false), table.rows).Err?
            <==> Asked(env, filter, table.rows).Err?
  {
    if filter.Some? {
      FoldingAgreesUnlessUnknown(env, filter.value, []);
      if !Kleene(filter.value).NotConstant? {
        ConstantFilter(env, filter.value, table.rows);
      }
    }
  }

  // ---- required columns ----

  ghost predicate AgreeOn(columns: set<nat>, a: Row, b: Row) {
    |a| == |b| && forall i | 0 <= i < |a| && i in columns :: a[i] == b[i]
  }

  /** An expression means the same on rows that agree on the columns collected from it. */
  lemma {:induction false} EvalReadsOnlyItsColumns(env: Env, e: Expr, a: Row, b: Row)
    requires AgreeOn(Columns(e), a, b)
    ensures Eval(env, e, a) == Eval(env, e, b)
    decreases e
  {
    match e
    case Unary(_, operand) => EvalReadsOnlyItsColumns(env, operand, a, b);
    case Cast(source, _) => EvalReadsOnlyItsColumns(env, source, a, b);
    case Array(elements) => EvalAllReadsOnlyItsColumns(env, elements, a, b);
    case Function(_, arguments) => EvalAllReadsOnlyItsColumns(env, arguments, a, b);
    case Binary(l, _, r) => EvalReadsOnlyItsColumns(env, l, a, b); EvalReadsOnlyItsColumns(env, r, a, b);
    case InList(candidate, list, _) =>
      EvalReadsOnlyItsColumns(env, candidate, a, b);
      EvalAllReadsOnlyItsColumns(env, list, a, b);
    case _ =>
  }

  lemma {:induction false} EvalAllReadsOnlyItsColumns(env: Env, es: Exprs, a: Row, b: Row)
    requires AgreeOn(ColumnsOfAll(es), a, b)
    ensures EvalAll(env, es, a) == EvalAll(env, es, b)
    decreases es
  {
    if es.MoreExprs? {
      EvalReadsOnlyItsColumns(env, es.head, a, b);
      EvalAllReadsOnlyItsColumns(env, es.tail, a, b);
    }
  }

  /** A row with NULL in every column outside `required`. */
  function Blank(required: set<nat>, row: Row): Row {
    seq(|row|, i requires 0 <= i < |row| => if i in required then row[i] else Null)
  }

  function BlankAll(required: set<nat>, rows: seq<Row>): seq<Row> {
    if rows == [] then [] else [Blank(required, rows[0])] + BlankAll(required, rows[1..])
  }

  function BlankResult(required: set<nat>, rows: Result<seq<Row>>): Result<seq<Row>> {
    if rows.Err? then rows else Ok(BlankAll(required, rows.value))
  }

  lemma {:induction false} FilterOfBlanked(env: Env, filter: Expr, required: set<nat>, rows: seq<Row>)
    requires Columns(filter) <= required
    ensures FilterRows(env, filter, BlankAll(required, rows)) == BlankResult(required, FilterRows(env, filter, rows))
  {
    if rows != [] {
      EvalReadsOnlyItsColumns(env, filter, rows[0], Blank(required, rows[0]));
      FilterOfBlanked(env, filter, required, rows[1..]);
      assert BlankAll(required, rows)[1..] == BlankAll(required, rows[1..]);
    }
  }

  lemma {:induction false} IndexOfBlanked(env: Env, nullKeys: bool, column: nat, op: BinaryOp, key: Value,
                                          required: set<nat>, rows: seq<Row>)
    requires column in required
    ensures IndexRows(env, nullKeys, column, op, key, BlankAll(required, rows))
         == BlankAll(required, IndexRows(env, nullKeys, column, op, key, rows))
  {
    if rows != [] {
      IndexOfBlanked(env, nullKeys, column, op, key, required, rows[1..]);
      assert BlankAll(required, rows)[1..] == BlankAll(required, rows[1..]);
    }
  }

  lemma {:induction false} OutputsOfBlanked(env: Env, outputs: seq<Expr>, required: set<nat>, row: Row)
    requires OutputColumns(outputs) <= required
    ensures ProjectRow(env, outputs, Blank(required, row)) == ProjectRow(env, outputs, row)
  {
    if outputs != [] {
      EvalReadsOnlyItsColumns(env, outputs[0], row, Blank(required, row));
      OutputsOfBlanked(env, outputs[1..], required, row);
    }
  }

  lemma {:induction false} ProjectionOfBlanked(env: Env, outputs: seq<Expr>, required: set<nat>, rows: seq<Row>)
    requires OutputColumns(outputs) <= required
    ensures ProjectRows(env, outputs, BlankAll(required, rows)) == ProjectRows(env, outputs, rows)
  {
    if rows != [] {
      OutputsOfBlanked(env, outputs, required, rows[0]);
      ProjectionOfBlanked(env, outputs, required, rows[1..]);
      assert BlankAll(required, rows)[1..] == BlankAll(required, rows[1..]);
    }
  }

  /** A row is sorted by the value of each ORDER BY item, in order: its expression, or else its column. */
  lemma {:induction false} SortKeysAre(env: Env, orders: seq<Order>, row: Row)
    ensures SortKeys(env, orders, row).Ok? <==> forall i | 0 <= i < |orders| :: SortKey(env, orders[i], row).Ok?
    ensures SortKeys(env, orders, row).Ok? ==>
              && |SortKeys(env, orders, row).value| == |orders|
              && forall i | 0 <= i < |orders| :: Ok(SortKeys(env, orders, row).value[i]) == SortKey(env, orders[i], row)
  {
    if orders != [] {
      SortKeysAre(env, orders[1..], row);
      assert orders == [orders[0]] + orders[1..];
    }
  }

  function SortKey(env: Env, order: Order, row: Row): Result<Value> {
    match order.expression
    case Some(e) => Eval(env, e, row)
    case None => if order.column < |row| then Ok(row[order.column]) else Err("XX000")
  }

  /** Rows are ordered by the same keys whether or not the other columns are blanked. */
  lemma {:induction false} SortKeysOfBlanked(env: Env, orders: seq<Order>, required: set<nat>, row: Row)
    requires OrderColumns(orders) <= required
    ensures SortKeys(env, orders, Blank(required, row)) == SortKeys(env, orders, row)
  {
    if orders != [] {
      EvalReadsOnlyItsColumns(env, orders[0].expression.GetOr(Column(orders[0].column)), row, Blank(required, row));
      SortKeysOfBlanked(env, orders[1..], required, row);
    }
  }

  lemma AccessReadsRequired(table: Table, filter: Option<Expr>, preferIndex: bool)
    ensures var access := ChooseAccess(table, filter, preferIndex);
            access.ByIndex? ==> filter.Some? && access.column in Columns(filter.value)
  {
    if filter.Some? && IndexCandidate(table, filter.value).Some? {
      CandidateComesFromComparison(table, filter.value);
    }
  }

  /** Blanking every column outside the plan's required ones changes no result: the same rows
      come through and project to the same outputs. */
  lemma RequiredColumnsSuffice(env: Env, nullKeys: bool, table: Table, outputs: seq<Expr>, filter: Option<Expr>,
                               orders: seq<Order>, preferIndex: bool)
    ensures var core := Core(table, outputs, filter, orders, preferIndex);
            var required := Required(outputs, filter, orders);
            var rows := RowsOf(env, nullKeys, core, table.rows);
            && RowsOf(env, nullKeys, core, BlankAll(required, table.rows)) == BlankResult(required, rows)
            && (rows.Ok? ==>
                ProjectRows(env, outputs, BlankAll(required, rows.value)) == ProjectRows(env, outputs, rows.value))
            && forall row :: SortKeys(env, orders, Blank(required, row)) == SortKeys(env, orders, row)
  {
    var required := Required(outputs, filter, orders);
    forall row {
      SortKeysOfBlanked(env, orders, required, row);
    }
    var access := ChooseAccess(table, filter, preferIndex);
    var rows := RowsOf(env, nullKeys, Core(table, outputs, filter, orders, preferIndex), table.rows);
    AccessReadsRequired(table, filter, preferIndex);
    if access.ByIndex? && KeyReady(env, access) {
      var key := ScanKey(env, access.key, access.dataType).value;
      IndexOfBlanked(env, nullKeys, access.column, access.operator, key, required, table.rows);
    }
    var source := ScanRows(env, nullKeys, access, table.rows);
    assert ScanRows(env, nullKeys, access, BlankAll(required, table.rows)) == BlankResult(required, source);
    if filter.Some? && source.Ok? {
      FilterOfBlanked(env, filter.value, required, source.value);
    }
    if rows.Ok? {
      ProjectionOfBlanked(env, outputs, required, rows.value);
    }
  }
}

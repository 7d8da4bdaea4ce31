/** What a plan for a comparison yields, with the sides of every comparison written out: the rows
    whose column is below, at most, equal to, at least or above the literal. */
module Comparisons {
  import opened Base
  import opened Optimizer
  import opened OptimizerMeaning

  /** How the column compares with the literal: negative if it is less. */
  function ColumnSign(env: Env, column: nat, v: Value, row: Row): Result<int>
    requires column < |row|
  {
    env.library.compare(row[column], v)
  }

  /** `column op literal` is true of the row: neither side is NULL, and the column is on the side of
      the literal that the operator names. */
  predicate ColumnIs(env: Env, column: nat, op: BinaryOp, v: Value, row: Row) {
    && column < |row| && !row[column].Null? && !v.Null?
    && match op
       case Eq => env.library.equal(row[column], v)
       case NotEq => !env.library.equal(row[column], v)
       case Lt => ColumnSign(env, column, v, row).Ok? && ColumnSign(env, column, v, row).value < 0
       case LtEq => ColumnSign(env, column, v, row).Ok? && ColumnSign(env, column, v, row).value <= 0
       case Gt => ColumnSign(env, column, v, row).Ok? && 0 < ColumnSign(env, column, v, row).value
       case GtEq => ColumnSign(env, column, v, row).Ok? && 0 <= ColumnSign(env, column, v, row).value
       case _ => false
  }

  /** `literal op column` is true of the row. */
  predicate ColumnIsFromLeft(env: Env, column: nat, op: BinaryOp, v: Value, row: Row) {
    match op
    case Lt => ColumnIs(env, column, Gt, v, row)
    case LtEq => ColumnIs(env, column, GtEq, v, row)
    case Gt => ColumnIs(env, column, Lt, v, row)
    case GtEq => ColumnIs(env, column, LtEq, v, row)
    case _ => ColumnIs(env, column, op, v, row)
  }

  // A comparison of a column with a literal or parameter, on the right or on the left.
  datatype Comparison = ColumnOp(column: nat, op: BinaryOp, key: Expr) | KeyOp(key: Expr, op: BinaryOp, column: nat)

  function AsFilter(c: Comparison): Expr {
    match c
    case ColumnOp(column, op, key) => Binary(Column(column), op, key)
    case KeyOp(key, op, column) => Binary(key, op, Column(column))
  }

  predicate IsComparison(op: BinaryOp) { !op.And? && !op.Or? && !op.Arithmetic? }

  predicate Wanted(env: Env, c: Comparison, v: Value, row: Row) {
    match c
    case ColumnOp(column, op, _) => ColumnIs(env, column, op, v, row)
    case KeyOp(_, op, column) => ColumnIsFromLeft(env, column, op, v, row)
  }

  /** A comparison lets a row through exactly if it is true of it. */
  lemma ComparisonPassesIff(env: Env, c: Comparison, row: Row)
    requires Lawful(env.library) && IsKey(c.key) && IsComparison(c.op) && Eval(env, c.key, []).Ok?
    ensures Matches(env, AsFilter(c), row) == Ok(true) <==> Wanted(env, c, Eval(env, c.key, []).value, row)
  {
    KeyIsTheSameEverywhere(env, c.key, row);
    var v := Eval(env, c.key, []).value;
    if |row| <= c.column {
      assert Eval(env, AsFilter(c), row).Err?;
    } else if c.ColumnOp? {
      assert Eval(env, AsFilter(c), row) == EvalBinary(env.library, c.op, row[c.column], v);
      TrueIffColumnIs(env, c.column, c.op, v, row);
    } else {
      assert Eval(env, AsFilter(c), row) == EvalBinary(env.library, c.op, v, row[c.column]);
      TrueIffColumnIsFromLeft(env, c.column, c.op, v, row);
    }
  }

  lemma TrueIffColumnIs(env: Env, column: nat, op: BinaryOp, v: Value, row: Row)
    requires IsComparison(op) && column < |row|
    ensures EvalBinary(env.library, op, row[column], v) == Ok(Boolean(true)) <==> ColumnIs(env, column, op, v, row)
    ensures EvalBinary(env.library, op, row[column], v).Ok? ==>
              !EvalBinary(env.library, op, row[column], v).value.Scalar?
  {
  }

  lemma TrueIffColumnIsFromLeft(env: Env, column: nat, op: BinaryOp, v: Value, row: Row)
    requires Lawful(env.library) && IsComparison(op) && column < |row|
    ensures EvalBinary(env.library, op, v, row[column]) == Ok(Boolean(true))
            <==> ColumnIsFromLeft(env, column, op, v, row)
    ensures EvalBinary(env.library, op, v, row[column]).Ok? ==>
              !EvalBinary(env.library, op, v, row[column]).value.Scalar?
  {
    var there, back := env.library.compare(v, row[column]), env.library.compare(row[column], v);
    assert there.Ok? ==> back == Ok(-there.value);
    assert back.Ok? ==> there == Ok(-back.value);
    assert env.library.equal(v, row[column]) == env.library.equal(row[column], v);
  }

  /** An index scan reaches exactly the rows on the named side of its key: up to the key or down to
      it, without the key for `<` and `>`; rows without a key only if the index keeps them. */
  lemma ScanReachesIff(env: Env, nullKeys: bool, column: nat, key: Value, row: Row)
    requires column < |row| && !row[column].Null?
    ensures var place := env.library.keyOrder(row[column], key);
            && (IndexReaches(env, nullKeys, column, Lt, key, row) <==> place < 0)
            && (IndexReaches(env, nullKeys, column, LtEq, key, row) <==> place <= 0)
            && (IndexReaches(env, nullKeys, column, Eq, key, row) <==> place == 0)
            && (IndexReaches(env, nullKeys, column, GtEq, key, row) <==> 0 <= place)
            && (IndexReaches(env, nullKeys, column, Gt, key, row) <==> 0 < place)
  {
  }

  /** The place of a wanted row in the index is on the side the scan covers. */
  predicate InRange(c: Comparison, place: int) {
    match c
    case ColumnOp(_, op, _) =>
      (match op
       case Eq => place == 0
       case Lt => place < 0
       case LtEq => place <= 0
       case Gt => 0 < place
       case GtEq => 0 <= place
       case _ => true)
    case KeyOp(_, op, _) =>
      (match op
       case Eq => place == 0
       case Lt => 0 < place
       case LtEq => 0 <= place
       case Gt => place < 0
       case GtEq => place <= 0
       case _ => true)
  }

  /** An index is used exactly if the costs prefer it, the operator has a range, and a tree index on
      this column alone exists; the first such is used, with the operator turned to face the column. */
  lemma IndexIsUsedIff(table: Table, c: Comparison, preferIndex: bool)
    requires IsKey(c.key) && IsComparison(c.op)
    ensures var access := ChooseAccess(table, Some(AsFilter(c)), preferIndex);
            && (access.Sequential? || access.ByIndex?)
            && (access.ByIndex? <==>
                  && preferIndex && !c.op.NotEq? && c.column < |table.columns|
                  && exists index | index in table.indexes ::
                       index.isTree && index.keyColumns == [table.columns[c.column].id])
            && (access.ByIndex? ==>
                  && access.column == c.column && access.key == c.key
                  && access.dataType == table.columns[c.column].dataType
                  && exists k | 0 <= k < |table.indexes| :: FirstOn(table.indexes, table.columns[c.column].id, k)
                                                            && access.index == table.indexes[k])
  {
    assert ConstantTruth(Column(c.column)).None?;
    if c.column < |table.columns| {
      FirstIndexExists(table.indexes, table.columns[c.column].id);
    }
  }

  predicate IsOn(index: Index, column: nat) { index.isTree && index.keyColumns == [column] }

  /** The index at place `k` is the first tree index on the column alone. */
  predicate FirstOn(indexes: seq<Index>, column: nat, k: nat)
    requires k < |indexes|
  {
    IsOn(indexes[k], column) && forall i | 0 <= i < k :: !IsOn(indexes[i], column)
  }

  lemma {:induction false} FirstIndexExists(indexes: seq<Index>, column: nat)
    ensures FindIndex(indexes, column).Some? <==>
              exists index | index in indexes :: index.isTree && index.keyColumns == [column]
    ensures FindIndex(indexes, column).Some? ==>
              exists k | 0 <= k < |indexes| ::
                FirstOn(indexes, column, k) && FindIndex(indexes, column).value == indexes[k]
  {
    if indexes != [] {
      FirstIndexExists(indexes[1..], column);
      assert indexes == [indexes[0]] + indexes[1..];
      if IsOn(indexes[0], column) {
        assert FirstOn(indexes, column, 0);
      } else if FindIndex(indexes[1..], column).Some? {
        var k :| 0 <= k < |indexes[1..]| && FirstOn(indexes[1..], column, k)
                 && FindIndex(indexes[1..], column).value == indexes[1..][k];
        assert FirstOn(indexes, column, k + 1) by {
          forall i | 0 <= i < k + 1 ensures !IsOn(indexes[i], column) {
            assert 0 < i ==> indexes[i] == indexes[1..][i - 1];
          }
        }
      }
    }
  }

  /** The bag of rows that are wanted, each as often as the table has it. */
  ghost predicate IsWantedBag(env: Env, c: Comparison, v: Value, rows: seq<Row>, result: seq<Row>) {
    forall row :: multiset(result)[row] == if Wanted(env, c, v, row) then multiset(rows)[row] else 0
  }

  lemma PassingIsWantedBag(env: Env, c: Comparison, rows: seq<Row>)
    requires Lawful(env.library) && IsKey(c.key) && IsComparison(c.op) && Eval(env, c.key, []).Ok?
    ensures IsWantedBag(env, c, Eval(env, c.key, []).value, rows, Passing(env, AsFilter(c), rows))
  {
    forall row
      ensures multiset(Passing(env, AsFilter(c), rows))[row]
              == if Wanted(env, c, Eval(env, c.key, []).value, row) then multiset(rows)[row] else 0
    {
      PassingCount(env, AsFilter(c), rows, row);
      ComparisonPassesIff(env, c, row);
    }
  }

  /** A wanted row lies outside the range of the index scan, in the order of its keys. */
  ghost predicate LeftOut(env: Env, c: Comparison, access: Access, row: Row)
    requires access.ByIndex? && KeyReady(env, access)
  {
    && Wanted(env, c, Eval(env, access.key, []).value, row) && c.column < |row|
    && !InRange(c, env.library.keyOrder(row[c.column], ScanKey(env, access.key, access.dataType).value))
  }

  lemma LeftOutIsMissed(env: Env, c: Comparison, table: Table, preferIndex: bool, row: Row)
    requires Lawful(env.library) && IsKey(c.key) && IsComparison(c.op)
    requires var access := ChooseAccess(table, Some(AsFilter(c)), preferIndex); access.ByIndex? && KeyReady(env, access)
    ensures var access := ChooseAccess(table, Some(AsFilter(c)), preferIndex);
            IndexMisses(env, access, row) <==> LeftOut(env, c, access, row)
  {
    var access := ChooseAccess(table, Some(AsFilter(c)), preferIndex);
    IndexIsUsedIff(table, c, preferIndex);
    assert access.operator == if c.ColumnOp? then c.op else Reverse(c.op);
    FilterAcceptsColumnFirst(env, AsFilter(c), c.column, access.operator, c.key, row);
    ComparisonPassesIff(env, c, row);
  }

  /** Where a comparison can be evaluated on every row, its plan yields exactly the bag of rows of
      which it is true, if and only if an index scan, where one is used, has a usable key and leaves
      no such row out of its range. */
  lemma ComparisonPlanYields(env: Env, nullKeys: bool, table: Table, outputs: seq<Expr>, c: Comparison,
                             orders: seq<Order>, preferIndex: bool)
    requires Lawful(env.library) && IsKey(c.key) && IsComparison(c.op) && Eval(env, c.key, []).Ok?
    requires Asked(env, Some(AsFilter(c)), table.rows).Ok?
    ensures var access := ChooseAccess(table, Some(AsFilter(c)), preferIndex);
            var rows := RowsOf(env, nullKeys, Core(table, outputs, Some(AsFilter(c)), orders, preferIndex), table.rows);
            (rows.Ok? && IsWantedBag(env, c, Eval(env, c.key, []).value, table.rows, rows.value)) <==>
              (access.ByIndex? ==>
                 KeyReady(env, access) && forall row | row in table.rows :: !LeftOut(env, c, access, row))
  {
    var access := ChooseAccess(table, Some(AsFilter(c)), preferIndex);
    ServesIffNoneLeftOut(env, c, table, preferIndex);
    if IndexServes(env, access, table.rows) {
      ServedPlanYields(env, nullKeys, table, outputs, c, orders, preferIndex);
    } else if access.ByIndex? && KeyReady(env, access) {
      var row :| row in table.rows && LeftOut(env, c, access, row);
      PlanFiltersScan(env, nullKeys, table, outputs, c, orders, preferIndex);
      LeftOutIsLost(env, nullKeys, table, c, preferIndex, row);
      IndexIsUsedIff(table, c, preferIndex);
      assert Wanted(env, c, Eval(env, c.key, []).value, row);
    } else {
      UnreadyPlanFails(env, nullKeys, table, outputs, c, orders, preferIndex);
    }
  }

  lemma ServedPlanYields(env: Env, nullKeys: bool, table: Table, outputs: seq<Expr>, c: Comparison, orders: seq<Order>,
                         preferIndex: bool)
    requires Lawful(env.library) && IsKey(c.key) && IsComparison(c.op) && Eval(env, c.key, []).Ok?
    requires Asked(env, Some(AsFilter(c)), table.rows).Ok?
    requires IndexServes(env, ChooseAccess(table, Some(AsFilter(c)), preferIndex), table.rows)
    ensures var rows := RowsOf(env, nullKeys, Core(table, outputs, Some(AsFilter(c)), orders, preferIndex), table.rows);
            rows.Ok? && IsWantedBag(env, c, Eval(env, c.key, []).value, table.rows, rows.value)
  {
    assert Kleene(AsFilter(c)).NotConstant?;
    FilterRowsIsPassing(env, AsFilter(c), table.rows);
    ScanHandsOn(env, nullKeys, table, AsFilter(c), preferIndex);
    PlanOfOpenFilter(env, nullKeys, table, outputs, AsFilter(c), orders, preferIndex);
    PassingIsWantedBag(env, c, table.rows);
  }

  lemma UnreadyPlanFails(env: Env, nullKeys: bool, table: Table, outputs: seq<Expr>, c: Comparison, orders: seq<Order>,
                         preferIndex: bool)
    requires Lawful(env.library) && IsComparison(c.op)
    requires !KeyReady(env, ChooseAccess(table, Some(AsFilter(c)), preferIndex))
    ensures RowsOf(env, nullKeys, Core(table, outputs, Some(AsFilter(c)), orders, preferIndex), table.rows).Err?
  {
    assert Kleene(AsFilter(c)).NotConstant?;
    PlanOfOpenFilter(env, nullKeys, table, outputs, AsFilter(c), orders, preferIndex);
  }

  lemma PlanFiltersScan(env: Env, nullKeys: bool, table: Table, outputs: seq<Expr>, c: Comparison, orders: seq<Order>,
                        preferIndex: bool)
    requires IsComparison(c.op)
    ensures var source := ScanRows(env, nullKeys, ChooseAccess(table, Some(AsFilter(c)), preferIndex), table.rows);
            var rows := RowsOf(env, nullKeys, Core(table, outputs, Some(AsFilter(c)), orders, preferIndex), table.rows);
            source.Ok? && rows.Ok? ==> rows.value == Passing(env, AsFilter(c), source.value)
  {
    var source := ScanRows(env, nullKeys, ChooseAccess(table, Some(AsFilter(c)), preferIndex), table.rows);
    assert ConstantTruth(Column(c.column)).None?;
    if source.Ok? {
      FilterRowsIsPassing(env, AsFilter(c), source.value);
    }
  }

  lemma ServesIffNoneLeftOut(env: Env, c: Comparison, table: Table, preferIndex: bool)
    requires Lawful(env.library) && IsKey(c.key) && IsComparison(c.op)
    ensures var access := ChooseAccess(table, Some(AsFilter(c)), preferIndex);
            IndexServes(env, access, table.rows) <==>
              (access.ByIndex? ==>
                 KeyReady(env, access) && forall row | row in table.rows :: !LeftOut(env, c, access, row))
  {
    var access := ChooseAccess(table, Some(AsFilter(c)), preferIndex);
    if access.ByIndex? && KeyReady(env, access) {
      forall row | row in table.rows ensures IndexMisses(env, access, row) <==> LeftOut(env, c, access, row) {
        LeftOutIsMissed(env, c, table, preferIndex, row);
      }
    }
  }

  /** A row that is left out is not among the rows the filter is handed. */
  lemma LeftOutIsLost(env: Env, nullKeys: bool, table: Table, c: Comparison, preferIndex: bool, row: Row)
    requires Lawful(env.library) && IsKey(c.key) && IsComparison(c.op) && row in table.rows
    requires var access := ChooseAccess(table, Some(AsFilter(c)), preferIndex);
             access.ByIndex? && KeyReady(env, access) && LeftOut(env, c, access, row)
    ensures var access := ChooseAccess(table, Some(AsFilter(c)), preferIndex);
            var source := ScanRows(env, nullKeys, access, table.rows);
            source.Ok? && multiset(Passing(env, AsFilter(c), source.value))[row] == 0 && multiset(table.rows)[row] > 0
  {
    var access := ChooseAccess(table, Some(AsFilter(c)), preferIndex);
    var key := ScanKey(env, access.key, access.dataType).value;
    LeftOutIsMissed(env, c, table, preferIndex, row);
    IndexRowsAreReached(env, nullKeys, access.column, access.operator, key, table.rows);
    PassingCount(env, AsFilter(c), ScanRows(env, nullKeys, access, table.rows).value, row);
    assert row in multiset(table.rows);
  }
}

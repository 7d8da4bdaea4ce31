/** Query planning: bound expressions and their three-valued meaning, the rewrite of a select
    into a plan, and what rows a plan yields. */
module Optimizer {
  import opened Base

  // A scalar that is neither NULL nor boolean: its type and its content, as the type's library
  // encodes it.
  datatype Value = Null | Boolean(truth: bool) | Scalar(kind: nat, content: int)

  type Row = seq<Value>

  datatype UnaryOp = Not | Negate

  datatype BinaryOp = And | Or | Eq | NotEq | Lt | LtEq | Gt | GtEq | Arithmetic(operation: nat)

  datatype Expr =
    | Column(index: nat)
    | Literal(value: Value)
    | Parameter(number: nat)
    | Outer(reference: nat)
    | Unary(unary: UnaryOp, operand: Expr)
    | Cast(source: Expr, target: nat)
    | Array(elements: Exprs)
    | Function(name: nat, arguments: Exprs)
    | Binary(left: Expr, op: BinaryOp, right: Expr)
    | InList(candidate: Expr, list: Exprs, negated: bool)
    | Aggregate(aggregate: nat, argument: Exprs, filter: Exprs)

  datatype Exprs = NoExprs | MoreExprs(head: Expr, tail: Exprs)

  // 64-bit integers are the one kind of scalar whose content is looked into: as counts of rows.
  const INT64 := 0

  // The scalar library: everything about values that planning does not look into.  Operators
  // use `equal` and `compare`; an index has an order of its own on the keys `indexKey` makes of
  // values, after coercing them to the column's type, which may fail.
  datatype Library = Library(
    negate: Value -> Result<Value>,
    cast: (Value, nat) -> Result<Value>,
    makeArray: seq<Value> -> Result<Value>,
    call: (nat, seq<Value>) -> Result<Value>,
    inList: (Value, seq<Value>, bool) -> Result<Value>,
    arithmetic: (nat, Value, Value) -> Result<Value>,
    equal: (Value, Value) -> bool,
    compare: (Value, Value) -> Result<int>,
    indexKey: (Value, nat) -> Result<Value>,
    keyOrder: (Value, Value) -> int)

  // What an expression is evaluated in, beside the row: parameters, and the values of outer
  // queries and of applied subqueries.
  datatype Env = Env(library: Library, parameters: seq<Value>, outer: nat -> Result<Value>)

  /** Equality is symmetric, comparing the other way round reverses the order and never fails
      where comparing does not, and only NULL is coerced to NULL. */
  ghost predicate Lawful(library: Library) {
    && (forall a, b :: library.equal(a, b) == library.equal(b, a))
    && (forall a, b :: library.compare(a, b).Ok? ==> library.compare(b, a) == Ok(-library.compare(a, b).value))
    && (forall v, target :: library.indexKey(v, target).Ok? ==> (library.indexKey(v, target).value.Null? <==> v.Null?))
  }

  const MISMATCH := "42804"

  // ---- meaning ----

  function EvalNot(v: Value): Result<Value> {
    match v
    case Null => Ok(Null)
    case Boolean(b) => Ok(Boolean(!b))
    case Scalar(_, _) => Err(MISMATCH)
  }

  /** AND and OR in three-valued logic, NULL being the unknown truth. */
  function EvalConnective(op: BinaryOp, l: Value, r: Value): Result<Value> {
    if l.Scalar? || r.Scalar? then Err(MISMATCH)
    else if op.And? then
      Ok(if l == Boolean(false) || r == Boolean(false) then Boolean(false)
         else if l == Boolean(true) && r == Boolean(true) then Boolean(true) else Null)
    else
      Ok(if l == Boolean(true) || r == Boolean(true) then Boolean(true)
         else if l == Boolean(false) && r == Boolean(false) then Boolean(false) else Null)
  }

  predicate OrderHolds(op: BinaryOp, order: int) {
    match op
    case Eq => order == 0
    case NotEq => order != 0
    case Lt => order < 0
    case LtEq => order <= 0
    case Gt => order > 0
    case _ => order >= 0
  }

  function EvalBinary(library: Library, op: BinaryOp, l: Value, r: Value): Result<Value> {
    if op.And? || op.Or? then EvalConnective(op, l, r)
    else if l.Null? || r.Null? then Ok(Null)
    else if op.Arithmetic? then library.arithmetic(op.operation, l, r)
    else if op.Eq? || op.NotEq? then Ok(Boolean(library.equal(l, r) == op.Eq?))
    else
      var order :- library.compare(l, r);
      Ok(Boolean(OrderHolds(op, order)))
  }

  /** Both operands are always evaluated; the first error wins. */
  function Eval(env: Env, e: Expr, row: Row): Result<Value>
    decreases e
  {
    match e
    case Column(i) => if i < |row| then Ok(row[i]) else Err("XX000")
    case Literal(v) => Ok(v)
    case Parameter(i) => if i < |env.parameters| then Ok(env.parameters[i]) else Err("08P01")
    case Outer(i) => env.outer(i)
    case Unary(op, operand) =>
      var v :- Eval(env, operand, row);
      if op.Not? then EvalNot(v) else if v.Null? then Ok(Null) else env.library.negate(v)
    case Cast(source, target) =>
      var v :- Eval(env, source, row);
      env.library.cast(v, target)
    case Array(elements) =>
      var vs :- EvalAll(env, elements, row);
      env.library.makeArray(vs)
    case Function(name, arguments) =>
      var vs :- EvalAll(env, arguments, row);
      env.library.call(name, vs)
    case Binary(l, op, r) =>
      var lv :- Eval(env, l, row);
      var rv :- Eval(env, r, row);
      EvalBinary(env.library, op, lv, rv)
    case InList(candidate, list, negated) =>
      var v :- Eval(env, candidate, row);
      var vs :- EvalAll(env, list, row);
      env.library.inList(v, vs, negated)
    case Aggregate(_, _, _) => Err("42803")
  }

  function EvalAll(env: Env, es: Exprs, row: Row): Result<seq<Value>>
    decreases es
  {
    match es
    case NoExprs => Ok([])
    case MoreExprs(head, tail) =>
      var v :- Eval(env, head, row);
      var vs :- EvalAll(env, tail, row);
      Ok([v] + vs)
  }

  /** Whether a row passes a filter: NULL does not, anything but a truth value is an error. */
  function Matches(env: Env, filter: Expr, row: Row): Result<bool> {
    var v :- Eval(env, filter, row);
    match v
    case Boolean(b) => Ok(b)
    case Null => Ok(false)
    case Scalar(_, _) => Err(MISMATCH)
  }

  // ---- the rewrite ----

  /** The columns an expression reads. */
  function Columns(e: Expr): set<nat>
    decreases e
  {
    match e
    case Column(i) => {i}
    case Unary(_, operand) => Columns(operand)
    case Cast(source, _) => Columns(source)
    case Array(elements) => ColumnsOfAll(elements)
    case Function(_, arguments) => ColumnsOfAll(arguments)
    case Binary(l, _, r) => Columns(l) + Columns(r)
    case InList(candidate, list, _) => Columns(candidate) + ColumnsOfAll(list)
    case Aggregate(_, argument, filter) => ColumnsOfAll(argument) + ColumnsOfAll(filter)
    case _ => {}
  }

  function ColumnsOfAll(es: Exprs): set<nat>
    decreases es
  {
    match es
    case NoExprs => {}
    case MoreExprs(head, tail) => Columns(head) + ColumnsOfAll(tail)
  }

  /** The truth of a filter built from literals alone; NULL counts as false. */
  function ConstantTruth(e: Expr): Option<bool> {
    match e
    case Literal(Boolean(b)) => Some(b)
    case Literal(Null) => Some(false)
    case Unary(Not, operand) =>
      var truth := ConstantTruth(operand);
      if truth.None? then None else Some(!truth.value)
    case Binary(l, op, r) =>
      var lt, rt := ConstantTruth(l), ConstantTruth(r);
      if lt.None? || rt.None? then None
      else if op.And? then Some(lt.value && rt.value)
      else if op.Or? then Some(lt.value || rt.value)
      else None
    case _ => None
  }

  function Reverse(op: BinaryOp): BinaryOp {
    match op
    case Lt => Gt
    case LtEq => GtEq
    case Gt => Lt
    case GtEq => LtEq
    case _ => op
  }

  datatype Index = Index(name: nat, isTree: bool, keyColumns: seq<nat>)

  // Columns are known by identity; an expression's column index is a place in `columns`.
  datatype TableColumn = TableColumn(id: nat, dataType: nat)
  datatype Table = Table(columns: seq<TableColumn>, indexes: seq<Index>, rows: seq<Row>)

  datatype Access = Empty | Sequential | ByIndex(index: Index, column: nat, dataType: nat, operator: BinaryOp,
                                                 key: Expr)

  predicate Indexable(op: BinaryOp) { op.Eq? || op.Lt? || op.LtEq? || op.Gt? || op.GtEq? }

  predicate IsKey(e: Expr) { e.Literal? || e.Parameter? }

  /** The first single-column tree index on a column. */
  function FindIndex(indexes: seq<Index>, column: nat): (found: Option<Index>)
    ensures found.Some? ==> found.value in indexes && found.value.isTree && found.value.keyColumns == [column]
  {
    if indexes == [] then None
    else if indexes[0].isTree && indexes[0].keyColumns == [column] then Some(indexes[0])
    else FindIndex(indexes[1..], column)
  }

  /** A comparison of a column with a literal or parameter, column first. */
  function ColumnFirst(e: Expr): Option<(nat, BinaryOp, Expr)> {
    if !e.Binary? || !Indexable(e.op) then None
    else if e.left.Column? && IsKey(e.right) then Some((e.left.index, e.op, e.right))
    else if IsKey(e.left) && e.right.Column? then Some((e.right.index, Reverse(e.op), e.left))
    else None
  }

  function IndexCandidate(table: Table, filter: Expr): Option<Access> {
    var comparison := ColumnFirst(filter);
    if comparison.None? then None
    else
      var (column, op, key) := comparison.value;
      if |table.columns| <= column then None
      else
        var definition := table.columns[column];
        var index := FindIndex(table.indexes, definition.id);
        if index.None? then None else Some(ByIndex(index.value, column, definition.dataType, op, key))
  }

  datatype Order = Order(column: nat, expression: Option<Expr>)

  datatype Plan =
    | Scan(access: Access, required: set<nat>)
    | Filter(condition: Expr, filtered: Plan)
    | Sort(orders: seq<Order>, sorted: Plan)
    | Offset(offset: Expr, skipped: Plan)
    | Limit(limit: Expr, limited: Plan)
    | Projection(outputs: seq<Expr>, projected: Plan)

  function OutputColumns(outputs: seq<Expr>): set<nat> {
    if outputs == [] then {} else Columns(outputs[0]) + OutputColumns(outputs[1..])
  }

  function OrderColumns(orders: seq<Order>): set<nat> {
    if orders == [] then {}
    else (if orders[0].expression.Some? then Columns(orders[0].expression.value) else {orders[0].column})
         + OrderColumns(orders[1..])
  }

  function Required(outputs: seq<Expr>, filter: Option<Expr>, orders: seq<Order>): set<nat> {
    OutputColumns(outputs) + (if filter.Some? then Columns(filter.value) else {}) + OrderColumns(orders)
  }

  /** The access path; `preferIndex` stands for the comparison of estimated costs. */
  function ChooseAccess(table: Table, filter: Option<Expr>, preferIndex: bool): Access {
    if filter.None? then Sequential
    else if ConstantTruth(filter.value) == Some(false) then Empty
    else if ConstantTruth(filter.value) == Some(true) then Sequential
    else
      var candidate := IndexCandidate(table, filter.value);
      if candidate.Some? && preferIndex then candidate.value else Sequential
  }

  /** The part of the plan below OFFSET and LIMIT. */
  function Core(table: Table, outputs: seq<Expr>, filter: Option<Expr>, orders: seq<Order>, preferIndex: bool): Plan {
    var scan := Scan(ChooseAccess(table, filter, preferIndex), Required(outputs, filter, orders));
    var kept := if filter.None? || ConstantTruth(filter.value) == Some(true) then scan else Filter(filter.value, scan);
    if orders == [] then kept else Sort(orders, kept)
  }

  function OptimizeSelect(table: Table, outputs: seq<Expr>, filter: Option<Expr>, orders: seq<Order>,
                          offset: Option<Expr>,
                          limit: Option<Expr>, preferIndex: bool): Plan
  {
    var core := Core(table, outputs, filter, orders, preferIndex);
    var skipped := if offset.Some? then Offset(offset.value, core) else core;
    Projection(outputs, if limit.Some? then Limit(limit.value, skipped) else skipped)
  }

  // ---- what a plan yields ----

  /** The rows passing a filter, or the first error. */
  function FilterRows(env: Env, filter: Expr, rows: seq<Row>): Result<seq<Row>> {
    if rows == [] then Ok([])
    else
      var hit :- Matches(env, filter, rows[0]);
      var rest :- FilterRows(env, filter, rows[1..]);
      Ok(if hit then [rows[0]] + rest else rest)
  }

  /** Whether an index range scan for `column op key` reaches a row: rows whose key the index
      orders as asked, and perhaps rows without a key, which the filter above drops. */
  predicate IndexReaches(env: Env, nullKeys: bool, column: nat, op: BinaryOp, key: Value, row: Row) {
    column < |row|
    && if row[column].Null? then nullKeys
       else OrderHolds(op, env.library.keyOrder(row[column], key))
  }

  function IndexRows(env: Env, nullKeys: bool, column: nat, op: BinaryOp, key: Value, rows: seq<Row>): seq<Row> {
    if rows == [] then []
    else
      var rest := IndexRows(env, nullKeys, column, op, key, rows[1..]);
      if IndexReaches(env, nullKeys, column, op, key, rows[0]) then [rows[0]] + rest else rest
  }

  /** The key of an index scan: evaluated once, then coerced to the column's type. */
  function ScanKey(env: Env, key: Expr, dataType: nat): Result<Value> {
    var value :- Eval(env, key, []);
    env.library.indexKey(value, dataType)
  }

  /** The rows a scan hands on.  A NULL key finds nothing. */
  function ScanRows(env: Env, nullKeys: bool, access: Access, rows: seq<Row>): Result<seq<Row>> {
    match access
    case Empty => Ok([])
    case Sequential => Ok(rows)
    case ByIndex(_, column, dataType, op, key) =>
      var value :- ScanKey(env, key, dataType);
      if value.Null? then Ok([]) else Ok(IndexRows(env, nullKeys, column, op, value, rows))
  }

  /** The bag of rows of a plan without OFFSET and LIMIT, listed in table order: a sort and an
      index only rearrange it. */
  function RowsOf(env: Env, nullKeys: bool, plan: Plan, rows: seq<Row>): Result<seq<Row>>
    requires || plan.Scan? || (plan.Filter? && plan.filtered.Scan?)
             || (plan.Sort? && (plan.sorted.Scan? || (plan.sorted.Filter? && plan.sorted.filtered.Scan?)))
  {
    match plan
    case Scan(access, _) => ScanRows(env, nullKeys, access, rows)
    case Filter(filter, input) =>
      var source :- ScanRows(env, nullKeys, input.access, rows);
      FilterRows(env, filter, source)
    case Sort(_, input) => RowsOf(env, nullKeys, input, rows)
  }

  /** What the query asks for: every row that passes the filter. */
  function Asked(env: Env, filter: Option<Expr>, rows: seq<Row>): Result<seq<Row>> {
    if filter.None? then Ok(rows) else FilterRows(env, filter.value, rows)
  }

  function ProjectRow(env: Env, outputs: seq<Expr>, row: Row): Result<Row> {
    if outputs == [] then Ok([])
    else
      var v :- Eval(env, outputs[0], row);
      var vs :- ProjectRow(env, outputs[1..], row);
      Ok([v] + vs)
  }

  function ProjectRows(env: Env, outputs: seq<Expr>, rows: seq<Row>): Result<seq<Row>> {
    if rows == [] then Ok([])
    else
      var first :- ProjectRow(env, outputs, rows[0]);
      var rest :- ProjectRows(env, outputs, rows[1..]);
      Ok([first] + rest)
  }

  /** The values a row is sorted by. */
  function SortKeys(env: Env, orders: seq<Order>, row: Row): Result<seq<Value>> {
    if orders == [] then Ok([])
    else
      var key :- Eval(env, orders[0].expression.GetOr(Column(orders[0].column)), row);
      var keys :- SortKeys(env, orders[1..], row);
      Ok([key] + keys)
  }

  // ---- the rewrite as it runs ----

  /** Building the plan from the scan outwards. */
  method BuildPlan(table: Table, outputs: seq<Expr>, filter: Option<Expr>, orders: seq<Order>, offset: Option<Expr>,
                   limit: Option<Expr>, preferIndex: bool) returns (plan: Plan)
    ensures plan == OptimizeSelect(table, outputs, filter, orders, offset, limit, preferIndex)
  {
    var required := OutputColumns(outputs);
    if filter.Some? { required := required + Columns(filter.value); }
    required := required + OrderColumns(orders);
    var constant := if filter.Some? then ConstantTruth(filter.value) else None;
    var kept := if constant == Some(true) then None else filter;
    var candidate := if kept.Some? then IndexCandidate(table, kept.value) else None;
    var access := Sequential;
    if constant == Some(false) {
      access := Empty;
    } else if candidate.Some? && preferIndex {
      access := candidate.value;
    }
    plan := Scan(access, required);
    assert required == Required(outputs, filter, orders);
    if kept.Some? { plan := Filter(kept.value, plan); }
    if orders != [] { plan := Sort(orders, plan); }
    if offset.Some? { plan := Offset(offset.value, plan); }
    if limit.Some? { plan := Limit(limit.value, plan); }
    plan := Projection(outputs, plan);
  }
}

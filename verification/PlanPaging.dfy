/** What OFFSET and LIMIT mean: a plan is turned into a pipeline of frames with counters, rows
    pass through it chunk by chunk, and whatever the chunks, the outputs are those of one slice
    of the rows below. */
module PlanPaging {
  import opened Base
  import opened Optimizer
  import opened OptimizerMeaning

  // ---- the pipeline ----

  // The counters are the rows still to be skipped and still to be let through.
  datatype Frame =
    | FilterFrame(condition: Expr)
    | OffsetFrame(toSkip: nat)
    | LimitFrame(toEmit: nat)
    | ProjectionFrame(outputs: seq<Expr>)

  function Min(a: nat, b: nat): nat { if a < b then a else b }

  /** OFFSET NULL skips nothing. */
  function OffsetCount(env: Env, offset: Expr): Result<nat> {
    var v :- Eval(env, offset, []);
    if v.Null? then Ok(0)
    else if v.Scalar? && v.kind == INT64 && 0 <= v.content then Ok(v.content)
    else Err("2201X")
  }

  /** LIMIT NULL is the largest count the machine word holds. */
  function LimitCount(env: Env, limit: Expr): Result<nat> {
    var v :- Eval(env, limit, []);
    if v.Null? then Ok(U64_LIMIT - 1)
    else if v.Scalar? && v.kind == INT64 && 0 <= v.content then Ok(v.content)
    else Err("2201W")
  }

  /** The frames of a plan above its scan or sort, in the order rows meet them.  Counts are
      evaluated from the top of the plan down. */
  function FramesOf(env: Env, plan: Plan): Result<seq<Frame>> {
    match plan
    case Scan(_, _) => Ok([])
    case Sort(_, _) => Ok([])
    case Filter(condition, input) =>
      var below :- FramesOf(env, input);
      Ok(below + [FilterFrame(condition)])
    case Offset(offset, input) =>
      var count :- OffsetCount(env, offset);
      var below :- FramesOf(env, input);
      Ok(below + [OffsetFrame(count)])
    case Limit(limit, input) =>
      var count :- LimitCount(env, limit);
      var below :- FramesOf(env, input);
      Ok(below + [LimitFrame(count)])
    case Projection(outputs, input) =>
      var below :- FramesOf(env, input);
      Ok(below + [ProjectionFrame(outputs)])
  }

  // A chunk after the pipeline, and the frames with their counters moved on.
  datatype Applied = Applied(frames: seq<Frame>, rows: seq<Row>)

  /** A non-empty chunk through one frame. */
  function Through(env: Env, frame: Frame, rows: seq<Row>): Result<(Frame, seq<Row>)> {
    match frame
    case FilterFrame(condition) =>
      var kept :- FilterRows(env, condition, rows);
      Ok((frame, kept))
    case OffsetFrame(toSkip) =>
      var skipped := Min(|rows|, toSkip);
      Ok((OffsetFrame(toSkip - skipped), rows[skipped..]))
    case LimitFrame(toEmit) =>
      var emitted := Min(|rows|, toEmit);
      Ok((LimitFrame(toEmit - emitted), rows[..emitted]))
    case ProjectionFrame(outputs) =>
      var projected :- ProjectRows(env, outputs, rows);
      Ok((frame, projected))
  }

  /** One chunk through the pipeline; a chunk that is or becomes empty goes no further. */
  function Apply(env: Env, frames: seq<Frame>, rows: seq<Row>): Result<Applied> {
    if frames == [] || rows == [] then Ok(Applied(frames, rows))
    else
      var first :- Through(env, frames[0], rows);
      var rest :- Apply(env, frames[1..], first.1);
      Ok(Applied([first.0] + rest.frames, rest.rows))
  }

  /** All chunks, one after the other. */
  function Stream(env: Env, frames: seq<Frame>, chunks: seq<seq<Row>>): Result<Applied>
    decreases |chunks|
  {
    if chunks == [] then Ok(Applied(frames, []))
    else
      var first :- Apply(env, frames, chunks[0]);
      var rest :- Stream(env, first.frames, chunks[1..]);
      Ok(Applied(rest.frames, first.rows + rest.rows))
  }

  function Joined(chunks: seq<seq<Row>>): seq<Row> {
    if chunks == [] then [] else chunks[0] + Joined(chunks[1..])
  }

  /** After `rows` came out, `rest` of `all` is still to come. */
  ghost predicate Continues(all: Result<Applied>, rows: seq<Row>, rest: Result<Applied>) {
    match rest
    case Err(state) => all == rest
    case Ok(done) => all.Ok? && all.value.rows == rows + done.rows
  }

  lemma ContinuesOneChunk(env: Env, all: Result<Applied>, rows: seq<Row>, frames: seq<Frame>, chunks: seq<seq<Row>>,
                          i: nat)
    requires i < |chunks| && Continues(all, rows, Stream(env, frames, chunks[i..]))
    ensures match Apply(env, frames, chunks[i])
            case Err(state) => all == Err(state)
            case Ok(applied) => Continues(all, rows + applied.rows, Stream(env, applied.frames, chunks[i + 1..]))
  {
    assert chunks[i..][1..] == chunks[i + 1..];
  }

  /** The pipeline run by a cursor over its source: the counters live in the frames. */
  method RunPipeline(env: Env, frames: seq<Frame>, chunks: seq<seq<Row>>) returns (result: Result<seq<Row>>)
    ensures result == match Stream(env, frames, chunks) case Ok(done) => Ok(done.rows) case Err(state) => Err(state)
  {
    ghost var all := Stream(env, frames, chunks);
    var rows: seq<Row> := [];
    var current := frames;
    assert chunks[0..] == chunks;
    for i := 0 to |chunks|
      invariant Continues(all, rows, Stream(env, current, chunks[i..]))
    {
      ContinuesOneChunk(env, all, rows, current, chunks, i);
      var applied := Apply(env, current, chunks[i]);
      if applied.Err? { return Err(applied.state); }
      rows, current := rows + applied.value.rows, applied.value.frames;
    }
    assert chunks[|chunks|..] == [] && rows + [] == rows;
    return Ok(rows);
  }

  // ---- rows distribute over the pipeline ----

  lemma {:induction false} FilterDistributes(env: Env, condition: Expr, a: seq<Row>, b: seq<Row>)
    ensures FilterRows(env, condition, a + b).Ok? <==>
              FilterRows(env, condition, a).Ok? && FilterRows(env, condition, b).Ok?
    ensures FilterRows(env, condition, a + b).Ok? ==>
              FilterRows(env, condition, a + b).value
              == FilterRows(env, condition, a).value + FilterRows(env, condition, b).value
  {
    if a == [] {
      assert a + b == b;
    } else {
      assert (a + b)[1..] == a[1..] + b;
      FilterDistributes(env, condition, a[1..], b);
    }
  }

  lemma {:induction false} ProjectionDistributes(env: Env, outputs: seq<Expr>, a: seq<Row>, b: seq<Row>)
    ensures ProjectRows(env, outputs, a + b).Ok? <==>
              ProjectRows(env, outputs, a).Ok? && ProjectRows(env, outputs, b).Ok?
    ensures ProjectRows(env, outputs, a + b).Ok? ==>
              ProjectRows(env, outputs, a + b).value
              == ProjectRows(env, outputs, a).value + ProjectRows(env, outputs, b).value
  {
    if a == [] {
      assert a + b == b;
    } else {
      assert (a + b)[1..] == a[1..] + b;
      ProjectionDistributes(env, outputs, a[1..], b);
    }
  }

  lemma ThroughDistributes(env: Env, frame: Frame, a: seq<Row>, b: seq<Row>)
    ensures var whole, first := Through(env, frame, a + b), Through(env, frame, a);
            && (whole.Ok? <==> first.Ok? && Through(env, first.value.0, b).Ok?)
            && (whole.Ok? ==>
                  var second := Through(env, first.value.0, b).value;
                  whole.value == (second.0, first.value.1 + second.1))
  {
    match frame
    case FilterFrame(condition) => FilterDistributes(env, condition, a, b);
    case OffsetFrame(toSkip) =>
      assert (a + b)[Min(|a + b|, toSkip)..] == a[Min(|a|, toSkip)..] + b[Min(|b|, toSkip - Min(|a|, toSkip))..];
    case LimitFrame(toEmit) =>
      assert (a + b)[..Min(|a + b|, toEmit)] == a[..Min(|a|, toEmit)] + b[..Min(|b|, toEmit - Min(|a|, toEmit))];
    case ProjectionFrame(outputs) => ProjectionDistributes(env, outputs, a, b);
  }

  /** Two chunks in turn are one chunk: the same rows, the same counters, and a failure in either
      case or in neither. */
  lemma {:induction false} ApplyDistributes(env: Env, frames: seq<Frame>, a: seq<Row>, b: seq<Row>)
    ensures var whole, first := Apply(env, frames, a + b), Apply(env, frames, a);
            && (whole.Ok? <==> first.Ok? && Apply(env, first.value.frames, b).Ok?)
            && (whole.Ok? ==>
                  var second := Apply(env, first.value.frames, b).value;
                  whole.value == Applied(second.frames, first.value.rows + second.rows))
    decreases |frames|
  {
    if a == [] {
      assert a + b == b;
    } else if b == [] {
      assert a + b == a;
      if Apply(env, frames, a).Ok? {
        assert Apply(env, frames, a).value.rows + [] == Apply(env, frames, a).value.rows;
      }
    } else if frames != [] {
      ThroughDistributes(env, frames[0], a, b);
      if Through(env, frames[0], a + b).Ok? {
        var x := Through(env, frames[0], a).value;
        var y := Through(env, x.0, b).value;
        ApplyDistributes(env, frames[1..], x.1, y.1);
        if Apply(env, frames[1..], x.1).Ok? {
          var rest := Apply(env, frames[1..], x.1).value;
          assert ([x.0] + rest.frames)[1..] == rest.frames;
        }
      } else if Apply(env, frames, a).Ok? {
        assert Apply(env, frames, a).value.frames[0] == Through(env, frames[0], a).value.0;
      }
    }
  }

  /** However the rows are cut into chunks, streaming them is applying the pipeline once. */
  lemma {:induction false} ChunksMakeNoDifference(env: Env, frames: seq<Frame>, chunks: seq<seq<Row>>)
    ensures Stream(env, frames, chunks).Ok? <==> Apply(env, frames, Joined(chunks)).Ok?
    ensures Stream(env, frames, chunks).Ok? ==> Stream(env, frames, chunks) == Apply(env, frames, Joined(chunks))
    decreases |chunks|
  {
    if chunks != [] {
      ApplyDistributes(env, frames, chunks[0], Joined(chunks[1..]));
      if Apply(env, frames, chunks[0]).Ok? {
        ChunksMakeNoDifference(env, Apply(env, frames, chunks[0]).value.frames, chunks[1..]);
      }
    }
  }

  // ---- the page a plan yields ----

  /** What OFFSET and LIMIT leave of the rows below them; an offset past the end leaves nothing. */
  function Page(rows: seq<Row>, offset: nat, limit: nat): (page: seq<Row>)
    ensures |page| == Min(limit, if offset < |rows| then |rows| - offset else 0)
    ensures forall i | 0 <= i < |page| :: page[i] == rows[offset + i]
  {
    var rest := rows[Min(|rows|, offset)..];
    rest[..Min(|rest|, limit)]
  }

  function PageFrames(offset: Option<nat>, limit: Option<nat>, outputs: seq<Expr>): seq<Frame> {
    (if offset.Some? then [OffsetFrame(offset.value)] else [])
    + ((if limit.Some? then [LimitFrame(limit.value)] else []) + [ProjectionFrame(outputs)])
  }

  lemma ProjectingLast(env: Env, outputs: seq<Expr>, rows: seq<Row>)
    ensures var applied := Apply(env, [ProjectionFrame(outputs)], rows);
            && (applied.Ok? <==> ProjectRows(env, outputs, rows).Ok?)
            && (applied.Ok? ==> applied.value.rows == ProjectRows(env, outputs, rows).value)
  {
  }

  lemma LimitThenProject(env: Env, limit: Option<nat>, outputs: seq<Expr>, rows: seq<Row>)
    ensures var frames := (if limit.Some? then [LimitFrame(limit.value)] else []) + [ProjectionFrame(outputs)];
            var applied := Apply(env, frames, rows);
            var page := rows[..Min(|rows|, limit.GetOr(|rows|))];
            && (applied.Ok? <==> ProjectRows(env, outputs, page).Ok?)
            && (applied.Ok? ==> applied.value.rows == ProjectRows(env, outputs, page).value)
  {
    var page := rows[..Min(|rows|, limit.GetOr(|rows|))];
    ProjectingLast(env, outputs, page);
    if limit.Some? {
      assert ([LimitFrame(limit.value)] + [ProjectionFrame(outputs)])[1..] == [ProjectionFrame(outputs)];
    } else {
      assert page == rows && [] + [ProjectionFrame(outputs)] == [ProjectionFrame(outputs)];
    }
  }

  lemma PageThenProject(env: Env, offset: Option<nat>, limit: Option<nat>, outputs: seq<Expr>, rows: seq<Row>)
    ensures var applied := Apply(env, PageFrames(offset, limit, outputs), rows);
            var page := Page(rows, offset.GetOr(0), limit.GetOr(|rows|));
            && (applied.Ok? <==> ProjectRows(env, outputs, page).Ok?)
            && (applied.Ok? ==> applied.value.rows == ProjectRows(env, outputs, page).value)
  {
    var upper := (if limit.Some? then [LimitFrame(limit.value)] else []) + [ProjectionFrame(outputs)];
    var rest := rows[Min(|rows|, offset.GetOr(0))..];
    LimitThenProject(env, limit, outputs, rest);
    assert Page(rows, offset.GetOr(0), limit.GetOr(|rows|)) == rest[..Min(|rest|, limit.GetOr(|rest|))];
    if offset.Some? {
      assert PageFrames(offset, limit, outputs)[1..] == upper;
    } else {
      assert PageFrames(offset, limit, outputs) == upper && rest == rows;
    }
  }

  function Count(env: Env, bound: Option<Expr>, isLimit: bool): Result<Option<nat>> {
    if bound.None? then Ok(None)
    else
      var count :- if isLimit then LimitCount(env, bound.value) else OffsetCount(env, bound.value);
      Ok(Some(count))
  }

  function CoreFrames(filter: Option<Expr>, orders: seq<Order>): seq<Frame> {
    if orders != [] || filter.None? || ConstantTruth(filter.value) == Some(true) then []
    else [FilterFrame(filter.value)]
  }

  /** A plan's pipeline: a count that is no count fails it, the limit's first. */
  lemma PipelineOfPlan(env: Env, table: Table, outputs: seq<Expr>, filter: Option<Expr>, orders: seq<Order>,
                       offset: Option<Expr>, limit: Option<Expr>, preferIndex: bool)
    ensures var frames := FramesOf(env, OptimizeSelect(table, outputs, filter, orders, offset, limit, preferIndex));
            var skip, emit := Count(env, offset, false), Count(env, limit, true);
            && (emit.Err? ==> frames == Err(emit.state))
            && (emit.Ok? && skip.Err? ==> frames == Err(skip.state))
            && (emit.Ok? && skip.Ok? ==>
                  frames == Ok(CoreFrames(filter, orders) + PageFrames(skip.value, emit.value, outputs)))
  {
    var core := Core(table, outputs, filter, orders, preferIndex);
    var below := CoreFrames(filter, orders);
    FramesOfCore(env, table, outputs, filter, orders, preferIndex);
    var skip, emit := Count(env, offset, false), Count(env, limit, true);
    if emit.Ok? && skip.Ok? {
      FramesAbove(env, core, below, outputs, offset, limit);
    } else {
      var skipped := if offset.Some? then Offset(offset.value, core) else core;
      var limited := if limit.Some? then Limit(limit.value, skipped) else skipped;
      assert FramesOf(env, limited) == Err(if emit.Err? then emit.state else skip.state);
    }
  }

  lemma FramesOfCore(env: Env, table: Table, outputs: seq<Expr>, filter: Option<Expr>, orders: seq<Order>,
                     preferIndex: bool)
    ensures FramesOf(env, Core(table, outputs, filter, orders, preferIndex)) == Ok(CoreFrames(filter, orders))
  {
    if filter.Some? {
      var none: seq<Frame> := [];
      assert none + [FilterFrame(filter.value)] == [FilterFrame(filter.value)];
    }
  }

  lemma FramesAbove(env: Env, core: Plan, below: seq<Frame>, outputs: seq<Expr>, offset: Option<Expr>,
                    limit: Option<Expr>)
    requires FramesOf(env, core) == Ok(below) && Count(env, offset, false).Ok? && Count(env, limit, true).Ok?
    ensures var skipped := if offset.Some? then Offset(offset.value, core) else core;
            var limited := if limit.Some? then Limit(limit.value, skipped) else skipped;
            FramesOf(env, Projection(outputs, limited))
            == Ok(below + PageFrames(Count(env, offset, false).value, Count(env, limit, true).value, outputs))
  {
    var skip, emit := Count(env, offset, false).value, Count(env, limit, true).value;
    var first := if skip.Some? then [OffsetFrame(skip.value)] else [];
    var second := if emit.Some? then [LimitFrame(emit.value)] else [];
    var skipped := if offset.Some? then Offset(offset.value, core) else core;
    assert below + [] == below && below + first + [] == below + first;
    assert FramesOf(env, skipped) == Ok(below + first);
    assert FramesOf(env, if limit.Some? then Limit(limit.value, skipped) else skipped) == Ok(below + first + second);
    assert below + first + second + [ProjectionFrame(outputs)]
           == below + (first + (second + [ProjectionFrame(outputs)]));
  }

  // ---- rows in another order ----

  /** Filtering a rearrangement fails where filtering the rows does, and else keeps the same bag. */
  lemma FilterRearranged(env: Env, filter: Expr, a: seq<Row>, b: seq<Row>)
    requires multiset(a) == multiset(b)
    ensures FilterRows(env, filter, a).Ok? <==> FilterRows(env, filter, b).Ok?
    ensures FilterRows(env, filter, a).Ok? ==>
              multiset(FilterRows(env, filter, a).value) == multiset(FilterRows(env, filter, b).value)
  {
    FilterRowsIsPassing(env, filter, a);
    FilterRowsIsPassing(env, filter, b);
    assert forall row :: row in a <==> row in multiset(a);
    assert forall row :: row in b <==> row in multiset(b);
    forall row
      ensures multiset(Passing(env, filter, a))[row] == multiset(Passing(env, filter, b))[row]
    {
      PassingCount(env, filter, a, row);
      PassingCount(env, filter, b, row);
    }
  }

  /** The rows below OFFSET, LIMIT and sort, in the order the scan hands them on. */
  function Below(env: Env, filter: Option<Expr>, rows: seq<Row>): Result<seq<Row>> {
    if CoreFrames(filter, []) == [] then Ok(rows) else FilterRows(env, filter.value, rows)
  }

  /** In whatever order a scan hands on its rows: what comes out below OFFSET and LIMIT is an
      arrangement of the plan's bag of rows, and fails where that does. */
  lemma BelowArrangesCore(env: Env, nullKeys: bool, table: Table, outputs: seq<Expr>, filter: Option<Expr>,
                          orders: seq<Order>, preferIndex: bool, rows: seq<Row>)
    requires var source := ScanRows(env, nullKeys, ChooseAccess(table, filter, preferIndex), table.rows);
             source.Ok? && multiset(rows) == multiset(source.value)
    ensures var below := Below(env, filter, rows);
            var core := RowsOf(env, nullKeys, Core(table, outputs, filter, orders, preferIndex), table.rows);
            (below.Ok? <==> core.Ok?) && (below.Ok? ==> multiset(below.value) == multiset(core.value))
  {
    if CoreFrames(filter, []) != [] {
      var source := ScanRows(env, nullKeys, ChooseAccess(table, filter, preferIndex), table.rows);
      FilterRearranged(env, filter.value, rows, source.value);
    }
  }

  lemma ApplyBelow(env: Env, filter: Option<Expr>, upper: seq<Frame>, rows: seq<Row>)
    ensures var applied, below := Apply(env, CoreFrames(filter, []) + upper, rows), Below(env, filter, rows);
            && (applied.Ok? <==> below.Ok? && Apply(env, upper, below.value).Ok?)
            && (applied.Ok? ==> applied.value.rows == Apply(env, upper, below.value).value.rows)
  {
    if CoreFrames(filter, []) == [] {
      assert CoreFrames(filter, []) + upper == upper;
    } else {
      assert (CoreFrames(filter, []) + upper)[1..] == upper;
    }
  }

  function PageOf(rows: seq<Row>, skip: Option<nat>, emit: Option<nat>): seq<Row> {
    Page(rows, skip.GetOr(0), emit.GetOr(|rows|))
  }

  /** A plan without ORDER BY, over a scan that hands on its rows in any order and any chunks: its
      outputs are the page of the rows below OFFSET and LIMIT, projected, and it fails exactly if
      a row below cannot be filtered or a row of the page cannot be projected. */
  lemma StreamedPlanYieldsPage(env: Env, nullKeys: bool, table: Table, outputs: seq<Expr>, filter: Option<Expr>,
                               offset: Option<Expr>, limit: Option<Expr>, preferIndex: bool, chunks: seq<seq<Row>>)
    requires Count(env, offset, false).Ok? && Count(env, limit, true).Ok?
    requires var source := ScanRows(env, nullKeys, ChooseAccess(table, filter, preferIndex), table.rows);
             source.Ok? && multiset(Joined(chunks)) == multiset(source.value)
    ensures var frames := FramesOf(env, OptimizeSelect(table, outputs, filter, [], offset, limit, preferIndex));
            var skip, emit := Count(env, offset, false).value, Count(env, limit, true).value;
            var core := RowsOf(env, nullKeys, Core(table, outputs, filter, [], preferIndex), table.rows);
            var below := Below(env, filter, Joined(chunks));
            && frames.Ok? && (below.Ok? <==> core.Ok?)
            && (below.Ok? ==> multiset(below.value) == multiset(core.value))
            && var done := Stream(env, frames.value, chunks);
               && (done.Ok? <==> below.Ok? && ProjectRows(env, outputs, PageOf(below.value, skip, emit)).Ok?)
               && (done.Ok? ==> done.value.rows == ProjectRows(env, outputs, PageOf(below.value, skip, emit)).value)
  {
    var skip, emit := Count(env, offset, false).value, Count(env, limit, true).value;
    var upper := PageFrames(skip, emit, outputs);
    PipelineOfPlan(env, table, outputs, filter, [], offset, limit, preferIndex);
    ChunksMakeNoDifference(env, CoreFrames(filter, []) + upper, chunks);
    BelowArrangesCore(env, nullKeys, table, outputs, filter, [], preferIndex, Joined(chunks));
    ApplyBelow(env, filter, upper, Joined(chunks));
    if Below(env, filter, Joined(chunks)).Ok? {
      PageThenProject(env, skip, emit, outputs, Below(env, filter, Joined(chunks)).value);
    }
  }

  // A sort consumes all its rows; it may fail on a key, and else hands them on rearranged.
  type SortOperator = seq<Row> -> Result<seq<seq<Row>>>

  ghost predicate Arranges(sort: SortOperator) {
    forall rows :: sort(rows).Ok? ==> multiset(Joined(sort(rows).value)) == multiset(rows)
  }

  /** A sorting pipeline: the frames below the sort run to the end before those above it start. */
  function StreamSorted(env: Env, lower: seq<Frame>, sort: SortOperator, upper: seq<Frame>, chunks: seq<seq<Row>>)
    : Result<seq<Row>>
  {
    var fed :- Stream(env, lower, chunks);
    var sorted :- sort(fed.rows);
    var done :- Stream(env, upper, sorted);
    Ok(done.rows)
  }

  lemma LowerOfSorted(env: Env, table: Table, outputs: seq<Expr>, filter: Option<Expr>, orders: seq<Order>,
                      preferIndex: bool, chunks: seq<seq<Row>>)
    requires orders != []
    ensures var lower := FramesOf(env, Core(table, outputs, filter, orders, preferIndex).sorted);
            var below := Below(env, filter, Joined(chunks));
            && lower.Ok?
            && var fed := Stream(env, lower.value, chunks);
               (fed.Ok? <==> below.Ok?) && (fed.Ok? ==> fed.value.rows == below.value)
  {
    var lower := CoreFrames(filter, []);
    var none: seq<Frame> := [];
    assert filter.Some? ==> none + [FilterFrame(filter.value)] == [FilterFrame(filter.value)];
    assert lower + none == lower;
    ChunksMakeNoDifference(env, lower, chunks);
    ApplyBelow(env, filter, none, Joined(chunks));
  }

  /** A plan with ORDER BY: the sort is fed an arrangement of the plan's bag of rows, or the plan
      fails with it.  Whatever the sort makes of them, the outputs are those of the page of its
      arrangement, and nothing fails but the rows below, the sort, or a row of that page. */
  lemma SortedPlanYieldsPage(env: Env, nullKeys: bool, table: Table, outputs: seq<Expr>, filter: Option<Expr>,
                             orders: seq<Order>, offset: Option<Expr>, limit: Option<Expr>, preferIndex: bool,
                             chunks: seq<seq<Row>>, sort: SortOperator)
    requires orders != [] && Arranges(sort) && Count(env, offset, false).Ok? && Count(env, limit, true).Ok?
    requires var source := ScanRows(env, nullKeys, ChooseAccess(table, filter, preferIndex), table.rows);
             source.Ok? && multiset(Joined(chunks)) == multiset(source.value)
    ensures var core := Core(table, outputs, filter, orders, preferIndex);
            var lower := FramesOf(env, core.sorted);
            var upper := FramesOf(env, OptimizeSelect(table, outputs, filter, orders, offset, limit, preferIndex));
            var skip, emit := Count(env, offset, false).value, Count(env, limit, true).value;
            var rows, fed := RowsOf(env, nullKeys, core, table.rows), Below(env, filter, Joined(chunks));
            && lower.Ok? && upper.Ok? && (fed.Ok? <==> rows.Ok?)
            && var done := StreamSorted(env, lower.value, sort, upper.value, chunks);
               && (rows.Err? ==> done.Err?)
               && (fed.Ok? ==>
                     && multiset(fed.value) == multiset(rows.value)
                     && (sort(fed.value).Err? ==> done.Err?)
                     && (sort(fed.value).Ok? ==>
                           var arranged := Joined(sort(fed.value).value);
                           var page := ProjectRows(env, outputs, PageOf(arranged, skip, emit));
                           && multiset(arranged) == multiset(rows.value)
                           && (done.Ok? <==> page.Ok?) && (done.Ok? ==> done == page)))
  {
    var skip, emit := Count(env, offset, false).value, Count(env, limit, true).value;
    var upper := PageFrames(skip, emit, outputs);
    PipelineOfPlan(env, table, outputs, filter, orders, offset, limit, preferIndex);
    assert CoreFrames(filter, orders) + upper == upper;
    LowerOfSorted(env, table, outputs, filter, orders, preferIndex, chunks);
    BelowArrangesCore(env, nullKeys, table, outputs, filter, orders, preferIndex, Joined(chunks));
    var below := Below(env, filter, Joined(chunks));
    if below.Ok? && sort(below.value).Ok? {
      var sorted := sort(below.value).value;
      ChunksMakeNoDifference(env, upper, sorted);
      PageThenProject(env, skip, emit, outputs, Joined(sorted));
    }
  }

  lemma {:induction false} ProjectedLength(env: Env, outputs: seq<Expr>, rows: seq<Row>)
    requires ProjectRows(env, outputs, rows).Ok?
    ensures |ProjectRows(env, outputs, rows).value| == |rows|
  {
    if rows != [] {
      ProjectedLength(env, outputs, rows[1..]);
    }
  }

  /** Projecting commutes with OFFSET and LIMIT, where every row can be projected. */
  lemma PageOfProjection(env: Env, outputs: seq<Expr>, rows: seq<Row>, offset: nat, limit: nat)
    requires ProjectRows(env, outputs, rows).Ok?
    ensures ProjectRows(env, outputs, Page(rows, offset, limit))
         == Ok(Page(ProjectRows(env, outputs, rows).value, offset, limit))
  {
    var from := Min(|rows|, offset);
    var to := from + |Page(rows, offset, limit)|;
    ProjectedLength(env, outputs, rows);
    ProjectionOfSlice(env, outputs, rows, from, to);
    assert Page(rows, offset, limit) == rows[from..to];
    assert Page(ProjectRows(env, outputs, rows).value, offset, limit)
           == ProjectRows(env, outputs, rows).value[from..to];
  }

  lemma ProjectionOfSlice(env: Env, outputs: seq<Expr>, rows: seq<Row>, from: nat, to: nat)
    requires ProjectRows(env, outputs, rows).Ok? && from <= to <= |rows| == |ProjectRows(env, outputs, rows).value|
    ensures ProjectRows(env, outputs, rows[from..to]) == Ok(ProjectRows(env, outputs, rows).value[from..to])
  {
    assert rows == rows[..from] + rows[from..] && rows[from..] == rows[from..to] + rows[to..];
    ProjectionDistributes(env, outputs, rows[..from], rows[from..]);
    ProjectionDistributes(env, outputs, rows[from..to], rows[to..]);
    ProjectedLength(env, outputs, rows[..from]);
    ProjectedLength(env, outputs, rows[from..to]);
    var before, page := ProjectRows(env, outputs, rows[..from]).value, ProjectRows(env, outputs, rows[from..to]).value;
    var after := ProjectRows(env, outputs, rows[to..]).value;
    assert (before + (page + after))[from..to] == page;
  }

  /** What OFFSET and LIMIT may be: NULL, which skips nothing and limits to the largest count, or a
      64-bit integer that is not negative. */
  lemma CountsAre(env: Env, bound: Expr)
    requires Eval(env, bound, []).Ok?
    ensures var v := Eval(env, bound, []).value;
            && OffsetCount(env, bound) == (match v
                                           case Null => Ok(0)
                                           case Scalar(0, n) => if n < 0 then Err("2201X") else Ok(n)
                                           case _ => Err("2201X"))
            && LimitCount(env, bound) == (match v
                                          case Null => Ok(0xFFFF_FFFF_FFFF_FFFF)
                                          case Scalar(0, n) => if n < 0 then Err("2201W") else Ok(n)
                                          case _ => Err("2201W"))
  {
  }

  /** A row is projected to the value of each output, in order, and is not if one has none. */
  lemma {:induction false} ProjectedRowIs(env: Env, outputs: seq<Expr>, row: Row)
    ensures ProjectRow(env, outputs, row).Ok? <==> forall i | 0 <= i < |outputs| :: Eval(env, outputs[i], row).Ok?
    ensures ProjectRow(env, outputs, row).Ok? ==>
              && |ProjectRow(env, outputs, row).value| == |outputs|
              && forall i | 0 <= i < |outputs| ::
                   Ok(ProjectRow(env, outputs, row).value[i]) == Eval(env, outputs[i], row)
  {
    if outputs != [] {
      ProjectedRowIs(env, outputs[1..], row);
      assert outputs == [outputs[0]] + outputs[1..];
    }
  }

  /** Rows are projected one by one, in order, and are not if one cannot be. */
  lemma {:induction false} ProjectedRowsAre(env: Env, outputs: seq<Expr>, rows: seq<Row>)
    ensures ProjectRows(env, outputs, rows).Ok? <==> forall i | 0 <= i < |rows| :: ProjectRow(env, outputs, rows[i]).Ok?
    ensures ProjectRows(env, outputs, rows).Ok? ==>
              && |ProjectRows(env, outputs, rows).value| == |rows|
              && forall i | 0 <= i < |rows| ::
                   Ok(ProjectRows(env, outputs, rows).value[i]) == ProjectRow(env, outputs, rows[i])
  {
    if rows != [] {
      ProjectedRowsAre(env, outputs, rows[1..]);
      assert rows == [rows[0]] + rows[1..];
    }
  }
}

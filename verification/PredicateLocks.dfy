/** Predicate locks of serializable snapshot isolation and when two of them overlap. */
module PredicateLocks {
  import opened Base

  datatype PredicateLock =
    | Table(tableId: U64)
    | Row(tableId: U64, versionId: U64)
    | IndexRange(indexId: U64, lower: Option<Bytes>, upper: Option<Bytes>)

  predicate Overlaps(p: PredicateLock, q: PredicateLock) {
    match (p, q)
    case (Table(left), Table(right)) => left == right
    case (Table(table), Row(rowTable, _)) => table == rowTable
    case (Row(rowTable, _), Table(table)) => table == rowTable
    case (Row(leftTable, leftVersion), Row(rightTable, rightVersion)) =>
      leftTable == rightTable && leftVersion == rightVersion
    case (IndexRange(left, leftLower, leftUpper), IndexRange(right, rightLower, rightUpper)) =>
      left == right && RangesOverlap(leftLower, leftUpper, rightLower, rightUpper)
    case _ => false
  }

  predicate RangesOverlap(leftLower: Option<Bytes>, leftUpper: Option<Bytes>,
                          rightLower: Option<Bytes>, rightUpper: Option<Bytes>)
  {
    var leftBeforeRight := leftUpper.Some? && rightLower.Some? && BytesLess(leftUpper.value, rightLower.value);
    var rightBeforeLeft := rightUpper.Some? && leftLower.Some? && BytesLess(rightUpper.value, leftLower.value);
    !leftBeforeRight && !rightBeforeLeft
  }

  predicate OverlapsAny(p: PredicateLock, locks: set<PredicateLock>) {
    exists q | q in locks :: Overlaps(p, q)
  }

  predicate PredicatesOverlap(readSet: set<PredicateLock>, writeSet: set<PredicateLock>) {
    exists p | p in readSet :: OverlapsAny(p, writeSet)
  }

  lemma OverlapsSymmetric(p: PredicateLock, q: PredicateLock)
    ensures Overlaps(p, q) == Overlaps(q, p)
  {
  }

  /** What a predicate lock covers: rows of a table, or keys of an index. */
  datatype Item = RowItem(table: U64, version: U64) | KeyItem(index: U64, key: Bytes)

  predicate InRange(key: Bytes, lower: Option<Bytes>, upper: Option<Bytes>) {
    && (lower.Some? ==> BytesAtMost(lower.value, key))
    && (upper.Some? ==> BytesAtMost(key, upper.value))
  }

  predicate Covers(p: PredicateLock, item: Item) {
    match (p, item)
    case (Table(table), RowItem(t, _)) => table == t
    case (Row(table, version), RowItem(t, v)) => table == t && version == v
    case (IndexRange(index, lower, upper), KeyItem(i, key)) => index == i && InRange(key, lower, upper)
    case _ => false
  }

  /** An index range whose bounds cross covers nothing. */
  predicate WellFormed(p: PredicateLock) {
    p.IndexRange? && p.lower.Some? && p.upper.Some? ==> BytesAtMost(p.lower.value, p.upper.value)
  }

  function LargerBound(a: Option<Bytes>, b: Option<Bytes>): Bytes {
    match (a, b)
    case (Some(x), Some(y)) => if BytesLess(x, y) then y else x
    case (Some(x), None) => x
    case (None, Some(y)) => y
    case (None, None) => []
  }

  lemma RangesOverlapWitness(p: PredicateLock, q: PredicateLock)
    requires p.IndexRange? && q.IndexRange? && p.indexId == q.indexId
    requires WellFormed(p) && WellFormed(q) && Overlaps(p, q)
    ensures Covers(p, KeyItem(p.indexId, LargerBound(p.lower, q.lower)))
    ensures Covers(q, KeyItem(p.indexId, LargerBound(p.lower, q.lower)))
  {
    if p.lower.Some? && q.lower.Some? {
      BytesTotal(p.lower.value, q.lower.value);
    }
    BytesTotal(LargerBound(p.lower, q.lower), []);
  }

  lemma CommonItemOverlaps(p: PredicateLock, q: PredicateLock, item: Item)
    requires Covers(p, item) && Covers(q, item)
    ensures Overlaps(p, q) && WellFormed(p) && WellFormed(q)
  {
    if p.IndexRange? {
      forall a, b | a in {p, q} && b in {p, q} && a.lower.Some? && b.upper.Some?
        ensures BytesAtMost(a.lower.value, b.upper.value)
      {
        BytesAtMostTransitive(a.lower.value, item.key, b.upper.value);
      }
    }
  }

  /** The overlap test decides exactly whether the two locks cover a common row or index
      key.  A range with crossing bounds covers nothing, yet the test may still report an
      overlap for it; that is the only way in which the test over-approximates. */
  lemma OverlapsIffCommonItem(p: PredicateLock, q: PredicateLock)
    ensures (exists item :: Covers(p, item) && Covers(q, item)) <==>
            Overlaps(p, q) && WellFormed(p) && WellFormed(q)
  {
    forall item | Covers(p, item) && Covers(q, item)
      ensures Overlaps(p, q) && WellFormed(p) && WellFormed(q)
    {
      CommonItemOverlaps(p, q, item);
    }
    if Overlaps(p, q) && WellFormed(p) && WellFormed(q) {
      if p.IndexRange? {
        RangesOverlapWitness(p, q);
      } else {
        var item := RowItem(p.tableId, if p.Row? then p.versionId else if q.Row? then q.versionId else 0);
        assert Covers(p, item) && Covers(q, item);
      }
    }
  }

  /** The over-approximation: a range with crossing bounds overlaps the range of all keys of
      its index, though it covers none of them. */
  lemma CrossingBoundsOverlapNothingInCommon(indexId: U64, item: Item)
    ensures var crossing, all := IndexRange(indexId, Some([2]), Some([1])), IndexRange(indexId, None, None);
            Overlaps(crossing, all) && !WellFormed(crossing) && !Covers(crossing, item)
  {
    BytesTotal([2], [1]);
    if item.KeyItem? && InRange(item.key, Some([2]), Some([1])) {
      BytesAtMostTransitive([2], item.key, [1]);
    }
  }
}

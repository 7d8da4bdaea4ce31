/** Which rows can be stored, and in how many bytes. */
module TupleSizes {
  import opened Base
  import opened Tuple

  predicate DocumentFits(written: Option<Bytes>) { written.Some? && |written.value| < U32_LIMIT }

  /** A value whose length fits its prefix; documents must also be writable. */
  predicate Fits(library: Library, v: Value) {
    match v
    case Text(text) => |text| < U32_LIMIT
    case Binary(bytes) => |bytes| < U32_LIMIT
    case Json(d) => DocumentFits(library.writeJson(d))
    case Jsonb(d) => DocumentFits(library.writeJson(d))
    case Vector(words) => |words| < U32_LIMIT
    case Array(d) => DocumentFits(library.writeArray(d))
    case _ => true
  }

  /** The bytes of a value: its tag, its fixed part and what its length prefix counts. */
  function Size(library: Library, v: Value): nat
    requires Fits(library, v)
  {
    match v
    case Null => 1
    case Boolean(_) => 2
    case Int16(_) => 3
    case Int32(_) => 5
    case Int64(_) => 9
    case Float32(_) => 5
    case Float64(_) => 9
    case Decimal(digits) => 1 + |digits|
    case Text(text) => 5 + |text|
    case Binary(bytes) => 5 + |bytes|
    case Date(_) => 5
    case Time(_, _) => 9
    case Timestamp(_, _) => 13
    case Json(d) => 5 + |library.writeJson(d).value|
    case Jsonb(d) => 5 + |library.writeJson(d).value|
    case Uuid(uuid) => 1 + |uuid|
    case Vector(words) => 5 + 4 * |words|
    case Interval(_, _, _) => 17
    case Array(d) => 5 + |library.writeArray(d).value|
  }

  predicate AllFit(library: Library, row: seq<Value>) {
    forall i | 0 <= i < |row| :: Fits(library, row[i])
  }

  function TotalSize(library: Library, row: seq<Value>): nat
    requires AllFit(library, row)
  {
    if row == [] then 0 else Size(library, row[0]) + TotalSize(library, row[1..])
  }

  lemma {:induction false} WordsLength(words: seq<U32>)
    ensures |EncodeWords(words)| == 4 * |words|
  {
    if words != [] {
      WordsLength(words[1..]);
    }
  }

  lemma ValueHasItsSize(library: Library, v: Value)
    ensures EncodeValue(library, v).Ok? <==> Fits(library, v)
    ensures Fits(library, v) ==> |EncodeValue(library, v).value| == Size(library, v)
  {
    if v.Vector? {
      WordsLength(v.elements);
    }
  }

  lemma {:induction false} ValuesHaveTheirSize(library: Library, row: seq<Value>)
    ensures EncodeValues(library, row).Ok? <==> AllFit(library, row)
    ensures AllFit(library, row) ==> |EncodeValues(library, row).value| == TotalSize(library, row)
  {
    if row != [] {
      ValueHasItsSize(library, row[0]);
      ValuesHaveTheirSize(library, row[1..]);
      assert AllFit(library, row) <==> Fits(library, row[0]) && AllFit(library, row[1..]) by {
        assert row == [row[0]] + row[1..];
      }
    }
  }

  /** A row can be stored exactly if every value fits and there are fewer than 2^16 of them, or,
      behind a header, as many as a sound header says; it then takes 2 bytes, or 32, beside the
      bytes of its values. */
  lemma StoredIffValuesFit(library: Library, row: seq<Value>, h: Header)
    ensures EncodeRow(library, row).Ok? <==> AllFit(library, row) && |row| < U16_LIMIT
    ensures EncodeRow(library, row).Ok? ==> |EncodeRow(library, row).value| == 2 + TotalSize(library, row)
    ensures EncodeRowV2(library, row, h).Ok? <==> AllFit(library, row) && HeaderSound(h) && |row| == h.columnCount
    ensures EncodeRowV2(library, row, h).Ok? ==>
              |EncodeRowV2(library, row, h).value| == HEADER_V2 + TotalSize(library, row)
  {
    ValuesHaveTheirSize(library, row);
  }
}

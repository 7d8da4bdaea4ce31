/** Rows are read back exactly: whatever the program can hold and encode, in either format,
    decodes to the same values and the same header. */
module TupleRoundTrip {
  import opened Base
  import opened LittleEndian
  import opened Utf8
  import opened Tuple

  lemma SignedInverse(a: I16, b: I32, c: I64)
    ensures Signed16(Unsigned16(a)) == a && Signed32(Unsigned32(b)) == b && Signed64(Unsigned64(c)) == c
  {
  }

  lemma ExactlyIsRead(bytes: Bytes, rest: Bytes)
    ensures TakeExactly(bytes + rest, |bytes|) == Ok(Parsed(bytes, rest))
  {
  }

  lemma PrefixedIsRead(payload: Bytes, rest: Bytes, b: Bytes)
    requires Prefixed(payload).Ok? && b == Prefixed(payload).value + rest
    ensures TakePrefixed(b) == Ok(Parsed(payload, rest))
  {
    assert b == U32Le(|payload|) + (payload + rest);
    TakeU32Inverse(|payload|, payload + rest, []);
    ExactlyIsRead(payload, rest);
  }

  lemma DocumentIsRead(written: Option<Bytes>, read: Bytes -> Option<Document>, d: Document, rest: Bytes, b: Bytes)
    requires PrefixedDocument(written).Ok? && read(written.value) == Some(d)
    requires b == PrefixedDocument(written).value + rest
    ensures TakeDocument(read, b) == Ok(Parsed(d, rest))
  {
    PrefixedIsRead(written.value, rest, b);
  }

  lemma {:induction false} WordsAreRead(words: seq<U32>, rest: Bytes, b: Bytes)
    requires b == EncodeWords(words) + rest
    ensures TakeWords(b, |words|) == Ok(Parsed(words, rest)) && |EncodeWords(words)| == 4 * |words|
  {
    if words == [] {
      assert b == rest;
    } else {
      var tail := EncodeWords(words[1..]) + rest;
      assert b == U32Le(words[0]) + tail;
      TakeU32Inverse(words[0], tail, []);
      WordsAreRead(words[1..], rest, tail);
      assert words == [words[0]] + words[1..];
    }
  }

  lemma VectorIsRead(words: seq<U32>, encoded: Bytes, rest: Bytes, b: Bytes)
    requires |words| < U32_LIMIT && encoded == EncodeWords(words) && b == U32Le(|words|) + encoded + rest
    ensures TakeVector(b) == Ok(Parsed(Vector(words), rest))
  {
    var tail := encoded + rest;
    WordsAreRead(words, rest, tail);
    CountIsRead(|words|, encoded, rest, b);
    VectorFromParts(b, |words|, tail, words, rest);
  }

  lemma CountIsRead(count: U32, encoded: Bytes, rest: Bytes, b: Bytes)
    requires b == U32Le(count) + encoded + rest
    ensures TakeU32(b) == Ok(Parsed(count, encoded + rest))
  {
    assert b == U32Le(count) + (encoded + rest);
    TakeU32Inverse(count, encoded + rest, []);
  }

  lemma VectorFromParts(b: Bytes, count: U32, tail: Bytes, words: seq<U32>, rest: Bytes)
    requires TakeU32(b) == Ok(Parsed(count, tail)) && count * 4 <= |tail|
             && TakeWords(tail, count) == Ok(Parsed(words, rest))
    ensures TakeVector(b) == Ok(Parsed(Vector(words), rest))
  {
  }

  lemma TimeIsRead(library: Library, second: U32, nanos: U32, rest: Bytes, b: Bytes)
    requires b == U32Le(second) + U32Le(nanos) + rest && library.timeExists(second, nanos)
    ensures TakeTime(library, b) == Ok(Parsed(Time(second, nanos), rest))
  {
    assert b == U32Le(second) + (U32Le(nanos) + rest);
    TakeU32Inverse(second, U32Le(nanos) + rest, []);
    TakeU32Inverse(nanos, rest, []);
  }

  lemma TimestampIsRead(library: Library, seconds: I64, nanos: U32, rest: Bytes, b: Bytes)
    requires b == U64Le(Unsigned64(seconds)) + U32Le(nanos) + rest && library.timestampExists(seconds, nanos)
    ensures TakeTimestamp(library, b) == Ok(Parsed(Timestamp(seconds, nanos), rest))
  {
    assert b == U64Le(Unsigned64(seconds)) + (U32Le(nanos) + rest);
    TakeU64Inverse(Unsigned64(seconds), U32Le(nanos) + rest, []);
    TakeU32Inverse(nanos, rest, []);
    SignedInverse(0, 0, seconds);
  }

  lemma IntervalIsRead(months: I32, days: I32, micros: I64, rest: Bytes, b: Bytes)
    requires b == U32Le(Unsigned32(months)) + (U32Le(Unsigned32(days)) + U64Le(Unsigned64(micros))) + rest
    ensures TakeInterval(b) == Ok(Parsed(Interval(months, days, micros), rest))
  {
    var third := U64Le(Unsigned64(micros)) + rest;
    var second := U32Le(Unsigned32(days)) + third;
    assert b == U32Le(Unsigned32(months)) + second;
    TakeU32Inverse(Unsigned32(months), second, []);
    TakeU32Inverse(Unsigned32(days), third, []);
    TakeU64Inverse(Unsigned64(micros), rest, []);
    SignedInverse(0, months, micros);
    SignedInverse(0, days, micros);
  }

  lemma WordIsRead(library: Library, v: Value, rest: Bytes, b: Bytes)
    requires v.Int16? || v.Int32? || v.Int64? || v.Float32? || v.Float64?
    requires b == EncodeBody(library, v).value + rest
    ensures TakeBody(library, TagOf(v), b) == Ok(Parsed(v, rest))
  {
    match v
    case Int16(i) => TakeU16Inverse(Unsigned16(i), rest, []); SignedInverse(i, 0, 0);
    case Int32(i) => TakeU32Inverse(Unsigned32(i), rest, []); SignedInverse(0, i, 0);
    case Int64(i) => TakeU64Inverse(Unsigned64(i), rest, []); SignedInverse(0, 0, i);
    case Float32(bits) => TakeU32Inverse(bits, rest, []);
    case Float64(bits) => TakeU64Inverse(bits, rest, []);
  }

  lemma MomentIsRead(library: Library, v: Value, rest: Bytes, b: Bytes)
    requires Holds(library, v) && (v.Date? || v.Time? || v.Timestamp? || v.Interval?)
    requires b == EncodeBody(library, v).value + rest
    ensures TakeBody(library, TagOf(v), b) == Ok(Parsed(v, rest))
  {
    match v
    case Date(days) => TakeU32Inverse(Unsigned32(days), rest, []); SignedInverse(0, days, 0);
    case Time(second, nanos) => TimeIsRead(library, second, nanos, rest, b);
    case Timestamp(seconds, nanos) => TimestampIsRead(library, seconds, nanos, rest, b);
    case Interval(months, days, micros) => IntervalIsRead(months, days, micros, rest, b);
  }

  lemma DocumentValueIsRead(library: Library, v: Value, rest: Bytes, b: Bytes)
    requires Lawful(library) && (v.Json? || v.Jsonb? || v.Array?) && EncodeBody(library, v).Ok?
    requires b == EncodeBody(library, v).value + rest
    ensures TakeBody(library, TagOf(v), b) == Ok(Parsed(v, rest))
  {
    match v
    case Json(d) => DocumentIsRead(library.writeJson(d), library.readJson, d, rest, b);
    case Jsonb(d) => DocumentIsRead(library.writeJson(d), library.readJson, d, rest, b);
    case Array(d) => DocumentIsRead(library.writeArray(d), library.readArray, d, rest, b);
  }

  lemma FixedValueIsRead(library: Library, v: Value, rest: Bytes, b: Bytes)
    requires Holds(library, v) && (v.Null? || v.Boolean? || v.Decimal? || v.Uuid?)
    requires b == EncodeBody(library, v).value + rest
    ensures TakeBody(library, TagOf(v), b) == Ok(Parsed(v, rest))
  {
    match v
    case Decimal(digits) => ExactlyIsRead(digits, rest);
    case Uuid(uuid) => ExactlyIsRead(uuid, rest);
    case Boolean(truth) => assert b[1..] == rest;
    case Null => assert b == rest;
  }

  lemma LengthValueIsRead(library: Library, v: Value, rest: Bytes, b: Bytes)
    requires Holds(library, v) && EncodeBody(library, v).Ok? && (v.Text? || v.Binary?)
    requires b == EncodeBody(library, v).value + rest
    ensures TakeBody(library, TagOf(v), b) == Ok(Parsed(v, rest))
  {
    if v.Text? {
      TextIsRead(v.text, rest, b);
    } else {
      PrefixedIsRead(v.bytes, rest, b);
    }
  }

  lemma TextIsRead(text: Bytes, rest: Bytes, b: Bytes)
    requires ValidUtf8(text) && Prefixed(text).Ok? && b == Prefixed(text).value + rest
    ensures TakeText(b) == Ok(Parsed(Text(text), rest))
  {
    PrefixedIsRead(text, rest, b);
  }

  lemma VectorValueIsRead(library: Library, v: Value, rest: Bytes, b: Bytes)
    requires v.Vector? && EncodeBody(library, v).Ok? && b == EncodeBody(library, v).value + rest
    ensures TakeBody(library, TagOf(v), b) == Ok(Parsed(v, rest))
  {
    VectorIsRead(v.elements, EncodeWords(v.elements), rest, b);
  }

  lemma BodyIsRead(library: Library, v: Value, rest: Bytes, b: Bytes)
    requires Lawful(library) && Holds(library, v) && EncodeBody(library, v).Ok?
    requires b == EncodeBody(library, v).value + rest
    ensures TakeBody(library, TagOf(v), b) == Ok(Parsed(v, rest))
  {
    if v.Int16? || v.Int32? || v.Int64? || v.Float32? || v.Float64? {
      WordIsRead(library, v, rest, b);
    } else if v.Date? || v.Time? || v.Timestamp? || v.Interval? {
      MomentIsRead(library, v, rest, b);
    } else if v.Json? || v.Jsonb? || v.Array? {
      DocumentValueIsRead(library, v, rest, b);
    } else if v.Text? || v.Binary? {
      LengthValueIsRead(library, v, rest, b);
    } else if v.Vector? {
      VectorValueIsRead(library, v, rest, b);
    } else {
      FixedValueIsRead(library, v, rest, b);
    }
  }

  lemma ValueIsRead(library: Library, v: Value, rest: Bytes, b: Bytes)
    requires Lawful(library) && Holds(library, v) && EncodeValue(library, v).Ok?
    requires b == EncodeValue(library, v).value + rest
    ensures TakeValue(library, b) == Ok(Parsed(v, rest))
  {
    var body := EncodeBody(library, v).value;
    assert b[0] == TagOf(v) && b[1..] == body + rest;
    BodyIsRead(library, v, rest, body + rest);
  }

  lemma OneMoreValueRead(library: Library, b: Bytes, count: nat, v: Value, middle: Bytes, others: seq<Value>,
                         rest: Bytes)
    requires TakeValue(library, b) == Ok(Parsed(v, middle))
    requires TakeValues(library, middle, count) == Ok(Parsed(others, rest))
    ensures TakeValues(library, b, count + 1) == Ok(Parsed([v] + others, rest))
  {
  }

  lemma FirstValueEncoded(library: Library, row: seq<Value>) returns (first: Bytes, later: Bytes)
    requires row != [] && EncodeValues(library, row).Ok?
    ensures EncodeValue(library, row[0]) == Ok(first) && EncodeValues(library, row[1..]) == Ok(later)
    ensures EncodeValues(library, row) == Ok(first + later)
  {
    first := EncodeValue(library, row[0]).value;
    later := EncodeValues(library, row[1..]).value;
  }

  lemma FirstValueIsRead(library: Library, v: Value, first: Bytes, later: Bytes, rest: Bytes, b: Bytes)
    requires Lawful(library) && Holds(library, v) && EncodeValue(library, v) == Ok(first) && b == first + later + rest
    ensures TakeValue(library, b) == Ok(Parsed(v, later + rest))
  {
    assert b == first + (later + rest);
    ValueIsRead(library, v, later + rest, b);
  }

  predicate AllHold(library: Library, row: seq<Value>) {
    row == [] || (Holds(library, row[0]) && AllHold(library, row[1..]))
  }

  lemma FirstHolds(library: Library, row: seq<Value>)
    requires row != [] && AllHold(library, row)
    ensures Holds(library, row[0]) && AllHold(library, row[1..])
  {
  }

  /** Once the later values are read from what follows the first, so is the whole row. */
  lemma FirstThenRest(library: Library, row: seq<Value>, values: Bytes, rest: Bytes, b: Bytes) returns (later: Bytes)
    requires Lawful(library) && AllHold(library, row) && EncodeValues(library, row) == Ok(values) && b == values + rest
    requires row != []
    ensures AllHold(library, row[1..]) && EncodeValues(library, row[1..]) == Ok(later)
    ensures TakeValues(library, later + rest, |row| - 1) == Ok(Parsed(row[1..], rest)) ==>
              TakeValues(library, b, |row|) == Ok(Parsed(row, rest))
  {
    var first;
    first, later := FirstValueEncoded(library, row);
    FirstHolds(library, row);
    FirstValueIsRead(library, row[0], first, later, rest, b);
    var middle, others := later + rest, row[1..];
    if TakeValues(library, middle, |others|) == Ok(Parsed(others, rest)) {
      OneMoreValueRead(library, b, |others|, row[0], middle, others, rest);
      assert row == [row[0]] + others;
    }
  }

  lemma {:induction false} ValuesAreRead(library: Library, row: seq<Value>, values: Bytes, rest: Bytes, b: Bytes)
    requires Lawful(library) && AllHold(library, row) && EncodeValues(library, row) == Ok(values) && b == values + rest
    ensures TakeValues(library, b, |row|) == Ok(Parsed(row, rest))
    decreases |row|
  {
    if row == [] {
      assert b == rest;
    } else {
      var later := FirstThenRest(library, row, values, rest, b);
      ValuesAreRead(library, row[1..], later, rest, later + rest);
    }
  }

  /** The plain format is read back exactly. */
  lemma DecodeRowInvertsEncodeRow(library: Library, row: seq<Value>)
    requires Lawful(library) && AllHold(library, row) && EncodeRow(library, row).Ok?
    ensures DecodeRow(library, EncodeRow(library, row).value) == Ok(row)
  {
    var values := EncodeValues(library, row).value;
    TakeU16Inverse(|row|, values, []);
    assert values + [] == values;
    ValuesAreRead(library, row, values, [], values);
  }

  lemma HeaderIsRead(h: Header, rest: Bytes)
    requires HeaderSound(h)
    ensures TakeHeader(WithHeader(h, rest)) == Ok(Parsed(h, rest))
  {
    var b6 := U32Le(h.previousVersion) + rest;
    var b5 := U32Le(h.commandId) + b6;
    var b4 := U64Le(h.xmax) + b5;
    var b3 := U64Le(h.xmin) + b4;
    var b2 := U16Le(h.columnCount) + b3;
    var b1 := U16Le(h.flags) + b2;
    TakeU16Inverse(FORMAT_V2, U16Le(HEADER_V2) + b1, []);
    TakeU16Inverse(HEADER_V2, b1, []);
    TakeU16Inverse(h.flags, b2, []);
    TakeU16Inverse(h.columnCount, b3, []);
    TakeU64Inverse(h.xmin, b4, []);
    TakeU64Inverse(h.xmax, b5, []);
    TakeU32Inverse(h.commandId, b6, []);
    TakeU32Inverse(h.previousVersion, rest, []);
  }

  /** The versioned format is read back exactly, header and all. */
  lemma DecodeRowV2InvertsEncodeRowV2(library: Library, row: seq<Value>, h: Header)
    requires Lawful(library) && AllHold(library, row) && EncodeRowV2(library, row, h).Ok?
    ensures DecodeRowV2(library, EncodeRowV2(library, row, h).value) == Ok((h, row))
  {
    var values := EncodeValues(library, row).value;
    HeaderIsRead(h, values);
    assert values + [] == values;
    ValuesAreRead(library, row, values, [], values);
  }
}

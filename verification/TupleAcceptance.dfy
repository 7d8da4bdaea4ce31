/** Which bytes are accepted as a stored row: exactly those the values spell out, one after the
    other, with nothing left over. */
module TupleAcceptance {
  import opened Base
  import opened LittleEndian
  import opened Utf8
  import opened Tuple
  import opened TupleRoundTrip

  /** A text the library reads as the document, behind its length. */
  ghost predicate SpellsDocument(read: Bytes -> Option<Document>, d: Document, body: Bytes) {
    exists text :: |text| < U32_LIMIT && read(text) == Some(d) && body == U32Le(|text|) + text
  }

  /** What may stand behind the tag of the value: its encoding, or any text of a document. */
  ghost predicate Spells(library: Library, v: Value, body: Bytes) {
    match v
    case Json(d) => SpellsDocument(library.readJson, d, body)
    case Jsonb(d) => SpellsDocument(library.readJson, d, body)
    case Array(d) => SpellsDocument(library.readArray, d, body)
    case _ => Holds(library, v) && EncodeBody(library, v) == Ok(body)
  }

  // ---- one value ----

  lemma PrefixedWasWritten(b: Bytes)
    requires TakePrefixed(b).Ok?
    ensures var text := TakePrefixed(b).value;
            |text.value| < U32_LIMIT && b == (U32Le(|text.value|) + text.value) + text.rest
  {
    TakeU32Inverse(0, [], b);
    var length := TakeU32(b).value;
    assert length.rest == length.rest[..length.value] + length.rest[length.value..];
  }

  lemma {:induction false} WordsWereWritten(b: Bytes, count: nat)
    requires TakeWords(b, count).Ok?
    ensures var words := TakeWords(b, count).value; |words.value| == count && b == EncodeWords(words.value) + words.rest
    decreases count
  {
    if count == 0 {
      var none: seq<U32> := [];
      assert b == EncodeWords(none) + b;
    } else {
      TakeU32Inverse(0, [], b);
      var head := TakeU32(b).value;
      WordsWereWritten(head.rest, count - 1);
      var tail := TakeWords(head.rest, count - 1).value;
      var words := [head.value] + tail.value;
      assert words[1..] == tail.value;
      assert b == (U32Le(head.value) + EncodeWords(tail.value)) + tail.rest;
    }
  }

  lemma VectorWasWritten(library: Library, b: Bytes)
    requires TakeVector(b).Ok?
    ensures var v := TakeVector(b).value;
            exists body :: Spells(library, v.value, body) && b == body + v.rest
  {
    TakeU32Inverse(0, [], b);
    var count := TakeU32(b).value;
    WordsWereWritten(count.rest, count.value);
    var words := TakeWords(count.rest, count.value).value;
    var body := U32Le(count.value) + EncodeWords(words.value);
    assert b == body + words.rest;
    assert Spells(library, Vector(words.value), body);
  }

  /** The bytes in front of what is left. */
  function Front(b: Bytes, rest: Bytes): Bytes {
    if |rest| <= |b| then b[..|b| - |rest|] else []
  }

  /** What was taken spells the value. */
  ghost predicate WasWritten(library: Library, b: Bytes, v: Parsed<Value>) {
    Spells(library, v.value, Front(b, v.rest)) && b == Front(b, v.rest) + v.rest
  }

  lemma FrontOf(b: Bytes, body: Bytes, rest: Bytes)
    requires b == body + rest
    ensures Front(b, rest) == body
  {
  }

  lemma UnsignedInverse(a: U16, b: U32, c: U64)
    ensures Unsigned16(Signed16(a)) == a && Unsigned32(Signed32(b)) == b && Unsigned64(Signed64(c)) == c
  {
  }

  lemma WordWasWritten(library: Library, tag: Byte, b: Bytes)
    requires 2 <= tag <= 6 && TakeBody(library, tag, b).Ok?
    ensures var v := TakeBody(library, tag, b).value;
            TagOf(v.value) == tag && WasWritten(library, b, v)
  {
    if tag == 2 {
      TakeU16Inverse(0, [], b);
      UnsignedInverse(TakeU16(b).value.value, 0, 0);
      FrontOf(b, U16Le(TakeU16(b).value.value), TakeU16(b).value.rest);
    } else if tag == 3 || tag == 5 {
      TakeU32Inverse(0, [], b);
      UnsignedInverse(0, TakeU32(b).value.value, 0);
      FrontOf(b, U32Le(TakeU32(b).value.value), TakeU32(b).value.rest);
    } else {
      TakeU64Inverse(0, [], b);
      UnsignedInverse(0, 0, TakeU64(b).value.value);
      FrontOf(b, U64Le(TakeU64(b).value.value), TakeU64(b).value.rest);
    }
  }

  lemma TimeWasWritten(library: Library, b: Bytes)
    requires TakeTime(library, b).Ok?
    ensures var v := TakeTime(library, b).value;
            v.value.Time? && WasWritten(library, b, v)
  {
    TakeU32Inverse(0, [], b);
    var second := TakeU32(b).value;
    TakeU32Inverse(0, [], second.rest);
    var nanos := TakeU32(second.rest).value;
    assert b == (U32Le(second.value) + U32Le(nanos.value)) + nanos.rest;
    FrontOf(b, U32Le(second.value) + U32Le(nanos.value), nanos.rest);
  }

  lemma TimestampWasWritten(library: Library, b: Bytes)
    requires TakeTimestamp(library, b).Ok?
    ensures var v := TakeTimestamp(library, b).value;
            v.value.Timestamp? && WasWritten(library, b, v)
  {
    TakeU64Inverse(0, [], b);
    var seconds := TakeU64(b).value;
    TakeU32Inverse(0, [], seconds.rest);
    var nanos := TakeU32(seconds.rest).value;
    UnsignedInverse(0, 0, seconds.value);
    assert b == (U64Le(seconds.value) + U32Le(nanos.value)) + nanos.rest;
    FrontOf(b, U64Le(seconds.value) + U32Le(nanos.value), nanos.rest);
  }

  lemma IntervalWasWritten(library: Library, b: Bytes)
    requires TakeInterval(b).Ok?
    ensures var v := TakeInterval(b).value;
            v.value.Interval? && WasWritten(library, b, v)
  {
    TakeU32Inverse(0, [], b);
    var months := TakeU32(b).value;
    TakeU32Inverse(0, [], months.rest);
    var days := TakeU32(months.rest).value;
    TakeU64Inverse(0, [], days.rest);
    var micros := TakeU64(days.rest).value;
    UnsignedInverse(0, months.value, micros.value);
    UnsignedInverse(0, days.value, micros.value);
    var body := U32Le(months.value) + (U32Le(days.value) + U64Le(micros.value));
    assert b == body + micros.rest;
    FrontOf(b, body, micros.rest);
  }

  lemma DateWasWritten(library: Library, b: Bytes)
    requires TakeDate(library, b).Ok?
    ensures var v := TakeDate(library, b).value;
            v.value.Date? && WasWritten(library, b, v)
  {
    TakeU32Inverse(0, [], b);
    UnsignedInverse(0, TakeU32(b).value.value, 0);
    FrontOf(b, U32Le(TakeU32(b).value.value), TakeU32(b).value.rest);
  }

  lemma FixedWasWritten(library: Library, tag: Byte, b: Bytes)
    requires tag in {0, 1, 7, 15} && TakeBody(library, tag, b).Ok?
    ensures var v := TakeBody(library, tag, b).value;
            TagOf(v.value) == tag && WasWritten(library, b, v)
  {
    if tag == 0 {
      FrontOf(b, [], b);
    } else if tag == 1 {
      FrontOf(b, [b[0]], b[1..]);
      assert b == [b[0]] + b[1..];
    } else {
      FrontOf(b, b[..16], b[16..]);
    }
  }

  lemma TextWasWritten(library: Library, tag: Byte, b: Bytes)
    requires tag in {8, 9} && TakeBody(library, tag, b).Ok?
    ensures var v := TakeBody(library, tag, b).value;
            TagOf(v.value) == tag && WasWritten(library, b, v)
  {
    PrefixedWasWritten(b);
    var text := TakePrefixed(b).value;
    FrontOf(b, U32Le(|text.value|) + text.value, text.rest);
  }

  lemma ElementsWereWritten(library: Library, b: Bytes)
    requires TakeVector(b).Ok?
    ensures var v := TakeVector(b).value;
            v.value.Vector? && WasWritten(library, b, v)
  {
    VectorWasWritten(library, b);
    var v := TakeVector(b).value;
    var body :| Spells(library, v.value, body) && b == body + v.rest;
    FrontOf(b, body, v.rest);
  }

  lemma DocumentWasWritten(read: Bytes -> Option<Document>, b: Bytes)
    requires TakeDocument(read, b).Ok?
    ensures var d := TakeDocument(read, b).value;
            SpellsDocument(read, d.value, Front(b, d.rest)) && b == Front(b, d.rest) + d.rest
  {
    PrefixedWasWritten(b);
    var text := TakePrefixed(b).value;
    FrontOf(b, U32Le(|text.value|) + text.value, text.rest);
  }

  lemma JsonWasWritten(library: Library, b: Bytes)
    requires TakeDocument(library.readJson, b).Ok?
    ensures var d := TakeDocument(library.readJson, b).value;
            && WasWritten(library, b, Parsed(Json(d.value), d.rest))
            && WasWritten(library, b, Parsed(Jsonb(d.value), d.rest))
  {
    DocumentWasWritten(library.readJson, b);
  }

  lemma ArrayWasWritten(library: Library, b: Bytes)
    requires TakeDocument(library.readArray, b).Ok?
    ensures var d := TakeDocument(library.readArray, b).value; WasWritten(library, b, Parsed(Array(d.value), d.rest))
  {
    DocumentWasWritten(library.readArray, b);
  }

  /** Whatever is read as a value was spelled out in the bytes taken. */
  lemma BodyWasWritten(library: Library, tag: Byte, b: Bytes)
    requires TakeBody(library, tag, b).Ok?
    ensures var v := TakeBody(library, tag, b).value;
            TagOf(v.value) == tag && WasWritten(library, b, v)
  {
    if 2 <= tag <= 6 {
      WordWasWritten(library, tag, b);
    } else if tag == 10 {
      DateWasWritten(library, b);
    } else if tag == 11 {
      TimeWasWritten(library, b);
    } else if tag == 12 {
      TimestampWasWritten(library, b);
    } else if tag == 17 {
      IntervalWasWritten(library, b);
    } else if tag in {0, 1, 7, 15} {
      FixedWasWritten(library, tag, b);
    } else if tag in {8, 9} {
      TextWasWritten(library, tag, b);
    } else if tag == 16 {
      ElementsWereWritten(library, b);
    } else if tag == 18 {
      ArrayWasWritten(library, b);
    } else {
      JsonWasWritten(library, b);
    }
  }

  lemma DocumentIsTaken(read: Bytes -> Option<Document>, d: Document, body: Bytes, rest: Bytes)
    requires SpellsDocument(read, d, body)
    ensures TakeDocument(read, body + rest) == Ok(Parsed(d, rest))
  {
    var text: Bytes :| |text| < U32_LIMIT && read(text) == Some(d) && body == U32Le(|text|) + text;
    PrefixedIsRead(text, rest, body + rest);
  }

  lemma DocumentValueIsTaken(library: Library, v: Value, body: Bytes, rest: Bytes, b: Bytes)
    requires (v.Json? || v.Jsonb? || v.Array?) && Spells(library, v, body) && b == body + rest
    ensures TakeBody(library, TagOf(v), b) == Ok(Parsed(v, rest))
  {
    match v
    case Json(d) => DocumentIsTaken(library.readJson, d, body, rest);
    case Jsonb(d) => DocumentIsTaken(library.readJson, d, body, rest);
    case Array(d) => DocumentIsTaken(library.readArray, d, body, rest);
  }

  /** And whatever is spelled out is read. */
  lemma SpelledIsRead(library: Library, v: Value, body: Bytes, rest: Bytes, b: Bytes)
    requires Spells(library, v, body) && b == body + rest
    ensures TakeBody(library, TagOf(v), b) == Ok(Parsed(v, rest))
  {
    if v.Json? || v.Jsonb? || v.Array? {
      DocumentValueIsTaken(library, v, body, rest, b);
    } else {
      assert Holds(library, v) && EncodeBody(library, v) == Ok(body);
      EncodedIsTaken(library, v, rest, b);
    }
  }

  lemma EncodedIsTaken(library: Library, v: Value, rest: Bytes, b: Bytes)
    requires !v.Json? && !v.Jsonb? && !v.Array? && Holds(library, v) && EncodeBody(library, v).Ok?
    requires b == EncodeBody(library, v).value + rest
    ensures TakeBody(library, TagOf(v), b) == Ok(Parsed(v, rest))
  {
    if v.Int16? || v.Int32? || v.Int64? || v.Float32? || v.Float64? {
      WordIsRead(library, v, rest, b);
    } else if v.Date? || v.Time? || v.Timestamp? || v.Interval? {
      MomentIsRead(library, v, rest, b);
    } else if v.Text? || v.Binary? {
      LengthValueIsRead(library, v, rest, b);
    } else if v.Vector? {
      VectorValueIsRead(library, v, rest, b);
    } else {
      FixedValueIsRead(library, v, rest, b);
    }
  }

  // ---- a whole row ----

  ghost predicate AllSpelled(library: Library, row: seq<Value>, bodies: seq<Bytes>) {
    if row == [] || bodies == [] then row == [] && bodies == []
    else Spells(library, row[0], bodies[0]) && AllSpelled(library, row[1..], bodies[1..])
  }

  /** The values, each behind its tag, in order. */
  function Written(row: seq<Value>, bodies: seq<Bytes>): Bytes {
    if row == [] || bodies == [] then [] else [TagOf(row[0])] + bodies[0] + Written(row[1..], bodies[1..])
  }

  lemma ValueIsTaken(library: Library, v: Value, body: Bytes, rest: Bytes, b: Bytes)
    requires Spells(library, v, body) && b == [TagOf(v)] + body + rest
    ensures TakeValue(library, b) == Ok(Parsed(v, rest))
  {
    var later := body + rest;
    assert b == [TagOf(v)] + later;
    SpelledIsRead(library, v, body, rest, later);
    assert b[0] == TagOf(v) && b[1..] == later;
  }

  lemma ValueWasWritten(library: Library, b: Bytes) returns (body: Bytes)
    requires TakeValue(library, b).Ok?
    ensures var v := TakeValue(library, b).value;
            Spells(library, v.value, body) && b == [TagOf(v.value)] + body + v.rest
  {
    var tag, later := b[0], b[1..];
    var v := TakeBody(library, tag, later).value;
    BodyWasWritten(library, tag, later);
    body := Front(later, v.rest);
    assert b == [tag] + later && later == body + v.rest;
  }

  lemma OneMoreSpelled(library: Library, v: Value, tail: seq<Value>, body: Bytes, later: seq<Bytes>)
    requires Spells(library, v, body) && AllSpelled(library, tail, later)
    ensures AllSpelled(library, [v] + tail, [body] + later)
  {
    assert ([v] + tail)[1..] == tail && ([body] + later)[1..] == later;
  }

  lemma OneMoreWritten(v: Value, tail: seq<Value>, body: Bytes, later: seq<Bytes>, rest: Bytes)
    ensures Written([v] + tail, [body] + later) + rest == [TagOf(v)] + body + (Written(tail, later) + rest)
  {
    assert ([v] + tail)[1..] == tail && ([body] + later)[1..] == later;
  }

  lemma {:induction false} ValuesWereWritten(library: Library, b: Bytes, count: nat, row: seq<Value>, rest: Bytes)
    returns (bodies: seq<Bytes>)
    requires TakeValues(library, b, count) == Ok(Parsed(row, rest))
    ensures |row| == count && AllSpelled(library, row, bodies) && b == Written(row, bodies) + rest
    decreases count
  {
    if count == 0 {
      bodies := [];
      assert b == Written(row, bodies) + rest;
    } else {
      var v, tail := FirstOfMany(library, b, count, row, rest);
      var later := ValuesWereWritten(library, v.rest, count - 1, tail, rest);
      bodies := FirstAndLater(library, b, v, tail, later, rest);
    }
  }

  lemma FirstAndLater(library: Library, b: Bytes, v: Parsed<Value>, tail: seq<Value>, later: seq<Bytes>, rest: Bytes)
    returns (bodies: seq<Bytes>)
    requires TakeValue(library, b) == Ok(v) && AllSpelled(library, tail, later) && v.rest == Written(tail, later) + rest
    ensures AllSpelled(library, [v.value] + tail, bodies) && b == Written([v.value] + tail, bodies) + rest
  {
    var body := ValueWasWritten(library, b);
    bodies := [body] + later;
    OneMoreSpelled(library, v.value, tail, body, later);
    OneMoreWritten(v.value, tail, body, later, rest);
  }

  lemma FirstOfMany(library: Library, b: Bytes, count: nat, row: seq<Value>, rest: Bytes)
    returns (v: Parsed<Value>, tail: seq<Value>)
    requires 0 < count && TakeValues(library, b, count) == Ok(Parsed(row, rest))
    ensures TakeValue(library, b) == Ok(v) && row == [v.value] + tail
    ensures TakeValues(library, v.rest, count - 1) == Ok(Parsed(tail, rest))
  {
    v := TakeValue(library, b).value;
    tail := TakeValues(library, v.rest, count - 1).value.value;
  }

  lemma {:induction false} WrittenIsRead(library: Library, row: seq<Value>, bodies: seq<Bytes>, rest: Bytes, b: Bytes)
    requires AllSpelled(library, row, bodies) && b == Written(row, bodies) + rest
    ensures TakeValues(library, b, |row|) == Ok(Parsed(row, rest))
    decreases |row|
  {
    if row == [] {
      assert b == rest;
    } else {
      var later := Written(row[1..], bodies[1..]) + rest;
      WrittenIsRead(library, row[1..], bodies[1..], rest, later);
      FirstThenLater(library, row[0], row[1..], bodies[0], bodies[1..], rest, b);
      assert row == [row[0]] + row[1..] && bodies == [bodies[0]] + bodies[1..];
    }
  }

  lemma FirstThenLater(library: Library, v: Value, tail: seq<Value>, body: Bytes, later: seq<Bytes>, rest: Bytes,
                       b: Bytes)
    requires Spells(library, v, body)
    requires TakeValues(library, Written(tail, later) + rest, |tail|) == Ok(Parsed(tail, rest))
    ensures b == Written([v] + tail, [body] + later) + rest ==>
              TakeValues(library, b, |tail| + 1) == Ok(Parsed([v] + tail, rest))
  {
    if b == Written([v] + tail, [body] + later) + rest {
      OneMoreWritten(v, tail, body, later, rest);
      ValueIsTaken(library, v, body, Written(tail, later) + rest, b);
      OneMoreValueRead(library, b, |tail|, v, Written(tail, later) + rest, tail, rest);
    }
  }

  ghost predicate SpellsRow(library: Library, row: seq<Value>, values: Bytes) {
    exists bodies :: AllSpelled(library, row, bodies) && values == Written(row, bodies)
  }

  lemma ValuesReadIff(library: Library, b: Bytes, row: seq<Value>)
    ensures TakeValues(library, b, |row|) == Ok(Parsed(row, [])) <==> SpellsRow(library, row, b)
  {
    if TakeValues(library, b, |row|) == Ok(Parsed(row, [])) {
      var bodies := ValuesWereWritten(library, b, |row|, row, []);
      assert Written(row, bodies) + [] == Written(row, bodies);
    }
    if bodies :| AllSpelled(library, row, bodies) && b == Written(row, bodies) {
      assert b == Written(row, bodies) + [];
      WrittenIsRead(library, row, bodies, [], b);
    }
  }

  lemma AsManyAsCounted(library: Library, b: Bytes, count: nat)
    ensures TakeValues(library, b, count).Ok? ==> |TakeValues(library, b, count).value.value| == count
  {
    if TakeValues(library, b, count).Ok? {
      var row := TakeValues(library, b, count).value;
      var bodies := ValuesWereWritten(library, b, count, row.value, row.rest);
    }
  }

  /** Bytes are accepted as a plain row exactly if they are its count and its values, spelled out;
      nothing may follow. */
  lemma AcceptedRowIff(library: Library, b: Bytes, row: seq<Value>)
    ensures DecodeRow(library, b) == Ok(row) <==>
              2 <= |b| && U16At(b, 0) == |row| && SpellsRow(library, row, b[2..])
  {
    if 2 <= |b| {
      AsManyAsCounted(library, b[2..], U16At(b, 0));
      ValuesReadIff(library, b[2..], row);
    }
  }

  lemma HeaderWasWritten(b: Bytes)
    requires TakeHeader(b).Ok?
    ensures var h := TakeHeader(b).value; HeaderSound(h.value) && b == WithHeader(h.value, h.rest)
  {
    TakeU16Inverse(0, [], b);
    var version := TakeU16(b).value;
    TakeU16Inverse(0, [], version.rest);
    var size := TakeU16(version.rest).value;
    TakeU16Inverse(0, [], size.rest);
    var flags := TakeU16(size.rest).value;
    TakeU16Inverse(0, [], flags.rest);
    var count := TakeU16(flags.rest).value;
    TakeU64Inverse(0, [], count.rest);
    var xmin := TakeU64(count.rest).value;
    TakeU64Inverse(0, [], xmin.rest);
    var xmax := TakeU64(xmin.rest).value;
    TakeU32Inverse(0, [], xmax.rest);
    TakeU32Inverse(0, [], TakeU32(xmax.rest).value.rest);
  }

  /** Bytes are accepted as a versioned row exactly if they are a sound header and as many values as
      it says, spelled out; nothing may follow. */
  lemma AcceptedRowV2Iff(library: Library, b: Bytes, h: Header, row: seq<Value>)
    ensures DecodeRowV2(library, b) == Ok((h, row)) <==>
              && HeaderSound(h) && |row| == h.columnCount
              && exists values :: SpellsRow(library, row, values) && b == WithHeader(h, values)
  {
    if TakeHeader(b).Ok? {
      var taken := TakeHeader(b).value;
      HeaderWasWritten(b);
      AsManyAsCounted(library, taken.rest, taken.value.columnCount);
      ValuesReadIff(library, taken.rest, row);
    }
    if HeaderSound(h) {
      forall values | b == WithHeader(h, values) ensures TakeHeader(b) == Ok(Parsed(h, values)) {
        HeaderIsRead(h, values);
      }
    }
  }
}

/** Stored rows: a tagged encoding of every value, plain and behind a versioned header, and
    its decoder. */
module Tuple {
  import opened Base
  import opened LittleEndian
  import opened Utf8

  const FORMAT_V2 := 2
  const HEADER_V2 := 32

  // JSON and array documents, as their library holds them.
  type Document = Bytes

  // Floats are their bit patterns, decimals and UUIDs their sixteen bytes.
  datatype Value =
    | Null
    | Boolean(truth: bool)
    | Int16(short: I16)
    | Int32(int_: I32)
    | Int64(long: I64)
    | Float32(single: U32)
    | Float64(double: U64)
    | Decimal(digits: Bytes)
    | Text(text: Bytes)
    | Binary(bytes: Bytes)
    | Date(days: I32)
    | Time(second: U32, nanos: U32)
    | Timestamp(seconds: I64, subsecond: U32)
    | Json(json: Document)
    | Jsonb(jsonb: Document)
    | Uuid(uuid: Bytes)
    | Vector(elements: seq<U32>)
    | Interval(months: I32, intervalDays: I32, micros: I64)
    | Array(array_: Document)

  // The date, JSON and array libraries: which dates and times exist, and how documents are
  // written and read.
  datatype Library = Library(
    dateExists: I32 -> bool,
    timeExists: (U32, U32) -> bool,
    timestampExists: (I64, U32) -> bool,
    writeJson: Document -> Option<Bytes>,
    readJson: Bytes -> Option<Document>,
    writeArray: Document -> Option<Bytes>,
    readArray: Bytes -> Option<Document>)

  ghost predicate Lawful(library: Library) {
    && (forall d | library.writeJson(d).Some? :: library.readJson(library.writeJson(d).value) == Some(d))
    && (forall d | library.writeArray(d).Some? :: library.readArray(library.writeArray(d).value) == Some(d))
  }

  /** Values a program can hold: those of the libraries exist, text is well formed. */
  predicate Holds(library: Library, v: Value) {
    match v
    case Decimal(digits) => |digits| == 16
    case Text(text) => ValidUtf8(text)
    case Date(days) => library.dateExists(days)
    case Time(second, nanos) => library.timeExists(second, nanos)
    case Timestamp(seconds, nanos) => library.timestampExists(seconds, nanos)
    case Uuid(uuid) => |uuid| == 16
    case _ => true
  }

  // ---- encoding ----

  function Prefixed(payload: Bytes): Result<Bytes> {
    if |payload| < U32_LIMIT then Ok(U32Le(|payload|) + payload) else Err(CORRUPT)
  }

  function PrefixedDocument(written: Option<Bytes>): Result<Bytes> {
    if written.None? then Err(CORRUPT) else Prefixed(written.value)
  }

  function EncodeWords(words: seq<U32>): Bytes {
    if words == [] then [] else U32Le(words[0]) + EncodeWords(words[1..])
  }

  function TagOf(v: Value): Byte {
    match v
    case Null => 0
    case Boolean(_) => 1
    case Int16(_) => 2
    case Int32(_) => 3
    case Int64(_) => 4
    case Float32(_) => 5
    case Float64(_) => 6
    case Decimal(_) => 7
    case Text(_) => 8
    case Binary(_) => 9
    case Date(_) => 10
    case Time(_, _) => 11
    case Timestamp(_, _) => 12
    case Json(_) => 13
    case Jsonb(_) => 14
    case Uuid(_) => 15
    case Vector(_) => 16
    case Interval(_, _, _) => 17
    case Array(_) => 18
  }

  /** What follows the tag of a value. */
  function EncodeBody(library: Library, v: Value): Result<Bytes> {
    match v
    case Null => Ok([])
    case Boolean(truth) => Ok([if truth then 1 else 0])
    case Int16(i) => Ok(U16Le(Unsigned16(i)))
    case Int32(i) => Ok(U32Le(Unsigned32(i)))
    case Int64(i) => Ok(U64Le(Unsigned64(i)))
    case Float32(bits) => Ok(U32Le(bits))
    case Float64(bits) => Ok(U64Le(bits))
    case Decimal(digits) => Ok(digits)
    case Text(text) => Prefixed(text)
    case Binary(bytes) => Prefixed(bytes)
    case Date(days) => Ok(U32Le(Unsigned32(days)))
    case Time(second, nanos) => Ok(U32Le(second) + U32Le(nanos))
    case Timestamp(seconds, nanos) => Ok(U64Le(Unsigned64(seconds)) + U32Le(nanos))
    case Json(d) => PrefixedDocument(library.writeJson(d))
    case Jsonb(d) => PrefixedDocument(library.writeJson(d))
    case Uuid(uuid) => Ok(uuid)
    case Vector(words) => if |words| < U32_LIMIT then Ok(U32Le(|words|) + EncodeWords(words)) else Err(CORRUPT)
    case Interval(months, days, micros) =>
      Ok(U32Le(Unsigned32(months)) + (U32Le(Unsigned32(days)) + U64Le(Unsigned64(micros))))
    case Array(d) => PrefixedDocument(library.writeArray(d))
  }

  function EncodeValue(library: Library, v: Value): Result<Bytes> {
    var body :- EncodeBody(library, v);
    Ok([TagOf(v)] + body)
  }

  function EncodeValues(library: Library, row: seq<Value>): Result<Bytes> {
    if row == [] then Ok([])
    else
      var first :- EncodeValue(library, row[0]);
      var rest :- EncodeValues(library, row[1..]);
      Ok(first + rest)
  }

  /** The plain format: a count and the values. */
  function EncodeRow(library: Library, row: seq<Value>): Result<Bytes> {
    if U16_LIMIT <= |row| then Err(CORRUPT)
    else
      var values :- EncodeValues(library, row);
      Ok(U16Le(|row|) + values)
  }

  datatype Header = Header(flags: U16, columnCount: U16, xmin: U64, xmax: U64, commandId: U32, previousVersion: U32)

  predicate HeaderSound(h: Header) { h.flags == 0 && h.xmin != 0 }

  /** The header fields, and what follows them. */
  function WithHeader(h: Header, rest: Bytes): (b: Bytes)
    ensures |b| == HEADER_V2 + |rest|
  {
    U16Le(FORMAT_V2) + (U16Le(HEADER_V2) + (U16Le(h.flags) + (U16Le(h.columnCount)
    + (U64Le(h.xmin) + (U64Le(h.xmax) + (U32Le(h.commandId) + (U32Le(h.previousVersion) + rest)))))))
  }

  /** The versioned format: a header of 32 bytes and the values. */
  function EncodeRowV2(library: Library, row: seq<Value>, h: Header): Result<Bytes> {
    if !HeaderSound(h) || |row| != h.columnCount then Err(CORRUPT)
    else
      var values :- EncodeValues(library, row);
      Ok(WithHeader(h, values))
  }

  // ---- decoding ----

  function TakeExactly(b: Bytes, length: nat): Result<Parsed<Bytes>> {
    if |b| < length then Err(CORRUPT) else Ok(Parsed(b[..length], b[length..]))
  }

  function TakePrefixed(b: Bytes): Result<Parsed<Bytes>> {
    var length :- TakeU32(b);
    TakeExactly(length.rest, length.value)
  }

  function TakeWords(b: Bytes, count: nat): Result<Parsed<seq<U32>>> {
    if count == 0 then Ok(Parsed([], b))
    else
      var head :- TakeU32(b);
      var tail :- TakeWords(head.rest, count - 1);
      Ok(Parsed([head.value] + tail.value, tail.rest))
  }

  function If<T>(condition: bool, value: T, rest: Bytes): Result<Parsed<T>> {
    if condition then Ok(Parsed(value, rest)) else Err(CORRUPT)
  }

  function TakeBoolean(b: Bytes): Result<Parsed<Value>> {
    var raw :- TakeU8(b);
    If(raw.value <= 1, Boolean(raw.value == 1), raw.rest)
  }

  function TakeText(b: Bytes): Result<Parsed<Value>> {
    var text :- TakePrefixed(b);
    If(ValidUtf8(text.value), Text(text.value), text.rest)
  }

  function TakeDate(library: Library, b: Bytes): Result<Parsed<Value>> {
    var days :- TakeU32(b);
    If(library.dateExists(Signed32(days.value)), Date(Signed32(days.value)), days.rest)
  }

  function TakeTime(library: Library, b: Bytes): Result<Parsed<Value>> {
    var second :- TakeU32(b);
    var nanos :- TakeU32(second.rest);
    If(library.timeExists(second.value, nanos.value), Time(second.value, nanos.value), nanos.rest)
  }

  function TakeTimestamp(library: Library, b: Bytes): Result<Parsed<Value>> {
    var seconds :- TakeU64(b);
    var nanos :- TakeU32(seconds.rest);
    If(library.timestampExists(Signed64(seconds.value), nanos.value),
       Timestamp(Signed64(seconds.value), nanos.value), nanos.rest)
  }

  function TakeInterval(b: Bytes): Result<Parsed<Value>> {
    var months :- TakeU32(b);
    var days :- TakeU32(months.rest);
    var micros :- TakeU64(days.rest);
    Ok(Parsed(Interval(Signed32(months.value), Signed32(days.value), Signed64(micros.value)), micros.rest))
  }

  function TakeDocument(read: Bytes -> Option<Document>, b: Bytes): Result<Parsed<Document>> {
    var text :- TakePrefixed(b);
    var document := read(text.value);
    if document.None? then Err(CORRUPT) else Ok(Parsed(document.value, text.rest))
  }

  /** The vector's bytes must be there before any element is read. */
  function TakeVector(b: Bytes): Result<Parsed<Value>> {
    var count :- TakeU32(b);
    if |count.rest| < count.value * 4 then Err(CORRUPT)
    else
      var words :- TakeWords(count.rest, count.value);
      Ok(Parsed(Vector(words.value), words.rest))
  }

  function TakeBody(library: Library, tag: Byte, b: Bytes): Result<Parsed<Value>> {
    match tag
    case 0 => Ok(Parsed(Null, b))
    case 1 => TakeBoolean(b)
    case 2 => var raw :- TakeU16(b); Ok(Parsed(Int16(Signed16(raw.value)), raw.rest))
    case 3 => var raw :- TakeU32(b); Ok(Parsed(Int32(Signed32(raw.value)), raw.rest))
    case 4 => var raw :- TakeU64(b); Ok(Parsed(Int64(Signed64(raw.value)), raw.rest))
    case 5 => var raw :- TakeU32(b); Ok(Parsed(Float32(raw.value), raw.rest))
    case 6 => var raw :- TakeU64(b); Ok(Parsed(Float64(raw.value), raw.rest))
    case 7 => var raw :- TakeExactly(b, 16); Ok(Parsed(Decimal(raw.value), raw.rest))
    case 8 => TakeText(b)
    case 9 => var raw :- TakePrefixed(b); Ok(Parsed(Binary(raw.value), raw.rest))
    case 10 => TakeDate(library, b)
    case 11 => TakeTime(library, b)
    case 12 => TakeTimestamp(library, b)
    case 13 => var d :- TakeDocument(library.readJson, b); Ok(Parsed(Json(d.value), d.rest))
    case 14 => var d :- TakeDocument(library.readJson, b); Ok(Parsed(Jsonb(d.value), d.rest))
    case 15 => var raw :- TakeExactly(b, 16); Ok(Parsed(Uuid(raw.value), raw.rest))
    case 16 => TakeVector(b)
    case 17 => TakeInterval(b)
    case 18 => var d :- TakeDocument(library.readArray, b); Ok(Parsed(Array(d.value), d.rest))
    case _ => Err(CORRUPT)
  }

  function TakeValue(library: Library, b: Bytes): Result<Parsed<Value>> {
    var tag :- TakeU8(b);
    TakeBody(library, tag.value, tag.rest)
  }

  function TakeValues(library: Library, b: Bytes, count: nat): Result<Parsed<seq<Value>>>
    decreases count
  {
    if count == 0 then Ok(Parsed([], b))
    else
      var head :- TakeValue(library, b);
      var tail :- TakeValues(library, head.rest, count - 1);
      Ok(Parsed([head.value] + tail.value, tail.rest))
  }

  function DecodeRow(library: Library, b: Bytes): Result<seq<Value>> {
    var count :- TakeU16(b);
    var row :- TakeValues(library, count.rest, count.value);
    if row.rest == [] then Ok(row.value) else Err(CORRUPT)
  }

  function TakeHeader(b: Bytes): Result<Parsed<Header>> {
    var version :- TakeU16(b);
    if version.value != FORMAT_V2 then Err("0A000")
    else
      var size :- TakeU16(version.rest);
      if size.value != HEADER_V2 then Err(CORRUPT)
      else
        var flags :- TakeU16(size.rest);
        var count :- TakeU16(flags.rest);
        var xmin :- TakeU64(count.rest);
        var xmax :- TakeU64(xmin.rest);
        var command :- TakeU32(xmax.rest);
        var previous :- TakeU32(command.rest);
        var h := Header(flags.value, count.value, xmin.value, xmax.value, command.value, previous.value);
        If(HeaderSound(h), h, previous.rest)
  }

  function DecodeRowV2(library: Library, b: Bytes): Result<(Header, seq<Value>)> {
    var h :- TakeHeader(b);
    var row :- TakeValues(library, h.rest, h.value.columnCount);
    if row.rest == [] then Ok((h.value, row.value)) else Err(CORRUPT)
  }
}

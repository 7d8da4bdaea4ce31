/** The messages a client sends, their bytes on the wire, and the decoder: one parser per field,
    each of which undoes exactly one encoding. */
module Wire {
  import opened Base
  import opened Utf8

  const MAX_FRAME_BYTES := 16 * 1024 * 1024
  const MAX_NAME_BYTES := 1024
  const MAX_PARAMETERS := 32767

  datatype Message =
    | Query(sql: Bytes)
    | Parse(name: Bytes, text: Bytes, parameterOids: seq<U32>)
    | Bind(portal: Bytes, statement: Bytes, parameterFormats: seq<I16>, parameters: seq<Option<Bytes>>,
           resultFormats: seq<I16>)
    | Describe(describeKind: Byte, describeName: Bytes)
    | Execute(executePortal: Bytes, maxRows: U32)
    | Close(closeKind: Byte, closeName: Bytes)
    | Sync
    | Flush
    | Terminate
    | Password(secret: Bytes)
    | CopyData(data: Bytes)
    | CopyDone
    | CopyFail(reason: Bytes)

  const PROTOCOL := "08P01"

  // ---- integers, most significant byte first ----

  function Be16(v: U16): Bytes {
    var n: int := v;
    [n / 0x100, n % 0x100]
  }

  function Be32(v: U32): Bytes {
    var n: int := v;
    [n / 0x1000000, n / 0x10000 % 0x100, n / 0x100 % 0x100, n % 0x100]
  }

  function U16Of(b: Bytes): U16
    requires |b| == 2
  {
    var high: int, low: int := b[0], b[1];
    high * 0x100 + low
  }

  function U32Of(b: Bytes): U32
    requires |b| == 4
  {
    var b0: int, b1: int, b2: int, b3: int := b[0], b[1], b[2], b[3];
    b0 * 0x1000000 + b1 * 0x10000 + b2 * 0x100 + b3
  }

  lemma Be16Inverse(v: U16, b: Bytes)
    ensures U16Of(Be16(v)) == v
    ensures |b| == 2 ==> Be16(U16Of(b)) == b
  {
  }

  lemma BytesOfWord(b0: int, b1: int, b2: int, b3: int)
    requires 0 <= b0 < 256 && 0 <= b1 < 256 && 0 <= b2 < 256 && 0 <= b3 < 256
    ensures var u := b0 * 0x1000000 + b1 * 0x10000 + b2 * 0x100 + b3;
            u / 0x1000000 == b0 && u / 0x10000 % 0x100 == b1 && u / 0x100 % 0x100 == b2 && u % 0x100 == b3
  {
    var u := b0 * 0x1000000 + b1 * 0x10000 + b2 * 0x100 + b3;
    assert u / 0x10000 == b0 * 0x100 + b1;
    assert u / 0x100 == b0 * 0x10000 + b1 * 0x100 + b2;
  }

  lemma WordOfBytes(n: int)
    requires 0 <= n < U32_LIMIT
    ensures n / 0x1000000 * 0x1000000 + n / 0x10000 % 0x100 * 0x10000 + n / 0x100 % 0x100 * 0x100 + n % 0x100 == n
  {
    var q1, q2, q3 := n / 0x100, n / 0x10000, n / 0x1000000;
    assert q2 == q1 / 0x100 && q3 == q2 / 0x100;
    assert n == q1 * 0x100 + n % 0x100 && q1 == q2 * 0x100 + q1 % 0x100 && q2 == q3 * 0x100 + q2 % 0x100;
  }

  lemma Be32Inverse(v: U32, b: Bytes)
    ensures U32Of(Be32(v)) == v
    ensures |b| == 4 ==> Be32(U32Of(b)) == b
  {
    WordOfBytes(v);
    if |b| == 4 {
      BytesOfWord(b[0], b[1], b[2], b[3]);
    }
  }

  // ---- what the encodings are ----

  predicate TextFits(text: Bytes, limit: nat) {
    0 !in text && |text| <= limit && ValidUtf8(text)
  }

  function EncodeText(text: Bytes): Bytes { text + [0] }

  function EncodeOids(oids: seq<U32>): Bytes {
    if oids == [] then [] else Be32(oids[0]) + EncodeOids(oids[1..])
  }

  function EncodeFormats(formats: seq<I16>): Bytes {
    if formats == [] then [] else Be16(Unsigned16(formats[0])) + EncodeFormats(formats[1..])
  }

  function EncodeParameter(parameter: Option<Bytes>): Bytes
    requires parameter.Some? ==> |parameter.value| < 0x8000_0000
  {
    match parameter
    case None => Be32(0xFFFF_FFFF)
    case Some(value) => Be32(|value|) + value
  }

  predicate ParametersFit(parameters: seq<Option<Bytes>>) {
    forall i | 0 <= i < |parameters| && parameters[i].Some? :: |parameters[i].value| < 0x8000_0000
  }

  function EncodeParameters(parameters: seq<Option<Bytes>>): Bytes
    requires ParametersFit(parameters)
  {
    if parameters == [] then [] else EncodeParameter(parameters[0]) + EncodeParameters(parameters[1..])
  }

  /** The messages that have an encoding the decoder accepts. */
  predicate Fits(m: Message) {
    match m
    case Query(sql) => TextFits(sql, MAX_FRAME_BYTES)
    case Parse(name, text, oids) =>
      TextFits(name, MAX_NAME_BYTES) && TextFits(text, MAX_FRAME_BYTES) && |oids| <= MAX_PARAMETERS
    case Bind(portal, statement, formats, parameters, results) =>
      && TextFits(portal, MAX_NAME_BYTES) && TextFits(statement, MAX_NAME_BYTES)
      && |formats| <= MAX_PARAMETERS && |parameters| <= MAX_PARAMETERS && |results| <= MAX_PARAMETERS
      && ParametersFit(parameters)
    case Describe(_, name) => TextFits(name, MAX_NAME_BYTES)
    case Execute(portal, _) => TextFits(portal, MAX_NAME_BYTES)
    case Close(_, name) => TextFits(name, MAX_NAME_BYTES)
    case CopyFail(reason) => TextFits(reason, MAX_FRAME_BYTES)
    case _ => true
  }

  function Tag(m: Message): Byte {
    match m
    case Query(_) => 'Q' as int
    case Parse(_, _, _) => 'P' as int
    case Bind(_, _, _, _, _) => 'B' as int
    case Describe(_, _) => 'D' as int
    case Execute(_, _) => 'E' as int
    case Close(_, _) => 'C' as int
    case Sync => 'S' as int
    case Flush => 'H' as int
    case Terminate => 'X' as int
    case Password(_) => 'p' as int
    case CopyData(_) => 'd' as int
    case CopyDone => 'c' as int
    case CopyFail(_) => 'f' as int
  }

  function EncodeCountedFormats(formats: seq<I16>): Bytes
    requires |formats| <= MAX_PARAMETERS
  {
    Be16(|formats|) + EncodeFormats(formats)
  }

  function EncodeCountedParameters(parameters: seq<Option<Bytes>>): Bytes
    requires |parameters| <= MAX_PARAMETERS && ParametersFit(parameters)
  {
    Be16(|parameters|) + EncodeParameters(parameters)
  }

  function EncodeBind(portal: Bytes, statement: Bytes, formats: seq<I16>, parameters: seq<Option<Bytes>>,
                      results: seq<I16>): Bytes
    requires |formats| <= MAX_PARAMETERS && |parameters| <= MAX_PARAMETERS && |results| <= MAX_PARAMETERS
    requires ParametersFit(parameters)
  {
    EncodeText(portal) + (EncodeText(statement)
    + (EncodeCountedFormats(formats) + (EncodeCountedParameters(parameters) + EncodeCountedFormats(results))))
  }

  /** The payload of a message. */
  function Payload(m: Message): Bytes
    requires Fits(m)
  {
    match m
    case Query(sql) => EncodeText(sql)
    case Parse(name, text, oids) => EncodeText(name) + (EncodeText(text) + (Be16(|oids|) + EncodeOids(oids)))
    case Bind(portal, statement, formats, parameters, results) =>
      EncodeBind(portal, statement, formats, parameters, results)
    case Describe(kind, name) => [kind] + EncodeText(name)
    case Execute(portal, maxRows) => EncodeText(portal) + Be32(maxRows)
    case Close(kind, name) => [kind] + EncodeText(name)
    case Sync => []
    case Flush => []
    case Terminate => []
    case Password(secret) => secret
    case CopyData(data) => data
    case CopyDone => []
    case CopyFail(reason) => EncodeText(reason)
  }

  // ---- the parsers ----

  function TakeBytes(b: Bytes, length: nat): Result<Parsed<Bytes>> {
    if |b| < length then Err(PROTOCOL) else Ok(Parsed(b[..length], b[length..]))
  }

  function TakeByte(b: Bytes): Result<Parsed<Byte>> {
    if b == [] then Err(PROTOCOL) else Ok(Parsed(b[0], b[1..]))
  }

  function TakeU16(b: Bytes): Result<Parsed<U16>> {
    if |b| < 2 then Err(PROTOCOL) else Ok(Parsed(U16Of(b[..2]), b[2..]))
  }

  function TakeU32(b: Bytes): Result<Parsed<U32>> {
    if |b| < 4 then Err(PROTOCOL) else Ok(Parsed(U32Of(b[..4]), b[4..]))
  }

  function TakeCount(b: Bytes): Result<Parsed<nat>> {
    if |b| < 2 || MAX_PARAMETERS < U16Of(b[..2]) then Err(PROTOCOL) else Ok(Parsed(U16Of(b[..2]), b[2..]))
  }

  /** The place of the first zero byte, or the length when there is none. */
  function FirstZero(b: Bytes): (i: nat)
    ensures i <= |b| && 0 !in b[..i] && (i < |b| ==> b[i] == 0)
  {
    if b == [] || b[0] == 0 then 0
    else
      var i := 1 + FirstZero(b[1..]);
      assert b[..i] == [b[0]] + b[1..][..i - 1];
      i
  }

  function TakeText(b: Bytes, limit: nat): Result<Parsed<Bytes>> {
    var end := FirstZero(b);
    if end == |b| || limit < end || !ValidUtf8(b[..end]) then Err(PROTOCOL)
    else Ok(Parsed(b[..end], b[end + 1..]))
  }

  function TakeOids(b: Bytes, count: nat): (r: Result<Parsed<seq<U32>>>)
    ensures r.Err? ==> r == Err(PROTOCOL)
  {
    if count == 0 then Ok(Parsed([], b))
    else
      var head :- TakeU32(b);
      var tail :- TakeOids(head.rest, count - 1);
      Ok(Parsed([head.value] + tail.value, tail.rest))
  }

  function TakeFormats(b: Bytes, count: nat): (r: Result<Parsed<seq<I16>>>)
    ensures r.Err? ==> r == Err(PROTOCOL)
  {
    if count == 0 then Ok(Parsed([], b))
    else
      var head :- TakeU16(b);
      var tail :- TakeFormats(head.rest, count - 1);
      Ok(Parsed([Signed16(head.value)] + tail.value, tail.rest))
  }

  function TakeParameter(b: Bytes): Result<Parsed<Option<Bytes>>> {
    var length :- TakeU32(b);
    if length.value == 0xFFFF_FFFF then Ok(Parsed(None, length.rest))
    else if 0x8000_0000 <= length.value then Err(PROTOCOL)
    else
      var value :- TakeBytes(length.rest, length.value);
      Ok(Parsed(Some(value.value), value.rest))
  }

  function TakeParameters(b: Bytes, count: nat): (r: Result<Parsed<seq<Option<Bytes>>>>)
    ensures r.Err? ==> r == Err(PROTOCOL)
  {
    if count == 0 then Ok(Parsed([], b))
    else
      var head :- TakeParameter(b);
      var tail :- TakeParameters(head.rest, count - 1);
      Ok(Parsed([head.value] + tail.value, tail.rest))
  }

  function TakeCountedFormats(b: Bytes): Result<Parsed<seq<I16>>> {
    var count :- TakeCount(b);
    TakeFormats(count.rest, count.value)
  }

  function TakeCountedParameters(b: Bytes): Result<Parsed<seq<Option<Bytes>>>> {
    var count :- TakeCount(b);
    TakeParameters(count.rest, count.value)
  }

  function Finish(b: Bytes, m: Message): Result<Message> {
    if b == [] then Ok(m) else Err(PROTOCOL)
  }

  function DecodeParse(b: Bytes): Result<Message> {
    var name :- TakeText(b, MAX_NAME_BYTES);
    var text :- TakeText(name.rest, MAX_FRAME_BYTES);
    var count :- TakeCount(text.rest);
    var oids :- TakeOids(count.rest, count.value);
    Finish(oids.rest, Parse(name.value, text.value, oids.value))
  }

  function DecodeBind(b: Bytes): Result<Message> {
    var portal :- TakeText(b, MAX_NAME_BYTES);
    var statement :- TakeText(portal.rest, MAX_NAME_BYTES);
    var formats :- TakeCountedFormats(statement.rest);
    var parameters :- TakeCountedParameters(formats.rest);
    var results :- TakeCountedFormats(parameters.rest);
    Finish(results.rest, Bind(portal.value, statement.value, formats.value, parameters.value, results.value))
  }

  function Decode(tag: Byte, b: Bytes): Result<Message> {
    if tag == 'Q' as int then
      var sql :- TakeText(b, MAX_FRAME_BYTES);
      Finish(sql.rest, Query(sql.value))
    else if tag == 'P' as int then DecodeParse(b)
    else if tag == 'B' as int then DecodeBind(b)
    else if tag == 'D' as int then
      var kind :- TakeByte(b);
      var name :- TakeText(kind.rest, MAX_NAME_BYTES);
      Finish(name.rest, Describe(kind.value, name.value))
    else if tag == 'E' as int then
      var portal :- TakeText(b, MAX_NAME_BYTES);
      var maxRows :- TakeU32(portal.rest);
      Finish(maxRows.rest, Execute(portal.value, maxRows.value))
    else if tag == 'C' as int then
      var kind :- TakeByte(b);
      var name :- TakeText(kind.rest, MAX_NAME_BYTES);
      Finish(name.rest, Close(kind.value, name.value))
    else if tag == 'S' as int then Finish(b, Sync)
    else if tag == 'H' as int then Finish(b, Flush)
    else if tag == 'X' as int then Finish(b, Terminate)
    else if tag == 'p' as int then Ok(Password(b))
    else if tag == 'd' as int then Ok(CopyData(b))
    else if tag == 'c' as int then Finish(b, CopyDone)
    else if tag == 'f' as int then
      var reason :- TakeText(b, MAX_FRAME_BYTES);
      Finish(reason.rest, CopyFail(reason.value))
    else Err(PROTOCOL)
  }
}

/** The decoder inverts the encodings exactly: it reads back every encoded message, and what
    it accepts is the encoding of what it returns. */
module WireRoundTrip {
  import opened Base
  import opened Wire

  lemma TakeU16Inverse(v: U16, rest: Bytes, b: Bytes)
    ensures TakeU16(Be16(v) + rest) == Ok(Parsed(v, rest))
    ensures TakeU16(b).Ok? ==> b == Be16(TakeU16(b).value.value) + TakeU16(b).value.rest
  {
    Be16Inverse(v, if |b| < 2 then [] else b[..2]);
    assert (Be16(v) + rest)[..2] == Be16(v);
  }

  lemma TakeU32Inverse(v: U32, rest: Bytes, b: Bytes)
    ensures TakeU32(Be32(v) + rest) == Ok(Parsed(v, rest))
    ensures TakeU32(b).Ok? ==> b == Be32(TakeU32(b).value.value) + TakeU32(b).value.rest
  {
    Be32Inverse(v, if |b| < 4 then [] else b[..4]);
    assert (Be32(v) + rest)[..4] == Be32(v);
  }

  lemma TakeCountInverse(v: nat, rest: Bytes, b: Bytes)
    ensures v <= MAX_PARAMETERS ==> TakeCount(Be16(v) + rest) == Ok(Parsed(v, rest))
    ensures TakeCount(b).Ok? ==>
      TakeCount(b).value.value <= MAX_PARAMETERS && b == Be16(TakeCount(b).value.value) + TakeCount(b).value.rest
  {
    Be16Inverse(if v <= MAX_PARAMETERS then v else 0, if |b| < 2 then [] else b[..2]);
    if v <= MAX_PARAMETERS {
      assert (Be16(v) + rest)[..2] == Be16(v);
    }
  }

  lemma {:induction false} FirstZeroAfterText(text: Bytes, rest: Bytes)
    requires 0 !in text
    ensures FirstZero(EncodeText(text) + rest) == |text|
  {
    var b := EncodeText(text) + rest;
    if text != [] {
      assert text[0] in text;
      FirstZeroAfterText(text[1..], rest);
      assert b[1..] == EncodeText(text[1..]) + rest;
    }
  }

  lemma TextIsRead(text: Bytes, limit: nat, rest: Bytes)
    requires TextFits(text, limit)
    ensures TakeText(EncodeText(text) + rest, limit) == Ok(Parsed(text, rest))
  {
    var b := EncodeText(text) + rest;
    FirstZeroAfterText(text, rest);
    assert b[..|text|] == text && b[|text| + 1..] == rest;
  }

  lemma ReadTextWasEncoded(b: Bytes, limit: nat)
    requires TakeText(b, limit).Ok?
    ensures var p := TakeText(b, limit).value; TextFits(p.value, limit) && b == EncodeText(p.value) + p.rest
  {
  }

  lemma OneMoreOidRead(b: Bytes, count: nat, head: U32, tail: Bytes, oids: seq<U32>, rest: Bytes)
    requires b == Be32(head) + tail && TakeOids(tail, count) == Ok(Parsed(oids, rest))
    ensures TakeOids(b, count + 1) == Ok(Parsed([head] + oids, rest))
  {
    TakeU32Inverse(head, tail, []);
  }

  lemma {:induction false} OidsAreRead(oids: seq<U32>, rest: Bytes, b: Bytes)
    requires b == EncodeOids(oids) + rest
    ensures TakeOids(b, |oids|) == Ok(Parsed(oids, rest))
  {
    if oids == [] {
      assert b == rest;
    } else {
      var later := oids[1..];
      var tail := EncodeOids(later) + rest;
      assert b == Be32(oids[0]) + tail;
      OidsAreRead(later, rest, tail);
      OneMoreOidRead(b, |later|, oids[0], tail, later, rest);
      assert oids == [oids[0]] + later;
    }
  }

  lemma {:induction false} ReadOidsWereEncoded(b: Bytes, count: nat)
    requires TakeOids(b, count).Ok?
    ensures var p := TakeOids(b, count).value; |p.value| == count && b == EncodeOids(p.value) + p.rest
    decreases count
  {
    if count != 0 {
      var head := TakeU32(b).value;
      TakeU32Inverse(0, [], b);
      ReadOidsWereEncoded(head.rest, count - 1);
    }
  }

  lemma OneMoreFormatRead(b: Bytes, count: nat, head: I16, tail: Bytes, formats: seq<I16>, rest: Bytes)
    requires b == Be16(Unsigned16(head)) + tail && TakeFormats(tail, count) == Ok(Parsed(formats, rest))
    ensures TakeFormats(b, count + 1) == Ok(Parsed([head] + formats, rest))
  {
    TakeU16Inverse(Unsigned16(head), tail, []);
  }

  lemma {:induction false} FormatsAreRead(formats: seq<I16>, rest: Bytes, b: Bytes)
    requires b == EncodeFormats(formats) + rest
    ensures TakeFormats(b, |formats|) == Ok(Parsed(formats, rest))
  {
    if formats == [] {
      assert b == rest;
    } else {
      var later := formats[1..];
      var tail := EncodeFormats(later) + rest;
      assert b == Be16(Unsigned16(formats[0])) + tail;
      FormatsAreRead(later, rest, tail);
      OneMoreFormatRead(b, |later|, formats[0], tail, later, rest);
      assert formats == [formats[0]] + later;
    }
  }

  lemma {:induction false} ReadFormatsWereEncoded(b: Bytes, count: nat)
    requires TakeFormats(b, count).Ok?
    ensures var p := TakeFormats(b, count).value; |p.value| == count && b == EncodeFormats(p.value) + p.rest
    decreases count
  {
    if count != 0 {
      var head := TakeU16(b).value;
      TakeU16Inverse(0, [], b);
      ReadFormatsWereEncoded(head.rest, count - 1);
    }
  }

  lemma ParameterIsRead(parameter: Option<Bytes>, rest: Bytes)
    requires parameter.Some? ==> |parameter.value| < 0x8000_0000
    ensures TakeParameter(EncodeParameter(parameter) + rest) == Ok(Parsed(parameter, rest))
  {
    match parameter
    case None => TakeU32Inverse(0xFFFF_FFFF, rest, []);
    case Some(value) =>
      assert EncodeParameter(parameter) + rest == Be32(|value|) + (value + rest);
      TakeU32Inverse(|value|, value + rest, []);
  }

  lemma ReadParameterWasEncoded(b: Bytes)
    requires TakeParameter(b).Ok?
    ensures var p := TakeParameter(b).value;
            && (p.value.Some? ==> |p.value.value| < 0x8000_0000)
            && b == EncodeParameter(p.value) + p.rest
  {
    TakeU32Inverse(0, [], b);
  }

  lemma OneMoreParameterRead(b: Bytes, count: nat, head: Parsed<Option<Bytes>>, tail: Parsed<seq<Option<Bytes>>>)
    requires TakeParameter(b) == Ok(head) && TakeParameters(head.rest, count) == Ok(tail)
    ensures TakeParameters(b, count + 1) == Ok(Parsed([head.value] + tail.value, tail.rest))
  {
  }

  lemma EncodeParametersSplits(parameters: seq<Option<Bytes>>, rest: Bytes)
    requires ParametersFit(parameters) && parameters != []
    ensures EncodeParameters(parameters) + rest
         == EncodeParameter(parameters[0]) + (EncodeParameters(parameters[1..]) + rest)
  {
  }

  lemma FirstParameterIsRead(parameters: seq<Option<Bytes>>, rest: Bytes, b: Bytes)
    requires ParametersFit(parameters) && parameters != [] && b == EncodeParameters(parameters) + rest
    ensures TakeParameter(b) == Ok(Parsed(parameters[0], EncodeParameters(parameters[1..]) + rest))
  {
    EncodeParametersSplits(parameters, rest);
    ParameterIsRead(parameters[0], EncodeParameters(parameters[1..]) + rest);
  }

  lemma {:induction false} ParametersAreRead(parameters: seq<Option<Bytes>>, rest: Bytes, b: Bytes)
    requires ParametersFit(parameters) && b == EncodeParameters(parameters) + rest
    ensures TakeParameters(b, |parameters|) == Ok(Parsed(parameters, rest))
  {
    if parameters == [] {
      assert b == rest;
    } else {
      var later := parameters[1..];
      var tail := EncodeParameters(later) + rest;
      FirstParameterIsRead(parameters, rest, b);
      ParametersAreRead(later, rest, tail);
      OneMoreParameterRead(b, |later|, Parsed(parameters[0], tail), Parsed(later, rest));
      assert parameters == [parameters[0]] + later;
    }
  }

  lemma FirstParameterOf(b: Bytes, count: nat) returns (head: Parsed<Option<Bytes>>, tail: Parsed<seq<Option<Bytes>>>)
    requires count != 0 && TakeParameters(b, count).Ok?
    ensures TakeParameter(b) == Ok(head) && TakeParameters(head.rest, count - 1) == Ok(tail)
    ensures TakeParameters(b, count) == Ok(Parsed([head.value] + tail.value, tail.rest))
  {
    head := TakeParameter(b).value;
    tail := TakeParameters(head.rest, count - 1).value;
  }

  lemma JoinParameters(b: Bytes, head: Parsed<Option<Bytes>>, tail: Parsed<seq<Option<Bytes>>>)
    requires head.value.Some? ==> |head.value.value| < 0x8000_0000
    requires ParametersFit(tail.value)
    requires b == EncodeParameter(head.value) + head.rest && head.rest == EncodeParameters(tail.value) + tail.rest
    ensures var all := [head.value] + tail.value; ParametersFit(all) && b == EncodeParameters(all) + tail.rest
  {
    var all := [head.value] + tail.value;
    assert all[1..] == tail.value;
    assert ParametersFit(all);
    EncodeParametersSplits(all, tail.rest);
  }

  lemma {:induction false} ReadParametersWereEncoded(b: Bytes, count: nat)
    requires TakeParameters(b, count).Ok?
    ensures var p := TakeParameters(b, count).value;
            |p.value| == count && ParametersFit(p.value) && b == EncodeParameters(p.value) + p.rest
    decreases count
  {
    if count != 0 {
      var head, tail := FirstParameterOf(b, count);
      ReadParameterWasEncoded(b);
      ReadParametersWereEncoded(head.rest, count - 1);
      JoinParameters(b, head, tail);
    }
  }

  // ---- whole messages ----

  lemma ParseIsRead(name: Bytes, text: Bytes, oids: seq<U32>)
    requires Fits(Parse(name, text, oids))
    ensures DecodeParse(Payload(Parse(name, text, oids))) == Ok(Parse(name, text, oids))
  {
    var afterCount := EncodeOids(oids) + [];
    var afterText := Be16(|oids|) + EncodeOids(oids);
    assert EncodeOids(oids) == afterCount;
    TextIsRead(name, MAX_NAME_BYTES, EncodeText(text) + afterText);
    TextIsRead(text, MAX_FRAME_BYTES, afterText);
    TakeCountInverse(|oids|, EncodeOids(oids), []);
    OidsAreRead(oids, [], afterCount);
  }

  lemma ReadParseWasEncoded(b: Bytes)
    requires DecodeParse(b).Ok?
    ensures var m := DecodeParse(b).value; m.Parse? && Fits(m) && Payload(m) == b
  {
    ReadTextWasEncoded(b, MAX_NAME_BYTES);
    var name := TakeText(b, MAX_NAME_BYTES).value;
    ReadTextWasEncoded(name.rest, MAX_FRAME_BYTES);
    var text := TakeText(name.rest, MAX_FRAME_BYTES).value;
    TakeCountInverse(0, [], text.rest);
    var count := TakeCount(text.rest).value;
    ReadOidsWereEncoded(count.rest, count.value);
  }

  lemma CountedFormatsAreRead(formats: seq<I16>, rest: Bytes)
    requires |formats| <= MAX_PARAMETERS
    ensures TakeCountedFormats(EncodeCountedFormats(formats) + rest) == Ok(Parsed(formats, rest))
  {
    assert EncodeCountedFormats(formats) + rest == Be16(|formats|) + (EncodeFormats(formats) + rest);
    TakeCountInverse(|formats|, EncodeFormats(formats) + rest, []);
    FormatsAreRead(formats, rest, EncodeFormats(formats) + rest);
  }

  lemma CountedSplits(b: Bytes, count: Parsed<nat>, body: Bytes, rest: Bytes)
    requires count.value <= MAX_PARAMETERS && b == Be16(count.value) + count.rest && count.rest == body + rest
    ensures b == (Be16(count.value) + body) + rest
  {
  }

  lemma ReadCountedFormatsWereEncoded(b: Bytes)
    requires TakeCountedFormats(b).Ok?
    ensures var p := TakeCountedFormats(b).value;
            |p.value| <= MAX_PARAMETERS && b == EncodeCountedFormats(p.value) + p.rest
  {
    TakeCountInverse(0, [], b);
    var count := TakeCount(b).value;
    ReadFormatsWereEncoded(count.rest, count.value);
    var formats := TakeFormats(count.rest, count.value).value;
    CountedSplits(b, count, EncodeFormats(formats.value), formats.rest);
  }

  lemma CountedParametersAreRead(parameters: seq<Option<Bytes>>, rest: Bytes)
    requires |parameters| <= MAX_PARAMETERS && ParametersFit(parameters)
    ensures TakeCountedParameters(EncodeCountedParameters(parameters) + rest) == Ok(Parsed(parameters, rest))
  {
    assert EncodeCountedParameters(parameters) + rest == Be16(|parameters|) + (EncodeParameters(parameters) + rest);
    TakeCountInverse(|parameters|, EncodeParameters(parameters) + rest, []);
    ParametersAreRead(parameters, rest, EncodeParameters(parameters) + rest);
  }

  lemma ReadCountedParametersWereEncoded(b: Bytes)
    requires TakeCountedParameters(b).Ok?
    ensures var p := TakeCountedParameters(b).value;
            |p.value| <= MAX_PARAMETERS && ParametersFit(p.value) && b == EncodeCountedParameters(p.value) + p.rest
  {
    TakeCountInverse(0, [], b);
    var count := TakeCount(b).value;
    ReadParametersWereEncoded(count.rest, count.value);
    var parameters := TakeParameters(count.rest, count.value).value;
    CountedSplits(b, count, EncodeParameters(parameters.value), parameters.rest);
  }

  lemma BindIsRead(portal: Bytes, statement: Bytes, formats: seq<I16>, parameters: seq<Option<Bytes>>,
                   results: seq<I16>)
    requires Fits(Bind(portal, statement, formats, parameters, results))
    ensures DecodeBind(EncodeBind(portal, statement, formats, parameters, results))
         == Ok(Bind(portal, statement, formats, parameters, results))
  {
    var d := EncodeCountedFormats(results);
    var c := EncodeCountedParameters(parameters) + d;
    var a := EncodeCountedFormats(formats) + c;
    TextIsRead(portal, MAX_NAME_BYTES, EncodeText(statement) + a);
    TextIsRead(statement, MAX_NAME_BYTES, a);
    CountedFormatsAreRead(formats, c);
    CountedParametersAreRead(parameters, d);
    CountedFormatsAreRead(results, []);
    assert d + [] == d;
  }

  lemma BindParts(b: Bytes)
    returns (portal: Parsed<Bytes>, statement: Parsed<Bytes>, formats: Parsed<seq<I16>>,
             parameters: Parsed<seq<Option<Bytes>>>, results: Parsed<seq<I16>>)
    requires DecodeBind(b).Ok?
    ensures TakeText(b, MAX_NAME_BYTES) == Ok(portal) && TakeText(portal.rest, MAX_NAME_BYTES) == Ok(statement)
    ensures TakeCountedFormats(statement.rest) == Ok(formats) && TakeCountedParameters(formats.rest) == Ok(parameters)
    ensures TakeCountedFormats(parameters.rest) == Ok(results) && results.rest == []
    ensures DecodeBind(b) == Ok(Bind(portal.value, statement.value, formats.value, parameters.value, results.value))
  {
    portal := TakeText(b, MAX_NAME_BYTES).value;
    statement := TakeText(portal.rest, MAX_NAME_BYTES).value;
    formats := TakeCountedFormats(statement.rest).value;
    parameters := TakeCountedParameters(formats.rest).value;
    results := TakeCountedFormats(parameters.rest).value;
  }

  lemma JoinBytes(b: Bytes, c1: Bytes, r1: Bytes, c2: Bytes, r2: Bytes, c3: Bytes, r3: Bytes, c4: Bytes, r4: Bytes,
                  c5: Bytes)
    requires b == c1 + r1 && r1 == c2 + r2 && r2 == c3 + r3 && r3 == c4 + r4 && r4 == c5 + []
    ensures b == c1 + (c2 + (c3 + (c4 + c5)))
  {
  }

  lemma ReadBindWasEncoded(b: Bytes)
    requires DecodeBind(b).Ok?
    ensures var m := DecodeBind(b).value; m.Bind? && Fits(m) && Payload(m) == b
  {
    var portal, statement, formats, parameters, results := BindParts(b);
    ReadTextWasEncoded(b, MAX_NAME_BYTES);
    ReadTextWasEncoded(portal.rest, MAX_NAME_BYTES);
    ReadCountedFormatsWereEncoded(statement.rest);
    ReadCountedParametersWereEncoded(formats.rest);
    ReadCountedFormatsWereEncoded(parameters.rest);
    JoinBytes(b, EncodeText(portal.value), portal.rest, EncodeText(statement.value), statement.rest,
              EncodeCountedFormats(formats.value), formats.rest,
              EncodeCountedParameters(parameters.value), parameters.rest,
              EncodeCountedFormats(results.value));
  }

  lemma TextOnlyIsRead(text: Bytes, limit: nat)
    requires TextFits(text, limit)
    ensures TakeText(EncodeText(text), limit) == Ok(Parsed(text, []))
  {
    TextIsRead(text, limit, []);
    assert EncodeText(text) + [] == EncodeText(text);
  }

  lemma KindAndNameAreRead(kind: Byte, name: Bytes)
    requires TextFits(name, MAX_NAME_BYTES)
    ensures TakeByte([kind] + EncodeText(name)) == Ok(Parsed(kind, EncodeText(name)))
    ensures TakeText(EncodeText(name), MAX_NAME_BYTES) == Ok(Parsed(name, []))
  {
    TextOnlyIsRead(name, MAX_NAME_BYTES);
    assert ([kind] + EncodeText(name))[1..] == EncodeText(name);
  }

  lemma ExecuteIsRead(portal: Bytes, maxRows: U32)
    requires TextFits(portal, MAX_NAME_BYTES)
    ensures TakeText(EncodeText(portal) + Be32(maxRows), MAX_NAME_BYTES) == Ok(Parsed(portal, Be32(maxRows)))
    ensures TakeU32(Be32(maxRows)) == Ok(Parsed(maxRows, []))
  {
    TextIsRead(portal, MAX_NAME_BYTES, Be32(maxRows));
    TakeU32Inverse(maxRows, [], []);
    assert Be32(maxRows) + [] == Be32(maxRows);
  }

  lemma ListMessageIsRead(m: Message)
    requires Fits(m) && (m.Parse? || m.Bind?)
    ensures Decode(Tag(m), Payload(m)) == Ok(m)
  {
    if m.Parse? {
      ParseIsRead(m.name, m.text, m.parameterOids);
    } else {
      BindIsRead(m.portal, m.statement, m.parameterFormats, m.parameters, m.resultFormats);
    }
  }

  lemma DescribeIsRead(kind: Byte, name: Bytes)
    requires TextFits(name, MAX_NAME_BYTES)
    ensures Decode('D' as int, [kind] + EncodeText(name)) == Ok(Describe(kind, name))
    ensures Decode('C' as int, [kind] + EncodeText(name)) == Ok(Close(kind, name))
  {
    KindAndNameAreRead(kind, name);
  }

  lemma ExecuteMessageIsRead(portal: Bytes, maxRows: U32)
    requires TextFits(portal, MAX_NAME_BYTES)
    ensures Decode('E' as int, EncodeText(portal) + Be32(maxRows)) == Ok(Execute(portal, maxRows))
  {
    ExecuteIsRead(portal, maxRows);
  }

  lemma NamedMessageIsRead(m: Message)
    requires Fits(m) && (m.Describe? || m.Close? || m.Execute?)
    ensures Decode(Tag(m), Payload(m)) == Ok(m)
  {
    match m
    case Describe(kind, name) => DescribeIsRead(kind, name);
    case Close(kind, name) => DescribeIsRead(kind, name);
    case Execute(portal, maxRows) => ExecuteMessageIsRead(portal, maxRows);
  }

  lemma PlainMessageIsRead(m: Message)
    requires Fits(m) && !m.Parse? && !m.Bind? && !m.Describe? && !m.Close? && !m.Execute?
    ensures Decode(Tag(m), Payload(m)) == Ok(m)
  {
    if m.Query? {
      TextOnlyIsRead(m.sql, MAX_FRAME_BYTES);
    } else if m.CopyFail? {
      TextOnlyIsRead(m.reason, MAX_FRAME_BYTES);
    }
  }

  /** Every message that fits is read back from its encoding. */
  lemma DecodeInvertsEncode(m: Message)
    requires Fits(m)
    ensures Decode(Tag(m), Payload(m)) == Ok(m)
  {
    if m.Parse? || m.Bind? {
      ListMessageIsRead(m);
    } else if m.Describe? || m.Close? || m.Execute? {
      NamedMessageIsRead(m);
    } else {
      PlainMessageIsRead(m);
    }
  }

  lemma ReadTextOnly(b: Bytes, limit: nat)
    requires TakeText(b, limit).Ok? && TakeText(b, limit).value.rest == []
    ensures TextFits(TakeText(b, limit).value.value, limit) && EncodeText(TakeText(b, limit).value.value) == b
  {
    ReadTextWasEncoded(b, limit);
  }

  lemma ReadKindAndName(b: Bytes)
    requires TakeByte(b).Ok?
    requires var name := TakeText(TakeByte(b).value.rest, MAX_NAME_BYTES); name.Ok? && name.value.rest == []
    ensures var name := TakeText(TakeByte(b).value.rest, MAX_NAME_BYTES).value.value;
            TextFits(name, MAX_NAME_BYTES) && [TakeByte(b).value.value] + EncodeText(name) == b
  {
    ReadTextOnly(b[1..], MAX_NAME_BYTES);
  }

  lemma ReadExecuteWasEncoded(b: Bytes)
    requires Decode('E' as int, b).Ok?
    ensures var m := Decode('E' as int, b).value; m.Execute? && Fits(m) && Payload(m) == b
  {
    ReadTextWasEncoded(b, MAX_NAME_BYTES);
    TakeU32Inverse(0, [], TakeText(b, MAX_NAME_BYTES).value.rest);
  }

  /** What the decoder accepts is exactly an encoding, of the message it returns: no trailing
      byte, no second spelling, no limit exceeded. */
  lemma DecodedWasEncoded(tag: Byte, b: Bytes)
    requires Decode(tag, b).Ok?
    ensures var m := Decode(tag, b).value; Fits(m) && Tag(m) == tag && Payload(m) == b
  {
    if tag == 'Q' as int || tag == 'f' as int {
      ReadTextOnly(b, MAX_FRAME_BYTES);
    } else if tag == 'P' as int {
      ReadParseWasEncoded(b);
    } else if tag == 'B' as int {
      ReadBindWasEncoded(b);
    } else if tag == 'D' as int || tag == 'C' as int {
      ReadKindAndName(b);
    } else if tag == 'E' as int {
      ReadExecuteWasEncoded(b);
    }
  }

  /** A frame decodes if and only if it is the encoding of some message that fits. */
  lemma DecodesIffEncoding(tag: Byte, b: Bytes)
    ensures Decode(tag, b).Ok? <==> exists m :: Fits(m) && Tag(m) == tag && Payload(m) == b
  {
    if Decode(tag, b).Ok? {
      DecodedWasEncoded(tag, b);
      var m := Decode(tag, b).value;
      assert Fits(m) && Tag(m) == tag && Payload(m) == b;
    }
    if m :| Fits(m) && Tag(m) == tag && Payload(m) == b {
      DecodeInvertsEncode(m);
    }
  }
}

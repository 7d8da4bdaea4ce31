/** The payload decoder as the program runs it: a cursor that advances over the bytes, field by
    field, proved to decode what module Wire specifies. */
module PayloadDecoder {
  import opened Base
  import opened Utf8
  import opened Wire

  class Cursor {
    const bytes: Bytes
    var offset: nat

    ghost predicate Valid()
      reads this
    {
      offset <= |bytes|
    }

    function Remaining(): Bytes
      requires Valid()
      reads this
    {
      bytes[offset..]
    }

    constructor (bytes: Bytes)
      ensures Valid() && Remaining() == bytes
    {
      this.bytes, offset := bytes, 0;
    }

    method Take(length: nat) returns (r: Result<Bytes>)
      requires Valid()
      modifies this`offset
      ensures Valid()
      ensures r.Ok? ==> TakeBytes(old(Remaining()), length) == Ok(Parsed(r.value, Remaining()))
      ensures r.Err? ==> r == Err(PROTOCOL) && TakeBytes(old(Remaining()), length).Err? && offset == old(offset)
    {
      if |bytes| < offset + length { return Err(PROTOCOL); }
      r := Ok(bytes[offset..offset + length]);
      assert r.value == Remaining()[..length] && bytes[offset + length..] == Remaining()[length..];
      offset := offset + length;
    }

    method TakeOne() returns (r: Result<Byte>)
      requires Valid()
      modifies this`offset
      ensures Valid()
      ensures r.Ok? ==> TakeByte(old(Remaining())) == Ok(Parsed(r.value, Remaining()))
      ensures r.Err? ==> r == Err(PROTOCOL) && TakeByte(old(Remaining())).Err? && offset == old(offset)
    {
      var b := Take(1);
      if b.Err? { return Err(b.state); }
      r := Ok(b.value[0]);
    }

    method Word16() returns (r: Result<U16>)
      requires Valid()
      modifies this`offset
      ensures Valid()
      ensures r.Ok? ==> TakeU16(old(Remaining())) == Ok(Parsed(r.value, Remaining()))
      ensures r.Err? ==> r == Err(PROTOCOL) && TakeU16(old(Remaining())).Err? && offset == old(offset)
    {
      var b := Take(2);
      if b.Err? { return Err(b.state); }
      r := Ok(U16Of(b.value));
    }

    method Word32() returns (r: Result<U32>)
      requires Valid()
      modifies this`offset
      ensures Valid()
      ensures r.Ok? ==> TakeU32(old(Remaining())) == Ok(Parsed(r.value, Remaining()))
      ensures r.Err? ==> r == Err(PROTOCOL) && TakeU32(old(Remaining())).Err? && offset == old(offset)
    {
      var b := Take(4);
      if b.Err? { return Err(b.state); }
      r := Ok(U32Of(b.value));
    }

    method Count() returns (r: Result<nat>)
      requires Valid()
      modifies this`offset
      ensures Valid()
      ensures r.Ok? ==> TakeCount(old(Remaining())) == Ok(Parsed(r.value, Remaining()))
      ensures r.Err? ==> r == Err(PROTOCOL) && TakeCount(old(Remaining())).Err?
    {
      var b := Take(2);
      if b.Err? { return Err(b.state); }
      var count := U16Of(b.value);
      r := if MAX_PARAMETERS < count then Err(PROTOCOL) else Ok(count);
    }

    method Text(limit: nat) returns (r: Result<Bytes>)
      requires Valid()
      modifies this`offset
      ensures Valid()
      ensures r.Ok? ==> TakeText(old(Remaining()), limit) == Ok(Parsed(r.value, Remaining()))
      ensures r.Err? ==> r == Err(PROTOCOL) && TakeText(old(Remaining()), limit).Err?
    {
      var remaining := Remaining();
      var end := 0;
      while end < |remaining| && remaining[end] != 0
        invariant end <= |remaining|
        invariant FirstZero(remaining) == end + FirstZero(remaining[end..])
        decreases |remaining| - end
      {
        assert remaining[end..][1..] == remaining[end + 1..];
        end := end + 1;
      }
      if end == |remaining| || limit < end || !ValidUtf8(remaining[..end]) { return Err(PROTOCOL); }
      r := Ok(remaining[..end]);
      offset := offset + end + 1;
    }

    method Oids(count: nat) returns (r: Result<seq<U32>>)
      requires Valid()
      modifies this`offset
      ensures Valid()
      ensures r.Ok? ==> TakeOids(old(Remaining()), count) == Ok(Parsed(r.value, Remaining()))
      ensures r.Err? ==> r == Err(PROTOCOL) && TakeOids(old(Remaining()), count).Err?
    {
      ghost var whole := TakeOids(Remaining(), count);
      ExtendsItself(whole);
      var values: seq<U32> := [];
      var k := 0;
      while k < count
        invariant 0 <= k <= count && Valid()
        invariant Extends(values, TakeOids(Remaining(), count - k), whole)
      {
        ghost var all := TakeOids(Remaining(), count - k);
        var value := Word32();
        if value.Err? { return Err(value.state); }
        ExtendsOneMore(values, value.value, TakeOids(Remaining(), count - k - 1), all, whole);
        values := values + [value.value];
        k := k + 1;
      }
      ExtendsNothing(values, Remaining(), whole);
      r := Ok(values);
    }

    method Formats(count: nat) returns (r: Result<seq<I16>>)
      requires Valid()
      modifies this`offset
      ensures Valid()
      ensures r.Ok? ==> TakeFormats(old(Remaining()), count) == Ok(Parsed(r.value, Remaining()))
      ensures r.Err? ==> r == Err(PROTOCOL) && TakeFormats(old(Remaining()), count).Err?
    {
      ghost var whole := TakeFormats(Remaining(), count);
      ExtendsItself(whole);
      var values: seq<I16> := [];
      var k := 0;
      while k < count
        invariant 0 <= k <= count && Valid()
        invariant Extends(values, TakeFormats(Remaining(), count - k), whole)
      {
        ghost var all := TakeFormats(Remaining(), count - k);
        var value := Word16();
        if value.Err? { return Err(value.state); }
        ExtendsOneMore(values, Signed16(value.value), TakeFormats(Remaining(), count - k - 1), all, whole);
        values := values + [Signed16(value.value)];
        k := k + 1;
      }
      ExtendsNothing(values, Remaining(), whole);
      r := Ok(values);
    }

    method Parameter() returns (r: Result<Option<Bytes>>)
      requires Valid()
      modifies this`offset
      ensures Valid()
      ensures r.Ok? ==> TakeParameter(old(Remaining())) == Ok(Parsed(r.value, Remaining()))
      ensures r.Err? ==> r == Err(PROTOCOL) && TakeParameter(old(Remaining())).Err?
    {
      var length := Word32();
      if length.Err? { return Err(length.state); }
      if length.value == 0xFFFF_FFFF { return Ok(None); }
      if 0x8000_0000 <= length.value { return Err(PROTOCOL); }
      var value := Take(length.value);
      if value.Err? { return Err(value.state); }
      r := Ok(Some(value.value));
    }

    method Parameters(count: nat) returns (r: Result<seq<Option<Bytes>>>)
      requires Valid()
      modifies this`offset
      ensures Valid()
      ensures r.Ok? ==> TakeParameters(old(Remaining()), count) == Ok(Parsed(r.value, Remaining()))
      ensures r.Err? ==> r == Err(PROTOCOL) && TakeParameters(old(Remaining()), count).Err?
    {
      ghost var whole := TakeParameters(Remaining(), count);
      ExtendsItself(whole);
      var values: seq<Option<Bytes>> := [];
      var k := 0;
      while k < count
        invariant 0 <= k <= count && Valid()
        invariant Extends(values, TakeParameters(Remaining(), count - k), whole)
      {
        ghost var before := Remaining();
        var value := Parameter();
        ParametersStep(before, count - k, value, Remaining());
        if value.Err? { return Err(value.state); }
        ExtendsOneMore(values, value.value, TakeParameters(Remaining(), count - k - 1),
                       TakeParameters(before, count - k), whole);
        values := values + [value.value];
        k := k + 1;
      }
      ExtendsNothing(values, Remaining(), whole);
      r := Ok(values);
    }
  }

  /** `whole` is `later` with `values` in front. */
  ghost predicate Extends<T>(values: seq<T>, later: Result<Parsed<seq<T>>>, whole: Result<Parsed<seq<T>>>) {
    whole == if later.Err? then later else Ok(Parsed(values + later.value.value, later.value.rest))
  }

  /** `all` is `later` with one more value in front. */
  ghost predicate Prefixes<T>(value: T, later: Result<Parsed<seq<T>>>, all: Result<Parsed<seq<T>>>) {
    all == if later.Err? then later else Ok(Parsed([value] + later.value.value, later.value.rest))
  }

  lemma ParametersStep(b: Bytes, count: nat, value: Result<Option<Bytes>>, rest: Bytes)
    requires 0 < count
    requires value.Ok? ==> TakeParameter(b) == Ok(Parsed(value.value, rest))
    requires value.Err? ==> TakeParameter(b).Err?
    ensures value.Err? ==> TakeParameters(b, count).Err?
    ensures value.Ok? ==> Prefixes(value.value, TakeParameters(rest, count - 1), TakeParameters(b, count))
  {
  }

  lemma ExtendsItself<T>(whole: Result<Parsed<seq<T>>>)
    ensures Extends([], whole, whole)
  {
    if whole.Ok? {
      assert [] + whole.value.value == whole.value.value;
    }
  }

  lemma ExtendsOneMore<T>(values: seq<T>, value: T, later: Result<Parsed<seq<T>>>, all: Result<Parsed<seq<T>>>,
                          whole: Result<Parsed<seq<T>>>)
    requires Prefixes(value, later, all) && Extends(values, all, whole)
    ensures Extends(values + [value], later, whole)
  {
    if later.Ok? {
      assert values + [value] + later.value.value == values + ([value] + later.value.value);
    }
  }

  lemma ExtendsNothing<T>(values: seq<T>, rest: Bytes, whole: Result<Parsed<seq<T>>>)
    requires Extends(values, Ok(Parsed([], rest)), whole)
    ensures whole == Ok(Parsed(values, rest))
  {
    assert values + [] == values;
  }

  // ---- decoding a payload ----

  method DecodeParseMessage(payload: Bytes) returns (r: Result<Message>)
    ensures r == DecodeParse(payload)
  {
    var cursor := new Cursor(payload);
    var name := cursor.Text(MAX_NAME_BYTES);
    if name.Err? { return Err(name.state); }
    var text := cursor.Text(MAX_FRAME_BYTES);
    if text.Err? { return Err(text.state); }
    var count := cursor.Count();
    if count.Err? { return Err(count.state); }
    var oids := cursor.Oids(count.value);
    if oids.Err? { return Err(oids.state); }
    r := Finish(cursor.Remaining(), Parse(name.value, text.value, oids.value));
  }

  method CountedFormats(cursor: Cursor) returns (r: Result<seq<I16>>)
    requires cursor.Valid()
    modifies cursor`offset
    ensures cursor.Valid()
    ensures r.Ok? ==> TakeCountedFormats(old(cursor.Remaining())) == Ok(Parsed(r.value, cursor.Remaining()))
    ensures r.Err? ==> r == Err(PROTOCOL) && TakeCountedFormats(old(cursor.Remaining())) == Err(PROTOCOL)
  {
    var count := cursor.Count();
    if count.Err? { return Err(count.state); }
    r := cursor.Formats(count.value);
  }

  method CountedParameters(cursor: Cursor) returns (r: Result<seq<Option<Bytes>>>)
    requires cursor.Valid()
    modifies cursor`offset
    ensures cursor.Valid()
    ensures r.Ok? ==> TakeCountedParameters(old(cursor.Remaining())) == Ok(Parsed(r.value, cursor.Remaining()))
    ensures r.Err? ==> r == Err(PROTOCOL) && TakeCountedParameters(old(cursor.Remaining())) == Err(PROTOCOL)
  {
    var count := cursor.Count();
    if count.Err? { return Err(count.state); }
    r := cursor.Parameters(count.value);
  }

  method DecodeBindMessage(payload: Bytes) returns (r: Result<Message>)
    ensures r == DecodeBind(payload)
  {
    var cursor := new Cursor(payload);
    var portal := cursor.Text(MAX_NAME_BYTES);
    if portal.Err? { return Err(portal.state); }
    var statement := cursor.Text(MAX_NAME_BYTES);
    if statement.Err? { return Err(statement.state); }
    var formats := CountedFormats(cursor);
    if formats.Err? { return Err(formats.state); }
    var parameters := CountedParameters(cursor);
    if parameters.Err? { return Err(parameters.state); }
    var results := CountedFormats(cursor);
    if results.Err? { return Err(results.state); }
      r := Finish(cursor.Remaining(),
                  Bind(portal.value, statement.value, formats.value, parameters.value, results.value));
  }

  /** The kind byte and the name of a Describe or a Close. */
  method DecodeNamed(payload: Bytes) returns (r: Result<(Byte, Bytes)>)
    ensures r.Ok? ==> TakeByte(payload).Ok? &&
                      TakeText(TakeByte(payload).value.rest, MAX_NAME_BYTES) == Ok(Parsed(r.value.1, [])) &&
                      TakeByte(payload).value.value == r.value.0
    ensures r.Err? ==> r == Err(PROTOCOL)
    ensures r.Err? && TakeByte(payload).Ok? ==>
      var name := TakeText(TakeByte(payload).value.rest, MAX_NAME_BYTES); name.Err? || name.value.rest != []
  {
    var cursor := new Cursor(payload);
    var kind := cursor.TakeOne();
    if kind.Err? { return Err(kind.state); }
    var name := cursor.Text(MAX_NAME_BYTES);
    if name.Err? { return Err(name.state); }
    r := if cursor.Remaining() == [] then Ok((kind.value, name.value)) else Err(PROTOCOL);
  }

  method DecodeExecute(payload: Bytes) returns (r: Result<Message>)
    ensures r == Decode('E' as int, payload)
  {
    var cursor := new Cursor(payload);
    var portal := cursor.Text(MAX_NAME_BYTES);
    if portal.Err? { return Err(portal.state); }
    var maxRows := cursor.Word32();
    if maxRows.Err? { return Err(maxRows.state); }
    r := Finish(cursor.Remaining(), Execute(portal.value, maxRows.value));
  }

  method DecodeOnlyText(payload: Bytes) returns (r: Result<Bytes>)
    ensures r.Ok? ==> TakeText(payload, MAX_FRAME_BYTES) == Ok(Parsed(r.value, []))
    ensures r.Err? ==> r == Err(PROTOCOL)
    ensures r.Err? ==> var text := TakeText(payload, MAX_FRAME_BYTES); text.Err? || text.value.rest != []
  {
    var cursor := new Cursor(payload);
    var text := cursor.Text(MAX_FRAME_BYTES);
    if text.Err? { return Err(text.state); }
    r := if cursor.Remaining() == [] then Ok(text.value) else Err(PROTOCOL);
  }

  method DecodeFrontend(tag: Byte, payload: Bytes) returns (r: Result<Message>)
    ensures r == Decode(tag, payload)
  {
    if tag == 'P' as int {
      r := DecodeParseMessage(payload);
    } else if tag == 'B' as int {
      r := DecodeBindMessage(payload);
    } else if tag == 'E' as int {
      r := DecodeExecute(payload);
    } else if tag == 'Q' as int || tag == 'f' as int {
      var text := DecodeOnlyText(payload);
      if text.Err? { return Err(text.state); }
      r := Ok(if tag == 'Q' as int then Query(text.value) else CopyFail(text.value));
    } else if tag == 'D' as int || tag == 'C' as int {
      var named := DecodeNamed(payload);
      if named.Err? { return Err(named.state); }
      r := Ok(if tag == 'D' as int then Describe(named.value.0, named.value.1)
              else Close(named.value.0, named.value.1));
    } else if tag == 'p' as int {
      r := Ok(Password(payload));
    } else if tag == 'd' as int {
      r := Ok(CopyData(payload));
    } else if tag == 'S' as int {
      r := Finish(payload, Sync);
    } else if tag == 'H' as int {
      r := Finish(payload, Flush);
    } else if tag == 'X' as int {
      r := Finish(payload, Terminate);
    } else if tag == 'c' as int {
      r := Finish(payload, CopyDone);
    } else {
      r := Err(PROTOCOL);
    }
  }
}

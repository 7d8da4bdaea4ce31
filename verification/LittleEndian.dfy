/** Fixed-width little-endian integers and replacement of a stretch of bytes. */
module LittleEndian {
  import opened Base

  function Pow256(width: nat): (p: nat)
    ensures 0 < p
  {
    if width == 0 then 1 else 256 * Pow256(width - 1)
  }

  function ToLe(width: nat, value: nat): (bytes: Bytes)
    ensures |bytes| == width
  {
    if width == 0 then [] else [value % 256] + ToLe(width - 1, value / 256)
  }

  function FromLe(bytes: Bytes): nat {
    if bytes == [] then 0 else bytes[0] + 256 * FromLe(bytes[1..])
  }

  lemma {:induction false} FromToLe(width: nat, value: nat)
    requires value < Pow256(width)
    ensures FromLe(ToLe(width, value)) == value
  {
    if 0 < width {
      FromToLe(width - 1, value / 256);
      assert ToLe(width, value)[1..] == ToLe(width - 1, value / 256);
    }
  }

  lemma {:induction false} ToFromLe(bytes: Bytes)
    ensures ToLe(|bytes|, FromLe(bytes)) == bytes
    ensures FromLe(bytes) < Pow256(|bytes|)
  {
    if bytes != [] {
      ToFromLe(bytes[1..]);
      assert bytes == [bytes[0]] + bytes[1..];
    }
  }

  lemma Widths()
    ensures Pow256(1) == 256 && Pow256(2) == U16_LIMIT && Pow256(4) == U32_LIMIT && Pow256(8) == U64_LIMIT
  {
    assert Pow256(3) == 256 * Pow256(2) && Pow256(5) == 256 * Pow256(4) && Pow256(6) == 256 * Pow256(5)
        && Pow256(7) == 256 * Pow256(6);
  }

  function U16Le(value: U16): (bytes: Bytes)
    ensures |bytes| == 2 && FromLe(bytes) == value
  {
    Widths();
    FromToLe(2, value);
    ToLe(2, value)
  }

  function U32Le(value: U32): (bytes: Bytes)
    ensures |bytes| == 4 && FromLe(bytes) == value
  {
    Widths();
    FromToLe(4, value);
    ToLe(4, value)
  }

  function U64Le(value: U64): (bytes: Bytes)
    ensures |bytes| == 8 && FromLe(bytes) == value
  {
    Widths();
    FromToLe(8, value);
    ToLe(8, value)
  }

  function U16At(bytes: Bytes, offset: nat): U16
    requires offset + 2 <= |bytes|
  {
    Widths();
    ToFromLe(bytes[offset..offset + 2]);
    FromLe(bytes[offset..offset + 2])
  }

  function U32At(bytes: Bytes, offset: nat): U32
    requires offset + 4 <= |bytes|
  {
    Widths();
    ToFromLe(bytes[offset..offset + 4]);
    FromLe(bytes[offset..offset + 4])
  }

  function U64At(bytes: Bytes, offset: nat): U64
    requires offset + 8 <= |bytes|
  {
    Widths();
    ToFromLe(bytes[offset..offset + 8]);
    FromLe(bytes[offset..offset + 8])
  }

  lemma U16Rewritten(bytes: Bytes, offset: nat)
    requires offset + 2 <= |bytes|
    ensures U16Le(U16At(bytes, offset)) == bytes[offset..offset + 2]
  {
    ToFromLe(bytes[offset..offset + 2]);
  }

  lemma U32Rewritten(bytes: Bytes, offset: nat)
    requires offset + 4 <= |bytes|
    ensures U32Le(U32At(bytes, offset)) == bytes[offset..offset + 4]
  {
    ToFromLe(bytes[offset..offset + 4]);
  }

  lemma U64Rewritten(bytes: Bytes, offset: nat)
    requires offset + 8 <= |bytes|
    ensures U64Le(U64At(bytes, offset)) == bytes[offset..offset + 8]
  {
    ToFromLe(bytes[offset..offset + 8]);
  }

  // ---- reading from the front ----

  const CORRUPT := "XX001"

  function TakeU8(b: Bytes): Result<Parsed<Byte>> {
    if b == [] then Err(CORRUPT) else Ok(Parsed(b[0], b[1..]))
  }

  function TakeU16(b: Bytes): Result<Parsed<U16>> {
    if |b| < 2 then Err(CORRUPT) else Ok(Parsed(U16At(b, 0), b[2..]))
  }

  function TakeU32(b: Bytes): Result<Parsed<U32>> {
    if |b| < 4 then Err(CORRUPT) else Ok(Parsed(U32At(b, 0), b[4..]))
  }

  function TakeU64(b: Bytes): Result<Parsed<U64>> {
    if |b| < 8 then Err(CORRUPT) else Ok(Parsed(U64At(b, 0), b[8..]))
  }

  lemma TakeU16Inverse(v: U16, rest: Bytes, b: Bytes)
    ensures TakeU16(U16Le(v) + rest) == Ok(Parsed(v, rest))
    ensures TakeU16(b).Ok? ==> b == U16Le(TakeU16(b).value.value) + TakeU16(b).value.rest
  {
    assert (U16Le(v) + rest)[0..2] == U16Le(v);
    if 2 <= |b| {
      U16Rewritten(b, 0);
      assert b == b[0..2] + b[2..];
    }
  }

  lemma TakeU32Inverse(v: U32, rest: Bytes, b: Bytes)
    ensures TakeU32(U32Le(v) + rest) == Ok(Parsed(v, rest))
    ensures TakeU32(b).Ok? ==> b == U32Le(TakeU32(b).value.value) + TakeU32(b).value.rest
  {
    assert (U32Le(v) + rest)[0..4] == U32Le(v);
    if 4 <= |b| {
      U32Rewritten(b, 0);
      assert b == b[0..4] + b[4..];
    }
  }

  lemma TakeU64Inverse(v: U64, rest: Bytes, b: Bytes)
    ensures TakeU64(U64Le(v) + rest) == Ok(Parsed(v, rest))
    ensures TakeU64(b).Ok? ==> b == U64Le(TakeU64(b).value.value) + TakeU64(b).value.rest
  {
    assert (U64Le(v) + rest)[0..8] == U64Le(v);
    if 8 <= |b| {
      U64Rewritten(b, 0);
      assert b == b[0..8] + b[8..];
    }
  }

  // ---- replacing ----

  /** `bytes` with the stretch starting at `offset` overwritten by `data`. */
  function Splice(bytes: Bytes, offset: nat, data: Bytes): (spliced: Bytes)
    requires offset + |data| <= |bytes|
    ensures |spliced| == |bytes|
  {
    bytes[..offset] + data + bytes[offset + |data|..]
  }

  lemma SpliceInside(bytes: Bytes, offset: nat, data: Bytes)
    requires offset + |data| <= |bytes|
    ensures Splice(bytes, offset, data)[offset..offset + |data|] == data
  {
  }

  lemma SpliceOutside(bytes: Bytes, offset: nat, data: Bytes, from: nat, to: nat)
    requires offset + |data| <= |bytes| && from <= to <= |bytes|
    requires to <= offset || offset + |data| <= from
    ensures Splice(bytes, offset, data)[from..to] == bytes[from..to]
  {
  }

  lemma SpliceTwice(bytes: Bytes, offset: nat, first: Bytes, second: Bytes)
    requires offset + |first| + |second| <= |bytes|
    ensures Splice(Splice(bytes, offset, first), offset + |first|, second) == Splice(bytes, offset, first + second)
  {
  }

  lemma SpliceOver(bytes: Bytes, offset: nat, first: Bytes, second: Bytes)
    requires offset + |first| <= |bytes| && |first| == |second|
    ensures Splice(Splice(bytes, offset, first), offset, second) == Splice(bytes, offset, second)
  {
  }

  lemma SpliceOneMore(bytes: Bytes, offset: nat, data: Bytes, i: nat)
    requires offset + |data| <= |bytes| && i < |data|
    ensures Splice(bytes, offset, data[..i])[offset + i := data[i]] == Splice(bytes, offset, data[..i + 1])
  {
    assert data[..i + 1] == data[..i] + [data[i]];
  }

  /** Copying `data` over the bytes of an array at `offset`. */
  method Overwrite(target: array<Byte>, offset: nat, data: Bytes)
    requires offset + |data| <= target.Length
    modifies target
    ensures target[..] == Splice(old(target[..]), offset, data)
  {
    ghost var before := target[..];
    var i := 0;
    while i < |data|
      invariant i <= |data| && target[..] == Splice(before, offset, data[..i])
    {
      ghost var prior := target[..];
      target[offset + i] := data[i];
      assert target[..] == prior[offset + i := data[i]];
      SpliceOneMore(before, offset, data, i);
      i := i + 1;
    }
    assert data[..i] == data;
  }
}

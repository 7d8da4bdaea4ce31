/** Well-formed text. */
module Utf8 {
  import opened Base

  predicate Continues(b: Bytes, i: nat, low: int, high: int) {
    i < |b| && low <= b[i] <= high
  }

  /** Well-formed UTF-8: no overlong form, no surrogate, nothing past U+10FFFF. */
  predicate ValidUtf8(b: Bytes) {
    if b == [] then true
    else if b[0] < 0x80 then ValidUtf8(b[1..])
    else if 0xC2 <= b[0] <= 0xDF then Continues(b, 1, 0x80, 0xBF) && ValidUtf8(b[2..])
    else if 0xE0 <= b[0] <= 0xEF then
      && Continues(b, 1, if b[0] == 0xE0 then 0xA0 else 0x80, if b[0] == 0xED then 0x9F else 0xBF)
      && Continues(b, 2, 0x80, 0xBF) && ValidUtf8(b[3..])
    else if 0xF0 <= b[0] <= 0xF4 then
      && Continues(b, 1, if b[0] == 0xF0 then 0x90 else 0x80, if b[0] == 0xF4 then 0x8F else 0xBF)
      && Continues(b, 2, 0x80, 0xBF) && Continues(b, 3, 0x80, 0xBF) && ValidUtf8(b[4..])
    else false
  }

  // ---- what well-formed text is ----

  /** A Unicode scalar value: a code point that is no surrogate. */
  predicate IsScalar(n: nat) { n < 0xD800 || 0xE000 <= n < 0x11_0000 }

  function EncodeScalar(n: nat): Bytes
    requires IsScalar(n)
  {
    if n < 0x80 then [n]
    else if n < 0x800 then [0xC0 + n / 64, 0x80 + n % 64]
    else if n < 0x1_0000 then [0xE0 + n / 4096, 0x80 + n / 64 % 64, 0x80 + n % 64]
    else [0xF0 + n / 26_2144, 0x80 + n / 4096 % 64, 0x80 + n / 64 % 64, 0x80 + n % 64]
  }

  predicate AllScalars(text: seq<nat>) {
    forall i | 0 <= i < |text| :: IsScalar(text[i])
  }

  function EncodeText(text: seq<nat>): Bytes
    requires AllScalars(text)
  {
    if text == [] then [] else EncodeScalar(text[0]) + EncodeText(text[1..])
  }

  lemma ScalarThenRest(n: nat, rest: Bytes)
    requires IsScalar(n)
    ensures ValidUtf8(EncodeScalar(n) + rest) <==> ValidUtf8(rest)
  {
    var first := EncodeScalar(n);
    var b := first + rest;
    assert b[|first|..] == rest;
    assert forall i | 0 <= i < |first| :: b[i] == first[i];
  }

  function Joined(high: nat, low: nat): nat { high * 64 + low }

  lemma SplitJoined(high: nat, low: nat)
    requires low < 64
    ensures Joined(high, low) / 64 == high && Joined(high, low) % 64 == low
  {
  }

  lemma TwoBytes(a: nat, b: nat)
    requires 2 <= a < 32 && b < 64
    ensures IsScalar(Joined(a, b)) && EncodeScalar(Joined(a, b)) == [0xC0 + a, 0x80 + b]
  {
    SplitJoined(a, b);
  }

  lemma ThreeBytes(a: nat, b: nat, c: nat)
    requires a < 16 && b < 64 && c < 64 && (a == 0 ==> 32 <= b) && (a == 13 ==> b < 32)
    ensures var n := Joined(Joined(a, b), c); IsScalar(n) && EncodeScalar(n) == [0xE0 + a, 0x80 + b, 0x80 + c]
  {
    SplitJoined(a, b);
    SplitJoined(Joined(a, b), c);
    assert Joined(Joined(a, b), c) / 4096 == Joined(a, b) / 64;
  }

  lemma FourBytes(a: nat, b: nat, c: nat, d: nat)
    requires a < 5 && b < 64 && c < 64 && d < 64 && (a == 0 ==> 16 <= b) && (a == 4 ==> b < 16)
    ensures var n := Joined(Joined(Joined(a, b), c), d);
            IsScalar(n) && EncodeScalar(n) == [0xF0 + a, 0x80 + b, 0x80 + c, 0x80 + d]
  {
    var top := Joined(a, b);
    var high := Joined(top, c);
    SplitJoined(a, b);
    SplitJoined(top, c);
    SplitJoined(high, d);
    assert Joined(high, d) / 4096 == high / 64 && Joined(high, d) / 26_2144 == top / 64;
  }

  lemma FirstScalar(b: Bytes) returns (n: nat, rest: Bytes)
    requires ValidUtf8(b) && b != []
    ensures IsScalar(n) && b == EncodeScalar(n) + rest && ValidUtf8(rest)
  {
    if b[0] < 0x80 {
      n, rest := b[0], b[1..];
    } else if b[0] <= 0xDF {
      n, rest := Joined(b[0] - 0xC0, b[1] - 0x80), b[2..];
      TwoBytes(b[0] - 0xC0, b[1] - 0x80);
    } else if b[0] <= 0xEF {
      n, rest := Joined(Joined(b[0] - 0xE0, b[1] - 0x80), b[2] - 0x80), b[3..];
      ThreeBytes(b[0] - 0xE0, b[1] - 0x80, b[2] - 0x80);
    } else {
      n, rest := Joined(Joined(Joined(b[0] - 0xF0, b[1] - 0x80), b[2] - 0x80), b[3] - 0x80), b[4..];
      FourBytes(b[0] - 0xF0, b[1] - 0x80, b[2] - 0x80, b[3] - 0x80);
    }
  }

  lemma {:induction false} ValidIsText(b: Bytes) returns (text: seq<nat>)
    requires ValidUtf8(b)
    ensures AllScalars(text) && EncodeText(text) == b
    decreases |b|
  {
    text := [];
    if b != [] {
      var n, rest := FirstScalar(b);
      var later := ValidIsText(rest);
      text := [n] + later;
      assert text[1..] == later;
    }
  }

  lemma {:induction false} TextIsValid(text: seq<nat>)
    requires AllScalars(text)
    ensures ValidUtf8(EncodeText(text))
  {
    if text != [] {
      TextIsValid(text[1..]);
      ScalarThenRest(text[0], EncodeText(text[1..]));
    }
  }

  /** The check accepts exactly the encodings of sequences of Unicode scalar values. */
  lemma ValidIffText(b: Bytes)
    ensures ValidUtf8(b) <==> exists text :: AllScalars(text) && EncodeText(text) == b
  {
    if ValidUtf8(b) {
      var text := ValidIsText(b);
    }
    if text :| AllScalars(text) && EncodeText(text) == b {
      TextIsValid(text);
    }
  }
}

/**
 * UTF-8 as Python's `str.encode()` and `bytes.decode("utf-8", "replace")`
 * perform it. Decoding replaces each maximal invalid subsequence with
 * U+FFFD: a lead byte that cannot start a sequence, or a valid prefix of a
 * multi-byte sequence that is cut short, costs one replacement character.
 */
module Utf8 {

  newtype byte = x: int | 0 <= x < 256

  const Replacement: char := '\U{FFFD}'

  /** Code points a `char` can hold: everything up to U+10FFFF except the surrogates. */
  predicate IsScalar(n: int)
  {
    0 <= n < 0xD800 || 0xE000 <= n < 0x11_0000
  }

  predicate IsContinuation(b: byte)
  {
    0x80 <= b < 0xC0
  }

  /** The bytes encoding one character, shortest form. */
  function EncodeChar(c: char): (bs: seq<byte>)
    ensures 1 <= |bs| <= 4
    ensures |bs| == 1 <==> c as int < 0x80
    ensures forall i :: 1 <= i < |bs| ==> IsContinuation(bs[i])
  {
    var n := c as int;
    if n < 0x80 then [n as byte]
    else if n < 0x800 then
      [(0xC0 + n / 64) as byte, (0x80 + n % 64) as byte]
    else if n < 0x1_0000 then
      [(0xE0 + n / 4096) as byte, (0x80 + n / 64 % 64) as byte, (0x80 + n % 64) as byte]
    else
      [(0xF0 + n / 262144) as byte, (0x80 + n / 4096 % 64) as byte,
       (0x80 + n / 64 % 64) as byte, (0x80 + n % 64) as byte]
  }

  /** `s.encode()`. */
  function Encode(s: string): (bs: seq<byte>)
    ensures |bs| >= |s|
  {
    if |s| == 0 then [] else EncodeChar(s[0]) + Encode(s[1..])
  }

  /** Lowest second byte allowed after lead byte `b0` (rules out overlong forms). */
  function SecondLow(b0: byte): byte
  {
    if b0 == 0xE0 then 0xA0 else if b0 == 0xF0 then 0x90 else 0x80
  }

  /** Highest second byte allowed after `b0` (rules out surrogates and code points past U+10FFFF). */
  function SecondHigh(b0: byte): byte
  {
    if b0 == 0xED then 0x9F else if b0 == 0xF4 then 0x8F else 0xBF
  }

  function Code2(b0: byte, b1: byte): (c: char)
    requires 0xC2 <= b0 < 0xE0 && IsContinuation(b1)
    ensures 0x80 <= c as int < 0x800
  {
    ((b0 as int - 0xC0) * 64 + (b1 as int - 0x80)) as char
  }

  function Code3(b0: byte, b1: byte, b2: byte): (c: char)
    requires 0xE0 <= b0 < 0xF0 && SecondLow(b0) <= b1 <= SecondHigh(b0) && IsContinuation(b2)
    ensures 0x800 <= c as int < 0x1_0000
  {
    ((b0 as int - 0xE0) * 4096 + (b1 as int - 0x80) * 64 + (b2 as int - 0x80)) as char
  }

  function Code4(b0: byte, b1: byte, b2: byte, b3: byte): (c: char)
    requires 0xF0 <= b0 <= 0xF4 && SecondLow(b0) <= b1 <= SecondHigh(b0)
    requires IsContinuation(b2) && IsContinuation(b3)
    ensures 0x1_0000 <= c as int
  {
    ((b0 as int - 0xF0) * 262144 + (b1 as int - 0x80) * 4096
      + (b2 as int - 0x80) * 64 + (b3 as int - 0x80)) as char
  }

  /** One decoded character and the number of bytes it used. */
  datatype Step = Step(c: char, len: nat)

  /** Decode the character at the front of `bs`, or the replacement character for a maximal invalid prefix. */
  function DecodeStep(bs: seq<byte>): (st: Step)
    requires |bs| > 0
    ensures 1 <= st.len <= |bs| && st.len <= 4
  {
    var b0 := bs[0];
    if b0 < 0x80 then Step(b0 as int as char, 1)
    else if 0xC2 <= b0 < 0xE0 then
      if |bs| >= 2 && IsContinuation(bs[1]) then Step(Code2(b0, bs[1]), 2)
      else Step(Replacement, 1)
    else if 0xE0 <= b0 < 0xF0 then
      if |bs| < 2 || !(SecondLow(b0) <= bs[1] <= SecondHigh(b0)) then Step(Replacement, 1)
      else if |bs| < 3 || !IsContinuation(bs[2]) then Step(Replacement, 2)
      else Step(Code3(b0, bs[1], bs[2]), 3)
    else if 0xF0 <= b0 <= 0xF4 then
      if |bs| < 2 || !(SecondLow(b0) <= bs[1] <= SecondHigh(b0)) then Step(Replacement, 1)
      else if |bs| < 3 || !IsContinuation(bs[2]) then Step(Replacement, 2)
      else if |bs| < 4 || !IsContinuation(bs[3]) then Step(Replacement, 3)
      else Step(Code4(b0, bs[1], bs[2], bs[3]), 4)
    else Step(Replacement, 1)
  }

  /** `bs.decode("utf-8", "replace")`. */
  function Decode(bs: seq<byte>): (s: string)
    ensures |s| <= |bs|
    decreases |bs|
  {
    if |bs| == 0 then "" else
      var st := DecodeStep(bs);
      [st.c] + Decode(bs[st.len..])
  }

  lemma DecodeStepOfEncodeChar2(c: char, rest: seq<byte>)
    requires 0x80 <= c as int < 0x800
    ensures DecodeStep(EncodeChar(c) + rest) == Step(c, 2)
  {
    var n := c as int;
    var b0, b1 := (0xC0 + n / 64) as byte, (0x80 + n % 64) as byte;
    assert EncodeChar(c) == [b0, b1];
    var bs := EncodeChar(c) + rest;
    assert bs[0] == b0 && bs[1] == b1;
    assert Code2(b0, b1) as int == n;
  }

  lemma DecodeStepOfEncodeChar3(c: char, rest: seq<byte>)
    requires 0x800 <= c as int < 0x1_0000
    ensures DecodeStep(EncodeChar(c) + rest) == Step(c, 3)
  {
    var n := c as int;
    var q := n / 64;
    assert q / 64 == n / 4096;
    var b0, b1, b2 := (0xE0 + n / 4096) as byte, (0x80 + q % 64) as byte, (0x80 + n % 64) as byte;
    assert EncodeChar(c) == [b0, b1, b2];
    var bs := EncodeChar(c) + rest;
    assert bs[0] == b0 && bs[1] == b1 && bs[2] == b2;
    assert SecondLow(b0) <= b1 <= SecondHigh(b0);
    assert Code3(b0, b1, b2) as int == n;
  }

  lemma DecodeStepOfEncodeChar4(c: char, rest: seq<byte>)
    requires 0x1_0000 <= c as int
    ensures DecodeStep(EncodeChar(c) + rest) == Step(c, 4)
  {
    var n := c as int;
    var q1 := n / 64;
    var q2 := q1 / 64;
    assert q2 == n / 4096;
    assert q2 / 64 == n / 262144;
    var b0, b1, b2, b3 := (0xF0 + n / 262144) as byte, (0x80 + q2 % 64) as byte,
      (0x80 + q1 % 64) as byte, (0x80 + n % 64) as byte;
    assert EncodeChar(c) == [b0, b1, b2, b3];
    var bs := EncodeChar(c) + rest;
    assert bs[0] == b0 && bs[1] == b1 && bs[2] == b2 && bs[3] == b3;
    assert SecondLow(b0) <= b1 <= SecondHigh(b0);
    assert Code4(b0, b1, b2, b3) as int == n;
  }

  /** The decoder reads back exactly the character the encoder wrote, whatever follows it. */
  lemma DecodeStepOfEncodeChar(c: char, rest: seq<byte>)
    ensures DecodeStep(EncodeChar(c) + rest) == Step(c, |EncodeChar(c)|)
  {
    var n := c as int;
    if n < 0x80 {
    } else if n < 0x800 {
      DecodeStepOfEncodeChar2(c, rest);
    } else if n < 0x1_0000 {
      DecodeStepOfEncodeChar3(c, rest);
    } else {
      DecodeStepOfEncodeChar4(c, rest);
    }
  }

  /** Decoding the encoding of one character followed by any bytes yields that character first. */
  lemma DecodeOfEncodeCharAppend(c: char, tail: seq<byte>)
    ensures Decode(EncodeChar(c) + tail) == [c] + Decode(tail)
  {
    var e := EncodeChar(c);
    var bs := e + tail;
    DecodeStepOfEncodeChar(c, tail);
    assert bs[|e|..] == tail;
  }

  /** Decoding the encoding of `s` followed by any bytes yields `s` followed by their decoding. */
  lemma {:induction false} DecodeEncodeAppend(s: string, rest: seq<byte>)
    ensures Decode(Encode(s) + rest) == s + Decode(rest)
    decreases |s|
  {
    if |s| > 0 {
      var tail := Encode(s[1..]) + rest;
      assert Encode(s) + rest == EncodeChar(s[0]) + tail;
      DecodeOfEncodeCharAppend(s[0], tail);
      DecodeEncodeAppend(s[1..], rest);
      assert s == [s[0]] + s[1..];
    } else {
      assert Encode(s) + rest == rest;
    }
  }

  /** Round trip: `s.encode().decode() == s`. */
  lemma DecodeEncode(s: string)
    ensures Decode(Encode(s)) == s
  {
    DecodeEncodeAppend(s, []);
    assert Encode(s) + [] == Encode(s);
  }

  /** Encoding distributes over concatenation. */
  lemma {:induction false} EncodeConcat(a: string, b: string)
    ensures Encode(a + b) == Encode(a) + Encode(b)
    decreases |a|
  {
    if |a| > 0 {
      assert (a + b)[1..] == a[1..] + b;
      assert (a + b)[0] == a[0];
      EncodeConcat(a[1..], b);
    } else {
      assert a + b == b;
    }
  }
}

/**
  UTF-8, the byte encoding of every text the devices exchange: `String.toByteArray()`
  and `characteristic.setValue(String)` on the sending side, `String(bytes)` and
  `String(bytes, Charsets.UTF_8)` on the receiving side.
*/
module Utf8 {
  import opened Text

  type Byte = b: int | 0 <= b < 256

  /** What the decoder produces for a byte that does not start a well-formed sequence. */
  const REPLACEMENT: char := '\U{FFFD}'

  predicate IsContinuation(b: Byte) {
    0x80 <= b <= 0xBF
  }

  /** The allowed range of the second byte after a three-byte lead (no overlongs, no surrogates). */
  predicate SecondOfThree(b0: Byte, b1: Byte) {
    (if b0 == 0xE0 then 0xA0 else 0x80) <= b1 <= (if b0 == 0xED then 0x9F else 0xBF)
  }

  /** The allowed range of the second byte after a four-byte lead (no overlongs, nothing past U+10FFFF). */
  predicate SecondOfFour(b0: Byte, b1: Byte) {
    (if b0 == 0xF0 then 0x90 else 0x80) <= b1 <= (if b0 == 0xF4 then 0x8F else 0xBF)
  }

  /** The first character of `b` and the number of bytes it takes. */
  function DecodeFirst(b: seq<Byte>): (r: (char, nat))
    requires |b| > 0
    ensures 1 <= r.1 <= |b| && r.1 <= 4
  {
    var b0: int := b[0];
    if b0 < 0x80 then (b0 as char, 1)
    else if 0xC2 <= b0 <= 0xDF && |b| >= 2 && IsContinuation(b[1]) then
      var b1: int := b[1];
      (((b0 - 0xC0) * 64 + (b1 - 0x80)) as char, 2)
    else if 0xE0 <= b0 <= 0xEF && |b| >= 3 && SecondOfThree(b0, b[1]) && IsContinuation(b[2]) then
      var b1: int, b2: int := b[1], b[2];
      (((b0 - 0xE0) * 4096 + (b1 - 0x80) * 64 + (b2 - 0x80)) as char, 3)
    else if 0xF0 <= b0 <= 0xF4 && |b| >= 4 && SecondOfFour(b0, b[1])
            && IsContinuation(b[2]) && IsContinuation(b[3]) then
      var b1: int, b2: int, b3: int := b[1], b[2], b[3];
      (((b0 - 0xF0) * 262144 + (b1 - 0x80) * 4096 + (b2 - 0x80) * 64 + (b3 - 0x80)) as char, 4)
    else (REPLACEMENT, 1)
  }

  /** `String(bytes, Charsets.UTF_8)`. */
  function Decode(b: seq<Byte>): string
    decreases |b|
  {
    if |b| == 0 then []
    else
      var (c, n) := DecodeFirst(b);
      [c] + Decode(b[n..])
  }

  /** The UTF-8 bytes of one character. */
  function EncodeChar(c: char): (r: seq<Byte>)
    ensures 1 <= |r| <= 4
  {
    var v := c as int;
    if v < 0x80 then [v]
    else if v < 0x800 then [0xC0 + v / 64, 0x80 + v % 64]
    else if v < 0x10000 then [0xE0 + v / 4096, 0x80 + (v / 64) % 64, 0x80 + v % 64]
    else [0xF0 + v / 262144, 0x80 + (v / 4096) % 64, 0x80 + (v / 64) % 64, 0x80 + v % 64]
  }

  /** `s.toByteArray()`. */
  function Encode(s: string): seq<Byte> {
    if |s| == 0 then [] else EncodeChar(s[0]) + Encode(s[1..])
  }

  lemma {:induction false} EncodeAppend(a: string, b: string)
    decreases |a|
    ensures Encode(a + b) == Encode(a) + Encode(b)
  {
    if |a| == 0 {
      assert a + b == b;
    } else {
      assert (a + b)[1..] == a[1..] + b;
      EncodeAppend(a[1..], b);
    }
  }

  /** A well-formed four-byte sequence decodes to the value its payload bits spell. */
  lemma DecodeFirstFour(b: seq<Byte>, h: int, u: int, t: int, r: int)
    requires |b| >= 4 && b[0] == 0xF0 + h && b[1] == 0x80 + u && b[2] == 0x80 + t && b[3] == 0x80 + r
    requires 0 <= h <= 4 && 0 <= u < 64 && 0 <= t < 64 && 0 <= r < 64
    requires SecondOfFour(b[0], b[1]) && h * 262144 + u * 4096 + t * 64 + r < 0x110000
    ensures DecodeFirst(b) == ((h * 262144 + u * 4096 + t * 64 + r) as char, 4)
  {
  }

  /** A well-formed three-byte sequence decodes to the value its payload bits spell. */
  lemma DecodeFirstThree(b: seq<Byte>, p: int, t: int, r: int)
    requires |b| >= 3 && b[0] == 0xE0 + p && b[1] == 0x80 + t && b[2] == 0x80 + r
    requires 0 <= p < 16 && 0 <= t < 64 && 0 <= r < 64 && SecondOfThree(b[0], b[1])
    ensures DecodeFirst(b) == ((p * 4096 + t * 64 + r) as char, 3)
  {
  }

  lemma DecodeTwoBytes(v: int, rest: seq<Byte>)
    requires 0x80 <= v < 0x800
    ensures DecodeFirst([0xC0 + v / 64, 0x80 + v % 64] + rest) == (v as char, 2)
  {
    var q, r := v / 64, v % 64;
    assert v == q * 64 + r;
  }

  lemma DecodeThreeBytes(v: int, rest: seq<Byte>)
    requires 0x800 <= v < 0x10000 && !(0xD800 <= v < 0xE000)
    ensures DecodeFirst([0xE0 + v / 4096, 0x80 + (v / 64) % 64, 0x80 + v % 64] + rest) == (v as char, 3)
  {
    var q, r := v / 64, v % 64;
    var p, t := q / 64, q % 64;
    assert v == q * 64 + r;
    assert q == p * 64 + t;
    assert v / 4096 == p;
    var b := [0xE0 + p, 0x80 + t, 0x80 + r] + rest;
    assert SecondOfThree(b[0], b[1]);
    DecodeFirstThree(b, p, t, r);
  }

  lemma DecodeFourBytes(v: int, rest: seq<Byte>)
    requires 0x10000 <= v < 0x110000
    ensures DecodeFirst([0xF0 + v / 262144, 0x80 + (v / 4096) % 64, 0x80 + (v / 64) % 64, 0x80 + v % 64] + rest)
            == (v as char, 4)
  {
    var q, r := v / 64, v % 64;
    var p, t := q / 64, q % 64;
    var h, u := p / 64, p % 64;
    assert v == q * 64 + r;
    assert q == p * 64 + t;
    assert p == h * 64 + u;
    assert v / 4096 == p;
    assert v / 262144 == h;
    var b := [0xF0 + h, 0x80 + u, 0x80 + t, 0x80 + r] + rest;
    assert SecondOfFour(b[0], b[1]);
    DecodeFirstFour(b, h, u, t, r);
  }

  lemma DecodeFirstOfEncoded(c: char, rest: seq<Byte>)
    ensures DecodeFirst(EncodeChar(c) + rest) == (c, |EncodeChar(c)|)
  {
    var v := c as int;
    var e := EncodeChar(c);
    if v < 0x80 {
      assert e + rest == [v] + rest;
    } else if v < 0x800 {
      assert e == [0xC0 + v / 64, 0x80 + v % 64];
      DecodeTwoBytes(v, rest);
    } else if v < 0x10000 {
      assert e == [0xE0 + v / 4096, 0x80 + (v / 64) % 64, 0x80 + v % 64];
      DecodeThreeBytes(v, rest);
    } else {
      assert e == [0xF0 + v / 262144, 0x80 + (v / 4096) % 64, 0x80 + (v / 64) % 64, 0x80 + v % 64];
      DecodeFourBytes(v, rest);
    }
  }

  /** Decoding what was encoded gives back the text, whatever bytes follow. */
  lemma {:induction false} DecodeEncodeAppend(s: string, rest: seq<Byte>)
    decreases |s|
    ensures Decode(Encode(s) + rest) == s + Decode(rest)
  {
    if |s| > 0 {
      var e := EncodeChar(s[0]);
      var tail := Encode(s[1..]) + rest;
      assert Encode(s) + rest == e + tail;
      DecodeEncodeAppend(s[1..], rest);
      assert Decode(e + tail) == [s[0]] + Decode(tail) by {
        DecodeFirstOfEncoded(s[0], tail);
        assert (e + tail)[|e|..] == tail;
      }
      assert s == [s[0]] + s[1..];
    } else {
      assert Encode(s) + rest == rest;
    }
  }

  /** The round trip: the receiver reads exactly the text the sender wrote. */
  lemma DecodeEncode(s: string)
    ensures Decode(Encode(s)) == s
  {
    DecodeEncodeAppend(s, []);
    assert Encode(s) + [] == Encode(s);
  }

  predicate IsAscii(s: string) {
    forall i :: 0 <= i < |s| ==> s[i] as int < 0x80
  }

  /** A decoded character below 0x80 can only come from that one byte. */
  lemma AsciiCharFromOneByte(b: seq<Byte>)
    requires |b| > 0 && DecodeFirst(b).0 as int < 0x80
    ensures b[0] == DecodeFirst(b).0 as int && DecodeFirst(b).1 == 1
  {
  }

  /** Bytes that start with the encoding of an ASCII prefix decode to text with that prefix. */
  lemma AsciiPrefixEncoded(b: seq<Byte>, p: string)
    requires |p| <= |b| && b[..|p|] == Encode(p)
    ensures StartsWith(Decode(b), p)
  {
    assert b == Encode(p) + b[|p|..];
    DecodeEncodeAppend(p, b[|p|..]);
  }

  /** Text that decodes with an ASCII prefix came from bytes that start with that prefix. */
  lemma {:induction false} AsciiPrefixDecoded(b: seq<Byte>, p: string)
    requires IsAscii(p) && StartsWith(Decode(b), p)
    decreases |p|
    ensures |p| <= |b| && b[..|p|] == Encode(p)
  {
    if |p| > 0 {
      var c := DecodeFirst(b).0;
      assert Decode(b)[0] == c;
      assert c == p[0];
      AsciiCharFromOneByte(b);
      assert Decode(b) == [c] + Decode(b[1..]);
      assert Decode(b[1..]) == Decode(b)[1..];
      assert p[1..] == p[..|p|][1..];
      assert IsAscii(p[1..]);
      AsciiPrefixDecoded(b[1..], p[1..]);
      assert b[..|p|] == [b[0]] + b[1..][..|p| - 1];
    }
  }

  /**
    For an ASCII prefix `p` (such as `HEAD|||` or `SIG_`), the decoded text
    starts with `p` exactly when the bytes start with the bytes of `p`.
  */
  lemma AsciiPrefix(b: seq<Byte>, p: string)
    requires IsAscii(p)
    ensures StartsWith(Decode(b), p) <==> (|p| <= |b| && b[..|p|] == Encode(p))
  {
    if StartsWith(Decode(b), p) {
      AsciiPrefixDecoded(b, p);
    }
    if |p| <= |b| && b[..|p|] == Encode(p) {
      AsciiPrefixEncoded(b, p);
    }
  }
}

/**
 * The text codec behind `Encoding.BigEndianUnicode.GetString`: bytes are read
 * in big-endian pairs as UTF-16 code units, a valid surrogate pair becomes one
 * character, and the default replacement fallback turns every unpaired
 * surrogate and an odd trailing byte into U+FFFD. `Encode` is its inverse on
 * well-formed text and is what a server writes on the wire.
 */
module Utf16 {

  type byte = b: int | 0 <= b < 256

  /** What the decoder emits for a byte sequence it cannot decode. */
  const Replacement: char := '\U{FFFD}'

  predicate IsHighSurrogate(u: int) { 0xD800 <= u < 0xDC00 }

  predicate IsLowSurrogate(u: int) { 0xDC00 <= u < 0xE000 }

  predicate IsCodeUnit(u: int) { 0 <= u < 0x1_0000 }

  /** The code unit a big-endian byte pair stands for. */
  function Unit(high: byte, low: byte): int
  {
    high as int * 256 + low as int
  }

  /** The code units read big-endian from consecutive byte pairs; an odd trailing byte is in none of them. */
  function CodeUnits(b: seq<byte>): (u: seq<int>)
    ensures |u| == |b| / 2
    ensures forall k :: 0 <= k < |u| ==> IsCodeUnit(u[k]) && u[k] == Unit(b[2 * k], b[2 * k + 1])
  {
    if |b| < 2 then [] else [Unit(b[0], b[1])] + CodeUnits(b[2..])
  }

  /** The supplementary character a high and a low surrogate stand for. */
  function Combine(high: int, low: int): char
    requires IsHighSurrogate(high) && IsLowSurrogate(low)
  {
    (0x1_0000 + (high - 0xD800) * 0x400 + (low - 0xDC00)) as char
  }

  function DecodeUnits(u: seq<int>): (s: string)
    requires forall k :: 0 <= k < |u| ==> IsCodeUnit(u[k])
    ensures |s| <= |u|
  {
    if u == [] then []
    else if IsHighSurrogate(u[0]) && |u| >= 2 && IsLowSurrogate(u[1]) then
      [Combine(u[0], u[1])] + DecodeUnits(u[2..])
    else if IsHighSurrogate(u[0]) || IsLowSurrogate(u[0]) then
      [Replacement] + DecodeUnits(u[1..])
    else
      assert IsCodeUnit(u[0]);
      [u[0] as char] + DecodeUnits(u[1..])
  }

  /** `Encoding.BigEndianUnicode.GetString(b)`. */
  function Decode(b: seq<byte>): (s: string)
    ensures |s| <= |b| / 2 + |b| % 2
  {
    DecodeUnits(CodeUnits(b)) + if |b| % 2 == 1 then [Replacement] else []
  }

  /** The one or two code units that stand for a character. */
  function CharUnits(c: char): (u: seq<int>)
  {
    var n := c as int;
    if n < 0x1_0000 then [n]
    else [0xD800 + (n - 0x1_0000) / 0x400, 0xDC00 + (n - 0x1_0000) % 0x400]
  }

  function UnitBytes(u: seq<int>): (b: seq<byte>)
    requires forall k :: 0 <= k < |u| ==> IsCodeUnit(u[k])
    ensures |b| == 2 * |u|
  {
    if u == [] then [] else assert IsCodeUnit(u[0]); [(u[0] / 256) as byte, (u[0] % 256) as byte] + UnitBytes(u[1..])
  }

  function Encode(s: string): (b: seq<byte>)
    ensures |b| % 2 == 0
  {
    if s == [] then [] else UnitBytes(CharUnits(s[0])) + Encode(s[1..])
  }

  lemma {:induction false} CodeUnitsAppend(a: seq<byte>, b: seq<byte>)
    requires |a| % 2 == 0
    ensures CodeUnits(a + b) == CodeUnits(a) + CodeUnits(b)
  {
    if |a| >= 2 {
      assert (a + b)[2..] == a[2..] + b;
      CodeUnitsAppend(a[2..], b);
    } else {
      assert a + b == b;
    }
  }

  lemma {:induction false} CodeUnitsOfUnitBytes(u: seq<int>)
    requires forall k :: 0 <= k < |u| ==> IsCodeUnit(u[k])
    ensures CodeUnits(UnitBytes(u)) == u
  {
    if u != [] {
      var b := UnitBytes(u);
      assert b[2..] == UnitBytes(u[1..]);
      CodeUnitsOfUnitBytes(u[1..]);
      assert Unit(b[0], b[1]) == u[0];
    }
  }

  lemma DecodeCharUnits(c: char, u: seq<int>)
    requires forall k :: 0 <= k < |u| ==> IsCodeUnit(u[k])
    ensures forall k :: 0 <= k < |CharUnits(c) + u| ==> IsCodeUnit((CharUnits(c) + u)[k])
    ensures DecodeUnits(CharUnits(c) + u) == [c] + DecodeUnits(u)
  {
    var w := CharUnits(c) + u;
    if (c as int) < 0x1_0000 {
      assert w[1..] == u;
    } else {
      assert w[2..] == u;
      assert Combine(w[0], w[1]) == c;
    }
  }

  /** The units of every character of `s`, in order. */
  function Units(s: string): (u: seq<int>)
    ensures forall k :: 0 <= k < |u| ==> IsCodeUnit(u[k])
  {
    if s == [] then [] else CharUnits(s[0]) + Units(s[1..])
  }

  lemma {:induction false} EncodeIsUnitBytes(s: string)
    ensures Encode(s) == UnitBytes(Units(s))
  {
    if s != [] {
      EncodeIsUnitBytes(s[1..]);
      UnitBytesAppend(CharUnits(s[0]), Units(s[1..]));
    }
  }

  lemma {:induction false} UnitBytesAppend(u: seq<int>, v: seq<int>)
    requires forall k :: 0 <= k < |u| ==> IsCodeUnit(u[k])
    requires forall k :: 0 <= k < |v| ==> IsCodeUnit(v[k])
    ensures UnitBytes(u + v) == UnitBytes(u) + UnitBytes(v)
  {
    if u != [] {
      assert (u + v)[1..] == u[1..] + v;
      UnitBytesAppend(u[1..], v);
    } else {
      assert u + v == v;
    }
  }

  lemma {:induction false} DecodeUnitsOfUnits(s: string)
    ensures DecodeUnits(Units(s)) == s
  {
    if s != [] {
      DecodeCharUnits(s[0], Units(s[1..]));
      DecodeUnitsOfUnits(s[1..]);
    }
  }

  /** Decoding what `Encode` writes gives the text back: the codec round-trips. */
  lemma DecodeEncode(s: string)
    ensures Decode(Encode(s)) == s
  {
    EncodeIsUnitBytes(s);
    CodeUnitsOfUnitBytes(Units(s));
    DecodeUnitsOfUnits(s);
  }
}

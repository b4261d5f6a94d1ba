/**
 * UTF-8, as `QString::toUtf8` produces it when a document is saved.
 * A Dafny `char` is a Unicode scalar value, so every string has an encoding
 * and the strict decoder below gives the string back.
 */
module Utf8 {
  import opened Wrappers

  newtype byte = x: int | 0 <= x < 256

  predicate IsContinuation(b: byte) {
    0x80 <= b < 0xC0
  }

  /** The one to four bytes that encode `c`. */
  function EncodeChar(c: char): (r: seq<byte>)
    ensures 1 <= |r| <= 4
    ensures |r| == 1 <==> (c as int) < 0x80
    ensures forall k :: 1 <= k < |r| ==> IsContinuation(r[k])
  {
    var n := c as int;
    if n < 0x80 then
      [n as byte]
    else if n < 0x800 then
      [(0xC0 + n / 64) as byte, (0x80 + n % 64) as byte]
    else if n < 0x10000 then
      [(0xE0 + n / 4096) as byte, (0x80 + (n / 64) % 64) as byte, (0x80 + n % 64) as byte]
    else
      [(0xF0 + n / 262144) as byte, (0x80 + (n / 4096) % 64) as byte,
       (0x80 + (n / 64) % 64) as byte, (0x80 + n % 64) as byte]
  }

  /** The encoding of a whole string: its characters' encodings, in order. */
  function Encode(s: string): (r: seq<byte>)
    ensures |s| <= |r| <= 4 * |s|
  {
    if s == [] then [] else EncodeChar(s[0]) + Encode(s[1..])
  }

  /** One decoded character and the number of bytes it took. */
  datatype Decoded = Decoded(c: char, length: nat)

  /**
   * Decodes the character at the front of `bs`, refusing overlong forms,
   * surrogates, values above U+10FFFF and truncated sequences.
   */
  function DecodeChar(bs: seq<byte>): (r: Option<Decoded>)
    requires |bs| > 0
    ensures r.Some? ==> 1 <= r.value.length <= |bs|
  {
    var b0 := bs[0] as int;
    if b0 < 0x80 then
      Some(Decoded(b0 as char, 1))
    else if 0xC2 <= b0 < 0xE0 then
      if |bs| >= 2 && IsContinuation(bs[1]) then
        Some(Decoded(((b0 - 0xC0) * 64 + (bs[1] as int - 0x80)) as char, 2))
      else None
    else if 0xE0 <= b0 < 0xF0 then
      if |bs| >= 3 && IsContinuation(bs[1]) && IsContinuation(bs[2]) then
        var n := (b0 - 0xE0) * 4096 + (bs[1] as int - 0x80) * 64 + (bs[2] as int - 0x80);
        if 0x800 <= n && !(0xD800 <= n < 0xE000) then Some(Decoded(n as char, 3)) else None
      else None
    else if 0xF0 <= b0 < 0xF5 then
      if |bs| >= 4 && IsContinuation(bs[1]) && IsContinuation(bs[2]) && IsContinuation(bs[3]) then
        var n := (b0 - 0xF0) * 262144 + (bs[1] as int - 0x80) * 4096
                 + (bs[2] as int - 0x80) * 64 + (bs[3] as int - 0x80);
        if 0x10000 <= n < 0x110000 then Some(Decoded(n as char, 4)) else None
      else None
    else
      None
  }

  /** Reads a byte sequence back as text; `None` if it is not well-formed UTF-8. */
  function Decode(bs: seq<byte>): (r: Option<string>)
    decreases |bs|
  {
    if bs == [] then Some([])
    else match DecodeChar(bs)
      case None => None
      case Some(d) =>
        match Decode(bs[d.length..])
        case None => None
        case Some(rest) => Some([d.c] + rest)
  }

  /** Decoding the front of an encoded character gives that character back. */
  lemma DecodeEncodeChar(c: char, rest: seq<byte>)
    ensures DecodeChar(EncodeChar(c) + rest) == Some(Decoded(c, |EncodeChar(c)|))
  {
    var n := c as int;
    if n < 0x80 {
    } else if n < 0x800 {
      DecodeTwo(c, rest);
    } else if n < 0x10000 {
      DecodeThree(c, rest);
    } else {
      DecodeFour(c, rest);
    }
  }

  lemma DecodeTwo(c: char, rest: seq<byte>)
    requires 0x80 <= c as int < 0x800
    ensures DecodeChar(EncodeChar(c) + rest) == Some(Decoded(c, 2))
  {
    var n := c as int;
    var hi, lo := n / 64, n % 64;
    assert n == hi * 64 + lo;
    var bs := EncodeChar(c) + rest;
    assert bs[0] as int == 0xC0 + hi && bs[1] as int == 0x80 + lo;
    assert ((bs[0] as int - 0xC0) * 64 + (bs[1] as int - 0x80)) == n;
  }

  lemma DecodeThree(c: char, rest: seq<byte>)
    requires 0x800 <= c as int < 0x10000
    ensures DecodeChar(EncodeChar(c) + rest) == Some(Decoded(c, 3))
  {
    var n := c as int;
    var q, lo := n / 64, n % 64;
    var hi, mid := q / 64, q % 64;
    assert n == q * 64 + lo && q == hi * 64 + mid;
    assert n / 4096 == hi;
    var bs := EncodeChar(c) + rest;
    assert bs[0] as int == 0xE0 + hi && bs[1] as int == 0x80 + mid && bs[2] as int == 0x80 + lo;
    assert hi * 4096 + mid * 64 + lo == n;
  }

  lemma DecodeFour(c: char, rest: seq<byte>)
    requires 0x10000 <= c as int
    ensures DecodeChar(EncodeChar(c) + rest) == Some(Decoded(c, 4))
  {
    var n := c as int;
    var q, lo := n / 64, n % 64;
    var p, mid := q / 64, q % 64;
    var hi, top := p / 64, p % 64;
    assert n == q * 64 + lo && q == p * 64 + mid && p == hi * 64 + top;
    assert n / 4096 == p && n / 262144 == hi;
    var bs := EncodeChar(c) + rest;
    assert bs[0] as int == 0xF0 + hi && bs[1] as int == 0x80 + top;
    assert bs[2] as int == 0x80 + mid && bs[3] as int == 0x80 + lo;
    assert hi * 262144 + top * 4096 + mid * 64 + lo == n;
  }

  /** Whatever text is encoded, decoding the bytes gives exactly that text. */
  lemma {:induction false} DecodeEncode(s: string)
    ensures Decode(Encode(s)) == Some(s)
  {
    if s != [] {
      var head := EncodeChar(s[0]);
      var tail := Encode(s[1..]);
      DecodeEncodeChar(s[0], tail);
      assert (head + tail)[|head|..] == tail;
      DecodeEncode(s[1..]);
      assert [s[0]] + s[1..] == s;
    }
  }

  /** Encoding is injective: two texts with the same bytes are the same text. */
  lemma EncodeInjective(s: string, t: string)
    requires Encode(s) == Encode(t)
    ensures s == t
  {
    DecodeEncode(s);
    DecodeEncode(t);
  }
}

/** UTF-8, as used by Python's `str.encode()` with its default codec.
    A Dafny `char` is a Unicode scalar value, so every string is encodable. */
module Utf8 {
  import opened Bytes
  import opened Wrappers

  /** The one to four octets of one scalar value. */
  function EncodeChar(c: char): (r: seq<byte>)
    ensures 1 <= |r| <= 4
    ensures |r| == 1 <==> c as int < 0x80
  {
    var cp := c as int;
    if cp < 0x80 then [cp]
    else if cp < 0x800 then [0xC0 + cp / 64, 0x80 + cp % 64]
    else if cp < 0x1_0000 then [0xE0 + cp / 4096, 0x80 + (cp / 64) % 64, 0x80 + cp % 64]
    else [0xF0 + cp / 0x4_0000, 0x80 + (cp / 4096) % 64, 0x80 + (cp / 64) % 64, 0x80 + cp % 64]
  }

  function Encode(s: string): (r: seq<byte>)
    ensures |s| <= |r| <= 4 * |s|
  {
    if |s| == 0 then [] else EncodeChar(s[0]) + Encode(s[1..])
  }

  predicate IsContinuation(b: byte) {
    0x80 <= b < 0xC0
  }

  predicate IsScalar(cp: int) {
    0 <= cp < 0xD800 || 0xE000 <= cp < 0x11_0000
  }

  /** Strict decoding of the first scalar value at the front of `b`, with the
      number of octets it took: overlong forms, surrogates and values past
      U+10FFFF are rejected. */
  function DecodeFirst(b: seq<byte>): (r: Option<(char, nat)>)
    ensures r.Some? ==> 1 <= r.value.1 <= |b| && r.value.1 <= 4
  {
    if |b| == 0 then None
    else if b[0] < 0x80 then Some((b[0] as char, 1))
    else if 0xC2 <= b[0] < 0xE0 then
      if |b| >= 2 && IsContinuation(b[1]) then
        Some((((b[0] as int - 0xC0) * 64 + (b[1] as int - 0x80)) as char, 2))
      else None
    else if 0xE0 <= b[0] < 0xF0 then
      if |b| >= 3 && IsContinuation(b[1]) && IsContinuation(b[2]) then
        var cp := (b[0] as int - 0xE0) * 4096 + (b[1] as int - 0x80) * 64 + (b[2] as int - 0x80);
        if 0x800 <= cp && IsScalar(cp) then Some((cp as char, 3)) else None
      else None
    else if 0xF0 <= b[0] < 0xF5 then
      if |b| >= 4 && IsContinuation(b[1]) && IsContinuation(b[2]) && IsContinuation(b[3]) then
        var cp := (b[0] as int - 0xF0) * 0x4_0000 + (b[1] as int - 0x80) * 4096 + (b[2] as int - 0x80) * 64 + (b[3] as int - 0x80);
        if 0x1_0000 <= cp && IsScalar(cp) then Some((cp as char, 4)) else None
      else None
    else None
  }

  /** Strict decoding of a whole octet string. */
  function Decode(b: seq<byte>): (r: Option<string>)
    ensures r.Some? ==> |r.value| <= |b|
    decreases |b|
  {
    if |b| == 0 then Some("")
    else
      var first :- DecodeFirst(b);
      var rest :- Decode(b[first.1..]);
      Some([first.0] + rest)
  }

  lemma EncodeCharDecodes(c: char, rest: seq<byte>)
    ensures DecodeFirst(EncodeChar(c) + rest) == Some((c, |EncodeChar(c)|))
  {
    var cp := c as int;
    var b := EncodeChar(c) + rest;
    if cp < 0x80 {
    } else if cp < 0x800 {
      assert (b[0] as int - 0xC0) * 64 + (b[1] as int - 0x80) == cp;
    } else if cp < 0x1_0000 {
      var q := cp / 64;
      assert cp == q * 64 + cp % 64;
      assert q == (q / 64) * 64 + q % 64;
      assert q / 64 == cp / 4096;
      assert (b[0] as int - 0xE0) * 4096 + (b[1] as int - 0x80) * 64 + (b[2] as int - 0x80) == cp;
    } else {
      var q := cp / 64;
      var q2 := q / 64;
      assert cp == q * 64 + cp % 64;
      assert q == q2 * 64 + q % 64;
      assert q2 == (q2 / 64) * 64 + q2 % 64;
      assert q2 == cp / 4096;
      assert q2 / 64 == cp / 0x4_0000;
      assert (b[0] as int - 0xF0) * 0x4_0000 + (b[1] as int - 0x80) * 4096 + (b[2] as int - 0x80) * 64 + (b[3] as int - 0x80) == cp;
    }
  }

  /** Decoding undoes encoding, so `str.encode()` never maps two different
      passwords to the same octets. */
  lemma {:induction false} DecodeEncode(s: string)
    ensures Decode(Encode(s)) == Some(s)
  {
    if |s| > 0 {
      var e := EncodeChar(s[0]);
      EncodeCharDecodes(s[0], Encode(s[1..]));
      assert (e + Encode(s[1..]))[|e|..] == Encode(s[1..]);
      DecodeEncode(s[1..]);
      assert [s[0]] + s[1..] == s;
    }
  }

  lemma EncodeInjective(a: string, b: string)
    requires Encode(a) == Encode(b)
    ensures a == b
  {
    DecodeEncode(a);
    DecodeEncode(b);
  }
}

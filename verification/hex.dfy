/** Lower-case hexadecimal text for octet strings: Python's `bytes.hex()`
    (also behind `secrets.token_hex`, `hexdigest()` and `str(ObjectId)`)
    and its parser `bytes.fromhex`. */
module Hex {
  import opened Bytes
  import opened Wrappers

  predicate IsLowerHexChar(c: char) {
    '0' <= c <= '9' || 'a' <= c <= 'f'
  }

  predicate IsLowerHex(s: string) {
    forall i :: 0 <= i < |s| ==> IsLowerHexChar(s[i])
  }

  /** The ASCII whitespace that `bytes.fromhex` skips: space, and tab through
      carriage return (U+0009 to U+000D). */
  predicate IsAsciiSpace(c: char) {
    c == ' ' || '\t' <= c <= '\r'
  }

  /** The lower-case digit for a nibble. */
  function DigitChar(d: int): (c: char)
    requires 0 <= d < 16
    ensures IsLowerHexChar(c)
  {
    if d < 10 then ('0' as int + d) as char else ('a' as int + d - 10) as char
  }

  /** The value of a hexadecimal digit of either case; None for any other char. */
  function DigitValue(c: char): (r: Option<int>)
    ensures r.Some? ==> 0 <= r.value < 16
    ensures r.Some? <==> ('0' <= c <= '9' || 'a' <= c <= 'f' || 'A' <= c <= 'F')
  {
    if '0' <= c <= '9' then Some(c as int - '0' as int)
    else if 'a' <= c <= 'f' then Some(c as int - 'a' as int + 10)
    else if 'A' <= c <= 'F' then Some(c as int - 'A' as int + 10)
    else None
  }

  lemma DigitRoundTrip(d: int)
    requires 0 <= d < 16
    ensures DigitValue(DigitChar(d)) == Some(d)
  {
  }

  lemma CharRoundTrip(c: char)
    requires IsLowerHexChar(c)
    ensures DigitValue(c).Some? && DigitChar(DigitValue(c).value) == c
  {
  }

  /** `bytes.hex()`: two lower-case digits per octet, high nibble first. */
  function Encode(bs: seq<byte>): (s: string)
    ensures |s| == 2 * |bs|
    ensures IsLowerHex(s)
  {
    if |bs| == 0 then ""
    else [DigitChar(bs[0] / 16), DigitChar(bs[0] % 16)] + Encode(bs[1..])
  }

  /** How many chars of `s` are hexadecimal digits of either case. */
  function DigitCount(s: string): (n: nat)
    ensures n <= |s|
  {
    if |s| == 0 then 0 else (if DigitValue(s[0]).Some? then 1 else 0) + DigitCount(s[1..])
  }

  /** `bytes.fromhex(s)`: ASCII whitespace before a digit pair is skipped; a
      pair of digits of either case makes one octet; anything else, including
      a lone trailing digit, raises ValueError (None here). So accepted text
      holds nothing but whitespace and digits, two digits per octet. */
  function Decode(s: string): (r: Option<seq<byte>>)
    ensures r.Some? ==> forall i :: 0 <= i < |s| ==> IsAsciiSpace(s[i]) || DigitValue(s[i]).Some?
    ensures r.Some? ==> DigitCount(s) == 2 * |r.value|
    decreases |s|
  {
    if |s| == 0 then Some([])
    else if IsAsciiSpace(s[0]) then
      var r := Decode(s[1..]);
      assert r.Some? ==> forall i :: 1 <= i < |s| ==> s[i] == s[1..][i - 1];
      r
    else if |s| >= 2 && DigitValue(s[0]).Some? && DigitValue(s[1]).Some? then
      var rest :- Decode(s[2..]);
      assert forall i :: 2 <= i < |s| ==> s[i] == s[2..][i - 2];
      assert DigitCount(s) == 2 + DigitCount(s[2..]) by {
        assert s[1..][0] == s[1] && s[1..][1..] == s[2..];
      }
      Some([DigitValue(s[0]).value * 16 + DigitValue(s[1]).value] + rest)
    else None
  }

  /** `fromhex` refuses text holding a char that is neither ASCII whitespace
      nor a hexadecimal digit. */
  lemma DecodeRejectsStray(s: string, k: int)
    requires 0 <= k < |s| && !IsAsciiSpace(s[k]) && DigitValue(s[k]).None?
    ensures Decode(s).None?
  {
  }

  /** `fromhex` refuses text with an odd number of hexadecimal digits. */
  lemma DecodeRejectsOddDigits(s: string)
    requires DigitCount(s) % 2 == 1
    ensures Decode(s).None?
  {
  }

  /** Parsing what `hex()` printed gives back the octets. */
  lemma {:induction false} DecodeEncode(bs: seq<byte>)
    ensures Decode(Encode(bs)) == Some(bs)
  {
    if |bs| > 0 {
      var s := Encode(bs);
      DigitRoundTrip(bs[0] / 16);
      DigitRoundTrip(bs[0] % 16);
      assert s[2..] == Encode(bs[1..]);
      assert !IsAsciiSpace(s[0]);
      assert DigitValue(s[0]).value * 16 + DigitValue(s[1]).value == bs[0];
      DecodeEncode(bs[1..]);
      assert Decode(s) == Some([bs[0]] + bs[1..]);
      assert [bs[0]] + bs[1..] == bs;
    }
  }

  /** Printing what `fromhex` parsed gives back the text, when the text is
      lower-case hexadecimal of even length. */
  lemma {:induction false} EncodeDecode(s: string)
    requires IsLowerHex(s) && |s| % 2 == 0
    ensures Decode(s).Some? && Encode(Decode(s).value) == s
  {
    if |s| > 0 {
      CharRoundTrip(s[0]);
      CharRoundTrip(s[1]);
      assert IsLowerHex(s[2..]);
      EncodeDecode(s[2..]);
      var v := DigitValue(s[0]).value * 16 + DigitValue(s[1]).value;
      assert v / 16 == DigitValue(s[0]).value && v % 16 == DigitValue(s[1]).value;
      assert Encode(Decode(s).value) == [DigitChar(v / 16), DigitChar(v % 16)] + Encode(Decode(s[2..]).value);
    }
  }

  /** `hex()` loses nothing: distinct octet strings print differently. */
  lemma EncodeInjective(a: seq<byte>, b: seq<byte>)
    requires Encode(a) == Encode(b)
    ensures a == b
  {
    DecodeEncode(a);
    DecodeEncode(b);
  }
}

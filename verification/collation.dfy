/** MongoDB sorts strings by simple binary comparison of their UTF-8
    octets. This module shows that order is the code-point order `StrLe`
    the listing is specified with. */
module Collation {
  import opened Bytes
  import opened Lex
  import Utf8

  /** `ex` and `ey` agree before `k` and `ex` is smaller at `k`: the octet
      counterpart of `Lex.DiffersBelowAt`. */
  predicate FirstBelow(ex: seq<byte>, ey: seq<byte>, k: nat) {
    k < |ex| && k < |ey| && ex[..k] == ey[..k] && ex[k] < ey[k]
  }

  /** The first difference decides the binary order. */
  lemma {:induction false} BytesDiffer(x: seq<byte>, y: seq<byte>, k: nat)
    requires FirstBelow(x, y, k)
    ensures BytesLe(x, y) && !BytesLe(y, x)
    decreases k
  {
    if k > 0 {
      assert x[0] == x[..k][0] == y[..k][0] == y[0];
      assert x[1..][..k - 1] == x[..k][1..] == y[..k][1..] == y[1..][..k - 1];
      BytesDiffer(x[1..], y[1..], k - 1);
    }
  }

  /** A common prefix does not change the comparison. */
  lemma {:induction false} BytesLeCommonPrefix(e: seq<byte>, x: seq<byte>, y: seq<byte>)
    ensures BytesLe(e + x, e + y) <==> BytesLe(x, y)
    decreases |e|
  {
    if |e| == 0 {
      assert e + x == x && e + y == y;
    } else {
      assert (e + x)[1..] == e[1..] + x && (e + y)[1..] == e[1..] + y;
      BytesLeCommonPrefix(e[1..], x, y);
    }
  }

  lemma QuotientStep(x: int, y: int)
    requires 0 <= x < y && x / 64 == y / 64
    ensures x % 64 < y % 64
  {
  }

  lemma QuotientMono(x: int, y: int)
    requires 0 <= x <= y
    ensures x / 64 <= y / 64 && x / 4096 <= y / 4096 && x / 0x4_0000 <= y / 0x4_0000
  {
  }

  /** The lead octet tells the length of an encoding, and longer encodings
      belong to larger scalar values. */
  lemma LeadOctet(c: char)
    ensures var e := Utf8.EncodeChar(c);
            && (|e| == 1 <==> c as int < 0x80)
            && (|e| == 2 <==> 0x80 <= c as int < 0x800)
            && (|e| == 3 <==> 0x800 <= c as int < 0x1_0000)
            && (|e| == 1 ==> e[0] < 0x80)
            && (|e| == 2 ==> 0xC2 <= e[0] < 0xE0)
            && (|e| == 3 ==> 0xE0 <= e[0] < 0xF0)
            && (|e| == 4 ==> 0xF0 <= e[0])
  {
  }

  lemma TwoOctets(c: char, d: char) returns (k: nat)
    requires 0x80 <= c as int < d as int < 0x800
    ensures FirstBelow(Utf8.EncodeChar(c), Utf8.EncodeChar(d), k)
  {
    var x, y := c as int, d as int;
    QuotientMono(x, y);
    if x / 64 < y / 64 {
      k := 0;
    } else {
      QuotientStep(x, y);
      k := 1;
    }
  }

  lemma ThreeOctets(c: char, d: char) returns (k: nat)
    requires 0x800 <= c as int < d as int < 0x1_0000
    ensures FirstBelow(Utf8.EncodeChar(c), Utf8.EncodeChar(d), k)
  {
    var x, y := c as int, d as int;
    var ex, ey := Utf8.EncodeChar(c), Utf8.EncodeChar(d);
    QuotientMono(x, y);
    QuotientMono(x / 64, y / 64);
    assert x / 4096 == (x / 64) / 64 && y / 4096 == (y / 64) / 64;
    if x / 4096 < y / 4096 {
      k := 0;
    } else if (x / 64) % 64 < (y / 64) % 64 {
      k := 1;
      assert ex[..1] == [ex[0]] && ey[..1] == [ey[0]];
    } else {
      assert x / 64 == y / 64;
      QuotientStep(x, y);
      k := 2;
      assert ex[..2] == [ex[0], ex[1]] && ey[..2] == [ey[0], ey[1]];
    }
  }

  lemma FourOctets(c: char, d: char) returns (k: nat)
    requires 0x1_0000 <= c as int < d as int
    ensures FirstBelow(Utf8.EncodeChar(c), Utf8.EncodeChar(d), k)
  {
    var x, y := c as int, d as int;
    var ex, ey := Utf8.EncodeChar(c), Utf8.EncodeChar(d);
    QuotientMono(x, y);
    QuotientMono(x / 64, y / 64);
    QuotientMono(x / 4096, y / 4096);
    assert x / 4096 == (x / 64) / 64 && y / 4096 == (y / 64) / 64;
    assert x / 0x4_0000 == (x / 4096) / 64 && y / 0x4_0000 == (y / 4096) / 64;
    if x / 0x4_0000 < y / 0x4_0000 {
      k := 0;
    } else if (x / 4096) % 64 < (y / 4096) % 64 {
      k := 1;
      assert ex[..1] == [ex[0]] && ey[..1] == [ey[0]];
    } else if (x / 64) % 64 < (y / 64) % 64 {
      assert x / 4096 == y / 4096;
      k := 2;
      assert ex[..2] == [ex[0], ex[1]] && ey[..2] == [ey[0], ey[1]];
    } else {
      assert x / 4096 == y / 4096;
      assert x / 64 == y / 64;
      QuotientStep(x, y);
      k := 3;
      assert ex[..3] == [ex[0], ex[1], ex[2]] && ey[..3] == [ey[0], ey[1], ey[2]];
    }
  }

  /** The position where the encodings of two scalar values `c < d` first
      differ, with the smaller octet on the side of `c`. */
  lemma CharEncodingsDiffer(c: char, d: char) returns (k: nat)
    requires c < d
    ensures FirstBelow(Utf8.EncodeChar(c), Utf8.EncodeChar(d), k)
  {
    var ex, ey := Utf8.EncodeChar(c), Utf8.EncodeChar(d);
    LeadOctet(c);
    LeadOctet(d);
    if |ex| != |ey| || |ex| == 1 {
      k := 0;
    } else if |ex| == 2 {
      k := TwoOctets(c, d);
    } else if |ex| == 3 {
      k := ThreeOctets(c, d);
    } else {
      k := FourOctets(c, d);
    }
  }

  /** Comparing the UTF-8 octets of two strings orders them exactly as
      comparing their code points does. */
  lemma {:induction false} EncodingPreservesOrder(a: string, b: string)
    ensures StrLe(a, b) <==> BytesLe(Utf8.Encode(a), Utf8.Encode(b))
    decreases |a|
  {
    if |a| == 0 {
    } else if |b| == 0 {
    } else {
      var ea, eb := Utf8.Encode(a), Utf8.Encode(b);
      assert ea == Utf8.EncodeChar(a[0]) + Utf8.Encode(a[1..]);
      assert eb == Utf8.EncodeChar(b[0]) + Utf8.Encode(b[1..]);
      if a[0] == b[0] {
        BytesLeCommonPrefix(Utf8.EncodeChar(a[0]), Utf8.Encode(a[1..]), Utf8.Encode(b[1..]));
        EncodingPreservesOrder(a[1..], b[1..]);
      } else if a[0] < b[0] {
        var k := CharEncodingsDiffer(a[0], b[0]);
        assert ea[..k] == Utf8.EncodeChar(a[0])[..k] && eb[..k] == Utf8.EncodeChar(b[0])[..k];
        assert ea[k] == Utf8.EncodeChar(a[0])[k] && eb[k] == Utf8.EncodeChar(b[0])[k];
        BytesDiffer(ea, eb, k);
      } else {
        var k := CharEncodingsDiffer(b[0], a[0]);
        assert ea[..k] == Utf8.EncodeChar(a[0])[..k] && eb[..k] == Utf8.EncodeChar(b[0])[..k];
        assert ea[k] == Utf8.EncodeChar(a[0])[k] && eb[k] == Utf8.EncodeChar(b[0])[k];
        BytesDiffer(eb, ea, k);
      }
    }
  }
}

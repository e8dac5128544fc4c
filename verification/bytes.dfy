/** Octets, as held in a Python `bytes` object or a BSON string. */
module Bytes {

  /** One octet. */
  type byte = x: int | 0 <= x < 256

  /** Binary (memcmp-style) order on octet strings: a proper prefix comes
      first, otherwise the first differing octet decides. It is `Lex.StrLe`
      written for octets instead of chars; `Collation` relates the two. */
  predicate BytesLe(a: seq<byte>, b: seq<byte>)
    decreases |a|
  {
    |a| == 0 || (|b| > 0 && (a[0] < b[0] || (a[0] == b[0] && BytesLe(a[1..], b[1..]))))
  }
}

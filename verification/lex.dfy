/** Lexicographic order on strings: Python's `<=` on `str`, comparing code
    point by code point, with a proper prefix ordered first. `Bytes.BytesLe`
    is the same order on octets, and `Collation.FirstBelow` is the octet
    counterpart of `DiffersBelowAt`. */
module Lex {

  predicate StrLe(a: string, b: string)
    decreases |a|
  {
    |a| == 0 || (|b| > 0 && (a[0] < b[0] || (a[0] == b[0] && StrLe(a[1..], b[1..]))))
  }

  /** `a` is `b` cut short. */
  predicate IsPrefix(a: string, b: string) {
    |a| <= |b| && a == b[..|a|]
  }

  /** `a` and `b` agree before position `k`, where `a` has the smaller char. */
  predicate DiffersBelowAt(a: string, b: string, k: int) {
    0 <= k < |a| && k < |b| && a[..k] == b[..k] && a[k] < b[k]
  }

  /** The recursive order agrees with the textbook definition: a prefix, or
      smaller at the first difference. */
  lemma {:induction false} StrLeCharacterised(a: string, b: string)
    ensures StrLe(a, b) <==> IsPrefix(a, b) || exists k :: DiffersBelowAt(a, b, k)
    decreases |a|
  {
    if |a| == 0 || |b| == 0 {
    } else if a[0] < b[0] {
      assert DiffersBelowAt(a, b, 0);
    } else if a[0] > b[0] {
    } else {
      StrLeCharacterised(a[1..], b[1..]);
      if IsPrefix(a[1..], b[1..]) {
        assert a == [a[0]] + a[1..];
        assert b[..|a|] == [b[0]] + b[1..][..|a| - 1];
      }
      if k' :| DiffersBelowAt(a[1..], b[1..], k') {
        assert a[..k' + 1] == [a[0]] + a[1..][..k'];
        assert b[..k' + 1] == [b[0]] + b[1..][..k'];
        assert DiffersBelowAt(a, b, k' + 1);
      }
      if IsPrefix(a, b) {
        assert IsPrefix(a[1..], b[1..]);
      }
      if k :| DiffersBelowAt(a, b, k) {
        assert k > 0;
        assert a[1..][..k - 1] == a[..k][1..];
        assert b[1..][..k - 1] == b[..k][1..];
        assert DiffersBelowAt(a[1..], b[1..], k - 1);
      }
    }
  }

  /** The first difference decides the order, strictly. */
  lemma {:induction false} StrLeAtDifference(a: string, b: string, k: int)
    requires DiffersBelowAt(a, b, k)
    ensures StrLe(a, b) && !StrLe(b, a)
    decreases k
  {
    if k > 0 {
      assert a[0] == a[..k][0] == b[..k][0] == b[0];
      assert a[1..][..k - 1] == a[..k][1..] == b[..k][1..] == b[1..][..k - 1];
      StrLeAtDifference(a[1..], b[1..], k - 1);
    }
  }

  /** Every string is ordered before itself, so records with equal time
      text may sit next to each other in a sorted listing. */
  lemma {:induction false} StrLeReflexive(a: string)
    ensures StrLe(a, a)
    decreases |a|
  {
    if |a| > 0 {
      StrLeReflexive(a[1..]);
    }
  }

  lemma {:induction false} StrLeTotal(a: string, b: string)
    ensures StrLe(a, b) || StrLe(b, a)
    decreases |a|
  {
    if |a| > 0 && |b| > 0 && a[0] == b[0] {
      StrLeTotal(a[1..], b[1..]);
    }
  }

  lemma {:induction false} StrLeTransitive(a: string, b: string, c: string)
    requires StrLe(a, b) && StrLe(b, c)
    ensures StrLe(a, c)
    decreases |a|
  {
    if |a| > 0 && a[0] == b[0] && b[0] == c[0] {
      StrLeTransitive(a[1..], b[1..], c[1..]);
    }
  }

  lemma {:induction false} StrLeAntisymmetric(a: string, b: string)
    requires StrLe(a, b) && StrLe(b, a)
    ensures a == b
    decreases |a|
  {
    if |a| > 0 {
      StrLeAntisymmetric(a[1..], b[1..]);
      assert a == [a[0]] + a[1..] && b == [b[0]] + b[1..];
    }
  }
}

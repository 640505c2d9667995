/**
 * String prefixes and the longest common prefix of two keys
 * (`RadixNode._common_longest_prefix`).
 */
module Prefixes {

  /** `p` is a leading part of `s` (possibly empty, possibly all of `s`). */
  predicate IsPrefix(p: string, s: string) {
    |p| <= |s| && p == s[..|p|]
  }

  /** The longest common prefix of `a` and `b`, defined symbol by symbol. */
  function Lcp(a: string, b: string): (r: string)
    ensures IsPrefix(r, a) && IsPrefix(r, b)
    ensures |r| == |a| || |r| == |b| || a[|r|] != b[|r|]
    ensures r != [] <==> a != [] && b != [] && a[0] == b[0]
  {
    if a == [] || b == [] || a[0] != b[0] then [] else [a[0]] + Lcp(a[1..], b[1..])
  }

  /** The two ensures of `Lcp` determine it: any common prefix that cannot be extended is `Lcp`. */
  lemma {:induction false} LcpUnique(a: string, b: string, r: string)
    requires IsPrefix(r, a) && IsPrefix(r, b)
    requires |r| == |a| || |r| == |b| || a[|r|] != b[|r|]
    ensures r == Lcp(a, b)
  {
    if r != [] {
      assert a[0] == r[0] == b[0];
      assert r[1..] == a[1..][..|r| - 1] && r[1..] == b[1..][..|r| - 1];
      LcpUnique(a[1..], b[1..], r[1..]);
      assert r == [r[0]] + r[1..];
    }
  }

  /** Every common prefix of `a` and `b` is a prefix of `Lcp(a, b)`: it is the longest one. */
  lemma {:induction false} LcpIsLongest(a: string, b: string, p: string)
    requires IsPrefix(p, a) && IsPrefix(p, b)
    ensures IsPrefix(p, Lcp(a, b))
  {
    if p != [] {
      assert a[0] == p[0] == b[0];
      assert p[1..] == a[1..][..|p| - 1] && p[1..] == b[1..][..|p| - 1];
      LcpIsLongest(a[1..], b[1..], p[1..]);
      assert Lcp(a, b) == [a[0]] + Lcp(a[1..], b[1..]);
    }
  }

  /** The common prefix does not depend on the order of the arguments. */
  lemma LcpSymmetric(a: string, b: string)
    ensures Lcp(a, b) == Lcp(b, a)
  {
    var r := Lcp(a, b);
    LcpUnique(b, a, r);
  }

  /** Two keys that both share a first symbol with `key` share it with each other. */
  lemma SharedFirstSymbol(key: string, p: string, q: string)
    requires Lcp(key, p) != [] && Lcp(key, q) != []
    ensures Lcp(p, q) != []
  {
  }

  /**
   * The index loop of `_common_longest_prefix`: compare symbol by symbol up to the
   * shorter length and cut `key1` at the first difference.
   */
  method CommonLongestPrefix(key1: string, key2: string) returns (r: string)
    ensures r == Lcp(key1, key2)
  {
    var minLength := if |key1| < |key2| then |key1| else |key2|;
    for i := 0 to minLength
      invariant key1[..i] == key2[..i]
    {
      if key1[i] != key2[i] {
        LcpUnique(key1, key2, key1[..i]);
        return key1[..i];
      }
    }
    LcpUnique(key1, key2, key1[..minLength]);
    return key1[..minLength];
  }
}

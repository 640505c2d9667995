/**
 * `completions` (radix.py:221-252): the walk from the root that consumes the query child by
 * child, as the source writes it and as it is evidently meant to work.
 *
 * The source follows the matching child even when the query and the child's prefix only share
 * a first run and then differ, and keeps walking with what is left of the query; the corrected
 * walk stops there with no completions. The two agree whenever the corrected walk finds
 * anything (`CorrectedAgreesWithSource`).
 */
module RadixCompletions {
  import opened Wrappers
  import opened Prefixes
  import opened RadixSpec

  /** The keys of `t`'s children, `t` having the key `tkey`. */
  ghost function ChildKeys<V>(tkey: string, t: Tree<V>): (r: set<string>)
    ensures forall c :: c in r ==> IsPrefix(tkey, c)
  {
    set p | p in t.children :: tkey + t.children[p].prefix
  }

  /**
   * The source's loop: from `t` (whose key is `tkey`), with `q` left of the query, follow the
   * matching child, drop the common run from the query, and stop at the node with no matching
   * child; the result is that node and its key.
   */
  ghost function Descend<V>(t: Tree<V>, tkey: string, q: string): (r: (string, Tree<V>))
    ensures IsPrefix(tkey, r.0)
    decreases t
  {
    match MatchingChild(t.children, q)
    case None => (tkey, t)
    case Some(p) =>
      var c := t.children[p];
      var r := Descend(c, tkey + c.prefix, q[|Lcp(q, p)|..]);
      assert IsPrefix(tkey, tkey + c.prefix);
      r
  }

  /** The end of the source's `completions`, after the loop stopped at `last` with key `lastKey`. */
  ghost function Finish<V>(key: string, lastKey: string, last: Tree<V>): set<string> {
    if |key| < |lastKey| then {lastKey} else ChildKeys(lastKey, last)
  }

  /** `RadixNode.completions` on the root `t` as written (radix.py:236-252). */
  ghost function CompletionsAsWritten<V>(t: Tree<V>, key: string): (r: set<string>)
    ensures MatchingChild(t.children, key).None? ==> r == {}
  {
    if MatchingChild(t.children, key).None? then {}
    else
      var (lastKey, last) := Descend(t, t.prefix, key);
      Finish(key, lastKey, last)
  }

  /**
   * The corrected walk: descend only into a child whose whole prefix the query covers; when
   * the query runs out inside a child's prefix, that child's key is the completion; when it
   * runs out at a node, its children's keys are; when it diverges from every child, nothing is.
   */
  ghost function WalkChecked<V>(t: Tree<V>, tkey: string, q: string): set<string>
    decreases t
  {
    if q == [] then ChildKeys(tkey, t)
    else match MatchingChild(t.children, q)
      case None => {}
      case Some(p) =>
        var c := t.children[p];
        var common := Lcp(q, p);
        if common == p then WalkChecked(c, tkey + c.prefix, q[|p|..])
        else if common == q then {tkey + c.prefix}
        else {}
  }

  /** The corrected `completions` on the root `t`; the empty query has no completions, as in the source. */
  ghost function CompletionsChecked<V>(t: Tree<V>, key: string): set<string> {
    if key == [] then {} else WalkChecked(t, t.prefix, key)
  }

  /** Every completion found by the corrected walk extends the query. */
  lemma {:induction false} WalkCheckedSound<V>(t: Tree<V>, tkey: string, q: string, c: string)
    requires WellFormed(t) && c in WalkChecked(t, tkey, q)
    ensures IsPrefix(tkey + q, c)
    decreases t
  {
    if q == [] {
      assert tkey + q == tkey;
    } else {
      var p := MatchingChild(t.children, q).value;
      WalkStep(t, tkey, q, p);
      if Lcp(q, p) == p {
        assert t.children[p] < t;
        WalkCheckedSound(t.children[p], tkey + p, q[|p|..], c);
        SplitAppend(tkey, p, q);
      } else {
        PrefixAppend(tkey, q, p);
      }
    }
  }

  /** One step of both walks into the matching child `p` of a well-formed node. */
  lemma WalkStep<V>(t: Tree<V>, tkey: string, q: string, p: string)
    requires WellFormed(t) && q != [] && MatchingChild(t.children, q) == Some(p)
    ensures WellFormed(t.children[p]) && t.children[p].prefix == p
    ensures Descend(t, tkey, q) == Descend(t.children[p], tkey + p, q[|Lcp(q, p)|..])
    ensures Lcp(q, p) == p ==> WalkChecked(t, tkey, q) == WalkChecked(t.children[p], tkey + p, q[|p|..])
    ensures Lcp(q, p) != p && Lcp(q, p) == q ==> WalkChecked(t, tkey, q) == {tkey + p} && IsPrefix(q, p)
    ensures Lcp(q, p) != p && Lcp(q, p) != q ==> WalkChecked(t, tkey, q) == {}
  {
    assert t.children[p].prefix == p;
  }

  /** Both walks stop at a node none of whose children shares a first symbol with the query. */
  lemma WalkStops<V>(t: Tree<V>, tkey: string, q: string)
    requires q != [] && MatchingChild(t.children, q).None?
    ensures WalkChecked(t, tkey, q) == {} && Descend(t, tkey, q) == (tkey, t)
  {
  }

  lemma SplitAppend(a: string, p: string, q: string)
    requires IsPrefix(p, q)
    ensures a + p + q[|p|..] == a + q
  {
    assert q == p + q[|p|..];
  }

  lemma PrefixAppend(a: string, q: string, p: string)
    requires IsPrefix(q, p)
    ensures IsPrefix(a + q, a + p)
  {
    assert (a + p)[..|a + q|] == a + p[..|q|];
  }

  /** Every corrected completion of `key` on a well-formed tree starts with `key`. */
  lemma CompletionsCheckedSound<V>(t: Tree<V>, key: string, c: string)
    requires WellFormed(t) && t.prefix == [] && c in CompletionsChecked(t, key)
    ensures IsPrefix(key, c)
  {
    WalkCheckedSound(t, t.prefix, key, c);
    assert t.prefix + key == key;
  }

  /** One turn of the source's loop: into the matching child, minus the common run. */
  lemma DescendStep<V>(t: Tree<V>, tkey: string, q: string, p: string)
    requires MatchingChild(t.children, q) == Some(p)
    ensures Descend(t, tkey, q) == Descend(t.children[p], tkey + t.children[p].prefix, q[|Lcp(q, p)|..])
  {
  }

  /** An empty query matches no child, so the source's loop stops where it is. */
  lemma DescendEmpty<V>(t: Tree<V>, tkey: string)
    ensures Descend(t, tkey, []) == (tkey, t)
  {
    assert MatchingChild(t.children, []).None? by {
      forall p | p in t.children ensures Lcp([], p) == [] { }
    }
  }

  lemma {:induction false} DescendAgrees<V>(t: Tree<V>, tkey: string, q: string, key: string)
    requires WellFormed(t) && key == tkey + q && WalkChecked(t, tkey, q) != {}
    ensures Finish(key, Descend(t, tkey, q).0, Descend(t, tkey, q).1) == WalkChecked(t, tkey, q)
    decreases t
  {
    if q == [] {
      DescendEmpty(t, tkey);
      assert key == tkey;
    } else {
      var p := MatchingChild(t.children, q).value;
      WalkStep(t, tkey, q, p);
      if Lcp(q, p) == p {
        assert t.children[p] < t;
        SplitAppend(tkey, p, q);
        DescendAgrees(t.children[p], tkey + p, q[|p|..], key);
      } else {
        assert q[|q|..] == [];
        DescendEmpty(t.children[p], tkey + p);
        assert |key| < |tkey + p|;
      }
    }
  }

  /** Wherever the corrected walk finds completions, the source returns the same ones. */
  lemma CorrectedAgreesWithSource<V>(t: Tree<V>, key: string)
    requires WellFormed(t) && t.prefix == [] && CompletionsChecked(t, key) != {}
    ensures CompletionsAsWritten(t, key) == CompletionsChecked(t, key)
  {
    assert t.prefix + key == key;
    DescendAgrees(t, t.prefix, key, key);
  }
}

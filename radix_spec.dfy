/**
 * The radix tree of patrix/radix.py as a value: a node holds the prefix it contributes,
 * an optional value and its children keyed by their prefixes. This module defines the
 * structural invariants, the four-case insert of `RadixNode.insert` and the key/value
 * pairs a tree stores.
 */
module RadixSpec {
  import opened Wrappers
  import opened Prefixes

  datatype Tree<V> = Node(prefix: string, value: Option<V>, children: map<string, Tree<V>>)

  /** A node without children holding `v`. */
  function Leaf<V>(prefix: string, v: V): Tree<V> {
    Node(prefix, Some(v), map[])
  }

  /** The root a new tree starts with: empty prefix, no value, no children. */
  function EmptyRoot<V>(): Tree<V> {
    Node([], None, map[])
  }

  /** No two children share a non-empty leading run. */
  ghost predicate PrefixFree<V>(children: map<string, Tree<V>>) {
    forall p, q :: p in children && q in children && p != q ==> Lcp(p, q) == []
  }

  /**
   * The invariants `insert` keeps at every node: each child is stored under its own
   * prefix, siblings are prefix-free, and a child with the empty prefix is a leaf.
   */
  ghost predicate WellFormed<V>(t: Tree<V>)
    decreases t
  {
    && PrefixFree(t.children)
    && forall p :: p in t.children ==>
         && t.children[p].prefix == p
         && (p == [] ==> t.children[p].children == map[])
         && WellFormed(t.children[p])
  }

  /**
   * The child `_find_common_prefix_child` returns: one whose prefix shares a non-empty
   * leading run with `key`. Among prefix-free children there is at most one
   * (`MatchingChildUnique`), so the dictionary's iteration order does not matter.
   */
  ghost function MatchingChild<V>(children: map<string, Tree<V>>, key: string): (r: Option<string>)
    ensures r.Some? ==> r.value in children && Lcp(key, r.value) != []
    ensures r.None? ==> forall p :: p in children ==> Lcp(key, p) == []
  {
    if exists p :: p in children && Lcp(key, p) != [] then
      var p :| p in children && Lcp(key, p) != []; Some(p)
    else None
  }

  lemma MatchingChildUnique<V>(children: map<string, Tree<V>>, key: string, p: string)
    requires PrefixFree(children)
    requires p in children && Lcp(key, p) != []
    ensures MatchingChild(children, key) == Some(p)
  {
    var q := MatchingChild(children, key).value;
    SharedFirstSymbol(key, p, q);
  }

  /**
   * `RadixNode.insert(key, value)` on the node `t`: the key is placed among t's children.
   *   1. no child shares a leading run with `key`: a new leaf `key`;
   *   2. the shared run is the child's prefix and all of `key`: overwrite the child's value;
   *   3. the shared run is the child's whole prefix: insert the rest of `key` into the child;
   *   4. otherwise split: a valueless node for the shared run takes the old child, re-keyed
   *      by the rest of its prefix, and a new leaf for the rest of `key` (possibly empty).
   */
  ghost function Insert<V>(t: Tree<V>, key: string, v: V): (r: Tree<V>)
    requires key != []
    ensures r.prefix == t.prefix && r.value == t.value
    decreases t
  {
    match MatchingChild(t.children, key)
    case None =>
      t.(children := t.children[key := Leaf(key, v)])
    case Some(p) =>
      var common := Lcp(key, p);
      var child := t.children[p];
      if common == p && common == key then
        t.(children := t.children[p := child.(value := Some(v))])
      else if common == p then
        t.(children := t.children[p := Insert(child, key[|common|..], v)])
      else
        var rest := p[|common|..];
        var restKey := key[|common|..];
        var intermediate := Node(common, None, map[rest := child.(prefix := rest), restKey := Leaf(restKey, v)]);
        t.(children := t.children[common := intermediate] - {p})
  }

  // ---------------------------------------------------------------------------------------
  // The four cases of `Insert`, one by one

  lemma InsertNewCase<V>(t: Tree<V>, key: string, v: V)
    requires key != [] && MatchingChild(t.children, key).None?
    ensures Insert(t, key, v) == t.(children := t.children[key := Leaf(key, v)])
  {
  }

  lemma InsertOverwriteCase<V>(t: Tree<V>, key: string, v: V)
    requires key != [] && MatchingChild(t.children, key) == Some(key)
    ensures Insert(t, key, v) == t.(children := t.children[key := t.children[key].(value := Some(v))])
  {
    LcpUnique(key, key, key);
  }

  lemma InsertDescendCase<V>(t: Tree<V>, key: string, v: V, p: string)
    requires key != [] && MatchingChild(t.children, key) == Some(p) && Lcp(key, p) == p != key
    ensures key[|p|..] != []
    ensures Insert(t, key, v) == t.(children := t.children[p := Insert(t.children[p], key[|p|..], v)])
  {
  }

  /** In a split the common run is no child's key yet, since siblings share no first symbol. */
  lemma InsertSplitCase<V>(t: Tree<V>, key: string, v: V, p: string)
    requires key != [] && PrefixFree(t.children)
    requires MatchingChild(t.children, key) == Some(p) && Lcp(key, p) != p
    ensures Lcp(key, p) !in t.children && p[|Lcp(key, p)|..] != key[|Lcp(key, p)|..]
    ensures Insert(t, key, v) == t.(children := t.children[Lcp(key, p) := Node(Lcp(key, p), None,
      map[p[|Lcp(key, p)|..] := t.children[p].(prefix := p[|Lcp(key, p)|..]),
          key[|Lcp(key, p)|..] := Leaf(key[|Lcp(key, p)|..], v)])] - {p})
  {
    var common := Lcp(key, p);
    assert Lcp(common, p) != [];
    var rest := p[|common|..];
    assert rest != [] && rest[0] == p[|common|];
    assert key[|common|..] == [] || key[|common|..][0] != rest[0];
  }

  // ---------------------------------------------------------------------------------------
  // Structural invariants are preserved

  /** Replacing one child by a well-formed tree with the same prefix keeps the invariants. */
  lemma ReplaceChildWellFormed<V>(t: Tree<V>, p: string, c: Tree<V>)
    requires WellFormed(t) && p in t.children
    requires c.prefix == p && WellFormed(c) && (p == [] ==> c.children == map[])
    ensures WellFormed(t.(children := t.children[p := c]))
  {
  }

  lemma NewLeafWellFormed<V>(t: Tree<V>, key: string, v: V)
    requires WellFormed(t) && key != []
    requires MatchingChild(t.children, key).None?
    ensures WellFormed(Insert(t, key, v))
  {
    forall q | q in t.children ensures Lcp(q, key) == [] {
      LcpSymmetric(key, q);
    }
    assert key !in t.children by { assert Lcp(key, key) != []; }
    assert Insert(t, key, v) == t.(children := t.children[key := Leaf(key, v)]);
  }

  /** The valueless node a split creates is well formed. */
  lemma IntermediateWellFormed<V>(child: Tree<V>, common: string, rest: string, restKey: string, v: V)
    requires WellFormed(child) && child.prefix == common + rest
    requires rest != [] && (restKey == [] || restKey[0] != rest[0])
    ensures WellFormed(Node(common, None, map[rest := child.(prefix := rest), restKey := Leaf(restKey, v)]))
  {
    var inter := Node(common, None, map[rest := child.(prefix := rest), restKey := Leaf(restKey, v)]);
    assert Lcp(rest, restKey) == [];
    LcpSymmetric(rest, restKey);
    assert PrefixFree(inter.children);
    assert WellFormed(child.(prefix := rest));
  }

  /** Putting a node for a shorter run `c` of the same first symbol in place of `p`. */
  lemma SwapChildWellFormed<V>(t: Tree<V>, p: string, c: string, inter: Tree<V>)
    requires WellFormed(t) && p in t.children
    requires c != [] && Lcp(c, p) != [] && inter.prefix == c && WellFormed(inter)
    ensures WellFormed(t.(children := t.children[c := inter] - {p}))
  {
    var children' := t.children[c := inter] - {p};
    forall q | q in children' && q != c ensures Lcp(c, q) == [] && Lcp(q, c) == [] {
      assert q in t.children && q != p;
      assert Lcp(p, q) == [];
      LcpSymmetric(q, c);
    }
  }

  lemma SplitWellFormed<V>(t: Tree<V>, key: string, v: V, p: string)
    requires WellFormed(t) && key != []
    requires MatchingChild(t.children, key) == Some(p) && Lcp(key, p) != p
    ensures WellFormed(Insert(t, key, v))
  {
    var common := Lcp(key, p);
    var child := t.children[p];
    var rest := p[|common|..];
    var restKey := key[|common|..];
    var inter := Node(common, None, map[rest := child.(prefix := rest), restKey := Leaf(restKey, v)]);
    assert Insert(t, key, v) == t.(children := t.children[common := inter] - {p});
    assert p == common + rest;
    assert rest != [] && rest[0] == p[|common|];
    assert restKey == [] || restKey[0] != rest[0];
    IntermediateWellFormed(child, common, rest, restKey, v);
    assert Lcp(common, p) != [];
    SwapChildWellFormed(t, p, common, inter);
  }

  lemma {:induction false} InsertWellFormed<V>(t: Tree<V>, key: string, v: V)
    requires WellFormed(t) && key != []
    ensures WellFormed(Insert(t, key, v))
    decreases t
  {
    match MatchingChild(t.children, key)
    case None =>
      NewLeafWellFormed(t, key, v);
    case Some(p) =>
      var common := Lcp(key, p);
      var child := t.children[p];
      if common == p && common == key {
        ReplaceChildWellFormed(t, p, child.(value := Some(v)));
      } else if common == p {
        var child' := Insert(child, key[|common|..], v);
        InsertWellFormed(child, key[|common|..], v);
        ReplaceChildWellFormed(t, p, child');
      } else {
        SplitWellFormed(t, key, v, p);
      }
  }

  // ---------------------------------------------------------------------------------------
  // The key/value pairs a tree stores

  /**
   * `t` stores `v` under the full key `k`, where `k` is read from t's own prefix down: the
   * node whose prefixes along the path spell `k` holds `v`.
   */
  ghost predicate Holds<V>(t: Tree<V>, k: string, v: V)
    decreases t
  {
    && IsPrefix(t.prefix, k)
    && ((|k| == |t.prefix| && t.value == Some(v))
        || exists p :: p in t.children && Holds(t.children[p], k[|t.prefix|..], v))
  }

  /** Some node below `t` stores `v` under `k`, `k` being read after t's own prefix. */
  ghost predicate Stores<V>(t: Tree<V>, k: string, v: V) {
    exists p :: p in t.children && Holds(t.children[p], k, v)
  }

  lemma HoldsUnfold<V>(t: Tree<V>, k: string, v: V)
    requires IsPrefix(t.prefix, k)
    ensures Holds(t, k, v) <==> (|k| == |t.prefix| && t.value == Some(v)) || Stores(t, k[|t.prefix|..], v)
  {
  }

  /** Cutting a common part `c` off a node's prefix cuts it off every key the node holds. */
  lemma ShiftHolds<V>(t: Tree<V>, c: string, rest: string, k: string, w: V)
    requires t.prefix == c + rest
    ensures Holds(t, k, w) <==> IsPrefix(c, k) && Holds(t.(prefix := rest), k[|c|..], w)
  {
    var s := t.(prefix := rest);
    if IsPrefix(c, k) && IsPrefix(rest, k[|c|..]) {
      assert IsPrefix(t.prefix, k);
      assert k[|c|..][|rest|..] == k[|t.prefix|..];
    }
    if Holds(t, k, w) {
      assert k[..|c|] == k[..|t.prefix|][..|c|];
      assert IsPrefix(c, k);
      assert k[|c|..][..|rest|] == rest;
    }
  }

  /** A leaf stores its value under its own prefix and nothing else. */
  lemma LeafHolds<V>(key: string, v: V, k: string, w: V)
    ensures Holds(Leaf(key, v), k, w) <==> k == key && w == v
  {
    if k == key { assert IsPrefix(key, k); }
  }

  /** Setting a node's value changes only what it holds under its own key. */
  lemma SetValueHolds<V>(t: Tree<V>, v: V, k: string, w: V)
    ensures Holds(t.(value := Some(v)), k, w) ==> (k == t.prefix && w == v) || Holds(t, k, w)
    ensures k != t.prefix && Holds(t, k, w) ==> Holds(t.(value := Some(v)), k, w)
    ensures Holds(t.(value := Some(v)), t.prefix, v)
  {
    assert IsPrefix(t.prefix, t.prefix);
  }

  /** In prefix-free, well-formed children only the matching child can hold a non-empty key. */
  lemma HoldsOnlyInMatching<V>(t: Tree<V>, q: string, k: string, w: V)
    requires WellFormed(t) && k != []
    requires q in t.children && Holds(t.children[q], k, w)
    ensures MatchingChild(t.children, k) == Some(q)
  {
    assert IsPrefix(q, k);
    assert k[0] == q[0];
    MatchingChildUnique(t.children, k, q);
  }

  /** Some child other than the one under `p` stores `w` under `k`. */
  ghost predicate StoresExcept<V>(t: Tree<V>, p: string, k: string, w: V) {
    exists q :: q in t.children && q != p && Holds(t.children[q], k, w)
  }

  lemma StoresSplitAt<V>(t: Tree<V>, p: string, k: string, w: V)
    requires p in t.children
    ensures Stores(t, k, w) <==> Holds(t.children[p], k, w) || StoresExcept(t, p, k, w)
  {
  }

  lemma StoresReplace<V>(t: Tree<V>, p: string, c: Tree<V>, k: string, w: V)
    requires p in t.children
    ensures Stores(t.(children := t.children[p := c]), k, w) <==> Holds(c, k, w) || StoresExcept(t, p, k, w)
  {
    var t' := t.(children := t.children[p := c]);
    if Stores(t', k, w) {
      var q :| q in t'.children && Holds(t'.children[q], k, w);
      if q != p { assert StoresExcept(t, p, k, w); }
    }
    if Holds(c, k, w) { assert Holds(t'.children[p], k, w); }
    if StoresExcept(t, p, k, w) {
      var q :| q in t.children && q != p && Holds(t.children[q], k, w);
      assert Holds(t'.children[q], k, w);
    }
  }

  lemma StoresSwap<V>(t: Tree<V>, p: string, c: string, inter: Tree<V>, k: string, w: V)
    requires p in t.children && c !in t.children
    ensures Stores(t.(children := t.children[c := inter] - {p}), k, w) <==> Holds(inter, k, w) || StoresExcept(t, p, k, w)
  {
    var t' := t.(children := t.children[c := inter] - {p});
    if Stores(t', k, w) {
      var q :| q in t'.children && Holds(t'.children[q], k, w);
      if q != c { assert StoresExcept(t, p, k, w); }
    }
    if Holds(inter, k, w) { assert Holds(t'.children[c], k, w); }
    if StoresExcept(t, p, k, w) {
      var q :| q in t.children && q != p && Holds(t.children[q], k, w);
      assert Holds(t'.children[q], k, w);
    }
  }

  lemma StoresAdd<V>(t: Tree<V>, key: string, leaf: Tree<V>, k: string, w: V)
    requires key !in t.children
    ensures Stores(t.(children := t.children[key := leaf]), k, w) <==> Holds(leaf, k, w) || Stores(t, k, w)
  {
    var t' := t.(children := t.children[key := leaf]);
    if Stores(t', k, w) {
      var q :| q in t'.children && Holds(t'.children[q], k, w);
      if q != key { assert Holds(t.children[q], k, w); }
    }
    if Holds(leaf, k, w) { assert Holds(t'.children[key], k, w); }
    if Stores(t, k, w) {
      var q :| q in t.children && Holds(t.children[q], k, w);
      assert Holds(t'.children[q], k, w);
    }
  }

  /** What the node created by a split holds: the moved child's keys and the new key. */
  lemma IntermediateHolds<V>(common: string, moved: Tree<V>, leaf: Tree<V>, k: string, w: V)
    requires moved.prefix != leaf.prefix
    ensures var inter := Node(common, None, map[moved.prefix := moved, leaf.prefix := leaf]);
      Holds(inter, k, w) <==> IsPrefix(common, k) && (Holds(moved, k[|common|..], w) || Holds(leaf, k[|common|..], w))
  {
    var inter := Node(common, None, map[moved.prefix := moved, leaf.prefix := leaf]);
    if IsPrefix(common, k) {
      HoldsUnfold(inter, k, w);
      if Holds(inter, k, w) {
        var q :| q in inter.children && Holds(inter.children[q], k[|common|..], w);
      }
      if Holds(moved, k[|common|..], w) {
        assert Holds(inter.children[moved.prefix], k[|common|..], w);
      }
      if Holds(leaf, k[|common|..], w) {
        assert Holds(inter.children[leaf.prefix], k[|common|..], w);
      }
    }
  }

  lemma NewLeafStores<V>(t: Tree<V>, key: string, v: V, k: string, w: V)
    requires WellFormed(t) && key != []
    requires MatchingChild(t.children, key).None?
    ensures Stores(Insert(t, key, v), key, v)
    ensures Stores(Insert(t, key, v), k, w) <==> (k == key && w == v) || Stores(t, k, w)
  {
    assert key !in t.children by { assert Lcp(key, key) != []; }
    assert Insert(t, key, v) == t.(children := t.children[key := Leaf(key, v)]);
    StoresAdd(t, key, Leaf(key, v), k, w);
    StoresAdd(t, key, Leaf(key, v), key, v);
    LeafHolds(key, v, k, w);
    LeafHolds(key, v, key, v);
  }

  lemma OverwriteStores<V>(t: Tree<V>, key: string, v: V, k: string, w: V)
    requires WellFormed(t) && key != []
    requires MatchingChild(t.children, key) == Some(key)
    ensures Stores(Insert(t, key, v), key, v)
    ensures Stores(Insert(t, key, v), k, w) ==> (k == key && w == v) || Stores(t, k, w)
    ensures k != key && Stores(t, k, w) ==> Stores(Insert(t, key, v), k, w)
  {
    var child := t.children[key];
    assert Lcp(key, key) == key by { LcpUnique(key, key, key); }
    assert Insert(t, key, v) == t.(children := t.children[key := child.(value := Some(v))]);
    StoresReplace(t, key, child.(value := Some(v)), k, w);
    StoresReplace(t, key, child.(value := Some(v)), key, v);
    StoresSplitAt(t, key, k, w);
    SetValueHolds(child, v, k, w);
    SetValueHolds(child, v, key, v);
  }

  lemma {:induction false} DescendStores<V>(t: Tree<V>, key: string, v: V, p: string, k: string, w: V)
    requires WellFormed(t) && key != []
    requires MatchingChild(t.children, key) == Some(p) && Lcp(key, p) == p && p != key
    ensures Stores(Insert(t, key, v), key, v)
    ensures Stores(Insert(t, key, v), k, w) ==> (k == key && w == v) || Stores(t, k, w)
    ensures k != key && Stores(t, k, w) ==> Stores(Insert(t, key, v), k, w)
    decreases t, 0
  {
    var child := t.children[p];
    var restKey := key[|p|..];
    var child' := Insert(child, restKey, v);
    assert Insert(t, key, v) == t.(children := t.children[p := child']);
    assert IsPrefix(p, key) && key == p + restKey;
    StoresReplace(t, p, child', k, w);
    StoresReplace(t, p, child', key, v);
    StoresSplitAt(t, p, k, w);
    InsertStores(child, restKey, v, restKey, v);
    HoldsUnfold(child', key, v);
    if IsPrefix(p, k) {
      InsertStores(child, restKey, v, k[|p|..], w);
      HoldsUnfold(child', k, w);
      HoldsUnfold(child, k, w);
      assert k == p + k[|p|..];
      assert k[|p|..] == restKey <==> k == key;
    }
  }

  /** The mapping contract of a split, stated on the tree it builds. */
  lemma SplitTreeStores<V>(t: Tree<V>, p: string, common: string, rest: string, restKey: string, v: V, k: string, w: V)
    requires p in t.children && common !in t.children && t.children[p].prefix == p
    requires p == common + rest && rest != restKey
    ensures var inter := Node(common, None, map[rest := t.children[p].(prefix := rest), restKey := Leaf(restKey, v)]);
      var t' := t.(children := t.children[common := inter] - {p});
      && Stores(t', common + restKey, v)
      && (Stores(t', k, w) ==> (k == common + restKey && w == v) || Stores(t, k, w))
      && (k != common + restKey && Stores(t, k, w) ==> Stores(t', k, w))
  {
    var key := common + restKey;
    var child := t.children[p];
    var moved := child.(prefix := rest);
    var leaf := Leaf(restKey, v);
    var inter := Node(common, None, map[rest := moved, restKey := leaf]);
    StoresSwap(t, p, common, inter, k, w);
    StoresSwap(t, p, common, inter, key, v);
    StoresSplitAt(t, p, k, w);
    IntermediateHolds(common, moved, leaf, k, w);
    IntermediateHolds(common, moved, leaf, key, v);
    ShiftHolds(child, common, rest, k, w);
    LeafHolds(restKey, v, restKey, v);
    assert IsPrefix(common, key) && key[|common|..] == restKey;
    if IsPrefix(common, k) {
      LeafHolds(restKey, v, k[|common|..], w);
      assert k == common + k[|common|..];
      assert k[|common|..] == restKey <==> k == key;
    }
  }

  lemma SplitStores<V>(t: Tree<V>, key: string, v: V, p: string, k: string, w: V)
    requires WellFormed(t) && key != []
    requires MatchingChild(t.children, key) == Some(p) && Lcp(key, p) != p
    ensures Stores(Insert(t, key, v), key, v)
    ensures Stores(Insert(t, key, v), k, w) ==> (k == key && w == v) || Stores(t, k, w)
    ensures k != key && Stores(t, k, w) ==> Stores(Insert(t, key, v), k, w)
  {
    var common := Lcp(key, p);
    var child := t.children[p];
    var rest := p[|common|..];
    var restKey := key[|common|..];
    var inter := Node(common, None, map[rest := child.(prefix := rest), restKey := Leaf(restKey, v)]);
    assert Insert(t, key, v) == t.(children := t.children[common := inter] - {p});
    assert rest != restKey by {
      assert rest != [] && rest[0] == p[|common|];
      assert restKey == [] || restKey[0] != rest[0];
    }
    assert p == common + rest && key == common + restKey;
    assert Lcp(common, p) != [];
    assert common !in t.children;
    SplitTreeStores(t, p, common, rest, restKey, v, k, w);
  }

  /**
   * The mapping contract of `insert`: afterwards `key` is stored with `v`; any other key
   * stores exactly what it stored before; under `key` itself no value appears that was not
   * there before except `v` (an earlier value may remain in an empty-prefix leaf, see
   * `StaleValueAfterReinsert`).
   */
  lemma {:induction false} InsertStores<V>(t: Tree<V>, key: string, v: V, k: string, w: V)
    requires WellFormed(t) && key != []
    ensures Stores(Insert(t, key, v), key, v)
    ensures Stores(Insert(t, key, v), k, w) ==> (k == key && w == v) || Stores(t, k, w)
    ensures k != key && Stores(t, k, w) ==> Stores(Insert(t, key, v), k, w)
    decreases t, 1
  {
    match MatchingChild(t.children, key)
    case None =>
      NewLeafStores(t, key, v, k, w);
    case Some(p) =>
      var common := Lcp(key, p);
      if common == p && common == key {
        OverwriteStores(t, key, v, k, w);
      } else if common == p {
        DescendStores(t, key, v, p, k, w);
      } else {
        SplitStores(t, key, v, p, k, w);
      }
  }
}

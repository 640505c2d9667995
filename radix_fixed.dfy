/**
 * A corrected `RadixNode.insert`. Case 4 can leave a key's value in an empty-prefix leaf
 * below a valueless node whose own key is that key; case 2 as written then sets the value
 * on the node and leaves the leaf's older value in place (`StaleValueAfterReinsert`). Here
 * case 2 updates the empty-prefix leaf when there is one, so that a key is always stored
 * with the value it was last inserted with. All other cases are those of `RadixSpec.Insert`.
 */
module RadixFixed {
  import opened Wrappers
  import opened Prefixes
  import opened RadixSpec

  /** A node with an empty-prefix child holds no value itself: that child holds the node's key. */
  ghost predicate ValueInEmptyLeaf<V>(t: Tree<V>)
    decreases t
  {
    && ([] in t.children ==> t.value == None)
    && forall p :: p in t.children ==> ValueInEmptyLeaf(t.children[p])
  }

  /** The corrected case 2 on the matched child `c`: the value goes where `c`'s key is held. */
  function SetKeyValue<V>(c: Tree<V>, v: V): (r: Tree<V>)
    ensures r.prefix == c.prefix && r.children.Keys == c.children.Keys
  {
    if [] in c.children then c.(children := c.children[[] := c.children[[]].(value := Some(v))])
    else c.(value := Some(v))
  }

  /** `insert` with the corrected case 2; cases 1 and 4 are those of `RadixSpec.Insert`. */
  ghost function InsertFixed<V>(t: Tree<V>, key: string, v: V): (r: Tree<V>)
    requires key != []
    ensures r.prefix == t.prefix && r.value == t.value
    decreases t
  {
    match MatchingChild(t.children, key)
    case None => Insert(t, key, v)
    case Some(p) =>
      var common := Lcp(key, p);
      if common == p && common == key then
        t.(children := t.children[p := SetKeyValue(t.children[p], v)])
      else if common == p then
        t.(children := t.children[p := InsertFixed(t.children[p], key[|common|..], v)])
      else Insert(t, key, v)
  }

  // ---------------------------------------------------------------------------------------
  // The corrected insert keeps the invariants

  lemma {:induction false} InsertFixedWellFormed<V>(t: Tree<V>, key: string, v: V)
    requires WellFormed(t) && key != []
    ensures WellFormed(InsertFixed(t, key, v))
    decreases t
  {
    match MatchingChild(t.children, key)
    case None =>
      InsertWellFormed(t, key, v);
    case Some(p) =>
      var common := Lcp(key, p);
      var c := t.children[p];
      if common == p && common == key {
        if [] in c.children {
          ReplaceChildWellFormed(c, [], c.children[[]].(value := Some(v)));
        }
        assert WellFormed(SetKeyValue(c, v));
        ReplaceChildWellFormed(t, p, SetKeyValue(c, v));
      } else if common == p {
        InsertFixedWellFormed(c, key[|common|..], v);
        ReplaceChildWellFormed(t, p, InsertFixed(c, key[|common|..], v));
      } else {
        InsertWellFormed(t, key, v);
      }
  }

  /** The root of an empty tree has no children, so nothing is above an empty-prefix leaf. */
  lemma EmptyRootValueInEmptyLeaf<V>()
    ensures ValueInEmptyLeaf(EmptyRoot<V>())
  {
  }

  lemma {:induction false} InsertFixedValueInEmptyLeaf<V>(t: Tree<V>, key: string, v: V)
    requires WellFormed(t) && ValueInEmptyLeaf(t) && key != []
    ensures ValueInEmptyLeaf(InsertFixed(t, key, v))
    decreases t
  {
    var t' := InsertFixed(t, key, v);
    match MatchingChild(t.children, key)
    case None =>
      assert t' == t.(children := t.children[key := Leaf(key, v)]);
      assert ValueInEmptyLeaf(Leaf(key, v));
    case Some(p) =>
      var common := Lcp(key, p);
      var c := t.children[p];
      assert p != [] by { assert Lcp(key, p) != []; }
      if common == p && common == key {
        if [] in c.children {
          assert ValueInEmptyLeaf(c.children[[]].(value := Some(v)));
        }
        assert ValueInEmptyLeaf(SetKeyValue(c, v));
        assert t'.children == t.children[p := SetKeyValue(c, v)];
      } else if common == p {
        InsertFixedValueInEmptyLeaf(c, key[|common|..], v);
        assert t'.children == t.children[p := InsertFixed(c, key[|common|..], v)];
      } else {
        InsertSplitCase(t, key, v, p);
        var rest := p[|common|..];
        var restKey := key[|common|..];
        assert common != [];
        assert ValueInEmptyLeaf(c.(prefix := rest));
        assert ValueInEmptyLeaf(Leaf(restKey, v));
        var inter := Node(common, None, map[rest := c.(prefix := rest), restKey := Leaf(restKey, v)]);
        assert ValueInEmptyLeaf(inter);
        assert t'.children == t.children[common := inter] - {p};
      }
  }

  // ---------------------------------------------------------------------------------------
  // The corrected mapping contract

  /** Only an empty-prefix child can hold the empty key. */
  lemma EmptyKeyStored<V>(c: Tree<V>, w: V)
    requires WellFormed(c) && Stores(c, [], w)
    ensures [] in c.children && c.children[[]].value == Some(w)
  {
    var q :| q in c.children && Holds(c.children[q], [], w);
    assert q == [];
  }

  /** After the corrected case 2 the child's key holds only `v`; its other keys are untouched. */
  lemma SetKeyValueHolds<V>(c: Tree<V>, v: V, k: string, w: V)
    requires WellFormed(c) && ([] in c.children ==> c.value == None)
    ensures Holds(SetKeyValue(c, v), k, w) <==> if k == c.prefix then w == v else Holds(c, k, w)
  {
    var c' := SetKeyValue(c, v);
    assert IsPrefix(c.prefix, c.prefix);
    if [] in c.children {
      var leaf := Leaf([], v);
      assert c'.children[[]] == leaf;
      assert c' == c.(children := c.children[[] := leaf]);
      if IsPrefix(c.prefix, k) {
        var kk := k[|c.prefix|..];
        HoldsUnfold(c', k, w);
        HoldsUnfold(c, k, w);
        StoresReplace(c, [], leaf, kk, w);
        StoresSplitAt(c, [], kk, w);
        LeafHolds([], v, kk, w);
        var e := c.children[[]];
        assert IsPrefix(e.prefix, kk);
        HoldsUnfold(e, kk, w);
        if StoresExcept(c, [], kk, w) {
          var q :| q in c.children && q != [] && Holds(c.children[q], kk, w);
          assert IsPrefix(q, kk);
        }
        assert k == c.prefix <==> kk == [];
      }
    } else {
      SetValueHolds(c, v, k, w);
      if k == c.prefix && Holds(c', k, w) {
        HoldsUnfold(c', k, w);
      }
    }
  }

  /** Case 2, corrected: the matched child's prefix is the key, and its key now holds `v` only. */
  lemma FixedExactStores<V>(t: Tree<V>, key: string, v: V, p: string, k: string, w: V)
    requires WellFormed(t) && ValueInEmptyLeaf(t) && key != []
    requires MatchingChild(t.children, key) == Some(p) && p == key
    ensures Stores(InsertFixed(t, key, v), key, v)
    ensures Stores(InsertFixed(t, key, v), key, w) ==> w == v
    ensures k != key ==> (Stores(InsertFixed(t, key, v), k, w) <==> Stores(t, k, w))
  {
    var c := t.children[p];
    var c' := SetKeyValue(c, v);
    LcpUnique(key, key, key);
    assert InsertFixed(t, key, v) == t.(children := t.children[p := c']);
    StoresReplace(t, p, c', k, w);
    StoresReplace(t, p, c', key, w);
    StoresReplace(t, p, c', key, v);
    StoresSplitAt(t, p, k, w);
    SetKeyValueHolds(c, v, k, w);
    SetKeyValueHolds(c, v, key, w);
    SetKeyValueHolds(c, v, key, v);
    if StoresExcept(t, p, key, w) {
      var q :| q in t.children && q != p && Holds(t.children[q], key, w);
      HoldsOnlyInMatching(t, q, key, w);
    }
  }

  /**
   * Case 3 for the inserted key: the matched child's prefix is a proper prefix of the key,
   * and if the recursive insert stores the rest of the key with `v` only (`c'`), the tree
   * stores the key with `v` only.
   */
  lemma FixedDescendKey<V>(t: Tree<V>, key: string, v: V, p: string, c': Tree<V>, w: V)
    requires WellFormed(t) && key != []
    requires MatchingChild(t.children, key) == Some(p) && IsPrefix(p, key) && p != key
    requires c'.prefix == p
    requires Stores(c', key[|p|..], v)
    requires Stores(c', key[|p|..], w) ==> w == v
    ensures Stores(t.(children := t.children[p := c']), key, v)
    ensures Stores(t.(children := t.children[p := c']), key, w) ==> w == v
  {
    StoresReplace(t, p, c', key, w);
    StoresReplace(t, p, c', key, v);
    HoldsUnfold(c', key, v);
    HoldsUnfold(c', key, w);
    if StoresExcept(t, p, key, w) {
      var q :| q in t.children && q != p && Holds(t.children[q], key, w);
      HoldsOnlyInMatching(t, q, key, w);
    }
  }

  /**
   * Case 3 for the other keys: if the recursive insert changes nothing else below the
   * matched child, nothing else changes in the tree.
   */
  lemma FixedDescendOther<V>(t: Tree<V>, p: string, c': Tree<V>, k: string, w: V)
    requires p in t.children && t.children[p].prefix == p
    requires c'.prefix == p && c'.value == t.children[p].value
    requires IsPrefix(p, k) ==> (Stores(c', k[|p|..], w) <==> Stores(t.children[p], k[|p|..], w))
    ensures Stores(t.(children := t.children[p := c']), k, w) <==> Stores(t, k, w)
  {
    var c := t.children[p];
    StoresReplace(t, p, c', k, w);
    StoresSplitAt(t, p, k, w);
    if IsPrefix(p, k) {
      HoldsUnfold(c', k, w);
      HoldsUnfold(c, k, w);
    }
  }

  /** Cases 1 and 4 are those of `RadixSpec.Insert`, and there the key was stored nowhere. */
  lemma FixedAsWrittenStores<V>(t: Tree<V>, key: string, v: V, k: string, w: V)
    requires WellFormed(t) && key != []
    requires MatchingChild(t.children, key).None? || Lcp(key, MatchingChild(t.children, key).value) != MatchingChild(t.children, key).value
    ensures Stores(Insert(t, key, v), key, v)
    ensures Stores(Insert(t, key, v), key, w) ==> w == v
    ensures k != key ==> (Stores(Insert(t, key, v), k, w) <==> Stores(t, k, w))
  {
    match MatchingChild(t.children, key)
    case None =>
      NewLeafStores(t, key, v, k, w);
      NewLeafStores(t, key, v, key, w);
      if Stores(t, key, w) {
        var q :| q in t.children && Holds(t.children[q], key, w);
        HoldsOnlyInMatching(t, q, key, w);
      }
    case Some(p) =>
      SplitStores(t, key, v, p, k, w);
      SplitStores(t, key, v, p, key, w);
      if Stores(t, key, w) {
        var q :| q in t.children && Holds(t.children[q], key, w);
        HoldsOnlyInMatching(t, q, key, w);
      }
  }

  /**
   * The corrected mapping contract: after `insert(key, v)` the key is stored with `v` and
   * with no other value, and every other key stores exactly what it stored before.
   */
  lemma {:induction false} InsertFixedStores<V>(t: Tree<V>, key: string, v: V, k: string, w: V)
    requires WellFormed(t) && ValueInEmptyLeaf(t) && key != []
    ensures Stores(InsertFixed(t, key, v), key, v)
    ensures Stores(InsertFixed(t, key, v), key, w) ==> w == v
    ensures k != key ==> (Stores(InsertFixed(t, key, v), k, w) <==> Stores(t, k, w))
    decreases t
  {
    match MatchingChild(t.children, key)
    case None =>
      FixedAsWrittenStores(t, key, v, k, w);
    case Some(p) =>
      var common := Lcp(key, p);
      if common == p && common == key {
        FixedExactStores(t, key, v, p, k, w);
      } else if common == p {
        var c := t.children[p];
        var restKey := key[|p|..];
        var c' := InsertFixed(c, restKey, v);
        assert InsertFixed(t, key, v) == t.(children := t.children[p := c']);
        InsertFixedStores(c, restKey, v, restKey, w);
        if IsPrefix(p, k) {
          InsertFixedStores(c, restKey, v, k[|p|..], w);
        }
        FixedDescendKey(t, key, v, p, c', w);
        if k != key {
          if IsPrefix(p, k) {
            assert k == p + k[|p|..] && key == p + restKey;
          }
          FixedDescendOther(t, p, c', k, w);
        }
      } else {
        FixedAsWrittenStores(t, key, v, k, w);
      }
  }
}

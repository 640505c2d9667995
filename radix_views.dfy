/**
 * The read-only views of a radix node (radix.py:314-364): its snapshot, height, size,
 * total prefix length and the key of a node reached along a path, with how `insert`
 * changes each of them.
 */
module RadixViews {
  import opened Wrappers
  import opened Prefixes
  import opened Snapshots
  import opened MapFolds
  import opened RadixSpec

  /** `as_dict`: one dictionary level per node, keyed by the children's prefixes; values are dropped. */
  function AsDict<V>(t: Tree<V>): (r: Shape<string>)
    ensures r.entries.Keys == t.children.Keys
  {
    Shape(map p | p in t.children :: AsDict(t.children[p]))
  }

  /** `height`: 1 for a leaf, else one more than the highest child. */
  ghost function Height<V>(t: Tree<V>): (h: nat)
    ensures h >= 1
    decreases t, 1
  {
    if t.children == map[] then 1 else 1 + MaxOf(Heights(t))
  }

  ghost function Heights<V>(t: Tree<V>): map<string, nat>
    decreases t, 0
  {
    map p | p in t.children :: Height(t.children[p])
  }

  /** `size`: this node plus the sizes of the children. */
  ghost function Size<V>(t: Tree<V>): (n: nat)
    ensures n >= 1
    decreases t, 1
  {
    1 + SumOf(Sizes(t))
  }

  ghost function Sizes<V>(t: Tree<V>): map<string, nat>
    decreases t, 0
  {
    map p | p in t.children :: Size(t.children[p])
  }

  /** `total_chars`: the length of this node's prefix plus the children's totals. */
  ghost function TotalChars<V>(t: Tree<V>): (n: nat)
    ensures n >= |t.prefix|
    decreases t, 1
  {
    |t.prefix| + SumOf(Chars(t))
  }

  ghost function Chars<V>(t: Tree<V>): map<string, nat>
    decreases t, 0
  {
    map p | p in t.children :: TotalChars(t.children[p])
  }

  lemma HeightUnfold<V>(t: Tree<V>)
    ensures Height(t) == 1 + MaxOf(Heights(t))
  {
  }

  /** A node with children is at least two levels high. */
  lemma HeightAboveLeaf<V>(t: Tree<V>)
    ensures Height(t) == 1 <==> t.children == map[]
  {
    if t.children != map[] {
      var k :| k in t.children;
      assert Heights(t)[k] >= 1;
    }
  }

  // ---------------------------------------------------------------------------------------
  // Keys along paths

  /** The node reached from `t` by following the children keys in `path`. */
  ghost function NodeAt<V>(t: Tree<V>, path: seq<string>): Option<Tree<V>>
    decreases |path|
  {
    if path == [] then Some(t)
    else if path[0] in t.children then NodeAt(t.children[path[0]], path[1..])
    else None
  }

  /** `key`: the prefixes from `t` down to the node at `path`, concatenated. */
  ghost function KeyAt<V>(t: Tree<V>, path: seq<string>): (r: string)
    requires NodeAt(t, path).Some?
    ensures IsPrefix(t.prefix, r)
    ensures |r| >= |NodeAt(t, path).value.prefix|
    decreases |path|
  {
    if path == [] then t.prefix else t.prefix + KeyAt(t.children[path[0]], path[1..])
  }

  /** A node's key is its parent's key followed by its own prefix. */
  lemma {:induction false} KeyAtChild<V>(t: Tree<V>, path: seq<string>, p: string)
    requires NodeAt(t, path).Some? && p in NodeAt(t, path).value.children
    ensures NodeAt(t, path + [p]) == Some(NodeAt(t, path).value.children[p])
    ensures KeyAt(t, path + [p]) == KeyAt(t, path) + NodeAt(t, path).value.children[p].prefix
    decreases |path|
  {
    if path != [] {
      assert (path + [p])[1..] == path[1..] + [p];
      KeyAtChild(t.children[path[0]], path[1..], p);
    }
  }

  /** `Holds` is "the node whose key is `k` holds `v`". */
  lemma HoldsAtPath<V>(t: Tree<V>, k: string, v: V)
    ensures Holds(t, k, v) <==>
      exists path :: NodeAt(t, path).Some? && KeyAt(t, path) == k && NodeAt(t, path).value.value == Some(v)
  {
    if Holds(t, k, v) {
      HoldsGivesPath(t, k, v);
    }
    if exists path :: NodeAt(t, path).Some? && KeyAt(t, path) == k && NodeAt(t, path).value.value == Some(v) {
      var path :| NodeAt(t, path).Some? && KeyAt(t, path) == k && NodeAt(t, path).value.value == Some(v);
      PathGivesHolds(t, path, v);
    }
  }

  lemma {:induction false} HoldsGivesPath<V>(t: Tree<V>, k: string, v: V)
    requires Holds(t, k, v)
    ensures exists path :: NodeAt(t, path).Some? && KeyAt(t, path) == k && NodeAt(t, path).value.value == Some(v)
    decreases t
  {
    if |k| == |t.prefix| && t.value == Some(v) {
      assert k == t.prefix;
      assert NodeAt(t, []).Some? && KeyAt(t, []) == k;
    } else {
      var p :| p in t.children && Holds(t.children[p], k[|t.prefix|..], v);
      HoldsGivesPath(t.children[p], k[|t.prefix|..], v);
      var path :| NodeAt(t.children[p], path).Some? && KeyAt(t.children[p], path) == k[|t.prefix|..]
                  && NodeAt(t.children[p], path).value.value == Some(v);
      assert ([p] + path)[1..] == path;
      assert NodeAt(t, [p] + path) == NodeAt(t.children[p], path);
      assert k == t.prefix + k[|t.prefix|..];
      assert KeyAt(t, [p] + path) == k;
    }
  }

  lemma {:induction false} PathGivesHolds<V>(t: Tree<V>, path: seq<string>, v: V)
    requires NodeAt(t, path).Some? && NodeAt(t, path).value.value == Some(v)
    ensures Holds(t, KeyAt(t, path), v)
    decreases |path|
  {
    var k := KeyAt(t, path);
    if path == [] {
      assert k == t.prefix && t.value == Some(v);
      assert IsPrefix(t.prefix, k);
    } else {
      var p := path[0];
      var c := t.children[p];
      PathGivesHolds(c, path[1..], v);
      assert k == t.prefix + KeyAt(c, path[1..]);
      assert k[|t.prefix|..] == KeyAt(c, path[1..]);
      assert IsPrefix(t.prefix, k);
    }
  }

  // ---------------------------------------------------------------------------------------
  // Trees of the same shape

  /** Same prefix and the same children, recursively; values may differ. */
  ghost predicate SameShape<V>(a: Tree<V>, b: Tree<V>)
    decreases a
  {
    && a.prefix == b.prefix
    && a.children.Keys == b.children.Keys
    && forall p :: p in a.children ==> SameShape(a.children[p], b.children[p])
  }

  /** The views ignore values: trees of the same shape agree on all of them. */
  lemma SameShapeViews<V>(a: Tree<V>, b: Tree<V>)
    requires SameShape(a, b)
    ensures AsDict(a) == AsDict(b) && Size(a) == Size(b)
    ensures Height(a) == Height(b) && TotalChars(a) == TotalChars(b)
  {
    SameShapeAsDict(a, b);
    SameShapeSize(a, b);
    SameShapeHeight(a, b);
    SameShapeChars(a, b);
  }

  lemma {:induction false} SameShapeAsDict<V>(a: Tree<V>, b: Tree<V>)
    requires SameShape(a, b)
    ensures AsDict(a) == AsDict(b)
    decreases a
  {
    forall p | p in a.children ensures AsDict(a.children[p]) == AsDict(b.children[p]) {
      SameShapeAsDict(a.children[p], b.children[p]);
    }
    assert AsDict(a).entries == AsDict(b).entries;
  }

  lemma {:induction false} SameShapeSize<V>(a: Tree<V>, b: Tree<V>)
    requires SameShape(a, b)
    ensures Size(a) == Size(b)
    decreases a
  {
    forall p | p in a.children ensures Size(a.children[p]) == Size(b.children[p]) {
      SameShapeSize(a.children[p], b.children[p]);
    }
    assert Sizes(a) == Sizes(b);
  }

  lemma {:induction false} SameShapeHeight<V>(a: Tree<V>, b: Tree<V>)
    requires SameShape(a, b)
    ensures Height(a) == Height(b)
    decreases a
  {
    forall p | p in a.children ensures Height(a.children[p]) == Height(b.children[p]) {
      SameShapeHeight(a.children[p], b.children[p]);
    }
    assert Heights(a) == Heights(b);
  }

  lemma {:induction false} SameShapeChars<V>(a: Tree<V>, b: Tree<V>)
    requires SameShape(a, b)
    ensures TotalChars(a) == TotalChars(b)
    decreases a
  {
    forall p | p in a.children ensures TotalChars(a.children[p]) == TotalChars(b.children[p]) {
      SameShapeChars(a.children[p], b.children[p]);
    }
    assert Chars(a) == Chars(b);
  }

  lemma {:induction false} SameShapeReflexive<V>(t: Tree<V>)
    ensures SameShape(t, t)
    decreases t
  {
    forall p | p in t.children ensures SameShape(t.children[p], t.children[p]) {
      SameShapeReflexive(t.children[p]);
    }
  }

  /** The walk of `insert` for `key` ends in case 2, an exact match. */
  ghost predicate ReachesExact<V>(t: Tree<V>, key: string)
    decreases t
  {
    match MatchingChild(t.children, key)
    case None => false
    case Some(p) =>
      var common := Lcp(key, p);
      if common == p && common == key then true
      else if common == p then ReachesExact(t.children[p], key[|common|..])
      else false
  }

  /** Inserting a key whose walk ends in an exact match only changes a value. */
  lemma {:induction false} ExactInsertSameShape<V>(t: Tree<V>, key: string, v: V)
    requires key != [] && ReachesExact(t, key)
    ensures SameShape(Insert(t, key, v), t)
    decreases t
  {
    var p := MatchingChild(t.children, key).value;
    var common := Lcp(key, p);
    var child := t.children[p];
    var child' := if common == key then child.(value := Some(v)) else Insert(child, key[|common|..], v);
    assert Insert(t, key, v) == t.(children := t.children[p := child']);
    if common == key {
      SameShapeReflexive(child);
      assert SameShape(child', child);
    } else {
      ExactInsertSameShape(child, key[|common|..], v);
    }
    forall q | q in t.children && q != p ensures SameShape(t.children[q], t.children[q]) {
      SameShapeReflexive(t.children[q]);
    }
  }

  /** After `insert(key, v)` the walk for `key` ends in an exact match. */
  lemma {:induction false} InsertReachesExact<V>(t: Tree<V>, key: string, v: V)
    requires WellFormed(t) && key != []
    ensures ReachesExact(Insert(t, key, v), key)
    decreases t
  {
    InsertWellFormed(t, key, v);
    var r := Insert(t, key, v);
    assert Lcp(key, key) == key by { LcpUnique(key, key, key); }
    match MatchingChild(t.children, key)
    case None =>
      assert key in r.children;
      MatchingChildUnique(r.children, key, key);
    case Some(p) =>
      var common := Lcp(key, p);
      if common == p && common == key {
        MatchingChildUnique(r.children, key, p);
      } else if common == p {
        assert p in r.children && Lcp(key, p) == p;
        MatchingChildUnique(r.children, key, p);
        InsertReachesExact(t.children[p], key[|common|..], v);
      } else {
        var rest := p[|common|..];
        var restKey := key[|common|..];
        var inter := r.children[common];
        assert IsPrefix(common, key) && Lcp(key, common) == common by { LcpUnique(key, common, common); }
        MatchingChildUnique(r.children, key, common);
        assert restKey in inter.children && inter.children[restKey] == Leaf(restKey, v);
        if restKey == [] {
          assert common == key;
        } else {
          assert Lcp(restKey, restKey) == restKey by { LcpUnique(restKey, restKey, restKey); }
          MatchingChildUnique(inter.children, restKey, restKey);
        }
      }
  }

  /**
   * Inserting a key that is already there (test_radix_duplicate) leaves the snapshot and
   * every metric unchanged.
   */
  lemma DuplicateInsertKeepsShape<V>(t: Tree<V>, key: string, v: V, w: V)
    requires WellFormed(t) && key != []
    ensures var once := Insert(t, key, v);
      && AsDict(Insert(once, key, w)) == AsDict(once)
      && Size(Insert(once, key, w)) == Size(once)
      && Height(Insert(once, key, w)) == Height(once)
      && TotalChars(Insert(once, key, w)) == TotalChars(once)
  {
    var once := Insert(t, key, v);
    InsertReachesExact(t, key, v);
    ExactInsertSameShape(once, key, w);
    SameShapeViews(Insert(once, key, w), once);
  }

  // ---------------------------------------------------------------------------------------
  // How each case of `insert` changes the metrics

  /** Shortening a node's prefix (the moved child of a split) changes only its character count. */
  lemma ReprefixViews<V>(t: Tree<V>, rest: string)
    ensures Size(t.(prefix := rest)) == Size(t) && Height(t.(prefix := rest)) == Height(t)
    ensures TotalChars(t.(prefix := rest)) + |t.prefix| == TotalChars(t) + |rest|
  {
    var t' := t.(prefix := rest);
    assert Sizes(t') == Sizes(t);
    assert Heights(t') == Heights(t);
    assert Chars(t') == Chars(t);
  }

  lemma LeafViews<V>(key: string, v: V)
    ensures Size(Leaf(key, v)) == 1 && Height(Leaf(key, v)) == 1 && TotalChars(Leaf(key, v)) == |key|
    ensures AsDict(Leaf(key, v)) == Shape(map[])
  {
    assert Sizes(Leaf(key, v)) == map[];
    assert Chars(Leaf(key, v)) == map[];
  }

  // Putting `c` under the key `p` (new or existing) of `t`'s children, or under a new key `q`
  // in place of the child under `p`: the metric maps change in that one entry.

  lemma SizesUpdate<V>(t: Tree<V>, p: string, c: Tree<V>)
    ensures Sizes(t.(children := t.children[p := c])) == Sizes(t)[p := Size(c)]
  {
    var t' := t.(children := t.children[p := c]);
    var a, b := Sizes(t'), Sizes(t)[p := Size(c)];
    assert a.Keys == b.Keys;
    forall q | q in a ensures a[q] == b[q] {
      if q == p { assert t'.children[q] == c; } else { assert t'.children[q] == t.children[q]; }
    }
  }

  lemma SizesSwap<V>(t: Tree<V>, p: string, q: string, c: Tree<V>)
    requires p != q
    ensures Sizes(t.(children := t.children[q := c] - {p})) == Sizes(t)[q := Size(c)] - {p}
  {
    var t' := t.(children := t.children[q := c] - {p});
    var a, b := Sizes(t'), Sizes(t)[q := Size(c)] - {p};
    assert a.Keys == b.Keys;
    forall j | j in a ensures a[j] == b[j] {
      if j == q { assert t'.children[j] == c; } else { assert t'.children[j] == t.children[j]; }
    }
  }

  lemma HeightsUpdate<V>(t: Tree<V>, p: string, c: Tree<V>)
    ensures Heights(t.(children := t.children[p := c])) == Heights(t)[p := Height(c)]
  {
    var t' := t.(children := t.children[p := c]);
    var a, b := Heights(t'), Heights(t)[p := Height(c)];
    assert a.Keys == b.Keys;
    forall q | q in a ensures a[q] == b[q] {
      if q == p { assert t'.children[q] == c; } else { assert t'.children[q] == t.children[q]; }
    }
  }

  lemma HeightsSwap<V>(t: Tree<V>, p: string, q: string, c: Tree<V>)
    requires p != q
    ensures Heights(t.(children := t.children[q := c] - {p})) == Heights(t)[q := Height(c)] - {p}
  {
    var t' := t.(children := t.children[q := c] - {p});
    var a, b := Heights(t'), Heights(t)[q := Height(c)] - {p};
    assert a.Keys == b.Keys;
    forall j | j in a ensures a[j] == b[j] {
      if j == q { assert t'.children[j] == c; } else { assert t'.children[j] == t.children[j]; }
    }
  }

  lemma CharsUpdate<V>(t: Tree<V>, p: string, c: Tree<V>)
    ensures Chars(t.(children := t.children[p := c])) == Chars(t)[p := TotalChars(c)]
  {
    var t' := t.(children := t.children[p := c]);
    var a, b := Chars(t'), Chars(t)[p := TotalChars(c)];
    assert a.Keys == b.Keys;
    forall q | q in a ensures a[q] == b[q] {
      if q == p { assert t'.children[q] == c; } else { assert t'.children[q] == t.children[q]; }
    }
  }

  lemma CharsSwap<V>(t: Tree<V>, p: string, q: string, c: Tree<V>)
    requires p != q
    ensures Chars(t.(children := t.children[q := c] - {p})) == Chars(t)[q := TotalChars(c)] - {p}
  {
    var t' := t.(children := t.children[q := c] - {p});
    var a, b := Chars(t'), Chars(t)[q := TotalChars(c)] - {p};
    assert a.Keys == b.Keys;
    forall j | j in a ensures a[j] == b[j] {
      if j == q { assert t'.children[j] == c; } else { assert t'.children[j] == t.children[j]; }
    }
  }

  /** Adding a child `c` under a new key `k`. */
  lemma AddChildViews<V>(t: Tree<V>, k: string, c: Tree<V>)
    requires k !in t.children
    ensures Size(t.(children := t.children[k := c])) == Size(t) + Size(c)
    ensures TotalChars(t.(children := t.children[k := c])) == TotalChars(t) + TotalChars(c)
    ensures Height(t) <= Height(t.(children := t.children[k := c]))
    ensures Height(t.(children := t.children[k := c])) <= Height(t) + Height(c)
  {
    SizesUpdate(t, k, c);
    CharsUpdate(t, k, c);
    SumOfAdd(Sizes(t), k, Size(c));
    SumOfAdd(Chars(t), k, TotalChars(c));
    AddChildHeight(t, k, c);
  }

  lemma AddChildHeight<V>(t: Tree<V>, k: string, c: Tree<V>)
    requires k !in t.children
    ensures Height(t) <= Height(t.(children := t.children[k := c])) <= Height(t) + Height(c)
  {
    var t' := t.(children := t.children[k := c]);
    HeightsUpdate(t, k, c);
    forall j | j in Heights(t) ensures exists j' :: j' in Heights(t') && Heights(t)[j] <= Heights(t')[j'] {
      assert Heights(t)[j] <= Heights(t')[j];
    }
    MaxOfDominated(Heights(t), Heights(t'));
    MaxOfBounded(Heights(t'), MaxOf(Heights(t)) + Height(c));
  }

  /** Replacing the child under `p` by `c`: the counts change by the child's change. */
  lemma ReplaceChildCounts<V>(t: Tree<V>, p: string, c: Tree<V>, ds: nat, dc: nat)
    requires p in t.children
    requires Size(c) == Size(t.children[p]) + ds && TotalChars(c) == TotalChars(t.children[p]) + dc
    ensures Size(t.(children := t.children[p := c])) == Size(t) + ds
    ensures TotalChars(t.(children := t.children[p := c])) == TotalChars(t) + dc
  {
    SizesUpdate(t, p, c);
    CharsUpdate(t, p, c);
    SumOfUpdate(Sizes(t), p, Size(c));
    SumOfUpdate(Chars(t), p, TotalChars(c));
  }

  /** Replacing the child under `p` by one at most a level higher. */
  lemma ReplaceChildHeight<V>(t: Tree<V>, p: string, c: Tree<V>)
    requires p in t.children
    requires Height(t.children[p]) <= Height(c) <= Height(t.children[p]) + 1
    ensures Height(t) <= Height(t.(children := t.children[p := c])) <= Height(t) + 1
  {
    var t' := t.(children := t.children[p := c]);
    HeightsUpdate(t, p, c);
    MaxOfUpdate(Heights(t), p, Height(c));
    HeightUnfold(t);
    HeightUnfold(t');
  }

  /** Putting `c` under a new key `q` in place of the child under `p`: the counts. */
  lemma SwapChildCounts<V>(t: Tree<V>, p: string, q: string, c: Tree<V>, ds: nat, dc: nat)
    requires p in t.children && q !in t.children
    requires Size(c) == Size(t.children[p]) + ds && TotalChars(c) == TotalChars(t.children[p]) + dc
    ensures Size(t.(children := t.children[q := c] - {p})) == Size(t) + ds
    ensures TotalChars(t.(children := t.children[q := c] - {p})) == TotalChars(t) + dc
  {
    SizesSwap(t, p, q, c);
    CharsSwap(t, p, q, c);
    SumOfSwap(Sizes(t), p, q, Size(c));
    SumOfSwap(Chars(t), p, q, TotalChars(c));
  }

  /** Putting `c` under a new key `q` in place of the child under `p`: the height. */
  lemma SwapChildHeight<V>(t: Tree<V>, p: string, q: string, c: Tree<V>)
    requires p in t.children && q !in t.children
    requires Height(t.children[p]) <= Height(c) <= Height(t.children[p]) + 1
    ensures Height(t) <= Height(t.(children := t.children[q := c] - {p})) <= Height(t) + 1
  {
    var t' := t.(children := t.children[q := c] - {p});
    HeightsSwap(t, p, q, c);
    MaxOfSwap(Heights(t), p, q, Height(c));
    HeightUnfold(t);
    HeightUnfold(t');
  }

  /** The intermediate node of a split: the old child under its shortened prefix and a new leaf. */
  lemma IntermediateCounts<V>(common: string, child: Tree<V>, rest: string, restKey: string, v: V)
    requires rest != restKey && |child.prefix| == |common| + |rest|
    ensures var inter := Node(common, None, map[rest := child.(prefix := rest), restKey := Leaf(restKey, v)]);
      && Size(inter) == Size(child) + 2
      && TotalChars(inter) == TotalChars(child) + |restKey|
  {
    IntermediateSize(common, child, rest, restKey, v);
    IntermediateChars(common, child, rest, restKey, v);
  }

  lemma IntermediateSize<V>(common: string, child: Tree<V>, rest: string, restKey: string, v: V)
    requires rest != restKey
    ensures Size(Node(common, None, map[rest := child.(prefix := rest), restKey := Leaf(restKey, v)])) == Size(child) + 2
  {
    var inter := Node(common, None, map[rest := child.(prefix := rest), restKey := Leaf(restKey, v)]);
    ReprefixViews(child, rest);
    LeafViews(restKey, v);
    assert Sizes(inter) == map[rest := Size(child), restKey := 1];
    SumOfPair(rest, restKey, Size(child), 1);
  }

  lemma IntermediateChars<V>(common: string, child: Tree<V>, rest: string, restKey: string, v: V)
    requires rest != restKey && |child.prefix| == |common| + |rest|
    ensures TotalChars(Node(common, None, map[rest := child.(prefix := rest), restKey := Leaf(restKey, v)]))
      == TotalChars(child) + |restKey|
  {
    var moved := child.(prefix := rest);
    var inter := Node(common, None, map[rest := moved, restKey := Leaf(restKey, v)]);
    ReprefixViews(child, rest);
    LeafViews(restKey, v);
    assert Chars(inter) == map[rest := TotalChars(moved), restKey := |restKey|];
    SumOfPair(rest, restKey, TotalChars(moved), |restKey|);
  }

  lemma IntermediateHeight<V>(common: string, child: Tree<V>, rest: string, restKey: string, v: V)
    requires rest != restKey
    ensures Height(Node(common, None, map[rest := child.(prefix := rest), restKey := Leaf(restKey, v)]))
      == Height(child) + 1
  {
    var moved := child.(prefix := rest);
    var inter := Node(common, None, map[rest := moved, restKey := Leaf(restKey, v)]);
    ReprefixViews(child, rest);
    LeafViews(restKey, v);
    var hs := Heights(inter);
    assert hs.Keys == {rest, restKey};
    assert hs[rest] == Height(child);
    assert hs[restKey] == 1;
    MaxOfBounded(hs, Height(child));
    assert hs[rest] <= MaxOf(hs);
    HeightUnfold(inter);
  }

  /** Case 1: exactly one node, a leaf holding the whole key, is added. */
  lemma NewLeafViews<V>(t: Tree<V>, key: string, v: V)
    requires key != [] && MatchingChild(t.children, key).None?
    ensures Size(Insert(t, key, v)) == Size(t) + 1
    ensures TotalChars(Insert(t, key, v)) == TotalChars(t) + |key|
    ensures Height(t) <= Height(Insert(t, key, v)) <= Height(t) + 1
  {
    assert key !in t.children by { assert Lcp(key, key) != []; }
    LeafViews(key, v);
    AddChildViews(t, key, Leaf(key, v));
  }

  /** Case 2: no node is added and the snapshot and metrics do not change. */
  lemma OverwriteViews<V>(t: Tree<V>, key: string, v: V)
    requires key != [] && MatchingChild(t.children, key) == Some(key)
    ensures AsDict(Insert(t, key, v)) == AsDict(t) && Size(Insert(t, key, v)) == Size(t)
    ensures Height(Insert(t, key, v)) == Height(t) && TotalChars(Insert(t, key, v)) == TotalChars(t)
  {
    assert Lcp(key, key) == key by { LcpUnique(key, key, key); }
    assert ReachesExact(t, key);
    ExactInsertSameShape(t, key, v);
    SameShapeViews(Insert(t, key, v), t);
  }

  /** Case 4: the split adds the valueless intermediate node and the new leaf. */
  lemma SplitViews<V>(t: Tree<V>, key: string, v: V, p: string)
    requires WellFormed(t) && key != []
    requires MatchingChild(t.children, key) == Some(p) && Lcp(key, p) != p
    ensures Size(Insert(t, key, v)) == Size(t) + 2
    ensures TotalChars(Insert(t, key, v)) == TotalChars(t) + |key| - |Lcp(key, p)|
    ensures Height(t) <= Height(Insert(t, key, v)) <= Height(t) + 1
  {
    var common := Lcp(key, p);
    var child := t.children[p];
    var rest := p[|common|..];
    var restKey := key[|common|..];
    var inter := Node(common, None, map[rest := child.(prefix := rest), restKey := Leaf(restKey, v)]);
    assert Insert(t, key, v) == t.(children := t.children[common := inter] - {p});
    assert rest != restKey by {
      assert rest != [] && rest[0] == p[|common|];
      assert restKey == [] || restKey[0] != rest[0];
    }
    assert Lcp(common, p) != [];
    assert common !in t.children;
    IntermediateCounts(common, child, rest, restKey, v);
    IntermediateHeight(common, child, rest, restKey, v);
    SwapChildCounts(t, p, common, inter, 2, |restKey|);
    SwapChildHeight(t, p, common, inter);
  }

  /** Case 3: the insert below the matching child; the child's change carries over. */
  lemma {:induction false} DescendViews<V>(t: Tree<V>, key: string, v: V, p: string)
    requires WellFormed(t) && key != []
    requires MatchingChild(t.children, key) == Some(p) && Lcp(key, p) == p && p != key
    ensures Size(t) <= Size(Insert(t, key, v)) <= Size(t) + 2
    ensures TotalChars(t) <= TotalChars(Insert(t, key, v)) <= TotalChars(t) + |key|
    ensures Height(t) <= Height(Insert(t, key, v)) <= Height(t) + 1
    decreases t, 0
  {
    var child := t.children[p];
    var restKey := key[|p|..];
    var child' := Insert(child, restKey, v);
    assert Insert(t, key, v) == t.(children := t.children[p := child']);
    InsertViews(child, restKey, v);
    ReplaceChildCounts(t, p, child', Size(child') - Size(child), TotalChars(child') - TotalChars(child));
    ReplaceChildHeight(t, p, child');
  }

  /**
   * An insert adds at most two nodes (a split) and at most `|key|` characters, and makes the
   * tree at most one level higher; it never shrinks any of the three.
   */
  lemma {:induction false} InsertViews<V>(t: Tree<V>, key: string, v: V)
    requires WellFormed(t) && key != []
    ensures Size(t) <= Size(Insert(t, key, v)) <= Size(t) + 2
    ensures TotalChars(t) <= TotalChars(Insert(t, key, v)) <= TotalChars(t) + |key|
    ensures Height(t) <= Height(Insert(t, key, v)) <= Height(t) + 1
    decreases t, 1
  {
    match MatchingChild(t.children, key)
    case None =>
      NewLeafViews(t, key, v);
    case Some(p) =>
      var common := Lcp(key, p);
      if common == p && common == key {
        OverwriteViews(t, key, v);
      } else if common == p {
        DescendViews(t, key, v, p);
      } else {
        SplitViews(t, key, v, p);
      }
  }
}

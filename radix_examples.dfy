/**
 * The trees the repository's tests build (autocomplete/tests/test_radix.py), computed through
 * the modelled insert for any values, with their snapshots, metrics and completions.
 */
module RadixExamples {
  import opened Wrappers
  import opened Prefixes
  import opened Snapshots
  import opened MapFolds
  import opened RadixSpec
  import opened RadixViews
  import opened RadixCompletions
  import opened Keys
  import opened RadixLoad
  import opened RadixFixed

  const EmptyShape: Shape<string> := Shape(map[])

  // ---------------------------------------------------------------------------------------
  // One insert below a node with one or two children, for keys given as variables

  lemma NewBesideNone<V>(prefix: string, value: Option<V>, key: string, v: V)
    requires key != []
    ensures Insert(Node(prefix, value, map[]), key, v) == Node(prefix, value, map[key := Leaf(key, v)])
  {
    InsertNewCase(Node(prefix, value, map[]), key, v);
  }

  lemma NewBesideOne<V>(prefix: string, value: Option<V>, p: string, c: Tree<V>, key: string, v: V)
    requires key != [] && Lcp(key, p) == []
    ensures Insert(Node(prefix, value, map[p := c]), key, v) == Node(prefix, value, map[p := c, key := Leaf(key, v)])
  {
    var t := Node(prefix, value, map[p := c]);
    assert MatchingChild(t.children, key).None?;
    InsertNewCase(t, key, v);
  }

  lemma OverwriteOnly<V>(prefix: string, value: Option<V>, p: string, c: Tree<V>, v: V)
    requires p != []
    ensures Insert(Node(prefix, value, map[p := c]), p, v) == Node(prefix, value, map[p := c.(value := Some(v))])
  {
    var t := Node(prefix, value, map[p := c]);
    LcpUnique(p, p, p);
    MatchingChildUnique(t.children, p, p);
    InsertOverwriteCase(t, p, v);
  }

  lemma DescendOnly<V>(prefix: string, value: Option<V>, p: string, c: Tree<V>, key: string, v: V)
    requires key != [] && p != [] && Lcp(key, p) == p != key
    ensures key[|p|..] != []
    ensures Insert(Node(prefix, value, map[p := c]), key, v) == Node(prefix, value, map[p := Insert(c, key[|p|..], v)])
  {
    var t := Node(prefix, value, map[p := c]);
    MatchingChildUnique(t.children, key, p);
    InsertDescendCase(t, key, v, p);
  }

  /** The split of an only child `p` by `key`, sharing `common` with it. */
  lemma SplitOnly<V>(prefix: string, value: Option<V>, p: string, c: Tree<V>, key: string, v: V, common: string)
    requires key != [] && common == Lcp(key, p) != p && common != []
    ensures Insert(Node(prefix, value, map[p := c]), key, v)
      == Node(prefix, value, map[common := Node(common, None,
           map[p[|common|..] := c.(prefix := p[|common|..]), key[|common|..] := Leaf(key[|common|..], v)])])
  {
    var t := Node(prefix, value, map[p := c]);
    MatchingChildUnique(t.children, key, p);
    InsertSplitCase(t, key, v, p);
  }

  /** The split of the child `p` of a node whose other child `b` starts differently. */
  lemma SplitFirstOfTwo<V>(prefix: string, value: Option<V>, p: string, c: Tree<V>, b: string, cb: Tree<V>,
                           key: string, v: V, common: string)
    requires key != [] && b != [] && p != [] && p[0] != b[0]
    requires common == Lcp(key, p) != p && common != []
    ensures Insert(Node(prefix, value, map[p := c, b := cb]), key, v)
      == Node(prefix, value, map[common := Node(common, None,
           map[p[|common|..] := c.(prefix := p[|common|..]), key[|common|..] := Leaf(key[|common|..], v)]), b := cb])
  {
    var t := Node(prefix, value, map[p := c, b := cb]);
    assert PrefixFree(t.children) by { assert Lcp(p, b) == [] && Lcp(b, p) == []; }
    MatchingChildUnique(t.children, key, p);
    InsertSplitCase(t, key, v, p);
    assert common[0] == p[0] != b[0];
    assert t.children[common := Node(common, None,
           map[p[|common|..] := c.(prefix := p[|common|..]), key[|common|..] := Leaf(key[|common|..], v)])] - {p}
      == map[common := Node(common, None,
           map[p[|common|..] := c.(prefix := p[|common|..]), key[|common|..] := Leaf(key[|common|..], v)]), b := cb];
  }

  // ---------------------------------------------------------------------------------------
  // computer, then compute: a split whose new leaf has the empty prefix

  function ComputerOnly<V>(v1: V): Tree<V> {
    Node([], None, map["computer" := Leaf("computer", v1)])
  }

  function ComputerCompute<V>(v1: V, v2: V): Tree<V> {
    Node([], None, map["compute" := Node("compute", None, map["r" := Leaf("r", v1), "" := Leaf("", v2)])])
  }

  lemma ComputeComputerStrings()
    ensures Lcp("compute", "computer") == "compute"
    ensures "computer"[|"compute"|..] == "r" && "compute"[|"compute"|..] == ""
  {
    LcpUnique("compute", "computer", "compute");
  }

  lemma InsertComputerThenCompute<V>(v1: V, v2: V)
    ensures Insert(Insert(EmptyRoot(), "computer", v1), "compute", v2) == ComputerCompute(v1, v2)
  {
    NewBesideNone([], None, "computer", v1);
    ComputeComputerStrings();
    SplitOnly([], None, "computer", Leaf("computer", v1), "compute", v2, "compute");
  }

  lemma ComputerComputeSnapshot<V>(v1: V, v2: V)
    ensures AsDict(ComputerCompute(v1, v2)) == Shape(map["compute" := Shape(map["" := EmptyShape, "r" := EmptyShape])])
  {
    LeafViews("r", v1);
    LeafViews("", v2);
    var inner := ComputerCompute(v1, v2).children["compute"];
    assert AsDict(inner) == Shape(map["" := EmptyShape, "r" := EmptyShape]);
  }

  // ---------------------------------------------------------------------------------------
  // compute, then computer: the other order gives another shape

  function ComputeOnly<V>(v2: V): Tree<V> {
    Node([], None, map["compute" := Leaf("compute", v2)])
  }

  function ComputeComputer<V>(v1: V, v2: V): Tree<V> {
    Node([], None, map["compute" := Node("compute", Some(v2), map["r" := Leaf("r", v1)])])
  }

  lemma InsertComputeThenComputer<V>(v1: V, v2: V)
    ensures Insert(Insert(EmptyRoot(), "compute", v2), "computer", v1) == ComputeComputer(v1, v2)
  {
    NewBesideNone([], None, "compute", v2);
    ComputeComputerStrings();
    LcpSymmetric("compute", "computer");
    DescendOnly([], None, "compute", Leaf("compute", v2), "computer", v1);
    NewBesideNone("compute", Some(v2), "r", v1);
  }

  /** The shape depends on the insertion order: compare `ComputerComputeSnapshot`. */
  lemma InsertionOrderMatters<V>(v1: V, v2: V)
    ensures AsDict(ComputeComputer(v1, v2)) == Shape(map["compute" := Shape(map["r" := EmptyShape])])
    ensures AsDict(ComputeComputer(v1, v2)) != AsDict(ComputerCompute(v1, v2))
  {
    LeafViews("r", v1);
    var inner := ComputeComputer(v1, v2).children["compute"];
    assert AsDict(inner) == Shape(map["r" := EmptyShape]);
    ComputerComputeSnapshot(v1, v2);
    assert "" !in AsDict(inner).entries;
    assert "" in AsDict(ComputerCompute(v1, v2)).entries["compute"].entries;
  }

  /**
   * Inserting `compute` again after computer, compute sets the value on the intermediate
   * `compute` node; the empty-prefix leaf below it keeps the older value, so the tree now
   * stores two values under the same key.
   */
  lemma StaleValueAfterReinsert<V>(v1: V, v2: V, v3: V)
    ensures Insert(ComputerCompute(v1, v2), "compute", v3)
      == Node([], None, map["compute" := Node("compute", Some(v3), map["r" := Leaf("r", v1), "" := Leaf("", v2)])])
    ensures Stores(Insert(ComputerCompute(v1, v2), "compute", v3), "compute", v3)
    ensures Stores(Insert(ComputerCompute(v1, v2), "compute", v3), "compute", v2)
  {
    var inter := Node("compute", Some(v3), map["r" := Leaf("r", v1), "" := Leaf("", v2)]);
    OverwriteOnly([], None, "compute", ComputerCompute(v1, v2).children["compute"], v3);
    assert Holds(inter, "compute", v3);
    assert "compute"[|"compute"|..] == "";
    assert Holds(inter.children[""], "", v2);
    assert Holds(inter, "compute", v2);
  }

  /** The corrected insert on the same input: the value goes to the empty-prefix leaf. */
  lemma FixedReinsertTree<V>(v1: V, v2: V, v3: V)
    ensures InsertFixed(ComputerCompute(v1, v2), "compute", v3)
      == Node([], None, map["compute" := Node("compute", None, map["r" := Leaf("r", v1), "" := Leaf("", v3)])])
  {
    var t := ComputerCompute(v1, v2);
    LcpUnique("compute", "compute", "compute");
    MatchingChildUnique(t.children, "compute", "compute");
    var inter := t.children["compute"];
    assert inter.children[[] := inter.children[[]].(value := Some(v3))] == map["r" := Leaf("r", v1), "" := Leaf("", v3)];
  }

  lemma ComputerComputeWellFormed<V>(v1: V, v2: V)
    ensures WellFormed(ComputerCompute(v1, v2))
  {
    var t1 := Insert(EmptyRoot(), "computer", v1);
    InsertWellFormed(EmptyRoot(), "computer", v1);
    InsertWellFormed(t1, "compute", v2);
    InsertComputerThenCompute(v1, v2);
  }

  /** In the tree of computer, compute the node above the empty-prefix leaf holds no value. */
  lemma ComputerComputeValueInEmptyLeaf<V>(v1: V, v2: V)
    ensures ValueInEmptyLeaf(ComputerCompute(v1, v2))
  {
    var inter := ComputerCompute(v1, v2).children["compute"];
    assert ValueInEmptyLeaf(inter.children["r"]) && ValueInEmptyLeaf(inter.children[""]);
    assert ValueInEmptyLeaf(inter);
  }

  /** After the corrected insert, `compute` is stored with `v3` only, whatever `v2` was. */
  lemma FixedReinsertReplaces<V>(v1: V, v2: V, v3: V, w: V)
    ensures Stores(InsertFixed(ComputerCompute(v1, v2), "compute", v3), "compute", w) <==> w == v3
  {
    ComputerComputeWellFormed(v1, v2);
    ComputerComputeValueInEmptyLeaf(v1, v2);
    InsertFixedStores(ComputerCompute(v1, v2), "compute", v3, "compute", w);
  }

  // ---------------------------------------------------------------------------------------
  // computer, computing, compute (and screen): the tree of the key, height, size and
  // completion tests

  function ENode<V>(v1: V, v3: V): Tree<V> {
    Node("e", None, map["r" := Leaf("r", v1), "" := Leaf("", v3)])
  }

  function ComputNode<V>(v1: V, v2: V, v3: V): Tree<V> {
    Node("comput", None, map["e" := ENode(v1, v3), "ing" := Leaf("ing", v2)])
  }

  function ThreeKeys<V>(v1: V, v2: V, v3: V): Tree<V> {
    Node([], None, map["comput" := ComputNode(v1, v2, v3)])
  }

  function FourKeys<V>(v1: V, v2: V, v3: V, v4: V): Tree<V> {
    Node([], None, map["comput" := ComputNode(v1, v2, v3), "screen" := Leaf("screen", v4)])
  }

  function ComputerComputing<V>(v1: V, v2: V): Tree<V> {
    Node([], None, map["comput" := Node("comput", None, map["er" := Leaf("er", v1), "ing" := Leaf("ing", v2)])])
  }

  lemma ComputingStrings()
    ensures Lcp("computing", "computer") == "comput"
    ensures "computer"[|"comput"|..] == "er" && "computing"[|"comput"|..] == "ing"
    ensures Lcp("compute", "comput") == "comput" && "compute"[|"comput"|..] == "e"
    ensures Lcp("e", "er") == "e" && "er"[|"e"|..] == "r" && "e"[|"e"|..] == ""
  {
    LcpUnique("computing", "computer", "comput");
    LcpUnique("compute", "comput", "comput");
    LcpUnique("e", "er", "e");
  }

  lemma InsertComputing<V>(v1: V, v2: V)
    ensures Insert(ComputerOnly(v1), "computing", v2) == ComputerComputing(v1, v2)
  {
    ComputingStrings();
    SplitOnly([], None, "computer", Leaf("computer", v1), "computing", v2, "comput");
  }

  lemma InsertComputeIntoTwo<V>(v1: V, v2: V, v3: V)
    ensures Insert(ComputerComputing(v1, v2), "compute", v3) == ThreeKeys(v1, v2, v3)
  {
    ComputingStrings();
    var inter := ComputerComputing(v1, v2).children["comput"];
    DescendOnly([], None, "comput", inter, "compute", v3);
    SplitFirstOfTwo("comput", None, "er", Leaf("er", v1), "ing", Leaf("ing", v2), "e", v3, "e");
  }

  lemma BuildThreeKeys<V>(v1: V, v2: V, v3: V)
    ensures Insert(Insert(Insert(EmptyRoot(), "computer", v1), "computing", v2), "compute", v3)
      == ThreeKeys(v1, v2, v3)
  {
    NewBesideNone([], None, "computer", v1);
    InsertComputing(v1, v2);
    InsertComputeIntoTwo(v1, v2, v3);
  }

  lemma BuildFourKeys<V>(v1: V, v2: V, v3: V, v4: V)
    ensures Insert(ThreeKeys(v1, v2, v3), "screen", v4) == FourKeys(v1, v2, v3, v4)
  {
    assert Lcp("screen", "comput") == [];
    NewBesideOne([], None, "comput", ComputNode(v1, v2, v3), "screen", v4);
  }

  /** Loading the three test pairs in order builds the same tree. */
  lemma LoadThreeKeys<V>(v1: V, v2: V, v3: V)
    ensures InsertAll(EmptyRoot(), [(Str("computer"), v1), (Str("computing"), v2), (Str("compute"), v3)])
      == Success(ThreeKeys(v1, v2, v3))
  {
    var pairs := [(Str("computer"), v1), (Str("computing"), v2), (Str("compute"), v3)];
    BuildThreeKeys(v1, v2, v3);
    var t1 := Insert(EmptyRoot(), "computer", v1);
    var t2 := Insert(t1, "computing", v2);
    var rest1 := [(Str("computing"), v2), (Str("compute"), v3)];
    var rest2 := [(Str("compute"), v3)];
    assert pairs[1..] == rest1 && rest1[1..] == rest2 && rest2[1..] == [];
    assert InsertAll(t2, rest2) == Success(ThreeKeys(v1, v2, v3));
    assert InsertAll(t1, rest1) == InsertAll(t2, rest2);
    assert InsertAll(EmptyRoot(), pairs) == InsertAll(t1, rest1);
  }

  /** A first pair with the empty key, or with a key that is not a string, raises. */
  lemma LoadRejectsBadFirstKey<V>(v1: V, v2: V)
    ensures InsertAll(EmptyRoot(), [(Str(""), v1), (Str("computer"), v2)]) == Failure(EmptyKey)
    ensures InsertAll(EmptyRoot(), [(NotStr, v1), (Str("computer"), v2)]) == Failure(NotAString)
  {
  }

  /** The same pair twice: the second overwrites the value and the shape stays one leaf. */
  lemma LoadDuplicate<V>(v1: V, v2: V)
    ensures InsertAll(EmptyRoot(), [(Str("computer"), v1), (Str("computer"), v2)]) == Success(ComputerOnly(v2))
    ensures AsDict(ComputerOnly(v2)) == Shape(map["computer" := EmptyShape])
  {
    var pairs := [(Str("computer"), v1), (Str("computer"), v2)];
    NewBesideNone([], None, "computer", v1);
    OverwriteOnly([], None, "computer", Leaf("computer", v1), v2);
    assert Leaf("computer", v1).(value := Some(v2)) == Leaf("computer", v2);
    var rest := [(Str("computer"), v2)];
    assert pairs[1..] == rest && rest[1..] == [];
    assert InsertAll(ComputerOnly(v1), rest) == Success(ComputerOnly(v2));
    LeafViews("computer", v2);
  }

  /** The keys of the nodes of computer, computing, compute, read along their paths. */
  lemma ThreeKeysNodeKeys<V>(v1: V, v2: V, v3: V)
    ensures KeyAt(ThreeKeys(v1, v2, v3), []) == ""
    ensures KeyAt(ThreeKeys(v1, v2, v3), ["comput"]) == "comput"
    ensures KeyAt(ThreeKeys(v1, v2, v3), ["comput", "e"]) == "compute"
    ensures KeyAt(ThreeKeys(v1, v2, v3), ["comput", "ing"]) == "computing"
  {
    var t := ThreeKeys(v1, v2, v3);
    KeyAtChild(t, [], "comput");
    KeyAtChild(t, ["comput"], "e");
    KeyAtChild(t, ["comput"], "ing");
    assert [] + ["comput"] == ["comput"];
    assert ["comput"] + ["e"] == ["comput", "e"] && ["comput"] + ["ing"] == ["comput", "ing"];
    assert [] + "comput" == "comput" && "comput" + "e" == "compute" && "comput" + "ing" == "computing";
  }

  /** The metrics of a node with two children, from theirs. */
  lemma TwoChildSize<V>(prefix: string, value: Option<V>, a: string, ca: Tree<V>, b: string, cb: Tree<V>)
    requires a != b
    ensures Size(Node(prefix, value, map[a := ca, b := cb])) == 1 + Size(ca) + Size(cb)
  {
    var t := Node(prefix, value, map[a := ca, b := cb]);
    assert Sizes(t) == map[a := Size(ca)][b := Size(cb)];
    SumOfAdd(map[a := Size(ca)], b, Size(cb));
    SumOfAdd(map[], a, Size(ca));
    assert map[][a := Size(ca)] == map[a := Size(ca)];
  }

  lemma TwoChildChars<V>(prefix: string, value: Option<V>, a: string, ca: Tree<V>, b: string, cb: Tree<V>)
    requires a != b
    ensures TotalChars(Node(prefix, value, map[a := ca, b := cb])) == |prefix| + TotalChars(ca) + TotalChars(cb)
  {
    var t := Node(prefix, value, map[a := ca, b := cb]);
    assert Chars(t) == map[a := TotalChars(ca)][b := TotalChars(cb)];
    SumOfAdd(map[a := TotalChars(ca)], b, TotalChars(cb));
    SumOfAdd(map[], a, TotalChars(ca));
    assert map[][a := TotalChars(ca)] == map[a := TotalChars(ca)];
  }

  lemma TwoChildHeight<V>(prefix: string, value: Option<V>, a: string, ca: Tree<V>, b: string, cb: Tree<V>)
    requires a != b && Height(cb) <= Height(ca)
    ensures Height(Node(prefix, value, map[a := ca, b := cb])) == 1 + Height(ca)
  {
    var t := Node(prefix, value, map[a := ca, b := cb]);
    var hs := Heights(t);
    assert hs.Keys == {a, b} && hs[a] == Height(ca) && hs[b] == Height(cb);
    MaxOfBounded(hs, Height(ca));
    assert hs[a] <= MaxOf(hs);
    HeightUnfold(t);
  }

  lemma OneChildMetrics<V>(prefix: string, value: Option<V>, a: string, ca: Tree<V>)
    ensures Size(Node(prefix, value, map[a := ca])) == 1 + Size(ca)
    ensures TotalChars(Node(prefix, value, map[a := ca])) == |prefix| + TotalChars(ca)
    ensures Height(Node(prefix, value, map[a := ca])) == 1 + Height(ca)
  {
    var t := Node(prefix, value, map[a := ca]);
    SumOfAdd(map[], a, Size(ca));
    SumOfAdd(map[], a, TotalChars(ca));
    assert Sizes(t) == map[][a := Size(ca)];
    assert Chars(t) == map[][a := TotalChars(ca)];
    var hs := Heights(t);
    assert hs.Keys == {a} && hs[a] == Height(ca);
    MaxOfBounded(hs, Height(ca));
    HeightUnfold(t);
  }

  lemma ENodeMetrics<V>(v1: V, v3: V)
    ensures Size(ENode(v1, v3)) == 3 && TotalChars(ENode(v1, v3)) == 2 && Height(ENode(v1, v3)) == 2
  {
    LeafViews("r", v1);
    LeafViews("", v3);
    TwoChildSize("e", None, "r", Leaf("r", v1), "", Leaf("", v3));
    TwoChildChars("e", None, "r", Leaf("r", v1), "", Leaf("", v3));
    TwoChildHeight("e", None, "r", Leaf("r", v1), "", Leaf("", v3));
  }

  lemma ComputNodeMetrics<V>(v1: V, v2: V, v3: V)
    ensures Size(ComputNode(v1, v2, v3)) == 5 && TotalChars(ComputNode(v1, v2, v3)) == 11
    ensures Height(ComputNode(v1, v2, v3)) == 3
  {
    ENodeMetrics(v1, v3);
    LeafViews("ing", v2);
    TwoChildSize("comput", None, "e", ENode(v1, v3), "ing", Leaf("ing", v2));
    TwoChildChars("comput", None, "e", ENode(v1, v3), "ing", Leaf("ing", v2));
    TwoChildHeight("comput", None, "e", ENode(v1, v3), "ing", Leaf("ing", v2));
  }

  /** For computer, computing, compute: height 3 below the root, 6 nodes, 11 characters. */
  lemma ThreeKeysMetrics<V>(v1: V, v2: V, v3: V)
    ensures Height(ThreeKeys(v1, v2, v3)) - 1 == 3
    ensures Size(ThreeKeys(v1, v2, v3)) == 6 && TotalChars(ThreeKeys(v1, v2, v3)) == 11
  {
    ComputNodeMetrics(v1, v2, v3);
    OneChildMetrics([], None, "comput", ComputNode(v1, v2, v3));
  }

  lemma ThreeKeysSnapshot<V>(v1: V, v2: V, v3: V)
    ensures AsDict(ThreeKeys(v1, v2, v3))
      == Shape(map["comput" := Shape(map["e" := Shape(map["" := EmptyShape, "r" := EmptyShape]), "ing" := EmptyShape])])
  {
    LeafViews("r", v1);
    LeafViews("", v3);
    LeafViews("ing", v2);
    assert AsDict(ENode(v1, v3)) == Shape(map["" := EmptyShape, "r" := EmptyShape]);
    assert AsDict(ComputNode(v1, v2, v3)) == Shape(map["e" := AsDict(ENode(v1, v3)), "ing" := EmptyShape]);
  }

  // ---------------------------------------------------------------------------------------
  // Completions on computer, computing, compute, screen (test_radix.py:79-86)

  lemma FourKeysWellFormed<V>(v1: V, v2: V, v3: V, v4: V)
    ensures WellFormed(FourKeys(v1, v2, v3, v4))
  {
    var t1 := Insert(EmptyRoot(), "computer", v1);
    var t2 := Insert(t1, "computing", v2);
    InsertWellFormed(EmptyRoot(), "computer", v1);
    InsertWellFormed(t1, "computing", v2);
    InsertWellFormed(t2, "compute", v3);
    BuildThreeKeys(v1, v2, v3);
    InsertWellFormed(ThreeKeys(v1, v2, v3), "screen", v4);
    BuildFourKeys(v1, v2, v3, v4);
  }

  /** A query starting with `c` follows the `comput` child of the root. */
  lemma RootMatchesComput<V>(v1: V, v2: V, v3: V, v4: V, q: string)
    requires q != [] && q[0] == 'c'
    ensures MatchingChild(FourKeys(v1, v2, v3, v4).children, q) == Some("comput")
  {
    FourKeysWellFormed(v1, v2, v3, v4);
    assert Lcp(q, "comput") != [];
    MatchingChildUnique(FourKeys(v1, v2, v3, v4).children, q, "comput");
  }

  /** Below `comput`, a query starting with `e` follows the `e` child. */
  lemma ComputMatchesE<V>(v1: V, v2: V, v3: V, q: string)
    requires q != [] && q[0] == 'e'
    ensures MatchingChild(ComputNode(v1, v2, v3).children, q) == Some("e")
  {
    var c := ComputNode(v1, v2, v3);
    assert PrefixFree(c.children) by {
      assert Lcp("e", "ing") == [] && Lcp("ing", "e") == [];
    }
    assert Lcp(q, "e") != [];
    MatchingChildUnique(c.children, q, "e");
  }

  lemma ChildKeysOfTwo<V>(tkey: string, prefix: string, value: Option<V>, a: string, ca: Tree<V>, b: string, cb: Tree<V>)
    requires a != b && ca.prefix == a && cb.prefix == b
    ensures ChildKeys(tkey, Node(prefix, value, map[a := ca, b := cb])) == {tkey + a, tkey + b}
  {
    var t := Node(prefix, value, map[a := ca, b := cb]);
    assert tkey + a in ChildKeys(tkey, t) by { assert a in t.children; }
    assert tkey + b in ChildKeys(tkey, t) by { assert b in t.children; }
  }

  /** A query that covers `comput` continues below it, in both walks. */
  lemma RootStep<V>(v1: V, v2: V, v3: V, v4: V, q: string, rest: string)
    requires q == "comput" + rest
    ensures WellFormed(ComputNode(v1, v2, v3))
    ensures CompletionsChecked(FourKeys(v1, v2, v3, v4), q) == WalkChecked(ComputNode(v1, v2, v3), "comput", rest)
    ensures CompletionsAsWritten(FourKeys(v1, v2, v3, v4), q)
      == Finish(q, Descend(ComputNode(v1, v2, v3), "comput", rest).0, Descend(ComputNode(v1, v2, v3), "comput", rest).1)
  {
    FourKeysWellFormed(v1, v2, v3, v4);
    RootMatchesComput(v1, v2, v3, v4, q);
    LcpUnique(q, "comput", "comput");
    assert q[|"comput"|..] == rest;
    WalkStep(FourKeys(v1, v2, v3, v4), [], q, "comput");
    assert [] + "comput" == "comput";
  }

  /** Below `comput`, a query that covers `e` continues below it, in both walks. */
  lemma ComputStep<V>(v1: V, v2: V, v3: V, q: string, rest: string)
    requires WellFormed(ComputNode(v1, v2, v3)) && q == "e" + rest
    ensures WellFormed(ENode(v1, v3))
    ensures WalkChecked(ComputNode(v1, v2, v3), "comput", q) == WalkChecked(ENode(v1, v3), "compute", rest)
    ensures Descend(ComputNode(v1, v2, v3), "comput", q) == Descend(ENode(v1, v3), "compute", rest)
  {
    ComputMatchesE(v1, v2, v3, q);
    LcpUnique(q, "e", "e");
    assert q[|"e"|..] == rest;
    WalkStep(ComputNode(v1, v2, v3), "comput", q, "e");
    assert "comput" + "e" == "compute";
  }

  /** A node whose children are `e` and `ing` offers both of their keys. */
  lemma ComputKeys<V>(v1: V, v2: V, v3: V)
    ensures WalkChecked(ComputNode(v1, v2, v3), "comput", []) == {"compute", "computing"}
    ensures Descend(ComputNode(v1, v2, v3), "comput", []) == ("comput", ComputNode(v1, v2, v3))
  {
    ChildKeysOfTwo("comput", "comput", None, "e", ENode(v1, v3), "ing", Leaf("ing", v2));
    assert "comput" + "e" == "compute" && "comput" + "ing" == "computing";
    DescendEmpty(ComputNode(v1, v2, v3), "comput");
  }

  lemma EKeys<V>(v1: V, v3: V)
    ensures WalkChecked(ENode(v1, v3), "compute", []) == {"compute", "computer"}
  {
    ChildKeysOfTwo("compute", "e", None, "r", Leaf("r", v1), "", Leaf("", v3));
    assert "compute" + "r" == "computer" && "compute" + "" == "compute";
  }

  lemma CompletionsOfComp<V>(v1: V, v2: V, v3: V, v4: V)
    ensures CompletionsChecked(FourKeys(v1, v2, v3, v4), "comp") == {"comput"}
    ensures CompletionsAsWritten(FourKeys(v1, v2, v3, v4), "comp") == {"comput"}
  {
    var t := FourKeys(v1, v2, v3, v4);
    FourKeysWellFormed(v1, v2, v3, v4);
    RootMatchesComput(v1, v2, v3, v4, "comp");
    LcpUnique("comp", "comput", "comp");
    WalkStep(t, [], "comp", "comput");
    assert [] + "comput" == "comput";
    CorrectedAgreesWithSource(t, "comp");
  }

  lemma CompletionsOfComput<V>(v1: V, v2: V, v3: V, v4: V)
    ensures CompletionsChecked(FourKeys(v1, v2, v3, v4), "comput") == {"compute", "computing"}
    ensures CompletionsAsWritten(FourKeys(v1, v2, v3, v4), "comput") == {"compute", "computing"}
  {
    RootStep(v1, v2, v3, v4, "comput", []);
    ComputKeys(v1, v2, v3);
  }

  lemma CompletionsOfCompute<V>(v1: V, v2: V, v3: V, v4: V)
    ensures CompletionsChecked(FourKeys(v1, v2, v3, v4), "compute") == {"compute", "computer"}
    ensures CompletionsAsWritten(FourKeys(v1, v2, v3, v4), "compute") == {"compute", "computer"}
  {
    RootStep(v1, v2, v3, v4, "compute", "e");
    ComputStep(v1, v2, v3, "e", []);
    EKeys(v1, v3);
    DescendEmpty(ENode(v1, v3), "compute");
  }

  lemma CompletionsOfS<V>(v1: V, v2: V, v3: V, v4: V)
    ensures CompletionsChecked(FourKeys(v1, v2, v3, v4), "s") == {"screen"}
    ensures CompletionsAsWritten(FourKeys(v1, v2, v3, v4), "s") == {"screen"}
  {
    var t := FourKeys(v1, v2, v3, v4);
    FourKeysWellFormed(v1, v2, v3, v4);
    assert Lcp("s", "screen") != [];
    MatchingChildUnique(t.children, "s", "screen");
    LcpUnique("s", "screen", "s");
    WalkStep(t, [], "s", "screen");
    assert [] + "screen" == "screen";
    CorrectedAgreesWithSource(t, "s");
  }

  /** A leaf reached with the whole query consumed offers nothing, in both walks. */
  lemma LeafKeys<V>(key: string, prefix: string, v: V)
    ensures WalkChecked(Leaf(prefix, v), key, []) == {}
    ensures Descend(Leaf(prefix, v), key, []) == (key, Leaf(prefix, v))
    ensures Finish(key, key, Leaf(prefix, v)) == {}
  {
    DescendEmpty(Leaf(prefix, v), key);
  }

  lemma ComputToIng<V>(v1: V, v2: V, v3: V)
    requires WellFormed(ComputNode(v1, v2, v3))
    ensures WalkChecked(ComputNode(v1, v2, v3), "comput", "ing") == WalkChecked(Leaf("ing", v2), "computing", [])
    ensures Descend(ComputNode(v1, v2, v3), "comput", "ing") == Descend(Leaf("ing", v2), "computing", [])
  {
    var c := ComputNode(v1, v2, v3);
    assert PrefixFree(c.children) by {
      assert Lcp("e", "ing") == [] && Lcp("ing", "e") == [];
    }
    LcpUnique("ing", "ing", "ing");
    MatchingChildUnique(c.children, "ing", "ing");
    WalkStep(c, "comput", "ing", "ing");
    assert "comput" + "ing" == "computing" && "ing"[3..] == [];
  }

  /** A complete key at a leaf has no completions, in both walks. */
  lemma CompletionsOfComputing<V>(v1: V, v2: V, v3: V, v4: V)
    ensures CompletionsChecked(FourKeys(v1, v2, v3, v4), "computing") == {}
    ensures CompletionsAsWritten(FourKeys(v1, v2, v3, v4), "computing") == {}
  {
    RootStep(v1, v2, v3, v4, "computing", "ing");
    ComputToIng(v1, v2, v3);
    LeafKeys("computing", "ing", v2);
  }

  lemma EToR<V>(v1: V, v3: V)
    requires WellFormed(ENode(v1, v3))
    ensures WalkChecked(ENode(v1, v3), "compute", "r") == WalkChecked(Leaf("r", v1), "computer", [])
    ensures Descend(ENode(v1, v3), "compute", "r") == Descend(Leaf("r", v1), "computer", [])
  {
    var e := ENode(v1, v3);
    assert Lcp("r", "") == [];
    LcpUnique("r", "r", "r");
    MatchingChildUnique(e.children, "r", "r");
    WalkStep(e, "compute", "r", "r");
    assert "compute" + "r" == "computer" && "r"[1..] == [];
  }

  lemma CompletionsOfComputer<V>(v1: V, v2: V, v3: V, v4: V)
    ensures CompletionsChecked(FourKeys(v1, v2, v3, v4), "computer") == {}
    ensures CompletionsAsWritten(FourKeys(v1, v2, v3, v4), "computer") == {}
  {
    RootStep(v1, v2, v3, v4, "computer", "er");
    ComputStep(v1, v2, v3, "er", "r");
    EToR(v1, v3);
    LeafKeys("computer", "r", v1);
  }

  // ---------------------------------------------------------------------------------------
  // The source's walk on a query that leaves the tree part-way through a prefix

  /**
   * `compz` shares only `comp` with the `comput` child: the source still descends into it, and
   * since the query is shorter than `comput` it offers `comput`, which does not start with
   * `compz`. The corrected walk offers nothing.
   */
  lemma DivergingQueryCompletedAsWritten<V>(v1: V, v2: V, v3: V, v4: V)
    ensures CompletionsAsWritten(FourKeys(v1, v2, v3, v4), "compz") == {"comput"}
    ensures CompletionsChecked(FourKeys(v1, v2, v3, v4), "compz") == {}
    ensures !IsPrefix("compz", "comput")
  {
    CompzAtRoot(v1, v2, v3, v4);
    assert Lcp("z", "e") == [] && Lcp("z", "ing") == [];
    WalkStops(ComputNode(v1, v2, v3), "comput", "z");
    assert "compz"[4] != "comput"[4];
  }

  /** `compz` leaves the root for `comput` with `z` left over, and the corrected walk stops. */
  lemma CompzAtRoot<V>(v1: V, v2: V, v3: V, v4: V)
    ensures CompletionsChecked(FourKeys(v1, v2, v3, v4), "compz") == {}
    ensures CompletionsAsWritten(FourKeys(v1, v2, v3, v4), "compz")
      == Finish("compz", Descend(ComputNode(v1, v2, v3), "comput", "z").0, Descend(ComputNode(v1, v2, v3), "comput", "z").1)
  {
    assert "compz"[..4] == "comput"[..4] && "compz"[4..] == "z";
    RootDiverges(v1, v2, v3, v4, "compz", 4);
  }

  /** A query that leaves `comput` after `n` symbols. */
  lemma RootDiverges<V>(v1: V, v2: V, v3: V, v4: V, q: string, n: nat)
    requires 0 < n < 6 && n < |q| && q[..n] == "comput"[..n] && q[n] != "comput"[n]
    ensures CompletionsChecked(FourKeys(v1, v2, v3, v4), q) == {}
    ensures CompletionsAsWritten(FourKeys(v1, v2, v3, v4), q)
      == Finish(q, Descend(ComputNode(v1, v2, v3), "comput", q[n..]).0, Descend(ComputNode(v1, v2, v3), "comput", q[n..]).1)
  {
    var t := FourKeys(v1, v2, v3, v4);
    FourKeysWellFormed(v1, v2, v3, v4);
    RootMatchesComput(v1, v2, v3, v4, q);
    LcpUnique(q, "comput", q[..n]);
    WalkStep(t, [], q, "comput");
    assert [] + "comput" == "comput";
  }

  /**
   * `computa` covers `comput` but then matches no child of it: the source returns that node's
   * children's keys, neither of which starts with `computa`.
   */
  lemma DivergingQueryBelowNode<V>(v1: V, v2: V, v3: V, v4: V)
    ensures CompletionsAsWritten(FourKeys(v1, v2, v3, v4), "computa") == {"compute", "computing"}
    ensures CompletionsChecked(FourKeys(v1, v2, v3, v4), "computa") == {}
  {
    RootStep(v1, v2, v3, v4, "computa", "a");
    assert Lcp("a", "e") == [] && Lcp("a", "ing") == [];
    WalkStops(ComputNode(v1, v2, v3), "comput", "a");
    ComputKeys(v1, v2, v3);
  }
}

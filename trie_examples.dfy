/**
 * The trie the repository's test builds (autocomplete/tests/test_trie.py) from the keys
 * "trie", "tree" and "try", for any values, and its snapshot.
 */
module TrieExamples {
  import opened Wrappers
  import opened Snapshots
  import opened Keys
  import opened TrieSpec

  const EmptyShape: Shape<char> := Shape(map[])

  function Ending<V>(v: V): Trie<V> {
    TNode(Some(v), map[])
  }

  function One<V>(c: char, child: Trie<V>): Trie<V> {
    TNode(None, map[c := child])
  }

  /** The expected trie: t, r, then the branches i-e, e-e and y. */
  function TrieTreeTry<V>(v1: V, v2: V, v3: V): Trie<V> {
    One('t', One('r', TNode(None, map['i' := One('e', Ending(v1)), 'e' := One('e', Ending(v2)), 'y' := Ending(v3)])))
  }

  // ---------------------------------------------------------------------------------------
  // One insert step, for a key given as its first symbol and the rest

  lemma Step<V>(t: Trie<V>, c: char, rest: string, v: V)
    ensures Insert(t, [c] + rest, v)
      == t.(children := t.children[c := Insert(if c in t.children then t.children[c] else EmptyTrie(), rest, v)])
  {
    assert ([c] + rest)[0] == c && ([c] + rest)[1..] == rest;
  }

  lemma StepOne<V>(c: char, rest: string, v: V)
    ensures Insert(EmptyTrie(), [c] + rest, v) == One(c, Insert(EmptyTrie(), rest, v))
  {
    Step(EmptyTrie(), c, rest, v);
  }

  lemma StepBelowOne<V>(c: char, child: Trie<V>, rest: string, v: V)
    ensures Insert(One(c, child), [c] + rest, v) == One(c, Insert(child, rest, v))
  {
    Step(One(c, child), c, rest, v);
    assert map[c := child][c := Insert(child, rest, v)] == map[c := Insert(child, rest, v)];
  }

  lemma InsertTrie<V>(v1: V)
    ensures Insert(EmptyTrie(), "trie", v1) == One('t', One('r', One('i', One('e', Ending(v1)))))
  {
    assert "trie" == ['t'] + "rie" && "rie" == ['r'] + "ie" && "ie" == ['i'] + "e" && "e" == ['e'] + "";
    StepOne('e', "", v1);
    StepOne('i', "e", v1);
    StepOne('r', "ie", v1);
    StepOne('t', "rie", v1);
  }

  lemma InsertTree<V>(v1: V, v2: V)
    ensures Insert(One('t', One('r', One('i', One('e', Ending(v1))))), "tree", v2)
      == One('t', One('r', TNode(None, map['i' := One('e', Ending(v1)), 'e' := One('e', Ending(v2))])))
  {
    var ie := One('i', One('e', Ending(v1)));
    assert "tree" == ['t'] + "ree" && "ree" == ['r'] + "ee" && "ee" == ['e'] + "e" && "e" == ['e'] + "";
    StepOne('e', "", v2);
    assert Insert(EmptyTrie(), "e", v2) == One('e', Ending(v2));
    Step(ie, 'e', "e", v2);
    assert Insert(ie, "ee", v2) == TNode(None, map['i' := One('e', Ending(v1)), 'e' := One('e', Ending(v2))]);
    StepBelowOne('r', ie, "ee", v2);
    StepBelowOne('t', One('r', ie), "ree", v2);
  }

  lemma InsertTry<V>(v1: V, v2: V, v3: V)
    ensures Insert(One('t', One('r', TNode(None, map['i' := One('e', Ending(v1)), 'e' := One('e', Ending(v2))]))), "try", v3)
      == TrieTreeTry(v1, v2, v3)
  {
    var below := TNode(None, map['i' := One('e', Ending(v1)), 'e' := One('e', Ending(v2))]);
    assert "try" == ['t'] + "ry" && "ry" == ['r'] + "y" && "y" == ['y'] + "";
    Step(below, 'y', "", v3);
    assert Insert(below, "y", v3) == TNode(None, map['i' := One('e', Ending(v1)), 'e' := One('e', Ending(v2)), 'y' := Ending(v3)]);
    StepBelowOne('r', below, "y", v3);
    StepBelowOne('t', One('r', below), "ry", v3);
  }

  /** Loading the three test pairs in order builds the expected trie. */
  lemma LoadTrieTreeTry<V>(v1: V, v2: V, v3: V)
    ensures InsertAll(EmptyTrie(), [(Str("trie"), v1), (Str("tree"), v2), (Str("try"), v3)])
      == Success(TrieTreeTry(v1, v2, v3))
  {
    InsertTrie(v1);
    InsertTree(v1, v2);
    InsertTry(v1, v2, v3);
    var pairs := [(Str("trie"), v1), (Str("tree"), v2), (Str("try"), v3)];
    var t1 := Insert(EmptyTrie(), "trie", v1);
    var t2 := Insert(t1, "tree", v2);
    var rest1 := [(Str("tree"), v2), (Str("try"), v3)];
    var rest2 := [(Str("try"), v3)];
    assert pairs[1..] == rest1 && rest1[1..] == rest2 && rest2[1..] == [];
    assert InsertAll(t2, rest2) == Success(TrieTreeTry(v1, v2, v3));
    assert InsertAll(t1, rest1) == InsertAll(t2, rest2);
    assert InsertAll(EmptyTrie(), pairs) == InsertAll(t1, rest1);
  }

  // ---------------------------------------------------------------------------------------
  // Snapshots

  lemma OneSnapshot<V>(c: char, child: Trie<V>)
    ensures AsDict(One(c, child)) == Shape(map[c := AsDict(child)])
  {
  }

  lemma EndingSnapshot<V>(v: V)
    ensures AsDict(Ending(v)) == EmptyShape
  {
  }

  /** Adding a child adds its snapshot under its symbol. */
  lemma AddChildSnapshot<V>(m: map<char, Trie<V>>, c: char, child: Trie<V>)
    ensures AsDict(TNode(None, m[c := child])) == Shape(AsDict(TNode(None, m)).entries[c := AsDict(child)])
  {
    var l := AsDict(TNode(None, m[c := child])).entries;
    var r := AsDict(TNode(None, m)).entries[c := AsDict(child)];
    assert l.Keys == r.Keys;
    forall k | k in l
      ensures l[k] == r[k]
    {
    }
  }

  lemma BranchSnapshot<V>(ci: Trie<V>, ce: Trie<V>, cy: Trie<V>)
    ensures AsDict(TNode(None, map['i' := ci, 'e' := ce, 'y' := cy]))
      == Shape(map['i' := AsDict(ci), 'e' := AsDict(ce), 'y' := AsDict(cy)])
  {
    var m0: map<char, Trie<V>> := map[];
    var m1 := m0['i' := ci];
    var m2 := m1['e' := ce];
    assert AsDict(TNode(None, m0)).entries == map[];
    AddChildSnapshot(m0, 'i', ci);
    AddChildSnapshot(m1, 'e', ce);
    AddChildSnapshot(m2, 'y', cy);
    assert m2['y' := cy] == map['i' := ci, 'e' := ce, 'y' := cy];
  }

  /** Its snapshot is the nested dictionary the test expects. */
  lemma TrieTreeTrySnapshot<V>(v1: V, v2: V, v3: V)
    ensures AsDict(TrieTreeTry(v1, v2, v3))
      == Shape(map['t' := Shape(map['r' := Shape(map[
           'i' := Shape(map['e' := EmptyShape]),
           'e' := Shape(map['e' := EmptyShape]),
           'y' := EmptyShape])])])
  {
    EndingSnapshot(v1);
    EndingSnapshot(v2);
    EndingSnapshot(v3);
    OneSnapshot('e', Ending(v1));
    OneSnapshot('e', Ending(v2));
    BranchSnapshot(One('e', Ending(v1)), One('e', Ending(v2)), Ending(v3));
    var below := TNode(None, map['i' := One('e', Ending(v1)), 'e' := One('e', Ending(v2)), 'y' := Ending(v3)]);
    OneSnapshot('r', below);
    OneSnapshot('t', One('r', below));
  }
}

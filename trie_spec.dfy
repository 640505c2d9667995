/**
 * The uncompressed trie of autocomplete/trie.py as a value: one node per key symbol, each
 * edge labelled by a single symbol, a value on the node a key ends at.
 */
module TrieSpec {
  import opened Wrappers
  import opened Prefixes
  import opened Snapshots
  import opened Keys

  /** A trie node: its value (`None` when no key ends here) and its children by symbol. */
  datatype Trie<V> = TNode(value: Option<V>, children: map<char, Trie<V>>)

  function EmptyTrie<V>(): Trie<V> {
    TNode(None, map[])
  }

  /**
   * `TrieNode.insert(key, value)`: an empty key sets this node's value; otherwise the first
   * symbol selects the child (made when missing) that takes the rest of the key.
   */
  function Insert<V>(t: Trie<V>, key: string, v: V): (r: Trie<V>)
    ensures key == [] ==> r.value == Some(v) && r.children == t.children
    ensures key != [] ==> r.value == t.value && r.children.Keys == t.children.Keys + {key[0]}
    decreases |key|
  {
    if key == [] then t.(value := Some(v))
    else
      var child := if key[0] in t.children then t.children[key[0]] else EmptyTrie();
      t.(children := t.children[key[0] := Insert(child, key[1..], v)])
  }

  /** The value of the node at the end of the path `key`, `None` when there is no such node. */
  function Get<V>(t: Trie<V>, key: string): Option<V>
    decreases |key|
  {
    if key == [] then t.value
    else if key[0] in t.children then Get(t.children[key[0]], key[1..])
    else None
  }

  /** The paths from `t` to each of its nodes, `t` itself being the empty path. */
  ghost function Paths<V>(t: Trie<V>): set<string>
    decreases t
  {
    {[]} + set c, p | c in t.children && p in Paths(t.children[c]) :: [c] + p
  }

  /**
   * `as_dict`: one dictionary level per node, keyed by the children's symbols (the source's
   * one-symbol strings); values are dropped.
   */
  function AsDict<V>(t: Trie<V>): (r: Shape<char>)
    ensures r.entries.Keys == t.children.Keys
  {
    Shape(map c | c in t.children :: AsDict(t.children[c]))
  }

  // ---------------------------------------------------------------------------------------
  // The mapping contract

  /** Nothing is stored below an empty trie. */
  lemma {:induction false} GetEmpty<V>(key: string)
    ensures Get(EmptyTrie<V>(), key) == None
  {
  }

  /** After an insert `key` maps to `v` and every other key to what it mapped to before. */
  lemma {:induction false} InsertGet<V>(t: Trie<V>, key: string, v: V, q: string)
    ensures Get(Insert(t, key, v), q) == if q == key then Some(v) else Get(t, q)
    decreases |key|
  {
    if key != [] && q != [] {
      var child := if key[0] in t.children then t.children[key[0]] else EmptyTrie();
      if q[0] == key[0] {
        InsertGet(child, key[1..], v, q[1..]);
        if key[0] !in t.children {
          GetEmpty<V>(q[1..]);
        }
        assert q == key <==> q[1..] == key[1..] by {
          if q[1..] == key[1..] { assert q == [q[0]] + q[1..] && key == [key[0]] + key[1..]; }
        }
      }
    }
  }

  // ---------------------------------------------------------------------------------------
  // The nodes an insert adds

  /** A non-empty path goes through the child its first symbol names. */
  lemma PathsMember<V>(t: Trie<V>, p: string)
    ensures p in Paths(t) <==> p == [] || (p[0] in t.children && p[1..] in Paths(t.children[p[0]]))
  {
    if p != [] && p[0] in t.children && p[1..] in Paths(t.children[p[0]]) {
      assert p == [p[0]] + p[1..];
    }
  }

  /** Every leading part of a path is a path. */
  lemma {:induction false} PathsPrefixClosed<V>(t: Trie<V>, p: string, q: string)
    requires p in Paths(t) && IsPrefix(q, p)
    ensures q in Paths(t)
    decreases |p|
  {
    PathsMember(t, p);
    PathsMember(t, q);
    if q != [] {
      assert q[1..] == p[1..][..|q| - 1];
      PathsPrefixClosed(t.children[p[0]], p[1..], q[1..]);
    }
  }

  /**
   * An insert only adds nodes, and only along `key`: afterwards the paths are the old ones
   * and the leading parts of `key`.
   */
  lemma {:induction false} InsertPaths<V>(t: Trie<V>, key: string, v: V, p: string)
    ensures p in Paths(Insert(t, key, v)) <==> p in Paths(t) || IsPrefix(p, key)
    decreases |key|
  {
    var t' := Insert(t, key, v);
    PathsMember(t', p);
    PathsMember(t, p);
    if key != [] && p != [] {
      var child := if key[0] in t.children then t.children[key[0]] else EmptyTrie();
      if p[0] == key[0] {
        InsertPaths(child, key[1..], v, p[1..]);
        if key[0] !in t.children {
          PathsMember(EmptyTrie<V>(), p[1..]);
        }
        assert IsPrefix(p, key) <==> IsPrefix(p[1..], key[1..]) by {
          if IsPrefix(p[1..], key[1..]) { assert p == [p[0]] + p[1..] && key[..|p|] == [key[0]] + key[1..][..|p| - 1]; }
        }
      }
    }
  }

  /** The non-empty leading parts of `key`. */
  ghost function NonEmptyPrefixes(key: string): set<string> {
    set i | 1 <= i <= |key| :: key[..i]
  }

  lemma {:induction false} NonEmptyPrefixesCount(key: string)
    ensures |NonEmptyPrefixes(key)| <= |key|
    decreases |key|
  {
    if key != [] {
      var shorter := key[..|key| - 1];
      NonEmptyPrefixesCount(shorter);
      assert NonEmptyPrefixes(key) <= NonEmptyPrefixes(shorter) + {key} by {
        forall s | s in NonEmptyPrefixes(key)
          ensures s in NonEmptyPrefixes(shorter) + {key}
        {
          var i :| 1 <= i <= |key| && s == key[..i];
          if i < |key| {
            assert s == shorter[..i];
            assert 1 <= i <= |shorter|;
          } else {
            assert s == key;
          }
        }
      }
      SubsetCount(NonEmptyPrefixes(key), NonEmptyPrefixes(shorter) + {key});
    }
  }

  lemma SubsetCount(a: set<string>, b: set<string>)
    requires a <= b
    ensures |a| <= |b|
  {
    assert b == a + (b - a);
  }

  /** An insert adds at most one node per symbol of the key. */
  lemma InsertAddsAtMostKeyLength<V>(t: Trie<V>, key: string, v: V)
    ensures Paths(t) <= Paths(Insert(t, key, v))
    ensures |Paths(Insert(t, key, v)) - Paths(t)| <= |key|
  {
    var added := Paths(Insert(t, key, v)) - Paths(t);
    forall p | p in Paths(t)
      ensures p in Paths(Insert(t, key, v))
    {
      InsertPaths(t, key, v, p);
    }
    forall p | p in added
      ensures p in NonEmptyPrefixes(key)
    {
      InsertPaths(t, key, v, p);
      PathsMember(t, p);
      assert p == key[..|p|];
    }
    NonEmptyPrefixesCount(key);
    SubsetCount(added, NonEmptyPrefixes(key));
  }

  /** Inserting a key whose node is already there adds no node. */
  lemma ReinsertAddsNoNode<V>(t: Trie<V>, key: string, v: V)
    requires key in Paths(t)
    ensures Paths(Insert(t, key, v)) == Paths(t)
  {
    forall p
      ensures p in Paths(Insert(t, key, v)) <==> p in Paths(t)
    {
      InsertPaths(t, key, v, p);
      if IsPrefix(p, key) {
        PathsPrefixClosed(t, key, p);
      }
    }
  }

  // ---------------------------------------------------------------------------------------
  // Building a trie from key/value pairs (trie.py:3-10)

  /**
   * The pairs inserted into `t` one after the other, or the error of the first bad key:
   * loading fails exactly when some key is bad, and a load removes no child of the root.
   */
  function InsertAll<V>(t: Trie<V>, pairs: seq<(KeyInput, V)>): (r: Result<Trie<V>, KeyError>)
    ensures r.Failure? <==> FirstError(pairs).Some?
    ensures r.Failure? ==> r.error == FirstError(pairs).value
    ensures r.Success? ==> t.children.Keys <= r.value.children.Keys
    decreases |pairs|
  {
    if pairs == [] then Success(t)
    else match CheckKey(pairs[0].0)
      case Failure(e) => Failure(e)
      case Success(k) => InsertAll(Insert(t, k, pairs[0].1), pairs[1..])
  }

  /** After a successful load each key maps to the value of its last pair; other keys are kept. */
  lemma {:induction false} InsertAllGet<V>(t: Trie<V>, pairs: seq<(KeyInput, V)>, q: string)
    requires InsertAll(t, pairs).Success?
    ensures (forall j :: 0 <= j < |pairs| ==> pairs[j].0 != Str(q)) ==> Get(InsertAll(t, pairs).value, q) == Get(t, q)
    ensures forall i :: (0 <= i < |pairs| && pairs[i].0 == Str(q) && (forall j :: i < j < |pairs| ==> pairs[j].0 != Str(q)))
                        ==> Get(InsertAll(t, pairs).value, q) == Some(pairs[i].1)
    decreases |pairs|
  {
    if pairs != [] {
      var tail := pairs[1..];
      var t' := Insert(t, pairs[0].0.s, pairs[0].1);
      assert forall j :: 0 <= j < |tail| ==> tail[j] == pairs[j + 1];
      InsertAllGet(t', tail, q);
      InsertGet(t, pairs[0].0.s, pairs[0].1, q);
      forall i | 0 <= i < |pairs| && pairs[i].0 == Str(q) && (forall j :: i < j < |pairs| ==> pairs[j].0 != Str(q))
        ensures Get(InsertAll(t, pairs).value, q) == Some(pairs[i].1)
      {
        if i > 0 {
          assert tail[i - 1] == pairs[i];
          assert forall j :: i - 1 < j < |tail| ==> tail[j].0 != Str(q);
        } else {
          assert forall j :: 0 <= j < |tail| ==> tail[j].0 != Str(q);
        }
      }
    }
  }
}

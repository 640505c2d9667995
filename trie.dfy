/**
 * `Trie` and `TrieNode` of autocomplete/trie.py as heap objects. Each node carries, as ghost
 * state, the trie value it stands for (`Model`, a `TrieSpec.Trie`) and the objects it is made
 * of (`Repr`); the methods are proved against the functions of `TrieSpec`.
 */
module Autocomplete {
  import opened Wrappers
  import opened Snapshots
  import opened Keys
  import TrieSpec

  class TrieNode<V> {
    var children: map<char, TrieNode<V>>
    var value: Option<V>

    ghost var Model: TrieSpec.Trie<V>
    ghost var Repr: set<TrieNode<V>>

    /**
     * The node agrees with its model, every child stands for the model's child under the same
     * symbol, and the children's footprints are disjoint and exclude this node.
     */
    ghost predicate Valid()
      reads this, Repr
      decreases Repr
    {
      && this in Repr
      && Model.value == value
      && Model.children.Keys == children.Keys
      && (forall c :: c in children ==>
            && children[c] in Repr
            && children[c].Repr <= Repr
            && this !in children[c].Repr
            && children[c].Valid()
            && children[c].Model == Model.children[c])
      && (forall b, c :: b in children && c in children && b != c ==> children[b].Repr !! children[c].Repr)
    }

    /** A node with no children and no value. */
    constructor ()
      ensures Valid() && fresh(Repr) && Repr == {this}
      ensures Model == TrieSpec.EmptyTrie() && children == map[] && value == None
    {
      children := map[];
      value := None;
      Model := TrieSpec.EmptyTrie();
      Repr := {this};
    }

    /**
     * `insert`: an empty key sets this node's value; otherwise the child for the first symbol
     * (added first when missing) takes the rest of the key.
     */
    method Insert(key: string, v: V)
      requires Valid()
      modifies Repr
      ensures Valid() && Model == TrieSpec.Insert(old(Model), key, v)
      ensures fresh(Repr - old(Repr))
      decreases |key|, 1
    {
      if |key| == 0 {
        SetValue(v);
        return;
      }
      var prefix, suffix := key[0], key[1..];
      if prefix in children {
        InsertBelow(prefix, suffix, v);
        return;
      }
      AddEmptyChild(prefix);
      InsertBelow(prefix, suffix, v);
      assert Model.children == old(Model).children[prefix := TrieSpec.Insert(TrieSpec.EmptyTrie(), suffix, v)];
    }

    /** An empty key: the value lands on this node. */
    method SetValue(v: V)
      requires Valid()
      modifies this
      ensures Valid() && Model == old(Model).(value := Some(v)) && Repr == old(Repr)
    {
      value, Model := Some(v), Model.(value := Some(v));
    }

    /** A new node with no value and no children under the symbol `c`. */
    method AddEmptyChild(c: char)
      requires Valid() && c !in children
      modifies this
      ensures Valid() && Model == old(Model).(children := old(Model).children[c := TrieSpec.EmptyTrie()])
      ensures c in children && fresh(Repr - old(Repr))
    {
      var child := new TrieNode();
      children, Repr, Model := children[c := child], Repr + child.Repr, Model.(children := Model.children[c := child.Model]);
      ChildAdded(c);
    }

    /** The rest of the key goes below the child under its first symbol `c`. */
    method InsertBelow(c: char, suffix: string, v: V)
      requires Valid() && c in children
      modifies Repr
      ensures Valid()
      ensures Model == old(Model).(children := old(Model).children[c := TrieSpec.Insert(old(Model).children[c], suffix, v)])
      ensures fresh(Repr - old(Repr))
      decreases |suffix| + 1, 0
    {
      var child := children[c];
      child.Insert(suffix, v);
      Repr, Model := Repr + child.Repr, Model.(children := Model.children[c := child.Model]);
      ChildChanged(c);
    }

    /** `as_dict`: the children's snapshots under their symbols, read from the child objects. */
    function AsDict(): (r: Shape<char>)
      reads this, Repr
      requires Valid()
      ensures r == TrieSpec.AsDict(Model)
      decreases Repr
    {
      var m := map c | c in children :: children[c].AsDict();
      assert m == TrieSpec.AsDict(Model).entries;
      Shape(m)
    }

    /** A valid node none of whose objects changed is still valid. */
    twostate lemma StillValid()
      requires old(Valid()) && unchanged(this) && unchanged(old(Repr))
      ensures Valid()
    {
    }

    /** A new child under `k`, made of new objects, leaves this node valid. */
    twostate lemma ChildAdded(k: char)
      requires old(Valid()) && k !in old(children) && k in children
      requires children == old(children)[k := children[k]] && value == old(value)
      requires unchanged(old(Repr) - {this})
      requires children[k].Valid() && children[k].Repr !! old(Repr)
      requires Repr == old(Repr) + children[k].Repr
      requires Model == old(Model).(children := old(Model).children[k := children[k].Model])
      ensures Valid()
    {
      AddedSiblingsKept(k);
    }

    twostate lemma AddedSiblingsKept(k: char)
      requires old(Valid()) && k !in old(children) && k in children
      requires children == old(children)[k := children[k]] && value == old(value)
      requires unchanged(old(Repr) - {this})
      requires children[k].Valid() && children[k].Repr !! old(Repr)
      requires Repr == old(Repr) + children[k].Repr
      requires Model == old(Model).(children := old(Model).children[k := children[k].Model])
      ensures forall j :: j in children && j != k ==>
        && children[j] in Repr
        && children[j].Repr <= Repr
        && this !in children[j].Repr
        && children[j].Valid()
        && children[j].Model == Model.children[j]
    {
      forall j | j in children && j != k
        ensures children[j] in Repr && children[j].Repr <= Repr && this !in children[j].Repr
        ensures children[j].Valid() && children[j].Model == Model.children[j]
      {
        var c := children[j];
        assert c == old(children[j]) && c in old(Repr) && c != this;
        c.StillValid();
      }
    }

    /**
     * When only the objects of the child under `k` changed (and new objects joined it), this
     * node is valid again once its footprint takes in the child's and its model the child's.
     */
    twostate lemma ChildChanged(k: char)
      requires old(Valid()) && k in old(children)
      requires children == old(children) && value == old(value)
      requires unchanged(old(Repr) - old(children[k].Repr) - {this})
      requires children[k].Valid()
      requires fresh(children[k].Repr - old(children[k].Repr))
      requires Repr == old(Repr) + children[k].Repr
      requires Model == old(Model).(children := old(Model).children[k := children[k].Model])
      ensures Valid()
    {
      ChangedSiblingsKept(k);
      ChangedDisjoint(k);
    }

    twostate lemma ChangedDisjoint(k: char)
      requires old(Valid()) && k in old(children)
      requires children == old(children) && value == old(value)
      requires unchanged(old(Repr) - old(children[k].Repr) - {this})
      requires children[k].Valid()
      requires fresh(children[k].Repr - old(children[k].Repr))
      requires Repr == old(Repr) + children[k].Repr
      requires Model == old(Model).(children := old(Model).children[k := children[k].Model])
      ensures forall i, j :: i in children && j in children && i != j ==> children[i].Repr !! children[j].Repr
    {
      ChangedSiblingsKept(k);
    }

    twostate lemma ChangedSiblingsKept(k: char)
      requires old(Valid()) && k in old(children)
      requires children == old(children) && value == old(value)
      requires unchanged(old(Repr) - old(children[k].Repr) - {this})
      requires children[k].Valid()
      requires fresh(children[k].Repr - old(children[k].Repr))
      requires Repr == old(Repr) + children[k].Repr
      requires Model == old(Model).(children := old(Model).children[k := children[k].Model])
      ensures forall j :: j in children && j != k ==>
        && children[j] in Repr
        && children[j].Repr <= Repr
        && this !in children[j].Repr
        && children[j].Valid()
        && children[j].Model == Model.children[j]
        && children[j].Repr == old(children[j].Repr)
    {
      forall j | j in children && j != k
        ensures children[j] in Repr && children[j].Repr <= Repr && this !in children[j].Repr
        ensures children[j].Valid() && children[j].Model == Model.children[j]
        ensures children[j].Repr == old(children[j].Repr)
      {
        var c := children[j];
        assert c in old(Repr) && c !in old(children[k].Repr) && c != this;
        assert old(c.Repr) !! old(children[k].Repr);
        c.StillValid();
      }
    }
  }

  /** `Trie`: a root node below which the checked keys are inserted. */
  class Trie<V> {
    var root: TrieNode<V>

    ghost predicate Valid()
      reads this, root, root.Repr
    {
      root.Valid()
    }

    /** A trie with nothing in it. */
    constructor Empty()
      ensures Valid() && fresh(root.Repr)
      ensures root.Model == TrieSpec.EmptyTrie()
    {
      root := new TrieNode();
    }

    /**
     * `__init__`: each key is checked and then inserted below the root, in order; the first
     * bad key raises, and then no trie is returned.
     */
    static method New(pairs: seq<(KeyInput, V)>) returns (r: Result<Trie<V>, KeyError>)
      ensures r.Failure? ==> TrieSpec.InsertAll(TrieSpec.EmptyTrie(), pairs) == Failure(r.error)
      ensures r.Success? ==>
        && fresh(r.value) && fresh(r.value.root.Repr) && r.value.Valid()
        && TrieSpec.InsertAll(TrieSpec.EmptyTrie(), pairs) == Success(r.value.root.Model)
    {
      var t := new Trie.Empty();
      var i := 0;
      while i < |pairs|
        invariant 0 <= i <= |pairs|
        invariant fresh(t) && fresh(t.root.Repr) && t.Valid()
        invariant TrieSpec.InsertAll(TrieSpec.EmptyTrie(), pairs) == TrieSpec.InsertAll(t.root.Model, pairs[i..])
      {
        assert pairs[i..][1..] == pairs[i + 1..];
        var (key, value) := pairs[i];
        var checked := CheckKey(key);
        if checked.Failure? {
          return Failure(checked.error);
        }
        t.root.Insert(checked.value, value);
        i := i + 1;
      }
      return Success(t);
    }

    /** `as_dict`: the root's snapshot. */
    function AsDict(): (r: Shape<char>)
      reads this, root, root.Repr
      requires Valid()
      ensures r == TrieSpec.AsDict(root.Model)
      ensures r.entries.Keys == root.children.Keys
    {
      root.AsDict()
    }
  }
}

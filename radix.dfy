/**
 * `RadixNode` and `RadixTree` of patrix/radix.py as heap objects whose methods update their
 * fields in place. Each node carries, as ghost state, the value it represents (`Model`, a
 * `RadixSpec.Tree`) and the objects it is made of (`Repr`); the methods are proved against the
 * functions of `RadixSpec`, `RadixViews` and `RadixCompletions`.
 */
module Radix {
  import opened Wrappers
  import opened Prefixes
  import opened Snapshots
  import opened RadixSpec
  import opened RadixViews
  import opened RadixCompletions
  import opened MapFolds
  import opened Keys
  import opened RadixLoad

  class RadixNode<V> {
    var prefix: string
    var value: Option<V>
    var children: map<string, RadixNode<V>>
    var parent: RadixNode?<V>

    ghost var Model: Tree<V>
    ghost var Repr: set<RadixNode<V>>

    /**
     * The node agrees with its model, every child is owned by this node (its `parent` is this
     * node) and stands for the model's child under the same key, and the children's footprints
     * are disjoint and exclude this node.
     */
    ghost predicate Valid()
      reads this, Repr
      decreases Repr
    {
      && this in Repr
      && Model.prefix == prefix && Model.value == value
      && Model.children.Keys == children.Keys
      && (forall k :: k in children ==>
            && children[k] in Repr
            && children[k].Repr <= Repr
            && this !in children[k].Repr
            && children[k].parent == this
            && children[k].Valid()
            && children[k].Model == Model.children[k])
      && (forall j, k :: j in children && k in children && j != k ==> children[j].Repr !! children[k].Repr)
    }

    constructor (prefix: string, value: Option<V>, parent: RadixNode?<V>)
      ensures Valid() && fresh(Repr) && Repr == {this}
      ensures Model == Node(prefix, value, map[])
      ensures this.prefix == prefix && this.value == value && this.parent == parent
      ensures children == map[]
    {
      this.prefix := prefix;
      this.value := value;
      this.parent := parent;
      children := map[];
      Model := Node(prefix, value, map[]);
      Repr := {this};
    }

    /**
     * `_find_common_prefix_child`: a child whose prefix shares a non-empty leading run with
     * `key`, that run and the child's key; `("", "", null)` when there is none.
     */
    method FindCommonPrefixChild(key: string) returns (common: string, existing: string, child: RadixNode?<V>)
      // The method changes nothing; this clause only carries validity across the call for
      // the verifier, as a method that allocates nothing leaves `Valid()` as it was.
      ensures old(Valid()) ==> Valid()
      ensures child == null ==> common == [] && existing == [] && forall p :: p in children ==> Lcp(key, p) == []
      ensures child != null ==>
        && existing in children && child == children[existing]
        && common == Lcp(key, existing) && common != []
    {
      var remaining := children.Keys;
      while remaining != {}
        invariant remaining <= children.Keys
        invariant forall p :: p in children && p !in remaining ==> Lcp(key, p) == []
        decreases |remaining|
      {
        var p :| p in remaining;
        var c := CommonLongestPrefix(key, p);
        if |c| > 0 {
          if old(Valid()) {
            StillValid();
          }
          return c, p, children[p];
        }
        remaining := remaining - {p};
      }
      if old(Valid()) {
        StillValid();
      }
      return [], [], null;
    }

    /**
     * `insert`: places `key` below this node by the four cases of `RadixSpec.Insert`, updating
     * the children dictionaries, and in a split the moved child's prefix and parent, in place.
     */
    method Insert(key: string, v: V)
      requires Valid() && WellFormed(Model) && key != []
      modifies Repr
      ensures Valid() && WellFormed(Model)
      ensures Model == RadixSpec.Insert(old(Model), key, v)
      ensures fresh(Repr - old(Repr))
      ensures parent == old(parent)
      decreases Repr, 1
    {
      InsertWellFormed(Model, key, v);
      var common, existing, existingChild := FindCommonPrefixChild(key);
      if existingChild == null {
        InsertNewCase(Model, key, v);
        AddLeaf(key, v);
        return;
      }
      MatchingChildUnique(Model.children, key, existing);
      if common == existing && existing == key {
        InsertOverwriteCase(Model, key, v);
        SetChildValue(existing, v);
      } else if common == existing {
        InsertDescendCase(Model, key, v, existing);
        InsertBelow(existing, key[|common|..], v);
      } else {
        InsertSplitCase(Model, key, v, existing);
        Split(common, existing, existing[|common|..], key[|common|..], v);
      }
    }

    /** Case 1 of `insert`: a new leaf for the whole key. */
    method AddLeaf(key: string, v: V)
      requires Valid() && key !in children
      modifies this
      ensures Valid() && Model == old(Model).(children := old(Model).children[key := Leaf(key, v)])
      ensures fresh(Repr - old(Repr)) && parent == old(parent)
    {
      var leaf := new RadixNode(key, Some(v), this);
      children, Repr, Model := children[key := leaf], Repr + leaf.Repr, Model.(children := Model.children[key := leaf.Model]);
      ChildAdded(key);
    }

    /** Case 2 of `insert`: the key is exactly a child's prefix, whose value is overwritten. */
    method SetChildValue(existing: string, v: V)
      requires Valid() && existing in children
      modifies Repr
      ensures Valid()
      ensures Model == old(Model).(children := old(Model).children[existing := old(Model).children[existing].(value := Some(v))])
      ensures Repr == old(Repr) && parent == old(parent)
    {
      var existingChild := children[existing];
      existingChild.SetValue(v);
      Model := Model.(children := Model.children[existing := existingChild.Model]);
      ChildChanged(existing);
    }

    /** Sets this node's value, as case 2 of `insert` does on the matched child. */
    method SetValue(v: V)
      requires Valid()
      modifies this
      ensures Valid() && Model == old(Model).(value := Some(v))
      ensures Repr == old(Repr) && parent == old(parent)
    {
      value, Model := Some(v), Model.(value := Some(v));
    }

    /** Case 3 of `insert`: a child's whole prefix starts the key; the rest goes below it. */
    method InsertBelow(existing: string, remainingKey: string, v: V)
      requires Valid() && existing in children && WellFormed(Model.children[existing]) && remainingKey != []
      modifies Repr
      ensures Valid()
      ensures Model == old(Model).(children := old(Model).children[existing :=
        RadixSpec.Insert(old(Model).children[existing], remainingKey, v)])
      ensures fresh(Repr - old(Repr)) && parent == old(parent)
      decreases Repr, 0
    {
      var existingChild := children[existing];
      existingChild.Insert(remainingKey, v);
      Repr, Model := Repr + existingChild.Repr, Model.(children := Model.children[existing := existingChild.Model]);
      ChildChanged(existing);
    }

    /**
     * Case 4 of `insert`: a valueless node for the common run `common` takes the place of the
     * child under `existing`, which moves below it under `rest`, next to a new leaf for the
     * rest of the key, `restKey`.
     */
    method Split(common: string, existing: string, rest: string, restKey: string, v: V)
      requires Valid() && existing in children && common !in children && rest != restKey
      modifies Repr
      ensures Valid()
      ensures Model == old(Model).(children := old(Model).children[common :=
        Node(common, None, map[rest := old(Model).children[existing].(prefix := rest),
                               restKey := Leaf(restKey, v)])] - {existing})
      ensures fresh(Repr - old(Repr)) && parent == old(parent)
    {
      var existingChild := children[existing];
      var intermediate := new RadixNode(common, None, this);
      intermediate.AdoptSplit(existingChild, rest, restKey, v);
      Replace(existing, common, intermediate);
      ChildSwapped((existing, common));
    }

    /**
     * Case 4 of `insert`, below the new intermediate node (this one): it takes the matched
     * child under the rest of the child's prefix and a new leaf for the rest of the key.
     */
    method AdoptSplit(child: RadixNode<V>, rest: string, restKey: string, v: V)
      requires Valid() && children == map[] && Repr == {this}
      requires child.Valid() && this !in child.Repr && rest != restKey
      modifies this, child
      ensures Valid()
      ensures Model == old(Model).(children := map[rest := old(child.Model).(prefix := rest), restKey := Leaf(restKey, v)])
      ensures fresh(Repr - {this} - old(child.Repr)) && old(child.Repr) <= Repr
      ensures parent == old(parent) && child.parent == this
    {
      child.Rekey(rest, this);
      var leaf := new RadixNode(restKey, Some(v), this);
      children, Repr, Model := map[rest := child, restKey := leaf], Repr + child.Repr + leaf.Repr,
        Model.(children := map[rest := child.Model, restKey := leaf.Model]);
    }

    /** Moves this node below `newParent` under the shorter prefix `rest`, as case 4 of `insert` does. */
    method Rekey(rest: string, newParent: RadixNode<V>)
      requires Valid()
      modifies this
      ensures Valid() && Model == old(Model).(prefix := rest)
      ensures Repr == old(Repr) && parent == newParent
    {
      prefix, parent, Model := rest, newParent, Model.(prefix := rest);
      forall k | k in children ensures children[k].Valid() {
        children[k].StillValid();
      }
    }

    /** The dictionary step of case 4: `node` comes in under `common` and the child under `existing` goes. */
    method Replace(existing: string, common: string, node: RadixNode<V>)
      requires node.Valid() && this !in node.Repr
      modifies this
      ensures node.Valid()
      ensures children == old(children)[common := node] - {existing}
      ensures Repr == old(Repr) + node.Repr
      ensures Model == old(Model).(children := old(Model).children[common := node.Model] - {existing})
      ensures prefix == old(prefix) && value == old(value) && parent == old(parent)
    {
      children, Repr, Model := children[common := node] - {existing}, Repr + node.Repr,
        Model.(children := Model.children[common := node.Model] - {existing});
      node.StillValid();
    }

    /** What a valid, well-formed node knows of the child under `k`. */
    lemma ChildFacts(k: string)
      requires Valid() && WellFormed(Model) && k in children
      ensures children[k].Valid() && WellFormed(children[k].Model)
      ensures children[k].Model == Model.children[k] && children[k].prefix == k
      ensures children[k].Repr < Repr
    {
      assert this in Repr - children[k].Repr;
    }

    /** The keys of this node's children, this node's key being `nodeKey`. */
    function KeysBelow(nodeKey: string): (r: set<string>)
      reads this, Repr
      requires Valid()
      ensures r == ChildKeys(nodeKey, Model)
    {
      assert forall k :: k in children ==> children[k].Valid() && children[k].Model == Model.children[k];
      set k | k in children :: nodeKey + children[k].prefix
    }

    /** `as_dict`: the children's snapshots under their keys, read from the child objects. */
    function AsDict(): (r: Shape<string>)
      reads this, Repr
      requires Valid()
      ensures r == RadixViews.AsDict(Model)
      decreases Repr
    {
      var m := map k | k in children :: children[k].AsDict();
      assert m == RadixViews.AsDict(Model).entries;
      Shape(m)
    }

    /** `height`: 1 for a node without children, else one more than the highest child object. */
    ghost function Height(): (h: nat)
      reads this, Repr
      requires Valid()
      ensures h == RadixViews.Height(Model)
      decreases Repr
    {
      var m := map k | k in children :: children[k].Height();
      assert m == Heights(Model);
      if children == map[] then 1 else 1 + MaxOf(m)
    }

    /** `size`: this node and the sizes of the child objects. */
    ghost function Size(): (n: nat)
      reads this, Repr
      requires Valid()
      ensures n == RadixViews.Size(Model)
      decreases Repr
    {
      var m := map k | k in children :: children[k].Size();
      assert m == Sizes(Model);
      1 + SumOf(m)
    }

    /** `total_chars`: this node's prefix length and the totals of the child objects. */
    ghost function TotalChars(): (n: nat)
      reads this, Repr
      requires Valid()
      ensures n == RadixViews.TotalChars(Model)
      decreases Repr
    {
      var m := map k | k in children :: children[k].TotalChars();
      assert m == Chars(Model);
      |prefix| + SumOf(m)
    }

    /**
     * `siblings`: the parent's children, this node among them. Below a valid parent they
     * stand for the children of the parent's model, and each is owned by that parent.
     */
    function Siblings(): (r: map<string, RadixNode<V>>)
      reads this, parent, if parent == null then {} else parent.Repr
      requires parent != null
      ensures parent.Valid() ==> r.Keys == parent.Model.children.Keys
      ensures parent.Valid() ==> forall j :: j in r ==> r[j].parent == parent
    {
      parent.children
    }

    /**
     * In a valid tree a child's siblings are exactly the children of its parent: they include
     * the child under its own key, and all of them have the same parent.
     */
    static lemma SiblingsIncludeSelf(p: RadixNode<V>, k: string)
      requires p.Valid() && k in p.children
      ensures p.children[k].parent == p
      ensures k in p.children[k].Siblings() && p.children[k].Siblings()[k] == p.children[k]
      ensures forall j :: j in p.children[k].Siblings() ==> p.children[k].Siblings()[j].parent == p
    {
    }

    /**
     * `completions` as written, on the root: the loop keeps the last node reached, its key and
     * what is left of the query, and stops at a node with no matching child. The last node's
     * key is carried along the walk rather than rebuilt from the parent links.
     */
    method Completions(key: string) returns (r: set<string>)
      requires Valid() && WellFormed(Model) && parent == null
      ensures r == CompletionsAsWritten(Model, key)
    {
      var common, existing, node := FindCommonPrefixChild(key);
      if node == null {
        return {};
      }
      MatchingChildUnique(Model.children, key, existing);
      ghost var target := Descend(Model, prefix, key);
      var query := key;
      var last: RadixNode<V> := this;
      var lastKey := prefix;
      while node != null
        invariant last.Valid() && WellFormed(last.Model)
        invariant node != null ==>
          && existing in last.children && node == last.children[existing]
          && common == Lcp(query, existing) && MatchingChild(last.Model.children, query) == Some(existing)
        invariant node == null ==> MatchingChild(last.Model.children, query).None?
        invariant target == Descend(last.Model, lastKey, query)
        decreases |query|
      {
        last.ChildFacts(existing);
        DescendStep(last.Model, lastKey, query, existing);
        query := query[|common|..];
        last := node;
        lastKey := lastKey + node.prefix;
        common, existing, node := last.FindCommonPrefixChild(query);
        if node != null {
          MatchingChildUnique(last.Model.children, query, existing);
        }
      }
      if |key| < |lastKey| {
        return {lastKey};
      }
      return last.KeysBelow(lastKey);
    }

    /**
     * The corrected walk, on the root: it descends only into a child whose whole prefix the
     * query covers, offers a child's key when the query ends inside that child's prefix, and
     * offers nothing when the query leaves the tree.
     */
    method CompletionsCorrected(key: string) returns (r: set<string>)
      requires Valid() && WellFormed(Model) && parent == null
      ensures r == CompletionsChecked(Model, key)
    {
      if key == [] {
        return {};
      }
      var query := key;
      var node: RadixNode<V> := this;
      var nodeKey := prefix;
      while query != []
        invariant node.Valid() && WellFormed(node.Model)
        invariant WalkChecked(Model, prefix, key) == WalkChecked(node.Model, nodeKey, query)
        decreases |query|
      {
        var common, existing, child := node.FindCommonPrefixChild(query);
        if child == null {
          WalkStops(node.Model, nodeKey, query);
          return {};
        }
        MatchingChildUnique(node.Model.children, query, existing);
        WalkStep(node.Model, nodeKey, query, existing);
        node.ChildFacts(existing);
        if common == existing {
          query := query[|existing|..];
          nodeKey := nodeKey + existing;
          node := child;
        } else if common == query {
          return {nodeKey + existing};
        } else {
          return {};
        }
      }
      return node.KeysBelow(nodeKey);
    }

    /** A valid node none of whose objects changed is still valid. */
    twostate lemma StillValid()
      requires old(Valid()) && unchanged(this) && unchanged(old(Repr))
      ensures Valid()
    {
    }

    /** A new child under `k`, made of new objects, leaves this node valid. */
    twostate lemma ChildAdded(k: string)
      requires old(Valid()) && k !in old(children) && k in children
      requires children == old(children)[k := children[k]] && prefix == old(prefix) && value == old(value)
      requires unchanged(old(Repr) - {this})
      requires children[k].Valid() && children[k].parent == this && children[k].Repr !! old(Repr)
      requires Repr == old(Repr) + children[k].Repr
      requires Model == old(Model).(children := old(Model).children[k := children[k].Model])
      ensures Valid()
    {
      AddedChildOwned(k);
      AddedChildDisjoint(k);
    }

    twostate lemma AddedChildOwned(k: string)
      requires old(Valid()) && k !in old(children) && k in children
      requires children == old(children)[k := children[k]] && prefix == old(prefix) && value == old(value)
      requires unchanged(old(Repr) - {this})
      requires children[k].Valid() && children[k].parent == this && children[k].Repr !! old(Repr)
      requires Repr == old(Repr) + children[k].Repr
      requires Model == old(Model).(children := old(Model).children[k := children[k].Model])
      ensures forall i :: i in children ==>
        && children[i] in Repr
        && children[i].Repr <= Repr
        && this !in children[i].Repr
        && children[i].parent == this
        && children[i].Valid()
        && children[i].Model == Model.children[i]
    {
      SiblingsKept(k);
    }

    twostate lemma SiblingsKept(k: string)
      requires old(Valid()) && k !in old(children) && k in children
      requires children == old(children)[k := children[k]] && prefix == old(prefix) && value == old(value)
      requires unchanged(old(Repr) - {this})
      requires children[k].Valid() && children[k].parent == this && children[k].Repr !! old(Repr)
      requires Repr == old(Repr) + children[k].Repr
      requires Model == old(Model).(children := old(Model).children[k := children[k].Model])
      ensures forall j :: j in children && j != k ==>
        && children[j] in Repr
        && children[j].Repr <= Repr
        && this !in children[j].Repr
        && children[j].parent == this
        && children[j].Valid()
        && children[j].Model == Model.children[j]
    {
      forall j | j in children && j != k
        ensures children[j] in Repr && children[j].Repr <= Repr && this !in children[j].Repr
        ensures children[j].parent == this && children[j].Valid() && children[j].Model == Model.children[j]
      {
        var c := children[j];
        assert c == old(children[j]) && c in old(Repr) && c != this;
        c.StillValid();
      }
    }

    twostate lemma AddedChildDisjoint(k: string)
      requires old(Valid()) && k !in old(children) && k in children
      requires children == old(children)[k := children[k]] && prefix == old(prefix) && value == old(value)
      requires unchanged(old(Repr) - {this})
      requires children[k].Valid() && children[k].parent == this && children[k].Repr !! old(Repr)
      requires Repr == old(Repr) + children[k].Repr
      requires Model == old(Model).(children := old(Model).children[k := children[k].Model])
      ensures forall i, j :: i in children && j in children && i != j ==> children[i].Repr !! children[j].Repr
    {
    }

    /**
     * When only the objects of the child under `k` changed (and new objects joined it), this
     * node is valid again once its footprint takes in the child's and its model the child's.
     */
    twostate lemma ChildChanged(k: string)
      requires old(Valid()) && k in old(children)
      requires children == old(children) && prefix == old(prefix) && value == old(value)
      requires unchanged(old(Repr) - old(children[k].Repr) - {this})
      requires children[k].Valid() && children[k].parent == this
      requires fresh(children[k].Repr - old(children[k].Repr))
      requires Repr == old(Repr) + children[k].Repr
      requires Model == old(Model).(children := old(Model).children[k := children[k].Model])
      ensures Valid()
    {
      ChangedSiblingsKept(k);
      ChangedDisjoint(k);
    }

    twostate lemma ChangedDisjoint(k: string)
      requires old(Valid()) && k in old(children)
      requires children == old(children) && prefix == old(prefix) && value == old(value)
      requires unchanged(old(Repr) - old(children[k].Repr) - {this})
      requires children[k].Valid() && children[k].parent == this
      requires fresh(children[k].Repr - old(children[k].Repr))
      requires Repr == old(Repr) + children[k].Repr
      requires Model == old(Model).(children := old(Model).children[k := children[k].Model])
      ensures forall i, j :: i in children && j in children && i != j ==> children[i].Repr !! children[j].Repr
    {
      ChangedSiblingsKept(k);
    }

    twostate lemma ChangedSiblingsKept(k: string)
      requires old(Valid()) && k in old(children)
      requires children == old(children) && prefix == old(prefix) && value == old(value)
      requires unchanged(old(Repr) - old(children[k].Repr) - {this})
      requires children[k].Valid() && children[k].parent == this
      requires fresh(children[k].Repr - old(children[k].Repr))
      requires Repr == old(Repr) + children[k].Repr
      requires Model == old(Model).(children := old(Model).children[k := children[k].Model])
      ensures forall j :: j in children && j != k ==>
        && children[j] in Repr
        && children[j].Repr <= Repr
        && this !in children[j].Repr
        && children[j].parent == this
        && children[j].Valid()
        && children[j].Model == Model.children[j]
        && children[j].Repr == old(children[j].Repr)
    {
      forall j | j in children && j != k
        ensures children[j] in Repr && children[j].Repr <= Repr && this !in children[j].Repr
        ensures children[j].parent == this && children[j].Valid() && children[j].Model == Model.children[j]
        ensures children[j].Repr == old(children[j].Repr)
      {
        var c := children[j];
        assert c in old(Repr) && c !in old(children[k].Repr) && c != this;
        assert old(c.Repr) !! old(children[k].Repr);
        c.StillValid();
      }
    }

    /**
     * The same when the child under `keys.0` is taken out and a node made of its objects and
     * new ones comes in under the new key `keys.1`.
     */
    twostate lemma ChildSwapped(keys: (string, string))
      requires old(Valid()) && keys.0 in old(children) && keys.1 !in old(children)
      requires keys.1 in children && children == old(children)[keys.1 := children[keys.1]] - {keys.0}
      requires prefix == old(prefix) && value == old(value)
      requires unchanged(old(Repr) - old(children[keys.0].Repr) - {this})
      requires children[keys.1].Valid() && children[keys.1].parent == this
      requires fresh(children[keys.1].Repr - old(children[keys.0].Repr))
      requires Repr == old(Repr) + children[keys.1].Repr
      requires Model == old(Model).(children := old(Model).children[keys.1 := children[keys.1].Model] - {keys.0})
      ensures Valid()
    {
      var (k, n) := keys;
      forall j | j in children && j != n
        ensures j in old(children) && j != k
        ensures children[j].Valid() && children[j].Model == Model.children[j]
        ensures children[j].Repr == old(children[j].Repr) && children[j].parent == this
      {
        var c := children[j];
        assert c == old(children[j]);
        assert c in old(Repr) && c !in old(children[k].Repr) && c != this;
        assert old(c.Repr) !! old(children[k].Repr);
        c.StillValid();
      }
    }
  }

  /**
   * `RadixTree`: a root node with the empty prefix and no value, below which the checked keys
   * are inserted.
   */
  class RadixTree<V> {
    var root: RadixNode<V>

    /** The root is a valid, well-formed node with no parent, no prefix and no value. */
    ghost predicate Valid()
      reads this, root, root.Repr
    {
      && root.Valid() && WellFormed(root.Model)
      && root.parent == null && root.prefix == [] && root.value == None
    }

    /** A tree with nothing in it. */
    constructor Empty()
      ensures Valid() && fresh(root.Repr)
      ensures root.Model == EmptyRoot()
    {
      root := new RadixNode([], None, null);
    }

    /**
     * `__init__`: the pairs inserted in order; the first bad key raises, and then no tree is
     * returned.
     */
    static method New(pairs: seq<(KeyInput, V)>) returns (r: Result<RadixTree<V>, KeyError>)
      ensures r.Failure? ==> InsertAll(EmptyRoot(), pairs) == Failure(r.error)
      ensures r.Success? ==>
        && fresh(r.value) && fresh(r.value.root.Repr) && r.value.Valid()
        && InsertAll(EmptyRoot(), pairs) == Success(r.value.root.Model)
    {
      var t := new RadixTree.Empty();
      var i := 0;
      while i < |pairs|
        invariant 0 <= i <= |pairs|
        invariant fresh(t) && fresh(t.root.Repr) && t.Valid()
        invariant InsertAll(EmptyRoot(), pairs) == InsertAll(t.root.Model, pairs[i..])
      {
        assert pairs[i..][1..] == pairs[i + 1..];
        var res := t.Insert(pairs[i].0, pairs[i].1);
        if res.Failure? {
          return Failure(res.error);
        }
        i := i + 1;
      }
      return Success(t);
    }

    /** `insert`: the key is checked, then inserted below the root. */
    method Insert(key: KeyInput, v: V) returns (r: Result<(), KeyError>)
      requires Valid()
      modifies root.Repr
      ensures Valid() && fresh(root.Repr - old(root.Repr))
      ensures r.Failure? <==> CheckKey(key).Failure?
      ensures r.Failure? ==> r.error == CheckKey(key).error && root.Model == old(root.Model)
      ensures r.Success? ==> root.Model == RadixSpec.Insert(old(root.Model), key.s, v)
    {
      var checked := CheckKey(key);
      if checked.Failure? {
        return Failure(checked.error);
      }
      root.Insert(checked.value, v);
      return Success(());
    }

    /**
     * `completions`: the root's walk as written. Wherever the corrected walk offers
     * anything, the two agree.
     */
    method Completions(key: string) returns (r: set<string>)
      requires Valid()
      ensures r == CompletionsAsWritten(root.Model, key)
      ensures CompletionsChecked(root.Model, key) != {} ==> r == CompletionsChecked(root.Model, key)
    {
      r := root.Completions(key);
      if CompletionsChecked(root.Model, key) != {} {
        CorrectedAgreesWithSource(root.Model, key);
      }
    }

    /** `completions` with the corrected walk: every completion extends the query. */
    method CompletionsCorrected(key: string) returns (r: set<string>)
      requires Valid()
      ensures r == CompletionsChecked(root.Model, key)
      ensures forall c :: c in r ==> IsPrefix(key, c)
    {
      r := root.CompletionsCorrected(key);
      forall c | c in r
        ensures IsPrefix(key, c)
      {
        CompletionsCheckedSound(root.Model, key, c);
      }
    }

    /** `as_dict`: the root's snapshot. */
    function AsDict(): (r: Shape<string>)
      reads this, root, root.Repr
      requires Valid()
      ensures r == RadixViews.AsDict(root.Model)
      ensures r.entries.Keys == root.children.Keys
    {
      root.AsDict()
    }

    /** `height`: the root's height less one, so an empty tree has height 0. */
    ghost function Height(): (h: nat)
      reads this, root, root.Repr
      requires Valid()
      ensures h + 1 == RadixViews.Height(root.Model)
      ensures h == 0 <==> root.children == map[]
    {
      HeightAboveLeaf(root.Model);
      root.Height() - 1
    }

    /** `size`: the root's size, the root counted. */
    ghost function Size(): (n: nat)
      reads this, root, root.Repr
      requires Valid()
      ensures n == RadixViews.Size(root.Model) && n >= 1
    {
      root.Size()
    }

    /** `total_chars`: the root's total, to which its empty prefix adds nothing. */
    ghost function TotalChars(): (n: nat)
      reads this, root, root.Repr
      requires Valid()
      ensures n == RadixViews.TotalChars(root.Model) == SumOf(Chars(root.Model))
    {
      root.TotalChars()
    }
  }
}

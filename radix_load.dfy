/**
 * Building a radix tree from key/value pairs (radix.py:24-66): the pairs are inserted in
 * order, each key checked first; the first bad key raises and no tree is returned.
 */
module RadixLoad {
  import opened Wrappers
  import opened Keys
  import opened RadixSpec

  /**
   * The pairs inserted into `t` one after the other, or the error of the first bad key:
   * loading fails exactly when some key is bad, and a load keeps the root's prefix and value.
   */
  ghost function InsertAll<V>(t: Tree<V>, pairs: seq<(KeyInput, V)>): (r: Result<Tree<V>, KeyError>)
    ensures r.Failure? <==> FirstError(pairs).Some?
    ensures r.Failure? ==> r.error == FirstError(pairs).value
    ensures r.Success? ==> r.value.prefix == t.prefix && r.value.value == t.value
    decreases |pairs|
  {
    if pairs == [] then Success(t)
    else match CheckKey(pairs[0].0)
      case Failure(e) => Failure(e)
      case Success(k) => InsertAll(Insert(t, k, pairs[0].1), pairs[1..])
  }

  /** A successful load of a well-formed tree gives a well-formed tree. */
  lemma {:induction false} InsertAllWellFormed<V>(t: Tree<V>, pairs: seq<(KeyInput, V)>)
    requires WellFormed(t) && InsertAll(t, pairs).Success?
    ensures WellFormed(InsertAll(t, pairs).value)
    decreases |pairs|
  {
    if pairs != [] {
      var k := CheckKey(pairs[0].0).value;
      InsertWellFormed(t, k, pairs[0].1);
      InsertAllWellFormed(Insert(t, k, pairs[0].1), pairs[1..]);
    }
  }

  /** Inserting other keys keeps what is stored under `k`. */
  lemma {:induction false} InsertAllKeeps<V>(t: Tree<V>, pairs: seq<(KeyInput, V)>, k: string, w: V)
    requires WellFormed(t) && InsertAll(t, pairs).Success? && Stores(t, k, w)
    requires forall j :: 0 <= j < |pairs| ==> pairs[j].0 != Str(k)
    ensures Stores(InsertAll(t, pairs).value, k, w)
    decreases |pairs|
  {
    if pairs != [] {
      var key := CheckKey(pairs[0].0).value;
      InsertWellFormed(t, key, pairs[0].1);
      InsertStores(t, key, pairs[0].1, k, w);
      assert forall j :: 0 <= j < |pairs[1..]| ==> pairs[1..][j] == pairs[j + 1];
      InsertAllKeeps(Insert(t, key, pairs[0].1), pairs[1..], k, w);
    }
  }

  /** After a successful load every key holds the value of its last pair. */
  lemma {:induction false} InsertAllStores<V>(t: Tree<V>, pairs: seq<(KeyInput, V)>, i: nat)
    requires WellFormed(t) && InsertAll(t, pairs).Success? && i < |pairs|
    requires forall j :: i < j < |pairs| ==> pairs[j].0 != pairs[i].0
    ensures pairs[i].0.Str? && Stores(InsertAll(t, pairs).value, pairs[i].0.s, pairs[i].1)
    decreases |pairs|
  {
    var key := CheckKey(pairs[0].0).value;
    var t' := Insert(t, key, pairs[0].1);
    InsertWellFormed(t, key, pairs[0].1);
    assert forall j :: 0 <= j < |pairs[1..]| ==> pairs[1..][j] == pairs[j + 1];
    if i == 0 {
      InsertStores(t, key, pairs[0].1, key, pairs[0].1);
      InsertAllKeeps(t', pairs[1..], key, pairs[0].1);
    } else {
      InsertAllStores(t', pairs[1..], i - 1);
    }
  }

  /** Any stored pair comes from the tree loaded into or from one of the pairs. */
  lemma {:induction false} InsertAllOnlyPairs<V>(t: Tree<V>, pairs: seq<(KeyInput, V)>, k: string, w: V)
    requires WellFormed(t) && InsertAll(t, pairs).Success?
    requires Stores(InsertAll(t, pairs).value, k, w)
    ensures Stores(t, k, w) || exists j :: 0 <= j < |pairs| && pairs[j] == (Str(k), w)
    decreases |pairs|
  {
    if pairs != [] {
      var key := CheckKey(pairs[0].0).value;
      var t' := Insert(t, key, pairs[0].1);
      InsertWellFormed(t, key, pairs[0].1);
      InsertAllOnlyPairs(t', pairs[1..], k, w);
      InsertStores(t, key, pairs[0].1, k, w);
      if !Stores(t', k, w) {
        var j :| 0 <= j < |pairs[1..]| && pairs[1..][j] == (Str(k), w);
        assert pairs[j + 1] == (Str(k), w);
      }
    }
  }
}

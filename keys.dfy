/** The key check both containers run before inserting (radix.py:62-65, trie.py:6-9). */
module Keys {
  import opened Wrappers

  /** A Python key as the containers see it: a `str`, or an object of some other type. */
  datatype KeyInput = Str(s: string) | NotStr

  /** The two `ValueError`s the containers raise. */
  datatype KeyError = EmptyKey | NotAString

  /**
   * The check runs `key == ""` first and `isinstance(key, str)` second; a non-string never
   * equals `""`, so it fails the second test.
   */
  function CheckKey(k: KeyInput): (r: Result<string, KeyError>)
    ensures r.Success? <==> k.Str? && k.s != []
    ensures r.Success? ==> r.value == k.s
    ensures r == Failure(EmptyKey) <==> k == Str([])
  {
    if k == Str([]) then Failure(EmptyKey)
    else if !k.Str? then Failure(NotAString)
    else Success(k.s)
  }

  /** The error of the first pair whose key fails the check, if any does. */
  function FirstError<V>(pairs: seq<(KeyInput, V)>): (r: Option<KeyError>)
    ensures r.Some? ==> exists i :: 0 <= i < |pairs| && CheckKey(pairs[i].0) == Failure(r.value)
    ensures pairs != [] && CheckKey(pairs[0].0).Failure? ==> r == Some(CheckKey(pairs[0].0).error)
    decreases |pairs|
  {
    if pairs == [] then None
    else if CheckKey(pairs[0].0).Failure? then Some(CheckKey(pairs[0].0).error)
    else FirstError(pairs[1..])
  }

  /**
   * `FirstError` is absent exactly when every key is good, and otherwise is the error of a
   * bad key all of whose predecessors are good.
   */
  lemma {:induction false} FirstErrorIsFirst<V>(pairs: seq<(KeyInput, V)>)
    ensures FirstError(pairs).None? <==> forall i :: 0 <= i < |pairs| ==> CheckKey(pairs[i].0).Success?
    ensures FirstError(pairs).Some? ==>
      exists i :: && 0 <= i < |pairs|
                  && CheckKey(pairs[i].0) == Failure(FirstError(pairs).value)
                  && forall j :: 0 <= j < i ==> CheckKey(pairs[j].0).Success?
    decreases |pairs|
  {
    if pairs != [] && CheckKey(pairs[0].0).Success? {
      var tail := pairs[1..];
      assert forall i :: 0 <= i < |tail| ==> tail[i] == pairs[i + 1];
      FirstErrorIsFirst(tail);
      if FirstError(tail).Some? {
        var i :| && 0 <= i < |tail|
                 && CheckKey(tail[i].0) == Failure(FirstError(tail).value)
                 && forall j :: 0 <= j < i ==> CheckKey(tail[j].0).Success?;
        assert forall j :: 0 <= j < i + 1 ==> CheckKey(pairs[j].0).Success? by {
          forall j | 0 <= j < i + 1
            ensures CheckKey(pairs[j].0).Success?
          {
            if j > 0 { assert pairs[j] == tail[j - 1]; }
          }
        }
      } else {
        forall i | 0 <= i < |pairs|
          ensures CheckKey(pairs[i].0).Success?
        {
          if i > 0 { assert pairs[i] == tail[i - 1]; }
        }
      }
    }
  }
}

# Radix tree and character trie, modelled in Dafny

This project models two in-memory prefix trees for string keys.

- **The compressed radix tree of `patrix/radix.py`.** A node stores a prefix, an optional value, its children and a link to its parent. `RadixNode.insert` finds the one child that shares a first symbol with the key. It then does one of four things:
  1. adds a leaf, when no child shares the first symbol;
  2. overwrites the value, on an exact match;
  3. descends into the child, when the key extends the child's prefix;
  4. splits, adding a valueless intermediate node.

  `completions` walks the tree along the query. `key`, `height`, `size`, `total_chars`, `siblings` and `as_dict` are read-only views. `RadixTree` checks each key and forwards its calls to the root.
- **The uncompressed trie of `autocomplete/trie.py`.** It has one node per key symbol, one-symbol edges, a recursive insert that creates missing children, and an `as_dict` snapshot.

Each tree is modelled twice:

- **As a value.** `RadixSpec.Tree` and `TrieSpec.Trie` are datatypes, and the insert of each tree is a function on them. All the properties are proved about these functions: well-formedness is preserved, the mapping contract holds, the metrics grow within bounds, and so on.
- **As heap objects.** `Radix.RadixNode`, `Radix.RadixTree`, `Autocomplete.TrieNode` and `Autocomplete.Trie` are classes whose methods update their fields in place, as the Python code does. Each node keeps the tree value it stands for (`Model`) and the objects it is made of (`Repr`) as ghost state. Each method is proved to turn `Model` into the spec function applied to the old `Model`. `RadixNode.Valid()` ties the objects to the model:
  - each object's fields agree with its `Model`, and each child object stands for the model's child under the same key;
  - a child's `parent` is the node that owns it;
  - the children's footprints are disjoint.

  The shape invariants are stated on the model, by `RadixSpec.WellFormed`: a child's dictionary key is its prefix, no two siblings share a first symbol, and only a leaf has the empty prefix. The `RadixNode` methods require `WellFormed(Model)` and keep it, and `RadixTree.Valid()` includes it for the root.

The two containers' key check lives in `Keys`; the `as_dict` snapshots are `Snapshots.Shape` values.

## Model

| member | source | states |
|---|---|---|
| Keys.CheckKey | patrix/radix.py:62-65 | a key is accepted exactly when it is a non-empty `str`, and is then passed on unchanged; the empty string gives the empty-key error; every other rejected input gives the not-a-string error |
| Keys.FirstError | autocomplete/trie.py:5-10 | an error is reported only when some key fails the check with that error, and a failing first key gives its own error |
| Keys.FirstErrorIsFirst | autocomplete/trie.py:5-10 | a sequence of pairs has no error exactly when every key passes the check; otherwise the error is that of a failing key all of whose predecessors pass |
| Prefixes.Lcp | patrix/radix.py:287-312 | the common prefix is a prefix of both arguments; it has the length of one of them or is followed by differing symbols; it is non-empty exactly when both arguments start with the same symbol |
| Prefixes.LcpUnique | patrix/radix.py:287-312 | any common prefix that cannot be extended equals `Lcp` |
| Prefixes.LcpIsLongest | patrix/radix.py:287-312 | every common prefix of the two strings is a prefix of `Lcp`, so `Lcp` is the longest one |
| Prefixes.LcpSymmetric | patrix/radix.py:287-312 | the common prefix does not depend on the argument order |
| Prefixes.SharedFirstSymbol | patrix/radix.py:281-284 | two strings that each share a first symbol with a key share it with each other |
| Prefixes.CommonLongestPrefix | patrix/radix.py:308-312 | the index loop of `_common_longest_prefix` returns exactly `Lcp` of its arguments |
| RadixSpec.MatchingChild | patrix/radix.py:259-285 | a found child is present and shares a non-empty leading run with the key; when none is found, no child shares one |
| RadixSpec.MatchingChildUnique | patrix/radix.py:281-284 | among prefix-free children, the child that shares a first symbol with the key is the one found, whatever the dictionary order |
| RadixSpec.Insert | patrix/radix.py:161-219 | insert keeps the node's own prefix and value |
| RadixSpec.InsertNewCase | patrix/radix.py:184-187 | case 1: with no matching child, exactly one leaf holding the whole key and the value is added, and nothing else changes |
| RadixSpec.InsertOverwriteCase | patrix/radix.py:189-192 | case 2: on an exact match only that child's value changes |
| RadixSpec.InsertDescendCase | patrix/radix.py:194-199 | case 3: when the child's whole prefix starts the key, a non-empty rest of the key is inserted into that child and the other children are kept |
| RadixSpec.InsertSplitCase | patrix/radix.py:201-219 | case 4: the matched child is replaced by a valueless node under the common run; below it are the old child with its subtree, re-keyed by the rest of its prefix, and a new leaf for the rest of the key (possibly empty); the common run was no child's key before |
| RadixSpec.NewLeafWellFormed | patrix/radix.py:184-187 | case 1 keeps the tree well formed |
| RadixSpec.IntermediateWellFormed | patrix/radix.py:201-216 | the intermediate node of a split is well formed: its two children's keys are their prefixes and share no first symbol |
| RadixSpec.SplitWellFormed | patrix/radix.py:201-219 | case 4 keeps the tree well formed |
| RadixSpec.InsertWellFormed | patrix/radix.py:161-219 | every insert keeps the invariants: each child's key is its prefix, no two siblings share a first symbol, and only a leaf may have the empty prefix |
| RadixSpec.LeafHolds | patrix/radix.py:143-159 | a new leaf holds its value under its own prefix and nothing else |
| RadixSpec.ShiftHolds | patrix/radix.py:206-210 | shortening a moved child's prefix by the common run shortens every key it holds by that run, so keys read from the root are unchanged |
| RadixSpec.HoldsOnlyInMatching | patrix/radix.py:281-284 | in a well-formed node, a key can be held only below the child that matches it |
| RadixSpec.NewLeafStores | patrix/radix.py:184-187 | after case 1 the key holds the value, and the stored pairs are the old ones plus this one |
| RadixSpec.OverwriteStores | patrix/radix.py:189-192 | after case 2 the key holds the value; any other stored pair was stored before, and every other key keeps its pairs |
| RadixSpec.DescendStores | patrix/radix.py:194-199 | the mapping contract for case 3 |
| RadixSpec.SplitStores | patrix/radix.py:201-219 | the mapping contract for case 4: the moved subtree keeps every key it held |
| RadixSpec.InsertStores | patrix/radix.py:161-219 | the mapping contract: after `insert(k, v)` the key `k` holds `v`; any pair now stored is `(k, v)` or was stored before; every pair under another key is still stored |
| RadixViews.AsDict | patrix/radix.py:314-328 | the snapshot has exactly the children's keys at every level, and no values |
| RadixViews.Height | patrix/radix.py:330-337 | a node is at least one level high |
| RadixViews.HeightAboveLeaf | patrix/radix.py:335-337 | the height is 1 exactly for a node without children |
| RadixViews.Size | patrix/radix.py:348-353 | a node counts at least itself |
| RadixViews.TotalChars | patrix/radix.py:355-364 | the total is at least the length of the node's own prefix |
| RadixViews.KeyAt | patrix/radix.py:339-346 | a node's key starts with the root's prefix and is at least as long as the node's own prefix |
| RadixViews.KeyAtChild | patrix/radix.py:339-346 | a node's key is its parent's key followed by its own prefix |
| RadixViews.HoldsAtPath | patrix/radix.py:339-346 | a tree holds `v` under `k` exactly when some node reachable from the root has key `k` and value `v` |
| RadixViews.SameShapeViews | patrix/radix.py:314-364 | trees that differ only in their values have the same snapshot, height, size and character count |
| RadixViews.ExactInsertSameShape | patrix/radix.py:189-192 | an insert whose walk ends in an exact match changes only a value |
| RadixViews.InsertReachesExact | patrix/radix.py:161-219 | after inserting a key, the walk for that key ends in an exact match |
| RadixViews.DuplicateInsertKeepsShape | autocomplete/tests/test_radix.py:51-53 | inserting the same key a second time leaves the snapshot, height, size and character count unchanged |
| RadixViews.LeafViews | patrix/radix.py:143-159 | a leaf has size 1, height 1, as many characters as the key has and the empty snapshot |
| RadixViews.NewLeafViews | patrix/radix.py:184-187 | case 1 adds one node and as many characters as the key has, and raises the height by at most one |
| RadixViews.OverwriteViews | patrix/radix.py:189-192 | case 2 adds no node and changes neither the snapshot nor any metric |
| RadixViews.DescendViews | patrix/radix.py:194-199 | case 3 adds 0 to 2 nodes and 0 to as many characters as the key has, and raises the height by at most one |
| RadixViews.SplitViews | patrix/radix.py:201-219 | case 4 adds exactly two nodes and the characters of the key beyond the common run, and raises the height by at most one |
| RadixViews.InsertViews | patrix/radix.py:161-219 | an insert never shrinks the tree; it adds at most two nodes and at most as many characters as the key has, and makes the tree at most one level higher |
| RadixCompletions.ChildKeys | patrix/radix.py:252 | every key offered from a node's children extends that node's key |
| RadixCompletions.Descend | patrix/radix.py:241-247 | the node where the loop stops has a key that extends the key it started from |
| RadixCompletions.CompletionsAsWritten | patrix/radix.py:236-252 | as written: no completions when no top-level child shares the query's first symbol |
| RadixCompletions.WalkCheckedSound | patrix/radix.py:221-252 | every completion found by the corrected walk below a node extends that node's key followed by the query |
| RadixCompletions.WalkStep | patrix/radix.py:241-247 | one turn of the loop moves into the matching child and drops the common run from the query; the corrected walk continues only when the child's prefix is consumed, offers the child's key when the query ends inside it, and otherwise stops with nothing |
| RadixCompletions.WalkStops | patrix/radix.py:241-247 | the loop stops at a node none of whose children shares a first symbol with the rest of the query |
| RadixCompletions.CompletionsCheckedSound | patrix/radix.py:221-252 | every corrected completion of a query starts with the query |
| RadixCompletions.DescendEmpty | patrix/radix.py:241-247 | a consumed query matches no child, so the loop stops where it is |
| RadixCompletions.DescendAgrees | patrix/radix.py:241-252 | where the corrected walk finds completions, the source's loop and its final test return the same set |
| RadixCompletions.CorrectedAgreesWithSource | patrix/radix.py:221-252 | whenever the corrected completions are non-empty, the code as written returns the same set |
| RadixLoad.InsertAll | patrix/radix.py:39-41 | loading fails exactly when some key fails the check, with the error of the first such key; a successful load keeps the root's prefix and value |
| RadixLoad.InsertAllWellFormed | patrix/radix.py:39-41 | a successful load keeps the tree well formed |
| RadixLoad.InsertAllKeeps | patrix/radix.py:39-41 | inserting pairs with other keys keeps what is stored under a key |
| RadixLoad.InsertAllStores | patrix/radix.py:39-41 | after a successful load every key holds the value of its last pair |
| RadixLoad.InsertAllOnlyPairs | patrix/radix.py:39-41 | everything stored after a load was stored before it or comes from one of the pairs |
| RadixFixed.SetKeyValue | patrix/radix.py:189-192 | the corrected case 2 on the matched child keeps its prefix and its children's keys |
| RadixFixed.InsertFixed | patrix/radix.py:161-219 | the corrected insert keeps the node's own prefix and value |
| RadixFixed.InsertFixedWellFormed | patrix/radix.py:161-219 | the corrected insert keeps the shape invariants |
| RadixFixed.EmptyRootValueInEmptyLeaf | patrix/radix.py:39 | an empty tree has no node above an empty-prefix leaf that holds a value |
| RadixFixed.InsertFixedValueInEmptyLeaf | patrix/radix.py:161-219 | the corrected insert keeps every node above an empty-prefix leaf valueless, the split of case 4 included |
| RadixFixed.EmptyKeyStored | patrix/radix.py:201-216 | in a well-formed node only an empty-prefix child can hold the empty key |
| RadixFixed.SetKeyValueHolds | patrix/radix.py:189-192 | after the corrected case 2 the child holds its own key with the new value only, and every other key as before |
| RadixFixed.FixedExactStores | patrix/radix.py:189-192 | the corrected mapping contract for case 2 |
| RadixFixed.FixedDescendKey | patrix/radix.py:194-199 | case 3: if the child stores the rest of the key with `v` only, the node stores the key with `v` only |
| RadixFixed.FixedDescendOther | patrix/radix.py:194-199 | case 3: if the child's other keys are unchanged, so are the node's |
| RadixFixed.FixedAsWrittenStores | patrix/radix.py:184-187 | cases 1 and 4 store the key with `v` only, and keep every other key's values |
| RadixFixed.InsertFixedStores | patrix/radix.py:161-219 | the corrected mapping contract: after `insert(k, v)` the key `k` is stored with `v` and with no other value, and every other key stores exactly what it stored before |
| Radix.RadixNode.constructor | patrix/radix.py:143-159 | a new node has the given prefix, value and parent, no children, and stands for a childless tree |
| Radix.RadixNode.FindCommonPrefixChild | patrix/radix.py:259-285 | returns `("", "", None)` when no child shares a leading run with the key; otherwise the matching child object, its dictionary key and `Lcp` of the key and that key |
| Radix.RadixNode.Insert | patrix/radix.py:161-219 | the in-place insert leaves a valid, well-formed node whose model is `RadixSpec.Insert` of the old model; new objects only, and the parent link unchanged |
| Radix.RadixNode.SetValue | patrix/radix.py:191 | sets this node's value and changes neither its footprint, its parent nor any other part of the model |
| Radix.RadixNode.AddLeaf | patrix/radix.py:184-187 | case 1 in place: a fresh leaf object under the key, with this node as parent |
| Radix.RadixNode.SetChildValue | patrix/radix.py:189-192 | case 2 in place: only the child's value changes and no object is added |
| Radix.RadixNode.InsertBelow | patrix/radix.py:194-199 | case 3 in place: the child object takes the rest of the key, and the other children are untouched |
| Radix.RadixNode.Split | patrix/radix.py:201-219 | case 4 in place: the intermediate node replaces the matched child's entry and holds the moved child and the new leaf |
| Radix.RadixNode.AdoptSplit | patrix/radix.py:206-216 | the intermediate node takes the old child object under its shortened prefix and becomes its parent, and takes a new leaf for the rest of the key |
| Radix.RadixNode.Rekey | patrix/radix.py:208-210 | the moved child gets its shortened prefix and its new parent, and keeps its subtree |
| Radix.RadixNode.Replace | patrix/radix.py:203-219 | the dictionary gains the intermediate node under the common run and loses the old entry |
| Radix.RadixNode.ChildFacts | patrix/radix.py:143-159 | a child of a valid node is valid and well formed, has its dictionary key as prefix, and its footprint lies strictly inside its parent's |
| Radix.RadixNode.AsDict | patrix/radix.py:314-328 | the snapshot read from the child objects equals the snapshot of the model |
| Radix.RadixNode.Height | patrix/radix.py:330-337 | the height read from the child objects equals the model's |
| Radix.RadixNode.Size | patrix/radix.py:348-353 | the size read from the child objects equals the model's |
| Radix.RadixNode.TotalChars | patrix/radix.py:355-364 | the character count read from the child objects equals the model's |
| Radix.RadixNode.KeysBelow | patrix/radix.py:252 | the keys of the child objects are the model's child keys |
| Radix.RadixNode.Siblings | patrix/radix.py:254-257 | below a valid parent, the siblings stand for the children of the parent's model, and each has that parent |
| Radix.RadixNode.SiblingsIncludeSelf | patrix/radix.py:254-257 | a child's parent is the node that owns it; its siblings are that node's children and include itself, and all have that node as parent |
| Radix.RadixNode.Completions | patrix/radix.py:221-252 | the source's `while` loop on the root returns exactly `CompletionsAsWritten` |
| Radix.RadixNode.CompletionsCorrected | patrix/radix.py:221-252 | the corrected loop on the root returns exactly `CompletionsChecked` |
| Radix.RadixTree.Empty | patrix/radix.py:39 | a new tree is a valid root with no prefix, no value and no children |
| Radix.RadixTree.New | patrix/radix.py:24-41 | construction checks and inserts the pairs in order; it fails with the first bad key's error, and otherwise yields a valid tree whose model is `InsertAll` of the pairs |
| Radix.RadixTree.Insert | patrix/radix.py:43-66 | a bad key fails with its error before the tree is touched; a good key is inserted below the root; the tree stays valid |
| Radix.RadixTree.Completions | patrix/radix.py:68-82 | the completions are the root's walk as written; wherever the corrected walk offers any completion, the two sets are equal |
| Radix.RadixTree.CompletionsCorrected | patrix/radix.py:68-82 | the completions of the corrected walk, every one of which starts with the query |
| Radix.RadixTree.AsDict | patrix/radix.py:84-96 | the tree's snapshot is the root's, keyed by the root's children |
| Radix.RadixTree.Height | patrix/radix.py:98-104 | the tree's height is the root's less one, and it is 0 exactly for an empty tree |
| Radix.RadixTree.Size | patrix/radix.py:106-111 | the tree's size is the root's, and the root counts |
| Radix.RadixTree.TotalChars | patrix/radix.py:113-121 | the tree's character count is the root's, which is the sum over its children |
| RadixExamples.InsertComputerThenCompute | autocomplete/tests/test_radix.py:32-33 | `computer` then `compute` gives a `compute` node over an empty-prefix leaf and an `r` leaf |
| RadixExamples.ComputerComputeSnapshot | autocomplete/tests/test_radix.py:32-33 | that tree's snapshot is `{"compute": {"": {}, "r": {}}}` |
| RadixExamples.InsertComputeThenComputer | patrix/radix.py:194-199 | `compute` then `computer` descends instead, and the value stays on the `compute` node |
| RadixExamples.InsertionOrderMatters | patrix/radix.py:194-219 | that order gives `{"compute": {"r": {}}}`, which differs from the other order's snapshot |
| RadixExamples.StaleValueAfterReinsert | patrix/radix.py:189-192 | re-inserting `compute` into the first tree sets the value on the intermediate node, and the empty-prefix leaf keeps its old value |
| RadixExamples.ComputerComputeWellFormed | autocomplete/tests/test_radix.py:32-33 | the tree of computer, compute satisfies the shape invariants |
| RadixExamples.ComputerComputeValueInEmptyLeaf | autocomplete/tests/test_radix.py:32-33 | in that tree the node above the empty-prefix leaf holds no value |
| RadixExamples.FixedReinsertTree | patrix/radix.py:189-192 | with the corrected case 2, re-inserting `compute` sets the empty-prefix leaf's value and leaves the intermediate node valueless |
| RadixExamples.FixedReinsertReplaces | patrix/radix.py:189-192 | with the corrected case 2, `compute` is then stored with the new value and no other |
| RadixExamples.InsertComputing | autocomplete/tests/test_radix.py:45-46 | inserting `computing` into `{computer}` splits it into `comput` over `er` and `ing` |
| RadixExamples.InsertComputeIntoTwo | autocomplete/tests/test_radix.py:47-48 | inserting `compute` then splits `er` into `e` over `""` and `r` |
| RadixExamples.BuildThreeKeys | autocomplete/tests/test_radix.py:38-39 | the three inserts build that tree |
| RadixExamples.BuildFourKeys | autocomplete/tests/test_radix.py:80 | adding `screen` puts a leaf beside `comput` |
| RadixExamples.LoadThreeKeys | autocomplete/tests/test_radix.py:38-39 | loading the three pairs in order succeeds with the same tree |
| RadixExamples.LoadRejectsBadFirstKey | autocomplete/tests/test_radix.py:56-63 | a first pair with the empty key, or with a non-string key, makes loading fail with the matching error |
| RadixExamples.LoadDuplicate | autocomplete/tests/test_radix.py:51-53 | two pairs with key `computer` give one leaf holding the second value, with snapshot `{"computer": {}}` |
| RadixExamples.ThreeKeysNodeKeys | autocomplete/tests/test_radix.py:71-76 | the node keys are `""`, `comput`, `compute` and `computing` |
| RadixExamples.ThreeKeysMetrics | autocomplete/tests/test_radix.py:66-68 | for computer, computing and compute: height 3 below the root, size 6 and 11 characters |
| RadixExamples.ThreeKeysSnapshot | autocomplete/tests/test_radix.py:38-39 | the snapshot is `{"comput": {"e": {"": {}, "r": {}}, "ing": {}}}` |
| RadixExamples.FourKeysWellFormed | autocomplete/tests/test_radix.py:13-22 | the four-key tree satisfies the structural invariants |
| RadixExamples.CompletionsOfComp | autocomplete/tests/test_radix.py:81 | `comp` completes to `{comput}`, in both walks |
| RadixExamples.CompletionsOfComput | autocomplete/tests/test_radix.py:82 | `comput` completes to `{compute, computing}`, in both walks |
| RadixExamples.CompletionsOfCompute | autocomplete/tests/test_radix.py:83 | `compute` completes to `{compute, computer}`, in both walks |
| RadixExamples.CompletionsOfComputing | autocomplete/tests/test_radix.py:84 | `computing` has no completions, in both walks |
| RadixExamples.CompletionsOfComputer | autocomplete/tests/test_radix.py:85 | `computer` has no completions, in both walks |
| RadixExamples.CompletionsOfS | autocomplete/tests/test_radix.py:86 | `s` completes to `{screen}`, in both walks |
| RadixExamples.DivergingQueryCompletedAsWritten | patrix/radix.py:241-250 | as written, `compz` completes to `{comput}`, which does not start with the query; the corrected walk gives the empty set |
| RadixExamples.DivergingQueryBelowNode | patrix/radix.py:241-252 | as written, `computa` completes to `{compute, computing}`; the corrected walk gives the empty set |
| TrieSpec.Insert | autocomplete/trie.py:22-35 | an empty key sets the node's value and keeps its children; a non-empty key keeps the node's value and adds at most the child for its first symbol |
| TrieSpec.AsDict | autocomplete/trie.py:37-38 | the snapshot has exactly the node's child symbols as keys, at every level |
| TrieSpec.GetEmpty | autocomplete/trie.py:18-20 | nothing is stored below a new node |
| TrieSpec.InsertGet | autocomplete/trie.py:22-35 | after `insert(k, v)`, following `k` one symbol at a time reaches a node holding `v`, and every other path reads what it read before |
| TrieSpec.PathsPrefixClosed | autocomplete/trie.py:26-35 | every leading part of a path to a node is itself a path |
| TrieSpec.InsertPaths | autocomplete/trie.py:26-35 | after an insert the nodes are the old ones plus those along the key: nothing is removed or relabelled |
| TrieSpec.InsertAddsAtMostKeyLength | autocomplete/trie.py:22-35 | an insert keeps every node and adds at most one node per symbol of the key |
| TrieSpec.ReinsertAddsNoNode | autocomplete/trie.py:27-30 | inserting a key whose node exists adds no node |
| TrieSpec.InsertAll | autocomplete/trie.py:3-10 | loading fails exactly when some key fails the check, with the error of the first such key; a successful load removes no child of the root |
| TrieSpec.InsertAllGet | autocomplete/trie.py:3-10 | after a successful load each key holds the value of its last pair, and keys absent from the pairs read as before |
| Autocomplete.TrieNode.constructor | autocomplete/trie.py:18-20 | a new node has no children and no value |
| Autocomplete.TrieNode.Insert | autocomplete/trie.py:22-35 | the in-place insert leaves a valid node whose model is `TrieSpec.Insert` of the old model, adding only new objects |
| Autocomplete.TrieNode.SetValue | autocomplete/trie.py:23-25 | an empty remaining key sets this node's value and changes nothing else |
| Autocomplete.TrieNode.AddEmptyChild | autocomplete/trie.py:33-34 | a missing symbol gets a fresh empty child, and the other children are kept |
| Autocomplete.TrieNode.InsertBelow | autocomplete/trie.py:27-30 | the child under the first symbol takes the rest of the key, and the other children are untouched |
| Autocomplete.TrieNode.AsDict | autocomplete/trie.py:37-38 | the snapshot read from the child objects equals the model's |
| Autocomplete.Trie.Empty | autocomplete/trie.py:4 | a new trie is an empty valid root |
| Autocomplete.Trie.New | autocomplete/trie.py:3-10 | construction checks and inserts the pairs in order; it fails with the first bad key's error, and otherwise yields a valid trie whose model is `InsertAll` of the pairs |
| Autocomplete.Trie.AsDict | autocomplete/trie.py:12-13 | the trie's snapshot is the root's, keyed by the root's child symbols |
| TrieExamples.InsertTrie | autocomplete/tests/test_trie.py:3-5 | `trie` into an empty trie gives the chain t, r, i, e with the value at the end |
| TrieExamples.InsertTree | autocomplete/tests/test_trie.py:3-5 | `tree` then branches after `tr` |
| TrieExamples.InsertTry | autocomplete/tests/test_trie.py:3-5 | `try` adds a `y` leaf beside the two branches |
| TrieExamples.LoadTrieTreeTry | autocomplete/tests/test_trie.py:3-5 | loading trie, tree and try in order succeeds with that trie |
| TrieExamples.AddChildSnapshot | autocomplete/trie.py:37-38 | adding a child adds its snapshot under its symbol |
| TrieExamples.TrieTreeTrySnapshot | autocomplete/tests/test_trie.py:3-5 | the snapshot is `{'t': {'r': {'i': {'e': {}}, 'e': {'e': {}}, 'y': {}}}}` |

## Left out

- Dictionary iteration order. The children are a map, so `_find_common_prefix_child` picks the matching child by choice, not by order. The no-shared-first-symbol invariant makes that child unique (`RadixSpec.MatchingChildUnique`), so the results agree with the source. Set and dictionary order in results and snapshots is not modelled.
- The constructors that raise. `RadixTree.__init__` and `Trie.__init__` are the static methods `New`, returning a `Result`. When a key is bad, Python raises after inserting the earlier pairs and hands back no object, so `New` returns only the error.
- Python's dynamic typing. A key is either a `str` or "something else" (`Keys.KeyInput`). Values are generic; Python's `None` as "no value" is `Option.None`, so an inserted `None` is told apart from an absent value, which the source cannot do.
- `RadixNode.key`: the parent-chain walk is not a heap method. It is `RadixViews.KeyAt` along the path from the root. `Completions` carries the keys down the walk and is stated for a root node (`parent == null`), the only node `RadixTree.completions` calls it on.
- In `completions`, the last node's key used by the final length test is the key carried down the walk, not one rebuilt from parent links. The result is a set of keys.
- Radix.RadixNode.Height, Radix.RadixNode.Size, Radix.RadixNode.TotalChars and Radix.RadixTree.Height, Radix.RadixTree.Size, Radix.RadixTree.TotalChars are ghost functions, because a sum or maximum over a map has no executable fold here. Their values equal the recursive definitions on the model.
- Radix.RadixNode.Siblings requires a parent. On the root the source raises `AttributeError`, because it reads `children` from `None`; exceptions are not modelled, so the model admits only calls on a node that has a parent.
- RadixSpec.InsertStores does not promise that the inserted key holds only the new value, because the code as written does not keep that promise (see Findings). `RadixFixed.InsertFixedStores` proves it for the corrected insert.
- RadixFixed.InsertFixed, the corrected insert, is modelled on values only. The heap classes keep the insert as written.
- Case 4 of `insert` changes the dictionaries in a slightly different statement order: the intermediate node is built first and then swapped in. The final state is the same.
- `TrieNode.insert` returns `self` on the empty-key path and `None` otherwise. The return value is never used and is not modelled.
- The trie snapshot's keys are characters, not one-character strings.
- The newer API exercised by `patrix/tests/test_radix.py` has no code in `patrix/radix.py` and is not part of this model: `pop`, item access and membership, `from_dict`, `asdict` with values, iteration, and the union operators. `patrix/trie.py` is not part of this model either.
- The order-independence of the tree's shape does not hold for this insert, so it is not proved. `RadixExamples.InsertionOrderMatters` shows two orders that give different snapshots.

## Findings

| source | as written | input that shows it | evidently intended | confidence | as-written member | corrected member |
|---|---|---|---|---|---|---|
| patrix/radix.py:241-252 | the `completions` loop follows a child after a partial match, even when the query diverges from the child's prefix before either ends; it then returns that node's key or its children's keys | keys computer, computing, compute, screen: `compz` gives `{"comput"}` and `computa` gives `{"compute", "computing"}`; neither result starts with the query | a completion extends the query: a query that leaves the tree's paths has no completions | not executed | RadixCompletions.CompletionsAsWritten, RadixExamples.DivergingQueryCompletedAsWritten, RadixExamples.DivergingQueryBelowNode, Radix.RadixNode.Completions, Radix.RadixTree.Completions | RadixCompletions.CompletionsChecked, RadixCompletions.CompletionsCheckedSound, RadixCompletions.CorrectedAgreesWithSource, Radix.RadixNode.CompletionsCorrected, Radix.RadixTree.CompletionsCorrected |
| patrix/radix.py:189-192 | case 2 of `insert` sets the value on the matched child. After a split of case 4 that child may be a valueless intermediate node whose key is held by an empty-prefix leaf below it; that leaf keeps its old value | insert computer, then compute with `v2`, then compute with `v3`: `v3` is set on the `compute` node, the empty-prefix leaf keeps `v2`, and `compute` is stored with both values | the docstring at patrix/radix.py:47 promises that inserting an existing key updates its value: the key is then stored with the new value only | not executed | RadixExamples.StaleValueAfterReinsert, RadixSpec.Insert | RadixFixed.InsertFixed, RadixFixed.InsertFixedStores, RadixExamples.FixedReinsertTree, RadixExamples.FixedReinsertReplaces |

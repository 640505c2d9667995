/** The nested-dictionary snapshot returned by `as_dict` in both trees. */
module Snapshots {

  /**
   * A dictionary from edge labels to the snapshots of the subtrees below them; the radix
   * tree labels edges with strings, the trie with single symbols.
   */
  datatype Shape<K> = Shape(entries: map<K, Shape<K>>)
}

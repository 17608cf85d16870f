# radix_tree in Dafny

A model of the header-only C++ library `radix_tree`: a compressed prefix tree
(radix tree) that maps string keys to lists of values and compares keys
case-insensitively. Every edge of the tree carries a key segment; the children
of a node are kept in a set ordered by the upper-cased first character of their
keys, so no two siblings start with the same character in either case. Nodes
are made by a node factory that owns them; the tree owns its root, whose key is
empty, and the factory.

The project has six modules, one file each:

- `CharTraits` (`char_traits.dfy`): the character traits. These are
  `char_equals` and `char_compare` under an ASCII `toupper`, and the
  key-level notions built on them: folded keys, case-insensitive prefixes, and
  the common-prefix length that `append_child` splits on.
- `Nodes` (`node.dfy`): a node as a value `Node(key, children, values)` and its
  operations:
  - the child lookups `find_partial_prefix_child` and `find_prefix_child`;
  - the four-case `append_child`, which returns the path to the node it
    reaches and the keys of the nodes it made;
  - `append_value`, `clear`, and the pre-order `traverse` with depths;
  - `validate`, as a loop over adjacent children.
- `NodeLemmas` (`node_lemmas.dfy`): what `append_child` and the queries
  promise:
  - the sibling order is kept;
  - the returned node spells the key;
  - exactly the created nodes are added;
  - no value list is lost, duplicated or moved to another key, by
    `append_child` or by `append_value`;
  - appending an existing key changes nothing.
- `NodeFactories` (`node_factory.dfy`): `NodeFactory` as a class whose `store`
  grows by one fresh leaf per `newNode` and empties on `clear`.
- `Trees` (`radix_tree.dfy`): `RadixTree` as a class with fields `root` and
  `factory`:
  - `insert` runs `append_child` against the factory, and is proved equal to
    the pure `InsertValue`;
  - `clear`, and `node_count` and `value_count` as loops over `traverse_all`;
  - the bounded walk `traverse(query, visitor)`;
  - `validate`.

  The class invariant says that the root key is empty, that the whole tree is
  ordered, and that the tree has one node more than the factory has made.
- `TreeStatistics` (`statistics.dfy`): the counting pass of `statistics(tree)`.
  It makes the leaf and branch counters and the four histograms as
  `map<nat, nat>`, proved against histograms of the visit list.

Throughout, `toupper` is the classic "C" locale's: `a`-`z` map to `A`-`Z`.
The proofs use only the fact that comparing folded characters is an order.

## Model

| member | source | states |
|---|---|---|
| CharTraits.CharOrder | include/radix_tree/node.hpp:21-35 | char_equals is an equivalence, char_compare a strict order, and two characters are incomparable under char_compare exactly when char_equals holds |
| CharTraits.CommonPrefixLen | include/radix_tree/node.hpp:95 | the split point of append_child: the key and the child's key agree under char_equals on the first L characters and, unless one ends there, differ at L |
| Nodes.FindChild | include/radix_tree/node.hpp:104-105 | find_partial_prefix_child yields a child whose first character equals the key's under char_equals, or there is none |
| Nodes.FindPrefixChild | include/radix_tree/node.hpp:71-72 | find_prefix_child yields nothing for an empty key, and otherwise a child whose whole key is a case-insensitive prefix of the key |
| Nodes.InsertPos | include/radix_tree/node.hpp:49-55 | a new child goes after exactly the children that child_compare orders before it |
| Nodes.AppendChild | include/radix_tree/node.hpp:95 | append_child never touches the node's own key or value list, and returns a non-empty valid path to the node it reaches |
| Nodes.AppendValue | include/radix_tree/node.hpp:96 | append_value grows the value list by one with the value at its end, earlier values, key and children unchanged |
| Nodes.Clear | include/radix_tree/node.hpp:98 | after clear, has_child and has_value are false, child_count is 0 and the key is unchanged |
| Nodes.Validate | include/radix_tree/node.hpp:81-92 | validate succeeds exactly when the key is non-empty (for a non-root node) and every adjacent pair of children differs in first character under char_equals |
| NodeLemmas.FindChildUnique | include/radix_tree/node.hpp:49-55 | in an ordered children set the child matching a first character is unique, so the front-to-back search finds the same child as the set's lookup |
| NodeLemmas.FindPrefixChildExact | include/radix_tree/node.hpp:71-72 | in an ordered node, find_prefix_child returns child j exactly when j's key is a case-insensitive prefix of the key |
| NodeLemmas.AppendChildSorted | include/radix_tree/node.hpp:95 | append_child keeps every children set of the node strictly ordered with non-empty keys |
| NodeLemmas.AppendChildReaches | include/radix_tree/node.hpp:95 | the keys along the returned path spell the appended key case-insensitively, and a node that had to be made holds no value yet |
| NodeLemmas.AppendChildCounts | include/radix_tree/node.hpp:95 | append_child adds exactly the nodes it makes, keeps the value count, and keeps every value list under the same folded key |
| NodeLemmas.AppendExisting | include/radix_tree/node.hpp:95 | in an ordered node, if a path already spells the key, append_child returns that path and changes and makes nothing |
| NodeLemmas.AppendChildIdempotent | include/radix_tree/node.hpp:95 | repeating append_child with the same key returns the same node and makes nothing |
| NodeLemmas.AppendValueAtProps | include/radix_tree/node.hpp:96 | appending a value at the end of a path puts it last in that node's value list, keeps the root key and the keys along the path, the node count and the order, and adds one to the value count |
| NodeLemmas.AppendValueAtStored | include/radix_tree/node.hpp:96 | appending a value at the end of a path changes one entry only: that node's value list, under the same folded key, gains the value at its end, and every other value list keeps its key and values |
| NodeLemmas.TraverseCounts | include/radix_tree/node.hpp:101-102 | traverse visits every node once: as many visits as nodes, and their value lists add up to the value count |
| NodeLemmas.TraverseValid | include/radix_tree/node.hpp:81-92 | in an ordered tree every visited node passes validate, the root exempt from the non-empty-key check |
| NodeFactories.Fresh | include/radix_tree/node_factory.hpp:13-17 | the nodes made for a list of keys are, in order, one node per key with no children and no values |
| NodeFactories.NodeFactory.constructor | include/radix_tree/node_factory.hpp:25 | a new factory owns no node |
| NodeFactories.NodeFactory.NewNode | include/radix_tree/node_factory.hpp:13-17 | newNode appends exactly one entry, a node with the key and nothing below it, at a position no earlier node has, keeping every earlier entry |
| NodeFactories.NodeFactory.Clear | include/radix_tree/node_factory.hpp:19-22 | clear leaves the store empty |
| Trees.AppendChildWith | include/radix_tree/node.hpp:95 | append_child run against the factory does what AppendChild describes, and the factory gains exactly the created nodes, in order |
| Trees.InsertKeepsInvariant | include/radix_tree/radix_tree.hpp:24 | insert keeps the root key and the order, adds exactly one value, and adds exactly the nodes it makes |
| Trees.InsertEmptyKey | include/radix_tree/radix_tree.hpp:24 | insert with the empty key appends the value to the root and makes no node |
| Trees.InsertPresentKey | include/radix_tree/radix_tree.hpp:24 | inserting under a key the tree already spells makes no node and keeps node_count |
| Trees.InsertTwiceKeepsSize | include/radix_tree/radix_tree.hpp:24 | a second insert under the same key keeps node_count |
| Trees.InsertAllKeepsInvariant | include/radix_tree/radix_tree.hpp:24 | any run of inserts keeps the order, validate holds at every node with the root exempt, and the value count grows by the number of inserts |
| Trees.InsertStored | include/radix_tree/radix_tree.hpp:24 | insert changes one entry only: the value list under the folded key gains the value at its end, and every other value list keeps its key and values |
| Trees.InsertAdds | include/radix_tree/radix_tree.hpp:24 | after insert(key, v), a value list ending in v is stored under the folded key |
| Trees.InsertKeepsEntry | include/radix_tree/radix_tree.hpp:24 | insert loses and moves no value: every value list the tree held is still held under the same folded key, with its old values first |
| Trees.InsertAllKeepsEntry | include/radix_tree/radix_tree.hpp:24 | no run of inserts loses or moves a value the tree held |
| Trees.StoredFound | include/radix_tree/radix_tree.hpp:31-32 | in an ordered tree, a walk that never stops for a key reaches the node holding the value list stored under that folded key |
| Trees.FoundAfter | include/radix_tree/radix_tree.hpp:24 | a value stored under a key is still found by the walk for that key after any further run of inserts |
| Trees.InsertAllRoundTrip | include/radix_tree/radix_tree.hpp:24 | for every insert(key, v) of any run of inserts, the walk for key in the final tree ends at a node whose accumulated key is key case-insensitively and whose value list holds v |
| Trees.InsertRoundTrip | include/radix_tree/radix_tree.hpp:24 | after insert(key, v), a walk for key that never stops ends at a node whose accumulated key is key case-insensitively and whose last value is v |
| Trees.WalkFrom | include/radix_tree/radix_tree.hpp:31-32 | the bounded walk follows a valid path down from the root |
| Trees.WalkPrefix | include/radix_tree/radix_tree.hpp:31-32 | the keys along the walk spell a case-insensitive prefix of the query |
| Trees.WalkKeysArePrefixes | include/radix_tree/radix_tree.hpp:31-32 | every node on the walk has an accumulated key that is a case-insensitive prefix of the query |
| Trees.WalkGoesOn | include/radix_tree/radix_tree.hpp:31-32 | the visitor answered false at every node of the walk but the last |
| Trees.WalkEnds | include/radix_tree/radix_tree.hpp:31-32 | the walk is empty exactly when no child matches, and it ends only where the visitor answered true or no child matches the rest of the query |
| Trees.WalkFindsPath | include/radix_tree/radix_tree.hpp:31-32 | in an ordered tree, a walk that never stops follows exactly the path whose keys spell the query |
| Trees.RadixTree.constructor | include/radix_tree/radix_tree.hpp:46-47 | a new tree is a root with the empty key and nothing below it, and a fresh empty factory |
| Trees.RadixTree.Insert | include/radix_tree/radix_tree.hpp:24 | insert keeps the class invariant, does what InsertValue describes, stores exactly the created nodes in the factory, and adds one to value_count |
| Trees.RadixTree.Clear | include/radix_tree/radix_tree.hpp:25 | after clear, the factory is empty, value_count is 0 and node_count counts only the root |
| Trees.RadixTree.NodeCount | include/radix_tree/radix_tree.hpp:28 | node_count is the number of nodes, one more than the factory owns |
| Trees.RadixTree.ValueCount | include/radix_tree/radix_tree.hpp:29 | value_count is the number of values stored in the tree |
| Trees.RadixTree.Traverse | include/radix_tree/radix_tree.hpp:31-32 | traverse shows its visitor the root when it holds values, then the nodes of the bounded walk, in order |
| Trees.RadixTree.Validate | include/radix_tree/radix_tree.hpp:36-43 | validate succeeds exactly when every visited node passes the node check with the root exempt from the key check, and it always succeeds on a tree that keeps the class invariant |
| Trees.ValidateAsWrittenFails | include/radix_tree/radix_tree.hpp:36-43 | validate as written, with the non-empty-key assertion applied to the root too, fails on every tree |
| TreeStatistics.Bump | include/radix_tree/statistics.hpp:25 | `++m[k]` adds k to the map if absent, adds one to its count, and leaves every other bucket as it was |
| TreeStatistics.HistogramCounts | include/radix_tree/statistics.hpp:16-19 | a histogram has a bucket for exactly the values seen, each holding the number of times that value occurs |
| TreeStatistics.HistogramSums | include/radix_tree/statistics.hpp:16-19 | the counts of a histogram add up to the number of entries, and bucket times count adds up to their sum |
| TreeStatistics.BranchesAndLeaves | include/radix_tree/statistics.hpp:23-31 | every visited node is counted as a branch exactly when has_child holds, and otherwise as a leaf |
| TreeStatistics.ChildBucketsPositive | include/radix_tree/statistics.hpp:23-25 | every bucket of the children histogram is at least 1 |
| TreeStatistics.TallyFacts | include/radix_tree/statistics.hpp:21-34 | the leaves and branches add up to node_count; childCounts and branchsByLevel count every branch once; leavesByLevel counts every leaf once; valueCounts counts every node once, and its buckets weighted by size add up to value_count |
| TreeStatistics.Statistics | include/radix_tree/statistics.hpp:11-42 | the counting pass over traverse_all produces exactly the counters and histograms of the visit list, with the totals of TallyFacts |

## Left out

- Nodes are values, not objects updated in place. `append_child` returns the
  changed node and a path in place of a reference to the reached node, and
  `insert` replaces the root. Aliasing, the identity of a node, and the
  lifetime of the nodes the factory owns (the `unique_ptr`s and the intrusive
  set hooks) are not modelled. No reference survives `clear`, so dangling
  references are not modelled either.
- NodeFactories.NodeFactory.NewNode: a node is recorded in the store as it was
  made. The live node, re-keyed and grown since, is the one inside the root.
  "Fresh" means a new store position, not a new address.
- The children set is a sorted sequence. The set's logarithmic lookup is a
  linear search from the front; it finds the same child, the only one.
- A children set or value list that has not been allocated yet is an empty
  sequence.
- The locale: `toupper` is the classic "C" locale's ASCII mapping. Other
  locales and wide characters are not modelled.
- Characters are Dafny `char`s, compared as code points. The source compares
  `Key::value_type`, which for `std::string` is `char`, signed on common
  platforms. There, bytes from 0x80 up order before ASCII, and a UTF-8 key
  splits between bytes, not between code points. Neither the signed order nor
  byte-level splitting is modelled.
- The property-tree output of `statistics` and `RadixTree::statistics` are not
  part of this model. This covers the string-keyed nodes and the `to_string`
  of each bucket (`include/radix_tree/statistics.hpp:36-68`,
  `include/radix_tree/radix_tree.hpp:34`). Only the counters and histograms
  are.
- Visitors are pure functions. The bounded walk's visitor is a predicate on
  a node and its key segment; anything a visitor does besides its answer is
  not modelled.
- Trees.RadixTree.Traverse: the segment handed to the visitor is taken to be
  the visited child's own key. The root is shown to the visitor first when it
  holds values, and its answer does not stop the walk.
- `node.tcc` and `radix_tree.tcc`, which hold the method bodies, are not part
  of this model. `append_child`, `traverse`, `insert`, `node_count`,
  `value_count` and the bounded `traverse` are modelled from the declarations
  and the behaviour assumed below:
  - the four cases of `append_child`;
  - an empty key puts the value on the root;
  - `node_count` and `value_count` are folds over the pre-order traversal.
- `traverse_all`, which `statistics` calls, is not declared in `radix_tree.hpp`.
  It is modelled as the pre-order `traverse` from the root at depth 0
  (`Trees.RadixTree.TraverseAll`).
- A failing `assert` in `validate` is a false result. Debug and release builds
  are not distinguished.
- The `size_t` counters are unbounded naturals: overflow is not modelled.
- `include/radix_tree/utility.hpp` (a cast wrapper over `std::next`) has no
  behaviour of its own.
- Names: the source spells the same things several ways; one name is used
  for each here:
  - `RadixTree` names its node type `Node` (`include/radix_tree/radix_tree.hpp:20`)
    and `node` names its factory `node_factory` (`include/radix_tree/node.hpp:95`);
    both are declared as `node` and `NodeFactory`.
  - `NodeFactory::newNode` takes `NodeT::Key` where `node` declares `key_t`.
  - `statistics` calls `hasChild` and `childCount` where `node` declares
    `has_child` and `child_count`.

## Findings

| source | as written | input that shows it | evidently intended | confidence | as-written member | corrected member |
|---|---|---|---|---|---|---|
| include/radix_tree/radix_tree.hpp:36-43 | `RadixTree::validate` calls `node::validate` on every node the traversal visits, the root included, and `node::validate` asserts a non-empty key (`include/radix_tree/node.hpp:83`) | any tree, even a new empty one: the root's key is empty, so the first assertion fails | the non-empty-key check applies to every node but the root, whose key is empty by design | high, not executed | Trees.ValidateAsWrittenFails | Trees.RadixTree.Validate |

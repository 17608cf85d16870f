/** One node of the radix tree (the class `node` of node.hpp) and the
    operations on it, modelled on values: a node is its edge label, its
    children in the order of the children set, and its value list. */
module Nodes {
  import opened CharTraits

  datatype Option<T> = None | Some(value: T)

  /** `key` is the edge label from the parent (empty only at the root);
      `children` stands for children_t, ordered by child_compare; `values` for
      values_t. A children set or value list the source has not allocated yet
      is the empty sequence. */
  datatype Node<V> = Node(key: string, children: seq<Node<V>>, values: seq<V>)

  /** node(Key const&): a node with a key and nothing below it. */
  function Leaf<V>(key: string): Node<V> {
    Node(key, [], [])
  }

  predicate HasChild<V>(n: Node<V>) {
    n.children != []
  }

  predicate HasValue<V>(n: Node<V>) {
    n.values != []
  }

  function ChildCount<V>(n: Node<V>): nat {
    |n.children|
  }

  /** child_compare: siblings are ordered by the folded first character of
      their keys. The set keeps them strictly ordered, so no two siblings share
      a folded first character, and a child never has an empty key. */
  predicate SortedChildren<V>(cs: seq<Node<V>>) {
    && (forall i :: 0 <= i < |cs| ==> cs[i].key != [])
    && (forall i, j :: 0 <= i < j < |cs| ==> CharLess(cs[i].key[0], cs[j].key[0]))
  }

  /** The structural invariant, at this node and every node below it. */
  predicate Sorted<V>(n: Node<V>) {
    && SortedChildren(n.children)
    && (forall i :: 0 <= i < |n.children| ==> Sorted(n.children[i]))
  }

  /** find_partial_prefix_child: the child whose folded first character is
      that of the key. The source finds it by binary search in the set; a
      search from the front finds the same child, the only one (see
      NodeLemmas.FindChildUnique). */
  function FindChild<V>(cs: seq<Node<V>>, c: char): (r: Option<nat>)
    ensures r.Some? ==> r.value < |cs| && cs[r.value].key != [] && CharEquals(cs[r.value].key[0], c)
    ensures r.None? ==> forall j :: 0 <= j < |cs| && cs[j].key != [] ==> !CharEquals(cs[j].key[0], c)
  {
    if cs == [] then None
    else if cs[0].key != [] && CharEquals(cs[0].key[0], c) then Some(0)
    else match FindChild(cs[1..], c)
      case None => None
      case Some(j) => Some(j + 1)
  }

  /** find_prefix_child: the candidate child, if its whole key is a
      case-insensitive prefix of `key`. An empty key has no candidate. */
  function FindPrefixChild<V>(n: Node<V>, key: string): (r: Option<nat>)
    ensures r.Some? ==> r.value < |n.children| && n.children[r.value].key != []
                        && IsPrefix(n.children[r.value].key, key)
  {
    if key == [] then None
    else match FindChild(n.children, key[0])
      case None => None
      case Some(i) => if IsPrefix(n.children[i].key, key) then Some(i) else None
  }

  /** Where a new child whose key starts with `c` goes in the children set:
      after every child that orders before it. */
  function InsertPos<V>(cs: seq<Node<V>>, c: char): (pos: nat)
    ensures pos <= |cs|
    ensures forall j :: 0 <= j < pos ==> cs[j].key != [] && CharLess(cs[j].key[0], c)
    ensures pos < |cs| ==> cs[pos].key == [] || !CharLess(cs[pos].key[0], c)
  {
    if cs == [] || cs[0].key == [] || !CharLess(cs[0].key[0], c) then 0
    else 1 + InsertPos(cs[1..], c)
  }

  /** What append_child leaves behind: the node it was called on, as it is
      afterwards; the child indices leading from it to the node it returns; and
      the keys of the nodes it asked the factory for, in order. */
  datatype Appended<V> = Appended(node: Node<V>, path: seq<nat>, created: seq<string>)

  /** append_child(factory, key), by the four-case rule. The node's own key and
      value list are never touched; the children are. */
  function AppendChild<V>(n: Node<V>, key: string): (r: Appended<V>)
    requires key != []
    ensures r.node.key == n.key && r.node.values == n.values
    ensures r.path != [] && ValidPath(r.node, r.path)
    decreases |key|
  {
    match FindChild(n.children, key[0])
    case None =>
      // no child starts like the key: a new leaf, at its place in the order
      var pos := InsertPos(n.children, key[0]);
      Appended(n.(children := n.children[..pos] + [Leaf(key)] + n.children[pos..]), [pos], [key])
    case Some(i) =>
      var c := n.children[i];
      var L := CommonPrefixLen(key, c.key);
      if L == |key| && L == |c.key| then
        // exact match
        Appended(n, [i], [])
      else if L == |c.key| then
        // the child's key is a prefix of the key: go on below the child
        var sub := AppendChild(c, key[L..]);
        Appended(n.(children := n.children[i := sub.node]), [i] + sub.path, sub.created)
      else if L == |key| then
        // the key is a strict prefix of the child's: re-key the child and hang
        // it under a new node for the key
        var moved := c.(key := c.key[L..]);
        Appended(n.(children := n.children[i := Node(key, [moved], [])]), [i], [key])
      else
        // divergence: a new branch for the common part, holding the re-keyed
        // child and a new leaf for the rest of the key
        var moved := c.(key := c.key[L..]);
        var leaf := Leaf(key[L..]);
        var leafFirst := CharLess(key[L], c.key[L]);
        var kids := if leafFirst then [leaf, moved] else [moved, leaf];
        var branch := Node(key[..L], kids, []);
        Appended(n.(children := n.children[i := branch]), [i, if leafFirst then 0 else 1],
                 [key[..L], key[L..]])
  }

  /** append_value: the value list grows by one, `v` at its end; the earlier
      values, the key and the children are untouched. */
  function AppendValue<V>(n: Node<V>, v: V): (r: Node<V>)
    ensures |r.values| == |n.values| + 1 && r.values[|n.values|] == v
    ensures r.values[..|n.values|] == n.values
    ensures r.key == n.key && r.children == n.children
  {
    n.(values := n.values + [v])
  }

  /** clear: the children set and the value list are released; the key stays. */
  function Clear<V>(n: Node<V>): (r: Node<V>)
    ensures !HasChild(r) && !HasValue(r) && ChildCount(r) == 0 && r.key == n.key
  {
    Node(n.key, [], [])
  }

  // ---- paths from a node down to one of its descendants ----

  predicate ValidPath<V>(n: Node<V>, p: seq<nat>)
    decreases |p|
  {
    p == [] || (p[0] < |n.children| && ValidPath(n.children[p[0]], p[1..]))
  }

  /** The node that path `p` leads to. */
  function At<V>(n: Node<V>, p: seq<nat>): Node<V>
    requires ValidPath(n, p)
    decreases |p|
  {
    if p == [] then n else At(n.children[p[0]], p[1..])
  }

  /** The keys met along path `p`, concatenated: the key of the node it leads
      to, relative to `n`. */
  function PathKey<V>(n: Node<V>, p: seq<nat>): string
    requires ValidPath(n, p)
    decreases |p|
  {
    if p == [] then [] else n.children[p[0]].key + PathKey(n.children[p[0]], p[1..])
  }

  /** append_value on the node that path `p` leads to. */
  function AppendValueAt<V>(n: Node<V>, p: seq<nat>, v: V): Node<V>
    requires ValidPath(n, p)
    decreases |p|
  {
    if p == [] then AppendValue(n, v)
    else n.(children := n.children[p[0] := AppendValueAt(n.children[p[0]], p[1..], v)])
  }

  // ---- traverse: the pre-order walk, with the depth of each node ----

  datatype Visit<V> = Visit(node: Node<V>, level: nat)

  /** The calls traverse(visitor, level) makes on its visitor, in order: this
      node at `level`, then each child's subtree in sorted order one level down. */
  function Traverse<V>(n: Node<V>, level: nat): seq<Visit<V>>
    decreases n
  {
    [Visit(n, level)] + TraverseChildren(n.children, level + 1)
  }

  function TraverseChildren<V>(cs: seq<Node<V>>, level: nat): seq<Visit<V>>
    decreases cs
  {
    if cs == [] then [] else Traverse(cs[0], level) + TraverseChildren(cs[1..], level)
  }

  // ---- counts, defined on the structure ----

  function Size<V>(n: Node<V>): nat
    decreases n
  {
    1 + SizeOf(n.children)
  }

  function SizeOf<V>(cs: seq<Node<V>>): nat
    decreases cs
  {
    if cs == [] then 0 else Size(cs[0]) + SizeOf(cs[1..])
  }

  function ValueTotal<V>(n: Node<V>): nat
    decreases n
  {
    |n.values| + ValueTotalOf(n.children)
  }

  function ValueTotalOf<V>(cs: seq<Node<V>>): nat
    decreases cs
  {
    if cs == [] then 0 else ValueTotal(cs[0]) + ValueTotalOf(cs[1..])
  }

  /** A node that holds values, as the pair of its folded accumulated key and
      its value list. */
  datatype Entry<V> = Entry(key: string, values: seq<V>)

  /** The value lists held below and at `n`, each with the folded key it is
      stored under (`prefix` is the folded key of `n`'s parent). */
  ghost function Stored<V>(n: Node<V>, prefix: string): multiset<Entry<V>>
    decreases n
  {
    var here := prefix + FoldStr(n.key);
    (if n.values == [] then multiset{} else multiset{Entry(here, n.values)}) + StoredOf(n.children, here)
  }

  ghost function StoredOf<V>(cs: seq<Node<V>>, prefix: string): multiset<Entry<V>>
    decreases cs
  {
    if cs == [] then multiset{} else Stored(cs[0], prefix) + StoredOf(cs[1..], prefix)
  }

  /** The entry a value list `vs` makes under folded key `k`: none while it
      is empty. */
  ghost function Held<V>(k: string, vs: seq<V>): multiset<Entry<V>> {
    if vs == [] then multiset{} else multiset{Entry(k, vs)}
  }

  // ---- validate ----

  /** Adjacent children differ under char_equals. With fewer than two children
      there is nothing to check. */
  ghost predicate AdjacentDistinct<V>(cs: seq<Node<V>>) {
    forall i, j :: 0 <= i < j < |cs| && j == i + 1 ==> Differ(cs[i], cs[j])
  }

  /** Two neighbours in the children set whose folded first characters differ. */
  predicate Differ<V>(a: Node<V>, b: Node<V>) {
    a.key != [] && b.key != [] && !CharEquals(a.key[0], b.key[0])
  }

  /** What node::validate checks, with its non-empty-key check applied only to
      a node that is not the root (see Trees.ValidateAsWrittenFails). */
  ghost predicate NodeValid<V>(n: Node<V>, isRoot: bool) {
    (isRoot || n.key != []) && AdjacentDistinct(n.children)
  }

  /** validate: walks the children pairwise, current and next, as the source's
      iterator loop does; an assertion that would fire is a false result. */
  method Validate<V>(n: Node<V>, isRoot: bool) returns (ok: bool)
    ensures ok <==> NodeValid(n, isRoot)
  {
    ok := isRoot || n.key != [];
    var cs := n.children;
    var i := 0;
    while ok && i + 1 < |cs|
      invariant i == 0 || i < |cs|
      invariant ok ==> (isRoot || n.key != [])
      invariant ok ==> forall k, l :: 0 <= k < l <= i && l == k + 1 ==> Differ(cs[k], cs[l])
      invariant !ok ==> !NodeValid(n, isRoot)
    {
      ok := cs[i].key != [] && cs[i + 1].key != [] && !CharEquals(cs[i].key[0], cs[i + 1].key[0]);
      assert ok <==> Differ(cs[i], cs[i + 1]);
      i := i + 1;
    }
  }
}

/** What append_child and the node queries promise, proved about the model in
    module Nodes. */
module NodeLemmas {
  import opened CharTraits
  import opened Nodes

  // ---- sums over a children sequence, under concatenation and replacement ----

  lemma {:induction false} SizeOfConcat<V>(a: seq<Node<V>>, b: seq<Node<V>>)
    ensures SizeOf(a + b) == SizeOf(a) + SizeOf(b)
  {
    if a != [] {
      assert (a + b)[1..] == a[1..] + b;
      SizeOfConcat(a[1..], b);
    } else {
      assert a + b == b;
    }
  }

  lemma {:induction false} ValueTotalOfConcat<V>(a: seq<Node<V>>, b: seq<Node<V>>)
    ensures ValueTotalOf(a + b) == ValueTotalOf(a) + ValueTotalOf(b)
  {
    if a != [] {
      assert (a + b)[1..] == a[1..] + b;
      ValueTotalOfConcat(a[1..], b);
    } else {
      assert a + b == b;
    }
  }

  lemma {:induction false} StoredOfConcat<V>(a: seq<Node<V>>, b: seq<Node<V>>, prefix: string)
    ensures StoredOf(a + b, prefix) == StoredOf(a, prefix) + StoredOf(b, prefix)
  {
    if a != [] {
      assert (a + b)[1..] == a[1..] + b;
      StoredOfConcat(a[1..], b, prefix);
    } else {
      assert a + b == b;
    }
  }

  lemma Singleton<V>(x: Node<V>, prefix: string)
    ensures SizeOf([x]) == Size(x)
    ensures ValueTotalOf([x]) == ValueTotal(x)
    ensures StoredOf([x], prefix) == Stored(x, prefix)
  {
    assert [x][1..] == [];
  }

  /** Putting `x` into the children sequence at `pos`. */
  lemma InsertSums<V>(cs: seq<Node<V>>, pos: nat, x: Node<V>, prefix: string)
    requires pos <= |cs|
    ensures SizeOf(cs[..pos] + [x] + cs[pos..]) == SizeOf(cs) + Size(x)
    ensures ValueTotalOf(cs[..pos] + [x] + cs[pos..]) == ValueTotalOf(cs) + ValueTotal(x)
    ensures StoredOf(cs[..pos] + [x] + cs[pos..], prefix) == StoredOf(cs, prefix) + Stored(x, prefix)
  {
    assert cs == cs[..pos] + cs[pos..];
    SizeOfConcat(cs[..pos] + [x], cs[pos..]);
    SizeOfConcat(cs[..pos], [x]);
    SizeOfConcat(cs[..pos], cs[pos..]);
    ValueTotalOfConcat(cs[..pos] + [x], cs[pos..]);
    ValueTotalOfConcat(cs[..pos], [x]);
    ValueTotalOfConcat(cs[..pos], cs[pos..]);
    StoredOfConcat(cs[..pos] + [x], cs[pos..], prefix);
    StoredOfConcat(cs[..pos], [x], prefix);
    StoredOfConcat(cs[..pos], cs[pos..], prefix);
    Singleton(x, prefix);
  }

  /** Replacing the child at `i` by `x`. */
  lemma ReplaceSums<V>(cs: seq<Node<V>>, i: nat, x: Node<V>, prefix: string)
    requires i < |cs|
    ensures SizeOf(cs[i := x]) + Size(cs[i]) == SizeOf(cs) + Size(x)
    ensures ValueTotalOf(cs[i := x]) + ValueTotal(cs[i]) == ValueTotalOf(cs) + ValueTotal(x)
    ensures StoredOf(cs[i := x], prefix) + Stored(cs[i], prefix) == StoredOf(cs, prefix) + Stored(x, prefix)
  {
    var rest := cs[..i] + cs[i + 1..];
    assert cs[i := x] == cs[..i] + [x] + cs[i + 1..];
    assert cs == cs[..i] + [cs[i]] + cs[i + 1..];
    assert rest[..i] == cs[..i] && rest[i..] == cs[i + 1..];
    InsertSums(rest, i, x, prefix);
    InsertSums(rest, i, cs[i], prefix);
  }

  // ---- lookup ----

  /** In an ordered children set the child that starts like `c` is the only
      one: the search finds it whatever its position. */
  lemma FindChildUnique<V>(cs: seq<Node<V>>, c: char, j: nat)
    requires SortedChildren(cs)
    requires j < |cs| && CharEquals(cs[j].key[0], c)
    ensures FindChild(cs, c) == Some(j)
  {
  }

  /** find_prefix_child returns a child exactly when that child's whole key
      is a case-insensitive prefix of the query, and then it is that child. */
  lemma FindPrefixChildExact<V>(n: Node<V>, key: string, j: nat)
    requires SortedChildren(n.children)
    ensures FindPrefixChild(n, key) == Some(j) <==>
            j < |n.children| && IsPrefix(n.children[j].key, key)
  {
    if j < |n.children| && IsPrefix(n.children[j].key, key) {
      var k := n.children[j].key;
      assert k != [];
      assert FoldStr(k)[0] == FoldStr(key[..|k|])[0];
      FindChildUnique(n.children, key[0], j);
    }
  }

  // ---- the invariant under restructuring ----

  /** A child replaced by one whose key starts with an equal character keeps
      the children set ordered. */
  lemma ReplaceSorted<V>(cs: seq<Node<V>>, i: nat, x: Node<V>)
    requires SortedChildren(cs) && i < |cs|
    requires x.key != [] && CharEquals(x.key[0], cs[i].key[0])
    ensures SortedChildren(cs[i := x])
  {
  }

  /** A new child placed between the children that order before it and those
      that order after it keeps the children set ordered. */
  lemma InsertSorted<V>(cs: seq<Node<V>>, pos: nat, x: Node<V>)
    requires SortedChildren(cs) && pos <= |cs| && x.key != []
    requires forall k :: 0 <= k < pos ==> CharLess(cs[k].key[0], x.key[0])
    requires forall k :: pos <= k < |cs| ==> CharLess(x.key[0], cs[k].key[0])
    ensures SortedChildren(cs[..pos] + [x] + cs[pos..])
  {
    var ds := cs[..pos] + [x] + cs[pos..];
    forall a, b | 0 <= a < b < |ds| ensures CharLess(ds[a].key[0], ds[b].key[0]) {
      if b < pos {
        assert ds[a] == cs[a] && ds[b] == cs[b];
      } else if b == pos {
        assert ds[a] == cs[a] && ds[b] == x;
      } else if a == pos {
        assert ds[a] == x && ds[b] == cs[b - 1];
      } else if a < pos {
        assert ds[a] == cs[a] && ds[b] == cs[b - 1];
      } else {
        assert ds[a] == cs[a - 1] && ds[b] == cs[b - 1];
      }
    }
  }

  /** append_child keeps the invariant at every node: keys below the root stay
      non-empty and siblings stay strictly ordered by folded first character. */
  lemma {:induction false} AppendChildSorted<V>(n: Node<V>, key: string)
    requires key != [] && Sorted(n)
    ensures Sorted(AppendChild(n, key).node)
    decreases |key|
  {
    var cs := n.children;
    match FindChild(cs, key[0])
    case None =>
      NewLeafSorted(cs, key);
    case Some(i) =>
      var c := cs[i];
      var L := CommonPrefixLen(key, c.key);
      assert c.key != [] && CharEquals(key[0], c.key[0]);
      if L == |key| && L == |c.key| {
      } else if L == |c.key| {
        var sub := AppendChild(c, key[L..]);
        AppendChildSorted(c, key[L..]);
        ReplaceSorted(cs, i, sub.node);
      } else if L == |key| {
        SplitSorted(cs, i, key, L);
      } else {
        BranchSorted(cs, i, key, L);
      }
  }

  /** The no-match case: a new leaf at its place keeps the children ordered. */
  lemma NewLeafSorted<V>(cs: seq<Node<V>>, key: string)
    requires key != [] && SortedChildren(cs) && forall k :: 0 <= k < |cs| ==> Sorted(cs[k])
    requires FindChild(cs, key[0]).None?
    ensures var pos := InsertPos(cs, key[0]);
            var ds := cs[..pos] + [Leaf(key)] + cs[pos..];
            SortedChildren(ds) && forall k :: 0 <= k < |ds| ==> Sorted(ds[k])
  {
    var pos := InsertPos(cs, key[0]);
    var leaf: Node<V> := Leaf(key);
    InsertPosAfter(cs, key[0]);
    InsertSorted(cs, pos, leaf);
    InsertKeepsSubtrees(cs, pos, leaf);
  }

  /** Where no child starts like `c`, every child from InsertPos on orders
      after `c`. */
  lemma InsertPosAfter<V>(cs: seq<Node<V>>, c: char)
    requires SortedChildren(cs) && FindChild(cs, c).None?
    ensures forall k :: InsertPos(cs, c) <= k < |cs| ==> CharLess(c, cs[k].key[0])
  {
    var pos := InsertPos(cs, c);
    forall k | pos <= k < |cs| ensures CharLess(c, cs[k].key[0]) {
      assert !CharLess(cs[pos].key[0], c) && !CharEquals(cs[pos].key[0], c);
      if k > pos {
        assert CharLess(cs[pos].key[0], cs[k].key[0]);
      }
    }
  }

  lemma InsertKeepsSubtrees<V>(cs: seq<Node<V>>, pos: nat, x: Node<V>)
    requires pos <= |cs| && Sorted(x) && forall k :: 0 <= k < |cs| ==> Sorted(cs[k])
    ensures var ds := cs[..pos] + [x] + cs[pos..];
            forall k :: 0 <= k < |ds| ==> Sorted(ds[k])
  {
    var ds := cs[..pos] + [x] + cs[pos..];
    forall k | 0 <= k < |ds| ensures Sorted(ds[k]) {
      if k < pos { assert ds[k] == cs[k]; }
      else if k > pos { assert ds[k] == cs[k - 1]; }
    }
  }

  /** The strict-prefix case: the child re-keyed under a new node for the key. */
  lemma SplitSorted<V>(cs: seq<Node<V>>, i: nat, key: string, L: nat)
    requires SortedChildren(cs) && i < |cs| && Sorted(cs[i])
    requires 0 < L == |key| < |cs[i].key| && CharEquals(key[0], cs[i].key[0])
    ensures var moved := cs[i].(key := cs[i].key[L..]);
            var nc := Node(key, [moved], []);
            SortedChildren(cs[i := nc]) && Sorted(nc)
  {
    var moved := cs[i].(key := cs[i].key[L..]);
    var nc := Node(key, [moved], []);
    assert Sorted(moved);
    assert Sorted(nc);
    ReplaceSorted(cs, i, nc);
  }

  /** The divergent case: a new branch for the common part, holding the
      re-keyed child and the new leaf in order. */
  lemma BranchSorted<V>(cs: seq<Node<V>>, i: nat, key: string, L: nat)
    requires SortedChildren(cs) && i < |cs| && Sorted(cs[i])
    requires 0 < L < |key| && L < |cs[i].key| && CharEquals(key[0], cs[i].key[0])
    requires !CharEquals(key[L], cs[i].key[L])
    ensures var c := cs[i];
            var moved := c.(key := c.key[L..]);
            var leaf: Node<V> := Leaf(key[L..]);
            var kids := if CharLess(key[L], c.key[L]) then [leaf, moved] else [moved, leaf];
            var branch := Node(key[..L], kids, []);
            SortedChildren(cs[i := branch]) && Sorted(branch)
  {
    var c := cs[i];
    var moved := c.(key := c.key[L..]);
    var leaf: Node<V> := Leaf(key[L..]);
    assert Sorted(moved) && Sorted(leaf);
    var kids := if CharLess(key[L], c.key[L]) then [leaf, moved] else [moved, leaf];
    var branch := Node(key[..L], kids, []);
    assert Sorted(branch);
    ReplaceSorted(cs, i, branch);
  }

  // ---- where append_child leads ----

  /** The keys along the returned path spell the key, case-insensitively, and
      a node append_child had to create holds no values yet. */
  lemma {:induction false} AppendChildReaches<V>(n: Node<V>, key: string)
    requires key != []
    ensures var r := AppendChild(n, key);
            && KeyEquals(PathKey(r.node, r.path), key)
            && (r.created != [] ==> At(r.node, r.path).values == [])
    decreases |key|
  {
    var cs := n.children;
    var r := AppendChild(n, key);
    match FindChild(cs, key[0])
    case None =>
      var pos := InsertPos(cs, key[0]);
      assert r.node.children[pos] == Leaf(key);
      assert PathKey(r.node, r.path) == key + PathKey(Leaf<V>(key), []);
    case Some(i) =>
      var c := cs[i];
      var L := CommonPrefixLen(key, c.key);
      assert c.key != [] && CharEquals(key[0], c.key[0]);
      if L == |key| && L == |c.key| {
        assert PathKey(r.node, r.path) == c.key + PathKey(c, []);
        assert FoldStr(c.key) == FoldStr(key);
      } else if L == |c.key| {
        AppendChildReaches(c, key[L..]);
        DescendShape(n, key, i, L);
        assert FoldStr(c.key) == FoldStr(key[..L]);
        ReachesBelow(n, key, i, L, AppendChild(c, key[L..]));
      } else if L == |key| {
        var moved := c.(key := c.key[L..]);
        assert r.node.children[i] == Node(key, [moved], []);
        assert PathKey(r.node, r.path) == key + PathKey(Node(key, [moved], []), []);
      } else {
        ReachesBranch(n, key, i, L);
      }
  }

  /** AppendChildReaches, when the child's key is a prefix of the key: a
      path below the child that spells the rest of the key, taken from `n`
      through the child, spells the key. */
  lemma ReachesBelow<V>(n: Node<V>, key: string, i: nat, L: nat, sub: Appended<V>)
    requires i < |n.children| && L == |n.children[i].key| <= |key|
    requires FoldStr(n.children[i].key) == FoldStr(key[..L])
    requires sub.node.key == n.children[i].key
    requires ValidPath(sub.node, sub.path) && KeyEquals(PathKey(sub.node, sub.path), key[L..])
    requires sub.created != [] ==> At(sub.node, sub.path).values == []
    ensures var r := Appended(n.(children := n.children[i := sub.node]), [i] + sub.path, sub.created);
            && ValidPath(r.node, r.path)
            && KeyEquals(PathKey(r.node, r.path), key)
            && (r.created != [] ==> At(r.node, r.path).values == [])
  {
    var c := n.children[i];
    var r := Appended(n.(children := n.children[i := sub.node]), [i] + sub.path, sub.created);
    assert r.path[0] == i && r.path[1..] == sub.path;
    assert PathKey(r.node, r.path) == c.key + PathKey(sub.node, sub.path);
    assert At(r.node, r.path) == At(sub.node, sub.path);
    FoldStrAppend(c.key, PathKey(sub.node, sub.path));
    FoldStrAppend(key[..L], key[L..]);
    SplitAt(key, L);
  }

  lemma SplitAt<T>(s: seq<T>, k: nat)
    requires k <= |s|
    ensures s[..k] + s[k..] == s
  {
  }

  /** The shape of append_child's result when the child's key is a prefix of
      the key. */
  lemma DescendShape<V>(n: Node<V>, key: string, i: nat, L: nat)
    requires key != [] && FindChild(n.children, key[0]) == Some(i)
    requires L == CommonPrefixLen(key, n.children[i].key) && L == |n.children[i].key| < |key|
    ensures var sub := AppendChild(n.children[i], key[L..]);
            AppendChild(n, key) == Appended(n.(children := n.children[i := sub.node]), [i] + sub.path, sub.created)
  {
  }

  /** The shape of append_child's result on an exact match. */
  lemma ExactShape<V>(n: Node<V>, key: string, i: nat)
    requires key != [] && FindChild(n.children, key[0]) == Some(i)
    requires CommonPrefixLen(key, n.children[i].key) == |key| == |n.children[i].key|
    ensures AppendChild(n, key) == Appended(n, [i], [])
  {
  }

  /** The shape of append_child's result when the key and the child's key
      diverge after L characters. */
  lemma BranchShape<V>(n: Node<V>, key: string, i: nat, L: nat)
    requires key != [] && FindChild(n.children, key[0]) == Some(i)
    requires L == CommonPrefixLen(key, n.children[i].key) && L < |n.children[i].key| && L < |key|
    ensures var c := n.children[i];
            var moved := c.(key := c.key[L..]);
            var leafFirst := CharLess(key[L], c.key[L]);
            var kids := if leafFirst then [Leaf(key[L..]), moved] else [moved, Leaf(key[L..])];
            AppendChild(n, key) == Appended(n.(children := n.children[i := Node(key[..L], kids, [])]),
                                            [i, if leafFirst then 0 else 1], [key[..L], key[L..]])
  {
  }

  /** AppendChildReaches, when the key and the child's key diverge: the path
      ends at the new leaf, below the new branch. */
  lemma ReachesBranch<V>(n: Node<V>, key: string, i: nat, L: nat)
    requires key != [] && FindChild(n.children, key[0]) == Some(i)
    requires L == CommonPrefixLen(key, n.children[i].key) && L < |n.children[i].key| && L < |key|
    ensures var r := AppendChild(n, key);
            && KeyEquals(PathKey(r.node, r.path), key)
            && (r.created != [] ==> At(r.node, r.path).values == [])
  {
    var c := n.children[i];
    BranchShape(n, key, i, L);
    var r := AppendChild(n, key);
    var moved := c.(key := c.key[L..]);
    var leaf: Node<V> := Leaf(key[L..]);
    var leafFirst := CharLess(key[L], c.key[L]);
    var kids := if leafFirst then [leaf, moved] else [moved, leaf];
    var branch := Node(key[..L], kids, []);
    var j := if leafFirst then 0 else 1;
    assert r.node.children[i] == branch && kids[j] == leaf;
    assert r.path[1..] == [j] && r.path[1..][1..] == [];
    assert PathKey(branch, [j]) == leaf.key + PathKey(leaf, []);
    assert PathKey(r.node, r.path) == key[..L] + key[L..];
    SplitAt(key, L);
    assert At(r.node, r.path) == At(branch, [j]) == leaf;
  }

  /** append_child creates exactly the nodes it asks the factory for, and
      moves no value: the value count is the same, and every value list
      stays with the (folded) key it was stored under. */
  lemma {:induction false} AppendChildCounts<V>(n: Node<V>, key: string, prefix: string)
    requires key != []
    ensures var r := AppendChild(n, key);
            && Size(r.node) == Size(n) + |r.created|
            && ValueTotal(r.node) == ValueTotal(n)
            && Stored(r.node, prefix) == Stored(n, prefix)
    decreases |key|
  {
    var cs := n.children;
    var here := prefix + FoldStr(n.key);
    match FindChild(cs, key[0])
    case None =>
      var pos := InsertPos(cs, key[0]);
      NewLeafCounts(cs, pos, key, here);
    case Some(i) =>
      var c := cs[i];
      var L := CommonPrefixLen(key, c.key);
      assert c.key != [] && CharEquals(key[0], c.key[0]);
      if L == |key| && L == |c.key| {
      } else if L == |c.key| {
        AppendChildCounts(c, key[L..], here);
        DescendShape(n, key, i, L);
        DescendCounts(cs, i, AppendChild(c, key[L..]), here);
      } else if L == |key| {
        SplitCounts(cs, i, key, L, here);
      } else {
        BranchCounts(cs, i, key, L, here);
      }
  }

  /** The no-match case adds one node, the new leaf, which holds no value. */
  lemma NewLeafCounts<V>(cs: seq<Node<V>>, pos: nat, key: string, here: string)
    requires pos <= |cs|
    ensures var ds := cs[..pos] + [Leaf(key)] + cs[pos..];
            && SizeOf(ds) == SizeOf(cs) + 1
            && ValueTotalOf(ds) == ValueTotalOf(cs)
            && StoredOf(ds, here) == StoredOf(cs, here)
  {
    var leaf: Node<V> := Leaf(key);
    InsertSums(cs, pos, leaf, here);
    assert StoredOf(leaf.children, here + FoldStr(leaf.key)) == multiset{};
  }

  /** The descending case: a child replaced by one with the same key, more
      nodes and the same values adds those nodes and moves no value. */
  lemma DescendCounts<V>(cs: seq<Node<V>>, i: nat, sub: Appended<V>, here: string)
    requires i < |cs| && sub.node.key == cs[i].key
    requires Size(sub.node) == Size(cs[i]) + |sub.created|
    requires ValueTotal(sub.node) == ValueTotal(cs[i])
    requires Stored(sub.node, here) == Stored(cs[i], here)
    ensures SizeOf(cs[i := sub.node]) == SizeOf(cs) + |sub.created|
    ensures ValueTotalOf(cs[i := sub.node]) == ValueTotalOf(cs)
    ensures StoredOf(cs[i := sub.node], here) == StoredOf(cs, here)
  {
    ReplaceSums(cs, i, sub.node, here);
    Cancel(StoredOf(cs[i := sub.node], here), StoredOf(cs, here), Stored(cs[i], here));
  }

  /** The strict-prefix case adds one node and moves no value. */
  lemma SplitCounts<V>(cs: seq<Node<V>>, i: nat, key: string, L: nat, here: string)
    requires i < |cs| && L == |key| < |cs[i].key|
    requires forall k :: 0 <= k < L ==> CharEquals(key[k], cs[i].key[k])
    ensures var moved := cs[i].(key := cs[i].key[L..]);
            var nc := Node(key, [moved], []);
            && SizeOf(cs[i := nc]) == SizeOf(cs) + 1
            && ValueTotalOf(cs[i := nc]) == ValueTotalOf(cs)
            && StoredOf(cs[i := nc], here) == StoredOf(cs, here)
  {
    var c := cs[i];
    var moved := c.(key := c.key[L..]);
    var nc := Node(key, [moved], []);
    assert FoldStr(key) == FoldStr(c.key[..L]);
    Singleton(moved, here + FoldStr(key));
    RekeyStored(c, L, here, here + FoldStr(key));
    ReplaceSums(cs, i, nc, here);
    Cancel(StoredOf(cs[i := nc], here), StoredOf(cs, here), Stored(c, here));
  }

  /** The divergent case adds two nodes and moves no value. */
  lemma BranchCounts<V>(cs: seq<Node<V>>, i: nat, key: string, L: nat, here: string)
    requires i < |cs| && L < |key| && L < |cs[i].key|
    requires forall k :: 0 <= k < L ==> CharEquals(key[k], cs[i].key[k])
    ensures var c := cs[i];
            var moved := c.(key := c.key[L..]);
            var leaf: Node<V> := Leaf(key[L..]);
            var kids := if CharLess(key[L], c.key[L]) then [leaf, moved] else [moved, leaf];
            var branch := Node(key[..L], kids, []);
            && SizeOf(cs[i := branch]) == SizeOf(cs) + 2
            && ValueTotalOf(cs[i := branch]) == ValueTotalOf(cs)
            && StoredOf(cs[i := branch], here) == StoredOf(cs, here)
  {
    var c := cs[i];
    var moved := c.(key := c.key[L..]);
    var leaf: Node<V> := Leaf(key[L..]);
    var kids := if CharLess(key[L], c.key[L]) then [leaf, moved] else [moved, leaf];
    var branch := Node(key[..L], kids, []);
    var inner := here + FoldStr(key[..L]);
    assert FoldStr(key[..L]) == FoldStr(c.key[..L]);
    PairSums(kids, inner);
    assert StoredOf(leaf.children, inner + FoldStr(leaf.key)) == multiset{};
    assert Stored(leaf, inner) == multiset{};
    RekeyStored(c, L, here, inner);
    assert Stored(branch, here) == Stored(c, here);
    ReplaceSums(cs, i, branch, here);
    Cancel(StoredOf(cs[i := branch], here), StoredOf(cs, here), Stored(c, here));
  }

  lemma Cancel<T>(a: multiset<T>, b: multiset<T>, c: multiset<T>)
    requires a + c == b + c
    ensures a == b
  {
    assert forall x :: a[x] == (a + c)[x] - c[x];
  }

  /** From a + c == b + d and d + o == c + n: (a + o) + c == (b + n) + c. */
  lemma MultisetShuffle<T>(a: multiset<T>, c: multiset<T>, b: multiset<T>, d: multiset<T>, o: multiset<T>, n: multiset<T>)
    requires a + c == b + d && d + o == c + n
    ensures (a + o) + c == (b + n) + c
  {
    calc {
      (a + o) + c;
      (a + c) + o;
      (b + d) + o;
      b + (d + o);
      b + (c + n);
      (b + n) + c;
    }
  }

  lemma PairSums<V>(kids: seq<Node<V>>, prefix: string)
    requires |kids| == 2
    ensures SizeOf(kids) == Size(kids[0]) + Size(kids[1])
    ensures ValueTotalOf(kids) == ValueTotal(kids[0]) + ValueTotal(kids[1])
    ensures StoredOf(kids, prefix) == Stored(kids[0], prefix) + Stored(kids[1], prefix)
  {
    assert kids[1..] == [kids[1]];
    Singleton(kids[1], prefix);
  }

  /** Re-keying a split child to the rest of its key, under a parent that
      holds the first L characters, changes no stored key: the child's value
      list and its whole subtree keep their place. */
  lemma RekeyStored<V>(c: Node<V>, L: nat, prefix: string, prefix': string)
    requires L <= |c.key|
    requires prefix' == prefix + FoldStr(c.key[..L])
    ensures Size(c.(key := c.key[L..])) == Size(c)
    ensures ValueTotal(c.(key := c.key[L..])) == ValueTotal(c)
    ensures Stored(c.(key := c.key[L..]), prefix') == Stored(c, prefix)
  {
    var k := c.key[L..];
    FoldStrAppend(c.key[..L], k);
    assert c.key[..L] + k == c.key;
    assert prefix' + FoldStr(k) == prefix + FoldStr(c.key);
    var c' := c.(key := k);
    assert Stored(c', prefix') == (if c.values == [] then multiset{} else multiset{Entry(prefix + FoldStr(c.key), c.values)})
                                  + StoredOf(c.children, prefix + FoldStr(c.key));
  }

  // ---- append_child on a key that is already there ----

  /** If a path already spells the key, append_child returns the node it
      leads to, changes nothing and allocates nothing. */
  lemma {:induction false} AppendExisting<V>(n: Node<V>, key: string, p: seq<nat>)
    requires Sorted(n) && key != []
    requires ValidPath(n, p) && p != [] && KeyEquals(PathKey(n, p), key)
    ensures AppendChild(n, key) == Appended(n, p, [])
    decreases |p|
  {
    var cs := n.children;
    var j := p[0];
    var c := cs[j];
    var rest := PathKey(c, p[1..]);
    assert PathKey(n, p) == c.key + rest;
    FoldStrAppend(c.key, rest);
    assert c.key != [];
    assert FoldStr(key)[0] == FoldStr(c.key)[0];
    FindChildUnique(cs, key[0], j);
    var L := CommonPrefixLen(key, c.key);
    assert FoldStr(key)[..|c.key|] == FoldStr(c.key);
    CommonPrefixOfPrefix(key, c.key);
    if p[1..] == [] {
      assert rest == [];
      assert p == [j];
      ExactShape(n, key, j);
    } else {
      assert c.children[p[1..][0]].key != [];
      assert |rest| > 0;
      FoldStrAppend(key[..L], key[L..]);
      SplitAt(key, L);
      assert FoldStr(key[..L]) == FoldStr(c.key);
      assert KeyEquals(rest, key[L..]);
      AppendExisting(c, key[L..], p[1..]);
      DescendShape(n, key, j, L);
      assert cs[j := c] == cs;
      assert [j] + p[1..] == p;
    }
  }

  lemma CommonPrefixOfPrefix(key: string, k: string)
    requires |k| <= |key| && FoldStr(key)[..|k|] == FoldStr(k)
    ensures CommonPrefixLen(key, k) == |k|
  {
    forall i | 0 <= i < |k| ensures CharEquals(key[i], k[i]) {
      assert FoldStr(key)[..|k|][i] == FoldStr(k)[i];
    }
  }

  /** Repeating append_child with the same key returns the same node and
      allocates nothing. */
  lemma AppendChildIdempotent<V>(n: Node<V>, key: string)
    requires Sorted(n) && key != []
    ensures var r := AppendChild(n, key);
            AppendChild(r.node, key) == Appended(r.node, r.path, [])
  {
    AppendChildSorted(n, key);
    AppendChildReaches(n, key);
    var r := AppendChild(n, key);
    AppendExisting(r.node, key, r.path);
  }

  // ---- append_value at the end of a path ----

  /** Appending a value at the node a path leads to adds exactly that value
      there and changes no key, no child and no other value list. */
  lemma {:induction false} AppendValueAtProps<V>(n: Node<V>, p: seq<nat>, v: V)
    requires ValidPath(n, p)
    ensures var t := AppendValueAt(n, p, v);
            && t.key == n.key
            && ValidPath(t, p) && PathKey(t, p) == PathKey(n, p)
            && At(t, p).values == At(n, p).values + [v]
            && Size(t) == Size(n)
            && ValueTotal(t) == ValueTotal(n) + 1
            && (Sorted(n) ==> Sorted(t))
    decreases |p|
  {
    if p != [] {
      var i := p[0];
      var c := n.children[i];
      var t := AppendValueAt(n, p, v);
      AppendValueAtProps(c, p[1..], v);
      ReplaceSums(n.children, i, AppendValueAt(c, p[1..], v), []);
      if Sorted(n) {
        ReplaceSorted(n.children, i, AppendValueAt(c, p[1..], v));
      }
    }
  }

  /** Appending a value at the end of a path changes one entry only: the
      value list of the node the path leads to, under the same folded
      accumulated key K, gains v at its end; every other value list keeps its
      key and its values. */
  lemma {:induction false} AppendValueAtStored<V>(n: Node<V>, p: seq<nat>, v: V, prefix: string)
    requires ValidPath(n, p)
    ensures var K := prefix + FoldStr(n.key + PathKey(n, p));
            Stored(AppendValueAt(n, p, v), prefix) + Held(K, At(n, p).values)
              == Stored(n, prefix) + multiset{Entry(K, At(n, p).values + [v])}
    decreases |p|
  {
    var here := prefix + FoldStr(n.key);
    if p == [] {
      assert n.key + PathKey(n, p) == n.key;
    } else {
      var i, q := p[0], p[1..];
      var c := n.children[i];
      var c' := AppendValueAt(c, q, v);
      var K := here + FoldStr(c.key + PathKey(c, q));
      AppendValueAtStored(c, q, v, here);
      assert PathKey(n, p) == c.key + PathKey(c, q);
      KeyStep(prefix, n.key, c.key + PathKey(c, q));
      assert At(n, p) == At(c, q);
      assert AppendValueAt(n, p, v) == n.(children := n.children[i := c']);
      ReplaceStored(n, i, c', prefix, Held(K, At(c, q).values), multiset{Entry(K, At(c, q).values + [v])});
    }
  }

  /** The folded accumulated key one step down a path. */
  lemma KeyStep(prefix: string, key: string, rest: string)
    ensures prefix + FoldStr(key + rest) == (prefix + FoldStr(key)) + FoldStr(rest)
  {
    FoldStrAppend(key, rest);
  }

  /** A child replaced by one whose entries, with `o` added, are those of the
      child with `n` added: the same holds of the parent. */
  lemma ReplaceStored<V>(n: Node<V>, i: nat, c': Node<V>, prefix: string, o: multiset<Entry<V>>, m: multiset<Entry<V>>)
    requires i < |n.children|
    requires Stored(c', prefix + FoldStr(n.key)) + o == Stored(n.children[i], prefix + FoldStr(n.key)) + m
    ensures Stored(n.(children := n.children[i := c']), prefix) + o == Stored(n, prefix) + m
  {
    var here := prefix + FoldStr(n.key);
    var c := n.children[i];
    ReplaceSums(n.children, i, c', here);
    MultisetShuffle(StoredOf(n.children[i := c'], here), Stored(c, here), StoredOf(n.children, here), Stored(c', here), o, m);
    Cancel(StoredOf(n.children[i := c'], here) + o, StoredOf(n.children, here) + m, Stored(c, here));
    var t := n.(children := n.children[i := c']);
    var own := if n.values == [] then multiset{} else multiset{Entry(here, n.values)};
    calc {
      Stored(t, prefix) + o;
      own + (StoredOf(n.children[i := c'], here) + o);
      own + (StoredOf(n.children, here) + m);
      Stored(n, prefix) + m;
    }
  }

  // ---- where a stored value list sits ----

  /** Every entry of Stored is the value list of a node some path leads to,
      under the folded keys along that path. */
  lemma {:induction false} StoredPath<V>(n: Node<V>, prefix: string, e: Entry<V>) returns (p: seq<nat>)
    requires e in Stored(n, prefix)
    ensures ValidPath(n, p) && At(n, p).values == e.values && e.values != []
    ensures e.key == prefix + FoldStr(n.key + PathKey(n, p))
    decreases n, 1
  {
    var here := prefix + FoldStr(n.key);
    if n.values != [] && e == Entry(here, n.values) {
      p := [];
      assert n.key + PathKey(n, p) == n.key;
    } else {
      var i, q := StoredOfPath(n.children, here, e);
      var c := n.children[i];
      p := [i] + q;
      assert p[0] == i && p[1..] == q;
      assert PathKey(n, p) == c.key + PathKey(c, q);
      KeyStep(prefix, n.key, c.key + PathKey(c, q));
    }
  }

  lemma {:induction false} StoredOfPath<V>(cs: seq<Node<V>>, prefix: string, e: Entry<V>) returns (i: nat, p: seq<nat>)
    requires e in StoredOf(cs, prefix)
    ensures i < |cs| && ValidPath(cs[i], p) && At(cs[i], p).values == e.values && e.values != []
    ensures e.key == prefix + FoldStr(cs[i].key + PathKey(cs[i], p))
    decreases cs, 0
  {
    if e in Stored(cs[0], prefix) {
      i := 0;
      p := StoredPath(cs[0], prefix, e);
    } else {
      var j;
      j, p := StoredOfPath(cs[1..], prefix, e);
      i := j + 1;
    }
  }

  // ---- traverse ----

  /** traverse visits every node exactly once: as many visits as nodes, and
      the values seen add up to the node's value count. */
  lemma {:induction false} TraverseCounts<V>(n: Node<V>, level: nat)
    ensures |Traverse(n, level)| == Size(n)
    ensures ValuesSeen(Traverse(n, level)) == ValueTotal(n)
    decreases n, 1
  {
    TraverseChildrenCounts(n.children, level + 1);
    ValuesSeenConcat([Visit(n, level)], TraverseChildren(n.children, level + 1));
    assert ValuesSeen([Visit(n, level)]) == |n.values| by {
      assert [Visit(n, level)][..0] == [];
    }
  }

  lemma {:induction false} TraverseChildrenCounts<V>(cs: seq<Node<V>>, level: nat)
    ensures |TraverseChildren(cs, level)| == SizeOf(cs)
    ensures ValuesSeen(TraverseChildren(cs, level)) == ValueTotalOf(cs)
    decreases cs, 0
  {
    if cs != [] {
      TraverseCounts(cs[0], level);
      TraverseChildrenCounts(cs[1..], level);
      ValuesSeenConcat(Traverse(cs[0], level), TraverseChildren(cs[1..], level));
    }
  }

  /** The values seen by a visitor that adds up |values()| over its visits. */
  function ValuesSeen<V>(vs: seq<Visit<V>>): nat {
    if vs == [] then 0 else ValuesSeen(vs[..|vs| - 1]) + |vs[|vs| - 1].node.values|
  }

  lemma {:induction false} ValuesSeenConcat<V>(a: seq<Visit<V>>, b: seq<Visit<V>>)
    ensures ValuesSeen(a + b) == ValuesSeen(a) + ValuesSeen(b)
    decreases |b|
  {
    if b == [] {
      assert a + b == a;
    } else {
      assert (a + b)[..|a + b| - 1] == a + b[..|b| - 1];
      ValuesSeenConcat(a, b[..|b| - 1]);
    }
  }

  /** Under the invariant every node traverse visits passes validate, with the
      root (level 0) exempt from the non-empty-key check. */
  lemma {:induction false} TraverseValid<V>(n: Node<V>, level: nat)
    requires Sorted(n) && (level > 0 ==> n.key != [])
    ensures forall x :: x in Traverse(n, level) ==> NodeValid(x.node, x.level == 0)
    decreases n, 1
  {
    TraverseChildrenValid(n.children, level + 1);
  }

  lemma {:induction false} TraverseChildrenValid<V>(cs: seq<Node<V>>, level: nat)
    requires SortedChildren(cs) && forall i :: 0 <= i < |cs| ==> Sorted(cs[i])
    requires level > 0
    ensures forall x :: x in TraverseChildren(cs, level) ==> NodeValid(x.node, x.level == 0)
    decreases cs, 0
  {
    if cs != [] {
      TraverseValid(cs[0], level);
      TraverseChildrenValid(cs[1..], level);
    }
  }
}

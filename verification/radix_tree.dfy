/** The tree (RadixTree of radix_tree.hpp): a root with the empty key, which
    the tree owns itself, and the factory that owns every other node. The
    source's `using NodeType = Node<Key, Value>` names a class that is
    declared as `node`; both are Nodes.Node here. */
module Trees {
  import opened CharTraits
  import opened Nodes
  import opened NodeLemmas
  import opened NodeFactories

  /** A visitor of the bounded walk: it is shown a node and the key segment
      that matched it, and answers true to end the walk. */
  type Visitor<!V> = (Node<V>, string) -> bool

  /** node::append_child as it runs against the tree's factory: the same four
      cases, with every new node made by newNode. It does what AppendChild
      describes and stores exactly the nodes AppendChild lists as created. */
  method AppendChildWith<V>(factory: NodeFactory<V>, n: Node<V>, key: string)
      returns (r: Node<V>, path: seq<nat>)
    requires key != []
    modifies factory
    ensures r == AppendChild(n, key).node && path == AppendChild(n, key).path
    ensures factory.store == old(factory.store) + Fresh(AppendChild(n, key).created)
    decreases |key|
  {
    var cs := n.children;
    match FindChild(cs, key[0]) {
      case None =>
        var pos := InsertPos(cs, key[0]);
        var id := factory.NewNode(key);
        r := n.(children := cs[..pos] + [factory.store[id]] + cs[pos..]);
        path := [pos];
      case Some(i) =>
        var c := cs[i];
        var L := CommonPrefixLen(key, c.key);
        if L == |key| && L == |c.key| {
          r, path := n, [i];
        } else if L == |c.key| {
          var sub, subPath := AppendChildWith(factory, c, key[L..]);
          r := n.(children := cs[i := sub]);
          path := [i] + subPath;
        } else if L == |key| {
          var id := factory.NewNode(key);
          var moved := c.(key := c.key[L..]);
          r := n.(children := cs[i := factory.store[id].(children := [moved])]);
          path := [i];
        } else {
          var branchId := factory.NewNode(key[..L]);
          var leafId := factory.NewNode(key[L..]);
          var moved := c.(key := c.key[L..]);
          var leafFirst := CharLess(key[L], c.key[L]);
          var leaf := factory.store[leafId];
          var kids := if leafFirst then [leaf, moved] else [moved, leaf];
          r := n.(children := cs[i := factory.store[branchId].(children := kids)]);
          path := [i, if leafFirst then 0 else 1];
        }
    }
  }

  // ---- insert, on values ----

  /** The nodes insert has the factory make. */
  function Created<V>(root: Node<V>, key: string): seq<string> {
    if key == [] then [] else AppendChild(root, key).created
  }

  /** What insert(key, value) does to the root: an empty key puts the value on
      the root; any other key goes through append_child and append_value. */
  function InsertValue<V>(root: Node<V>, key: string, v: V): Node<V> {
    if key == [] then AppendValue(root, v)
    else var a := AppendChild(root, key); AppendValueAt(a.node, a.path, v)
  }

  /** insert keeps the invariant, adds exactly one value, and adds exactly the
      nodes it has the factory make. */
  lemma InsertKeepsInvariant<V>(root: Node<V>, key: string, v: V)
    requires Sorted(root)
    ensures var t := InsertValue(root, key, v);
            && t.key == root.key
            && Sorted(t)
            && ValueTotal(t) == ValueTotal(root) + 1
            && Size(t) == Size(root) + |Created(root, key)|
  {
    if key == [] {
      AppendValueAtProps(root, [], v);
    } else {
      var a := AppendChild(root, key);
      AppendChildSorted(root, key);
      AppendChildCounts(root, key, []);
      AppendValueAtProps(a.node, a.path, v);
    }
  }

  /** insert("", v) appends v to the root's values and makes no node. */
  lemma InsertEmptyKey<V>(root: Node<V>, v: V)
    ensures var t := InsertValue(root, [], v);
            && t.values == root.values + [v] && t.children == root.children
            && Created(root, []) == [] && Size(t) == Size(root)
  {
    assert Size(InsertValue(root, [], v)) == 1 + SizeOf(root.children);
  }

  /** Inserting under a key the tree already holds makes no node. */
  lemma InsertPresentKey<V>(root: Node<V>, key: string, v: V, p: seq<nat>)
    requires Sorted(root)
    requires ValidPath(root, p) && KeyEquals(PathKey(root, p), key)
    ensures Created(root, key) == []
    ensures Size(InsertValue(root, key, v)) == Size(root)
  {
    if key != [] && p != [] {
      AppendExisting(root, key, p);
    }
    InsertKeepsInvariant(root, key, v);
  }

  /** A second insert under the same key makes no node. */
  lemma InsertTwiceKeepsSize<V>(root: Node<V>, key: string, v1: V, v2: V)
    requires Sorted(root)
    ensures var t := InsertValue(root, key, v1);
            Size(InsertValue(t, key, v2)) == Size(t)
  {
    var t := InsertValue(root, key, v1);
    InsertKeepsInvariant(root, key, v1);
    if key == [] {
      InsertPresentKey(t, key, v2, []);
    } else {
      var a := AppendChild(root, key);
      AppendChildReaches(root, key);
      AppendValueAtProps(a.node, a.path, v1);
      InsertPresentKey(t, key, v2, a.path);
    }
  }

  /** A run of inserts, one after another. */
  function InsertAll<V>(root: Node<V>, entries: seq<(string, V)>): Node<V>
    decreases |entries|
  {
    if entries == [] then root
    else InsertAll(InsertValue(root, entries[0].0, entries[0].1), entries[1..])
  }

  /** Any run of inserts keeps the invariant, so validate holds at every node
      (the root exempt from the non-empty-key check), and adds one value per
      insert. */
  lemma {:induction false} InsertAllKeepsInvariant<V>(root: Node<V>, entries: seq<(string, V)>)
    requires root.key == [] && Sorted(root)
    ensures var t := InsertAll(root, entries);
            && t.key == [] && Sorted(t)
            && ValueTotal(t) == ValueTotal(root) + |entries|
            && forall x :: x in Traverse(t, 0) ==> NodeValid(x.node, x.level == 0)
    decreases |entries|
  {
    if entries == [] {
      TraverseValid(root, 0);
    } else {
      InsertKeepsInvariant(root, entries[0].0, entries[0].1);
      InsertAllKeepsInvariant(InsertValue(root, entries[0].0, entries[0].1), entries[1..]);
    }
  }

  // ---- the bounded walk ----

  /** The nodes met along path `p` below `n`, in order. */
  function NodesAlong<V>(n: Node<V>, p: seq<nat>): (ns: seq<Node<V>>)
    requires ValidPath(n, p)
    ensures |ns| == |p|
    decreases |p|
  {
    if p == [] then [] else [n.children[p[0]]] + NodesAlong(n.children[p[0]], p[1..])
  }

  /** The path traverse(query, visitor) walks below `n` with `rest` left of
      the query: at each step the unique child whose key is a case-insensitive
      prefix of what is left, until the visitor answers true or no child
      matches. */
  function WalkFrom<V>(n: Node<V>, rest: string, stop: Visitor<V>): (p: seq<nat>)
    ensures ValidPath(n, p)
    decreases |rest|
  {
    match FindPrefixChild(n, rest)
    case None => []
    case Some(i) =>
      var c := n.children[i];
      if stop(c, c.key) then [i] else [i] + WalkFrom(c, rest[|c.key|..], stop)
  }

  /** One step of the walk: no matching child ends it; a matching child is
      taken, and the walk goes on below it unless the visitor answers true. */
  lemma WalkStep<V>(n: Node<V>, rest: string, stop: Visitor<V>)
    ensures FindPrefixChild(n, rest) == None ==> WalkFrom(n, rest, stop) == []
    ensures FindPrefixChild(n, rest).Some? ==>
              var i := FindPrefixChild(n, rest).value;
              var c := n.children[i];
              && WalkFrom(n, rest, stop) != [] && WalkFrom(n, rest, stop)[0] == i
              && (stop(c, c.key) ==> WalkFrom(n, rest, stop)[1..] == [])
              && (!stop(c, c.key) ==> WalkFrom(n, rest, stop)[1..] == WalkFrom(c, rest[|c.key|..], stop))
  {
  }

  lemma Assoc<T>(a: seq<T>, b: seq<T>, c: seq<T>)
    ensures (a + b) + c == a + (b + c)
  {
  }

  /** The nodes traverse(query, visitor) shows its visitor: the root first
      when it holds values, then the walk. */
  function Visited<V>(root: Node<V>, query: string, stop: Visitor<V>): seq<Node<V>> {
    (if HasValue(root) then [root] else []) + NodesAlong(root, WalkFrom(root, query, stop))
  }

  lemma {:induction false} ExtendPath<V>(n: Node<V>, p: seq<nat>, i: nat)
    requires ValidPath(n, p) && i < |At(n, p).children|
    ensures ValidPath(n, p + [i])
    ensures At(n, p + [i]) == At(n, p).children[i]
    ensures NodesAlong(n, p + [i]) == NodesAlong(n, p) + [At(n, p).children[i]]
    ensures PathKey(n, p + [i]) == PathKey(n, p) + At(n, p).children[i].key
    decreases |p|
  {
    if p == [] {
      assert [i][1..] == [];
    } else {
      assert (p + [i])[0] == p[0] && (p + [i])[1..] == p[1..] + [i];
      ExtendPath(n.children[p[0]], p[1..], i);
    }
  }

  lemma PrefixConcat(a: string, b: string, s: string)
    requires IsPrefix(a, s) && IsPrefix(b, s[|a|..])
    ensures IsPrefix(a + b, s)
  {
    var ab := a + b;
    forall k | 0 <= k < |ab| ensures Fold(ab[k]) == Fold(s[k]) {
      if k < |a| {
        assert FoldStr(a)[k] == FoldStr(s[..|a|])[k];
      } else {
        assert FoldStr(b)[k - |a|] == FoldStr(s[|a|..][..|b|])[k - |a|];
      }
    }
    assert FoldStr(ab) == FoldStr(s[..|ab|]);
  }

  /** A prefix of a valid path is a valid path, and its keys spell a prefix
      of what the whole path spells. */
  lemma {:induction false} PathPrefix<V>(n: Node<V>, p: seq<nat>, k: nat)
    requires ValidPath(n, p) && k <= |p|
    ensures ValidPath(n, p[..k])
    ensures |PathKey(n, p[..k])| <= |PathKey(n, p)|
    ensures PathKey(n, p[..k]) == PathKey(n, p)[..|PathKey(n, p[..k])|]
    decreases |p|
  {
    if k > 0 {
      var c := n.children[p[0]];
      assert p[..k][0] == p[0] && p[..k][1..] == p[1..][..k - 1];
      PathPrefix(c, p[1..], k - 1);
    }
  }

  lemma IsPrefixOfPrefix(a: string, b: string, s: string)
    requires |a| <= |b| && a == b[..|a|] && IsPrefix(b, s)
    ensures IsPrefix(a, s)
  {
    assert forall i :: 0 <= i < |a| ==> FoldStr(a)[i] == FoldStr(b)[i];
    assert FoldStr(a) == FoldStr(s[..|a|]);
  }

  /** The keys along the walk spell a case-insensitive prefix of the query. */
  lemma {:induction false} WalkPrefix<V>(n: Node<V>, rest: string, stop: Visitor<V>)
    ensures IsPrefix(PathKey(n, WalkFrom(n, rest, stop)), rest)
    decreases |rest|
  {
    var p := WalkFrom(n, rest, stop);
    match FindPrefixChild(n, rest)
    case None =>
    case Some(i) =>
      var c := n.children[i];
      if stop(c, c.key) {
        assert PathKey(n, p) == c.key + [];
      } else {
        var q := WalkFrom(c, rest[|c.key|..], stop);
        WalkPrefix(c, rest[|c.key|..], stop);
        assert PathKey(n, p) == c.key + PathKey(c, q);
        PrefixConcat(c.key, PathKey(c, q), rest);
      }
  }

  /** The visitor answered false on every node of `ns` but the last. */
  predicate GoesOn<V>(ns: seq<Node<V>>, stop: Visitor<V>) {
    forall k :: 0 <= k < |ns| - 1 ==> !stop(ns[k], ns[k].key)
  }

  /** No node on the walk but the last made the visitor answer true. */
  lemma {:induction false} WalkGoesOn<V>(n: Node<V>, rest: string, stop: Visitor<V>)
    ensures GoesOn(NodesAlong(n, WalkFrom(n, rest, stop)), stop)
    decreases |rest|
  {
    var p := WalkFrom(n, rest, stop);
    match FindPrefixChild(n, rest)
    case None =>
    case Some(i) =>
      var c := n.children[i];
      if !stop(c, c.key) {
        var q := WalkFrom(c, rest[|c.key|..], stop);
        WalkGoesOn(c, rest[|c.key|..], stop);
        assert p == [i] + q;
        var ns, ns' := NodesAlong(n, p), NodesAlong(c, q);
        assert ns == [c] + ns';
        forall k | 0 <= k < |p| - 1 ensures !stop(ns[k], ns[k].key) {
          if k > 0 {
            assert ns[k] == ns'[k - 1];
          } else {
            assert ns[k] == c;
          }
        }
      }
  }

  /** The walk ends only where the visitor answered true or no child matches
      what is left of the query. */
  lemma {:induction false} WalkEnds<V>(n: Node<V>, rest: string, stop: Visitor<V>)
    ensures WalkFrom(n, rest, stop) == [] <==> FindPrefixChild(n, rest) == None
    ensures var p := WalkFrom(n, rest, stop);
            p != [] ==> var last := At(n, p);
                        && |PathKey(n, p)| <= |rest|
                        && (stop(last, last.key) || FindPrefixChild(last, rest[|PathKey(n, p)|..]) == None)
    decreases |rest|
  {
    var p := WalkFrom(n, rest, stop);
    WalkPrefix(n, rest, stop);
    match FindPrefixChild(n, rest)
    case None =>
    case Some(i) =>
      var c := n.children[i];
      if stop(c, c.key) {
        assert At(n, p) == At(c, []);
      } else {
        var rest' := rest[|c.key|..];
        var q := WalkFrom(c, rest', stop);
        WalkEnds(c, rest', stop);
        WalkPrefix(c, rest', stop);
        assert PathKey(n, p) == c.key + PathKey(c, q);
        if q == [] {
          assert At(n, p) == At(c, []);
          assert rest[|PathKey(n, p)|..] == rest';
        } else {
          assert At(n, p) == At(c, q);
          assert rest[|PathKey(n, p)|..] == rest'[|PathKey(c, q)|..];
        }
      }
  }

  /** Every node on the walk has an accumulated key that is a case-insensitive
      prefix of the query. */
  lemma WalkKeysArePrefixes<V>(n: Node<V>, rest: string, stop: Visitor<V>, k: nat)
    requires k <= |WalkFrom(n, rest, stop)|
    ensures var p := WalkFrom(n, rest, stop);
            ValidPath(n, p[..k]) && IsPrefix(PathKey(n, p[..k]), rest)
  {
    var p := WalkFrom(n, rest, stop);
    WalkPrefix(n, rest, stop);
    PathPrefix(n, p, k);
    IsPrefixOfPrefix(PathKey(n, p[..k]), PathKey(n, p), rest);
  }

  /** A visitor that never ends the walk. */
  function NeverStop<V>(): Visitor<V> {
    (n: Node<V>, segment: string) => false
  }

  /** In an ordered tree, a path whose keys spell the query is exactly the
      path a walk that never stops takes. */
  lemma {:induction false} WalkFindsPath<V>(n: Node<V>, p: seq<nat>, query: string)
    requires Sorted(n) && ValidPath(n, p) && KeyEquals(PathKey(n, p), query)
    ensures WalkFrom(n, query, NeverStop()) == p
    decreases |p|
  {
    if p == [] {
      assert |FoldStr(query)| == 0;
    } else {
      var j := p[0];
      var c := n.children[j];
      var rest := PathKey(c, p[1..]);
      assert PathKey(n, p) == c.key + rest;
      FoldStrAppend(c.key, rest);
      assert FoldStr(query)[..|c.key|] == FoldStr(c.key);
      assert FoldStr(query[..|c.key|]) == FoldStr(query)[..|c.key|];
      FindPrefixChildExact(n, query, j);
      assert query == query[..|c.key|] + query[|c.key|..];
      FoldStrAppend(query[..|c.key|], query[|c.key|..]);
      assert KeyEquals(rest, query[|c.key|..]);
      WalkFindsPath(c, p[1..], query[|c.key|..]);
      assert !NeverStop<V>()(c, c.key);
    }
  }

  /** The round trip: after insert(key, v), a walk for `key` that never stops
      ends at a node whose accumulated key is `key`, case-insensitively, and
      whose value list ends with v. */
  lemma InsertRoundTrip<V>(root: Node<V>, key: string, v: V)
    requires Sorted(root)
    ensures var t := InsertValue(root, key, v);
            var p := WalkFrom(t, key, NeverStop());
            && KeyEquals(PathKey(t, p), key)
            && |At(t, p).values| > 0 && At(t, p).values[|At(t, p).values| - 1] == v
  {
    var t := InsertValue(root, key, v);
    InsertKeepsInvariant(root, key, v);
    if key == [] {
      WalkFindsPath(t, [], key);
    } else {
      var a := AppendChild(root, key);
      AppendChildReaches(root, key);
      AppendValueAtProps(a.node, a.path, v);
      WalkFindsPath(t, a.path, key);
    }
  }

  // ---- what insert keeps ----

  /** The value list insert(key, v) appends to, as it was before: the root's
      for the empty key, otherwise that of the node append_child reaches. */
  function Target<V>(root: Node<V>, key: string): seq<V> {
    if key == [] then root.values
    else var a := AppendChild(root, key); At(a.node, a.path).values
  }

  /** insert(key, v) changes one entry only: the value list stored under the
      folded key gains v at its end, and every other value list keeps its
      key and its values. */
  lemma InsertStored<V>(root: Node<V>, key: string, v: V)
    requires root.key == []
    ensures Stored(InsertValue(root, key, v), []) + Held(FoldStr(key), Target(root, key))
              == Stored(root, []) + multiset{Entry(FoldStr(key), Target(root, key) + [v])}
  {
    if key == [] {
      AppendValueAtStored(root, [], v, []);
    } else {
      var a := AppendChild(root, key);
      AppendChildCounts(root, key, []);
      AppendChildReaches(root, key);
      StoredAtEnd(root, a.node, a.path, key, v);
    }
  }

  /** InsertStored once append_child has run: `n` holds what `root` held, and
      its path spells the key. */
  lemma StoredAtEnd<V>(root: Node<V>, n: Node<V>, path: seq<nat>, key: string, v: V)
    requires n.key == [] && Stored(n, []) == Stored(root, [])
    requires ValidPath(n, path) && KeyEquals(PathKey(n, path), key)
    ensures Stored(AppendValueAt(n, path, v), []) + Held(FoldStr(key), At(n, path).values)
              == Stored(root, []) + multiset{Entry(FoldStr(key), At(n, path).values + [v])}
  {
    AppendValueAtStored(n, path, v, []);
    assert n.key + PathKey(n, path) == PathKey(n, path);
    assert [] + FoldStr(PathKey(n, path)) == FoldStr(key);
  }

  /** insert(key, v) stores v at the end of the value list under the folded
      key. */
  lemma InsertAdds<V>(root: Node<V>, key: string, v: V)
    requires root.key == []
    ensures Entry(FoldStr(key), Target(root, key) + [v]) in Stored(InsertValue(root, key, v), [])
  {
    var added := Entry(FoldStr(key), Target(root, key) + [v]);
    InsertStored(root, key, v);
    assert (Stored(InsertValue(root, key, v), []) + Held(FoldStr(key), Target(root, key)))[added] > 0;
  }

  /** No value is lost or moved by insert: every value list the tree held is
      still held under the same folded key, with the same values first. */
  lemma InsertKeepsEntry<V>(root: Node<V>, key: string, v: V, e: Entry<V>) returns (e': Entry<V>)
    requires root.key == [] && e in Stored(root, [])
    ensures e' in Stored(InsertValue(root, key, v), [])
    ensures e'.key == e.key && |e.values| <= |e'.values| && e'.values[..|e.values|] == e.values
  {
    var t, target := InsertValue(root, key, v), Target(root, key);
    var added := Entry(FoldStr(key), target + [v]);
    InsertStored(root, key, v);
    if target != [] && e == Entry(FoldStr(key), target) {
      e' := added;
      assert (Stored(t, []) + Held(FoldStr(key), target))[added] > 0;
    } else {
      e' := e;
      assert (Stored(t, []) + Held(FoldStr(key), target))[e] > 0;
    }
  }

  /** In an ordered tree whose root key is empty, a stored value list is what
      the walk for its key finds: the walk that never stops, for any key that
      folds to the entry's, ends at the node holding that list. */
  lemma StoredFound<V>(t: Node<V>, e: Entry<V>, key: string)
    requires t.key == [] && Sorted(t)
    requires e in Stored(t, []) && e.key == FoldStr(key)
    ensures var p := WalkFrom(t, key, NeverStop());
            KeyEquals(PathKey(t, p), key) && At(t, p).values == e.values
  {
    var p := StoredPath(t, [], e);
    assert t.key + PathKey(t, p) == PathKey(t, p);
    WalkFindsPath(t, p, key);
  }

  /** No run of inserts loses or moves a value the tree held. */
  lemma {:induction false} InsertAllKeepsEntry<V>(root: Node<V>, entries: seq<(string, V)>, e: Entry<V>)
      returns (e': Entry<V>)
    requires root.key == [] && Sorted(root) && e in Stored(root, [])
    ensures e' in Stored(InsertAll(root, entries), [])
    ensures e'.key == e.key && |e.values| <= |e'.values| && e'.values[..|e.values|] == e.values
    decreases |entries|
  {
    if entries == [] {
      e' := e;
    } else {
      var (key, v) := entries[0];
      InsertKeepsInvariant(root, key, v);
      var e1 := InsertKeepsEntry(root, key, v, e);
      e' := InsertAllKeepsEntry(InsertValue(root, key, v), entries[1..], e1);
      assert e'.values[..|e.values|] == e'.values[..|e1.values|][..|e.values|];
    }
  }

  /** A value at the end of a list stored under the folded key is found by
      the walk for the key after any further run of inserts. */
  lemma FoundAfter<V>(t: Node<V>, entries: seq<(string, V)>, e: Entry<V>, key: string, v: V)
    requires t.key == [] && Sorted(t) && e in Stored(t, [])
    requires e.key == FoldStr(key) && e.values != [] && e.values[|e.values| - 1] == v
    ensures var t' := InsertAll(t, entries);
            var p := WalkFrom(t', key, NeverStop());
            KeyEquals(PathKey(t', p), key) && v in At(t', p).values
  {
    var e' := InsertAllKeepsEntry(t, entries, e);
    InsertAllKeepsInvariant(t, entries);
    StoredFound(InsertAll(t, entries), e', key);
    assert e'.values[|e.values| - 1] == v;
  }

  /** The round trip over any run of inserts: for every insert(key, v) of the
      run, the walk for key that never stops, in the tree at the end, ends at
      a node whose accumulated key is key case-insensitively and whose value
      list holds v. */
  lemma {:induction false} InsertAllRoundTrip<V>(root: Node<V>, entries: seq<(string, V)>, j: nat)
    requires root.key == [] && Sorted(root) && j < |entries|
    ensures var t := InsertAll(root, entries);
            var p := WalkFrom(t, entries[j].0, NeverStop());
            KeyEquals(PathKey(t, p), entries[j].0) && entries[j].1 in At(t, p).values
    decreases j
  {
    var key, v := entries[0].0, entries[0].1;
    var t1 := InsertValue(root, key, v);
    InsertKeepsInvariant(root, key, v);
    assert InsertAll(root, entries) == InsertAll(t1, entries[1..]);
    if j == 0 {
      InsertAdds(root, key, v);
      FoundAfter(t1, entries[1..], Entry(FoldStr(key), Target(root, key) + [v]), key, v);
    } else {
      InsertAllRoundTrip(t1, entries[1..], j - 1);
      assert entries[1..][j - 1] == entries[j];
    }
  }

  // ---- the tree ----

  class RadixTree<V> {
    /** m_root */
    var root: Node<V>
    /** m_factory */
    const factory: NodeFactory<V>

    /** The root has the empty key; every node below it has a non-empty key
        and its siblings in strict folded order; and the tree has one node
        more than the factory has made. */
    ghost predicate Valid()
      reads this, factory
    {
      && root.key == []
      && Sorted(root)
      && Size(root) == |factory.store| + 1
    }

    /** An empty tree: a root with no children and no values. */
    constructor ()
      ensures Valid() && fresh(factory)
      ensures root == Node([], [], [])
    {
      root := Node([], [], []);
      factory := new NodeFactory();
    }

    /** insert */
    method Insert(key: string, v: V)
      requires Valid()
      modifies this, factory
      ensures Valid()
      ensures root == InsertValue(old(root), key, v)
      ensures factory.store == old(factory.store) + Fresh(Created(old(root), key))
      ensures ValueTotal(root) == old(ValueTotal(root)) + 1
    {
      InsertKeepsInvariant(root, key, v);
      if key == [] {
        root := AppendValue(root, v);
      } else {
        var node, path := AppendChildWith(factory, root, key);
        root := AppendValueAt(node, path, v);
      }
    }

    /** clear: the root lets go of its children and values, then the factory
        of every node it made. */
    method Clear()
      requires Valid()
      modifies this, factory
      ensures Valid()
      ensures root == Nodes.Clear(old(root)) && factory.store == []
      ensures Size(root) == 1 && ValueTotal(root) == 0
    {
      root := Nodes.Clear(root);
      factory.Clear();
    }

    /** traverse_all: the pre-order walk from the root, with depths. */
    function TraverseAll(): seq<Visit<V>>
      reads this
    {
      Nodes.Traverse(root, 0)
    }

    /** node_count: counts the nodes traverse_all visits. */
    method NodeCount() returns (count: nat)
      ensures count == Size(root)
      ensures Valid() ==> count == |factory.store| + 1
    {
      var visits := TraverseAll();
      count := 0;
      var i := 0;
      while i < |visits|
        invariant 0 <= i <= |visits| && count == i
      {
        count := count + 1;
        i := i + 1;
      }
      TraverseCounts(root, 0);
    }

    /** value_count: adds up the values of every node traverse_all visits. */
    method ValueCount() returns (count: nat)
      ensures count == ValueTotal(root)
    {
      var visits := TraverseAll();
      count := 0;
      var i := 0;
      while i < |visits|
        invariant 0 <= i <= |visits| && count == ValuesSeen(visits[..i])
      {
        assert visits[..i + 1][..i] == visits[..i];
        count := count + |visits[i].node.values|;
        i := i + 1;
      }
      assert visits[..i] == visits;
      TraverseCounts(root, 0);
    }

    /** traverse(query, visitor): the root first when it holds values (what
        its visitor answers is not consulted), then the walk down the unique
        prefix-matching child, one node at a time. */
    method Traverse(query: string, stop: Visitor<V>) returns (visited: seq<Node<V>>)
      ensures visited == Visited(root, query, stop)
    {
      var start := root;
      var head := if HasValue(start) then [start] else [];
      visited := head;
      var cursor, rest := start, query;
      ghost var path: seq<nat> := [];
      ghost var remaining := WalkFrom(start, query, stop);
      var done := false;
      while !done
        invariant ValidPath(start, path) && cursor == At(start, path)
        invariant visited == head + NodesAlong(start, path)
        invariant path + remaining == WalkFrom(start, query, stop)
        invariant remaining == if done then [] else WalkFrom(cursor, rest, stop)
        decreases if done then 0 else 1, |rest|
      {
        WalkStep(cursor, rest, stop);
        var found := FindPrefixChild(cursor, rest);
        if found.None? {
          done := true;
          remaining := [];
        } else {
          var c := cursor.children[found.value];
          ExtendPath(start, path, found.value);
          Assoc(head, NodesAlong(start, path), [c]);
          visited := visited + [c];
          Assoc(path, [found.value], remaining[1..]);
          assert [found.value] + remaining[1..] == remaining;
          path, remaining := path + [found.value], remaining[1..];
          cursor := c;
          if stop(c, c.key) {
            done := true;
          } else {
            rest := rest[|c.key|..];
          }
        }
      }
      assert path + [] == path;
    }

    /** validate: every node traverse_all visits passes node::validate, the
        root exempt from the non-empty-key check. */
    method Validate() returns (ok: bool)
      ensures ok <==> forall k :: 0 <= k < |TraverseAll()| ==>
                        NodeValid(TraverseAll()[k].node, TraverseAll()[k].level == 0)
      ensures Valid() ==> ok
    {
      var visits := TraverseAll();
      ok := true;
      var i := 0;
      while i < |visits|
        invariant 0 <= i <= |visits|
        invariant ok <==> forall k :: 0 <= k < i ==> NodeValid(visits[k].node, visits[k].level == 0)
      {
        var nodeOk := Nodes.Validate(visits[i].node, visits[i].level == 0);
        ok := ok && nodeOk;
        i := i + 1;
      }
      if Valid() {
        TraverseValid(root, 0);
        assert forall k :: 0 <= k < |visits| ==> visits[k] in visits;
      }
    }
  }

  // ---- validate as the source writes it ----

  /** RadixTree::validate as written: node::validate asserts a non-empty key
      on every node it is called on, the root included. */
  ghost predicate ValidateAsWritten<V>(root: Node<V>) {
    forall k :: 0 <= k < |Traverse(root, 0)| ==> NodeValid(Traverse(root, 0)[k].node, false)
  }

  /** The root's key is empty and traverse_all visits the root first, so the
      validate that is written fails on every tree, the empty one included. */
  lemma ValidateAsWrittenFails<V>(t: RadixTree<V>)
    requires t.Valid()
    ensures !ValidateAsWritten(t.root)
  {
    assert Traverse(t.root, 0)[0].node == t.root;
  }
}

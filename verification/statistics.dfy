/** The counting pass of statistics(tree) in statistics.hpp: one walk over
    traverse_all that sorts every node into branch or leaf and fills four
    histograms. The source calls hasChild/childCount where node declares
    has_child/child_count; both are Nodes.HasChild and Nodes.ChildCount. */
module TreeStatistics {
  import opened Nodes
  import opened NodeLemmas
  import opened Trees

  /** The counters and histograms, and the two totals the result also
      reports (node_count and value_count of the tree). */
  datatype Counts = Counts(
    numLeaf: nat,
    numBranch: nat,
    childCounts: map<nat, nat>,
    valueCounts: map<nat, nat>,
    branchesByLevel: map<nat, nat>,
    leavesByLevel: map<nat, nat>,
    nodeCount: nat,
    valueCount: nat)

  /** `++m[k]` on a std::map: operator[] first inserts a zero count. */
  function Bump(m: map<nat, nat>, k: nat): (r: map<nat, nat>)
    ensures r.Keys == m.Keys + {k}
    ensures r[k] == (if k in m then m[k] else 0) + 1
    ensures forall j :: j in m && j != k ==> r[j] == m[j]
  {
    m[k := (if k in m then m[k] else 0) + 1]
  }

  // ---- what the pass computes, stated on the visit list ----

  /** The visits to nodes that have children, in order. */
  function Branches<V>(vs: seq<Visit<V>>): seq<Visit<V>> {
    if vs == [] then []
    else Branches(vs[..|vs| - 1]) + (if HasChild(vs[|vs| - 1].node) then [vs[|vs| - 1]] else [])
  }

  /** The visits to nodes without children, in order. */
  function Leaves<V>(vs: seq<Visit<V>>): seq<Visit<V>> {
    if vs == [] then []
    else Leaves(vs[..|vs| - 1]) + (if HasChild(vs[|vs| - 1].node) then [] else [vs[|vs| - 1]])
  }

  function ChildCountsOf<V>(vs: seq<Visit<V>>): seq<nat> {
    seq(|vs|, i requires 0 <= i < |vs| => ChildCount(vs[i].node))
  }

  function LevelsOf<V>(vs: seq<Visit<V>>): seq<nat> {
    seq(|vs|, i requires 0 <= i < |vs| => vs[i].level)
  }

  function ValueSizesOf<V>(vs: seq<Visit<V>>): seq<nat> {
    seq(|vs|, i requires 0 <= i < |vs| => |vs[i].node.values|)
  }

  /** The histogram of a list: each entry counted under its own value. */
  function Histogram(xs: seq<nat>): map<nat, nat> {
    if xs == [] then map[] else Bump(Histogram(xs[..|xs| - 1]), xs[|xs| - 1])
  }

  function Sum(xs: seq<nat>): nat {
    if xs == [] then 0 else Sum(xs[..|xs| - 1]) + xs[|xs| - 1]
  }

  // ---- sums over a histogram ----

  /** The sum of a histogram's counts. */
  ghost function Total(m: map<nat, nat>): nat
    decreases |m.Keys|
  {
    if m.Keys == {} then 0
    else var k :| k in m.Keys; m[k] + Total(m - {k})
  }

  /** The sum of bucket times count over a histogram. */
  ghost function Weighted(m: map<nat, nat>): nat
    decreases |m.Keys|
  {
    if m.Keys == {} then 0
    else var k :| k in m.Keys; k * m[k] + Weighted(m - {k})
  }

  lemma RemoveBoth(m: map<nat, nat>, j: nat, k: nat)
    ensures (m - {j}) - {k} == (m - {k}) - {j}
  {
  }

  /** Total does not depend on which key it takes first. */
  lemma {:induction false} TotalRemove(m: map<nat, nat>, k: nat)
    requires k in m
    ensures Total(m) == m[k] + Total(m - {k})
    decreases |m.Keys|
  {
    var j: nat :| j in m.Keys && Total(m) == m[j] + Total(m - {j});
    if j != k {
      var mj, mk := m - {j}, m - {k};
      TotalRemove(mj, k);
      TotalRemove(mk, j);
      RemoveBoth(m, j, k);
    }
  }

  lemma {:induction false} WeightedRemove(m: map<nat, nat>, k: nat)
    requires k in m
    ensures Weighted(m) == k * m[k] + Weighted(m - {k})
    decreases |m.Keys|
  {
    var j: nat :| j in m.Keys && Weighted(m) == j * m[j] + Weighted(m - {j});
    if j != k {
      var mj, mk := m - {j}, m - {k};
      WeightedRemove(mj, k);
      WeightedRemove(mk, j);
      RemoveBoth(m, j, k);
    }
  }

  /** One `++m[k]` adds one to the total. */
  lemma BumpTotal(m: map<nat, nat>, k: nat)
    ensures Total(Bump(m, k)) == Total(m) + 1
  {
    var b := Bump(m, k);
    TotalRemove(b, k);
    if k in m {
      TotalRemove(m, k);
      assert b - {k} == m - {k};
    } else {
      assert b - {k} == m;
    }
  }

  /** One `++m[k]` adds k to the weighted sum. */
  lemma MulSucc(a: nat, b: nat)
    ensures a * (b + 1) == a * b + a
  {
  }

  lemma BumpWeighted(m: map<nat, nat>, k: nat)
    ensures Weighted(Bump(m, k)) == Weighted(m) + k
  {
    var b: map<nat, nat> := Bump(m, k);
    var only: set<nat> := {k};
    WeightedRemove(b, k);
    if k in m {
      WeightedRemove(m, k);
      assert b - only == m - only;
      MulSucc(k, m[k]);
    } else {
      assert b - only == m;
    }
  }

  /** The histogram of a list has a bucket for exactly the values in it, and
      each bucket holds the number of times its value occurs. */
  lemma {:induction false} HistogramCounts(xs: seq<nat>)
    ensures forall k :: k in Histogram(xs) <==> k in xs
    ensures forall k :: k in Histogram(xs) ==> Histogram(xs)[k] == multiset(xs)[k]
  {
    if xs != [] {
      var init, x := xs[..|xs| - 1], xs[|xs| - 1];
      HistogramCounts(init);
      assert xs == init + [x];
      assert multiset(xs) == multiset(init) + multiset{x};
    }
  }

  /** A histogram's counts add up to the length of the list, and bucket times
      count adds up to the sum of the list. */
  lemma {:induction false} HistogramSums(xs: seq<nat>)
    ensures Total(Histogram(xs)) == |xs|
    ensures Weighted(Histogram(xs)) == Sum(xs)
  {
    if xs != [] {
      HistogramSums(xs[..|xs| - 1]);
      BumpTotal(Histogram(xs[..|xs| - 1]), xs[|xs| - 1]);
      BumpWeighted(Histogram(xs[..|xs| - 1]), xs[|xs| - 1]);
    }
  }

  /** Every visit is a branch or a leaf, never both. */
  lemma {:induction false} BranchesAndLeaves<V>(vs: seq<Visit<V>>)
    ensures |Branches(vs)| + |Leaves(vs)| == |vs|
    ensures forall x :: x in Branches(vs) ==> x in vs && HasChild(x.node)
    ensures forall x :: x in Leaves(vs) ==> x in vs && !HasChild(x.node)
    ensures forall x :: x in vs ==> (x in Branches(vs) <==> HasChild(x.node))
  {
    if vs != [] {
      var init := vs[..|vs| - 1];
      BranchesAndLeaves(init);
      assert vs == init + [vs[|vs| - 1]];
    }
  }

  /** The value sizes of the visits add up to what ValuesSeen counts. */
  lemma {:induction false} ValueSizesSum<V>(vs: seq<Visit<V>>)
    ensures Sum(ValueSizesOf(vs)) == ValuesSeen(vs)
  {
    if vs != [] {
      var init := vs[..|vs| - 1];
      ValueSizesSum(init);
      assert ValueSizesOf(vs)[..|vs| - 1] == ValueSizesOf(init);
    }
  }

  /** Every bucket of the children histogram is at least 1: only nodes with
      children are counted there. */
  lemma ChildBucketsPositive<V>(vs: seq<Visit<V>>)
    ensures forall k :: k in Histogram(ChildCountsOf(Branches(vs))) ==> k >= 1
  {
    var bs := Branches(vs);
    BranchesAndLeaves(vs);
    HistogramCounts(ChildCountsOf(bs));
    forall k | k in Histogram(ChildCountsOf(bs)) ensures k >= 1 {
      var i :| 0 <= i < |bs| && ChildCountsOf(bs)[i] == k;
      assert bs[i] in bs;
    }
  }

  // ---- the pass ----

  /** What the pass has counted after the visits `vs`. */
  function Tally<V>(vs: seq<Visit<V>>, nodeCount: nat, valueCount: nat): Counts {
    Counts(|Leaves(vs)|, |Branches(vs)|,
           Histogram(ChildCountsOf(Branches(vs))), Histogram(ValueSizesOf(vs)),
           Histogram(LevelsOf(Branches(vs))), Histogram(LevelsOf(Leaves(vs))),
           nodeCount, valueCount)
  }

  /** One more visit: the counters and histograms after it. */
  lemma TallyStep<V>(vs: seq<Visit<V>>, i: nat)
    requires i < |vs|
    ensures var x, before, after := vs[i], vs[..i], vs[..i + 1];
            && Branches(after) == Branches(before) + (if HasChild(x.node) then [x] else [])
            && Leaves(after) == Leaves(before) + (if HasChild(x.node) then [] else [x])
            && Histogram(ValueSizesOf(after)) == Bump(Histogram(ValueSizesOf(before)), |x.node.values|)
  {
    var after := vs[..i + 1];
    assert after[..i] == vs[..i];
    var sizes := ValueSizesOf(after);
    assert sizes[..i] == ValueSizesOf(vs[..i]);
  }

  /** Appending one visit appends its entry to each derived list. */
  lemma Extend<V>(bs: seq<Visit<V>>, x: Visit<V>)
    ensures Histogram(ChildCountsOf(bs + [x])) == Bump(Histogram(ChildCountsOf(bs)), ChildCount(x.node))
    ensures Histogram(LevelsOf(bs + [x])) == Bump(Histogram(LevelsOf(bs)), x.level)
  {
    assert ChildCountsOf(bs + [x])[..|bs|] == ChildCountsOf(bs);
    assert LevelsOf(bs + [x])[..|bs|] == LevelsOf(bs);
  }

  /** What the pass reports about any tree: every node is a leaf or a branch;
      the children histogram has only buckets of at least 1 and counts every
      branch once; the two level histograms count every branch and every leaf
      once; and the value histogram counts every node once, its buckets
      weighted by their size adding up to the number of values. */
  lemma TallyFacts<V>(root: Node<V>)
    ensures var s := Tally(Traverse(root, 0), Size(root), ValueTotal(root));
            && s.numLeaf + s.numBranch == s.nodeCount
            && Total(s.childCounts) == s.numBranch && (forall k :: k in s.childCounts ==> k >= 1)
            && Total(s.branchesByLevel) == s.numBranch && Total(s.leavesByLevel) == s.numLeaf
            && Total(s.valueCounts) == s.nodeCount && Weighted(s.valueCounts) == s.valueCount
  {
    var visits := Traverse(root, 0);
    TraverseCounts(root, 0);
    BranchesAndLeaves(visits);
    ChildBucketsPositive(visits);
    HistogramSums(ChildCountsOf(Branches(visits)));
    HistogramSums(LevelsOf(Branches(visits)));
    HistogramSums(LevelsOf(Leaves(visits)));
    HistogramSums(ValueSizesOf(visits));
    ValueSizesSum(visits);
  }

  /** statistics(tree), without the property-tree output: counts every node
      traverse_all visits as a branch when it has children (bucketed by child
      count and by level) or as a leaf (bucketed by level), and every node by
      the size of its value list. */
  method Statistics<V>(tree: RadixTree<V>) returns (s: Counts)
    ensures s == Tally(Traverse(tree.root, 0), Size(tree.root), ValueTotal(tree.root))
    ensures s.numLeaf + s.numBranch == s.nodeCount
    ensures s.nodeCount == Size(tree.root) && s.valueCount == ValueTotal(tree.root)
    ensures Total(s.childCounts) == s.numBranch && forall k :: k in s.childCounts ==> k >= 1
    ensures Total(s.branchesByLevel) == s.numBranch && Total(s.leavesByLevel) == s.numLeaf
    ensures Total(s.valueCounts) == s.nodeCount && Weighted(s.valueCounts) == s.valueCount
  {
    var numBranch, numLeaf := 0, 0;
    var childCounts, valueCounts: map<nat, nat> := map[], map[];
    var branchesByLevel, leavesByLevel: map<nat, nat> := map[], map[];
    var visits := tree.TraverseAll();
    ghost var branches, leaves: seq<Visit<V>> := [], [];
    var i := 0;
    while i < |visits|
      invariant 0 <= i <= |visits|
      invariant branches == Branches(visits[..i]) && leaves == Leaves(visits[..i])
      invariant numBranch == |branches| && numLeaf == |leaves|
      invariant childCounts == Histogram(ChildCountsOf(branches))
      invariant branchesByLevel == Histogram(LevelsOf(branches))
      invariant leavesByLevel == Histogram(LevelsOf(leaves))
      invariant valueCounts == Histogram(ValueSizesOf(visits[..i]))
    {
      var x := visits[i];
      TallyStep(visits, i);
      if HasChild(x.node) {
        Extend(branches, x);
        numBranch := numBranch + 1;
        childCounts := Bump(childCounts, ChildCount(x.node));
        branchesByLevel := Bump(branchesByLevel, x.level);
        branches := branches + [x];
      } else {
        Extend(leaves, x);
        numLeaf := numLeaf + 1;
        leavesByLevel := Bump(leavesByLevel, x.level);
        leaves := leaves + [x];
      }
      valueCounts := Bump(valueCounts, |x.node.values|);
      i := i + 1;
    }
    assert visits[..i] == visits;
    var nodeCount := tree.NodeCount();
    var valueCount := tree.ValueCount();
    s := Counts(numLeaf, numBranch, childCounts, valueCounts, branchesByLevel, leavesByLevel,
                nodeCount, valueCount);
    TallyFacts(tree.root);
  }
}

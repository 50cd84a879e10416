/**
 How deep a Huffman tree can be: each node weighs at least as much as its child and that child's
 child together, so the total frequency grows like the Fibonacci numbers with the height.
 */
module HuffmanHeight {
  import opened HuffmanLengths
  import opened HuffmanOptimal
  import opened HuffmanTree
  import opened NodeSums
  import opened Sequences

  /** The least weight of a tree of height n. */
  function LeastWeight(n: nat): (w: nat)
    ensures w >= 1
  {
    if n <= 1 then n + 1 else LeastWeight(n - 1) + LeastWeight(n - 2)
  }

  lemma {:induction false} LeastWeightGrows(m: nat, n: nat)
    requires m <= n
    ensures LeastWeight(m) <= LeastWeight(n)
  {
    if m < n { LeastWeightGrows(m, n - 1); }
  }

  /** What is known of the finished tree, all weights being exact. */
  ghost predicate Weighed(order: seq<nat>, leaves: seq<nat>, elems: nat, dad: seq<nat>, freq: seq<nat>, depth: seq<nat>)
  {
    && AreLeaves(leaves, elems) && ParentsFirst(order, leaves, elems, dad) && |order| > 0
    && BuiltGreedily(order, freq, depth) && Sum(Frontier(order, |leaves| - 1), freq) < 0x1_0000
  }

  /** The i-th pair: its parent has the sum of both, the first child is the lighter one. */
  lemma PairFacts(order: seq<nat>, leaves: seq<nat>, elems: nat, dad: seq<nat>, freq: seq<nat>, depth: seq<nat>, i: nat)
    requires Weighed(order, leaves, elems, dad, freq, depth) && i < |leaves| - 1
    ensures |order| == 2 * |leaves| - 1 && order[0] == elems + |leaves| - 2 && order[0] < |freq| <= |depth|
    ensures forall q :: 0 <= q < |order| ==> order[q] < |freq|
    ensures var x, y, z := order[2 * i + 2], order[2 * i + 1], order[0] - i;
            && freq[z] == freq[x] + freq[y] && freq[x] <= freq[y] && depth[z] == Deeper(depth, x, y) + 1
            && x < z && y < z
            && forall v :: v in Frontier(order, i) && v != z ==> v < |freq| && freq[y] <= freq[v]
  {
    hide AreLeaves, BuiltGreedily, Sum, Frontier, Deeper;
    NoWrap(order, leaves, elems, dad, freq, depth, i);
    PairIsLightest(order, freq, depth, i);
    assert order[2 * i + 2] < dad[order[2 * i + 2]] && order[2 * i + 1] < dad[order[2 * i + 1]];
  }

  /** A parent made later weighs at least as much. */
  lemma NextParent(order: seq<nat>, leaves: seq<nat>, elems: nat, dad: seq<nat>, freq: seq<nat>, depth: seq<nat>,
      i: nat)
    requires Weighed(order, leaves, elems, dad, freq, depth) && i + 1 < |leaves| - 1
    ensures i + 1 <= order[0] < |freq| && freq[order[0] - (i + 1)] <= freq[order[0] - i]
  {
    PairFacts(order, leaves, elems, dad, freq, depth, i);
    PairFacts(order, leaves, elems, dad, freq, depth, i + 1);
    FrontierNext(order, leaves, elems, dad, i);
    hide Weighed, Frontier, Deeper;
    var x, y, z := order[2 * i + 2], order[2 * i + 1], order[0] - (i + 1);
    assert x in Frontier(order, i + 1) && y in Frontier(order, i + 1);
  }

  lemma {:induction false} ParentsGrow(order: seq<nat>, leaves: seq<nat>, elems: nat, dad: seq<nat>, freq: seq<nat>,
      depth: seq<nat>, i: nat, j: nat)
    requires Weighed(order, leaves, elems, dad, freq, depth) && i <= j < |leaves| - 1
    ensures j <= order[0] < |freq| && freq[order[0] - j] <= freq[order[0] - i]
    decreases j
  {
    hide Weighed;
    PairFacts(order, leaves, elems, dad, freq, depth, j);
    if i < j {
      ParentsGrow(order, leaves, elems, dad, freq, depth, i, j - 1);
      NextParent(order, leaves, elems, dad, freq, depth, j - 1);
    }
  }

  /** A node weighs at least as much as each child of its sibling: it was there, or was made later. */
  lemma SiblingIsHeavy(order: seq<nat>, leaves: seq<nat>, elems: nat, dad: seq<nat>, freq: seq<nat>, depth: seq<nat>,
      i: nat, j: nat, s: nat)
    requires Weighed(order, leaves, elems, dad, freq, depth) && i < j < |leaves| - 1
    requires |order| == 2 * |leaves| - 1 && 2 * i + 1 <= s <= 2 * i + 2 && order[s] != order[0] - j
    ensures order[s] < |freq| && order[2 * j + 1] < |freq| && order[2 * j + 2] < |freq|
    ensures freq[order[2 * j + 2]] <= freq[order[s]] && freq[order[2 * j + 1]] <= freq[order[s]]
  {
    PairFacts(order, leaves, elems, dad, freq, depth, i);
    PairFacts(order, leaves, elems, dad, freq, depth, j);
    hide Weighed, Deeper;
    if order[s] < order[0] - j {
      assert order[s] in Frontier(order, j);
    } else {
      ParentsGrow(order, leaves, elems, dad, freq, depth, order[0] - order[s], j);
    }
  }

  /** Leaves have a weight and no height. */
  ghost predicate LeavesWeigh(order: seq<nat>, elems: nat, freq: seq<nat>, depth: seq<nat>)
  {
    forall q :: 0 <= q < |order| && order[q] < elems ==>
      order[q] < |freq| && order[q] < |depth| && freq[order[q]] >= 1 && depth[order[q]] == 0
  }

  /** Every node weighs at least as much as its height demands. */
  lemma {:induction false} NodeWeight(order: seq<nat>, leaves: seq<nat>, elems: nat, dad: seq<nat>, freq: seq<nat>,
      depth: seq<nat>, p: nat)
    requires Weighed(order, leaves, elems, dad, freq, depth) && LeavesWeigh(order, elems, freq, depth) && p < |order|
    ensures order[p] < |freq| && order[p] < |depth| && freq[order[p]] >= LeastWeight(depth[order[p]])
    decreases |order| - p, 1
  {
    hide Weighed, LeastWeight;
    LeafWeight();
    if order[p] >= elems {
      var i := PlaceOfPair(order, leaves, elems, dad, freq, depth, p);
      PairFacts(order, leaves, elems, dad, freq, depth, i);
      var x, y := 2 * i + 2, 2 * i + 1;
      NodeWeight(order, leaves, elems, dad, freq, depth, x);
      NodeWeight(order, leaves, elems, dad, freq, depth, y);
      var c := if depth[order[x]] >= depth[order[y]] then x else y;
      var s := x + y - c;
      if order[c] >= elems {
        TallChild(order, leaves, elems, dad, freq, depth, i, c, s);
      } else {
        LeastWeightGrows(0, depth[order[s]]);
      }
    }
  }

  lemma LeafWeight()
    ensures LeastWeight(0) == 1 && LeastWeight(1) == 2
    ensures forall n :: n >= 2 ==> LeastWeight(n) == LeastWeight(n - 1) + LeastWeight(n - 2)
  {
  }

  /** The children of an inner node: it is a parent, and they come later. */
  lemma PlaceOfPair(order: seq<nat>, leaves: seq<nat>, elems: nat, dad: seq<nat>, freq: seq<nat>, depth: seq<nat>,
      p: nat)
    returns (i: nat)
    requires Weighed(order, leaves, elems, dad, freq, depth) && p < |order| && order[p] >= elems
    ensures i < |leaves| - 1 && i <= order[0] && order[p] == order[0] - i && p < 2 * i + 1
  {
    hide AreLeaves, BuiltGreedily, Sum, Frontier, DepthAt, Distinct;
    OrderMembers(order, leaves, elems, dad, order[p]);
    LeavesBelow(leaves, elems, order[p]);
    i := order[0] - order[p];
    OrderDistinct(order, leaves, elems, dad);
    OneDeeper(order, leaves, elems, dad, 2 * i + 1);
    DistinctPlaces(order, ParentOf(order, 2 * i + 1), p);
  }

  /** The taller child's own taller child is no heavier than the other child. */
  lemma TallChild(order: seq<nat>, leaves: seq<nat>, elems: nat, dad: seq<nat>, freq: seq<nat>, depth: seq<nat>,
      i: nat, c: nat, s: nat)
    requires Weighed(order, leaves, elems, dad, freq, depth) && LeavesWeigh(order, elems, freq, depth)
    requires i < |leaves| - 1 && |order| == 2 * |leaves| - 1 && {c, s} == {2 * i + 1, 2 * i + 2} && c != s
    requires order[c] >= elems && order[c] < |freq| && order[s] < |freq| <= |depth|
    requires depth[order[c]] >= depth[order[s]] && freq[order[c]] >= LeastWeight(depth[order[c]])
    ensures freq[order[c]] + freq[order[s]] >= LeastWeight(depth[order[c]] + 1)
    decreases |order| - c, 0
  {
    hide Weighed, LeastWeight;
    var j := PlaceOfPair(order, leaves, elems, dad, freq, depth, c);
    assert c <= 2 * i + 2 && s <= 2 * i + 2 && c >= 2 * i + 1 && s >= 2 * i + 1;
    Differ(order, leaves, elems, dad, freq, depth, c, s);
    SiblingIsHeavy(order, leaves, elems, dad, freq, depth, i, j, s);
    PairFacts(order, leaves, elems, dad, freq, depth, j);
    var g := if depth[order[2 * j + 2]] >= depth[order[2 * j + 1]] then 2 * j + 2 else 2 * j + 1;
    NodeWeight(order, leaves, elems, dad, freq, depth, g);
    assert depth[order[c]] == depth[order[g]] + 1;
    LeafWeight();
  }

  lemma Differ(order: seq<nat>, leaves: seq<nat>, elems: nat, dad: seq<nat>, freq: seq<nat>, depth: seq<nat>,
      c: nat, s: nat)
    requires Weighed(order, leaves, elems, dad, freq, depth) && c < |order| && s < |order| && c != s
    ensures order[c] != order[s]
  {
    hide AreLeaves, BuiltGreedily, Sum, Frontier;
    OrderDistinct(order, leaves, elems, dad);
  }

  /** No node is deeper than the tree is high. */
  lemma {:induction false} DepthAndHeight(order: seq<nat>, leaves: seq<nat>, elems: nat, dad: seq<nat>, freq: seq<nat>,
      depth: seq<nat>, p: nat)
    requires Weighed(order, leaves, elems, dad, freq, depth) && p < |order|
    ensures order[p] < |depth| && order[0] < |depth| && DepthAt(order, p) + depth[order[p]] <= depth[order[0]]
  {
    hide AreLeaves, ParentsFirst, BuiltGreedily, Sum, Frontier, DepthAt, ParentOf;
    OrderLength(order, leaves, elems, dad);
    if p == 0 {
      RootAtNone(order, 0);
      PairFacts(order, leaves, elems, dad, freq, depth, 0);
    } else {
      var d, i := ParentOf(order, p), (p - 1) / 2;
      OneDeeper(order, leaves, elems, dad, p);
      PairFacts(order, leaves, elems, dad, freq, depth, i);
      DepthAndHeight(order, leaves, elems, dad, freq, depth, d);
      assert p == 2 * i + 1 || p == 2 * i + 2;
    }
  }

  /** With a small total frequency no leaf is too deep. */
  lemma LightTreesAreFlat(order: seq<nat>, leaves: seq<nat>, elems: nat, dad: seq<nat>, freq: seq<nat>, depth: seq<nat>,
      max: nat)
    requires Weighed(order, leaves, elems, dad, freq, depth) && LeavesWeigh(order, elems, freq, depth)
    requires Sum(LeafSet(order, elems, |order|), freq) < LeastWeight(max + 1)
    ensures Overflows(order, max, |order|) == 0
  {
    hide AreLeaves, ParentsFirst, BuiltGreedily, Sum, Frontier, DepthAt, LeafSet, LeavesWeigh, Overflows, LeastWeight;
    OrderLength(order, leaves, elems, dad);
    FrontierEnd(order, leaves, elems, dad);
    WeightsAdd(order, leaves, elems, dad, freq, depth, 0);
    FrontierStart(order);
    NodeWeight(order, leaves, elems, dad, freq, depth, 0);
    TermAtMost({order[0]}, freq, order[0]);
    if depth[order[0]] > max { LeastWeightGrows(max + 1, depth[order[0]]); }
    forall q | 0 <= q < |order| && order[q] < elems ensures DepthAt(order, q) <= max {
      DepthAndHeight(order, leaves, elems, dad, freq, depth, q);
    }
    ClampedIff(order, leaves, elems, dad, max);
  }
}

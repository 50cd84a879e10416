/**
 The tree that deflate builds is a best one: if no frequency wrapped around, no code lengths that
 satisfy Kraft's inequality take fewer bits, and none that take as few are shallower. So lengths
 that had to be cut are never cheapest. How deep the tree can be depends on the total frequency.
 */
module HuffmanOptimal {
  import opened Bits
  import opened CheapestCodes
  import opened HuffmanHeap
  import opened HuffmanLengths
  import opened HuffmanTree
  import opened NodeSums
  import opened Sequences

  // ----- The frontier -----

  /** The nodes that are neither expanded nor below one that is not, when i parents are expanded. */
  ghost function Frontier(order: seq<nat>, i: nat): (s: set<nat>)
    requires |order| > 0
    ensures forall x :: x in s <==> exists q :: 0 <= q < |order| && q < 2 * i + 1 && order[q] == x && x <= order[0] - i
  {
    set q | 0 <= q < |order| && q < 2 * i + 1 && order[q] <= order[0] - i :: order[q]
  }

  lemma FrontierStart(order: seq<nat>)
    requires |order| > 0
    ensures Frontier(order, 0) == {order[0]}
  {
    assert order[0] in Frontier(order, 0);
  }

  /** The place of the i-th parent and what expanding it does. */
  lemma FrontierNext(order: seq<nat>, leaves: seq<nat>, elems: nat, dad: seq<nat>, i: nat)
    requires AreLeaves(leaves, elems) && ParentsFirst(order, leaves, elems, dad) && i < |leaves| - 1
    ensures |order| == 2 * |leaves| - 1 && i <= order[0]
    ensures var x, y, z := order[2 * i + 2], order[2 * i + 1], order[0] - i;
            && z in Frontier(order, i) && x !in Frontier(order, i) && y !in Frontier(order, i) && x != y
            && Frontier(order, i + 1) == Frontier(order, i) - {z} + {x, y}
  {
    hide AreLeaves;
    OrderDistinct(order, leaves, elems, dad);
    ParentIsEarlier(order, leaves, elems, dad, 2 * i + 1);
    var d := ParentOf(order, 2 * i + 1);
    var x, y, z := order[2 * i + 2], order[2 * i + 1], order[0] - i;
    assert x < dad[x] == z && y < dad[y] == z;
    Expanded(order, i, d);
  }

  lemma Expanded(order: seq<nat>, i: nat, d: nat)
    requires Distinct(order) && 2 * i + 2 < |order| && d < 2 * i + 1 && order[d] == order[0] - i
    requires order[2 * i + 1] < order[d] && order[2 * i + 2] < order[d]
    ensures var x, y, z := order[2 * i + 2], order[2 * i + 1], order[d];
            && z in Frontier(order, i) && x !in Frontier(order, i) && y !in Frontier(order, i) && x != y
            && Frontier(order, i + 1) == Frontier(order, i) - {z} + {x, y}
  {
    var x, y, z := order[2 * i + 2], order[2 * i + 1], order[d];
    var s, t := Frontier(order, i), Frontier(order, i + 1);
    assert order[d] in s;
    assert order[2 * i + 1] in t && order[2 * i + 2] in t;
    forall v | v in t ensures v in s - {z} + {x, y} {
      var q :| 0 <= q < |order| && q < 2 * (i + 1) + 1 && order[q] == v && v <= order[0] - (i + 1);
      if q < 2 * i + 1 { assert order[q] in s; }
    }
    forall v | v in s - {z} ensures v in t {
      var q :| 0 <= q < |order| && q < 2 * i + 1 && order[q] == v && v <= order[0] - i;
      assert order[q] in t;
    }
  }

  lemma FrontierEnd(order: seq<nat>, leaves: seq<nat>, elems: nat, dad: seq<nat>)
    requires ParentsFirst(order, leaves, elems, dad)
    ensures |order| > 0 && Frontier(order, |leaves| - 1) == LeafSet(order, elems, |order|)
  {
    var s, t := Frontier(order, |leaves| - 1), LeafSet(order, elems, |order|);
    forall v | v in s ensures v in t {
      var q :| 0 <= q < |order| && order[q] == v && v <= order[0] - (|leaves| - 1);
      assert order[q] in t;
    }
    forall v | v in t ensures v in s {
      var q :| 0 <= q < |order| && order[q] == v && v < elems;
      assert order[q] in s;
    }
  }

  // ----- Weights -----

  /** The i-th pair of children: its sum, and nothing on the frontier that comes before it. */
  lemma PairIsLightest(order: seq<nat>, freq: seq<nat>, depth: seq<nat>, i: nat)
    requires BuiltGreedily(order, freq, depth) && 2 * i + 2 < |order| && i <= order[0]
    ensures order[0] < |freq| <= |depth| && forall q :: 1 <= q < |order| ==> order[q] < |freq|
    ensures var x, y, z := order[2 * i + 2], order[2 * i + 1], order[0] - i;
            && freq[z] == (freq[x] + freq[y]) % 0x1_0000 && depth[z] == Deeper(depth, x, y) + 1
            && Smaller(freq, depth, x, y)
            && forall v :: v in Frontier(order, i) && v != z ==> v < |freq| && Smaller(freq, depth, y, v)
  {
    hide Lightest, ParentNumber;
    var merged, node := order[1..], order[0] + 1;
    ParentAt(order[0], i);
    assert merged[2 * i + 1] == order[2 * i + 2] && merged[2 * i] == order[2 * i + 1];
    forall q | 1 <= q < |order| ensures order[q] < |freq| {
      assert merged[q - 1] == order[q];
    }
    assert PairSummed(merged, node, freq, depth, 2 * i + 1);
    var x, y, z := order[2 * i + 2], order[2 * i + 1], order[0] - i;
    forall v | v in Frontier(order, i) && v != z ensures v < |freq| && Smaller(freq, depth, y, v) {
      var q :| 0 <= q < |order| && q < 2 * i + 1 && order[q] == v && v <= order[0] - i;
      assert q >= 1;
      HalvesDiffer(q, i);
      assert merged[q - 1] == v;
      assert Lightest(merged[2 * i], merged[q - 1], ParentNumber(node, 2 * i), freq, depth);
      LighterIs(y, v, z, freq, depth);
    }
  }

  lemma ParentAt(root: nat, i: nat)
    ensures ParentNumber(root + 1, 2 * i) == ParentNumber(root + 1, 2 * i + 1) == root - i
  {
  }

  lemma HalvesDiffer(q: nat, i: nat)
    requires 1 <= q < 2 * i + 1
    ensures (q - 1) / 2 < 2 * i / 2
  {
  }

  lemma LighterIs(x: nat, y: nat, parent: int, freq: seq<nat>, depth: seq<nat>)
    requires |freq| <= |depth| && Lightest(x, y, parent, freq, depth) && x < |freq| && y < |freq| && y < parent
    ensures Smaller(freq, depth, x, y)
  {
  }

  lemma FrontierBound(order: seq<nat>, freq: seq<nat>, i: nat)
    requires |order| > 0 && order[0] < |freq|
    ensures forall v :: v in Frontier(order, i) ==> v < |freq|
  {
  }

  /** Merging never adds weight, so without a wrap-around at the leaves there is none above. */
  lemma {:induction false} WeightsAdd(order: seq<nat>, leaves: seq<nat>, elems: nat, dad: seq<nat>, freq: seq<nat>,
      depth: seq<nat>, i: nat)
    requires AreLeaves(leaves, elems) && ParentsFirst(order, leaves, elems, dad) && i <= |leaves| - 1
    requires |order| > 0 && BuiltGreedily(order, freq, depth)
    ensures Sum(Frontier(order, i), freq) <= Sum(Frontier(order, |leaves| - 1), freq)
    decreases |leaves| - i
  {
    hide AreLeaves, ParentsFirst, BuiltGreedily, Sum, Frontier;
    if i < |leaves| - 1 {
      WeightsAdd(order, leaves, elems, dad, freq, depth, i + 1);
      FrontierNext(order, leaves, elems, dad, i);
      PairIsLightest(order, freq, depth, i);
      SumExpanded(Frontier(order, i), freq, order[2 * i + 2], order[2 * i + 1], order[0] - i);
    }
  }

  lemma NoWrap(order: seq<nat>, leaves: seq<nat>, elems: nat, dad: seq<nat>, freq: seq<nat>, depth: seq<nat>, i: nat)
    requires AreLeaves(leaves, elems) && ParentsFirst(order, leaves, elems, dad) && i < |leaves| - 1
    requires |order| > 0 && BuiltGreedily(order, freq, depth) && Sum(Frontier(order, |leaves| - 1), freq) < 0x1_0000
    ensures |order| == 2 * |leaves| - 1 && i <= order[0] && order[0] < |freq|
    ensures order[2 * i + 2] < |freq| && order[2 * i + 1] < |freq|
    ensures freq[order[0] - i] == freq[order[2 * i + 2]] + freq[order[2 * i + 1]]
  {
    hide AreLeaves, ParentsFirst, BuiltGreedily, Sum, Frontier;
    FrontierNext(order, leaves, elems, dad, i);
    PairIsLightest(order, freq, depth, i);
    WeightsAdd(order, leaves, elems, dad, freq, depth, i + 1);
    var x, y, s := order[2 * i + 2], order[2 * i + 1], Frontier(order, i + 1);
    SumWithout(s, freq, x);
    TermAtMost(s - {x}, freq, y);
  }

  // ----- Depths -----

  /** The depth of the node at place p, never clamped. */
  function DepthAt(order: seq<nat>, p: nat): nat
    requires p < |order|
  {
    BitsAt(order, |order|, p)
  }

  /** The depth of every node by its number. */
  ghost function Depths(order: seq<nat>, n: nat): (d: seq<nat>)
    ensures |d| == n
  {
    seq(n, x requires 0 <= x < n => if Find(order, x) < |order| then DepthAt(order, Find(order, x)) else 0)
  }

  lemma DepthsAt(order: seq<nat>, n: nat, q: nat)
    requires Distinct(order) && q < |order| && order[q] < n
    ensures Depths(order, n)[order[q]] == DepthAt(order, q)
  {
    hide DepthAt;
    assert order[Find(order, order[q])] == order[q];
  }

  lemma {:induction false} DepthAtMostPlace(order: seq<nat>, leaves: seq<nat>, elems: nat, dad: seq<nat>, p: nat)
    requires AreLeaves(leaves, elems) && ParentsFirst(order, leaves, elems, dad) && p < |order|
    ensures DepthAt(order, p) <= p
  {
    hide AreLeaves, ParentsFirst, ParentOf;
    if p > 0 {
      ParentIsEarlier(order, leaves, elems, dad, p);
      DepthAtMostPlace(order, leaves, elems, dad, ParentOf(order, p));
    }
  }

  /** A node is one deeper than its parent. */
  lemma OneDeeper(order: seq<nat>, leaves: seq<nat>, elems: nat, dad: seq<nat>, p: nat)
    requires AreLeaves(leaves, elems) && ParentsFirst(order, leaves, elems, dad) && 1 <= p < |order|
    ensures var d := ParentOf(order, p);
            && d < p && order[d] == order[0] - (p - 1) / 2 && DepthAt(order, p) == DepthAt(order, d) + 1
  {
    hide AreLeaves, ParentsFirst, ParentOf;
    ParentIsEarlier(order, leaves, elems, dad, p);
    DepthAtMostPlace(order, leaves, elems, dad, ParentOf(order, p));
  }

  lemma PairDepths(order: seq<nat>, leaves: seq<nat>, elems: nat, dad: seq<nat>, n: nat, i: nat)
    requires AreLeaves(leaves, elems) && ParentsFirst(order, leaves, elems, dad) && i < |leaves| - 1
    requires forall q :: 0 <= q < |order| ==> order[q] < n
    ensures |order| == 2 * |leaves| - 1 && i <= order[0] < n
    ensures var d := Depths(order, n);
            d[order[2 * i + 2]] == d[order[2 * i + 1]] == d[order[0] - i] + 1
  {
    hide AreLeaves, DepthAt, Depths, Distinct, ParentOf;
    OrderDistinct(order, leaves, elems, dad);
    forall p | 2 * i + 1 <= p <= 2 * i + 2
      ensures Depths(order, n)[order[p]] == Depths(order, n)[order[0] - i] + 1
    {
      OneDeeper(order, leaves, elems, dad, p);
      DepthsAt(order, n, p);
      DepthsAt(order, n, ParentOf(order, p));
    }
  }

  /** Without clamping the lengths are the depths. */
  lemma {:induction false} UnclampedDepth(order: seq<nat>, leaves: seq<nat>, elems: nat, dad: seq<nat>, max: nat,
      p: nat)
    requires AreLeaves(leaves, elems) && ParentsFirst(order, leaves, elems, dad) && p < |order|
    requires Overflows(order, max, |order|) == 0
    ensures BitsAt(order, max, p) == DepthAt(order, p) <= max
  {
    hide AreLeaves, ParentsFirst, ParentOf;
    if p > 0 {
      OneDeeper(order, leaves, elems, dad, p);
      UnclampedDepth(order, leaves, elems, dad, max, ParentOf(order, p));
      OverflowsGrow(order, max, p + 1, |order|);
      OverflowNext(order, max, p);
    }
  }

  /** If no leaf is too deep, no node is. */
  lemma {:induction false} DeepestAreLeaves(order: seq<nat>, leaves: seq<nat>, elems: nat, dad: seq<nat>, max: nat,
      p: nat)
    requires AreLeaves(leaves, elems) && ParentsFirst(order, leaves, elems, dad) && p < |order|
    requires forall q :: 0 <= q < |order| && order[q] < elems ==> DepthAt(order, q) <= max
    ensures DepthAt(order, p) <= max
    decreases |order| - p
  {
    hide AreLeaves, ParentsFirst, ParentOf, DepthAt;
    if order[p] >= elems {
      var q := ChildPlace(order, leaves, elems, dad, p);
      DeepestAreLeaves(order, leaves, elems, dad, max, q);
    }
  }

  lemma ChildPlace(order: seq<nat>, leaves: seq<nat>, elems: nat, dad: seq<nat>, p: nat) returns (q: nat)
    requires AreLeaves(leaves, elems) && ParentsFirst(order, leaves, elems, dad) && p < |order| && order[p] >= elems
    ensures p < q < |order| && DepthAt(order, q) == DepthAt(order, p) + 1
  {
    hide AreLeaves, DepthAt, Distinct, ParentOf;
    OrderDistinct(order, leaves, elems, dad);
    OrderMembers(order, leaves, elems, dad, order[p]);
    LeavesBelow(leaves, elems, order[p]);
    q := 2 * (order[0] - order[p]) + 1;
    OneDeeper(order, leaves, elems, dad, q);
    DistinctPlaces(order, ParentOf(order, q), p);
  }

  lemma LeavesBelow(leaves: seq<nat>, elems: nat, x: nat)
    requires AreLeaves(leaves, elems) && x >= elems
    ensures x !in leaves
  {
  }

  lemma DistinctPlaces(order: seq<nat>, i: nat, j: nat)
    requires Distinct(order) && i < |order| && j < |order| && order[i] == order[j]
    ensures i == j
  {
  }

  lemma {:induction false} NoneClamped(order: seq<nat>, leaves: seq<nat>, elems: nat, dad: seq<nat>, max: nat, p: nat)
    requires AreLeaves(leaves, elems) && ParentsFirst(order, leaves, elems, dad) && p <= |order|
    requires forall q :: 0 <= q < |order| ==> DepthAt(order, q) <= max
    ensures Overflows(order, max, p) == 0
    ensures forall q :: 0 <= q < p ==> BitsAt(order, max, q) == DepthAt(order, q)
  {
    hide AreLeaves, ParentsFirst, ParentOf, BitsAt, DepthAt;
    if p > 1 {
      NoneClamped(order, leaves, elems, dad, max, p - 1);
      OneDeeper(order, leaves, elems, dad, p - 1);
      OverflowNext(order, max, p - 1);
    } else if p == 1 {
      RootAtNone(order, max);
    }
  }

  lemma RootAtNone(order: seq<nat>, max: nat)
    requires |order| >= 1
    ensures BitsAt(order, max, 0) == DepthAt(order, 0) == 0 && Overflows(order, max, 1) == 0
  {
  }

  /** Nothing is clamped exactly if no leaf is deeper than the maximum. */
  lemma ClampedIff(order: seq<nat>, leaves: seq<nat>, elems: nat, dad: seq<nat>, max: nat)
    requires AreLeaves(leaves, elems) && ParentsFirst(order, leaves, elems, dad)
    ensures Overflows(order, max, |order|) == 0
      <==> forall q :: 0 <= q < |order| && order[q] < elems ==> DepthAt(order, q) <= max
  {
    hide AreLeaves, ParentsFirst, DepthAt, BitsAt, Overflows;
    if Overflows(order, max, |order|) == 0 {
      forall q | 0 <= q < |order| ensures DepthAt(order, q) <= max {
        UnclampedDepth(order, leaves, elems, dad, max, q);
      }
    }
    if forall q :: 0 <= q < |order| && order[q] < elems ==> DepthAt(order, q) <= max {
      forall q | 0 <= q < |order| ensures DepthAt(order, q) <= max {
        DeepestAreLeaves(order, leaves, elems, dad, max, q);
      }
      NoneClamped(order, leaves, elems, dad, max, |order|);
    }
  }

  lemma {:induction false} OverflowsGrow(order: seq<nat>, max: nat, p: nat, n: nat)
    requires p <= n <= |order|
    ensures Overflows(order, max, p) <= Overflows(order, max, n)
  {
    hide BitsAt;
    if p < n { OverflowsGrow(order, max, p, n - 1); }
  }

  // ----- The best code -----

  lemma NodesInRange(order: seq<nat>, freq: seq<nat>, depth: seq<nat>)
    requires |order| >= 3 && BuiltGreedily(order, freq, depth)
    ensures |freq| <= |depth| && forall q :: 0 <= q < |order| ==> order[q] < |freq|
  {
    PairIsLightest(order, freq, depth, 0);
  }

  /** The depths of the frontier are best for its weights and heights, at every step. */
  lemma {:induction false} FrontierBest(order: seq<nat>, leaves: seq<nat>, elems: nat, dad: seq<nat>,
      freq: seq<nat>, depth: seq<nat>, i: nat)
    requires AreLeaves(leaves, elems) && ParentsFirst(order, leaves, elems, dad) && i <= |leaves| - 1
    requires |order| > 0 && BuiltGreedily(order, freq, depth)
    requires Sum(Frontier(order, |leaves| - 1), freq) < 0x1_0000
    ensures Best(Frontier(order, i), freq, depth, Depths(order, |freq|))
  {
    hide AreLeaves, ParentsFirst, BuiltGreedily, Sum, Frontier, Best, Depths, Smaller;
    OrderLength(order, leaves, elems, dad);
    NodesInRange(order, freq, depth);
    var d := Depths(order, |freq|);
    if i == 0 {
      FrontierStart(order);
      RootIsFree(order, leaves, elems, dad, freq, depth);
    } else {
      var j := i - 1;
      FrontierBest(order, leaves, elems, dad, freq, depth, j);
      FrontierNext(order, leaves, elems, dad, j);
      PairDepths(order, leaves, elems, dad, |freq|, j);
      NoWrap(order, leaves, elems, dad, freq, depth, j);
      PairIsLightest(order, freq, depth, j);
      FrontierBound(order, freq, j);
      ExpandBest(Frontier(order, j), freq, depth, d, order[2 * j + 2], order[2 * j + 1], order[0] - j);
    }
  }

  lemma RootIsFree(order: seq<nat>, leaves: seq<nat>, elems: nat, dad: seq<nat>, freq: seq<nat>, depth: seq<nat>)
    requires AreLeaves(leaves, elems) && ParentsFirst(order, leaves, elems, dad)
    requires |freq| <= |depth| && forall q :: 0 <= q < |order| ==> order[q] < |freq|
    ensures |order| > 0 && Best({order[0]}, freq, depth, Depths(order, |freq|))
  {
    hide AreLeaves, Depths, Distinct, DepthAt, Best;
    OrderDistinct(order, leaves, elems, dad);
    DepthsAt(order, |freq|, 0);
    RootAtNone(order, 0);
    OneIsBest(freq, depth, Depths(order, |freq|), order[0]);
  }

  /** The leaves of the tree: no code for the same symbols is better than their depths. */
  lemma TreeIsBest(order: seq<nat>, leaves: seq<nat>, elems: nat, dad: seq<nat>, freq: seq<nat>, depth: seq<nat>)
    requires AreLeaves(leaves, elems) && ParentsFirst(order, leaves, elems, dad)
    requires BuiltGreedily(order, freq, depth) && Sum(LeafSet(order, elems, |order|), freq) < 0x1_0000
    ensures Best(LeafSet(order, elems, |order|), freq, depth, Depths(order, |freq|))
  {
    hide AreLeaves, ParentsFirst, BuiltGreedily, Sum, Frontier, LeafSet, Best, Depths;
    FrontierEnd(order, leaves, elems, dad);
    OrderLength(order, leaves, elems, dad);
    FrontierBest(order, leaves, elems, dad, freq, depth, |leaves| - 1);
  }

  /** The depths of the frontier use up the code space. */
  lemma {:induction false} FrontierIsComplete(order: seq<nat>, leaves: seq<nat>, elems: nat, dad: seq<nat>, n: nat,
      i: nat)
    requires AreLeaves(leaves, elems) && ParentsFirst(order, leaves, elems, dad) && i <= |leaves| - 1
    requires |order| > 0 && forall q :: 0 <= q < |order| ==> order[q] < n
    ensures CodeSpace(Frontier(order, i), Depths(order, n), |order|) == Pow2(|order|)
    ensures forall v :: v in Frontier(order, i) ==> v < n && Depths(order, n)[v] <= |order|
  {
    hide AreLeaves, ParentsFirst, Sum, Frontier, Depths, DepthAt, Pow2, Distinct;
    var d, m := Depths(order, n), |order|;
    OrderDistinct(order, leaves, elems, dad);
    if i == 0 {
      FrontierStart(order);
      DepthsAt(order, n, 0);
      RootAtNone(order, 0);
      SumWith({}, KraftTerms(d, m), order[0]);
      NoneIn(KraftTerms(d, m));
      assert {} + {order[0]} == {order[0]};
    } else {
      var j := i - 1;
      FrontierIsComplete(order, leaves, elems, dad, n, j);
      FrontierNext(order, leaves, elems, dad, j);
      PairDepths(order, leaves, elems, dad, n, j);
      DepthsAt(order, n, 2 * j + 2);
      DepthAtMostPlace(order, leaves, elems, dad, 2 * j + 2);
      var x, y, z := order[2 * j + 2], order[2 * j + 1], order[0] - j;
      SumExpanded(Frontier(order, j), KraftTerms(d, m), x, y, z);
      TwoHalves(m, d[x]);
    }
  }

  /** So they are a code. */
  lemma TreeIsCode(order: seq<nat>, leaves: seq<nat>, elems: nat, dad: seq<nat>, n: nat)
    requires AreLeaves(leaves, elems) && ParentsFirst(order, leaves, elems, dad)
    requires forall q :: 0 <= q < |order| ==> order[q] < n
    ensures IsCode(LeafSet(order, elems, |order|), Depths(order, n), |order|)
  {
    hide AreLeaves, ParentsFirst, CodeSpace, Frontier, LeafSet, Depths, Pow2;
    FrontierEnd(order, leaves, elems, dad);
    OrderLength(order, leaves, elems, dad);
    FrontierIsComplete(order, leaves, elems, dad, n, |leaves| - 1);
  }
}

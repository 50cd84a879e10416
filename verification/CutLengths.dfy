/**
 When the code lengths of deflate are cheapest. The depths of the tree are the best lengths there
 are, so the lengths are cheapest exactly if none had to be cut; a small total frequency makes sure
 that none is.
 */
module CutLengths {
  import opened Bits
  import opened CanonicalCode
  import opened CheapestCodes
  import opened HuffmanHeight
  import opened HuffmanLengths
  import opened HuffmanOptimal
  import opened HuffmanTree
  import opened NodeSums
  import opened Sequences

  // ----- The symbols with a frequency -----

  /** The symbols with a frequency. */
  ghost function Used(freq: seq<nat>, elems: nat): (s: set<nat>)
    requires elems <= |freq|
    ensures forall x: nat :: x in s <==> x < elems && freq[x] != 0
  {
    set x: nat | x < elems && freq[x] != 0
  }

  /** The leaves are the used symbols and the forced ones. */
  lemma LeavesAreUsed(order: seq<nat>, leaves: seq<nat>, elems: nat, dad: seq<nat>, was: seq<nat>, freq: seq<nat>)
    requires AreLeaves(leaves, elems) && ParentsFirst(order, leaves, elems, dad) && elems <= |was| == |freq|
    requires forall x :: 0 <= x < elems ==> (x in leaves <==> freq[x] != 0)
    requires forall x :: 0 <= x < elems && was[x] != 0 ==> freq[x] == was[x]
    ensures LeafSet(order, elems, |order|) == Used(was, elems) + Added(was, freq, elems)
    ensures Used(was, elems) !! Added(was, freq, elems)
    ensures forall x :: x in Used(was, elems) ==> freq[x] == was[x]
  {
    hide AreLeaves, ParentsFirst;
    var s := LeafSet(order, elems, |order|);
    forall x: nat ensures x in s <==> x < elems && x in leaves {
      OrderMembers(order, leaves, elems, dad, x);
      if x in s {
        var q :| 0 <= q < |order| && order[q] == x && x < elems;
      }
      if x < elems && x in leaves {
        assert x in order;
        var q :| 0 <= q < |order| && order[q] == x;
      }
    }
  }

  lemma NothingForced(order: seq<nat>, leaves: seq<nat>, elems: nat, dad: seq<nat>, used: set<nat>, added: set<nat>)
    requires AreLeaves(leaves, elems) && ParentsFirst(order, leaves, elems, dad)
    requires LeafSet(order, elems, |order|) == used + added && used !! added && |used| >= 2
    requires forall x :: x in added ==> |leaves| == 2
    ensures added == {} && used + added == used
  {
    hide AreLeaves, ParentsFirst, LeafSet;
    OrderLength(order, leaves, elems, dad);
    if |leaves| == 2 {
      ThreeNodes(order, elems);
      SizeAtMost(used + added, {order[1], order[2]});
      assert |used + added| == |used| + |added|;
    }
  }

  lemma ThreeNodes(order: seq<nat>, elems: nat)
    requires |order| == 3 && order[0] >= elems
    ensures LeafSet(order, elems, 3) <= {order[1], order[2]}
  {
  }

  lemma SizeAtMost(s: set<nat>, t: set<nat>)
    requires s <= t
    ensures |s| <= |t|
  {
    assert t == s + (t - s);
  }

  // ----- The same weights for these symbols -----

  lemma SameCost(s: set<nat>, w: seq<nat>, w': seq<nat>, l: seq<nat>)
    requires |l| == |w| == |w'| && forall x :: x in s && x < |w| ==> w[x] == w'[x]
    ensures Cost(s, w, l) == Cost(s, w', l)
  {
    hide Sum;
    SumSameTerms(s, s, CostTerms(w, l), CostTerms(w', l));
  }

  lemma SameBest(s: set<nat>, w: seq<nat>, w': seq<nat>, h: seq<nat>, d: seq<nat>)
    requires |d| == |w| == |w'| && (forall x :: x in s && x < |w| ==> w[x] == w'[x]) && Best(s, w, h, d)
    ensures Best(s, w', h, d)
  {
    hide Cost, IsCode, Best, HeightAtMost;
    forall l: seq<nat>, m: nat | |l| == |w'| && IsCode(s, l, m) ensures NoWorse(s, w', h, d, l) {
      SameNoWorse(s, w, w', h, d, l, m);
    }
    BestIf(s, w', h, d);
  }

  lemma SameNoWorse(s: set<nat>, w: seq<nat>, w': seq<nat>, h: seq<nat>, d: seq<nat>, l: seq<nat>, m: nat)
    requires |d| == |l| == |w| == |w'| && (forall x :: x in s && x < |w| ==> w[x] == w'[x]) && Best(s, w, h, d)
    requires IsCode(s, l, m)
    ensures NoWorse(s, w', h, d, l)
  {
    hide Cost, IsCode, HeightAtMost;
    SameCost(s, w, w', d);
    SameCost(s, w, w', l);
    assert NoWorse(s, w, h, d, l);
  }

  // ----- Complete lengths are a code -----

  lemma {:induction false} BelowPrefix(lens: seq<nat>, b: nat)
    requires |lens| > 0 && b <= MAX_BITS + 1
    ensures var n := |lens| - 1;
      Below(lens, b) == Below(lens[..n], b) + if 1 <= lens[n] < b then Width(lens[n]) else 0
  {
    hide Width;
    if b > 1 {
      BelowPrefix(lens, b - 1);
      AddProducts(Count(lens[..|lens| - 1], b - 1), 1, Width(b - 1));
    }
  }

  lemma {:induction false} SpaceAtMostTotal(s: set<nat>, lens: seq<nat>)
    requires ValidLengths(lens) && forall x: nat :: x in s && x < |lens| ==> lens[x] >= 1
    ensures CodeSpace(s, lens, MAX_BITS) <= Total(lens)
  {
    hide Pow2;
    if |lens| > 0 {
      var n := |lens| - 1;
      SpaceAtMostTotal(s, lens[..n]);
      assert KraftTerms(lens, MAX_BITS)[..n] == KraftTerms(lens[..n], MAX_BITS);
      BelowPrefix(lens, MAX_BITS + 1);
    }
  }

  lemma CompleteIsCode(s: set<nat>, l: seq<nat>, n: nat)
    requires n <= |l| && Complete(l[..n]) && forall x :: x in s ==> x < n && l[x] >= 1
    ensures IsCode(s, l, MAX_BITS)
  {
    hide Sum, Pow2, Below;
    SpaceAtMostTotal(s, l[..n]);
    SumPrefix(s, KraftTerms(l, MAX_BITS), n);
    assert KraftTerms(l, MAX_BITS)[..n] == KraftTerms(l[..n], MAX_BITS);
  }

  // ----- Exactly when the lengths are cheapest -----

  ghost predicate Within(s: set<nat>, l: seq<nat>, max: nat)
  {
    forall x: nat :: x in s && x < |l| ==> l[x] <= max
  }

  /** Every code that costs least has a length over the maximum. */
  ghost predicate NeedsLonger(s: set<nat>, w: seq<nat>, max: nat)
  {
    forall l: seq<nat>, m: nat :: |l| == |w| && IsCode(s, l, m) && Within(s, l, max) ==> !Cheapest(s, w, l)
  }

  /** If the best lengths exceed the maximum, so do all cheapest ones. */
  lemma BestIsLonger(s: set<nat>, w: seq<nat>, h: seq<nat>, d: seq<nat>, m: nat, max: nat)
    requires |d| == |w| && Best(s, w, h, d) && IsCode(s, d, m) && !Within(s, d, max)
    requires forall x: nat :: x in s ==> x < |w| <= |h| && h[x] == 0
    ensures NeedsLonger(s, w, max)
  {
    hide Cost, IsCode, Best;
    forall l: seq<nat>, m': nat | |l| == |w| && IsCode(s, l, m') && Within(s, l, max) ensures !Cheapest(s, w, l) {
      BoundedCostsMore(s, w, h, d, l, m', max);
    }
  }

  lemma SomeWithin(s: set<nat>, w: seq<nat>, l: seq<nat>, m: nat, max: nat)
    requires |l| == |w| && IsCode(s, l, m) && Within(s, l, max) && Cheapest(s, w, l)
    ensures !NeedsLonger(s, w, max)
  {
    hide IsCode, Within, Cheapest;
  }

  /** One symbol would cost nothing with a length of 0, but has at least one bit. */
  lemma SingleIsNotCheapest(x: nat, w: seq<nat>, l: seq<nat>, max: nat)
    requires x < |l| == |w| && w[x] >= 1 && l[x] >= 1
    ensures !Cheapest({x}, w, l) && !NeedsLonger({x}, w, max)
  {
    hide Sum, Pow2;
    var none := seq(|w|, i => 0);
    assert {x} == {} + {x};
    SumWith({}, CostTerms(w, none), x);
    SumWith({}, CostTerms(w, l), x);
    SumWith({}, KraftTerms(none, 0), x);
    NoneIn(CostTerms(w, none));
    NoneIn(CostTerms(w, l));
    NoneIn(KraftTerms(none, 0));
    assert w[x] * l[x] >= 1;
    assert IsCode({x}, none, 0) && Cost({x}, w, none) == 0;
    SomeWithin({x}, w, none, 0, max);
  }

  lemma NothingIsCheapest(w: seq<nat>, l: seq<nat>, max: nat)
    requires |l| == |w|
    ensures Cheapest({}, w, l) && !NeedsLonger({}, w, max)
  {
    hide Sum;
    NoneIn(CostTerms(w, l));
    NoneIn(KraftTerms(l, 0));
    SomeWithin({}, w, l, 0, max);
  }

  lemma AsCheap(s: set<nat>, w: seq<nat>, d: seq<nat>, l: seq<nat>)
    requires |d| == |l| == |w| && Cheapest(s, w, d) && forall x: nat :: x in s && x < |w| ==> d[x] == l[x]
    ensures Cheapest(s, w, l)
  {
    hide Sum, IsCode;
    SumSameTerms(s, s, CostTerms(w, d), CostTerms(w, l));
  }

  /** What is known when build_tree has its tree. */
  ghost predicate Built(order: seq<nat>, leaves: seq<nat>, elems: nat, dad: seq<nat>, was: seq<nat>, freq: seq<nat>,
      depth: seq<nat>)
  {
    && AreLeaves(leaves, elems) && ParentsFirst(order, leaves, elems, dad) && elems <= |was| == |freq| <= |depth|
    && BuiltGreedily(order, freq, depth)
    && (forall x :: 0 <= x < elems ==> (x in leaves <==> freq[x] != 0))
    && (forall x :: 0 <= x < elems && x in leaves ==> depth[x] == 0)
    && (forall x :: 0 <= x < elems && was[x] != 0 ==> freq[x] == was[x])
    && forall x :: x in Added(was, freq, elems) ==> |leaves| == 2
  }

  /** With two used symbols nothing is forced: the depths of the tree are the best lengths for them. */
  lemma UsedAreBest(order: seq<nat>, leaves: seq<nat>, elems: nat, dad: seq<nat>, was: seq<nat>, freq: seq<nat>,
      depth: seq<nat>)
    requires Built(order, leaves, elems, dad, was, freq, depth)
    requires |Used(was, elems)| >= 2 && Sum(Used(was, elems), was) < 0x1_0000
    ensures Used(was, elems) == LeafSet(order, elems, |order|)
    ensures Sum(LeafSet(order, elems, |order|), freq) == Sum(Used(was, elems), was)
    ensures Best(Used(was, elems), was, depth, Depths(order, |was|))
    ensures IsCode(Used(was, elems), Depths(order, |was|), |order|)
    ensures forall q :: 0 <= q < |order| ==> order[q] < |was|
  {
    hide AreLeaves, ParentsFirst, LeafSet, Sum, Best, BuiltGreedily, Used, Added, Depths, IsCode;
    var used, added := Used(was, elems), Added(was, freq, elems);
    LeavesAreUsed(order, leaves, elems, dad, was, freq);
    NothingForced(order, leaves, elems, dad, used, added);
    SumSameTerms(used, used, was, freq);
    TreeIsBest(order, leaves, elems, dad, freq, depth);
    SameBest(used, freq, was, depth, Depths(order, |was|));
    OrderLength(order, leaves, elems, dad);
    NodesInRange(order, freq, depth);
    TreeIsCode(order, leaves, elems, dad, |was|);
  }

  /** With fewer used symbols there are two leaves, at depth 1. */
  lemma FewAreFlat(order: seq<nat>, leaves: seq<nat>, elems: nat, dad: seq<nat>, was: seq<nat>, freq: seq<nat>,
      depth: seq<nat>, max: nat)
    requires Built(order, leaves, elems, dad, was, freq, depth) && |Used(was, elems)| <= 1 && max >= 1
    ensures Overflows(order, max, |order|) == 0
  {
    hide ParentsFirst, BuiltGreedily, BitsAt, Overflows, Find;
    OrderLength(order, leaves, elems, dad);
    if |leaves| > 2 {
      MoreThanTwoUsed(order, leaves, elems, dad, was, freq, depth);
    }
    TwoChildren(order, leaves, elems, dad, max, 0);
    RootAtNone(order, max);
  }

  lemma MoreThanTwoUsed(order: seq<nat>, leaves: seq<nat>, elems: nat, dad: seq<nat>, was: seq<nat>, freq: seq<nat>,
      depth: seq<nat>)
    requires Built(order, leaves, elems, dad, was, freq, depth) && |leaves| > 2
    ensures |Used(was, elems)| >= 2
  {
    hide ParentsFirst, BuiltGreedily;
    var x, y := leaves[0], leaves[1];
    assert x in leaves && y in leaves && x != y;
    assert x !in Added(was, freq, elems) && y !in Added(was, freq, elems);
    SizeAtMost({x, y}, Used(was, elems));
  }

  lemma WithinIff(order: seq<nat>, leaves: seq<nat>, elems: nat, dad: seq<nat>, n: nat, max: nat)
    requires AreLeaves(leaves, elems) && ParentsFirst(order, leaves, elems, dad)
    requires forall q :: 0 <= q < |order| ==> order[q] < n
    ensures Within(LeafSet(order, elems, |order|), Depths(order, n), max) <==> Overflows(order, max, |order|) == 0
  {
    hide AreLeaves, ParentsFirst, DepthAt, Overflows, Depths;
    OrderDistinct(order, leaves, elems, dad);
    ClampedIff(order, leaves, elems, dad, max);
    var s, d := LeafSet(order, elems, |order|), Depths(order, n);
    forall q | 0 <= q < |order| ensures d[order[q]] == DepthAt(order, q) {
      DepthsAt(order, n, q);
    }
    if Within(s, d, max) {
      forall q | 0 <= q < |order| && order[q] < elems ensures DepthAt(order, q) <= max {
        assert order[q] in s;
      }
    }
  }

  /** Lengths that were not clamped are the depths. */
  lemma UncutLengths(order: seq<nat>, leaves: seq<nat>, elems: nat, dad: seq<nat>, dl: seq<nat>, max: nat, x: nat)
    requires AreLeaves(leaves, elems) && ParentsFirst(order, leaves, elems, dad)
    requires Overflows(order, max, |order|) == 0 && DepthsSoFar(order, dad, dl, max, |order|)
    requires x in LeafSet(order, elems, |order|) && x < |dl|
    ensures Depths(order, |dl|)[x] == dl[x] <= max
  {
    hide AreLeaves, ParentsFirst, DepthAt, BitsAt, Overflows, Depths, Distinct;
    var q :| 0 <= q < |order| && order[q] == x;
    OrderDistinct(order, leaves, elems, dad);
    DepthsAt(order, |dl|, q);
    UnclampedDepth(order, leaves, elems, dad, max, q);
  }

  /**
   The lengths are cheapest exactly if there is not just one symbol and nothing overflowed, and
   something overflows exactly if every cheapest code is longer than the maximum.
   */
  ghost predicate CheapestUnlessCut(used: set<nat>, freq: seq<nat>, dl: seq<nat>, max: nat, overflow: nat)
    requires |dl| == |freq|
  {
    && (Cheapest(used, freq, dl) <==> |used| != 1 && overflow == 0)
    && (overflow > 0 <==> NeedsLonger(used, freq, max))
  }

  /** Two used symbols and more. */
  lemma ManyUsed(order: seq<nat>, leaves: seq<nat>, elems: nat, dad: seq<nat>, was: seq<nat>, freq: seq<nat>,
      depth: seq<nat>, dl: seq<nat>, max: nat, n: nat)
    requires Built(order, leaves, elems, dad, was, freq, depth) && n <= |dl| == |was| && Complete(dl[..n])
    requires Overflows(order, max, |order|) == 0 ==> DepthsSoFar(order, dad, dl, max, |order|)
    requires forall x :: 0 <= x < elems && was[x] != 0 ==> x < n && 1 <= dl[x] <= max
    requires |Used(was, elems)| >= 2 && Sum(Used(was, elems), was) < 0x1_0000
    ensures CheapestUnlessCut(Used(was, elems), was, dl, max, Overflows(order, max, |order|))
  {
    hide AreLeaves, ParentsFirst, LeafSet, Sum, Best, BuiltGreedily, Added, Depths, IsCode, Cheapest, Complete,
      DepthsSoFar, Overflows, NeedsLonger;
    var used, d := Used(was, elems), Depths(order, |was|);
    UsedAreBest(order, leaves, elems, dad, was, freq, depth);
    LeavesAreUsed(order, leaves, elems, dad, was, freq);
    WithinIff(order, leaves, elems, dad, |was|, max);
    CompleteIsCode(used, dl, n);
    BestIsCheapest(used, was, depth, d);
    if Overflows(order, max, |order|) == 0 {
      forall x: nat | x in used && x < |was| ensures d[x] == dl[x] {
        UncutLengths(order, leaves, elems, dad, dl, max, x);
      }
      AsCheap(used, was, d, dl);
      SomeWithin(used, was, dl, MAX_BITS, max);
    } else {
      BestIsLonger(used, was, depth, d, |order|, max);
      CutIsNotCheapest(used, was, dl, MAX_BITS, max);
    }
  }

  lemma CutIsNotCheapest(s: set<nat>, w: seq<nat>, l: seq<nat>, m: nat, max: nat)
    requires NeedsLonger(s, w, max) && |l| == |w| && IsCode(s, l, m) && Within(s, l, max)
    ensures !Cheapest(s, w, l)
  {
    hide IsCode, Within, Cheapest;
  }

  lemma FinalLengths(order: seq<nat>, leaves: seq<nat>, elems: nat, dad: seq<nat>, was: seq<nat>, freq: seq<nat>,
      depth: seq<nat>, dl: seq<nat>, max: nat, n: nat)
    requires Built(order, leaves, elems, dad, was, freq, depth) && n <= |dl| == |was| && Complete(dl[..n])
    requires Overflows(order, max, |order|) == 0 ==> DepthsSoFar(order, dad, dl, max, |order|)
    requires forall x :: 0 <= x < elems && was[x] != 0 ==> x < n && 1 <= dl[x] <= max
    requires Sum(Used(was, elems), was) < 0x1_0000 && max >= 1
    ensures CheapestUnlessCut(Used(was, elems), was, dl, max, Overflows(order, max, |order|))
  {
    hide AreLeaves, ParentsFirst, BuiltGreedily, Added, Sum, Cheapest, Complete, DepthsSoFar, Overflows, NeedsLonger;
    var used := Used(was, elems);
    if |used| >= 2 {
      ManyUsed(order, leaves, elems, dad, was, freq, depth, dl, max, n);
    } else {
      FewAreFlat(order, leaves, elems, dad, was, freq, depth, max);
      if x :| x in used {
        SizeAtMost({x}, used);
        OnlyMember(used, x);
        SingleIsNotCheapest(x, was, dl, max);
      } else {
        assert used == {};
        NothingIsCheapest(was, dl, max);
      }
    }
  }

  lemma OnlyMember(s: set<nat>, x: nat)
    requires x in s && |s| <= 1
    ensures s == {x}
  {
    assert s == {x} + (s - {x});
  }

  /** A small total frequency keeps the tree flat enough. */
  lemma LightIsUncut(order: seq<nat>, leaves: seq<nat>, elems: nat, dad: seq<nat>, was: seq<nat>, freq: seq<nat>,
      depth: seq<nat>, max: nat)
    requires Built(order, leaves, elems, dad, was, freq, depth) && 1 <= max <= MAX_BITS
    requires Sum(Used(was, elems), was) < LeastWeight(max + 1)
    ensures Overflows(order, max, |order|) == 0
  {
    hide AreLeaves, ParentsFirst, BuiltGreedily, Sum, Overflows, LeastWeight, Added, Frontier, LeafSet, LeavesWeigh;
    if |Used(was, elems)| >= 2 {
      LeastWeightGrows(max + 1, MAX_BITS + 1);
      LargestBound();
      UsedAreBest(order, leaves, elems, dad, was, freq, depth);
      FrontierEnd(order, leaves, elems, dad);
      LeavesHaveWeight(order, leaves, elems, dad, was, freq, depth);
      LightTreesAreFlat(order, leaves, elems, dad, freq, depth, max);
    } else {
      FewAreFlat(order, leaves, elems, dad, was, freq, depth, max);
    }
  }

  lemma LargestBound()
    ensures LeastWeight(MAX_BITS + 1) == 2584
  {
    assert LeastWeight(8) == 55;
  }

  lemma LeavesHaveWeight(order: seq<nat>, leaves: seq<nat>, elems: nat, dad: seq<nat>, was: seq<nat>, freq: seq<nat>,
      depth: seq<nat>)
    requires Built(order, leaves, elems, dad, was, freq, depth)
    ensures LeavesWeigh(order, elems, freq, depth)
  {
    hide AreLeaves, ParentsFirst, BuiltGreedily, Added;
    forall q | 0 <= q < |order| && order[q] < elems ensures order[q] in leaves {
      OrderMembers(order, leaves, elems, dad, order[q]);
      assert order[q] in order;
    }
  }
}

/**
 Code lengths from a Huffman tree: clamped depths, the repair of the counts that clamping makes
 necessary, and the reassignment of lengths. The source's gen_bitlen.
 */
module HuffmanLengths {
  import opened Bits
  import opened CanonicalCode
  import opened CheapestCodes
  import opened HuffmanTree
  import opened NodeSums
  import opened Sequences

  // ----- The list of nodes -----

  /** The first place of x in the list, or its length. */
  function Find(order: seq<nat>, x: int): (i: nat)
    ensures i <= |order|
    ensures i < |order| ==> order[i] == x
    ensures x in order ==> i < |order|
  {
    if |order| == 0 then 0
    else
      var i := Find(order[..|order| - 1], x);
      if i < |order| - 1 || order[|order| - 1] == x then i else i + 1
  }

  /** The place of the parent of the node at place p. */
  function ParentOf(order: seq<nat>, p: nat): nat
    requires 1 <= p < |order|
  {
    Find(order, order[0] - (p - 1) / 2)
  }

  /** The depth of the node at place p, clamped on the way down. */
  function BitsAt(order: seq<nat>, max: nat, p: nat): (b: nat)
    requires p < |order|
    ensures b <= max
  {
    if p == 0 then 0
    else
      var d := ParentOf(order, p);
      if d < p && BitsAt(order, max, d) < max then BitsAt(order, max, d) + 1 else max
  }

  /** The number of places before p whose depth had to be clamped. */
  function Overflows(order: seq<nat>, max: nat, p: nat): nat
    requires p <= |order|
  {
    if p <= 1 then 0
    else
      var d := ParentOf(order, p - 1);
      Overflows(order, max, p - 1) + if d < p - 1 && BitsAt(order, max, d) < max then 0 else 1
  }

  /** The number of leaves before place p with clamped depth b. */
  function LeafBits(order: seq<nat>, elems: nat, max: nat, p: nat, b: nat): nat
    requires p <= |order|
  {
    if p == 0 then 0
    else
      LeafBits(order, elems, max, p - 1, b)
      + if order[p - 1] < elems && BitsAt(order, max, p - 1) == b then 1 else 0
  }

  lemma OrderDistinct(order: seq<nat>, leaves: seq<nat>, elems: nat, dad: seq<nat>)
    requires AreLeaves(leaves, elems) && ParentsFirst(order, leaves, elems, dad)
    ensures Distinct(order)
  {
    hide Range;
    forall i, j | 0 <= i < j < |order| ensures order[i] != order[j] {
      NodesOnce(leaves, elems, elems + |leaves| - 1, order[i]);
      if order[i] == order[j] { TwiceInMultiset(order, i, j); }
    }
  }

  lemma OrderMembers(order: seq<nat>, leaves: seq<nat>, elems: nat, dad: seq<nat>, x: nat)
    requires AreLeaves(leaves, elems) && ParentsFirst(order, leaves, elems, dad)
    ensures x in order <==> x in leaves || elems <= x < elems + |leaves| - 1
  {
    hide Range, Distinct;
    NodesOnce(leaves, elems, elems + |leaves| - 1, x);
    MemberCounts(order, x);
  }

  /** Parents come before their children, and even before the children of later parents. */
  lemma ParentIsEarlier(order: seq<nat>, leaves: seq<nat>, elems: nat, dad: seq<nat>, p: nat)
    requires AreLeaves(leaves, elems) && ParentsFirst(order, leaves, elems, dad) && 1 <= p < |order|
    ensures var d := ParentOf(order, p);
            d <= (p - 1) / 2 * 2 < p && order[d] == order[0] - (p - 1) / 2 == dad[order[p]] >= elems
  {
    hide Range, Distinct, AreLeaves;
    OrderMembers(order, leaves, elems, dad, order[0] - (p - 1) / 2);
  }

  // ----- Sums over the frontier -----

  /** What is summed: the Kraft weight, the nodes of greatest length, or every node. */
  datatype Measure = Kraft | Longest | Every

  function Weight(w: Measure, max: nat, b: nat): nat
    requires b <= max
  {
    match w
    case Kraft => Pow2(max - b)
    case Longest => if b == max then 1 else 0
    case Every => 1
  }

  /** The sum over the places before p whose nodes are at most `limit`: leaves, and parents not yet expanded. */
  function FrontierSum(w: Measure, order: seq<nat>, max: nat, p: nat, limit: int): nat
    requires p <= |order|
  {
    if p == 0 then 0
    else
      FrontierSum(w, order, max, p - 1, limit)
      + if order[p - 1] <= limit then Weight(w, max, BitsAt(order, max, p - 1)) else 0
  }

  /** Lowering the limit by one takes out the one node with that number. */
  lemma {:induction false} LowerLimit(w: Measure, order: seq<nat>, max: nat, p: nat, limit: nat, d: nat)
    requires p <= |order| && Distinct(order) && d < |order| && order[d] == limit
    ensures FrontierSum(w, order, max, p, limit)
         == FrontierSum(w, order, max, p, limit - 1) + if d < p then Weight(w, max, BitsAt(order, max, d)) else 0
  {
    hide BitsAt, Weight;
    if p > 0 { LowerLimit(w, order, max, p - 1, limit, d); }
  }

  /** Expanding the i-th parent: out with it, in with its two children. */
  lemma ExpandParent(w: Measure, order: seq<nat>, leaves: seq<nat>, elems: nat, dad: seq<nat>, max: nat, i: nat)
    requires AreLeaves(leaves, elems) && ParentsFirst(order, leaves, elems, dad) && i < |leaves| - 1
    ensures |order| == 2 * |leaves| - 1
    ensures var d := ParentOf(order, 2 * i + 1);
            d < 2 * i + 1 &&
            var b := BitsAt(order, max, d);
            var child := if b < max then b + 1 else max;
            && FrontierSum(w, order, max, 2 * i + 3, order[0] - i - 1) + Weight(w, max, b)
               == FrontierSum(w, order, max, 2 * i + 1, order[0] - i) + 2 * Weight(w, max, child)
            && Overflows(order, max, 2 * i + 3) == Overflows(order, max, 2 * i + 1) + if b < max then 0 else 2
  {
    hide Weight, AreLeaves, Distinct, Range, Find, BitsAt, ParentOf, Overflows, FrontierSum;
    TwoChildren(order, leaves, elems, dad, max, i);
    NextTwo(w, order, max, 2 * i + 1, order[0] - i - 1);
    OrderDistinct(order, leaves, elems, dad);
    LowerLimit(w, order, max, 2 * i + 1, order[0] - i, ParentOf(order, 2 * i + 1));
  }

  lemma PairParent(order: seq<nat>, leaves: seq<nat>, elems: nat, dad: seq<nat>, i: nat)
    requires AreLeaves(leaves, elems) && ParentsFirst(order, leaves, elems, dad) && i < |leaves| - 1
    ensures |order| == 2 * |leaves| - 1
    ensures var d, p := ParentOf(order, 2 * i + 1), 2 * i + 1;
            && ParentOf(order, p + 1) == d < p && order[d] == order[0] - i
            && order[p] < order[d] && order[p + 1] < order[d]
  {
    hide AreLeaves, Find, Range;
    ParentIsEarlier(order, leaves, elems, dad, 2 * i + 1);
    ParentIsEarlier(order, leaves, elems, dad, 2 * i + 2);
  }

  /** The children of the i-th parent have the same depth and lower numbers. */
  lemma TwoChildren(order: seq<nat>, leaves: seq<nat>, elems: nat, dad: seq<nat>, max: nat, i: nat)
    requires AreLeaves(leaves, elems) && ParentsFirst(order, leaves, elems, dad) && i < |leaves| - 1
    ensures |order| == 2 * |leaves| - 1
    ensures var d, p := ParentOf(order, 2 * i + 1), 2 * i + 1;
            d < p && order[d] == order[0] - i && order[p] < order[d] && order[p + 1] < order[d] &&
            var b := BitsAt(order, max, d);
            var child := if b < max then b + 1 else max;
            && BitsAt(order, max, p) == child && BitsAt(order, max, p + 1) == child
            && Overflows(order, max, p + 2) == Overflows(order, max, p) + if b < max then 0 else 2
  {
    hide AreLeaves, ParentsFirst, ParentOf;
    PairParent(order, leaves, elems, dad, i);
    var d, p := ParentOf(order, 2 * i + 1), 2 * i + 1;
    assert Overflows(order, max, p + 1) == Overflows(order, max, p) + if BitsAt(order, max, d) < max then 0 else 1;
  }

  lemma NextTwo(w: Measure, order: seq<nat>, max: nat, p: nat, limit: int)
    requires p + 2 <= |order|
    ensures FrontierSum(w, order, max, p + 2, limit)
         == FrontierSum(w, order, max, p, limit)
            + (if order[p] <= limit then Weight(w, max, BitsAt(order, max, p)) else 0)
            + (if order[p + 1] <= limit then Weight(w, max, BitsAt(order, max, p + 1)) else 0)
  {
    hide Weight, BitsAt;
  }

  /** The sums over the frontier once i parents are expanded. */
  ghost predicate SumsAt(order: seq<nat>, max: nat, i: nat)
    requires 2 * i + 1 <= |order|
  {
    var p, limit := 2 * i + 1, order[0] - i;
    var over := Overflows(order, max, p);
    && over % 2 == 0
    && FrontierSum(Kraft, order, max, p, limit) == Pow2(max) + over / 2
    && FrontierSum(Every, order, max, p, limit) == i + 1
    && FrontierSum(Longest, order, max, p, limit) >= over / 2 + if over > 0 then 1 else 0
  }

  lemma SumsNext(order: seq<nat>, leaves: seq<nat>, elems: nat, dad: seq<nat>, max: nat, i: nat)
    requires AreLeaves(leaves, elems) && ParentsFirst(order, leaves, elems, dad) && i < |leaves| - 1
    requires |order| == 2 * |leaves| - 1 && SumsAt(order, max, i)
    ensures SumsAt(order, max, i + 1)
  {
    hide AreLeaves, ParentsFirst, BitsAt, ParentOf, FrontierSum, Overflows, Pow2;
    ExpandParent(Kraft, order, leaves, elems, dad, max, i);
    ExpandParent(Longest, order, leaves, elems, dad, max, i);
    ExpandParent(Every, order, leaves, elems, dad, max, i);
    var d := ParentOf(order, 2 * i + 1);
    var b := BitsAt(order, max, d);
    ParentIsEarlier(order, leaves, elems, dad, 2 * i + 1);
    LongestPresent(order, max, 2 * i + 1, order[0] - i, d);
    HalfWeight(max, b);
  }

  lemma {:induction false} FrontierSums(order: seq<nat>, leaves: seq<nat>, elems: nat, dad: seq<nat>, max: nat, i: nat)
    requires AreLeaves(leaves, elems) && ParentsFirst(order, leaves, elems, dad) && i <= |leaves| - 1 && max >= 1
    ensures |order| == 2 * |leaves| - 1 && SumsAt(order, max, i)
  {
    hide AreLeaves, SumsAt;
    if i == 0 {
      FirstPlace(order, max);
    } else {
      FrontierSums(order, leaves, elems, dad, max, i - 1);
      SumsNext(order, leaves, elems, dad, max, i - 1);
    }
  }

  lemma FirstPlace(order: seq<nat>, max: nat)
    requires |order| >= 1 && max >= 1
    ensures SumsAt(order, max, 0)
  {
  }

  lemma HalfWeight(max: nat, b: nat)
    requires b <= max
    ensures b < max ==> Weight(Kraft, max, b) == 2 * Weight(Kraft, max, b + 1)
    ensures b == max ==> Weight(Kraft, max, b) == 1
  {
  }

  lemma {:induction false} LongestPresent(order: seq<nat>, max: nat, p: nat, limit: int, d: nat)
    requires d < p <= |order| && order[d] <= limit
    ensures BitsAt(order, max, d) == max ==> FrontierSum(Longest, order, max, p, limit) >= 1
  {
    hide BitsAt;
    if d < p - 1 { LongestPresent(order, max, p - 1, limit, d); }
  }

  // ----- Counts of lengths -----

  /** The sum of the measure over the counts of the lengths 1..b. */
  function CountSum(w: Measure, c: seq<nat>, max: nat, b: nat): nat
    requires b <= max < |c|
  {
    if b == 0 then 0 else CountSum(w, c, max, b - 1) + c[b] * Weight(w, max, b)
  }

  function Counts(order: seq<nat>, elems: nat, max: nat, p: nat): (c: seq<nat>)
    requires p <= |order|
    ensures |c| == MAX_BITS + 1
  {
    seq(MAX_BITS + 1, b requires 0 <= b <= MAX_BITS => LeafBits(order, elems, max, p, b))
  }

  lemma {:induction false} CountOneMore(w: Measure, c: seq<nat>, c': seq<nat>, max: nat, b: nat, i: nat)
    requires b <= max < |c| == |c'| && 1 <= i <= max
    requires forall j :: 1 <= j <= max ==> c'[j] == c[j] + if j == i then 1 else 0
    ensures CountSum(w, c', max, b) == CountSum(w, c, max, b) + if i <= b then Weight(w, max, i) else 0
  {
    hide Weight;
    if b > 0 {
      CountOneMore(w, c, c', max, b - 1, i);
      OneMoreTimes(c[b], Weight(w, max, b));
    }
  }

  lemma {:induction false} CountNone(w: Measure, c: seq<nat>, max: nat, b: nat)
    requires b <= max < |c| && forall j :: 1 <= j <= b ==> c[j] == 0
    ensures CountSum(w, c, max, b) == 0
  {
    hide Weight;
    if b > 0 { CountNone(w, c, max, b - 1); }
  }

  /** Summing by lengths is summing over the leaves. */
  lemma {:induction false} CountsSum(w: Measure, order: seq<nat>, elems: nat, max: nat, p: nat)
    requires p <= |order| && max <= MAX_BITS
    requires forall q :: 0 <= q < p && order[q] < elems ==> BitsAt(order, max, q) >= 1
    ensures CountSum(w, Counts(order, elems, max, p), max, max) == FrontierSum(w, order, max, p, elems - 1)
  {
    hide BitsAt, Weight, CountSum;
    var c := Counts(order, elems, max, p);
    if p == 0 {
      CountNone(w, c, max, max);
    } else {
      CountsSum(w, order, elems, max, p - 1);
      var before := Counts(order, elems, max, p - 1);
      if order[p - 1] < elems {
        CountOneMore(w, before, c, max, max, BitsAt(order, max, p - 1));
      } else {
        assert c == before;
      }
    }
  }

  /** What the clamped depths of a tree with few leaves look like as counts. */
  ghost predicate Clamped(c: seq<nat>, max: nat, over: nat, leaves: nat)
  {
    && |c| == MAX_BITS + 1 && 1 <= max <= MAX_BITS && c[0] == 0 && (forall b :: max < b <= MAX_BITS ==> c[b] == 0)
    && over % 2 == 0 && CountSum(Kraft, c, max, max) == Pow2(max) + over / 2
    && CountSum(Every, c, max, max) == leaves < Pow2(max)
    && c[max] >= over / 2 + if over > 0 then 1 else 0
  }

  lemma {:induction false} LongestIsCount(c: seq<nat>, max: nat, b: nat)
    requires b <= max < |c|
    ensures CountSum(Longest, c, max, b) == if b == max >= 1 then c[max] else 0
  {
    if b > 0 { LongestIsCount(c, max, b - 1); }
  }

  lemma LeafDepths(order: seq<nat>, leaves: seq<nat>, elems: nat, dad: seq<nat>, max: nat)
    requires AreLeaves(leaves, elems) && ParentsFirst(order, leaves, elems, dad) && max >= 1
    ensures forall q :: 1 <= q < |order| ==> BitsAt(order, max, q) >= 1
    ensures order[0] >= elems
  {
    hide AreLeaves, ParentOf;
  }

  lemma {:induction false} NoneWithDepth(order: seq<nat>, elems: nat, max: nat, p: nat, b: nat)
    requires p <= |order| && forall q :: 0 <= q < p && order[q] < elems ==> BitsAt(order, max, q) != b
    ensures LeafBits(order, elems, max, p, b) == 0
  {
    hide BitsAt;
    if p > 0 { NoneWithDepth(order, elems, max, p - 1, b); }
  }

  /** The counts of any Huffman tree after clamping. */
  lemma TreeIsClamped(order: seq<nat>, leaves: seq<nat>, elems: nat, dad: seq<nat>, max: nat)
    requires AreLeaves(leaves, elems) && ParentsFirst(order, leaves, elems, dad) && 1 <= max <= MAX_BITS
    requires |leaves| < Pow2(max)
    ensures Clamped(Counts(order, elems, max, |order|), max, Overflows(order, max, |order|), |leaves|)
  {
    hide AreLeaves, BitsAt, FrontierSum, Overflows, CountSum, Pow2, LeafBits;
    var c := Counts(order, elems, max, |order|);
    FrontierSums(order, leaves, elems, dad, max, |leaves| - 1);
    LeafDepths(order, leaves, elems, dad, max);
    CountsSum(Kraft, order, elems, max, |order|);
    CountsSum(Every, order, elems, max, |order|);
    CountsSum(Longest, order, elems, max, |order|);
    LongestIsCount(c, max, max);
    NoneWithDepth(order, elems, max, |order|, 0);
    forall b | max < b <= MAX_BITS ensures c[b] == 0 {
      NoneWithDepth(order, elems, max, |order|, b);
    }
  }

  // ----- The repair of the counts -----

  lemma MulChange(c: int, k: int, w: nat)
    ensures (c + k) * w == c * w + k * w
  {
  }

  lemma {:induction false} CountChanged(w: Measure, c: seq<nat>, max: nat, b: nat, i: nat, v: nat)
    requires b <= max < |c| && 1 <= i <= max
    ensures CountSum(w, c[i := v], max, b)
         == CountSum(w, c, max, b) + if i <= b then (v - c[i]) * Weight(w, max, i) else 0
  {
    hide Weight;
    if b > 0 {
      CountChanged(w, c, max, b - 1, i, v);
      MulChange(c[i], v - c[i], Weight(w, max, i));
    }
  }

  /** With only longest codes there would be more leaves than there are. */
  lemma {:induction false} ShorterExists(c: seq<nat>, max: nat, b: nat) returns (i: nat)
    requires b <= max < |c| && CountSum(Kraft, c, max, b) > CountSum(Every, c, max, b)
    ensures 1 <= i < max && i <= b && c[i] > 0
  {
    hide Pow2, Weight;
    if CountSum(Kraft, c, max, b - 1) > CountSum(Every, c, max, b - 1) {
      i := ShorterExists(c, max, b - 1);
    } else {
      i := b;
      EveryWeighsOne(c[b], max, b);
    }
  }

  lemma EveryWeighsOne(n: nat, max: nat, b: nat)
    requires b <= max
    ensures n * Weight(Every, max, b) == n
    ensures b == max || n == 0 ==> n * Weight(Kraft, max, b) == n
  {
  }

  lemma SumUnfolds(w: Measure, c: seq<nat>, max: nat, b: nat)
    requires 1 <= b <= max < |c|
    ensures CountSum(w, c, max, b) == CountSum(w, c, max, b - 1) + c[b] * Weight(w, max, b)
  {
  }

  /** What one round of the repair loop does to the counts. */
  function Repaired(c: seq<nat>, max: nat, bits: nat): seq<nat>
    requires 1 <= bits < max < |c| && c[bits] > 0 && c[max] > 0
  {
    var split := c[bits := c[bits] - 1];
    var grown := split[bits + 1 := split[bits + 1] + 2];
    grown[max := grown[max] - 1]
  }

  /** A round keeps the number of leaves and lowers the Kraft sum by one. */
  lemma RepairedSums(c: seq<nat>, max: nat, bits: nat)
    requires 1 <= bits < max < |c| && c[bits] > 0 && c[max] > 0
    ensures CountSum(Kraft, Repaired(c, max, bits), max, max) == CountSum(Kraft, c, max, max) - 1
    ensures CountSum(Every, Repaired(c, max, bits), max, max) == CountSum(Every, c, max, max)
  {
    hide CountSum, Weight, Repaired;
    HalfWeight(max, bits);
    HalfWeight(max, max);
    RepairedSum(Kraft, c, max, bits);
    RepairedSum(Every, c, max, bits);
    EveryIsOne(max, bits);
  }

  lemma RepairedSum(w: Measure, c: seq<nat>, max: nat, bits: nat)
    requires 1 <= bits < max < |c| && c[bits] > 0 && c[max] > 0
    ensures CountSum(w, Repaired(c, max, bits), max, max)
         == CountSum(w, c, max, max) - Weight(w, max, bits) + 2 * Weight(w, max, bits + 1) - Weight(w, max, max)
  {
    hide CountSum, Weight;
    var split := c[bits := c[bits] - 1];
    var grown := split[bits + 1 := split[bits + 1] + 2];
    CountShifted(w, c, max, bits, -1);
    CountShifted(w, split, max, bits + 1, 2);
    CountShifted(w, grown, max, max, -1);
  }

  lemma CountShifted(w: Measure, c: seq<nat>, max: nat, i: nat, d: int)
    requires 1 <= i <= max < |c| && c[i] + d >= 0
    ensures CountSum(w, c[i := c[i] + d], max, max) == CountSum(w, c, max, max) + d * Weight(w, max, i)
  {
    hide CountSum, Weight;
    CountChanged(w, c, max, max, i, c[i] + d);
    assert c[i] + d - c[i] == d;
  }

  lemma EveryIsOne(max: nat, bits: nat)
    requires bits < max
    ensures Weight(Every, max, bits) == Weight(Every, max, bits + 1) == Weight(Every, max, max) == 1
  {
  }

  lemma RepairKeepsClamped(c: seq<nat>, max: nat, over: nat, leaves: nat, bits: nat)
    requires Clamped(c, max, over, leaves) && over > 0 && 1 <= bits < max && c[bits] > 0
    ensures c[max] > 0 && over >= 2 && Clamped(Repaired(c, max, bits), max, over - 2, leaves)
    ensures Repaired(c, max, bits)[max] > 0
  {
    hide CountSum, Pow2;
    RepairedSums(c, max, bits);
  }

  /** Takes a longer code from the deepest level that has one to spare, until the Kraft sum is one. */
  method Repair(blCount: array<nat>, max: nat, overflow: nat, ghost leaves: nat)
    requires blCount.Length == MAX_BITS + 1 && overflow > 0 && Clamped(blCount[..], max, overflow, leaves)
    modifies blCount
    ensures Clamped(blCount[..], max, 0, leaves) && max < blCount.Length && blCount[max] > 0
  {
    hide CountSum, Pow2, Repaired;
    var over: nat := overflow;
    while over > 0
      invariant Clamped(blCount[..], max, over, leaves) && (over < overflow ==> blCount[max] > 0)
    {
      ghost var c := blCount[..];
      var bits := DeepestShorter(blCount, max, over, leaves);
      RepairKeepsClamped(c, max, over, leaves, bits);
      blCount[bits] := blCount[bits] - 1;
      blCount[bits + 1] := blCount[bits + 1] + 2;
      blCount[max] := blCount[max] - 1;
      RepairedIs(c, max, bits, blCount[..]);
      over := over - 2;
    }
  }

  lemma RepairedIs(c: seq<nat>, max: nat, bits: nat, c': seq<nat>)
    requires 1 <= bits < max < |c| == |c'| && c[bits] > 0 && c[max] > 0
    requires forall j :: 0 <= j < |c| ==>
      c'[j] + (if j == bits then 1 else 0) + (if j == max then 1 else 0) == c[j] + if j == bits + 1 then 2 else 0
    ensures c' == Repaired(c, max, bits)
  {
  }

  /** The search of the repair loop; it ends above index 0. */
  method DeepestShorter(blCount: array<nat>, max: nat, ghost over: nat, ghost leaves: nat) returns (bits: nat)
    requires blCount.Length == MAX_BITS + 1 && Clamped(blCount[..], max, over, leaves)
    ensures 1 <= bits < max && blCount[bits] > 0 && forall b :: bits < b < max ==> blCount[b] == 0
  {
    ghost var i := ShorterExists(blCount[..], max, max);
    bits := max - 1;
    while blCount[bits] == 0
      invariant i <= bits < max && forall b :: bits < b < max ==> blCount[b] == 0
      decreases bits
    {
      bits := bits - 1;
    }
  }

  // ----- Clamped depths -----

  /** Nodes before place p have their depth, the others still their parent. */
  ghost predicate DepthsSoFar(order: seq<nat>, dad: seq<nat>, dl: seq<nat>, max: nat, p: nat)
    requires p <= |order|
  {
    && |dl| == |dad| && (forall q :: 0 <= q < |order| ==> order[q] < |dad|)
    && (forall q :: 0 <= q < p ==> dl[order[q]] == BitsAt(order, max, q))
    && (forall q :: p <= q < |order| ==> dl[order[q]] == dad[order[q]])
    && forall x :: 0 <= x < |dad| && x !in order ==> dl[x] == dad[x]
  }

  lemma NodeBounds(order: seq<nat>, leaves: seq<nat>, elems: nat, dad: seq<nat>)
    requires AreLeaves(leaves, elems) && ParentsFirst(order, leaves, elems, dad) && |leaves| <= elems
    ensures forall q :: 0 <= q < |order| ==> order[q] < 2 * elems - 1
    ensures forall q :: 0 <= q < |order| ==> (order[q] < elems <==> order[q] in leaves)
  {
    hide ParentsFirst;
    forall q | 0 <= q < |order|
      ensures order[q] < 2 * elems - 1 && (order[q] < elems <==> order[q] in leaves)
    {
      OrderMembers(order, leaves, elems, dad, order[q]);
    }
  }

  lemma RootDepth(order: seq<nat>, leaves: seq<nat>, elems: nat, dad: seq<nat>, max: nat)
    requires AreLeaves(leaves, elems) && ParentsFirst(order, leaves, elems, dad) && |leaves| <= elems
    requires 2 * elems <= |dad|
    ensures |order| >= 1 && order[0] < |dad| && DepthsSoFar(order, dad, dad[order[0] := 0], max, 1)
  {
    hide AreLeaves;
    NodeBounds(order, leaves, elems, dad);
    OrderDistinct(order, leaves, elems, dad);
  }

  lemma DepthNext(order: seq<nat>, leaves: seq<nat>, elems: nat, dad: seq<nat>, dl: seq<nat>, max: nat, p: nat)
    requires AreLeaves(leaves, elems) && ParentsFirst(order, leaves, elems, dad)
    requires 1 <= p < |order| && DepthsSoFar(order, dad, dl, max, p)
    ensures var d := ParentOf(order, p);
            && d < p && dl[order[p]] == order[d] && dl[order[d]] == BitsAt(order, max, d)
            && DepthsSoFar(order, dad, dl[order[p] := BitsAt(order, max, p)], max, p + 1)
  {
    hide AreLeaves, ParentsFirst, BitsAt, ParentOf;
    ParentIsEarlier(order, leaves, elems, dad, p);
    OrderDistinct(order, leaves, elems, dad);
  }

  lemma CountsNext(order: seq<nat>, elems: nat, max: nat, p: nat)
    requires p < |order| && max <= MAX_BITS
    ensures var c := Counts(order, elems, max, p);
            var b := BitsAt(order, max, p);
            Counts(order, elems, max, p + 1) == if order[p] < elems then c[b := c[b] + 1] else c
  {
    hide BitsAt;
  }

  lemma OverflowNext(order: seq<nat>, max: nat, p: nat)
    requires 1 <= p < |order| && ParentOf(order, p) < p
    ensures var b := BitsAt(order, max, ParentOf(order, p));
            && BitsAt(order, max, p) == (if b + 1 > max then max else b + 1)
            && Overflows(order, max, p + 1) == Overflows(order, max, p) + if b + 1 > max then 1 else 0
  {
    hide ParentOf;
  }

  lemma NoneCounted(order: seq<nat>, elems: nat, max: nat)
    requires |order| >= 1 && order[0] >= elems && max <= MAX_BITS
    ensures forall b :: 0 <= b <= MAX_BITS ==> Counts(order, elems, max, 1)[b] == 0
  {
    forall b | 0 <= b <= MAX_BITS ensures LeafBits(order, elems, max, 1, b) == 0 {
    }
  }

  /** The nodes of the finished tree lie above heapMax, parents first. */
  ghost predicate TreeReady(e: DeflateState, t: TreeDesc, order: seq<nat>, leaves: seq<nat>)
    requires Usable(e, t)
    reads e, e.heap, t
  {
    && e.heapMax <= HEAP_SIZE && e.heap[e.heapMax..] == order
    && AreLeaves(leaves, t.elems) && 2 <= |leaves| <= t.elems
    && t.maxCode < t.elems && forall x :: x in leaves ==> x <= t.maxCode
  }

  /** What the first loop of gen_bitlen has done when it comes to place p. */
  ghost predicate Assigning(e: DeflateState, t: TreeDesc, order: seq<nat>, dad: seq<nat>, p: nat, overflow: nat)
    requires Usable(e, t)
    reads e.blCount, t.dl
  {
    && 1 <= p <= |order| && DepthsSoFar(order, dad, t.dl[..], t.maxLength, p)
    && e.blCount[..] == Counts(order, t.elems, t.maxLength, p)
    && overflow == Overflows(order, t.maxLength, p)
  }

  /** The leaves before place p. */
  ghost function LeafSet(order: seq<nat>, elems: nat, p: nat): (s: set<nat>)
    ensures forall x :: x in s <==> exists q :: 0 <= q < p && q < |order| && order[q] == x && x < elems
  {
    set q | 0 <= q < p && q < |order| && order[q] < elems :: order[q]
  }

  ghost function ExtraTerms(t: TreeDesc): (g: seq<nat>)
    ensures |g| == t.freq.Length
  {
    seq(t.freq.Length, i requires i >= 0 => t.Extra(i))
  }

  ghost function StaticTerms(t: TreeDesc): (g: seq<nat>)
    ensures |g| == t.freq.Length
  {
    seq(t.freq.Length, i requires i >= 0 => if i < |t.staticLens| then t.staticLens[i] else 0)
  }

  /** The bits that the members of s take with code lengths l, extra bits included. */
  ghost function BitsFor(s: set<nat>, w: seq<nat>, l: seq<nat>, extra: seq<nat>): nat
    requires |l| == |w| == |extra|
  {
    Cost(s, w, l) + Cost(s, w, extra)
  }

  /** The bit counts when the leaves before place p have been counted. */
  ghost predicate Counting(e: DeflateState, t: TreeDesc, order: seq<nat>, p: nat, opt: int, fixedLen: int)
    requires Usable(e, t)
    reads e`optLen, e`staticLen, t.freq, t.dl
  {
    && e.optLen == opt + BitsFor(LeafSet(order, t.elems, p), t.freq[..], t.dl[..], ExtraTerms(t))
    && e.staticLen == fixedLen
         + if |t.staticLens| == 0 then 0
           else BitsFor(LeafSet(order, t.elems, p), t.freq[..], StaticTerms(t), ExtraTerms(t))
  }

  lemma LeafSetNext(order: seq<nat>, elems: nat, p: nat)
    requires p < |order| && Distinct(order)
    ensures order[p] !in LeafSet(order, elems, p)
    ensures LeafSet(order, elems, p + 1) == LeafSet(order, elems, p) + if order[p] < elems then {order[p]} else {}
  {
    var s, t := LeafSet(order, elems, p), LeafSet(order, elems, p + 1);
    forall x | x in t ensures x in s || x == order[p] {
    }
    forall x | x in s ensures x in t {
    }
    if order[p] < elems { assert order[p] in t; }
  }

  lemma CostWith(s: set<nat>, w: seq<nat>, l: seq<nat>, x: nat)
    requires |l| == |w| && x < |w| && x !in s
    ensures Cost(s + {x}, w, l) == Cost(s, w, l) + w[x] * l[x]
  {
    hide Sum;
    SumWith(s, CostTerms(w, l), x);
  }

  /** The count moves by the bits of the next leaf. */
  lemma BitsNext(order: seq<nat>, elems: nat, w: seq<nat>, l: seq<nat>, extra: seq<nat>, p: nat)
    requires p < |order| && Distinct(order) && |l| == |w| == |extra| && order[p] < |w|
    ensures var s, t := LeafSet(order, elems, p), LeafSet(order, elems, p + 1);
            var x := order[p];
            BitsFor(t, w, l, extra) == BitsFor(s, w, l, extra) + if x < elems then w[x] * (l[x] + extra[x]) else 0
  {
    hide Cost, LeafSet;
    LeafSetNext(order, elems, p);
    var s, x := LeafSet(order, elems, p), order[p];
    if x < elems {
      CostWith(s, w, l, x);
      CostWith(s, w, extra, x);
      Distributed(w[x], l[x], extra[x]);
    } else {
      assert LeafSet(order, elems, p + 1) == s;
    }
  }

  lemma Distributed(d: nat, a: nat, b: nat)
    ensures d * (a + b) == d * a + d * b
  {
  }

  /** A length that has not been counted yet does not matter. */
  lemma BitsUncounted(order: seq<nat>, elems: nat, w: seq<nat>, l: seq<nat>, extra: seq<nat>, p: nat, v: nat)
    requires p < |order| && Distinct(order) && |l| == |w| == |extra| && order[p] < |w|
    ensures BitsFor(LeafSet(order, elems, p), w, l[order[p] := v], extra)
         == BitsFor(LeafSet(order, elems, p), w, l, extra)
  {
    hide Cost, LeafSet;
    LeafSetNext(order, elems, p);
    CostUpdated(LeafSet(order, elems, p), w, l, order[p], v);
  }

  /** One round of the first loop of gen_bitlen. */
  method AssignDepth(e: DeflateState, t: TreeDesc, h: nat, overflow: nat, ghost order: seq<nat>,
      ghost leaves: seq<nat>, ghost dad: seq<nat>, ghost opt: int, ghost fixedLen: int)
    returns (over: nat)
    requires Usable(e, t) && TreeReady(e, t, order, leaves) && ParentsFirst(order, leaves, t.elems, dad)
    requires e.heapMax < h < HEAP_SIZE && Assigning(e, t, order, dad, h - e.heapMax, overflow)
    requires Counting(e, t, order, h - e.heapMax, opt, fixedLen)
    modifies e.blCount, t.dl, e`optLen, e`staticLen
    ensures Assigning(e, t, order, dad, h - e.heapMax + 1, over)
    ensures Counting(e, t, order, h - e.heapMax + 1, opt, fixedLen)
  {
    hide DepthsSoFar, BitsAt, Overflows, Counts, AreLeaves, ParentsFirst, LeafSet, BitsFor, Distinct;
    ghost var p: nat, dl, counts := h - e.heapMax, t.dl[..], e.blCount[..];
    over := overflow;
    NodeBounds(order, leaves, t.elems, dad);
    DepthNext(order, leaves, t.elems, dad, dl, t.maxLength, p);
    CountsNext(order, t.elems, t.maxLength, p);
    OverflowNext(order, t.maxLength, p);
    var n := e.heap[h];
    assert n == order[p];
    var bits: nat := t.dl[t.dl[n]] + 1;
    if bits > t.maxLength {
      bits := t.maxLength;
      over := over + 1;
    }
    OrderDistinct(order, leaves, t.elems, dad);
    BitsUncounted(order, t.elems, t.freq[..], dl, ExtraTerms(t), p, bits);
    t.dl[n] := bits;
    assert t.dl[..] == dl[n := bits];
    BitsNext(order, t.elems, t.freq[..], t.dl[..], ExtraTerms(t), p);
    BitsNext(order, t.elems, t.freq[..], StaticTerms(t), ExtraTerms(t), p);
    if n <= t.maxCode {
      e.blCount[bits] := e.blCount[bits] + 1;
      assert e.blCount[..] == counts[bits := counts[bits] + 1];
      var f := 0;
      if t.extraBase <= n {
        f := t.extraBits[n - t.extraBase];
      }
      assert f == ExtraTerms(t)[n];
      var d := t.freq[n];
      e.optLen := e.optLen + d * (bits + f);
      if |t.staticLens| > 0 {
        e.staticLen := e.staticLen + d * (t.staticLens[n] + f);
      }
    }
  }

  method ClearCounts(blCount: array<nat>)
    requires blCount.Length == MAX_BITS + 1
    modifies blCount
    ensures forall i :: 0 <= i <= MAX_BITS ==> blCount[i] == 0
  {
    for b := 0 to 16
      invariant forall i :: 0 <= i < b ==> blCount[i] == 0
    {
      blCount[b] := 0;
    }
  }

  /** The first loop of gen_bitlen. */
  method AssignDepths(e: DeflateState, t: TreeDesc, ghost order: seq<nat>, ghost leaves: seq<nat>)
    returns (overflow: nat)
    requires Usable(e, t) && TreeReady(e, t, order, leaves)
    requires ParentsFirst(order, leaves, t.elems, t.dl[..])
    modifies e.blCount, t.dl, e`optLen, e`staticLen
    ensures Assigning(e, t, order, old(t.dl[..]), |order|, overflow)
    ensures Counting(e, t, order, |order|, old(e.optLen), old(e.staticLen))
  {
    hide DepthsSoFar, BitsAt, Overflows, Counts, AreLeaves, ParentsFirst, LeafSet, BitsFor;
    ghost var dad := t.dl[..];
    ClearCounts(e.blCount);
    overflow := 0;
    OrderLength(order, leaves, t.elems, dad);
    RootDepth(order, leaves, t.elems, dad, t.maxLength);
    NoneCounted(order, t.elems, t.maxLength);
    NoOverflow(order, t.maxLength);
    assert e.heap[e.heapMax] == order[0];
    t.dl[e.heap[e.heapMax]] := 0;
    assert t.dl[..] == dad[order[0] := 0];
    NothingCounted(order, t.elems, t.freq[..], t.dl[..], ExtraTerms(t));
    NothingCounted(order, t.elems, t.freq[..], StaticTerms(t), ExtraTerms(t));
    for h := e.heapMax + 1 to HEAP_SIZE
      invariant Assigning(e, t, order, dad, h - e.heapMax, overflow)
      invariant Counting(e, t, order, h - e.heapMax, old(e.optLen), old(e.staticLen))
    {
      overflow := AssignDepth(e, t, h, overflow, order, leaves, dad, old(e.optLen), old(e.staticLen));
    }
  }

  lemma NothingCounted(order: seq<nat>, elems: nat, w: seq<nat>, l: seq<nat>, extra: seq<nat>)
    requires |order| >= 1 && order[0] >= elems && |l| == |w| == |extra|
    ensures BitsFor(LeafSet(order, elems, 1), w, l, extra) == 0
  {
    hide Sum;
    assert LeafSet(order, elems, 1) == {};
    NoneIn(CostTerms(w, l));
    NoneIn(CostTerms(w, extra));
  }

  lemma OrderLength(order: seq<nat>, leaves: seq<nat>, elems: nat, dad: seq<nat>)
    requires ParentsFirst(order, leaves, elems, dad)
    ensures |order| == 2 * |leaves| - 1 >= 3 && order[0] >= elems
  {
  }

  lemma NoOverflow(order: seq<nat>, max: nat)
    requires |order| >= 1
    ensures Overflows(order, max, 1) == 0
  {
  }

  // ----- Handing out the repaired lengths -----

  ghost predicate AreIndices(order: seq<nat>, dl: seq<nat>)
  {
    forall q :: 0 <= q < |order| ==> order[q] < |dl|
  }

  /** The number of leaves from place p on that have length b. */
  ghost function LeafLengths(order: seq<nat>, elems: nat, dl: seq<nat>, p: nat, b: nat): nat
    requires p <= |order| && AreIndices(order, dl)
    decreases |order| - p
  {
    if p == |order| then 0
    else LeafLengths(order, elems, dl, p + 1, b) + if order[p] < elems && dl[order[p]] == b then 1 else 0
  }

  ghost function LeavesFrom(order: seq<nat>, elems: nat, p: nat): nat
    requires p <= |order|
    decreases |order| - p
  {
    if p == |order| then 0 else LeavesFrom(order, elems, p + 1) + if order[p] < elems then 1 else 0
  }

  /** The leaves from place p on have the lengths above `bits`, and all but n of length `bits`. */
  ghost predicate HandedOut(order: seq<nat>, elems: nat, dl: seq<nat>, c: seq<nat>, max: nat, p: nat, bits: nat, n: nat)
  {
    && p <= |order| && AreIndices(order, dl) && bits <= max < |c| && n <= c[bits]
    && (forall b :: 1 <= b <= max ==>
         LeafLengths(order, elems, dl, p, b) == if b > bits then c[b] else if b == bits then c[b] - n else 0)
    && (forall q :: p <= q < |order| && order[q] < elems ==> 1 <= dl[order[q]] <= max)
    && LeavesFrom(order, elems, p) + CountSum(Every, c, max, bits) == CountSum(Every, c, max, max) + c[bits] - n
  }

  lemma {:induction false} OtherNode(order: seq<nat>, elems: nat, dl: seq<nat>, p: nat, b: nat, m: nat, v: nat)
    requires p <= |order| && AreIndices(order, dl) && m < |dl| && m !in order[p..]
    ensures LeafLengths(order, elems, dl[m := v], p, b) == LeafLengths(order, elems, dl, p, b)
    decreases |order| - p
  {
    if p < |order| {
      assert order[p] == order[p..][0] && order[p + 1..] == order[p..][1..];
      OtherNode(order, elems, dl, p + 1, b, m, v);
    }
  }

  lemma HandOutOne(order: seq<nat>, elems: nat, dl: seq<nat>, c: seq<nat>, max: nat, p: nat, bits: nat, n: nat)
    requires HandedOut(order, elems, dl, c, max, p, bits, n) && Distinct(order) && 1 <= p && 1 <= bits && n > 0
    ensures var m := order[p - 1];
            && m < |dl|
            && (m >= elems ==> HandedOut(order, elems, dl, c, max, p - 1, bits, n))
            && (m < elems ==> HandedOut(order, elems, dl[m := bits], c, max, p - 1, bits, n - 1))
  {
    hide CountSum;
    var m := order[p - 1];
    if m < elems {
      var dl' := dl[m := bits];
      forall b | 1 <= b <= max
        ensures LeafLengths(order, elems, dl', p - 1, b)
             == if b > bits then c[b] else if b == bits then c[b] - (n - 1) else 0
      {
        OtherNode(order, elems, dl, p, b, m, bits);
        assert LeafLengths(order, elems, dl, p, b) == if b > bits then c[b] else if b == bits then c[b] - n else 0;
      }
      assert LeavesFrom(order, elems, p - 1) == LeavesFrom(order, elems, p) + 1;
    } else {
      forall b | 1 <= b <= max
        ensures LeafLengths(order, elems, dl, p - 1, b) == LeafLengths(order, elems, dl, p, b)
      {
      }
      assert LeavesFrom(order, elems, p - 1) == LeavesFrom(order, elems, p);
    }
  }

  /** While a code is left to hand out, a leaf is left to take it. */
  lemma LeafRemains(order: seq<nat>, elems: nat, dl: seq<nat>, c: seq<nat>, max: nat, p: nat, bits: nat, n: nat)
    requires HandedOut(order, elems, dl, c, max, p, bits, n) && n > 0 && 1 <= bits
    requires LeavesFrom(order, elems, 0) == CountSum(Every, c, max, max)
    ensures p > 0
  {
    hide CountSum, Weight;
    SumUnfolds(Every, c, max, bits);
    EveryWeighsOne(c[bits], max, bits);
  }

  lemma NextLevel(order: seq<nat>, elems: nat, dl: seq<nat>, c: seq<nat>, max: nat, p: nat, bits: nat)
    requires HandedOut(order, elems, dl, c, max, p, bits, 0) && 1 <= bits
    ensures HandedOut(order, elems, dl, c, max, p, bits - 1, c[bits - 1])
  {
    hide CountSum, Weight;
    SumUnfolds(Every, c, max, bits);
    EveryWeighsOne(c[bits], max, bits);
  }

  lemma {:induction false} LeavesFromMonotone(order: seq<nat>, elems: nat, p: nat)
    requires p <= |order|
    ensures LeavesFrom(order, elems, p) <= LeavesFrom(order, elems, 0)
  {
    if p > 0 { LeavesFromMonotone(order, elems, p - 1); }
  }

  lemma {:induction false} NoLeafBefore(order: seq<nat>, elems: nat, dl: seq<nat>, p: nat)
    requires p <= |order| && AreIndices(order, dl) && LeavesFrom(order, elems, p) == LeavesFrom(order, elems, 0)
    ensures forall q :: 0 <= q < p ==> order[q] >= elems
    ensures forall b :: LeafLengths(order, elems, dl, p, b) == LeafLengths(order, elems, dl, 0, b)
  {
    if p > 0 {
      LeavesFromMonotone(order, elems, p - 1);
      NoLeafBefore(order, elems, dl, p - 1);
    }
  }

  /** Every leaf has a length, and the lengths occur as often as the counts say. */
  ghost predicate LengthsMatch(order: seq<nat>, elems: nat, dl: seq<nat>, c: seq<nat>, max: nat)
  {
    && AreIndices(order, dl) && max < |c|
    && (forall b :: 1 <= b <= max ==> LeafLengths(order, elems, dl, 0, b) == c[b])
    && forall q :: 0 <= q < |order| && order[q] < elems ==> 1 <= dl[order[q]] <= max
  }

  lemma AllHandedOut(order: seq<nat>, elems: nat, dl: seq<nat>, c: seq<nat>, max: nat, p: nat)
    requires |c| > max && HandedOut(order, elems, dl, c, max, p, 0, c[0])
    requires LeavesFrom(order, elems, 0) == CountSum(Every, c, max, max)
    ensures LengthsMatch(order, elems, dl, c, max)
  {
    assert CountSum(Every, c, max, 0) == 0;
    NoLeafBefore(order, elems, dl, p);
  }

  lemma NothingHandedOut(order: seq<nat>, elems: nat, dl: seq<nat>, c: seq<nat>, max: nat)
    requires AreIndices(order, dl) && 1 <= max < |c|
    ensures HandedOut(order, elems, dl, c, max, |order|, max, c[max])
  {
  }

  /** The last loop of gen_bitlen: the leaves, last in the list first, take the lengths, greatest first. */
  method HandOut(e: DeflateState, t: TreeDesc, ghost order: seq<nat>, ghost leaves: seq<nat>)
    requires Usable(e, t) && TreeReady(e, t, order, leaves) && Distinct(order) && AreIndices(order, t.dl[..])
    requires forall q :: 0 <= q < |order| ==> (order[q] < t.elems <==> order[q] <= t.maxCode)
    requires LeavesFrom(order, t.elems, 0) == CountSum(Every, e.blCount[..], t.maxLength, t.maxLength)
    modifies t.dl, e`optLen
    ensures LengthsMatch(order, t.elems, t.dl[..], e.blCount[..], t.maxLength)
    ensures forall x :: 0 <= x < t.elems && x !in order ==> t.dl[x] == old(t.dl[x])
    ensures var s := LeafSet(order, t.elems, |order|);
            e.optLen - Cost(s, t.freq[..], t.dl[..]) == old(e.optLen - Cost(s, t.freq[..], t.dl[..]))
  {
    hide HandedOut, CountSum, Distinct, AreLeaves, LeavesFrom, LengthsMatch, LeafSet, Cost;
    ghost var c, max, s := e.blCount[..], t.maxLength, LeafSet(order, t.elems, |order|);
    NothingHandedOut(order, t.elems, t.dl[..], c, max);
    var h := HEAP_SIZE;
    var bits: nat := t.maxLength;
    while bits != 0
      invariant bits <= max && e.heapMax <= h <= HEAP_SIZE
      invariant HandedOut(order, t.elems, t.dl[..], c, max, h - e.heapMax, bits, c[bits])
      invariant forall x :: 0 <= x < t.elems && x !in order ==> t.dl[x] == old(t.dl[x])
      invariant e.optLen - Cost(s, t.freq[..], t.dl[..]) == old(e.optLen - Cost(s, t.freq[..], t.dl[..]))
    {
      h := HandOutLevel(e, t, h, bits, order, leaves);
      NextLevel(order, t.elems, t.dl[..], c, max, h - e.heapMax, bits);
      bits := bits - 1;
    }
    AllHandedOut(order, t.elems, t.dl[..], c, max, h - e.heapMax);
  }

  method HandOutLevel(e: DeflateState, t: TreeDesc, start: nat, bits: nat, ghost order: seq<nat>,
      ghost leaves: seq<nat>)
    returns (h: nat)
    requires Usable(e, t) && TreeReady(e, t, order, leaves) && Distinct(order) && AreIndices(order, t.dl[..])
    requires forall q :: 0 <= q < |order| ==> (order[q] < t.elems <==> order[q] <= t.maxCode)
    requires LeavesFrom(order, t.elems, 0) == CountSum(Every, e.blCount[..], t.maxLength, t.maxLength)
    requires e.heapMax <= start <= HEAP_SIZE && 1 <= bits <= t.maxLength
    requires HandedOut(order, t.elems, t.dl[..], e.blCount[..], t.maxLength, start - e.heapMax, bits, e.blCount[bits])
    modifies t.dl, e`optLen
    ensures e.heapMax <= h <= HEAP_SIZE
    ensures HandedOut(order, t.elems, t.dl[..], e.blCount[..], t.maxLength, h - e.heapMax, bits, 0)
    ensures forall x :: 0 <= x < t.elems && x !in order ==> t.dl[x] == old(t.dl[x])
    ensures var s := LeafSet(order, t.elems, |order|);
            e.optLen - Cost(s, t.freq[..], t.dl[..]) == old(e.optLen - Cost(s, t.freq[..], t.dl[..]))
  {
    hide HandedOut, CountSum, Distinct, AreLeaves, LeavesFrom, LeafSet, Cost;
    ghost var c, max, s := e.blCount[..], t.maxLength, LeafSet(order, t.elems, |order|);
    h := start;
    var n := e.blCount[bits];
    while n != 0
      invariant e.heapMax <= h <= HEAP_SIZE
      invariant HandedOut(order, t.elems, t.dl[..], c, max, h - e.heapMax, bits, n)
      invariant forall x :: 0 <= x < t.elems && x !in order ==> t.dl[x] == old(t.dl[x])
      invariant e.optLen - Cost(s, t.freq[..], t.dl[..]) == old(e.optLen - Cost(s, t.freq[..], t.dl[..]))
      decreases h
    {
      ghost var dl, p := t.dl[..], h - e.heapMax;
      LeafRemains(order, t.elems, dl, c, max, p, bits, n);
      HandOutOne(order, t.elems, dl, c, max, p, bits, n);
      h := h - 1;
      var m := e.heap[h];
      assert m == order[p - 1];
      if m <= t.maxCode {
        CostUpdated(s, t.freq[..], dl, m, bits);
        IsLeaf(order, t.elems, p - 1);
        if t.dl[m] != bits {
          e.optLen := e.optLen + (bits - t.dl[m]) * t.freq[m];
          t.dl[m] := bits;
        }
        assert t.dl[..] == dl[m := bits];
        LengthChange(bits, dl[m], t.freq[m]);
        n := n - 1;
      }
    }
  }

  lemma IsLeaf(order: seq<nat>, elems: nat, q: nat)
    requires q < |order| && order[q] < elems
    ensures order[q] in LeafSet(order, elems, |order|)
  {
  }

  lemma LengthChange(bits: int, was: int, d: int)
    ensures (bits - was) * d == d * bits - d * was
    ensures bits == was ==> d * bits == d * was
  {
  }
}

/**
 The Huffman codes of deflate: gen_bitlen and gen_codes after the tree is built. Whatever the
 frequencies, the result is a complete canonical code of bounded length.
 */
module DeflateCodes {
  import opened BitReversal
  import opened Bits
  import opened CanonicalCode
  import opened CheapestCodes
  import opened CutLengths
  import opened HuffmanHeight
  import opened HuffmanLengths
  import opened HuffmanOptimal
  import opened HuffmanTree
  import opened NodeSums
  import opened Sequences

  // ----- gen_bitlen -----

  /** The lengths of the leaves are the clamped depths. */
  lemma {:induction false} DepthLengths(order: seq<nat>, elems: nat, dl: seq<nat>, max: nat, p: nat, b: nat)
    requires p <= |order| && AreIndices(order, dl)
    requires forall q :: 0 <= q < |order| ==> dl[order[q]] == BitsAt(order, max, q)
    ensures LeafBits(order, elems, max, p, b) + LeafLengths(order, elems, dl, p, b)
         == LeafBits(order, elems, max, |order|, b)
    decreases |order| - p
  {
    hide BitsAt;
    if p < |order| { DepthLengths(order, elems, dl, max, p + 1, b); }
  }

  lemma DepthsMatch(order: seq<nat>, leaves: seq<nat>, elems: nat, dad: seq<nat>, dl: seq<nat>, max: nat)
    requires AreLeaves(leaves, elems) && ParentsFirst(order, leaves, elems, dad) && 1 <= max <= MAX_BITS
    requires DepthsSoFar(order, dad, dl, max, |order|)
    ensures LengthsMatch(order, elems, dl, Counts(order, elems, max, |order|), max)
  {
    hide BitsAt, AreLeaves, LeafBits, LeafLengths;
    LeafDepths(order, leaves, elems, dad, max);
    forall b | 1 <= b <= max
      ensures LeafLengths(order, elems, dl, 0, b) == Counts(order, elems, max, |order|)[b]
    {
      DepthLengths(order, elems, dl, max, 0, b);
      NoPlaces(order, elems, max, b);
    }
  }

  lemma NoPlaces(order: seq<nat>, elems: nat, max: nat, b: nat)
    ensures LeafBits(order, elems, max, 0, b) == 0
  {
  }

  lemma {:induction false} LeavesAreEvery(order: seq<nat>, elems: nat, max: nat, p: nat)
    requires p <= |order|
    ensures FrontierSum(Every, order, max, p, elems - 1) + LeavesFrom(order, elems, p) == LeavesFrom(order, elems, 0)
  {
    hide BitsAt;
    if p > 0 { LeavesAreEvery(order, elems, max, p - 1); }
  }

  lemma LeafTotal(order: seq<nat>, leaves: seq<nat>, elems: nat, dad: seq<nat>, max: nat)
    requires AreLeaves(leaves, elems) && ParentsFirst(order, leaves, elems, dad) && max >= 1
    ensures LeavesFrom(order, elems, 0) == |leaves|
  {
    hide AreLeaves, FrontierSum, LeavesFrom, Overflows, Pow2;
    FrontierSums(order, leaves, elems, dad, max, |leaves| - 1);
    LeavesAreEvery(order, elems, max, |order|);
    NoLeavesLeft(order, elems);
  }

  lemma NoLeavesLeft(order: seq<nat>, elems: nat)
    ensures LeavesFrom(order, elems, |order|) == 0
  {
  }

  /** Clamping, repair and reassignment: the source's gen_bitlen. */
  method GenBitLen(e: DeflateState, t: TreeDesc, ghost order: seq<nat>, ghost leaves: seq<nat>)
    returns (ghost overflow: nat)
    requires Usable(e, t) && TreeReady(e, t, order, leaves) && ParentsFirst(order, leaves, t.elems, t.dl[..])
    requires t.elems < Pow2(t.maxLength)
    modifies e.blCount, t.dl, e`optLen, e`staticLen
    ensures LengthsMatch(order, t.elems, t.dl[..], e.blCount[..], t.maxLength)
    ensures Clamped(e.blCount[..], t.maxLength, 0, |leaves|)
    ensures forall x :: 0 <= x < t.elems && x !in order ==> t.dl[x] == old(t.dl[x])
    ensures overflow == Overflows(order, t.maxLength, |order|)
    ensures overflow == 0 ==> DepthsSoFar(order, old(t.dl[..]), t.dl[..], t.maxLength, |order|)
    ensures overflow > 0 ==> t.maxLength < e.blCount.Length && e.blCount[t.maxLength] > 0
    ensures Counting(e, t, order, |order|, old(e.optLen), old(e.staticLen))
  {
    hide DepthsSoFar, LengthsMatch, Clamped, Distinct, AreLeaves, ParentsFirst, Pow2, CountSum, LeavesFrom, Counts,
      LeafSet, Cost;
    ghost var dad, max := t.dl[..], t.maxLength;
    var over := AssignDepths(e, t, order, leaves);
    overflow := over;
    TreeIsClamped(order, leaves, t.elems, dad, max);
    NodeBounds(order, leaves, t.elems, dad);
    Untouched(order, dad, t.dl[..], max);
    DepthsMatch(order, leaves, t.elems, dad, t.dl[..], max);
    if over == 0 {
      return;
    }
    Repair(e.blCount, t.maxLength, over, |leaves|);
    OrderDistinct(order, leaves, t.elems, dad);
    LeafTotal(order, leaves, t.elems, dad, max);
    ClampedTotal(e.blCount[..], max, 0, |leaves|);
    HandOut(e, t, order, leaves);
  }

  lemma Untouched(order: seq<nat>, dad: seq<nat>, dl: seq<nat>, max: nat)
    requires DepthsSoFar(order, dad, dl, max, |order|)
    ensures |dl| == |dad| && AreIndices(order, dl) && forall x :: 0 <= x < |dad| && x !in order ==> dl[x] == dad[x]
  {
    hide BitsAt;
  }

  lemma ClampedTotal(c: seq<nat>, max: nat, over: nat, leaves: nat)
    requires Clamped(c, max, over, leaves)
    ensures max < |c| && CountSum(Every, c, max, max) == leaves
  {
    hide CountSum, Pow2;
  }

  // ----- From leaves to symbols -----

  ghost function SymbolsWith(lens: seq<nat>, b: nat): (s: set<nat>)
    ensures forall x: nat :: x in s <==> x < |lens| && lens[x] == b
  {
    set x: nat | x < |lens| && lens[x] == b
  }

  lemma {:induction false} SymbolsCount(lens: seq<nat>, b: nat)
    ensures |SymbolsWith(lens, b)| == Count(lens, b)
  {
    if |lens| == 0 {
      assert SymbolsWith(lens, b) == {};
    } else {
      var n := |lens| - 1;
      SymbolsCount(lens[..n], b);
      assert SymbolsWith(lens, b) == SymbolsWith(lens[..n], b) + if lens[n] == b then {n} else {};
    }
  }

  ghost function LeavesWith(order: seq<nat>, elems: nat, dl: seq<nat>, p: nat, b: nat): (s: set<nat>)
    requires p <= |order| && AreIndices(order, dl)
  {
    set x | x in order[p..] && x < elems && x < |dl| && dl[x] == b
  }

  lemma {:induction false} LeavesCount(order: seq<nat>, elems: nat, dl: seq<nat>, p: nat, b: nat)
    requires p <= |order| && AreIndices(order, dl) && Distinct(order)
    ensures |LeavesWith(order, elems, dl, p, b)| == LeafLengths(order, elems, dl, p, b)
    decreases |order| - p
  {
    if p == |order| {
      assert LeavesWith(order, elems, dl, p, b) == {};
    } else {
      hide LeavesWith, Distinct;
      LeavesCount(order, elems, dl, p + 1, b);
      LeavesWithNext(order, elems, dl, p, b);
    }
  }

  lemma LeavesWithNext(order: seq<nat>, elems: nat, dl: seq<nat>, p: nat, b: nat)
    requires p < |order| && AreIndices(order, dl) && Distinct(order)
    ensures var x, rest := order[p], LeavesWith(order, elems, dl, p + 1, b);
            && x !in rest
            && LeavesWith(order, elems, dl, p, b) == rest + if x < elems && dl[x] == b then {x} else {}
  {
    assert order[p..] == [order[p]] + order[p + 1..];
    var rest := order[p + 1..];
    forall q | 0 <= q < |rest| ensures rest[q] != order[p] {
      assert rest[q] == order[p + 1 + q];
    }
  }

  /** The list of nodes accounts for all coded symbols. */
  ghost predicate Accounts(order: seq<nat>, elems: nat, dl: seq<nat>, n: nat)
  {
    && n <= elems && n <= |dl| && AreIndices(order, dl) && Distinct(order)
    && (forall x :: 0 <= x < n && dl[x] != 0 ==> x in order)
    && forall q :: 0 <= q < |order| && order[q] < elems ==> order[q] < n
  }

  lemma SymbolsMatch(order: seq<nat>, elems: nat, dl: seq<nat>, n: nat, b: nat)
    requires Accounts(order, elems, dl, n) && b >= 1
    ensures Count(dl[..n], b) == LeafLengths(order, elems, dl, 0, b)
  {
    hide LeafLengths, Distinct;
    SymbolsCount(dl[..n], b);
    LeavesCount(order, elems, dl, 0, b);
    assert order[0..] == order;
    assert SymbolsWith(dl[..n], b) == LeavesWith(order, elems, dl, 0, b);
  }

  // ----- The Kraft sum -----

  lemma ScaledStep(s: nat, c: nat, max: nat, b: nat)
    requires b <= max <= MAX_BITS
    ensures Pow2(MAX_BITS - max) * (s + c * Pow2(max - b)) == Pow2(MAX_BITS - max) * s + c * Pow2(MAX_BITS - b)
  {
    hide Pow2;
    Pow2Add(MAX_BITS - max, max - b);
    ScaleSum(Pow2(MAX_BITS - max), s, c, Pow2(max - b));
  }

  lemma ScaleSum(f: nat, s: nat, c: nat, g: nat)
    ensures f * (s + c * g) == f * s + c * (f * g)
  {
    assert f * (s + c * g) == f * s + f * (c * g);
    assert f * (c * g) == (f * c) * g == (c * f) * g == c * (f * g);
  }

  lemma {:induction false} KraftScales(lens: seq<nat>, c: seq<nat>, max: nat, b: nat)
    requires b <= max <= MAX_BITS && max < |c| && forall i :: 1 <= i <= max ==> c[i] == Count(lens, i)
    ensures Below(lens, b + 1) == Pow2(MAX_BITS - max) * CountSum(Kraft, c, max, b)
  {
    hide Pow2, Count;
    if b > 0 {
      KraftScales(lens, c, max, b - 1);
      ScaledStep(CountSum(Kraft, c, max, b - 1), c[b], max, b);
    }
  }

  /** The counts and the symbols agree, and the code is complete. */
  lemma LengthsComplete(order: seq<nat>, elems: nat, dl: seq<nat>, c: seq<nat>, max: nat, leaves: nat, n: nat)
    requires Accounts(order, elems, dl, n) && LengthsMatch(order, elems, dl, c, max) && Clamped(c, max, 0, leaves)
    ensures forall b :: 1 <= b <= MAX_BITS ==> Count(dl[..n], b) == c[b]
    ensures Complete(dl[..n]) && forall s :: 0 <= s < n ==> dl[s] <= max
  {
    hide Pow2, CountSum, Below, LeafLengths, Distinct;
    var lens := dl[..n];
    forall s | 0 <= s < n ensures dl[s] <= max {
      if dl[s] != 0 { var q :| 0 <= q < |order| && order[q] == s; }
    }
    forall b | 1 <= b <= MAX_BITS ensures Count(lens, b) == c[b] {
      if b <= max { SymbolsMatch(order, elems, dl, n, b); } else { NoSymbol(lens, b); }
    }
    KraftScales(lens, c, max, max);
    NoneLonger(lens, max, MAX_BITS + 1);
    Pow2Add(MAX_BITS - max, max);
  }

  // ----- gen_codes -----

  /** The source's bi_reverse. */
  method BiReverse(code: nat, len: nat) returns (r: nat)
    requires len >= 1
    ensures r == Reverse(code, len)
  {
    hide Reverse, Or;
    var x := code;
    r := 0;
    NothingReversed(code);
    for i := 0 to len
      invariant r == 2 * Reverse(code, i) && x == Shr(code, i)
    {
      OrBit(Reverse(code, i), x % 2);
      ReverseNext(code, i);
      ShrStep(code, i);
      r := Or(r, x % 2);
      x := x / 2;
      r := r * 2;
    }
    r := r / 2;
  }

  lemma OrBit(a: nat, bit: nat)
    requires bit < 2
    ensures Or(2 * a, bit) == 2 * a + bit
  {
    assert Pow2(1) == 2;
    OrLow(a, bit, 1);
  }

  /** The first loop of gen_codes. */
  method FirstCodes(blCount: array<nat>, ghost lens: seq<nat>) returns (nextCode: array<nat>)
    requires blCount.Length == MAX_BITS + 1 && blCount[0] == 0
    requires forall b :: 1 <= b <= MAX_BITS ==> blCount[b] == Count(lens, b)
    ensures fresh(nextCode) && nextCode.Length == MAX_BITS + 1
    ensures forall b :: 1 <= b <= MAX_BITS ==> nextCode[b] == FirstCode(lens, b)
  {
    hide Count, FirstCode;
    nextCode := new nat[MAX_BITS + 1];
    var code := 0;
    for bits := 1 to MAX_BITS + 1
      invariant code == if bits == 1 then 0 else FirstCode(lens, bits - 1)
      invariant forall b :: 1 <= b < bits ==> nextCode[b] == FirstCode(lens, b)
    {
      FirstCodeNext(lens, bits);
      code := (code + blCount[bits - 1]) * 2;
      nextCode[bits] := code;
    }
  }

  lemma FirstCodeNext(lens: seq<nat>, b: nat)
    requires b >= 1
    ensures FirstCode(lens, b) == if b == 1 then 0 else 2 * (FirstCode(lens, b - 1) + Count(lens, b - 1))
  {
  }

  /** The codes of the symbols before n are stored, and the next code of every length is known. */
  ghost predicate Coding(lens: seq<nat>, tree: seq<nat>, nextCode: seq<nat>, n: nat)
  {
    && n <= |lens| <= |tree| && |nextCode| == MAX_BITS + 1
    && (forall b :: 1 <= b <= MAX_BITS ==> nextCode[b] == FirstCode(lens, b) + Count(lens[..n], b))
    && forall s: nat :: s < n && Coded(lens, s) ==> tree[s] == Reverse(Code(lens, s), lens[s])
  }

  lemma CodingStart(lens: seq<nat>, tree: seq<nat>, nextCode: seq<nat>)
    requires |lens| <= |tree| && |nextCode| == MAX_BITS + 1
    requires forall b :: 1 <= b <= MAX_BITS ==> nextCode[b] == FirstCode(lens, b)
    ensures Coding(lens, tree, nextCode, 0)
  {
    hide FirstCode, Reverse;
  }

  lemma CodingNext(lens: seq<nat>, tree: seq<nat>, nextCode: seq<nat>, n: nat)
    requires Coding(lens, tree, nextCode, n) && n < |lens| && lens[n] <= MAX_BITS
    ensures lens[n] == 0 ==> Coding(lens, tree, nextCode, n + 1)
    ensures lens[n] != 0 ==>
      Coding(lens, tree[n := Reverse(nextCode[lens[n]], lens[n])], nextCode[lens[n] := nextCode[lens[n]] + 1], n + 1)
  {
    hide FirstCode, Reverse, Count;
    PrefixCounts(lens, n);
  }

  /** The source's gen_codes: replaces the frequency of each coded symbol by its reversed code. */
  method GenCodes(tree: array<nat>, dl: array<nat>, maxCode: int, blCount: array<nat>)
    requires tree != dl && tree != blCount && dl != blCount && blCount.Length == MAX_BITS + 1
    requires -1 <= maxCode < tree.Length == dl.Length && blCount[0] == 0
    requires ValidLengths(dl[..maxCode + 1])
    requires forall b :: 1 <= b <= MAX_BITS ==> blCount[b] == Count(dl[..maxCode + 1], b)
    modifies tree
    ensures CodesStored(tree[..], dl[..maxCode + 1])
  {
    hide Coding;
    ghost var lens := dl[..maxCode + 1];
    var nextCode := FirstCodes(blCount, lens);
    CodingStart(lens, tree[..], nextCode[..]);
    for n := 0 to maxCode + 1
      invariant Coding(lens, tree[..], nextCode[..], n)
    {
      ghost var before, codes := tree[..], nextCode[..];
      var len := dl[n];
      CodingNext(lens, before, codes, n);
      if len != 0 {
        tree[n] := BiReverse(nextCode[len], len);
        nextCode[len] := nextCode[len] + 1;
        assert tree[..] == before[n := Reverse(codes[len], len)];
        assert nextCode[..] == codes[len := codes[len] + 1];
      }
    }
    CodingDone(lens, tree[..], nextCode[..]);
  }

  /** Every coded symbol has its canonical code, reversed, in the tree array. */
  ghost predicate CodesStored(tree: seq<nat>, lens: seq<nat>)
  {
    |lens| <= |tree| && forall s: nat :: Coded(lens, s) ==> tree[s] == Reverse(Code(lens, s), lens[s])
  }

  lemma CodingDone(lens: seq<nat>, tree: seq<nat>, nextCode: seq<nat>)
    requires Coding(lens, tree, nextCode, |lens|)
    ensures CodesStored(tree, lens)
  {
    hide Code, Reverse;
  }

  // ----- build_tree -----

  /** The lengths of all symbols up to the last one used. */
  ghost function Lengths(t: TreeDesc): seq<nat>
    requires -1 <= t.maxCode < t.dl.Length
    reads t, t.dl
  {
    t.dl[..t.maxCode + 1]
  }

  lemma {:induction false} SumOfBoth(s: set<nat>, t: set<nat>, g: seq<nat>)
    requires s !! t
    ensures Sum(s + t, g) == Sum(s, g) + Sum(t, g)
  {
    if |g| > 0 { SumOfBoth(s, t, g[..|g| - 1]); }
  }

  /** Forced symbols have frequency 1 and no extra bits: they take as many bits as their codes have. */
  lemma ForcedBits(s: set<nat>, w: seq<nat>, l: seq<nat>, extra: seq<nat>)
    requires |l| == |w| == |extra| && forall x :: x in s ==> x < |w| && w[x] == 1 && extra[x] == 0
    ensures BitsFor(s, w, l, extra) == Sum(s, l)
  {
    hide Sum;
    SumSameTerms(s, s, CostTerms(w, l), l);
    var zeros := seq(|w|, i => 0);
    SumSameTerms(s, s, CostTerms(w, extra), zeros);
    SumOfZeros(s, zeros);
  }

  lemma {:induction false} SumOfZeros(s: set<nat>, g: seq<nat>)
    requires forall i :: 0 <= i < |g| ==> g[i] == 0
    ensures Sum(s, g) == 0
  {
    if |g| > 0 { SumOfZeros(s, g[..|g| - 1]); }
  }

  lemma {:induction false} SumOfOnes(s: set<nat>, g: seq<nat>)
    requires forall x :: x in s ==> x < |g| && g[x] == 1
    ensures Sum(s, g) == |s|
    decreases |s|
  {
    if s == {} {
      NoneIn(g);
    } else {
      hide Sum;
      var x :| x in s;
      SumOfOnes(s - {x}, g);
      SumWith(s - {x}, g, x);
      assert s - {x} + {x} == s;
    }
  }

  /** The bits for the leaves are those for the used symbols and the code lengths of the forced ones. */
  lemma UsedAndForced(used: set<nat>, added: set<nat>, was: seq<nat>, freq: seq<nat>, l: seq<nat>, extra: seq<nat>)
    requires |l| == |was| == |freq| == |extra| && used !! added
    requires forall x :: x in used ==> x < |was| && freq[x] == was[x]
    requires forall x :: x in added ==> x < |was| && freq[x] == 1 && extra[x] == 0
    ensures BitsFor(used + added, freq, l, extra) == BitsFor(used, was, l, extra) + Sum(added, l)
  {
    hide Sum;
    SumOfBoth(used, added, CostTerms(freq, l));
    SumOfBoth(used, added, CostTerms(freq, extra));
    SameCost(used, freq, was, l);
    SameCost(used, freq, was, extra);
    ForcedBits(added, freq, l, extra);
  }

  /** Two leaves have codes of one bit. */
  lemma TwoLeaves(order: seq<nat>, leaves: seq<nat>, elems: nat, dad: seq<nat>, dl: seq<nat>, max: nat, x: nat)
    requires AreLeaves(leaves, elems) && ParentsFirst(order, leaves, elems, dad) && |leaves| == 2 && max >= 1
    requires Overflows(order, max, |order|) == 0 ==> DepthsSoFar(order, dad, dl, max, |order|)
    requires x in leaves && x < elems
    ensures x < |dl| && dl[x] == 1
  {
    hide AreLeaves, BitsAt, Overflows, Distinct;
    OrderLength(order, leaves, elems, dad);
    TwoChildren(order, leaves, elems, dad, max, 0);
    RootAtNone(order, max);
    assert order[ParentOf(order, 1)] == order[0];
    OrderMembers(order, leaves, elems, dad, x);
    OrderDistinct(order, leaves, elems, dad);
    DistinctPlaces(order, ParentOf(order, 1), 0);
    var q :| 0 <= q < |order| && order[q] == x;
    assert q == 1 || q == 2;
  }

  lemma StaticSums(s: set<nat>, t: TreeDesc)
    requires forall x :: x in s ==> x < t.elems
    requires t.elems <= t.freq.Length && (|t.staticLens| == 0 || t.elems <= |t.staticLens|)
    ensures |t.staticLens| > 0 ==> Sum(s, StaticTerms(t)) == Sum(s, t.staticLens)
    ensures |t.staticLens| == 0 ==> Sum(s, t.staticLens) == 0
  {
    hide Sum;
    if |t.staticLens| > 0 {
      SumPrefix(s, StaticTerms(t), t.elems);
      SumPrefix(s, t.staticLens, t.elems);
      assert StaticTerms(t)[..t.elems] == t.staticLens[..t.elems];
    } else {
      NothingToSum(s, t.staticLens);
    }
  }

  /** Both bit counts have moved by the bits of the used symbols; what was taken off for forced ones is back. */
  lemma CountsAreExact(e: DeflateState, t: TreeDesc, order: seq<nat>, was: seq<nat>, opt: int, fixedLen: int)
    requires Usable(e, t) && |was| == t.freq.Length
    requires LeafSet(order, t.elems, |order|) == Used(was, t.elems) + Added(was, t.freq[..], t.elems)
    requires Used(was, t.elems) !! Added(was, t.freq[..], t.elems)
    requires forall x :: x in Used(was, t.elems) ==> t.freq[x] == was[x]
    requires forall x :: x in Added(was, t.freq[..], t.elems) ==> t.freq[x] == 1 && x < 3 && t.dl[x] == 1
    requires Counting(e, t, order, |order|, opt - |Added(was, t.freq[..], t.elems)|,
      fixedLen - Sum(Added(was, t.freq[..], t.elems), t.staticLens))
    ensures e.optLen == opt + BitsFor(Used(was, t.elems), was, t.dl[..], ExtraTerms(t))
    ensures e.staticLen == fixedLen
      + if |t.staticLens| == 0 then 0 else BitsFor(Used(was, t.elems), was, StaticTerms(t), ExtraTerms(t))
  {
    hide Sum, BitsFor, LeafSet;
    var used, added := Used(was, t.elems), Added(was, t.freq[..], t.elems);
    UsedAndForced(used, added, was, t.freq[..], t.dl[..], ExtraTerms(t));
    UsedAndForced(used, added, was, t.freq[..], StaticTerms(t), ExtraTerms(t));
    SumOfOnes(added, t.dl[..]);
    StaticSums(added, t);
  }

  /** With a code of greatest length in use, some symbol has it. */
  lemma LongestIsUsed(order: seq<nat>, elems: nat, dl: seq<nat>, n: nat, c: seq<nat>, max: nat)
    requires Accounts(order, elems, dl, n) && LengthsMatch(order, elems, dl, c, max)
    requires 1 <= max < |c| && c[max] > 0
    ensures exists s :: 0 <= s < n && dl[s] == max
  {
    hide LeafLengths, Distinct;
    LeafOfLength(order, elems, dl, 0, max);
  }

  lemma {:induction false} LeafOfLength(order: seq<nat>, elems: nat, dl: seq<nat>, p: nat, b: nat)
    requires p <= |order| && AreIndices(order, dl) && LeafLengths(order, elems, dl, p, b) > 0
    ensures exists q :: p <= q < |order| && order[q] < elems && dl[order[q]] == b
    decreases |order| - p
  {
    if p < |order| && !(order[p] < elems && dl[order[p]] == b) { LeafOfLength(order, elems, dl, p + 1, b); }
  }

  /** The first part of build_tree: tree and code lengths. */
  method BuildLengths(e: DeflateState, t: TreeDesc) returns (ghost overflow: nat)
    requires Usable(e, t) && t.elems < Pow2(t.maxLength)
    modifies e, e.heap, e.depth, e.blCount, t, t.freq, t.dl
    ensures 0 <= t.maxCode < t.elems && Complete(Lengths(t))
    ensures e.blCount[0] == 0 && forall b :: 1 <= b <= MAX_BITS ==> e.blCount[b] == Count(Lengths(t), b)
    ensures forall s :: 0 <= s <= t.maxCode ==> t.dl[s] <= t.maxLength
    ensures forall s :: 0 <= s < t.elems && old(t.freq[s]) != 0 ==> s <= t.maxCode && t.dl[s] >= 1
    ensures BitsCounted(e, t, old(t.freq[..]), old(e.optLen), old(e.staticLen))
    ensures CheapestIff(t, old(t.freq[..]), overflow)
    ensures (forall s :: 0 <= s <= t.maxCode ==> t.dl[s] < t.maxLength) ==> overflow == 0
  {
    hide ParentsFirst, LengthsMatch, Clamped, Distinct, AreLeaves, Pow2, Complete, Below, Count, Sum, Cheapest,
      BitsFor, LeafSet, Counting, BuiltGreedily, DepthsSoFar, Overflows, Used, Added;
    ghost var was := t.freq[..];
    ghost var leaves := BuildNodes(e, t);
    ghost var order, dad, freq, depth := e.heap[e.heapMax..], t.dl[..], t.freq[..], e.depth[..];
    OrderLength(order, leaves, t.elems, dad);
    overflow := GenBitLen(e, t, order, leaves);
    assert leaves[0] in leaves;
    LengthsDone(order, leaves, t.elems, dad, t.dl[..], freq, t.maxCode + 1, e.blCount[..], t.maxLength, overflow);
    BitCounts(e, t, order, leaves, dad, was, old(e.optLen), old(e.staticLen));
    CheapestLengths(t, order, leaves, dad, was, freq, depth, overflow);
  }

  /** Both bit counts have moved by the bits of the symbols with a frequency. */
  ghost predicate BitsCounted(e: DeflateState, t: TreeDesc, freq: seq<nat>, opt: int, fixedLen: int)
    requires t.elems <= |freq| == t.freq.Length == t.dl.Length
    reads e`optLen, e`staticLen, t.dl
  {
    && e.optLen == opt + BitsFor(Used(freq, t.elems), freq, t.dl[..], ExtraTerms(t))
    && e.staticLen == fixedLen
         + if |t.staticLens| == 0 then 0 else BitsFor(Used(freq, t.elems), freq, StaticTerms(t), ExtraTerms(t))
  }

  /**
   If the frequencies add up to a 16-bit number, the lengths are cheapest exactly unless a length
   had to be cut or only one symbol is used; a total below a Fibonacci number excludes a cut.
   */
  ghost predicate CheapestIff(t: TreeDesc, freq: seq<nat>, overflow: nat)
    requires t.elems <= |freq| == t.dl.Length
    reads t.dl
  {
    var used := Used(freq, t.elems);
    && (Sum(used, freq) < 0x1_0000 ==> CheapestUnlessCut(used, freq, t.dl[..], t.maxLength, overflow))
    && (Sum(used, freq) < LeastWeight(t.maxLength + 1) ==> overflow == 0)
  }

  /**
   The source's build_tree. For any frequencies the lengths form a complete code of bounded length
   in which every symbol with a frequency has a code word, and both bit counts move by exactly the
   bits that the symbols take, in this code and in the fixed one. Whether another code takes fewer
   bits is decided by whether a length had to be cut.
   */
  method BuildTree(e: DeflateState, t: TreeDesc) returns (ghost overflow: nat)
    requires Usable(e, t) && t.elems < Pow2(t.maxLength)
    modifies e, e.heap, e.depth, e.blCount, t, t.freq, t.dl
    ensures 0 <= t.maxCode < t.elems && Complete(Lengths(t))
    ensures forall s :: 0 <= s <= t.maxCode ==> t.dl[s] <= t.maxLength
    ensures forall s :: 0 <= s < t.elems && old(t.freq[s]) != 0 ==> s <= t.maxCode && t.dl[s] >= 1
    ensures CodesStored(t.freq[..], Lengths(t))
    ensures BitsCounted(e, t, old(t.freq[..]), old(e.optLen), old(e.staticLen))
    ensures CheapestIff(t, old(t.freq[..]), overflow)
    ensures (forall s :: 0 <= s <= t.maxCode ==> t.dl[s] < t.maxLength) ==> overflow == 0
  {
    hide Pow2, Complete, Count, BitsCounted, CheapestIff, CodesStored;
    overflow := BuildLengths(e, t);
    GenCodes(t.freq, t.dl, t.maxCode, e.blCount);
  }

  lemma BitCounts(e: DeflateState, t: TreeDesc, order: seq<nat>, leaves: seq<nat>, dad: seq<nat>, was: seq<nat>,
      opt: int, fixedLen: int)
    requires Usable(e, t) && |was| == t.freq.Length
    requires AreLeaves(leaves, t.elems) && ParentsFirst(order, leaves, t.elems, dad)
    requires forall x :: 0 <= x < t.elems ==> (x in leaves <==> t.freq[x] != 0)
    requires forall x :: 0 <= x < t.elems && was[x] != 0 ==> t.freq[x] == was[x]
    requires forall x :: x in Added(was, t.freq[..], t.elems) ==> t.freq[x] == 1 && x < 3 && |leaves| == 2
    requires Overflows(order, t.maxLength, |order|) == 0 ==> DepthsSoFar(order, dad, t.dl[..], t.maxLength, |order|)
    requires Counting(e, t, order, |order|, opt - |Added(was, t.freq[..], t.elems)|,
      fixedLen - Sum(Added(was, t.freq[..], t.elems), t.staticLens))
    ensures BitsCounted(e, t, was, opt, fixedLen)
  {
    hide AreLeaves, ParentsFirst, LeafSet, BitsFor, Sum, Counting, DepthsSoFar, Overflows;
    LeavesAreUsed(order, leaves, t.elems, dad, was, t.freq[..]);
    forall x | x in Added(was, t.freq[..], t.elems) ensures t.dl[x] == 1 {
      TwoLeaves(order, leaves, t.elems, dad, t.dl[..], t.maxLength, x);
    }
    CountsAreExact(e, t, order, was, opt, fixedLen);
  }

  lemma CheapestLengths(t: TreeDesc, order: seq<nat>, leaves: seq<nat>, dad: seq<nat>, was: seq<nat>, freq: seq<nat>,
      depth: seq<nat>, overflow: nat)
    requires Built(order, leaves, t.elems, dad, was, freq, depth) && 1 <= t.maxLength <= MAX_BITS
    requires |was| == t.dl.Length && 0 <= t.maxCode < t.elems && Complete(Lengths(t))
    requires overflow == Overflows(order, t.maxLength, |order|)
    requires overflow == 0 ==> DepthsSoFar(order, dad, t.dl[..], t.maxLength, |order|)
    requires forall x :: 0 <= x < t.elems && was[x] != 0 ==> x <= t.maxCode && 1 <= t.dl[x] <= t.maxLength
    ensures CheapestIff(t, was, overflow)
  {
    hide AreLeaves, ParentsFirst, BuiltGreedily, Added, CheapestUnlessCut, Sum, LeastWeight, Complete, DepthsSoFar,
      Overflows;
    var used := Used(was, t.elems);
    if Sum(used, was) < 0x1_0000 {
      FinalLengths(order, leaves, t.elems, dad, was, freq, depth, t.dl[..], t.maxLength, t.maxCode + 1);
    }
    if Sum(used, was) < LeastWeight(t.maxLength + 1) {
      LightIsUncut(order, leaves, t.elems, dad, was, freq, depth, t.maxLength);
    }
  }

  /** What the lengths are good for once gen_bitlen is done. */
  lemma LengthsDone(order: seq<nat>, leaves: seq<nat>, elems: nat, dad: seq<nat>, dl: seq<nat>, freq: seq<nat>, n: nat,
      c: seq<nat>, max: nat, overflow: nat)
    requires AreLeaves(leaves, elems) && ParentsFirst(order, leaves, elems, dad) && |leaves| <= elems
    requires n <= elems <= |dl| == |dad| == |freq| && LengthsMatch(order, elems, dl, c, max)
    requires Clamped(c, max, 0, |leaves|)
    requires forall x :: x in leaves ==> x < n
    requires forall x :: 0 <= x < elems ==> (x in leaves <==> freq[x] != 0)
    requires forall x :: 0 <= x < elems && x !in leaves ==> dad[x] == 0
    requires forall x :: 0 <= x < elems && x !in order ==> dl[x] == dad[x]
    requires overflow > 0 ==> max < |c| && c[max] > 0
    ensures n >= 1 && Complete(dl[..n]) && forall s :: 0 <= s < n ==> dl[s] <= max <= MAX_BITS
    ensures |c| == MAX_BITS + 1 && c[0] == 0 && forall b :: 1 <= b <= MAX_BITS ==> Count(dl[..n], b) == c[b]
    ensures forall x :: 0 <= x < elems && freq[x] != 0 ==> x < n && dl[x] >= 1
    ensures overflow > 0 ==> exists s :: 0 <= s < n && dl[s] == max
  {
    hide ParentsFirst, LengthsMatch, Clamped, AreLeaves, Complete, Count, Accounts;
    AllAccounted(order, leaves, elems, dad, dl, freq, n, c, max);
    LengthsComplete(order, elems, dl, c, max, |leaves|, n);
    NoEmptyCode(c, max, |leaves|);
    if overflow > 0 {
      LongestIsUsed(order, elems, dl, n, c, max);
    }
  }

  lemma NoEmptyCode(c: seq<nat>, max: nat, leaves: nat)
    requires Clamped(c, max, 0, leaves)
    ensures |c| == MAX_BITS + 1 && c[0] == 0 && 1 <= max <= MAX_BITS
  {
    hide CountSum, Pow2;
  }

  lemma AllAccounted(order: seq<nat>, leaves: seq<nat>, elems: nat, dad: seq<nat>, dl: seq<nat>, freq: seq<nat>, n: nat,
      c: seq<nat>, max: nat)
    requires AreLeaves(leaves, elems) && ParentsFirst(order, leaves, elems, dad) && |leaves| <= elems
    requires n <= elems <= |dl| == |dad| == |freq| && LengthsMatch(order, elems, dl, c, max)
    requires forall x :: x in leaves ==> x < n
    requires forall x :: 0 <= x < elems ==> (x in leaves <==> freq[x] != 0)
    requires forall x :: 0 <= x < elems && x !in leaves ==> dad[x] == 0
    requires forall x :: 0 <= x < elems && x !in order ==> dl[x] == dad[x]
    ensures Accounts(order, elems, dl, n) && n >= 1
    ensures forall x :: 0 <= x < elems && freq[x] != 0 ==> x < n && dl[x] >= 1
  {
    hide ParentsFirst, Distinct, LeafLengths;
    NodeBounds(order, leaves, elems, dad);
    OrderDistinct(order, leaves, elems, dad);
    OrderLength(order, leaves, elems, dad);
    forall x | 0 <= x < elems ensures x in order <==> x in leaves {
      OrderMembers(order, leaves, elems, dad, x);
    }
    assert leaves[0] in leaves;
    forall x | 0 <= x < elems && freq[x] != 0 ensures x < n && dl[x] >= 1 {
      var q :| 0 <= q < |order| && order[q] == x;
    }
  }
}
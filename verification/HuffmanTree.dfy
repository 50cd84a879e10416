/**
 Building a Huffman tree in the arrays of the deflate state: leaves into the heap, repeated
 merging of the two smallest nodes, and the list of all nodes, parents first.
 */
module HuffmanTree {
  import opened HuffmanHeap
  import opened NodeSums
  import opened Sequences

  const HEAP_SIZE: nat := 573

  /** The numbers lo, ..., hi - 1. */
  function Range(lo: nat, hi: nat): (s: seq<nat>)
    requires lo <= hi
    ensures |s| == hi - lo
    ensures forall i :: 0 <= i < |s| ==> s[i] == lo + i
  {
    if lo == hi then [] else Range(lo, hi - 1) + [hi - 1]
  }

  /** Leaf nodes are distinct symbols. */
  predicate AreLeaves(leaves: seq<nat>, elems: nat)
  {
    Distinct(leaves) && forall i :: 0 <= i < |leaves| ==> leaves[i] < elems
  }

  /**
   The state between merges. The heap holds the roots; above `top` lie the merged nodes, last
   merge first, and each knows its parent, which has a larger number.
   */
  ghost predicate Forest(heap: seq<nat>, len: nat, top: nat, leaves: seq<nat>, elems: nat, node: nat, dad: seq<nat>)
  {
    && |heap| == HEAP_SIZE && len < top <= HEAP_SIZE && elems <= node
    && HEAP_SIZE - top == 2 * (node - elems) && len + (node - elems) == |leaves|
    && Contents(heap, len) + multiset(heap[top..]) == multiset(leaves) + multiset(Range(elems, node))
    && (forall p :: top <= p < HEAP_SIZE ==> heap[p] < |dad|)
    && forall p :: top <= p < HEAP_SIZE ==> heap[p] < dad[heap[p]] == node - 1 - (p - top) / 2
  }

  /** All nodes, parents first: the root, then the pairs of children in the order of their parents. */
  ghost predicate ParentsFirst(order: seq<nat>, leaves: seq<nat>, elems: nat, dad: seq<nat>)
  {
    && |order| == 2 * |leaves| - 1 && |leaves| >= 2
    && multiset(order) == multiset(leaves) + multiset(Range(elems, elems + |leaves| - 1))
    && order[0] == elems + |leaves| - 2
    && (forall p :: 1 <= p < |order| ==> order[p] < |dad|)
    && forall p :: 1 <= p < |order| ==> order[p] < dad[order[p]] == order[0] - (p - 1) / 2
  }

  // ----- Multisets of nodes -----

  lemma {:induction false} OneEach(s: seq<nat>, x: nat)
    requires Distinct(s)
    ensures multiset(s)[x] <= 1
  {
    if |s| > 0 {
      var m := |s| - 1;
      OneEach(s[..m], x);
      assert s == s[..m] + [s[m]];
      assert multiset(s) == multiset(s[..m]) + multiset{s[m]};
      if s[m] == x { assert x !in s[..m]; }
    }
  }

  lemma RangeDistinct(lo: nat, hi: nat)
    requires lo <= hi
    ensures Distinct(Range(lo, hi))
    ensures forall x: nat :: x in Range(lo, hi) <==> lo <= x < hi
  {
    var r := Range(lo, hi);
    forall x: nat | lo <= x < hi ensures x in r {
      assert r[x - lo] == x;
    }
  }

  /** Every node occurs once. */
  lemma NodesOnce(leaves: seq<nat>, elems: nat, node: nat, x: nat)
    requires AreLeaves(leaves, elems) && elems <= node
    ensures var all := multiset(leaves) + multiset(Range(elems, node));
            && all[x] <= 1 && (x in all <==> x in leaves || elems <= x < node)
            && (x in all ==> x < node)
  {
    OneEach(leaves, x);
    RangeDistinct(elems, node);
    OneEach(Range(elems, node), x);
    assert x in multiset(leaves) <==> x in leaves;
    assert x in multiset(Range(elems, node)) <==> x in Range(elems, node);
  }

  lemma HeapMember(heap: seq<nat>, len: nat, i: nat)
    requires 1 <= i <= len < |heap|
    ensures heap[i] in Contents(heap, len)
  {
    assert heap[1..len + 1][i - 1] == heap[i];
  }

  lemma MemberIndex(s: seq<nat>, x: nat) returns (i: nat)
    requires x in multiset(s)
    ensures i < |s| && s[i] == x
  {
    assert x in s;
    i :| 0 <= i < |s| && s[i] == x;
  }

  lemma TwiceInMultiset(s: seq<nat>, i: nat, j: nat)
    requires i < j < |s| && s[i] == s[j]
    ensures multiset(s)[s[i]] >= 2
  {
    assert s == s[..j] + s[j..];
    assert s[..j][i] == s[i] && s[j..][0] == s[i];
    assert multiset(s) == multiset(s[..j]) + multiset(s[j..]);
  }

  // ----- One merge -----

  lemma PopContents(heap: seq<nat>, len: nat)
    requires 1 <= len < |heap|
    ensures Contents(heap[1 := heap[len]], len - 1) == Contents(heap, len) - multiset{heap[1]}
  {
    var s := heap[1..len + 1];
    var t := heap[1 := heap[len]][1..len];
    if len > 1 {
      var middle := heap[2..len];
      assert t == [heap[len]] + middle;
      assert s == [heap[1]] + middle + [heap[len]];
    } else {
      assert s == [heap[1]];
      assert t == [];
    }
  }

  lemma ReplaceFirst(heap: seq<nat>, len: nat, v: nat)
    requires 1 <= len < |heap|
    ensures Contents(heap[1 := v], len) == Contents(heap, len) - multiset{heap[1]} + multiset{v}
  {
    var s, t := heap[1..len + 1], heap[1 := v][1..len + 1];
    assert s == [s[0]] + s[1..] && t == [v] + s[1..];
  }

  lemma RangeNext(lo: nat, hi: nat)
    requires lo <= hi
    ensures multiset(Range(lo, hi + 1)) == multiset(Range(lo, hi)) + multiset{hi}
  {
  }

  /** A root of the forest is not among the merged nodes. */
  lemma RootIsNotMerged(heap: seq<nat>, len: nat, top: nat, leaves: seq<nat>, elems: nat, node: nat, dad: seq<nat>,
      x: nat)
    requires AreLeaves(leaves, elems) && Forest(heap, len, top, leaves, elems, node, dad) && x in Contents(heap, len)
    ensures x < node && x !in heap[top..]
  {
    hide Contents, Range, Distinct;
    NodesOnce(leaves, elems, node, x);
    MemberCounts(heap[top..], x);
  }

  lemma MemberCounts(s: seq<nat>, x: nat)
    ensures x in s <==> multiset(s)[x] >= 1
  {
  }

  lemma RootsDiffer(heap: seq<nat>, len: nat, top: nat, leaves: seq<nat>, elems: nat, node: nat, dad: seq<nat>,
      n: nat, m: nat)
    requires AreLeaves(leaves, elems) && Forest(heap, len, top, leaves, elems, node, dad)
    requires n in Contents(heap, len) && m in Contents(heap, len) - multiset{n}
    ensures n != m
  {
    hide Contents, Range, Distinct;
    NodesOnce(leaves, elems, node, n);
  }

  /** What a merge does to the heap, the list above `top` and the parents. */
  lemma MergeKeepsForest(heap: seq<nat>, len: nat, top: nat, leaves: seq<nat>, elems: nat, node: nat, dad: seq<nat>,
      heap': seq<nat>, dad': seq<nat>, n: nat, m: nat)
    requires AreLeaves(leaves, elems) && len >= 2
    requires Forest(heap, len, top, leaves, elems, node, dad)
    requires |dad'| == |dad| > node && |heap'| == |heap| && len - 1 < top - 2 && n < node && m < node
    requires n in Contents(heap, len) && m in Contents(heap, len) - multiset{n}
    requires Contents(heap', len - 1) == Contents(heap, len) - multiset{n} - multiset{m} + multiset{node}
    requires heap'[top - 2..] == [m, n] + heap[top..]
    requires dad' == dad[n := node][m := node]
    ensures Forest(heap', len - 1, top - 2, leaves, elems, node + 1, dad')
  {
    hide Contents, Range, Distinct, AreLeaves;
    RangeNext(elems, node);
    MergedMultiset(heap, top, heap', n, m);
    MoveNodes(Contents(heap, len), multiset(heap[top..]), n, m, node);
    assert m in Contents(heap, len);
    RootIsNotMerged(heap, len, top, leaves, elems, node, dad, n);
    RootIsNotMerged(heap, len, top, leaves, elems, node, dad, m);
    forall p | top - 2 <= p < HEAP_SIZE
      ensures heap'[p] < |dad'| && heap'[p] < dad'[heap'[p]] == node - (p - (top - 2)) / 2
    {
      MergedParent(heap, top, node, dad, heap', dad', n, m, p);
    }
  }

  lemma MoveNodes(live: multiset<nat>, merged: multiset<nat>, n: nat, m: nat, node: nat)
    requires n in live && m in live - multiset{n}
    ensures (live - multiset{n} - multiset{m} + multiset{node}) + (merged + multiset{n} + multiset{m})
         == live + merged + multiset{node}
  {
  }

  lemma MergedMultiset(heap: seq<nat>, top: nat, heap': seq<nat>, n: nat, m: nat)
    requires 2 <= top <= |heap| == |heap'| && heap'[top - 2..] == [m, n] + heap[top..]
    ensures multiset(heap'[top - 2..]) == multiset(heap[top..]) + multiset{n} + multiset{m}
  {
  }

  lemma MergedParent(heap: seq<nat>, top: nat, node: nat, dad: seq<nat>, heap': seq<nat>, dad': seq<nat>,
      n: nat, m: nat, p: nat)
    requires 2 <= top <= HEAP_SIZE == |heap| == |heap'| && heap'[top - 2..] == [m, n] + heap[top..]
    requires n < node < |dad| && m < node && dad' == dad[n := node][m := node]
    requires n !in heap[top..] && m !in heap[top..] && top - 2 <= p < HEAP_SIZE
    requires forall q :: top <= q < HEAP_SIZE ==>
      heap[q] < |dad| && heap[q] < dad[heap[q]] == node - 1 - (q - top) / 2
    ensures heap'[p] < |dad'| && heap'[p] < dad'[heap'[p]] == node - (p - (top - 2)) / 2
  {
    assert heap'[p] == heap'[top - 2..][p - (top - 2)];
    if p >= top {
      assert heap[p] == heap[top..][p - top];
    }
  }

  // ----- The arrays -----

  /** The part of the deflate state that the tree builder works on. */
  class DeflateState {
    const heap: array<nat>
    const depth: array<nat>
    const blCount: array<nat>
    var heapLen: nat
    var heapMax: nat
    var optLen: int
    var staticLen: int

    constructor ()
      ensures fresh(heap) && fresh(depth) && fresh(blCount) && heap != depth && heap != blCount && depth != blCount
      ensures heap.Length == HEAP_SIZE && depth.Length == HEAP_SIZE && blCount.Length == 16
      ensures optLen == 0 && staticLen == 0
    {
      heap, depth, blCount := new nat[HEAP_SIZE], new nat[HEAP_SIZE], new nat[16];
      heapLen, heapMax := 0, 0;
      optLen, staticLen := 0, 0;
    }
  }

  /**
   A tree: the frequency (later the code) and the parent (later the length) of each node, which the
   source interleaves in one array, and the static facts about its symbols.
   */
  class TreeDesc {
    const freq: array<nat>
    const dl: array<nat>
    const elems: nat
    const maxLength: nat
    /** The extra bits behind the codes of the symbols from extraBase on. */
    const extraBits: seq<nat>
    const extraBase: nat
    /** The lengths of the fixed code for the same symbols; empty if there is none. */
    const staticLens: seq<nat>
    var maxCode: int

    constructor (freq: array<nat>, dl: array<nat>, elems: nat, maxLength: nat, extraBits: seq<nat>, extraBase: nat,
        staticLens: seq<nat>)
      ensures this.freq == freq && this.dl == dl && this.elems == elems && this.maxLength == maxLength
      ensures this.extraBits == extraBits && this.extraBase == extraBase && this.staticLens == staticLens
    {
      this.freq, this.dl, this.elems, this.maxLength := freq, dl, elems, maxLength;
      this.extraBits, this.extraBase, this.staticLens := extraBits, extraBase, staticLens;
      maxCode := -1;
    }

    function Extra(x: nat): nat
    {
      if extraBase <= x < extraBase + |extraBits| then extraBits[x - extraBase] else 0
    }
  }

  /** The arrays have the source's sizes and do not overlap; the first three symbols have no extra bits. */
  ghost predicate Usable(e: DeflateState, t: TreeDesc)
  {
    && e.heap.Length == HEAP_SIZE && e.depth.Length == HEAP_SIZE && e.blCount.Length == 16
    && e.heap != e.depth && e.heap != e.blCount && e.depth != e.blCount
    && t.freq.Length == t.dl.Length && 2 * t.elems <= t.freq.Length <= HEAP_SIZE && 3 <= t.elems <= 286
    && t.freq != t.dl && t.freq != e.heap && t.freq != e.depth && t.freq != e.blCount
    && t.dl != e.heap && t.dl != e.depth && t.dl != e.blCount
    && 1 <= t.maxLength <= 15
    && t.elems <= t.extraBase + |t.extraBits| && (|t.staticLens| == 0 || t.elems <= |t.staticLens|)
    && forall x :: 0 <= x < 3 ==> t.Extra(x) == 0
  }

  // ----- The leaves -----

  /** The leaves are the symbols below n with a frequency, in order, and lie in the heap. */
  ghost predicate Collected(heap: seq<nat>, len: nat, freq: seq<nat>, n: nat, maxCode: int)
    requires n <= |freq|
  {
    && len <= n && len < |heap| && Distinct(heap[1..len + 1])
    && (forall x :: 0 <= x < n ==> (x in heap[1..len + 1] <==> freq[x] != 0))
    && (forall i :: 1 <= i <= len ==> heap[i] < n)
    && -1 <= maxCode < n && (len == 0 <==> maxCode == -1)
    && (len == 1 ==> heap[1] == maxCode)
    && forall i :: 1 <= i <= len ==> heap[i] <= maxCode
  }

  lemma CollectNext(heap: seq<nat>, len: nat, freq: seq<nat>, n: nat, maxCode: int)
    requires n < |freq| && len + 1 < |heap| && Collected(heap, len, freq, n, maxCode)
    ensures freq[n] == 0 ==> Collected(heap, len, freq, n + 1, maxCode)
    ensures freq[n] != 0 ==> Collected(heap[len + 1 := n], len + 1, freq, n + 1, n)
  {
    var leaves := heap[1..len + 1];
    assert heap[len + 1 := n][1..len + 2] == leaves + [n];
  }

  /** The first loop of the source's build_tree. */
  method CollectLeaves(e: DeflateState, t: TreeDesc)
    requires Usable(e, t)
    modifies e.heap, e.depth, e`heapLen, e`heapMax, t`maxCode, t.dl
    ensures Collected(e.heap[..], e.heapLen, t.freq[..], t.elems, t.maxCode) && e.heapMax == HEAP_SIZE
    ensures -1 <= t.maxCode < t.elems
    ensures forall x :: 0 <= x < t.elems && t.freq[x] == 0 ==> t.dl[x] == 0
    ensures forall x :: 0 <= x < t.elems && t.freq[x] != 0 ==> e.depth[x] == 0
  {
    hide Collected;
    e.heapLen, e.heapMax := 0, HEAP_SIZE;
    t.maxCode := -1;
    NothingCollected(e.heap[..], t.freq[..]);
    for n := 0 to t.elems
      invariant e.heapMax == HEAP_SIZE && e.heapLen <= n && -1 <= t.maxCode < n
      invariant Collected(e.heap[..], e.heapLen, t.freq[..], n, t.maxCode)
      invariant forall x :: 0 <= x < n && t.freq[x] == 0 ==> t.dl[x] == 0
      invariant forall x :: 0 <= x < n && t.freq[x] != 0 ==> e.depth[x] == 0
    {
      CollectNext(e.heap[..], e.heapLen, t.freq[..], n, t.maxCode);
      if t.freq[n] != 0 {
        ghost var heap := e.heap[..];
        e.heapLen := e.heapLen + 1;
        t.maxCode := n;
        e.heap[e.heapLen] := n;
        e.depth[n] := 0;
        assert e.heap[..] == heap[e.heapLen := n];
      } else {
        t.dl[n] := 0;
      }
    }
  }

  lemma NothingCollected(heap: seq<nat>, freq: seq<nat>)
    requires |heap| > 0
    ensures Collected(heap, 0, freq, 0, -1)
  {
  }

  /** Enough leaves for a tree, all with a frequency. */
  ghost predicate LeavesReady(heap: seq<nat>, len: nat, freq: seq<nat>, elems: nat, maxCode: int)
    requires elems <= |freq|
  {
    && 2 <= len <= elems && len < |heap| && AreLeaves(heap[1..len + 1], elems)
    && (forall x :: 0 <= x < elems ==> (x in heap[1..len + 1] <==> freq[x] != 0))
    && maxCode < elems && forall i :: 1 <= i <= len ==> heap[i] <= maxCode
  }

  /** The symbols that have a frequency only now. */
  ghost function Added(before: seq<nat>, after: seq<nat>, elems: nat): (s: set<nat>)
    requires elems <= |before| && elems <= |after|
  {
    set x: nat | x < elems && before[x] == 0 && after[x] != 0
  }

  /**
   The source's forced nodes: with fewer than two leaves, the smallest free symbols get frequency 1,
   and the lengths of their codes, which are not sent, are taken off beforehand.
   */
  method ForceTwoLeaves(e: DeflateState, t: TreeDesc)
    requires Usable(e, t) && Collected(e.heap[..], e.heapLen, t.freq[..], t.elems, t.maxCode)
    requires -1 <= t.maxCode < t.elems
    requires forall x :: 0 <= x < t.elems && t.freq[x] == 0 ==> t.dl[x] == 0
    requires forall x :: 0 <= x < t.elems && t.freq[x] != 0 ==> e.depth[x] == 0
    modifies e.heap, e.depth, e`heapLen, e`optLen, e`staticLen, t`maxCode, t.freq
    ensures LeavesReady(e.heap[..], e.heapLen, t.freq[..], t.elems, t.maxCode) && 2 <= e.heapLen < HEAP_SIZE
    ensures forall x :: 0 <= x < t.elems && t.freq[x] == 0 ==> t.dl[x] == 0
    ensures forall x :: 0 <= x < t.elems && t.freq[x] != 0 ==> e.depth[x] == 0
    ensures forall x :: 0 <= x < t.elems && old(t.freq[x]) != 0 ==> t.freq[x] == old(t.freq[x])
    ensures forall x :: x in Added(old(t.freq[..]), t.freq[..], t.elems) ==> t.freq[x] == 1 && x < 3 && e.heapLen == 2
    ensures e.optLen == old(e.optLen) - |Added(old(t.freq[..]), t.freq[..], t.elems)|
    ensures e.staticLen == old(e.staticLen) - Sum(Added(old(t.freq[..]), t.freq[..], t.elems), t.staticLens)
  {
    hide Collected, LeavesReady, Sum, Added, Forcing, Prepared;
    ghost var was := t.freq[..];
    IsPrepared(was, t.dl[..], e.depth[..], t.elems);
    NoneForced(was, t.elems, t.staticLens);
    while e.heapLen < 2
      invariant (e.heapLen <= 2 || (e.heapLen == old(e.heapLen) && t.freq[..] == was)) && -1 <= t.maxCode < t.elems
      invariant Collected(e.heap[..], e.heapLen, t.freq[..], t.elems, t.maxCode)
      invariant Prepared(t.freq[..], t.dl[..], e.depth[..], t.elems)
      invariant Forcing(was, t.freq[..], t.elems, t.staticLens, old(e.optLen) - e.optLen,
        old(e.staticLen) - e.staticLen)
      decreases 2 - e.heapLen
    {
      ghost var heap, freq, depth, before := e.heap[..], t.freq[..], e.depth[..], t.maxCode;
      ghost var opt, fixedLen := old(e.optLen) - e.optLen, old(e.staticLen) - e.staticLen;
      var node := 0;
      if t.maxCode < 2 {
        t.maxCode := t.maxCode + 1;
        node := t.maxCode;
      }
      ForceNext(heap, e.heapLen, freq, t.elems, before, node);
      PreparedNext(freq, t.dl[..], depth, t.elems, node);
      ForcedNext(was, freq, t.elems, t.staticLens, node, opt, fixedLen);
      ForceLeaf(e, t, node);
    }
    PreparedSymbols(t.freq[..], t.dl[..], e.depth[..], t.elems);
    CollectedReady(e.heap[..], e.heapLen, t.freq[..], t.elems, t.maxCode);
    NoneAdded(was, t.elems);
    ForcedSymbols(was, t.freq[..], t.elems, t.staticLens, old(e.optLen) - e.optLen, old(e.staticLen) - e.staticLen);
  }

  /** The stores for one forced leaf. */
  method ForceLeaf(e: DeflateState, t: TreeDesc, node: nat)
    requires Usable(e, t) && e.heapLen < 2 && node < t.elems
    modifies e.heap, e.depth, e`heapLen, e`optLen, e`staticLen, t.freq
    ensures e.heapLen == old(e.heapLen) + 1 && e.heap[..] == old(e.heap[..])[e.heapLen := node]
    ensures t.freq[..] == old(t.freq[..])[node := 1] && e.depth[..] == old(e.depth[..])[node := 0]
    ensures e.optLen == old(e.optLen) - 1
    ensures e.staticLen == old(e.staticLen) - if |t.staticLens| > 0 then t.staticLens[node] else 0
  {
    e.heapLen := e.heapLen + 1;
    e.heap[e.heapLen] := node;
    t.freq[node] := 1;
    e.depth[node] := 0;
    e.optLen := e.optLen - 1;
    if |t.staticLens| > 0 {
      e.staticLen := e.staticLen - t.staticLens[node];
    }
  }

  /** Unused symbols have no length, used ones no depth. */
  ghost predicate Prepared(freq: seq<nat>, dl: seq<nat>, depth: seq<nat>, elems: nat)
  {
    && elems <= |freq| && elems <= |dl| && elems <= |depth|
    && (forall x :: 0 <= x < elems && freq[x] == 0 ==> dl[x] == 0)
    && forall x :: 0 <= x < elems && freq[x] != 0 ==> depth[x] == 0
  }

  lemma IsPrepared(freq: seq<nat>, dl: seq<nat>, depth: seq<nat>, elems: nat)
    requires elems <= |freq| && elems <= |dl| && elems <= |depth|
    requires forall x :: 0 <= x < elems && freq[x] == 0 ==> dl[x] == 0
    requires forall x :: 0 <= x < elems && freq[x] != 0 ==> depth[x] == 0
    ensures Prepared(freq, dl, depth, elems)
  {
  }

  lemma PreparedNext(freq: seq<nat>, dl: seq<nat>, depth: seq<nat>, elems: nat, node: nat)
    requires Prepared(freq, dl, depth, elems) && node < elems
    ensures Prepared(freq[node := 1], dl, depth[node := 0], elems)
  {
  }

  lemma PreparedSymbols(freq: seq<nat>, dl: seq<nat>, depth: seq<nat>, elems: nat)
    requires Prepared(freq, dl, depth, elems)
    ensures elems <= |freq| && elems <= |dl| && elems <= |depth|
    ensures forall x :: 0 <= x < elems && freq[x] == 0 ==> dl[x] == 0
    ensures forall x :: 0 <= x < elems && freq[x] != 0 ==> depth[x] == 0
  {
  }

  /** The frequencies after some symbols were forced, and what was taken off for them. */
  ghost predicate Forcing(was: seq<nat>, now: seq<nat>, elems: nat, lens: seq<nat>, opt: int, fixedLen: int)
  {
    && elems <= |was| == |now|
    && (forall x :: 0 <= x < elems && was[x] != 0 ==> now[x] == was[x])
    && (forall x :: x in Added(was, now, elems) ==> now[x] == 1 && x < 3)
    && opt == |Added(was, now, elems)| && fixedLen == Sum(Added(was, now, elems), lens)
  }

  lemma NoneForced(was: seq<nat>, elems: nat, lens: seq<nat>)
    requires elems <= |was|
    ensures Forcing(was, was, elems, lens, 0, 0)
  {
    NoneAdded(was, elems);
    NoneIn(lens);
  }

  lemma ForcedSymbols(was: seq<nat>, now: seq<nat>, elems: nat, lens: seq<nat>, opt: int, fixedLen: int)
    requires Forcing(was, now, elems, lens, opt, fixedLen)
    ensures elems <= |was| == |now| && forall x :: 0 <= x < elems && was[x] != 0 ==> now[x] == was[x]
    ensures forall x :: x in Added(was, now, elems) ==> x < elems && now[x] == 1 && x < 3
    ensures opt == |Added(was, now, elems)| && fixedLen == Sum(Added(was, now, elems), lens)
  {
    hide Sum;
  }

  lemma ForcedNext(was: seq<nat>, freq: seq<nat>, elems: nat, lens: seq<nat>, node: nat, opt: int, fixedLen: int)
    requires Forcing(was, freq, elems, lens, opt, fixedLen) && node < elems && freq[node] == 0 && node < 3
    requires |lens| == 0 || elems <= |lens|
    ensures Forcing(was, freq[node := 1], elems, lens, opt + 1, fixedLen + if |lens| > 0 then lens[node] else 0)
  {
    hide Sum;
    var s, t := Added(was, freq, elems), Added(was, freq[node := 1], elems);
    assert was[node] == 0;
    assert node !in s && t == s + {node};
    if |lens| > 0 { SumWith(s, lens, node); } else { NothingToSum(s, lens); NothingToSum(t, lens); }
  }

  lemma NothingToSum(s: set<nat>, g: seq<nat>)
    requires |g| == 0
    ensures Sum(s, g) == 0
  {
  }

  lemma NoneAdded(freq: seq<nat>, elems: nat)
    requires elems <= |freq|
    ensures Added(freq, freq, elems) == {}
  {
  }

  lemma CollectedReady(heap: seq<nat>, len: nat, freq: seq<nat>, elems: nat, maxCode: int)
    requires elems <= |freq| && len >= 2 && Collected(heap, len, freq, elems, maxCode)
    ensures LeavesReady(heap, len, freq, elems, maxCode) && len < |heap|
  {
    var leaves := heap[1..len + 1];
    forall i | 0 <= i < |leaves| ensures leaves[i] < elems {
      assert leaves[i] == heap[i + 1];
    }
  }

  lemma ForceNext(heap: seq<nat>, len: nat, freq: seq<nat>, elems: nat, maxCode: int, node: nat)
    requires 3 <= elems <= |freq| && len < 2 && len + 1 < |heap| && Collected(heap, len, freq, elems, maxCode)
    requires node == if maxCode < 2 then maxCode + 1 else 0
    ensures node < 3 && node < elems && freq[node] == 0
    ensures Collected(heap[len + 1 := node], len + 1, freq[node := 1], elems, if maxCode < 2 then node else maxCode)
  {
    var leaves := heap[1..len + 1];
    assert heap[len + 1 := node][1..len + 2] == leaves + [node];
  }

  // ----- The merges -----

  lemma ReadyIsForest(heap: seq<nat>, len: nat, freq: seq<nat>, elems: nat, maxCode: int, dad: seq<nat>)
    requires |heap| == HEAP_SIZE && elems <= |freq| && elems < HEAP_SIZE && LeavesReady(heap, len, freq, elems, maxCode)
    ensures Forest(heap, len, HEAP_SIZE, heap[1..len + 1], elems, elems, dad) && AreNodes(heap, len, elems)
  {
    assert heap[HEAP_SIZE..] == [] && Range(elems, elems) == [];
    forall i | 1 <= i <= len ensures heap[i] < elems {
      assert heap[1..len + 1][i - 1] == heap[i];
    }
  }

  lemma NotYetOrdered(heap: seq<nat>, len: nat, freq: seq<nat>, depth: seq<nat>, from: nat)
    requires |freq| <= |depth| && AreNodes(heap, len, |freq|) && len < 2 * from
    ensures Ordered(heap, len, freq, depth, from)
  {
  }

  /** Turns the collected leaves into a heap. */
  method Heapify(e: DeflateState, t: TreeDesc)
    requires Usable(e, t) && 2 <= e.heapLen && AreNodes(e.heap[..], e.heapLen, t.freq.Length)
    modifies e.heap
    ensures AreNodes(e.heap[..], e.heapLen, t.freq.Length)
    ensures Ordered(e.heap[..], e.heapLen, t.freq[..], e.depth[..], 1)
    ensures Contents(e.heap[..], e.heapLen) == old(Contents(e.heap[..], e.heapLen))
  {
    hide Ordered, Contents;
    NotYetOrdered(e.heap[..], e.heapLen, t.freq[..], e.depth[..], e.heapLen / 2 + 1);
    var r := e.heapLen / 2;
    while 1 <= r
      invariant 0 <= r <= e.heapLen / 2
      invariant AreNodes(e.heap[..], e.heapLen, t.freq.Length)
      invariant Ordered(e.heap[..], e.heapLen, t.freq[..], e.depth[..], r + 1)
      invariant Contents(e.heap[..], e.heapLen) == old(Contents(e.heap[..], e.heapLen))
    {
      SiftDown(e.heap, e.heapLen, t.freq, e.depth, r);
      r := r - 1;
    }
  }

  /** Dropping the last node into the first place leaves only the first place to repair. */
  lemma DropLast(heap: seq<nat>, len: nat, freq: seq<nat>, depth: seq<nat>)
    requires |freq| <= |depth| && AreNodes(heap, len, |freq|) && len >= 2 && Ordered(heap, len, freq, depth, 1)
    ensures AreNodes(heap[1 := heap[len]], len - 1, |freq|)
    ensures Ordered(heap[1 := heap[len]], len - 1, freq, depth, 2)
  {
  }

  /** A new node in the first place does not disturb the rest. */
  lemma NewFirst(heap: seq<nat>, len: nat, freq: seq<nat>, depth: seq<nat>, freq': seq<nat>, depth': seq<nat>,
      node: nat, f: nat, d: nat)
    requires |freq| <= |depth| && AreNodes(heap, len, |freq|) && 1 <= len && Ordered(heap, len, freq, depth, 1)
    requires node < |freq| && node !in heap[1..len + 1]
    requires freq' == freq[node := f] && depth' == depth[node := d]
    ensures AreNodes(heap[1 := node], len, |freq'|) && Ordered(heap[1 := node], len, freq', depth', 2)
  {
    forall i | 1 <= i <= len ensures heap[i] != node {
      assert heap[1..len + 1][i - 1] == heap[i];
    }
  }

  lemma ForestNodes(heap: seq<nat>, len: nat, top: nat, leaves: seq<nat>, elems: nat, node: nat, dad: seq<nat>)
    requires AreLeaves(leaves, elems) && Forest(heap, len, top, leaves, elems, node, dad)
    ensures AreNodes(heap, len, node)
    ensures len < |heap| && node !in heap[1..len + 1]
  {
    hide Distinct, Range;
    forall i | 1 <= i <= len ensures heap[i] < node {
      HeapMember(heap, len, i);
      RootIsNotMerged(heap, len, top, leaves, elems, node, dad, heap[i]);
    }
    var live := heap[1..len + 1];
    forall i | 0 <= i < |live| ensures live[i] != node {
      assert live[i] == heap[i + 1];
    }
  }

  /** n comes before every member of the heap. */
  ghost predicate Least(n: nat, live: multiset<nat>, freq: seq<nat>, depth: seq<nat>)
    requires |freq| <= |depth|
  {
    n < |freq| && forall x: nat :: x in live && x < |freq| ==> Smaller(freq, depth, n, x)
  }

  lemma FirstIsLeast(heap: seq<nat>, len: nat, freq: seq<nat>, depth: seq<nat>)
    requires |freq| <= |depth| && AreNodes(heap, len, |freq|) && 1 <= len && Ordered(heap, len, freq, depth, 1)
    ensures heap[1] in Contents(heap, len) && Least(heap[1], Contents(heap, len), freq, depth)
  {
    hide Ordered, Smaller;
    HeapMember(heap, len, 1);
    forall x: nat | x in Contents(heap, len) && x < |freq| ensures Smaller(freq, depth, heap[1], x) {
      var i := MemberIndex(heap[1..len + 1], x);
      FirstIsSmallest(heap, len, freq, depth, i + 1);
    }
  }

  /** Takes the first node out of the heap. */
  method PopSmallest(e: DeflateState, t: TreeDesc) returns (n: nat)
    requires Usable(e, t) && 2 <= e.heapLen && AreNodes(e.heap[..], e.heapLen, t.freq.Length)
    requires Ordered(e.heap[..], e.heapLen, t.freq[..], e.depth[..], 1)
    modifies e.heap, e`heapLen
    ensures e.heapLen == old(e.heapLen) - 1 && AreNodes(e.heap[..], e.heapLen, t.freq.Length)
    ensures Ordered(e.heap[..], e.heapLen, t.freq[..], e.depth[..], 1)
    ensures n in old(Contents(e.heap[..], e.heapLen))
    ensures Contents(e.heap[..], e.heapLen) == old(Contents(e.heap[..], e.heapLen)) - multiset{n}
    ensures Least(n, old(Contents(e.heap[..], e.heapLen)), t.freq[..], e.depth[..])
    ensures forall i :: old(e.heapLen) < i < HEAP_SIZE ==> e.heap[i] == old(e.heap[i])
  {
    hide Ordered, Contents, Least;
    ghost var heap := e.heap[..];
    n := e.heap[1];
    FirstIsLeast(heap, e.heapLen, t.freq[..], e.depth[..]);
    PopContents(heap, e.heapLen);
    DropLast(heap, e.heapLen, t.freq[..], e.depth[..]);
    e.heap[1] := e.heap[e.heapLen];
    assert e.heap[..] == heap[1 := heap[e.heapLen]];
    e.heapLen := e.heapLen - 1;
    SiftDown(e.heap, e.heapLen, t.freq, e.depth, 1);
  }

  /** Puts a new node in the first place and restores the order. */
  method ReplaceSmallest(e: DeflateState, t: TreeDesc, node: nat, f: nat, d: nat)
    requires Usable(e, t) && 1 <= e.heapLen && AreNodes(e.heap[..], e.heapLen, t.freq.Length)
    requires Ordered(e.heap[..], e.heapLen, t.freq[..], e.depth[..], 1)
    requires node < t.freq.Length && node !in e.heap[1..e.heapLen + 1]
    modifies e.heap, e.depth, t.freq
    ensures AreNodes(e.heap[..], e.heapLen, t.freq.Length)
    ensures Ordered(e.heap[..], e.heapLen, t.freq[..], e.depth[..], 1)
    ensures Contents(e.heap[..], e.heapLen)
         == old(Contents(e.heap[..], e.heapLen)) - multiset{old(e.heap[1])} + multiset{node}
    ensures t.freq[..] == old(t.freq[..])[node := f] && e.depth[..] == old(e.depth[..])[node := d]
    ensures forall i :: e.heapLen < i < HEAP_SIZE ==> e.heap[i] == old(e.heap[i])
  {
    hide Ordered, Contents;
    ghost var heap, freq, depth := e.heap[..], t.freq[..], e.depth[..];
    NewFirst(heap, e.heapLen, freq, depth, freq[node := f], depth[node := d], node, f, d);
    ReplaceFirst(heap, e.heapLen, node);
    t.freq[node] := f;
    e.depth[node] := d;
    e.heap[1] := node;
    assert t.freq[..] == freq[node := f] && e.depth[..] == depth[node := d] && e.heap[..] == heap[1 := node];
    SiftDown(e.heap, e.heapLen, t.freq, e.depth, 1);
  }

  /** The number of the parent of the p-th listed node. */
  function ParentNumber(node: nat, p: nat): int
  {
    node - 1 - p / 2
  }

  /** The listed nodes are pairs, and each pair has a parent with their sum. */
  ghost predicate PairsSummed(merged: seq<nat>, node: nat, freq: seq<nat>, depth: seq<nat>)
  {
    && |merged| % 2 == 0 && |merged| / 2 <= node <= |freq| <= |depth|
    && (forall p :: 0 <= p < |merged| ==> merged[p] < |freq|)
    && forall p :: 0 <= p < |merged| && p % 2 == 1 ==> PairSummed(merged, node, freq, depth, p)
  }

  ghost predicate PairSummed(merged: seq<nat>, node: nat, freq: seq<nat>, depth: seq<nat>, p: nat)
    requires 1 <= p < |merged| && merged[p] < |freq| <= |depth| && merged[p - 1] < |freq|
  {
    && 0 <= ParentNumber(node, p) < |freq|
    && freq[ParentNumber(node, p)] == (freq[merged[p]] + freq[merged[p - 1]]) % 0x1_0000
    && depth[ParentNumber(node, p)] == Deeper(depth, merged[p], merged[p - 1]) + 1
    && Smaller(freq, depth, merged[p], merged[p - 1])
  }

  function Deeper(depth: seq<nat>, n: nat, m: nat): nat
    requires n < |depth| && m < |depth|
  {
    if depth[n] >= depth[m] then depth[n] else depth[m]
  }

  /** A member of a pair comes before a root of its time. */
  ghost predicate Lightest(x: nat, y: nat, parent: int, freq: seq<nat>, depth: seq<nat>)
    requires |freq| <= |depth|
  {
    x < |freq| && y < |freq| && y < parent ==> Smaller(freq, depth, x, y)
  }

  /**
   Every merge took the two lightest roots of its time, lightest first. The pairs are listed last
   merge first; the numbers of their parents count down from node - 1.
   */
  ghost predicate Greedy(merged: seq<nat>, live: multiset<nat>, node: nat, freq: seq<nat>, depth: seq<nat>)
  {
    && PairsSummed(merged, node, freq, depth)
    && (forall p, q :: 0 <= q < p < |merged| && q / 2 < p / 2 ==>
         Lightest(merged[p], merged[q], ParentNumber(node, p), freq, depth))
    && forall p, y :: 0 <= p < |merged| && y in live ==> Lightest(merged[p], y, ParentNumber(node, p), freq, depth)
  }

  lemma NothingMerged(merged: seq<nat>, live: multiset<nat>, node: nat, freq: seq<nat>, depth: seq<nat>)
    requires |merged| == 0 && node <= |freq| <= |depth|
    ensures Greedy(merged, live, node, freq, depth)
  {
  }

  lemma PairsNext(merged: seq<nat>, node: nat, freq: seq<nat>, freq': seq<nat>, depth: seq<nat>, depth': seq<nat>,
      n: nat, m: nat)
    requires PairsSummed(merged, node, freq, depth) && node < |freq| && n < node && m < node
    requires Smaller(freq, depth, n, m) && forall p :: 0 <= p < |merged| ==> merged[p] < node
    requires freq' == freq[node := (freq[n] + freq[m]) % 0x1_0000] && depth' == depth[node := Deeper(depth, n, m) + 1]
    ensures PairsSummed([m, n] + merged, node + 1, freq', depth')
  {
    hide ParentNumber;
    var merged' := [m, n] + merged;
    forall p | 0 <= p < |merged'| && p % 2 == 1
      ensures 0 <= ParentNumber(node + 1, p) <= node && PairSummed(merged', node + 1, freq', depth', p)
    {
      ParentInRange(node + 1, p, |merged'|);
      if p == 1 {
        ParentOfFirst(node);
      } else {
        ParentInRange(node, p - 2, |merged|);
        ParentShifts(node, p);
        assert PairSummed(merged, node, freq, depth, p - 2);
        assert merged'[p] == merged[p - 2] && merged'[p - 1] == merged[p - 3];
      }
    }
  }

  lemma ParentOfFirst(node: nat)
    ensures ParentNumber(node + 1, 1) == node
  {
  }

  lemma ParentInRange(node: nat, p: nat, len: nat)
    requires p < len && len % 2 == 0 && len / 2 <= node
    ensures 0 <= ParentNumber(node, p) < node
  {
  }

  lemma SmallestIsLightest(n: nat, m: nat, live: multiset<nat>, freq: seq<nat>, depth: seq<nat>)
    requires |freq| <= |depth| && TwoSmallest(n, m, live, freq, depth)
    ensures n < |freq| && m < |freq| && n in live && m in live && Smaller(freq, depth, n, m)
    ensures forall y :: y in live - multiset{n} && y < |freq| ==>
      Smaller(freq, depth, n, y) && Smaller(freq, depth, m, y)
  {
    assert m in live;
    forall y | y in live - multiset{n} && y < |freq|
      ensures Smaller(freq, depth, n, y) && Smaller(freq, depth, m, y)
    {
      assert y in live;
    }
  }

  lemma MergeKeepsGreedy(merged: seq<nat>, live: multiset<nat>, node: nat, freq: seq<nat>, depth: seq<nat>,
      freq': seq<nat>, depth': seq<nat>, n: nat, m: nat)
    requires Greedy(merged, live, node, freq, depth) && node < |freq| <= |depth|
    requires TwoSmallest(n, m, live, freq, depth) && n < node && m < node
    requires (forall y :: y in live ==> y < node) && forall p :: 0 <= p < |merged| ==> merged[p] < node
    requires freq' == freq[node := (freq[n] + freq[m]) % 0x1_0000] && depth' == depth[node := Deeper(depth, n, m) + 1]
    ensures Greedy([m, n] + merged, live - multiset{n} - multiset{m} + multiset{node}, node + 1, freq', depth')
  {
    hide PairsSummed, TwoSmallest, ParentNumber;
    var merged', live' := [m, n] + merged, live - multiset{n} - multiset{m} + multiset{node};
    SmallestIsLightest(n, m, live, freq, depth);
    PairsNext(merged, node, freq, freq', depth, depth', n, m);
    forall p, q | 0 <= q < p < |merged'| && q / 2 < p / 2
      ensures Lightest(merged'[p], merged'[q], ParentNumber(node + 1, p), freq', depth')
    {
      assert p >= 2 && merged'[p] == merged[p - 2];
      ParentShifts(node, p);
      if q >= 2 {
        assert merged'[q] == merged[q - 2];
        assert Lightest(merged[p - 2], merged[q - 2], ParentNumber(node, p - 2), freq, depth);
      } else {
        assert Lightest(merged[p - 2], merged'[q], ParentNumber(node, p - 2), freq, depth);
      }
    }
    forall p, y | 0 <= p < |merged'| && y in live'
      ensures Lightest(merged'[p], y, ParentNumber(node + 1, p), freq', depth')
    {
      ParentShifts(node, p);
      if y != node {
        assert y in live - multiset{n} && y in live;
        if p >= 2 {
          assert merged'[p] == merged[p - 2];
          assert Lightest(merged[p - 2], y, ParentNumber(node, p - 2), freq, depth);
        }
      }
    }
  }

  lemma ParentShifts(node: nat, p: nat)
    ensures ParentNumber(node + 1, p) <= node
    ensures p >= 2 ==> ParentNumber(node + 1, p) == ParentNumber(node, p - 2)
  {
  }

  /** The state of the merge loop before node number `node` is made. */
  ghost predicate Merging(e: DeflateState, t: TreeDesc, leaves: seq<nat>, node: nat)
    requires Usable(e, t)
    reads e, e.heap, e.depth, t, t.freq, t.dl
  {
    && AreLeaves(leaves, t.elems) && 1 <= e.heapLen && node + e.heapLen == t.elems + |leaves| && |leaves| <= t.elems
    && e.heapMax <= HEAP_SIZE
    && Forest(e.heap[..], e.heapLen, e.heapMax, leaves, t.elems, node, t.dl[..])
    && AreNodes(e.heap[..], e.heapLen, t.freq.Length)
    && Ordered(e.heap[..], e.heapLen, t.freq[..], e.depth[..], 1)
    && Greedy(e.heap[e.heapMax..], Contents(e.heap[..], e.heapLen), node, t.freq[..], e.depth[..])
  }

  lemma RoomAbove(e: DeflateState, t: TreeDesc, leaves: seq<nat>, node: nat)
    requires Usable(e, t) && Merging(e, t, leaves, node) && 2 <= e.heapLen
    ensures e.heapLen < e.heapMax - 2 && e.heapMax <= HEAP_SIZE && t.elems <= node < 2 * t.elems - 1
  {
    hide Ordered, Contents, AreLeaves, AreNodes, Greedy;
  }

  /** Only the first len places matter to the heap. */
  lemma OnlyPrefixMatters(heap: seq<nat>, heap': seq<nat>, len: nat, freq: seq<nat>, depth: seq<nat>)
    requires |freq| <= |depth| && AreNodes(heap, len, |freq|) && Ordered(heap, len, freq, depth, 1)
    requires |heap'| == |heap| && forall i :: 0 <= i <= len ==> heap'[i] == heap[i]
    ensures AreNodes(heap', len, |freq|) && Ordered(heap', len, freq, depth, 1)
    ensures Contents(heap', len) == Contents(heap, len)
  {
    assert heap'[1..len + 1] == heap[1..len + 1];
  }

  /** The live nodes after a pop are older than the new one. */
  lemma StillNew(heap: seq<nat>, len: nat, live: multiset<nat>, n: nat, heap': seq<nat>, len': nat, node: nat)
    requires len < |heap| && len' < |heap'| && node !in heap[1..len + 1] && live == Contents(heap, len)
    requires Contents(heap', len') == live - multiset{n}
    ensures node !in heap'[1..len' + 1]
  {
    MemberCounts(heap[1..len + 1], node);
    MemberCounts(heap'[1..len' + 1], node);
  }

  /** n is the smallest of the live nodes and m the smallest of the others. */
  ghost predicate TwoSmallest(n: nat, m: nat, live: multiset<nat>, freq: seq<nat>, depth: seq<nat>)
    requires |freq| <= |depth|
  {
    && n in live && Least(n, live, freq, depth)
    && m in live - multiset{n} && Least(m, live - multiset{n}, freq, depth)
  }

  /** Takes the smallest node out, notes it and the next smallest as merged. */
  method TakeTwo(e: DeflateState, t: TreeDesc) returns (n: nat, m: nat)
    requires Usable(e, t) && 2 <= e.heapLen < e.heapMax - 2 && e.heapMax <= HEAP_SIZE
    requires AreNodes(e.heap[..], e.heapLen, t.freq.Length)
    requires Ordered(e.heap[..], e.heapLen, t.freq[..], e.depth[..], 1)
    modifies e.heap, e`heapLen, e`heapMax
    ensures e.heapLen == old(e.heapLen) - 1 && e.heapMax == old(e.heapMax) - 2
    ensures AreNodes(e.heap[..], e.heapLen, t.freq.Length) && e.heap[1] == m
    ensures Ordered(e.heap[..], e.heapLen, t.freq[..], e.depth[..], 1)
    ensures e.heap[e.heapMax..] == [m, n] + old(e.heap[e.heapMax..])
    ensures var live := old(Contents(e.heap[..], e.heapLen));
            Contents(e.heap[..], e.heapLen) == live - multiset{n} && TwoSmallest(n, m, live, t.freq[..], e.depth[..])
  {
    hide Ordered, Contents, Least, AreNodes;
    ghost var heap, top := e.heap[..], e.heapMax;
    n := PopSmallest(e, t);
    m := e.heap[1];
    ghost var popped := e.heap[..];
    FirstIsLeast(popped, e.heapLen, t.freq[..], e.depth[..]);
    e.heapMax := e.heapMax - 1;
    e.heap[e.heapMax] := n;
    e.heapMax := e.heapMax - 1;
    e.heap[e.heapMax] := m;
    OnlyPrefixMatters(popped, e.heap[..], e.heapLen, t.freq[..], e.depth[..]);
    assert e.heap[top - 2..] == [m, n] + heap[top..];
  }

  /** Makes `node` the parent of n and m and puts it where m was, in the first place. */
  method MakeParent(e: DeflateState, t: TreeDesc, node: nat, n: nat, m: nat)
    requires Usable(e, t) && 1 <= e.heapLen < e.heapMax && AreNodes(e.heap[..], e.heapLen, t.freq.Length)
    requires e.heapMax <= HEAP_SIZE && Ordered(e.heap[..], e.heapLen, t.freq[..], e.depth[..], 1)
    requires n < t.freq.Length && m < t.freq.Length && e.heap[1] == m
    requires t.elems <= node < t.freq.Length && node !in e.heap[1..e.heapLen + 1]
    modifies e.heap, e.depth, t.freq, t.dl
    ensures AreNodes(e.heap[..], e.heapLen, t.freq.Length)
    ensures Ordered(e.heap[..], e.heapLen, t.freq[..], e.depth[..], 1)
    ensures Contents(e.heap[..], e.heapLen)
         == old(Contents(e.heap[..], e.heapLen)) - multiset{m} + multiset{node}
    ensures e.heap[e.heapMax..] == old(e.heap[e.heapMax..])
    ensures t.dl[..] == old(t.dl[..])[n := node][m := node]
    ensures t.freq[..] == old(t.freq[..])[node := (old(t.freq[n]) + old(t.freq[m])) % 0x1_0000]
    ensures e.depth[..] == old(e.depth[..])[node := Deeper(old(e.depth[..]), n, m) + 1]
  {
    hide Ordered, Contents, AreNodes;
    var f := (t.freq[n] + t.freq[m]) % 0x1_0000;
    var d := (if e.depth[n] >= e.depth[m] then e.depth[n] else e.depth[m]) + 1;
    t.dl[n] := node;
    t.dl[m] := node;
    ReplaceSmallest(e, t, node, f, d);
  }

  /** One round of the merge loop: the two smallest nodes become the children of a new one. */
  method Merge(e: DeflateState, t: TreeDesc, node: nat, ghost leaves: seq<nat>)
    requires Usable(e, t) && Merging(e, t, leaves, node) && 2 <= e.heapLen
    modifies e.heap, e.depth, e`heapLen, e`heapMax, t.freq, t.dl
    ensures Merging(e, t, leaves, node + 1) && e.heapLen == old(e.heapLen) - 1
    ensures e.heapMax == old(e.heapMax) - 2
    ensures forall x :: 0 <= x < t.elems ==> t.freq[x] == old(t.freq[x]) && e.depth[x] == old(e.depth[x])
    ensures forall x :: 0 <= x < t.elems && x !in leaves ==> t.dl[x] == old(t.dl[x])
    ensures var n, m := e.heap[e.heapMax + 1], e.heap[e.heapMax];
            && n < t.freq.Length && m < t.freq.Length
            && TwoSmallest(n, m, old(Contents(e.heap[..], e.heapLen)), old(t.freq[..]), old(e.depth[..]))
            && t.freq[node] == (old(t.freq[n]) + old(t.freq[m])) % 0x1_0000
  {
    hide Ordered, Contents, TwoSmallest, Forest, AreLeaves, AreNodes, Greedy;
    ghost var heap: seq<nat>, len, dad: seq<nat> := e.heap[..], e.heapLen, t.dl[..];
    ghost var freq, depth, merged := t.freq[..], e.depth[..], e.heap[e.heapMax..];
    ghost var top, live := e.heapMax, Contents(heap, len);
    ForestNodes(heap, len, top, leaves, t.elems, node, dad);
    RoomAbove(e, t, leaves, node);
    var n, m := TakeTwo(e, t);
    StillNew(heap, len, live, n, e.heap[..], e.heapLen, node);
    assert e.heap[..][1..e.heapLen + 1] == e.heap[1..e.heapLen + 1];
    SmallestAreNodes(n, m, live, t.freq[..], e.depth[..]);
    assert e.heap[e.heapMax] == e.heap[e.heapMax..][0] && e.heap[e.heapMax + 1] == e.heap[e.heapMax..][1];
    ghost var taken := e.heap[e.heapMax..];
    MakeParent(e, t, node, n, m);
    assert e.heap[e.heapMax] == taken[0] && e.heap[e.heapMax + 1] == taken[1];
    LiveNodes(heap, len, top, leaves, t.elems, node, dad, n, m);
    MergeKeepsForest(heap, len, top, leaves, t.elems, node, dad, e.heap[..], t.dl[..], n, m);
    OlderNodes(heap, len, top, leaves, t.elems, node, dad);
    MergeKeepsGreedy(merged, live, node, freq, depth, t.freq[..], e.depth[..], n, m);
    assert e.heap[e.heapMax..] == [m, n] + merged;
  }

  /** All nodes of the forest are older than the next one. */
  lemma OlderNodes(heap: seq<nat>, len: nat, top: nat, leaves: seq<nat>, elems: nat, node: nat, dad: seq<nat>)
    requires AreLeaves(leaves, elems) && Forest(heap, len, top, leaves, elems, node, dad)
    ensures top <= |heap| && len < |heap| && forall y :: y in Contents(heap, len) ==> y < node
    ensures forall p :: 0 <= p < |heap[top..]| ==> heap[top..][p] < node
  {
    hide Contents, Range, Distinct, AreLeaves;
    forall y | y in Contents(heap, len) ensures y < node {
      RootIsNotMerged(heap, len, top, leaves, elems, node, dad, y);
    }
    forall p | 0 <= p < |heap[top..]| ensures heap[top..][p] < node {
      assert heap[top..][p] == heap[top + p];
    }
  }

  lemma SmallestAreNodes(n: nat, m: nat, live: multiset<nat>, freq: seq<nat>, depth: seq<nat>)
    requires |freq| <= |depth| && TwoSmallest(n, m, live, freq, depth)
    ensures n < |freq| && m < |freq| && n in live && m in live - multiset{n}
  {
  }

  /** A live node is older than the new one; a live symbol is a leaf. */
  lemma LiveNodes(heap: seq<nat>, len: nat, top: nat, leaves: seq<nat>, elems: nat, node: nat, dad: seq<nat>,
      n: nat, m: nat)
    requires AreLeaves(leaves, elems) && Forest(heap, len, top, leaves, elems, node, dad)
    requires n in Contents(heap, len) && m in Contents(heap, len) - multiset{n}
    ensures n < node && m < node && n != m
    ensures (n < elems ==> n in leaves) && (m < elems ==> m in leaves)
  {
    hide Contents, Range, Distinct, AreLeaves;
    assert m in Contents(heap, len);
    RootIsNotMerged(heap, len, top, leaves, elems, node, dad, n);
    RootIsNotMerged(heap, len, top, leaves, elems, node, dad, m);
    RootsDiffer(heap, len, top, leaves, elems, node, dad, n, m);
    NodesOnce(leaves, elems, node, n);
    NodesOnce(leaves, elems, node, m);
  }

  /** The last root is the newest node. */
  lemma LastRoot(heap: seq<nat>, top: nat, leaves: seq<nat>, elems: nat, node: nat, dad: seq<nat>)
    requires AreLeaves(leaves, elems) && Forest(heap, 1, top, leaves, elems, node, dad) && node > elems
    ensures heap[1] == node - 1
  {
    hide Range, Distinct;
    NodesOnce(leaves, elems, node, node - 1);
    var merged := heap[top..];
    forall i | 0 <= i < |merged| ensures merged[i] != node - 1 {
      assert merged[i] == heap[top + i];
    }
    MemberCounts(merged, node - 1);
    assert Contents(heap, 1) == multiset{heap[1]} by { assert heap[1..2] == [heap[1]]; }
  }

  lemma ForestIsParentsFirst(heap: seq<nat>, top: nat, leaves: seq<nat>, elems: nat, node: nat, dad: seq<nat>,
      order: seq<nat>)
    requires AreLeaves(leaves, elems) && Forest(heap, 1, top, leaves, elems, node, dad) && node > elems
    requires order == [heap[1]] + heap[top..]
    ensures ParentsFirst(order, leaves, elems, dad)
  {
    hide Range, Distinct, AreLeaves;
    LastRoot(heap, top, leaves, elems, node, dad);
    assert Contents(heap, 1) == multiset{heap[1]} by { assert heap[1..2] == [heap[1]]; }
    assert multiset(order) == multiset{heap[1]} + multiset(heap[top..]);
    forall p | 1 <= p < |order|
      ensures order[p] < |dad| && order[p] < dad[order[p]] == order[0] - (p - 1) / 2
    {
      assert order[p] == heap[top + (p - 1)];
    }
  }

  /** The merge loop of the source's build_tree and the last store after it. */
  method MergeAll(e: DeflateState, t: TreeDesc, ghost leaves: seq<nat>)
    requires Usable(e, t) && |leaves| >= 2 && Merging(e, t, leaves, t.elems)
    modifies e.heap, e.depth, e`heapLen, e`heapMax, t.freq, t.dl
    ensures e.heapMax <= HEAP_SIZE && ParentsFirst(e.heap[e.heapMax..], leaves, t.elems, t.dl[..])
    ensures BuiltGreedily(e.heap[e.heapMax..], t.freq[..], e.depth[..])
    ensures forall x :: 0 <= x < t.elems ==> t.freq[x] == old(t.freq[x]) && e.depth[x] == old(e.depth[x])
    ensures forall x :: 0 <= x < t.elems && x !in leaves ==> t.dl[x] == old(t.dl[x])
  {
    hide ParentsFirst, Ordered, Contents, AreLeaves, AreNodes, TwoSmallest, Forest, Greedy;
    var node := t.elems;
    while 2 <= e.heapLen
      invariant node >= t.elems && Merging(e, t, leaves, node)
      invariant forall x :: 0 <= x < t.elems ==> t.freq[x] == old(t.freq[x]) && e.depth[x] == old(e.depth[x])
      invariant forall x :: 0 <= x < t.elems && x !in leaves ==> t.dl[x] == old(t.dl[x])
      decreases e.heapLen
    {
      Merge(e, t, node, leaves);
      node := node + 1;
    }
    TopIsAbove(e.heap[..], e.heapLen, e.heapMax, leaves, t.elems, node, t.dl[..]);
    ghost var heap, top := e.heap[..], e.heapMax;
    e.heapMax := e.heapMax - 1;
    e.heap[e.heapMax] := e.heap[1];
    assert e.heap[e.heapMax..] == [heap[1]] + heap[top..];
    ForestIsParentsFirst(heap, top, leaves, t.elems, node, t.dl[..], e.heap[e.heapMax..]);
    LastRoot(heap, top, leaves, t.elems, node, t.dl[..]);
    assert e.heap[e.heapMax..][1..] == heap[top..];
    OnlyMerged(heap[top..], Contents(heap, 1), node, t.freq[..], e.depth[..]);
  }

  /** In the finished list every pair of children was the lightest of its time. */
  ghost predicate BuiltGreedily(order: seq<nat>, freq: seq<nat>, depth: seq<nat>)
  {
    |order| > 0 && Greedy(order[1..], multiset{}, order[0] + 1, freq, depth)
  }

  lemma OnlyMerged(merged: seq<nat>, live: multiset<nat>, node: nat, freq: seq<nat>, depth: seq<nat>)
    requires Greedy(merged, live, node, freq, depth)
    ensures Greedy(merged, multiset{}, node, freq, depth)
  {
    hide PairsSummed, Lightest;
  }

  lemma TopIsAbove(heap: seq<nat>, len: nat, top: nat, leaves: seq<nat>, elems: nat, node: nat, dad: seq<nat>)
    requires Forest(heap, len, top, leaves, elems, node, dad)
    ensures |heap| == HEAP_SIZE && 0 < top <= HEAP_SIZE && node == elems + |leaves| - len
  {
  }

  /** The tree part of the source's build_tree: the nodes, parents first, in the upper part of the heap array. */
  method BuildNodes(e: DeflateState, t: TreeDesc) returns (ghost leaves: seq<nat>)
    requires Usable(e, t)
    modifies e.heap, e.depth, e`heapLen, e`heapMax, e`optLen, e`staticLen, t`maxCode, t.freq, t.dl
    ensures e.heapMax <= HEAP_SIZE && ParentsFirst(e.heap[e.heapMax..], leaves, t.elems, t.dl[..])
    ensures BuiltGreedily(e.heap[e.heapMax..], t.freq[..], e.depth[..])
    ensures AreLeaves(leaves, t.elems) && |leaves| <= t.elems
    ensures forall x :: 0 <= x < t.elems ==> (x in leaves <==> t.freq[x] != 0)
    ensures forall x :: 0 <= x < t.elems && x in leaves ==> e.depth[x] == 0
    ensures forall x :: 0 <= x < t.elems && x !in leaves ==> t.dl[x] == 0
    ensures t.maxCode < t.elems && forall x :: x in leaves ==> x <= t.maxCode
    ensures forall x :: 0 <= x < t.elems && old(t.freq[x]) != 0 ==> t.freq[x] == old(t.freq[x])
    ensures forall x :: x in Added(old(t.freq[..]), t.freq[..], t.elems) ==> t.freq[x] == 1 && x < 3 && |leaves| == 2
    ensures e.optLen == old(e.optLen) - |Added(old(t.freq[..]), t.freq[..], t.elems)|
    ensures e.staticLen == old(e.staticLen) - Sum(Added(old(t.freq[..]), t.freq[..], t.elems), t.staticLens)
  {
    hide ParentsFirst, Collected, LeavesReady, Ordered, Contents, AreLeaves, AreNodes, Forest, Greedy, Sum;
    ghost var was := t.freq[..];
    CollectLeaves(e, t);
    ForceTwoLeaves(e, t);
    ghost var heap, len := e.heap[..], e.heapLen;
    leaves := heap[1..len + 1];
    ReadyFacts(heap, len, t.freq[..], t.elems, t.maxCode, leaves);
    ReadyIsForest(heap, len, t.freq[..], t.elems, t.maxCode, t.dl[..]);
    NodesBelow(heap, len, t.elems, t.freq.Length);
    Heapify(e, t);
    HeapifiedForest(heap, e.heap[..], len, leaves, t.elems, t.dl[..]);
    NothingMerged(e.heap[e.heapMax..], Contents(e.heap[..], len), t.elems, t.freq[..], e.depth[..]);
    ghost var forced := t.freq[..];
    MergeAll(e, t, leaves);
    assert Added(was, t.freq[..], t.elems) == Added(was, forced, t.elems);
  }

  lemma ReadyFacts(heap: seq<nat>, len: nat, freq: seq<nat>, elems: nat, maxCode: int, leaves: seq<nat>)
    requires elems <= |freq| && LeavesReady(heap, len, freq, elems, maxCode) && leaves == heap[1..len + 1]
    ensures AreLeaves(leaves, elems) && 2 <= len == |leaves| <= elems && maxCode < elems
    ensures forall x :: 0 <= x < elems ==> (x in leaves <==> freq[x] != 0)
    ensures forall x :: x in leaves ==> x <= maxCode
  {
    hide AreLeaves;
    forall x | x in leaves ensures x <= maxCode {
      var i :| 0 <= i < |leaves| && leaves[i] == x;
      assert heap[i + 1] == x;
    }
  }

  lemma NodesBelow(heap: seq<nat>, len: nat, small: nat, large: nat)
    requires AreNodes(heap, len, small) && small <= large
    ensures AreNodes(heap, len, large)
  {
  }

  lemma HeapifiedForest(heap: seq<nat>, heap': seq<nat>, len: nat, leaves: seq<nat>, elems: nat, dad: seq<nat>)
    requires |heap'| == |heap| && Forest(heap, len, HEAP_SIZE, leaves, elems, elems, dad)
    requires Contents(heap', len) == Contents(heap, len)
    ensures Forest(heap', len, HEAP_SIZE, leaves, elems, elems, dad)
  {
    hide Contents;
    assert heap'[HEAP_SIZE..] == heap[HEAP_SIZE..];
  }
}
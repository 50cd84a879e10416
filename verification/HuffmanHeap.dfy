/** The priority queue of the Huffman tree builder: a binary heap of tree nodes from index 1 on. */
module HuffmanHeap {
  /** The order of the queue: frequency, then depth. */
  predicate Smaller(freq: seq<nat>, depth: seq<nat>, n: nat, m: nat)
    requires n < |freq| <= |depth| && m < |freq|
  {
    freq[n] < freq[m] || (freq[n] == freq[m] && depth[n] <= depth[m])
  }

  predicate AreNodes(heap: seq<nat>, len: nat, bound: nat)
  {
    len < |heap| && forall i :: 1 <= i <= len ==> heap[i] < bound
  }

  /** From index `from` on, no parent is larger than its children. */
  predicate Ordered(heap: seq<nat>, len: nat, freq: seq<nat>, depth: seq<nat>, from: nat)
    requires |freq| <= |depth| && AreNodes(heap, len, |freq|)
  {
    forall j :: 2 <= j <= len && from <= j / 2 ==> Smaller(freq, depth, heap[j / 2], heap[j])
  }

  function Contents(heap: seq<nat>, len: nat): multiset<nat>
    requires len < |heap|
  {
    multiset(heap[1..len + 1])
  }

  /** Order and contents while node v is still to be put into the hole at k. */
  ghost predicate Sifting(was: seq<nat>, heap: seq<nat>, len: nat, freq: seq<nat>, depth: seq<nat>, from: nat,
      k: nat, v: nat)
    requires |freq| <= |depth|
  {
    && |was| == |heap| && AreNodes(heap, len, |freq|) && 1 <= from <= k <= len && v < |freq|
    && (forall j :: 2 <= j <= len && from <= j / 2 && j != k && j / 2 != k ==>
      Smaller(freq, depth, heap[j / 2], heap[j]))
    && (from <= k / 2 ==> Smaller(freq, depth, heap[k / 2], v))
    && (from <= k / 2 ==> forall j :: 2 <= j <= len && j / 2 == k ==> Smaller(freq, depth, heap[k / 2], heap[j]))
    && Contents(heap[k := v], len) == Contents(was, len)
    && forall i :: 0 <= i < |heap| && !(1 <= i <= len) ==> heap[i] == was[i]
  }

  lemma SwapInto(heap: seq<nat>, len: nat, k: nat, j: nat, v: nat)
    requires 1 <= k <= len < |heap| && 1 <= j <= len && j != k
    ensures Contents(heap[k := heap[j]][j := v], len) == Contents(heap[k := v], len)
  {
    var a, b := heap[k := heap[j]][j := v], heap[k := v];
    var s, t := a[1..len + 1], b[1..len + 1];
    assert s == t[k - 1 := t[j - 1]][j - 1 := t[k - 1]];
  }

  lemma SiftStep(was: seq<nat>, heap: seq<nat>, len: nat, freq: seq<nat>, depth: seq<nat>, from: nat,
      k: nat, v: nat, j: nat)
    requires |freq| <= |depth| && Sifting(was, heap, len, freq, depth, from, k, v)
    requires j / 2 == k && 2 <= j <= len && Smaller(freq, depth, heap[j], v)
    requires forall i :: 2 <= i <= len && i / 2 == k ==> Smaller(freq, depth, heap[j], heap[i])
    ensures Sifting(was, heap[k := heap[j]], len, freq, depth, from, j, v)
  {
    hide Contents;
    SwapInto(heap, len, k, j, v);
  }

  lemma SiftDone(was: seq<nat>, heap: seq<nat>, len: nat, freq: seq<nat>, depth: seq<nat>, from: nat, k: nat, v: nat)
    requires |freq| <= |depth| && Sifting(was, heap, len, freq, depth, from, k, v)
    requires forall j :: 2 <= j <= len && j / 2 == k ==> Smaller(freq, depth, v, heap[j])
    ensures AreNodes(heap[k := v], len, |freq|) && Ordered(heap[k := v], len, freq, depth, from)
  {
    hide Contents;
  }

  lemma SiftStart(heap: seq<nat>, len: nat, freq: seq<nat>, depth: seq<nat>, from: nat)
    requires |freq| <= |depth| && AreNodes(heap, len, |freq|) && 1 <= from <= len
    requires Ordered(heap, len, freq, depth, from + 1)
    ensures Sifting(heap, heap, len, freq, depth, from, from, heap[from])
  {
    hide Contents;
    assert heap[from := heap[from]] == heap;
  }

  /** The source's pqdownheap. */
  method SiftDown(heap: array<nat>, len: nat, freq: array<nat>, depth: array<nat>, from: nat)
    requires heap != freq && heap != depth && freq.Length <= depth.Length
    requires 1 <= from <= len && AreNodes(heap[..], len, freq.Length)
    requires Ordered(heap[..], len, freq[..], depth[..], from + 1)
    modifies heap
    ensures AreNodes(heap[..], len, freq.Length) && Ordered(heap[..], len, freq[..], depth[..], from)
    ensures Contents(heap[..], len) == old(Contents(heap[..], len))
    ensures forall i :: 0 <= i < heap.Length && !(1 <= i <= len) ==> heap[i] == old(heap[i])
  {
    hide Contents, Ordered;
    ghost var was, f, d := heap[..], freq[..], depth[..];
    var k := from;
    var v := heap[k];
    SiftStart(was, len, f, d, from);
    var j := 2 * k;
    while j <= len
      invariant j == 2 * k
      invariant Sifting(was, heap[..], len, f, d, from, k, v)
    {
      if j < len && Before(freq, depth, heap[j + 1], heap[j]) {
        j := j + 1;
      }
      if Before(freq, depth, v, heap[j]) {
        break;
      }
      SiftStep(was, heap[..], len, f, d, from, k, v, j);
      ghost var now := heap[..];
      heap[k] := heap[j];
      assert heap[..] == now[k := now[j]];
      k := j;
      j := 2 * j;
    }
    SiftDone(was, heap[..], len, f, d, from, k, v);
    ghost var now := heap[..];
    heap[k] := v;
    assert heap[..] == now[k := v];
  }

  predicate Before(freq: array<nat>, depth: array<nat>, n: nat, m: nat)
    requires n < freq.Length <= depth.Length && m < freq.Length
    reads freq, depth
  {
    freq[n] < freq[m] || (freq[n] == freq[m] && depth[n] <= depth[m])
  }

  /** The first node of an ordered heap is smallest. */
  lemma {:induction false} FirstIsSmallest(heap: seq<nat>, len: nat, freq: seq<nat>, depth: seq<nat>, i: nat)
    requires |freq| <= |depth| && AreNodes(heap, len, |freq|) && 1 <= i <= len
    requires Ordered(heap, len, freq, depth, 1)
    ensures Smaller(freq, depth, heap[1], heap[i])
  {
    if i > 1 { FirstIsSmallest(heap, len, freq, depth, i / 2); }
  }
}

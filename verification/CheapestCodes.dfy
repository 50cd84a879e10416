/**
 Code lengths that cost least among all that satisfy Kraft's inequality, and why splitting a node
 into the two lightest keeps them cheapest.
 */
module CheapestCodes {
  import opened Bits
  import opened HuffmanHeap
  import opened NodeSums

  /** The share of the code space that a code word of each length takes, in units of 2^-m. */
  ghost function KraftTerms(l: seq<nat>, m: nat): (g: seq<nat>)
    ensures |g| == |l|
  {
    seq(|l|, i requires 0 <= i < |l| => if l[i] <= m then Pow2(m - l[i]) else 0)
  }

  /** Weight times length. */
  ghost function CostTerms(w: seq<nat>, l: seq<nat>): (g: seq<nat>)
    requires |l| == |w|
    ensures |g| == |w|
  {
    seq(|w|, i requires 0 <= i < |w| => w[i] * l[i])
  }

  ghost function Cost(s: set<nat>, w: seq<nat>, l: seq<nat>): nat
    requires |l| == |w|
  {
    Sum(s, CostTerms(w, l))
  }

  ghost function CodeSpace(s: set<nat>, l: seq<nat>, m: nat): nat
  {
    Sum(s, KraftTerms(l, m))
  }

  /** Kraft's inequality for the lengths of the members of s. */
  ghost predicate IsCode(s: set<nat>, l: seq<nat>, m: nat)
  {
    (forall x: nat :: x in s && x < |l| ==> l[x] <= m) && CodeSpace(s, l, m) <= Pow2(m)
  }

  /** No other lengths for the members of s cost less than d. */
  ghost predicate Cheapest(s: set<nat>, w: seq<nat>, d: seq<nat>)
    requires |d| == |w|
  {
    forall l: seq<nat>, m: nat :: |l| == |w| && IsCode(s, l, m) ==> Cost(s, w, d) <= Cost(s, w, l)
  }

  /** Members are roots of trees of height h: with code lengths l no leaf is deeper than b. */
  ghost predicate HeightAtMost(s: set<nat>, h: seq<nat>, l: seq<nat>, b: nat)
  {
    forall v: nat :: v in s && v < |h| && v < |l| ==> h[v] + l[v] <= b
  }

  /** The lengths r cost less than l, or the same without being deeper. */
  ghost predicate NoWorse(s: set<nat>, w: seq<nat>, h: seq<nat>, r: seq<nat>, l: seq<nat>)
    requires |r| == |w| && |l| == |w|
  {
    && Cost(s, w, r) <= Cost(s, w, l)
    && (Cost(s, w, r) == Cost(s, w, l) ==> forall b :: HeightAtMost(s, h, l, b) ==> HeightAtMost(s, h, r, b))
  }

  /** No other lengths for the members of s are better than d, in cost or, at the same cost, in depth. */
  ghost predicate Best(s: set<nat>, w: seq<nat>, h: seq<nat>, d: seq<nat>)
    requires |d| == |w|
  {
    forall l: seq<nat>, m: nat :: |l| == |w| && IsCode(s, l, m) ==> NoWorse(s, w, h, d, l)
  }

  lemma BestIsCheapest(s: set<nat>, w: seq<nat>, h: seq<nat>, d: seq<nat>)
    requires |d| == |w| && Best(s, w, h, d)
    ensures Cheapest(s, w, d)
  {
    hide Cost, IsCode;
    forall l: seq<nat>, m: nat | |l| == |w| && IsCode(s, l, m) ensures Cost(s, w, d) <= Cost(s, w, l) {
      assert NoWorse(s, w, h, d, l);
    }
  }

  /** If the best lengths exceed a bound, every code within the bound costs more. */
  lemma BoundedCostsMore(s: set<nat>, w: seq<nat>, h: seq<nat>, d: seq<nat>, l: seq<nat>, m: nat, b: nat)
    requires |d| == |w| && |l| == |w| && Best(s, w, h, d) && IsCode(s, l, m)
    requires HeightAtMost(s, h, l, b) && !HeightAtMost(s, h, d, b)
    ensures Cost(s, w, d) < Cost(s, w, l)
  {
    hide Cost, IsCode, HeightAtMost;
    assert NoWorse(s, w, h, d, l);
  }

  // ----- Changing one length -----

  lemma KraftUpdated(s: set<nat>, l: seq<nat>, m: nat, x: nat, v: nat)
    requires x < |l| && l[x] <= m && v <= m
    ensures CodeSpace(s, l[x := v], m) == CodeSpace(s, l, m) + if x in s then Pow2(m - v) - Pow2(m - l[x]) else 0
  {
    hide Sum;
    SumUpdated(s, KraftTerms(l, m), x, Pow2(m - v));
    assert KraftTerms(l[x := v], m) == KraftTerms(l, m)[x := Pow2(m - v)];
  }

  lemma CostUpdated(s: set<nat>, w: seq<nat>, l: seq<nat>, x: nat, v: nat)
    requires x < |l| == |w|
    ensures Cost(s, w, l[x := v]) == Cost(s, w, l) + if x in s then w[x] * v - w[x] * l[x] else 0
  {
    hide Sum;
    SumUpdated(s, CostTerms(w, l), x, w[x] * v);
    assert CostTerms(w, l[x := v]) == CostTerms(w, l)[x := w[x] * v];
  }

  lemma Rearranged(a: nat, b: nat, long: nat, short: nat)
    requires a <= b && short <= long
    ensures a * long + b * short <= a * short + b * long
    ensures a < b && short < long ==> a * long + b * short < a * short + b * long
  {
    var d, e := b - a, long - short;
    assert d * e >= 0;
    if a < b && short < long { assert d * e >= 1; }
    assert d * e == b * long - b * short - a * long + a * short;
  }

  /** The longest code goes to a lightest member: the lengths of two members are exchanged. */
  lemma LongestToLightest(s: set<nat>, t: set<nat>, w: seq<nat>, h: seq<nat>, l: seq<nat>, m: nat, x: nat, bound: nat)
    returns (r: seq<nat>)
    requires |l| == |w| <= |h| && t <= s && x in t && x < |w|
    requires forall v :: v in t ==> v < |w| && Smaller(w, h, x, v) && l[v] <= bound
    requires IsCode(s, l, m)
    ensures |r| == |w| && IsCode(s, r, m) && NoWorse(s, w, h, r, l)
    ensures forall v :: v in t ==> r[v] <= r[x] <= bound
    ensures forall v :: 0 <= v < |w| && v !in t ==> r[v] == l[v]
  {
    hide Cost, CodeSpace;
    var p := LongestMember(t, l, x);
    var u := l[x := l[p]];
    r := u[p := l[x]];
    if p == x {
      assert r == l;
      return;
    }
    KraftUpdated(s, l, m, x, l[p]);
    KraftUpdated(s, u, m, p, l[x]);
    CostUpdated(s, w, l, x, l[p]);
    CostUpdated(s, w, u, p, l[x]);
    Rearranged(w[x], w[p], l[p], l[x]);
    if l[p] == l[x] { assert r == l; }
  }

  lemma {:induction false} LongestMember(t: set<nat>, l: seq<nat>, x: nat) returns (p: nat)
    requires x in t && forall v :: v in t ==> v < |l|
    ensures p in t && forall v :: v in t ==> l[v] <= l[p]
    decreases |t|
  {
    p := x;
    var rest := t - {x};
    if exists y :: y in rest {
      var y :| y in rest;
      var q := LongestMember(rest, l, y);
      if l[q] > l[x] { p := q; }
      assert forall v :: v in t ==> v == x || v in rest;
    } else {
      assert forall v :: v in t ==> v == x;
    }
  }

  // ----- Two longest codes of one length -----

  /** The shares of codes of at most a bits are multiples of the share of one of a bits. */
  lemma {:induction false} SharesAreWhole(s: set<nat>, l: seq<nat>, m: nat, a: nat) returns (q: nat)
    requires a <= m && forall v :: v in s && v < |l| ==> l[v] <= a
    ensures CodeSpace(s, l, m) == q * Pow2(m - a)
    decreases |l|
  {
    if |l| == 0 {
      q := 0;
    } else {
      var n := |l| - 1;
      q := SharesAreWhole(s, l[..n], m, a);
      assert KraftTerms(l, m)[..n] == KraftTerms(l[..n], m);
      if n in s {
        Pow2Add(a - l[n], m - a);
        AddShares(q, Pow2(a - l[n]), Pow2(m - a));
        q := q + Pow2(a - l[n]);
      }
    }
  }

  lemma AddShares(q: nat, c: nat, p: nat)
    ensures q * p + c * p == (q + c) * p
  {
  }

  lemma RoomForOne(q: nat, p: nat, limit: nat)
    requires q * p < limit * p
    ensures q * p + p <= limit * p
  {
    ScaledOrder(limit, q, p);
    var d: nat := limit - q - 1;
    assert (q + d + 1) * p == q * p + d * p + p;
  }

  /** The one longest code need not be longer than the next. */
  lemma Leveled(s: set<nat>, w: seq<nat>, h: seq<nat>, l: seq<nat>, m: nat, x: nat, y: nat)
    requires |l| == |w| <= |h| && x < |w| && y < |w| && x in s && y in s && x != y && IsCode(s, l, m) && l[y] <= l[x]
    requires forall v :: v in s && v != x && v < |l| ==> l[v] <= l[y]
    ensures IsCode(s, l[x := l[y]], m) && NoWorse(s, w, h, l[x := l[y]], l) && l[y] >= 1
  {
    hide Cost, CodeSpace;
    var a := l[y];
    KraftUpdated(s, l, m, x, a);
    CostUpdated(s, w, l, x, a);
    Shorter(w[x], a, l[x]);
    OthersLeave(s, l, m, x);
    var q := SharesAreWhole(s - {x}, l, m, a);
    Pow2Add(a, m - a);
    RoomForOne(q, Pow2(m - a), Pow2(a));
    OneOfOthers(s, l, m, x, y);
    if a == 0 { ZeroLength(m); }
  }

  lemma Shorter(w: nat, a: nat, b: nat)
    requires a <= b
    ensures w * a <= w * b
  {
    assert w * (b - a) >= 0;
  }

  lemma ZeroLength(m: nat)
    ensures Pow2(m - 0) == Pow2(m)
  {
  }

  lemma OthersLeave(s: set<nat>, l: seq<nat>, m: nat, x: nat)
    requires x < |l| && x in s && l[x] <= m
    ensures CodeSpace(s, l, m) == CodeSpace(s - {x}, l, m) + Pow2(m - l[x])
  {
    hide Sum, Pow2;
    SumWithout(s, KraftTerms(l, m), x);
  }

  lemma OneOfOthers(s: set<nat>, l: seq<nat>, m: nat, x: nat, y: nat)
    requires y < |l| && y in s && x != y && l[y] <= m
    ensures CodeSpace(s - {x}, l, m) >= Pow2(m - l[y])
  {
    hide Sum, Pow2;
    TermAtMost(s - {x}, KraftTerms(l, m), y);
  }

  // ----- One merge -----

  /** Two codes of one length become one that is a bit shorter. */
  lemma MergedCode(s: set<nat>, w: seq<nat>, l: seq<nat>, m: nat, x: nat, y: nat, z: nat)
    requires |l| == |w| && x < |w| && y < |w| && z < |w| && z in s && x !in s && y !in s && x != y
    requires l[x] == l[y] >= 1 && w[z] == w[x] + w[y] && IsCode(s - {z} + {x, y}, l, m)
    ensures IsCode(s, l[z := l[x] - 1], m)
    ensures Cost(s, w, l[z := l[x] - 1]) + w[z] == Cost(s - {z} + {x, y}, w, l)
  {
    hide Sum, Pow2;
    var a: nat := l[x];
    var r := l[z := a - 1];
    SumExpanded(s, KraftTerms(r, m), x, y, z);
    SumExpanded(s, CostTerms(w, r), x, y, z);
    var t := s - {z} + {x, y};
    SumSameTerms(t, t, KraftTerms(l, m), KraftTerms(r, m));
    SumSameTerms(t, t, CostTerms(w, l), CostTerms(w, r));
    TwoHalves(m, a);
    MergedCost(w[x], w[y], a);
  }

  lemma TwoHalves(m: nat, a: nat)
    requires 1 <= a <= m
    ensures Pow2(m - (a - 1)) == Pow2(m - a) + Pow2(m - a)
  {
  }

  lemma MergedCost(a: nat, b: nat, n: nat)
    requires n >= 1
    ensures (a + b) * (n - 1) + (a + b) == a * n + b * n
  {
  }

  lemma ExpandedCost(s: set<nat>, w: seq<nat>, d: seq<nat>, x: nat, y: nat, z: nat)
    requires |d| == |w| && x < |w| && y < |w| && z < |w| && z in s && x !in s && y !in s && x != y
    requires d[x] == d[y] == d[z] + 1 && w[z] == w[x] + w[y]
    ensures Cost(s - {z} + {x, y}, w, d) == Cost(s, w, d) + w[z]
  {
    hide Sum;
    SumExpanded(s, CostTerms(w, d), x, y, z);
    MergedCost(w[x], w[y], d[x]);
  }

  /** A tree made of two is as deep as they were one bit further down. */
  lemma MergedHeight(s: set<nat>, h: seq<nat>, l: seq<nat>, r: seq<nat>, x: nat, y: nat, z: nat, b: nat)
    requires |l| == |r| <= |h| && x < |l| && y < |l| && z < |l| && z in s && x !in s && y !in s
    requires h[z] == (if h[x] >= h[y] then h[x] else h[y]) + 1 && l[x] == l[y] == r[z] + 1
    requires forall v :: v in s && v != z && v < |l| ==> r[v] == l[v]
    ensures HeightAtMost(s - {z} + {x, y}, h, l, b) <==> HeightAtMost(s, h, r, b)
  {
    var t := s - {z} + {x, y};
    assert x in t && y in t;
    if HeightAtMost(t, h, l, b) {
      forall v: nat | v in s && v < |h| && v < |r| ensures h[v] + r[v] <= b {
        if v != z { assert v in t; }
      }
    }
  }

  /** Splitting a node into the two lightest members, one bit deeper, keeps the depths best. */
  lemma ExpandBest(s: set<nat>, w: seq<nat>, h: seq<nat>, d: seq<nat>, x: nat, y: nat, z: nat)
    requires |d| == |w| <= |h| && x < |w| && y < |w| && z < |w| && z in s && x !in s && y !in s && x != y
    requires (forall v :: v in s ==> v < |w|) && Best(s, w, h, d)
    requires d[x] == d[y] == d[z] + 1 && w[z] == w[x] + w[y]
    requires h[z] == (if h[x] >= h[y] then h[x] else h[y]) + 1
    requires Smaller(w, h, x, y) && forall v :: v in s && v != z ==> Smaller(w, h, y, v)
    ensures Best(s - {z} + {x, y}, w, h, d)
  {
    hide Cost, IsCode, Best, HeightAtMost;
    var t := s - {z} + {x, y};
    forall l: seq<nat>, m: nat | |l| == |w| && IsCode(t, l, m) ensures NoWorse(t, w, h, d, l) {
      ExpandNoWorse(s, w, h, d, x, y, z, l, m);
    }
    BestIf(t, w, h, d);
  }

  /** A single member with a code of no bits. */
  lemma OneIsBest(w: seq<nat>, h: seq<nat>, d: seq<nat>, x: nat)
    requires |d| == |w| <= |h| && x < |w| && d[x] == 0
    ensures Best({x}, w, h, d)
  {
    hide Sum, IsCode;
    NoneIn(CostTerms(w, d));
    SumWith({}, CostTerms(w, d), x);
    assert {} + {x} == {x};
  }

  lemma BestIf(s: set<nat>, w: seq<nat>, h: seq<nat>, d: seq<nat>)
    requires |d| == |w| && forall l: seq<nat>, m: nat :: |l| == |w| && IsCode(s, l, m) ==> NoWorse(s, w, h, d, l)
    ensures Best(s, w, h, d)
  {
    hide NoWorse, IsCode;
  }

  lemma ExpandNoWorse(s: set<nat>, w: seq<nat>, h: seq<nat>, d: seq<nat>, x: nat, y: nat, z: nat, l: seq<nat>, m: nat)
    requires |d| == |l| == |w| <= |h| && x < |w| && y < |w| && z < |w| && z in s && x !in s && y !in s && x != y
    requires (forall v :: v in s ==> v < |w|) && Best(s, w, h, d)
    requires d[x] == d[y] == d[z] + 1 && w[z] == w[x] + w[y]
    requires h[z] == (if h[x] >= h[y] then h[x] else h[y]) + 1
    requires Smaller(w, h, x, y) && forall v :: v in s && v != z ==> Smaller(w, h, y, v)
    requires IsCode(s - {z} + {x, y}, l, m)
    ensures NoWorse(s - {z} + {x, y}, w, h, d, l)
  {
    hide Cost, IsCode, HeightAtMost;
    var t := s - {z} + {x, y};
    ExpandedCost(s, w, d, x, y, z);
    var r := LevelPair(t, w, h, l, m, x, y);
    MergedCode(s, w, r, m, x, y, z);
    var u := r[z := r[x] - 1];
    assert NoWorse(s, w, h, d, u);
    forall b | HeightAtMost(t, h, l, b) && Cost(t, w, d) == Cost(t, w, l) ensures HeightAtMost(t, h, d, b) {
      MergedHeight(s, h, r, u, x, y, z, b);
      MergedHeight(s, h, d, d, x, y, z, b);
    }
  }

  /** Lengths that are no worse, with the two lightest members at the same greatest length. */
  lemma LevelPair(t: set<nat>, w: seq<nat>, h: seq<nat>, l: seq<nat>, m: nat, x: nat, y: nat) returns (r: seq<nat>)
    requires |l| == |w| <= |h| && (forall v :: v in t ==> v < |w|) && x in t && y in t && x != y && IsCode(t, l, m)
    requires Smaller(w, h, x, y) && forall v :: v in t && v != x ==> Smaller(w, h, y, v)
    ensures |r| == |w| && IsCode(t, r, m) && NoWorse(t, w, h, r, l) && r[x] == r[y] >= 1
  {
    hide Cost, CodeSpace, HeightAtMost;
    var first := LongestToLightest(t, t, w, h, l, m, x, m);
    var second := LongestToLightest(t, t - {x}, w, h, first, m, y, first[x]);
    Leveled(t, w, h, second, m, x, y);
    r := second[x := second[y]];
  }
}

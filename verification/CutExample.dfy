/**
 Frequencies for which the lengths are cut: the Fibonacci numbers make the tree of nine symbols
 eight deep, and the code for the code lengths allows seven bits.
 */
module CutExample {
  import opened Bits
  import opened CheapestCodes
  import opened CutLengths
  import opened HuffmanHeap
  import opened NodeSums

  function Frequencies(): (f: seq<nat>)
    ensures |f| == 9
  {
    [1, 1, 2, 3, 5, 8, 13, 21, 34]
  }

  /** The nine symbols and the eight parents above them. */
  function Weights(): (w: seq<nat>)
    ensures |w| == 17 && w[..9] == Frequencies()
  {
    Frequencies() + [2, 4, 7, 12, 20, 33, 54, 88]
  }

  function Heights(): (h: seq<nat>)
    ensures |h| == 17 && forall x :: 0 <= x < 9 ==> h[x] == 0
  {
    [0, 0, 0, 0, 0, 0, 0, 0, 0, 1, 2, 3, 4, 5, 6, 7, 8]
  }

  function Depths(): (d: seq<nat>)
    ensures |d| == 17
  {
    [8, 8, 7, 6, 5, 4, 3, 2, 1, 7, 6, 5, 4, 3, 2, 1, 0]
  }

  /** The parent that is expanded next, and at last the symbol 0. */
  function Last(k: nat): nat
    requires k <= 8
  {
    if k < 8 then 16 - k else 0
  }

  /** What is left when k parents are expanded. */
  ghost function Stage(k: nat): (s: set<nat>)
    requires k <= 8
    ensures forall x: nat :: x in s <==> 9 - k <= x <= 8 || x == Last(k)
  {
    if k == 0 then {16} else Stage(k - 1) - {Last(k - 1)} + {9 - k, Last(k)}
  }

  lemma StageNext(k: nat)
    requires k < 8
    ensures var x, y, z := 8 - k, Last(k + 1), Last(k);
            && z in Stage(k) && x !in Stage(k) && y !in Stage(k) && x != y
            && Stage(k + 1) == Stage(k) - {z} + {x, y}
  {
  }

  /** Each parent has the weight of its children, which are the lightest. */
  lemma ChildrenAreLightest(k: nat)
    requires k < 8
    ensures var w, h, d, x, y, z := Weights(), Heights(), Depths(), 8 - k, Last(k + 1), Last(k);
            && d[x] == d[y] == d[z] + 1 && w[z] == w[x] + w[y] && d[x] <= 8
            && h[z] == (if h[x] >= h[y] then h[x] else h[y]) + 1 && Smaller(w, h, x, y)
            && forall v: nat :: 9 - k <= v <= 8 ==> Smaller(w, h, y, v)
  {
    assert k == 0 || k == 1 || k == 2 || k == 3 || k == 4 || k == 5 || k == 6 || k == 7;
  }

  lemma {:induction false} StageBest(k: nat)
    requires k <= 8
    ensures Best(Stage(k), Weights(), Heights(), Depths())
    ensures CodeSpace(Stage(k), Depths(), 8) == Pow2(8)
  {
    hide Sum, Best, Pow2, Weights, Heights, Depths, Smaller;
    DeepestIsEight();
    if k == 0 {
      OneIsBest(Weights(), Heights(), Depths(), 16);
      NoneIn(KraftTerms(Depths(), 8));
      SumWith({}, KraftTerms(Depths(), 8), 16);
      assert Stage(0) == {16} == {} + {16};
    } else {
      var j := k - 1;
      StageBest(j);
      StageNext(j);
      ChildrenAreLightest(j);
      var x, y, z := 8 - j, Last(j + 1), Last(j);
      ExpandBest(Stage(j), Weights(), Heights(), Depths(), x, y, z);
      SumExpanded(Stage(j), KraftTerms(Depths(), 8), x, y, z);
      TwoHalves(8, Depths()[x]);
    }
  }

  /** Lengths or frequencies cut to the nine symbols, and filled up to n of them. */
  ghost function Resized(l: seq<nat>, n: nat): (r: seq<nat>)
    requires |l| >= 9 && n >= 9
    ensures |r| == n && r[..9] == l[..9]
  {
    l[..9] + seq(n - 9, i => 0)
  }

  lemma ResizedCode(s: set<nat>, l: seq<nat>, r: seq<nat>, m: nat)
    requires |l| >= 9 && |r| >= 9 && l[..9] == r[..9] && (forall x :: x in s ==> x < 9) && IsCode(s, l, m)
    ensures IsCode(s, r, m)
  {
    hide Sum, Pow2;
    SumPrefix(s, KraftTerms(l, m), 9);
    SumPrefix(s, KraftTerms(r, m), 9);
    NineAgree(l, r);
    assert KraftTerms(l, m)[..9] == KraftTerms(r, m)[..9];
  }

  lemma NineAgree(l: seq<nat>, r: seq<nat>)
    requires |l| >= 9 && |r| >= 9 && l[..9] == r[..9]
    ensures forall x :: 0 <= x < 9 ==> l[x] == r[x]
  {
    forall x | 0 <= x < 9 ensures l[x] == r[x] {
      assert l[x] == l[..9][x] && r[x] == r[..9][x];
    }
  }

  lemma ResizedCost(s: set<nat>, w: seq<nat>, l: seq<nat>, w': seq<nat>, r: seq<nat>)
    requires |l| == |w| >= 9 && |r| == |w'| >= 9 && l[..9] == r[..9] && w[..9] == w'[..9]
    requires forall x :: x in s ==> x < 9
    ensures Cost(s, w, l) == Cost(s, w', r)
  {
    hide Sum;
    SumPrefix(s, CostTerms(w, l), 9);
    SumPrefix(s, CostTerms(w', r), 9);
    NineAgree(l, r);
    NineAgree(w, w');
    assert CostTerms(w, l)[..9] == CostTerms(w', r)[..9];
  }

  lemma DeepestIsEight()
    ensures Depths()[0] == 8 && Depths()[16] == 0 && forall x :: 0 <= x < 17 ==> Depths()[x] <= 8
  {
  }

  /** Among nine symbols with these frequencies no lengths of at most seven bits are cheapest. */
  lemma SevenBitsCostMore(freq: seq<nat>, elems: nat)
    requires 9 <= elems <= |freq| && freq[..9] == Frequencies() && forall x :: 9 <= x < elems ==> freq[x] == 0
    ensures Sum(Used(freq, elems), freq) == 88 && NeedsLonger(Used(freq, elems), freq, 7)
  {
    hide Cost, IsCode, Used, Sum, Cheapest, Within, Frequencies;
    NineUsed(freq, elems);
    var s := Used(freq, elems);
    forall l: seq<nat>, m: nat | |l| == |freq| && IsCode(s, l, m) && Within(s, l, 7) ensures !Cheapest(s, freq, l) {
      NotCheapest(s, freq, l, m);
    }
  }

  lemma NotCheapest(s: set<nat>, freq: seq<nat>, l: seq<nat>, m: nat)
    requires |l| == |freq| >= 9 && freq[..9] == Frequencies() && s == Stage(8)
    requires IsCode(s, l, m) && Within(s, l, 7)
    ensures !Cheapest(s, freq, l)
  {
    hide Cost, CodeSpace, Best, Frequencies, Weights, Heights, Depths, Pow2;
    var r, d := Resized(l, 17), Resized(Depths(), |freq|);
    StageBest(8);
    DeepestIsEight();
    ResizedCode(s, l, r, m);
    ResizedCode(s, Depths(), d, 8);
    NineAgree(l, r);
    assert !HeightAtMost(s, Heights(), Depths(), 7) by { assert 0 in s; }
    BoundedCostsMore(s, Weights(), Heights(), Depths(), r, m, 7);
    ResizedCost(s, freq, l, Weights(), r);
    ResizedCost(s, freq, d, Weights(), Depths());
  }

  lemma NineUsed(freq: seq<nat>, elems: nat)
    requires 9 <= elems <= |freq| && freq[..9] == Frequencies() && forall x :: 9 <= x < elems ==> freq[x] == 0
    ensures Used(freq, elems) == Stage(8) && Sum(Used(freq, elems), freq) == 88
    ensures forall x :: x in Used(freq, elems) ==> x < 9
  {
    var s := Used(freq, elems);
    forall x: nat | x < 9 ensures freq[x] == Frequencies()[x] != 0 {
      assert freq[x] == freq[..9][x];
    }
    assert s == Stage(8);
    SumPrefix(s, freq, 9);
    SumOfAll(s);
  }

  lemma SumOfAll(s: set<nat>)
    requires forall x: nat :: x < 9 ==> x in s
    ensures Sum(s, Frequencies()) == 88
  {
    SumToNext(s, 0);
    SumToNext(s, 1);
    SumToNext(s, 2);
    SumToNext(s, 3);
    SumToNext(s, 4);
    SumToNext(s, 5);
    SumToNext(s, 6);
    SumToNext(s, 7);
    SumToNext(s, 8);
    assert Frequencies()[..9] == Frequencies();
  }

  lemma SumToNext(s: set<nat>, n: nat)
    requires n < 9 && n in s
    ensures Sum(s, Frequencies()[..n + 1]) == Sum(s, Frequencies()[..n]) + Frequencies()[n]
    ensures n == 0 ==> Sum(s, Frequencies()[..n]) == 0
  {
    assert Frequencies()[..n + 1][..n] == Frequencies()[..n];
  }
}

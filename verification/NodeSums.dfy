/**
 Sums over sets of nodes or symbols, one term for each number.
 */
module NodeSums {
  /** The sum of the terms whose numbers are in s. */
  ghost function Sum(s: set<nat>, g: seq<nat>): nat
  {
    if |g| == 0 then 0
    else Sum(s, g[..|g| - 1]) + if |g| - 1 in s then g[|g| - 1] else 0
  }

  lemma {:induction false} SumSameTerms(s: set<nat>, t: set<nat>, g: seq<nat>, h: seq<nat>)
    requires |g| == |h| && forall x: nat :: x < |g| ==> (x in s <==> x in t) && (x in s ==> g[x] == h[x])
    ensures Sum(s, g) == Sum(t, h)
  {
    if |g| > 0 { SumSameTerms(s, t, g[..|g| - 1], h[..|g| - 1]); }
  }

  lemma {:induction false} NoneIn(g: seq<nat>)
    ensures Sum({}, g) == 0
  {
    if |g| > 0 { NoneIn(g[..|g| - 1]); }
  }

  /** A new member adds its term. */
  lemma {:induction false} SumWith(s: set<nat>, g: seq<nat>, x: nat)
    requires x < |g| && x !in s
    ensures Sum(s + {x}, g) == Sum(s, g) + g[x]
  {
    var n := |g| - 1;
    if x < n {
      SumWith(s, g[..n], x);
    } else {
      SumSameTerms(s, s + {x}, g[..n], g[..n]);
    }
  }

  lemma SumWithout(s: set<nat>, g: seq<nat>, x: nat)
    requires x < |g| && x in s
    ensures Sum(s - {x}, g) == Sum(s, g) - g[x]
  {
    hide Sum;
    SumWith(s - {x}, g, x);
    assert s - {x} + {x} == s;
  }

  /** Another term for one number. */
  lemma SumUpdated(s: set<nat>, g: seq<nat>, x: nat, v: nat)
    requires x < |g|
    ensures Sum(s, g[x := v]) == Sum(s, g) + if x in s then v - g[x] else 0
  {
    hide Sum;
    var h := g[x := v];
    if x in s {
      SumWithout(s, g, x);
      SumWithout(s, h, x);
    }
    SumSameTerms(s - {x}, s - {x}, g, h);
    assert x !in s ==> s - {x} == s;
  }

  lemma TermAtMost(s: set<nat>, g: seq<nat>, x: nat)
    requires x < |g| && x in s
    ensures g[x] <= Sum(s, g)
  {
    hide Sum;
    SumWithout(s, g, x);
  }

  /** One member gives way to two others. */
  lemma SumExpanded(s: set<nat>, g: seq<nat>, x: nat, y: nat, z: nat)
    requires x < |g| && y < |g| && z < |g| && z in s && x !in s && y !in s && x != y
    ensures Sum(s - {z} + {x, y}, g) == Sum(s, g) - g[z] + g[x] + g[y]
  {
    hide Sum;
    SumWithout(s, g, z);
    SumWith(s - {z}, g, x);
    SumWith(s - {z} + {x}, g, y);
    assert s - {z} + {x} + {y} == s - {z} + {x, y};
  }

  /** Terms behind the last member do not matter. */
  lemma {:induction false} SumPrefix(s: set<nat>, g: seq<nat>, n: nat)
    requires n <= |g| && forall x :: x in s ==> x < n
    ensures Sum(s, g) == Sum(s, g[..n])
  {
    if n < |g| {
      assert g[..|g| - 1][..n] == g[..n];
      SumPrefix(s, g[..|g| - 1], n);
    } else {
      assert g[..n] == g;
    }
  }
}

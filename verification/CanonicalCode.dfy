/**
 The canonical prefix code of section 3.2.2 of RFC 1951. A code word of length l is the interval
 of the 15-bit numbers that start with it; intervals make the prefix properties plain arithmetic.
 */
module CanonicalCode {
  import opened Bits
  import opened BitStream

  const MAX_BITS: nat := 15

  predicate ValidLengths(lens: seq<nat>)
  {
    forall s :: 0 <= s < |lens| ==> lens[s] <= MAX_BITS
  }

  /** The number of symbols with length b. */
  function Count(lens: seq<nat>, b: nat): nat
  {
    if |lens| == 0 then 0 else Count(lens[..|lens| - 1], b) + if lens[|lens| - 1] == b then 1 else 0
  }

  predicate Coded(lens: seq<nat>, s: nat)
  {
    s < |lens| && 1 <= lens[s] <= MAX_BITS
  }

  /** The size of the interval of a code word of length b. */
  function Width(b: nat): (n: nat)
    requires b <= MAX_BITS
    ensures n >= 1
  {
    Pow2(MAX_BITS - b)
  }

  /** The room that the codes shorter than b take. */
  function Below(lens: seq<nat>, b: nat): nat
    requires b <= MAX_BITS + 1
  {
    if b <= 1 then 0 else Below(lens, b - 1) + Count(lens, b - 1) * Width(b - 1)
  }

  /** The number of earlier symbols of the same length. */
  function Rank(lens: seq<nat>, s: nat): nat
    requires s < |lens|
  {
    Count(lens[..s], lens[s])
  }

  /** Where the interval of a symbol starts: after all shorter codes and all equally long earlier ones. */
  function Start(lens: seq<nat>, s: nat): nat
    requires Coded(lens, s)
  {
    Below(lens, lens[s]) + Rank(lens, s) * Width(lens[s])
  }

  /** The 15-bit number w starts with the code word of s. */
  predicate Owns(lens: seq<nat>, s: nat, w: int)
  {
    Coded(lens, s) && Start(lens, s) <= w < Start(lens, s) + Width(lens[s])
  }

  /** The Kraft sum, scaled by 2^15. */
  function Total(lens: seq<nat>): nat
  {
    Below(lens, MAX_BITS + 1)
  }

  predicate Complete(lens: seq<nat>)
  {
    ValidLengths(lens) && Total(lens) == Pow2(MAX_BITS)
  }

  // ----- Counting -----

  lemma {:induction false} CountMonotone(lens: seq<nat>, m: nat, n: nat, b: nat)
    requires m <= n <= |lens|
    ensures Count(lens[..m], b) <= Count(lens[..n], b)
  {
    if m < n {
      CountMonotone(lens, m, n - 1, b);
      assert lens[..n][..n - 1] == lens[..n - 1];
    }
  }

  lemma CountNext(lens: seq<nat>, s: nat, b: nat)
    requires s < |lens|
    ensures Count(lens[..s + 1], b) == Count(lens[..s], b) + if lens[s] == b then 1 else 0
  {
    assert lens[..s + 1][..s] == lens[..s];
  }

  lemma NoCounts(lens: seq<nat>)
    ensures forall b: nat :: Count(lens[..0], b) == 0
  {
  }

  lemma PrefixCounts(lens: seq<nat>, n: nat)
    requires n < |lens|
    ensures forall b: nat :: Count(lens[..n + 1], b) == Count(lens[..n], b) + if lens[n] == b then 1 else 0
  {
    assert lens[..n + 1][..n] == lens[..n];
  }

  lemma RankBelowCount(lens: seq<nat>, s: nat)
    requires s < |lens|
    ensures Rank(lens, s) < Count(lens, lens[s])
  {
    CountNext(lens, s, lens[s]);
    CountMonotone(lens, s + 1, |lens|, lens[s]);
    assert lens[..|lens|] == lens;
  }

  lemma RankIncreases(lens: seq<nat>, s: nat, t: nat)
    requires s < t < |lens| && lens[s] == lens[t]
    ensures Rank(lens, s) < Rank(lens, t)
  {
    CountNext(lens, s, lens[s]);
    CountMonotone(lens, s + 1, t, lens[s]);
  }

  /** The symbol of a length with a given rank. */
  lemma {:induction false} SymbolOfRank(lens: seq<nat>, b: nat, r: nat) returns (s: nat)
    requires r < Count(lens, b)
    ensures s < |lens| && lens[s] == b && Rank(lens, s) == r
  {
    var n := |lens| - 1;
    if lens[n] == b && Count(lens[..n], b) == r {
      s := n;
    } else {
      s := SymbolOfRank(lens[..n], b, r);
      assert lens[..n][..s] == lens[..s];
    }
  }

  lemma {:induction false} BelowMonotone(lens: seq<nat>, a: nat, b: nat)
    requires a <= b <= MAX_BITS + 1
    ensures Below(lens, a) <= Below(lens, b)
  {
    hide Width, Count;
    if a < b {
      BelowMonotone(lens, a, b - 1);
      if b > 1 { BelowGrows(lens, b); }
    }
  }

  lemma BelowGrows(lens: seq<nat>, b: nat)
    requires 1 < b <= MAX_BITS + 1
    ensures Below(lens, b - 1) <= Below(lens, b)
  {
    hide Width, Count;
    MulBound(-1, Count(lens, b - 1), Width(b - 1));
  }

  lemma {:induction false} NoneLonger(lens: seq<nat>, max: nat, b: nat)
    requires max < b <= MAX_BITS + 1 && forall s :: 0 <= s < |lens| ==> lens[s] <= max
    ensures Below(lens, b) == Below(lens, max + 1)
  {
    hide Width;
    if b > max + 1 {
      NoneLonger(lens, max, b - 1);
      NoSymbol(lens, b - 1);
    }
  }

  lemma {:induction false} NoSymbol(lens: seq<nat>, b: nat)
    requires forall s :: 0 <= s < |lens| ==> lens[s] != b
    ensures Count(lens, b) == 0
  {
    if |lens| > 0 { NoSymbol(lens[..|lens| - 1], b); }
  }

  /** Every interval lies within the room of its length. */
  lemma StartBounds(lens: seq<nat>, s: nat)
    requires Coded(lens, s)
    ensures Below(lens, lens[s]) <= Start(lens, s)
    ensures Start(lens, s) + Width(lens[s]) <= Below(lens, lens[s] + 1)
  {
    hide Width;
    RankBelowCount(lens, s);
    MulBound(Rank(lens, s), Count(lens, lens[s]), Width(lens[s]));
  }

  // ----- The code is a prefix code -----

  predicate Before(lens: seq<nat>, s: nat, t: nat)
    requires s < |lens| && t < |lens|
  {
    lens[s] < lens[t] || (lens[s] == lens[t] && s < t)
  }

  /** Shorter codes come first, equally long ones in the order of the symbols. */
  lemma StartsInOrder(lens: seq<nat>, s: nat, t: nat)
    requires Coded(lens, s) && Coded(lens, t) && Before(lens, s, t)
    ensures Start(lens, s) + Width(lens[s]) <= Start(lens, t)
  {
    hide Width, Below;
    if lens[s] < lens[t] {
      StartBounds(lens, s);
      StartBounds(lens, t);
      BelowMonotone(lens, lens[s] + 1, lens[t]);
    } else {
      RankIncreases(lens, s, t);
      MulBound(Rank(lens, s), Rank(lens, t), Width(lens[s]));
    }
  }

  /** No 15-bit number starts with two code words. */
  lemma OwnerIsUnique(lens: seq<nat>, s: nat, t: nat, w: int)
    requires Owns(lens, s, w) && Owns(lens, t, w)
    ensures s == t
  {
    hide Start;
    if s != t {
      if Before(lens, s, t) { StartsInOrder(lens, s, t); } else { StartsInOrder(lens, t, s); }
    }
  }

  lemma {:induction false} LengthOfOwner(lens: seq<nat>, w: nat, b: nat) returns (l: nat)
    requires b <= MAX_BITS + 1 && w < Below(lens, b)
    ensures 1 <= l <= MAX_BITS && Below(lens, l) <= w < Below(lens, l + 1)
  {
    if w < Below(lens, b - 1) {
      l := LengthOfOwner(lens, w, b - 1);
    } else {
      l := b - 1;
    }
  }

  /** Every number below the Kraft sum starts with a code word. */
  lemma OwnerExists(lens: seq<nat>, w: nat) returns (s: nat)
    requires w < Total(lens)
    ensures Owns(lens, s, w)
  {
    hide Width;
    var l := LengthOfOwner(lens, w, MAX_BITS + 1);
    var d, width := w - Below(lens, l), Width(l);
    RankOf(d, width, Count(lens, l));
    s := SymbolOfRank(lens, l, d / width);
  }

  lemma RankOf(d: nat, width: nat, count: nat)
    requires width >= 1 && d < count * width
    ensures d / width < count && d / width * width <= d < d / width * width + width
  {
    var q := d / width;
    if q >= count { MulBound(count - 1, q, width); }
  }

  // ----- Code words -----

  /** The source's next_code table before any code is assigned. */
  function FirstCode(lens: seq<nat>, b: nat): nat
  {
    if b <= 1 then 0 else 2 * (FirstCode(lens, b - 1) + Count(lens, b - 1))
  }

  function Code(lens: seq<nat>, s: nat): nat
    requires Coded(lens, s)
  {
    FirstCode(lens, lens[s]) + Rank(lens, s)
  }

  lemma WidthHalves(b: nat)
    requires 1 <= b <= MAX_BITS
    ensures Width(b - 1) == 2 * Width(b)
  {
  }

  lemma {:induction false} FirstCodeIsBelow(lens: seq<nat>, b: nat)
    requires 1 <= b <= MAX_BITS
    ensures FirstCode(lens, b) * Width(b) == Below(lens, b)
  {
    hide Width;
    if b > 1 {
      FirstCodeIsBelow(lens, b - 1);
      WidthHalves(b);
      DoubleSum(FirstCode(lens, b - 1), Count(lens, b - 1), Width(b));
    }
  }

  lemma DoubleSum(f: nat, c: nat, w: nat)
    ensures 2 * (f + c) * w == f * (2 * w) + c * (2 * w)
  {
  }

  lemma StartIsCode(lens: seq<nat>, s: nat)
    requires Coded(lens, s)
    ensures Start(lens, s) == Code(lens, s) * Width(lens[s])
  {
    hide Width, FirstCode, Below, Rank;
    FirstCodeIsBelow(lens, lens[s]);
    AddProducts(FirstCode(lens, lens[s]), Rank(lens, s), Width(lens[s]));
  }

  lemma AddProducts(f: nat, c: nat, w: nat)
    ensures (f + c) * w == f * w + c * w
  {
  }

  /** When the Kraft sum is at most one, every code fits its length. */
  lemma CodesFit(lens: seq<nat>, s: nat)
    requires Coded(lens, s) && Total(lens) <= Pow2(MAX_BITS)
    ensures Code(lens, s) < Pow2(lens[s])
    ensures Start(lens, s) + Width(lens[s]) <= Pow2(MAX_BITS)
  {
    hide Below, Code, Rank, Pow2, Start;
    StartBounds(lens, s);
    BelowMonotone(lens, lens[s] + 1, MAX_BITS + 1);
    StartIsCode(lens, s);
    Pow2Add(lens[s], MAX_BITS - lens[s]);
    FitsByWidth(Code(lens, s), Pow2(lens[s]), Width(lens[s]));
  }

  lemma FitsByWidth(code: nat, limit: nat, w: nat)
    requires w >= 1 && code * w + w <= limit * w
    ensures code < limit
  {
    if code >= limit { MulBound(limit, code + 1, w); }
  }

  /** The code word of a symbol, most significant bit first. */
  function Word(lens: seq<nat>, s: nat): (bits: seq<bool>)
    requires Coded(lens, s)
    ensures |bits| == lens[s]
  {
    BitsOf(Code(lens, s), lens[s])
  }

  /** A prefix of a bit field is the field's value without its low bits. */
  lemma {:induction false} PrefixValue(bits: seq<bool>, l: nat)
    requires l <= |bits|
    ensures Value(bits[..l]) * Pow2(|bits| - l) <= Value(bits) < (Value(bits[..l]) + 1) * Pow2(|bits| - l)
  {
    if l == |bits| {
      assert bits[..l] == bits;
    } else {
      var n := |bits| - 1;
      PrefixValue(bits[..n], l);
      assert bits[..n][..l] == bits[..l];
      DoublePower(Value(bits[..l]), n - l);
    }
  }

  lemma DoublePower(v: nat, k: nat)
    ensures v * Pow2(k + 1) == 2 * (v * Pow2(k)) && (v + 1) * Pow2(k + 1) == 2 * ((v + 1) * Pow2(k))
  {
  }

  lemma FieldIsPrefix(c: nat, l: nat, bits: seq<bool>)
    requires c < Pow2(l) && l <= |bits|
    ensures BitsOf(c, l) <= bits <==> Value(bits[..l]) == c
  {
    hide Value, BitsOf, Pow2;
    ValueOfBits(c, l);
    BitsOfValue(bits[..l]);
    PrefixIsSlice(BitsOf(c, l), bits);
  }

  lemma PrefixIsSlice(a: seq<bool>, b: seq<bool>)
    ensures a <= b <==> |a| <= |b| && b[..|a|] == a
  {
  }

  /** A stretch of 15 bits starts with the code word of s iff its value is in the interval of s. */
  lemma WordIsPrefix(lens: seq<nat>, s: nat, bits: seq<bool>)
    requires Coded(lens, s) && Total(lens) <= Pow2(MAX_BITS) && |bits| == MAX_BITS
    ensures Word(lens, s) <= bits <==> Owns(lens, s, Value(bits))
  {
    hide Code, Value, BitsOf, Start, Pow2, Below;
    var l, c := lens[s], Code(lens, s);
    CodesFit(lens, s);
    StartIsCode(lens, s);
    PrefixValue(bits, l);
    FieldIsPrefix(c, l, bits);
    SameQuotient(c, Value(bits[..l]), Width(l), Value(bits));
    assert Word(lens, s) == BitsOf(c, l);
    assert Owns(lens, s, Value(bits)) <==> c * Width(l) <= Value(bits) < c * Width(l) + Width(l);
  }

  lemma SameQuotient(c: nat, d: nat, w: nat, v: nat)
    requires d * w <= v < (d + 1) * w
    ensures c == d <==> c * w <= v < c * w + w
  {
    MulBound(c, d, w);
    MulBound(d, c, w);
  }

  /** No code word is a prefix of another. */
  lemma PrefixFree(lens: seq<nat>, s: nat, t: nat)
    requires Coded(lens, s) && Coded(lens, t) && s != t && Total(lens) <= Pow2(MAX_BITS)
    ensures !(Word(lens, s) <= Word(lens, t))
  {
    hide Code, Value, BitsOf, Start, Pow2;
    if Word(lens, s) <= Word(lens, t) {
      var bits := Word(lens, t) + BitsOf(0, MAX_BITS - lens[t]);
      WordIsPrefix(lens, s, bits);
      WordIsPrefix(lens, t, bits);
      OwnerIsUnique(lens, s, t, Value(bits));
    }
  }

  /** With a complete code, any 15 bits start with exactly one code word. */
  lemma DecodesUniquely(lens: seq<nat>, bits: seq<bool>) returns (s: nat)
    requires Complete(lens) && |bits| == MAX_BITS
    ensures Coded(lens, s) && Word(lens, s) <= bits
    ensures forall t :: Coded(lens, t) && Word(lens, t) <= bits ==> t == s
  {
    hide Word, Value, Owns, Pow2, Below;
    BitsOfValue(bits);
    s := OwnerExists(lens, Value(bits));
    OwnedIsCoded(lens, s, Value(bits));
    WordIsPrefix(lens, s, bits);
    forall t | Coded(lens, t) && Word(lens, t) <= bits ensures t == s {
      WordIsPrefix(lens, t, bits);
      OwnerIsUnique(lens, s, t, Value(bits));
    }
  }

  lemma OwnedIsCoded(lens: seq<nat>, s: nat, w: int)
    requires Owns(lens, s, w)
    ensures Coded(lens, s)
  {
  }
}

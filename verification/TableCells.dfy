/**
 How the decoding table of inflate is addressed: the 15 bits ahead, first bit highest, as a number
 w, select a root cell by their first bits and a cell of a second-level table by the next ones.
 */
module TableCells {
  import opened BitReversal
  import opened Bits
  import opened CanonicalCode

  /** The first m of the 15 bits of w. */
  function Top(w: nat, m: nat): nat
    requires m <= MAX_BITS
  {
    Quotient(w, Width(m))
  }

  function Quotient(w: nat, d: nat): (q: nat)
    requires d >= 1
    ensures q * d <= w < q * d + d
  {
    w / d
  }

  /** The n bits after the first m. */
  function Middle(w: nat, m: nat, n: nat): nat
    requires m + n <= MAX_BITS
  {
    Top(w, m + n) % Pow2(n)
  }

  lemma TopBounds(w: nat, m: nat)
    requires m <= MAX_BITS
    ensures Top(w, m) * Width(m) <= w < Top(w, m) * Width(m) + Width(m)
  {
    hide Width;
  }

  lemma TopIs(w: nat, m: nat, q: nat)
    requires m <= MAX_BITS
    ensures Top(w, m) == q <==> q * Width(m) <= w < q * Width(m) + Width(m)
  {
    hide Width, Top;
    TopBounds(w, m);
    MulBound(Top(w, m), q, Width(m));
    MulBound(q, Top(w, m), Width(m));
  }

  lemma TopMonotone(v: nat, w: nat, m: nat)
    requires v <= w && m <= MAX_BITS
    ensures Top(v, m) <= Top(w, m)
  {
    hide Width, Top;
    TopBounds(v, m);
    TopBounds(w, m);
    MulBound(Top(w, m), Top(v, m), Width(m));
  }

  lemma WidthProduct(m: nat, n: nat)
    requires m + n <= MAX_BITS
    ensures Width(m) == Pow2(n) * Width(m + n)
  {
    Pow2Add(n, MAX_BITS - (m + n));
  }

  lemma WidthWhole(m: nat)
    requires m <= MAX_BITS
    ensures Pow2(MAX_BITS) == Pow2(m) * Width(m)
  {
    hide Pow2;
    Pow2Add(m, MAX_BITS - m);
  }

  lemma NestedProduct(q: nat, c: nat, p: nat, w: nat)
    ensures (q * p + c) * w == q * (p * w) + c * w
  {
    assert (q * p) * w == q * (p * w);
  }

  /** The first m + n bits are the first m and the n bits after them. */
  lemma TopSplits(w: nat, m: nat, n: nat)
    requires m + n <= MAX_BITS
    ensures Top(w, m + n) == Top(w, m) * Pow2(n) + Middle(w, m, n) && Middle(w, m, n) < Pow2(n)
  {
    hide Width, Top, Pow2, Quotient;
    var t, p, c := Top(w, m + n), Pow2(n), Middle(w, m, n);
    var q := t / p;
    DivMod(t, p);
    TopBounds(w, m + n);
    WidthProduct(m, n);
    NestedProduct(q, c, p, Width(m + n));
    MulBound(c, p, Width(m + n));
    TopIs(w, m, q);
  }

  lemma TopSmall(w: nat, m: nat)
    requires w < Pow2(MAX_BITS) && m <= MAX_BITS
    ensures Top(w, m) < Pow2(m)
  {
    hide Top, Pow2;
    TopBounds(w, m);
    Pow2Add(m, MAX_BITS - m);
    FitsBelow(Top(w, m), Pow2(m), Width(m));
  }

  lemma FitsBelow(q: nat, limit: nat, w: nat)
    requires w >= 1 && q * w < limit * w
    ensures q < limit
  {
    if q >= limit { MulBound(limit - 1, q, w); }
  }

  /** A product of a power of two and a smaller rest determines both. */
  /** Of n-bit numbers, those that begin with the m bits c are at the reversed places that end with c reversed. */
  lemma CellClass(x: nat, n: nat, m: nat, c: nat)
    requires x < Pow2(n) && m <= n && c < Pow2(m)
    ensures Reverse(x, n) % Pow2(m) == Reverse(c, m) <==> x / Pow2(n - m) == c
  {
    hide Reverse, Pow2;
    var hi, lo := x / Pow2(n - m), x % Pow2(n - m);
    DivMod(x, Pow2(n - m));
    ReverseSplit(hi, lo, m, n - m);
    ReverseBound(hi, m);
    RestIs(Reverse(lo, n - m), Reverse(hi, m), Pow2(m));
    Pow2Add(m, n - m);
    FitsBelow(hi, Pow2(m), Pow2(n - m));
    ReverseInjective(hi, c, m);
  }

  /** A reversed code of root + n bits: the root cell below, the second-level cell above. */
  lemma CodeCells(q: nat, c: nat, root: nat, n: nat)
    requires q < Pow2(root) && c < Pow2(n)
    ensures Reverse(q * Pow2(n) + c, root + n) % Pow2(root) == Reverse(q, root)
    ensures Reverse(q * Pow2(n) + c, root + n) / Pow2(root) == Reverse(c, n)
  {
    hide Reverse, Pow2;
    ReverseSplit(q, c, root, n);
    ReverseBound(q, root);
    RestIs(Reverse(c, n), Reverse(q, root), Pow2(root));
  }

  /** What w meets in the root table and behind it is decided by the bits from a stream. */
  lemma HoldCells(w: nat, root: nat, n: nat)
    requires w < Pow2(MAX_BITS) && root + n <= MAX_BITS
    ensures Reverse(w, MAX_BITS) % Pow2(root) == Reverse(Top(w, root), root)
    ensures Reverse(w, MAX_BITS) / Pow2(root) % Pow2(n) == Reverse(Middle(w, root, n), n)
  {
    hide Reverse, Pow2, Top, Middle;
    var rest := MAX_BITS - root - n;
    var lo := w - Top(w, root + n) * Width(root + n);
    TopBounds(w, root + n);
    TopSplits(w, root, n);
    TopSmall(w, root);
    ReverseSplit(Top(w, root + n), lo, root + n, rest);
    ReverseSplit(Top(w, root), Middle(w, root, n), root, n);
    ReverseBound(Top(w, root), root);
    ReverseBound(Middle(w, root, n), n);
    Pow2Add(n, root);
    TwoLevels(Reverse(lo, rest), Reverse(Middle(w, root, n), n), Reverse(Top(w, root), root), Pow2(n), Pow2(root));
  }

  lemma TwoLevels(a: nat, b: nat, c: nat, p: nat, q: nat)
    requires b < p && c < q
    ensures var x := a * (p * q) + (b * q + c);
            x % q == c && x / q % p == b
  {
    NestedProduct(a, b, p, q);
    RestIs(a * p + b, c, q);
    RestIs(a, b, p);
  }
}

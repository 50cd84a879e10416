/**
 Bitwise arithmetic on non-negative integers, as the JavaScript operators compute it
 on values below 2^31: shifts are multiplications and divisions by powers of two.
 */
module Bits {
  type Byte = n: nat | n < 256

  function Pow2(n: nat): (p: nat)
    ensures p >= 1
  {
    if n == 0 then 1 else 2 * Pow2(n - 1)
  }

  lemma {:induction false} Pow2Add(m: nat, n: nat)
    ensures Pow2(m + n) == Pow2(m) * Pow2(n)
  {
    if m > 0 { Pow2Add(m - 1, n); }
  }

  /** The source's `x >>> n`. */
  function Shr(x: nat, n: nat): nat
  {
    if n == 0 then x else Shr(x / 2, n - 1)
  }

  /** The source's getBit: `(x >>> i) & 1`. */
  predicate GetBit(x: nat, i: nat)
  {
    Shr(x, i) % 2 == 1
  }

  lemma {:induction false} ShrStep(x: nat, n: nat)
    ensures Shr(x, n + 1) == Shr(x, n) / 2
  {
    if n > 0 { ShrStep(x / 2, n - 1); }
  }

  lemma {:induction false} ShrSmall(x: nat, n: nat)
    ensures Shr(x, n) == 0 <==> x < Pow2(n)
  {
    if n > 0 { ShrSmall(x / 2, n - 1); }
  }

  lemma {:induction false} ShrShifted(x: nat, low: nat, n: nat)
    requires low < Pow2(n)
    ensures Shr(x * Pow2(n) + low, n) == x
  {
    if n > 0 {
      var y := x * Pow2(n - 1);
      assert x * Pow2(n) == 2 * y;
      assert (2 * y + low) / 2 == y + low / 2;
      ShrShifted(x, low / 2, n - 1);
    }
  }

  /** The source's `a ^ b`. */
  function Xor(a: nat, b: nat): nat
    decreases a + b
  {
    if a == 0 then b else if b == 0 then a
    else 2 * Xor(a / 2, b / 2) + (if a % 2 == b % 2 then 0 else 1)
  }

  /** One step of the bitwise recursion, with no special case for zero. */
  lemma XorStep(a: nat, b: nat)
    ensures Xor(a, b) / 2 == Xor(a / 2, b / 2)
    ensures Xor(a, b) % 2 == if a % 2 == b % 2 then 0 else 1
  {
  }

  lemma {:induction false} XorCommutes(a: nat, b: nat)
    ensures Xor(a, b) == Xor(b, a)
    decreases a + b
  {
    if a != 0 && b != 0 { XorCommutes(a / 2, b / 2); }
  }

  lemma XorZero(a: nat)
    ensures Xor(a, 0) == a && Xor(0, a) == a
  {
  }

  lemma {:induction false} XorSelf(a: nat)
    ensures Xor(a, a) == 0
  {
    if a != 0 { XorSelf(a / 2); }
  }

  lemma {:induction false} XorIsZero(a: nat, b: nat)
    ensures Xor(a, b) == 0 <==> a == b
    decreases a + b
  {
    if a != 0 && b != 0 { XorIsZero(a / 2, b / 2); }
  }

  lemma {:induction false} XorAssociates(a: nat, b: nat, c: nat)
    ensures Xor(Xor(a, b), c) == Xor(a, Xor(b, c))
    decreases a + b + c
  {
    if a != 0 && b != 0 && c != 0 {
      XorAssociates(a / 2, b / 2, c / 2);
      XorStep(a, b);
      XorStep(b, c);
      XorStep(Xor(a, b), c);
      XorStep(a, Xor(b, c));
    }
  }

  lemma XorShuffle(a: nat, b: nat, c: nat, d: nat)
    ensures Xor(Xor(a, b), Xor(c, d)) == Xor(Xor(a, c), Xor(b, d))
  {
    XorAssociates(Xor(a, b), c, d);
    XorAssociates(a, b, c);
    XorCommutes(b, c);
    XorAssociates(a, c, b);
    XorAssociates(Xor(a, c), b, d);
  }

  lemma XorCancel(a: nat, b: nat)
    ensures Xor(Xor(a, b), b) == a
    ensures Xor(b, Xor(b, a)) == a
  {
    XorAssociates(a, b, b);
    XorSelf(b);
    XorAssociates(b, b, a);
  }

  lemma {:induction false} XorBound(a: nat, b: nat, n: nat)
    requires a < Pow2(n) && b < Pow2(n)
    ensures Xor(a, b) < Pow2(n)
  {
    if a != 0 && b != 0 {
      XorBound(a / 2, b / 2, n - 1);
    }
  }

  /** Shifting distributes over exclusive-or. */
  lemma {:induction false} XorShift(a: nat, b: nat, n: nat)
    ensures Shr(Xor(a, b), n) == Xor(Shr(a, n), Shr(b, n))
  {
    if n > 0 {
      XorStep(a, b);
      XorShift(a / 2, b / 2, n - 1);
    }
  }

  lemma GetBitXor(a: nat, b: nat, i: nat)
    ensures GetBit(Xor(a, b), i) == (GetBit(a, i) != GetBit(b, i))
  {
    XorShift(a, b, i);
    XorStep(Shr(a, i), Shr(b, i));
  }

  /** The source's `a | b`. */
  function Or(a: nat, b: nat): nat
    decreases a + b
  {
    if a == 0 then b else if b == 0 then a
    else 2 * Or(a / 2, b / 2) + (if a % 2 == 0 && b % 2 == 0 then 0 else 1)
  }

  /** Or-ing a small number into the low bits adds it. */
  lemma {:induction false} OrLow(a: nat, low: nat, n: nat)
    requires low < Pow2(n)
    ensures Or(a * Pow2(n), low) == a * Pow2(n) + low
  {
    hide Or;
    OrNothing(a);
    DoubledPower(a, n);
    if n > 0 {
      OrLow(a, low / 2, n - 1);
      OrHalves(a * Pow2(n - 1), low);
    }
  }

  lemma OrNothing(a: nat)
    ensures Or(a, 0) == a
  {
  }

  lemma OrHalves(y: nat, low: nat)
    requires Or(y, low / 2) == y + low / 2
    ensures Or(2 * y, low) == 2 * y + low
  {
    assert 2 * y / 2 == y;
  }

  // ----- Powers and products -----

  lemma DoubledPower(x: nat, n: nat)
    ensures n > 0 ==> x * Pow2(n) == 2 * (x * Pow2(n - 1))
    ensures x * Pow2(0) == x
  {
  }

  lemma {:induction false} Pow2Monotone(m: nat, n: nat)
    requires m <= n
    ensures Pow2(m) <= Pow2(n)
  {
    if m < n { Pow2Monotone(m, n - 1); }
  }

  lemma Pow2Eight()
    ensures Pow2(8) == 256
  {
    assert Pow2(4) == 16;
  }

  lemma OneMoreTimes(c: nat, w: nat)
    ensures (c + 1) * w == c * w + w
  {
  }

  lemma ScaledOrder(a: int, b: int, p: nat)
    ensures a <= b ==> a * p <= b * p
  {
    if a <= b { assert (b - a) * p >= 0; }
  }

  lemma MulBound(a: int, b: int, w: nat)
    ensures a < b ==> a * w + w <= b * w
  {
    var d := b - a - 1;
    assert b * w == a * w + w + d * w;
    if d >= 0 { assert d * w >= 0; }
  }

  lemma DivMod(t: nat, p: nat)
    requires p >= 1
    ensures t == t / p * p + t % p && t % p < p
  {
  }

  /** Quotient and rest are what a number is made of. */
  lemma RestIs(hi: nat, lo: nat, p: nat)
    requires lo < p
    ensures (hi * p + lo) % p == lo && (hi * p + lo) / p == hi
  {
    var x := hi * p + lo;
    var q, r := x / p, x % p;
    DivMod(x, p);
    MulBound(hi, q, p);
    MulBound(q, hi, p);
  }

  /** A number below a power of two, put under a multiple of it. */
  lemma {:induction false} SplitXor(h: nat, low: nat, n: nat)
    requires low < Pow2(n)
    ensures Xor(h * Pow2(n), low) == h * Pow2(n) + low
  {
    hide Xor;
    if n == 0 {
      XorZero(h);
    } else {
      SplitXor(h, low / 2, n - 1);
      DoubledXor(h * Pow2(n - 1), low);
      assert h * Pow2(n) == 2 * (h * Pow2(n - 1));
    }
  }

  lemma DoubledXor(y: nat, low: nat)
    requires Xor(y, low / 2) == y + low / 2
    ensures Xor(2 * y, low) == 2 * y + low
  {
    hide Xor;
    assert 2 * y / 2 == y && 2 * y % 2 == 0;
    XorStep(2 * y, low);
  }
}

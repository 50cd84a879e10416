/**
 The field GF(2^8) with modulus 0x11D, in which the Reed-Solomon code is computed.
 `ReedSolomonMultiply` is the source's double-and-add loop and `Mul` the function it
 computes. The lemmas show that `Mul` and `Xor` form a field in which 2 has order 255.
 */
module GaloisField {
  import opened Bits

  lemma XorByte(a: Byte, b: Byte)
    ensures Xor(a, b) < 256
  {
    XorBound(a, b, 8);
  }

  /** Multiplication by the field element 2: shift, then reduce the ninth bit. */
  function Double(z: Byte): Byte
  {
    DoubleBound(z);
    Xor(2 * z, (z / 128) * 0x11D)
  }

  lemma DoubleBound(z: Byte)
    ensures Xor(2 * z, (z / 128) * 0x11D) < 256
  {
    var reduction := (z / 128) * 0x11D;
    XorShift(2 * z, reduction, 8);
    ShrEight(2 * z);
    ShrEight(reduction);
    XorSelf(z / 128);
    ShrSmall(Xor(2 * z, reduction), 8);
  }

  lemma ShrEight(x: nat)
    ensures Shr(x, 7) == x / 128 && Shr(x, 8) == x / 256
  {
    ShrStep(x, 1);
    ShrStep(x, 2);
    assert Shr(x, 3) == x / 8;
    ShrStep(x, 3);
    ShrStep(x, 4);
    assert Shr(x, 5) == x / 32;
    ShrStep(x, 5);
    ShrStep(x, 6);
    ShrStep(x, 7);
  }

  lemma DoubleSmall(z: Byte)
    requires z < 128
    ensures Double(z) == 2 * z
  {
  }

  /** The accumulator after the n topmost bits of y have been consumed. */
  function MulTop(x: Byte, y: Byte, n: nat): Byte
    requires n <= 8
  {
    if n == 0 then 0
    else
      var d := Double(MulTop(x, y, n - 1));
      XorByte(d, x);
      if GetBit(y, 8 - n) then Xor(d, x) else d
  }

  function Mul(x: Byte, y: Byte): Byte
  {
    MulTop(x, y, 8)
  }

  /** The loop of the source, on a register wide enough to hold the ninth bit. */
  method ReedSolomonMultiply(x: Byte, y: Byte) returns (z: Byte)
    ensures z == Mul(x, y)
  {
    hide Xor, Shr;
    var w: nat := 0;
    for i := 8 downto 0
      invariant w == MulTop(x, y, 8 - i)
    {
      DoubleIs(MulTop(x, y, 8 - i));
      w := Xor(2 * w, (w / 128) * 0x11D);
      XorZero(w);
      w := Xor(w, (Shr(y, i) % 2) * x);
    }
    z := w;
  }

  lemma DoubleIs(z: Byte)
    ensures Double(z) == Xor(2 * z, (z / 128) * 0x11D)
  {
  }

  // ----- The ring laws -----

  lemma DoubleLinear(a: Byte, b: Byte)
    ensures Xor(a, b) < 256
    ensures Double(Xor(a, b)) == Xor(Double(a), Double(b))
  {
    XorByte(a, b);
    XorStep(2 * a, 2 * b);
    assert 2 * a / 2 == a && 2 * b / 2 == b;
    assert Xor(2 * a, 2 * b) == 2 * Xor(a, b);
    TopBitXor(a, b);
    ReductionXor(a / 128, b / 128);
    XorShuffle(2 * a, 2 * b, (a / 128) * 0x11D, (b / 128) * 0x11D);
  }

  lemma ReductionXor(s: nat, t: nat)
    requires s <= 1 && t <= 1
    ensures Xor(s * 0x11D, t * 0x11D) == (if s == t then 0 else 1) * 0x11D
  {
    XorSelf(s * 0x11D);
  }

  lemma TopBitXor(a: Byte, b: Byte)
    ensures Xor(a, b) / 128 == if a / 128 == b / 128 then 0 else 1
  {
    XorByte(a, b);
    XorShift(a, b, 7);
    ShrEight(a);
    ShrEight(b);
    ShrEight(Xor(a, b));
  }

  /** Addition in the field never leaves the bytes. */
  function Add(a: Byte, b: Byte): Byte
  {
    XorByte(a, b);
    Xor(a, b)
  }

  lemma {:induction false} MulTopLeftLinear(a: Byte, b: Byte, y: Byte, n: nat)
    requires n <= 8
    ensures MulTop(Add(a, b), y, n) == Add(MulTop(a, y, n), MulTop(b, y, n))
  {
    if n > 0 {
      MulTopLeftLinear(a, b, y, n - 1);
      var ma, mb := MulTop(a, y, n - 1), MulTop(b, y, n - 1);
      DoubleLinear(ma, mb);
      XorShuffle(Double(ma), Double(mb), a, b);
    }
  }

  lemma {:induction false} MulTopDouble(a: Byte, y: Byte, n: nat)
    requires n <= 8
    ensures MulTop(Double(a), y, n) == Double(MulTop(a, y, n))
  {
    if n > 0 {
      MulTopDouble(a, y, n - 1);
      DoubleLinear(Double(MulTop(a, y, n - 1)), a);
    }
  }

  lemma {:induction false} MulTopZero(y: Byte, n: nat)
    requires n <= 8
    ensures MulTop(0, y, n) == 0
  {
    if n > 0 { MulTopZero(y, n - 1); }
  }

  /** Right commutativity: the engine of every other law. */
  lemma {:induction false} MulTopSwap(x: Byte, y: Byte, z: Byte, n: nat)
    requires n <= 8
    ensures Mul(MulTop(x, y, n), z) == MulTop(Mul(x, z), y, n)
  {
    if n == 0 {
      MulTopZero(z, 8);
    } else {
      var a := MulTop(x, y, n - 1);
      MulTopDouble(a, z, 8);
      MulTopSwap(x, y, z, n - 1);
      if GetBit(y, 8 - n) {
        MulTopLeftLinear(Double(a), x, z, 8);
      }
    }
  }

  /** Multiplying 1 by y collects the bits of y one after the other. */
  lemma {:induction false} OneMulTop(y: Byte, n: nat)
    requires n <= 8
    ensures MulTop(1, y, n) == Shr(y, 8 - n)
  {
    ShrSmall(y, 8);
    if n > 0 {
      OneMulTop(y, n - 1);
      ShrStep(y, 8 - n);
      ShrHalves(y, 9 - n);
      DoubleSmall(Shr(y, 9 - n));
      XorOne(Shr(y, 9 - n));
    }
  }

  lemma XorOne(q: nat)
    ensures Xor(2 * q, 1) == 2 * q + 1
  {
    XorStep(2 * q, 1);
  }

  lemma ShrHalves(y: Byte, n: nat)
    requires n > 0
    ensures Shr(y, n) < 128
  {
    ShrMonotone(y / 2, n - 1);
  }

  lemma {:induction false} ShrMonotone(y: nat, n: nat)
    ensures Shr(y, n) <= y
  {
    if n > 0 { ShrMonotone(y / 2, n - 1); }
  }

  lemma OneMul(y: Byte)
    ensures Mul(1, y) == y
  {
    OneMulTop(y, 8);
  }

  lemma MulCommutes(x: Byte, y: Byte)
    ensures Mul(x, y) == Mul(y, x)
  {
    OneMul(x);
    OneMul(y);
    MulTopSwap(1, x, y, 8);
  }

  lemma MulAssociates(x: Byte, y: Byte, z: Byte)
    ensures Mul(Mul(x, y), z) == Mul(x, Mul(y, z))
  {
    MulCommutes(x, y);
    MulTopSwap(y, x, z, 8);
    MulCommutes(Mul(y, z), x);
  }

  lemma MulDistributes(x: Byte, y: Byte, z: Byte)
    ensures Mul(Add(x, y), z) == Add(Mul(x, z), Mul(y, z))
    ensures Mul(z, Add(x, y)) == Add(Mul(z, x), Mul(z, y))
  {
    MulTopLeftLinear(x, y, z, 8);
    MulCommutes(z, Add(x, y));
    MulCommutes(z, x);
    MulCommutes(z, y);
  }

  lemma MulZero(x: Byte)
    ensures Mul(0, x) == 0 && Mul(x, 0) == 0
  {
    MulTopZero(x, 8);
    MulCommutes(0, x);
  }

  lemma MulByTwo(x: Byte)
    ensures Mul(x, 2) == Double(x)
  {
    MulTopDouble(1, x, 8);
    OneMul(x);
    DoubleSmall(1);
    MulCommutes(x, 2);
  }

  lemma MulDouble(a: Byte, y: Byte)
    ensures Mul(Double(a), y) == Double(Mul(a, y))
  {
    MulTopDouble(a, y, 8);
  }

  // ----- The order of 2, and division -----

  /** 2 to the power k. */
  function Alpha(k: nat): Byte
  {
    if k == 0 then 1 else Double(Alpha(k - 1))
  }

  lemma {:induction false} AlphaAdd(j: nat, k: nat)
    ensures Alpha(j + k) == Mul(Alpha(j), Alpha(k))
  {
    hide Mul, Double;
    if j == 0 {
      OneMul(Alpha(k));
    } else {
      AlphaAdd(j - 1, k);
      MulDouble(Alpha(j - 1), Alpha(k));
    }
  }

  lemma DoubleNonzero(z: Byte)
    requires z != 0
    ensures Double(z) != 0
  {
    XorIsZero(2 * z, (z / 128) * 0x11D);
  }

  lemma {:induction false} AlphaNonzero(k: nat)
    ensures Alpha(k) != 0
  {
    if k > 0 {
      AlphaNonzero(k - 1);
      DoubleNonzero(Alpha(k - 1));
    }
  }

  /** Doubling as plain arithmetic: the reduction flips bits 0, 2, 3 and 4. */
  function DoubleArithmetic(z: Byte): Byte
  {
    if z < 128 then 2 * z
    else 32 * (z / 16 - 8) + 16 * (1 - z / 8 % 2) + 8 * (1 - z / 4 % 2) + 4 * (1 - z / 2 % 2) + 2 * (z % 2) + 1
  }

  lemma XorAppend(a: nat, s: nat, b: nat, t: nat)
    requires s <= 1 && t <= 1
    ensures Xor(2 * a + s, 2 * b + t) == 2 * Xor(a, b) + (if s == t then 0 else 1)
  {
    hide Xor;
    XorStep(2 * a + s, 2 * b + t);
    assert (2 * a + s) / 2 == a && (2 * b + t) / 2 == b;
  }

  lemma XorEight(h: nat)
    requires 8 <= h < 16
    ensures Xor(h, 8) == h - 8
  {
    hide Xor;
    XorSelf(1);
    var c2, c1, c0 := h / 4 % 2, h / 2 % 2, h % 2;
    XorAppend(1, c2, 1, 0);
    XorAppend(2 + c2, c1, 2, 0);
    XorAppend(4 + 2 * c2 + c1, c0, 4, 0);
  }

  lemma ReduceBits(h: nat, b3: nat, b2: nat, b1: nat, b0: nat)
    requires 8 <= h < 16 && b3 <= 1 && b2 <= 1 && b1 <= 1 && b0 <= 1
    ensures Xor(2 * (16 * h + 8 * b3 + 4 * b2 + 2 * b1 + b0), 0x11D)
         == 32 * (h - 8) + 16 * (1 - b3) + 8 * (1 - b2) + 4 * (1 - b1) + 2 * b0 + 1
  {
    hide Xor;
    XorEight(h);
    XorAppend(h, b3, 8, 1);
    var x := 2 * h + b3;
    XorAppend(x, b2, 17, 1);
    x := 2 * x + b2;
    XorAppend(x, b1, 35, 1);
    x := 2 * x + b1;
    XorAppend(x, b0, 71, 0);
    x := 2 * x + b0;
    XorAppend(x, 0, 142, 1);
  }

  lemma DoubleIsArithmetic(z: Byte)
    ensures Double(z) == DoubleArithmetic(z)
  {
    hide Xor;
    if z < 128 {
      DoubleSmall(z);
    } else {
      assert Double(z) == Xor(2 * z, 0x11D);
      hide Double;
      LowNibble(z);
      ReduceBits(z / 16, z / 8 % 2, z / 4 % 2, z / 2 % 2, z % 2);
    }
  }

  /** Multiplication by x, with x^8 = x^4 + x^3 + x^2 + 1; with linearity this determines every product. */
  lemma DefiningEquation(z: Byte)
    ensures z < 128 ==> Mul(z, 2) == 2 * z
    ensures Mul(0x80, 2) == 0x10 + 0x08 + 0x04 + 0x01
  {
    hide Mul, Double;
    MulByTwo(z);
    MulByTwo(0x80);
    DoubleIsArithmetic(z);
    DoubleIsArithmetic(0x80);
  }

  lemma LowNibble(z: nat)
    ensures z == 16 * (z / 16) + 8 * (z / 8 % 2) + 4 * (z / 4 % 2) + 2 * (z / 2 % 2) + z % 2
  {
    assert z == 2 * (z / 2) + z % 2;
    assert z / 2 == 2 * (z / 4) + z / 2 % 2;
    assert z / 4 == 2 * (z / 8) + z / 4 % 2;
    assert z / 8 == 2 * (z / 16) + z / 8 % 2;
  }

  lemma AlphaNext(k: nat, a: Byte)
    requires Alpha(k) == a
    ensures Alpha(k + 1) == DoubleArithmetic(a)
  {
    DoubleIsArithmetic(a);
  }

  lemma AlphaZero()
    ensures Alpha(0) == 1
  {
  }

  lemma AlphaFifteen()
    ensures Alpha(15) == 38
  {
    hide Double, Alpha;
    AlphaZero();
    AlphaNext(0, 1);
    AlphaNext(1, 2);
    AlphaNext(2, 4);
    AlphaNext(3, 8);
    AlphaNext(4, 16);
    AlphaNext(5, 32);
    AlphaNext(6, 64);
    AlphaNext(7, 128);
    AlphaNext(8, 29);
    AlphaNext(9, 58);
    AlphaNext(10, 116);
    AlphaNext(11, 232);
    AlphaNext(12, 205);
    AlphaNext(13, 135);
    AlphaNext(14, 19);
  }

  lemma AlphaTwentyFive()
    ensures Alpha(25) == 3
  {
    hide Double, Alpha;
    AlphaFifteen();
    AlphaNext(15, 38);
    AlphaNext(16, 76);
    AlphaNext(17, 152);
    AlphaNext(18, 45);
    AlphaNext(19, 90);
    AlphaNext(20, 180);
    AlphaNext(21, 117);
    AlphaNext(22, 234);
    AlphaNext(23, 201);
    AlphaNext(24, 143);
  }

  lemma SumsOfOne()
    ensures Add(2, 1) == 3 && Add(4, 1) == 5 && Add(6, 3) == 5
  {
    hide Xor;
    XorZero(1);
    XorAppend(1, 0, 0, 1);
    XorZero(2);
    XorAppend(2, 0, 0, 1);
    XorSelf(1);
    XorAppend(1, 1, 0, 1);
    XorAppend(1, 1, 1, 1);
    XorAppend(3, 0, 1, 1);
  }

  lemma SumsOfFive()
    ensures Xor(20, 5) == 17 && Xor(68, 17) == 85
  {
    hide Xor;
    XorZero(2);
    XorAppend(2, 1, 0, 1);
    XorAppend(5, 0, 1, 0);
    XorAppend(10, 0, 2, 1);
    XorZero(4);
    XorAppend(4, 0, 1, 0);
    XorZero(1);
    XorAppend(2, 0, 0, 1);
    XorAppend(4, 0, 1, 0);
    XorAppend(8, 1, 2, 0);
    XorAppend(17, 0, 4, 0);
    XorAppend(34, 0, 8, 1);
  }

  lemma SumsOfSeven()
    ensures Xor(73, 85) == 28 && Xor(112, 28) == 108
  {
    hide Xor;
    XorSelf(1);
    XorAppend(1, 0, 1, 0);
      XorAppend(2, 0, 2, 1);
      XorAppend(4, 1, 5, 0);
      XorAppend(9, 0, 10, 1);
      XorAppend(18, 0, 21, 0);
      XorAppend(36, 1, 42, 1);
    XorZero(3);
    XorAppend(3, 1, 0, 1);
    XorAppend(7, 0, 1, 1);
    XorAppend(14, 0, 3, 1);
    XorAppend(28, 0, 7, 0);
    XorAppend(56, 0, 14, 0);
  }

  /** 2^50 is 5, so fifty more powers multiply by 5. */
  lemma AlphaFifty()
    ensures Alpha(50) == 5 && Alpha(51) == 10
  {
    hide Add, Mul, Alpha;
    AlphaTwentyFive();
    AlphaAdd(25, 25);
    SumsOfOne();
    MulDistributes(2, 1, 3);
    MulByTwo(3);
    DoubleSmall(3);
    OneMul(3);
    MulCommutes(2, 3);
    AlphaNext(50, 5);
  }

  lemma AlphaFiftyMore(k: nat)
    ensures Alpha(k + 50) == Add(Double(Double(Alpha(k))), Alpha(k))
  {
    hide Add, Double, Alpha;
    var a := Alpha(k);
    AlphaFifty();
    AlphaAdd(k, 50);
    SumsOfOne();
    MulDistributes(4, 1, a);
    MulCommutes(1, a);
    OneMul(a);
    assert Double(2) == 4 by { DoubleSmall(2); }
    MulByTwo(a);
    MulByTwo(2);
    MulAssociates(a, 2, 2);
    MulByTwo(Double(a));
  }

  lemma AlphaHundred()
    ensures Alpha(100) == 17
  {
    hide Double, Alpha, Xor;
    AlphaFifty();
    AlphaFiftyMore(50);
    DoubleSmall(5);
    DoubleSmall(10);
    SumsOfFive();
  }

  lemma AlphaTwoHundred()
    ensures Alpha(200) == 28
  {
    hide Double, Alpha, Xor;
    AlphaHundred();
    AlphaFiftyMore(100);
    AlphaFiftyMore(150);
    DoubleSmall(17);
    DoubleSmall(34);
    DoubleSmall(85);
    DoubleIsArithmetic(170);
    SumsOfFive();
    SumsOfSeven();
  }

  lemma AlphaFullTurn()
    ensures Alpha(255) == 1
  {
    hide Double, Alpha, Xor;
    AlphaTwoHundred();
    AlphaFiftyMore(200);
    DoubleSmall(28);
    DoubleSmall(56);
    SumsOfSeven();
    AlphaNext(250, 108);
    AlphaNext(251, 216);
    AlphaNext(252, 173);
    AlphaNext(253, 71);
    AlphaNext(254, 142);
  }

  lemma DoubleInjective(a: Byte, b: Byte)
    requires Double(a) == Double(b)
    ensures a == b
  {
    DoubleLinear(a, b);
    XorSelf(Double(a));
    XorIsZero(a, b);
    if Xor(a, b) != 0 { DoubleNonzero(Xor(a, b)); }
  }

  lemma {:induction false} AlphaCancel(i: nat, j: nat)
    requires i <= j && Alpha(i) == Alpha(j)
    ensures Alpha(j - i) == 1
  {
    hide Double;
    if i > 0 {
      DoubleInjective(Alpha(i - 1), Alpha(j - 1));
      AlphaCancel(i - 1, j - 1);
    }
  }

  ghost predicate LeastPeriod(p: nat)
  {
    p > 0 && Alpha(p) == 1 && forall k :: 0 < k < p ==> Alpha(k) != 1
  }

  lemma {:induction false} FindLeastPeriod(m: nat, from: nat) returns (p: nat)
    requires 0 < from <= m && Alpha(m) == 1
    requires forall k :: 0 < k < from ==> Alpha(k) != 1
    ensures LeastPeriod(p) && p <= m
    decreases m - from
  {
    if Alpha(from) == 1 {
      p := from;
    } else {
      p := FindLeastPeriod(m, from + 1);
    }
  }

  /** Every exponent at which 2 is 1 is a multiple of the least one. */
  lemma {:induction false} PeriodDivides(n: nat, p: nat) returns (q: nat)
    requires LeastPeriod(p) && Alpha(n) == 1
    ensures q * p == n
  {
    if n == 0 {
      q := 0;
    } else {
      AlphaCancel(p, n);
      q := PeriodDivides(n - p, p);
      assert (q + 1) * p == q * p + p;
      q := q + 1;
    }
  }

  /** A proper divisor of 255 divides 15, 51 or 85. */
  lemma ProperDivisor(p: nat, q: nat)
    requires q * p == 255 && 0 < p < 255
    ensures p in {1, 3, 5, 15, 17, 51, 85}
  {
    if p <= 15 {
      SmallFactor(p, q);
    } else {
      LargeProduct(p, q);
      SmallFactor(q, p);
    }
  }

  lemma LargeProduct(p: nat, q: nat)
    ensures p >= 16 && q >= 16 ==> q * p >= 256
  {
    if p >= 16 && q >= 16 { assert q * p >= 16 * p; }
  }

  lemma SmallFactor(p: nat, q: nat)
    requires q * p == 255 && p < 16
    ensures (p, q) in {(1, 255), (3, 85), (5, 51), (15, 17)}
  {
    if p == 0 {} else if p == 1 {} else if p == 2 {} else if p == 3 {} else if p == 4 {}
    else if p == 5 {} else if p == 6 {} else if p == 7 {} else if p == 8 {} else if p == 9 {}
    else if p == 10 {} else if p == 11 {} else if p == 12 {} else if p == 13 {}
    else if p == 14 {} else {}
  }

  lemma {:induction false} AlphaTimes(p: nat, q: nat)
    requires Alpha(p) == 1
    ensures Alpha(q * p) == 1
  {
    hide Mul, Double;
    if q == 0 {
      assert q * p == 0;
    } else {
      AlphaTimes(p, q - 1);
      assert q * p == p + (q - 1) * p;
      AlphaAdd(p, (q - 1) * p);
      OneMul(1);
    }
  }

  /** No proper divisor of 255 is an exponent at which 2 is 1. */
  lemma NoShorterPeriod(p: nat)
    requires p in {1, 3, 5, 15, 17, 51, 85}
    ensures Alpha(p) != 1
  {
    if Alpha(p) == 1 {
      AlphaTimes(p, if p == 1 then 15 else if p == 3 || p == 17 then 5 else if p == 5 then 3 else 1);
      AlphaEightyFive();
      AlphaFifteen();
      AlphaFifty();
    }
  }

  /** 2^100 and 2^15 differ, so 2^85 is not 1. */
  lemma AlphaEightyFive()
    ensures Alpha(85) != 1
  {
    hide Alpha, Mul;
    AlphaAdd(85, 15);
    OneMul(Alpha(15));
    AlphaFifteen();
    AlphaHundred();
  }

  /** 2 has order 255: its first 254 powers all differ from 1. */
  lemma AlphaOrder(m: nat)
    requires 0 < m < 255
    ensures Alpha(m) != 1
  {
    if Alpha(m) == 1 {
      var p := FindLeastPeriod(m, 1);
      AlphaFullTurn();
      var q := PeriodDivides(255, p);
      ProperDivisor(p, q);
      NoShorterPeriod(p);
    }
  }

  lemma AlphaDistinct(i: nat, j: nat)
    requires i < j < 255
    ensures Alpha(i) != Alpha(j)
  {
    if Alpha(i) == Alpha(j) {
      AlphaCancel(i, j);
      AlphaOrder(j - i);
    }
  }

  /** The nonzero bytes up to n. */
  function NonzeroBytes(n: nat): (s: set<int>)
    ensures |s| == n
    ensures forall x :: x in s <==> 1 <= x <= n
  {
    if n == 0 then {} else NonzeroBytes(n - 1) + {n}
  }

  /** The first n powers of 2. */
  function FirstPowers(n: nat): set<int>
  {
    if n == 0 then {} else FirstPowers(n - 1) + {Alpha(n - 1) as int}
  }

  lemma {:induction false} FirstPowersMember(n: nat, x: int) returns (k: nat)
    requires x in FirstPowers(n)
    ensures k < n && Alpha(k) == x
  {
    if x in FirstPowers(n - 1) {
      k := FirstPowersMember(n - 1, x);
    } else {
      k := n - 1;
    }
  }

  lemma {:induction false} FirstPowersCount(n: nat)
    requires n <= 255
    ensures |FirstPowers(n)| == n
  {
    if n > 0 {
      FirstPowersCount(n - 1);
      if Alpha(n - 1) in FirstPowers(n - 1) {
        var k := FirstPowersMember(n - 1, Alpha(n - 1));
        AlphaDistinct(k, n - 1);
      }
    }
  }

  /** 2 generates the field: by counting, its powers are all the nonzero bytes. */
  lemma Logarithm(x: Byte) returns (k: nat)
    requires x != 0
    ensures k < 255 && Alpha(k) == x
  {
    hide FirstPowers, NonzeroBytes, Double;
    var powers, others := FirstPowers(255), NonzeroBytes(255) - {x as int};
    if x !in powers {
      forall y | y in powers ensures y in others {
        var i := FirstPowersMember(255, y);
        AlphaNonzero(i);
      }
      SubsetCardinality(powers, others);
      FirstPowersCount(255);
    }
    k := FirstPowersMember(255, x);
  }

  lemma SubsetCardinality(s: set<int>, t: set<int>)
    requires s <= t
    ensures |s| <= |t|
  {
    assert t == s + (t - s);
  }

  lemma MulNonzero(x: Byte, y: Byte)
    requires x != 0 && y != 0
    ensures Mul(x, y) != 0
  {
    var i := Logarithm(x);
    var j := Logarithm(y);
    AlphaAdd(i, j);
    AlphaNonzero(i + j);
  }

  /** Every nonzero byte has a reciprocal, so `Mul` and `Xor` form a field. */
  lemma Reciprocal(x: Byte) returns (y: Byte)
    requires x != 0
    ensures Mul(x, y) == 1
  {
    var k := Logarithm(x);
    y := Alpha(255 - k);
    AlphaAdd(k, 255 - k);
    AlphaFullTurn();
  }

  // ----- Facts used with `Add` and `Mul` hidden -----

  lemma AddZero(a: Byte)
    ensures Add(a, 0) == a && Add(0, a) == a && Add(a, a) == 0
  {
    XorZero(a);
    XorSelf(a);
  }

  lemma AddIsZero(a: Byte, b: Byte)
    ensures Add(a, b) == 0 <==> a == b
  {
    XorIsZero(a, b);
  }

  lemma AddCancel(a: Byte, b: Byte)
    ensures Add(a, Add(a, b)) == b && Add(Add(a, b), b) == a && Add(a, b) == Add(b, a)
  {
    XorCommutes(a, b);
    XorCancel(a, b);
    XorCancel(b, a);
  }

  lemma AddShuffle(a: Byte, b: Byte, c: Byte, d: Byte)
    ensures Add(Add(a, b), Add(c, d)) == Add(Add(a, c), Add(b, d))
  {
    XorShuffle(a, b, c, d);
  }

  lemma AddAssociates(a: Byte, b: Byte, c: Byte)
    ensures Add(Add(a, b), c) == Add(a, Add(b, c))
  {
    XorAssociates(a, b, c);
  }
}

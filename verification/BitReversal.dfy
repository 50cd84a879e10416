/** Reversing the bits of a number: deflate stores and looks up its codes with the first bit lowest. */
module BitReversal {
  import opened Bits
  import opened BitStream

  /** The low n bits of x in reverse order. */
  function Reverse(x: nat, n: nat): nat
  {
    if n == 0 then 0 else x % 2 * Pow2(n - 1) + Reverse(x / 2, n - 1)
  }

  lemma NothingReversed(x: nat)
    ensures Reverse(x, 0) == 0 && Shr(x, 0) == x
  {
  }

  lemma {:induction false} ReverseNext(x: nat, n: nat)
    ensures Reverse(x, n + 1) == 2 * Reverse(x, n) + if GetBit(x, n) then 1 else 0
  {
    if n > 0 {
      ReverseNext(x / 2, n - 1);
      assert x % 2 * Pow2(n) == 2 * (x % 2 * Pow2(n - 1));
    }
  }

  /** Bit i of the reversed code is bit i of the code word. */
  lemma {:induction false} ReversedBit(x: nat, n: nat, i: nat)
    requires i < n
    ensures GetBit(Reverse(x, n), i) == BitsOf(x, n)[i]
  {
    ReverseNext(x, n - 1);
    BitAt(x, n, i);
    if i > 0 {
      assert GetBit(Reverse(x, n), i) == GetBit(Reverse(x, n - 1), i - 1);
      ReversedBit(x, n - 1, i - 1);
      BitAt(x, n - 1, i - 1);
    }
  }

  lemma {:induction false} ReverseBound(x: nat, n: nat)
    ensures Reverse(x, n) < Pow2(n)
  {
    if n > 0 {
      ReverseBound(x / 2, n - 1);
      assert x % 2 * Pow2(n - 1) <= Pow2(n - 1);
    }
  }

  /** Reversing swaps the high and the low part. */
  lemma {:induction false} ReverseSplit(hi: nat, lo: nat, a: nat, b: nat)
    requires lo < Pow2(b)
    ensures Reverse(hi * Pow2(b) + lo, a + b) == Reverse(lo, b) * Pow2(a) + Reverse(hi, a)
  {
    if b > 0 {
      var x := hi * Pow2(b - 1) + lo / 2;
      assert hi * Pow2(b) == 2 * (hi * Pow2(b - 1));
      ReverseSplit(hi, lo / 2, a, b - 1);
      Pow2Add(a, b - 1);
      Regroup(lo % 2, Pow2(b - 1), Pow2(a), Reverse(lo / 2, b - 1));
    }
  }

  lemma Regroup(bit: nat, p: nat, q: nat, r: nat)
    ensures (bit * p + r) * q == bit * (q * p) + r * q
  {
    assert (bit * p) * q == bit * (p * q);
  }

  lemma {:induction false} ReverseTwice(x: nat, n: nat)
    requires x < Pow2(n)
    ensures Reverse(Reverse(x, n), n) == x
  {
    if n > 0 {
      ReverseTwice(x / 2, n - 1);
      ReverseBound(x / 2, n - 1);
      ReverseSplit(x % 2, Reverse(x / 2, n - 1), 1, n - 1);
      ReverseBit(x % 2);
    }
  }

  lemma ReverseBit(b: nat)
    requires b < 2
    ensures Reverse(b, 1) == b && Pow2(1) == 2
  {
    assert Reverse(b / 2, 0) == 0;
  }

  lemma ReverseInjective(x: nat, y: nat, n: nat)
    requires x < Pow2(n) && y < Pow2(n)
    ensures Reverse(x, n) == Reverse(y, n) <==> x == y
  {
    ReverseTwice(x, n);
    ReverseTwice(y, n);
  }

  lemma ReverseStep(x: nat, n: nat)
    requires n > 0
    ensures Reverse(x, n) == (if x % 2 == 1 then Pow2(n - 1) else 0) + Reverse(x / 2, n - 1)
    ensures Pow2(n) == 2 * Pow2(n - 1)
  {
  }

  /** Addition of one to a reversed number of n bits: set bits are cleared until a clear one is set. */
  function Carry(r: nat, n: nat): nat
  {
    if n == 0 then 0
    else if r >= Pow2(n - 1) then Carry(r - Pow2(n - 1), n - 1)
    else r + Pow2(n - 1)
  }

  lemma CarryStep(r: nat, n: nat)
    requires n > 0
    ensures Carry(r + Pow2(n - 1), n) == Carry(r, n - 1)
    ensures r < Pow2(n - 1) ==> Carry(r, n) == r + Pow2(n - 1)
  {
  }

  /** Reversing the next number is adding one from the top bit down. */
  lemma {:induction false} ReverseSuccessor(x: nat, n: nat)
    requires x + 1 < Pow2(n)
    ensures Reverse(x + 1, n) == Carry(Reverse(x, n), n)
  {
    hide Reverse, Carry;
    if n > 0 {
      ReverseStep(x, n);
      ReverseStep(x + 1, n);
      ReverseBound(x / 2, n - 1);
      CarryStep(Reverse(x / 2, n - 1), n);
      if x % 2 == 1 {
        ReverseSuccessor(x / 2, n - 1);
      }
    }
  }

  /** Past the last number of n bits comes zero. */
  lemma {:induction false} CarryOut(x: nat, n: nat)
    requires x + 1 == Pow2(n)
    ensures Carry(Reverse(x, n), n) == 0
  {
    hide Reverse;
    if n > 0 {
      ReverseStep(x, n);
      CarryStep(Reverse(x / 2, n - 1), n);
      CarryOut(x / 2, n - 1);
    }
  }
}

/**
 What the symbols of deflate's alphabets stand for, by the rules of section 3.2.5 of RFC 1951: bytes,
 the end of a block, and ranges of lengths and distances that are told apart by extra bits.
 */
module SymbolMeaning {
  import opened Bits

  /** The alphabets of code lengths, of literals and lengths, and of distances. */
  datatype Kind = CODES | LENS | DISTS

  datatype Meaning = Plain(value: nat) | EndOfBlock | Range(base: nat, extra: nat) | Invalid

  /** Four length symbols share each number of extra bits, after eight with none. */
  function LengthExtra(sym: nat): nat
  {
    if sym < 265 || sym == 285 then 0 else (sym - 261) / 4
  }

  function LengthBase(sym: nat): nat
    requires 257 <= sym <= 285
  {
    if sym < 265 then sym - 254
    else if sym == 285 then 258
    else 3 + (4 + (sym - 265) % 4) * Pow2(LengthExtra(sym))
  }

  /** Two distance symbols share each number of extra bits, after four with none. */
  function DistExtra(sym: nat): nat
  {
    if sym < 4 then 0 else (sym - 2) / 2
  }

  function DistBase(sym: nat): nat
  {
    if sym < 4 then sym + 1 else 1 + (2 + sym % 2) * Pow2(DistExtra(sym))
  }

  function MeaningOf(kind: Kind, sym: nat): Meaning
  {
    match kind
    case CODES => Plain(sym)
    case LENS =>
      if sym < 256 then Plain(sym)
      else if sym == 256 then EndOfBlock
      else if sym <= 285 then Range(LengthBase(sym), LengthExtra(sym))
      else Invalid
    case DISTS => if sym <= 29 then Range(DistBase(sym), DistExtra(sym)) else Invalid
  }

  lemma SmallPowers()
    ensures Pow2(0) == 1 && Pow2(1) == 2 && Pow2(2) == 4 && Pow2(3) == 8 && Pow2(4) == 16 && Pow2(5) == 32
    ensures Pow2(6) == 64 && Pow2(7) == 128 && Pow2(8) == 256 && Pow2(9) == 512 && Pow2(10) == 1024
    ensures Pow2(11) == 2048 && Pow2(12) == 4096 && Pow2(13) == 8192
  {
    assert Pow2(7) == 128;
  }

  // ----- Ranges without gaps -----

  /** The number n is one of those that the extra bits of the symbol choose from. */
  predicate InLengths(sym: nat, n: nat)
    requires 257 <= sym <= 285
  {
    LengthBase(sym) <= n < LengthBase(sym) + Pow2(LengthExtra(sym))
  }

  predicate InDistances(sym: nat, n: nat)
  {
    DistBase(sym) <= n < DistBase(sym) + Pow2(DistExtra(sym))
  }

  /** Each range starts where the one before it ends. */
  lemma LengthStep(sym: nat)
    requires 257 <= sym < 284
    ensures LengthBase(sym + 1) == LengthBase(sym) + Pow2(LengthExtra(sym))
    ensures LengthBase(257) == 3 && LengthBase(284) + Pow2(LengthExtra(284)) == 259
  {
    SmallPowers();
  }

  lemma DistStep(sym: nat)
    requires sym < 29
    ensures DistBase(sym + 1) == DistBase(sym) + Pow2(DistExtra(sym))
  {
    if sym < 4 {
      SmallPowers();
    } else {
      hide Pow2;
      var k := (sym - 2) / 2;
      Doubled(k);
      assert DistExtra(sym + 1) == k + sym % 2;
      if sym % 2 == 0 { assert DistBase(sym) == 1 + 2 * Pow2(k); } else { assert DistBase(sym) == 1 + 3 * Pow2(k); }
    }
  }

  lemma Doubled(k: nat)
    ensures Pow2(k + 1) == 2 * Pow2(k)
  {
  }

  lemma DistEnds()
    ensures DistBase(0) == 1 && DistBase(29) + Pow2(DistExtra(29)) == 32769
  {
    SmallPowers();
  }

  lemma {:induction false} LengthFound(n: nat, sym: nat) returns (s: nat)
    requires 257 <= sym <= 284 && 3 <= n < LengthBase(sym) + Pow2(LengthExtra(sym))
    ensures 257 <= s <= sym && InLengths(s, n)
  {
    if sym > 257 && n < LengthBase(sym) {
      LengthStep(sym - 1);
      s := LengthFound(n, sym - 1);
    } else {
      s := sym;
    }
  }

  lemma {:induction false} LengthsAscend(s: nat, t: nat)
    requires 257 <= s < t <= 284
    ensures LengthBase(s) + Pow2(LengthExtra(s)) <= LengthBase(t)
  {
    LengthStep(t - 1);
    if s < t - 1 { LengthsAscend(s, t - 1); }
  }

  /** Each length from 3 to 258 is in the range of exactly one symbol up to 284; 258 has symbol 285 besides. */
  lemma LengthsTile(n: nat) returns (s: nat)
    requires 3 <= n <= 258
    ensures 257 <= s <= 284 && InLengths(s, n)
    ensures forall t: nat :: 257 <= t <= 284 && InLengths(t, n) ==> t == s
    ensures InLengths(285, n) <==> n == 258
  {
    hide LengthBase, LengthExtra;
    LengthStep(257);
    s := LengthFound(n, 284);
    forall t: nat | 257 <= t <= 284 && InLengths(t, n) ensures t == s {
      if s < t { LengthsAscend(s, t); }
      if t < s { LengthsAscend(t, s); }
    }
    LastLength(n);
  }

  lemma LastLength(n: nat)
    ensures InLengths(285, n) <==> n == 258
  {
    SmallPowers();
  }

  lemma {:induction false} DistanceFound(n: nat, sym: nat) returns (s: nat)
    requires sym <= 29 && 1 <= n < DistBase(sym) + Pow2(DistExtra(sym))
    ensures s <= sym && InDistances(s, n)
  {
    if sym > 0 && n < DistBase(sym) {
      DistStep(sym - 1);
      s := DistanceFound(n, sym - 1);
    } else {
      s := sym;
    }
  }

  lemma {:induction false} DistancesAscend(s: nat, t: nat)
    requires s < t <= 29
    ensures DistBase(s) + Pow2(DistExtra(s)) <= DistBase(t)
  {
    hide Pow2, DistBase, DistExtra;
    DistStep(t - 1);
    if s < t - 1 { DistancesAscend(s, t - 1); }
  }

  /** Each distance from 1 to 32768 is in the range of exactly one symbol. */
  lemma DistancesTile(n: nat) returns (s: nat)
    requires 1 <= n <= 32768
    ensures s <= 29 && InDistances(s, n)
    ensures forall t: nat :: t <= 29 && InDistances(t, n) ==> t == s
  {
    hide DistBase, DistExtra;
    DistEnds();
    s := DistanceFound(n, 29);
    forall t: nat | t <= 29 && InDistances(t, n) ensures t == s {
      if s < t { DistancesAscend(s, t); }
      if t < s { DistancesAscend(t, s); }
    }
  }
}

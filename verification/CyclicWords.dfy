/**
 The format and version words are words of cyclic codes: the information in front, and the whole a
 multiple of the generator polynomial over the field of two elements.
 */
module CyclicWords {
  import opened Bits
  import opened Patterns

  /** The product of two polynomials, one coefficient a bit. */
  function Multiple(q: nat, g: nat): nat
  {
    if q == 0 then 0 else Xor(2 * Multiple(q / 2, g), q % 2 * g)
  }

  lemma MultipleNext(q: nat, t: nat, g: nat)
    requires t <= 1
    ensures Multiple(2 * q + t, g) == Xor(2 * Multiple(q, g), t * g)
  {
    assert (2 * q + t) / 2 == q && (2 * q + t) % 2 == t;
    XorSelf(0);
  }

  lemma XorDoubles(a: nat, b: nat)
    ensures Xor(2 * a, 2 * b) == 2 * Xor(a, b)
  {
    hide Xor;
    XorStep(2 * a, 2 * b);
    assert 2 * a / 2 == a && 2 * b / 2 == b;
  }

  /** One round of the division adds a multiple of the generator. */
  lemma RoundKeeps(x: nat, rem: nat, q: nat, t: nat, g: nat)
    requires Xor(x, rem) == Multiple(q, g) && t <= 1
    ensures Xor(2 * x, Xor(2 * rem, t * g)) == Multiple(2 * q + t, g)
  {
    hide Xor, Multiple;
    XorAssociates(2 * x, 2 * rem, t * g);
    XorDoubles(x, rem);
    MultipleNext(q, t, g);
  }

  lemma NothingDivided(x: nat)
    ensures x * Pow2(0) == x == FormatRemainder(x, 0) == VersionRemainder(x, 0)
    ensures Xor(x, x) == 0 && forall g :: Multiple(0, g) == 0
  {
    XorSelf(x);
  }

  lemma FormatRound(data: nat, n: nat)
    requires data < 1024 && n > 0
    ensures var rem := FormatRemainder(data, n - 1);
            Shr(rem, 9) <= 1 && FormatRemainder(data, n) == Xor(2 * rem, Shr(rem, 9) * 0x537)
  {
    hide Xor;
    FormatRemainderBound(data, n - 1);
    ShrByPowers(FormatRemainder(data, n - 1));
  }

  lemma VersionRound(ver: nat, n: nat)
    requires ver < 4096 && n > 0
    ensures var rem := VersionRemainder(ver, n - 1);
            Shr(rem, 11) <= 1 && VersionRemainder(ver, n) == Xor(2 * rem, Shr(rem, 11) * 0x1F25)
  {
    hide Xor;
    VersionRemainderBound(ver, n - 1);
    ShrByPowers(VersionRemainder(ver, n - 1));
  }

  lemma {:induction false} FormatDivision(data: nat, n: nat) returns (q: nat)
    requires data < 1024
    ensures Xor(data * Pow2(n), FormatRemainder(data, n)) == Multiple(q, 0x537)
  {
    hide Xor, Multiple, FormatRemainder, Pow2, Shr;
    if n == 0 {
      q := 0;
      NothingDivided(data);
    } else {
      var r := FormatDivision(data, n - 1);
      var rem := FormatRemainder(data, n - 1);
      FormatRound(data, n);
      DoubledPower(data, n);
      RoundKeeps(data * Pow2(n - 1), rem, r, Shr(rem, 9), 0x537);
      q := 2 * r + Shr(rem, 9);
    }
  }

  lemma {:induction false} VersionDivision(ver: nat, n: nat) returns (q: nat)
    requires ver < 4096
    ensures Xor(ver * Pow2(n), VersionRemainder(ver, n)) == Multiple(q, 0x1F25)
  {
    hide Xor, Multiple, VersionRemainder, Pow2, Shr;
    if n == 0 {
      q := 0;
      NothingDivided(ver);
    } else {
      var r := VersionDivision(ver, n - 1);
      var rem := VersionRemainder(ver, n - 1);
      VersionRound(ver, n);
      DoubledPower(ver, n);
      RoundKeeps(ver * Pow2(n - 1), rem, r, Shr(rem, 11), 0x1F25);
      q := 2 * r + Shr(rem, 11);
    }
  }

  /**
   Without the pattern 101010000010010 the format word is level and mask, followed by ten bits that
   make it a multiple of x^10 + x^8 + x^5 + x^4 + x^2 + x + 1.
   */
  lemma FormatIsCodeword(formatBits: nat, mask: nat) returns (q: nat)
    requires formatBits < 4 && mask < 8
    ensures var word := Xor(FormatWord(formatBits, mask), 0x5412);
            word == Multiple(q, 0x537) && word / 1024 == 8 * formatBits + mask
  {
    hide Xor, Or, Multiple, FormatRemainder, Pow2;
    PowerValues();
    OrLow(formatBits, mask, 3);
    var data := 8 * formatBits + mask;
    FormatRemainderBound(data, 10);
    var rem := FormatRemainder(data, 10);
    OrLow(data, rem, 10);
    SplitXor(data, rem, 10);
    q := FormatDivision(data, 10);
    XorCancel(data * 1024 + rem, 0x5412);
  }

  /**
   The version word is the version, followed by twelve bits that make it a multiple of
   x^12 + x^11 + x^10 + x^9 + x^8 + x^5 + x^2 + 1.
   */
  lemma VersionIsCodeword(ver: nat) returns (q: nat)
    requires ver < 64
    ensures VersionWord(ver) == Multiple(q, 0x1F25) && VersionWord(ver) / 4096 == ver
  {
    hide Xor, Or, Multiple, VersionRemainder, Pow2;
    PowerValues();
    VersionRemainderBound(ver, 12);
    var rem := VersionRemainder(ver, 12);
    OrLow(ver, rem, 12);
    SplitXor(ver, rem, 12);
    q := VersionDivision(ver, 12);
  }
}

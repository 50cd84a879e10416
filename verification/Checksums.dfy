/** The two checksums: Adler-32 with deferred reduction, and CRC-32 by table. */
module Checksums {
  import opened Bits
  import opened Chunks

  // ----- Adler-32, section 2.2 of RFC 1950 -----

  const BASE: nat := 65521

  /** The first sum over the data, starting from a. */
  function SumA(a: nat, data: seq<Byte>): nat
  {
    if |data| == 0 then a else SumA(a, data[..|data| - 1]) + data[|data| - 1]
  }

  /** The sum of all first sums, starting from b. */
  function SumB(a: nat, b: nat, data: seq<Byte>): nat
  {
    if |data| == 0 then b else SumB(a, b, data[..|data| - 1]) + SumA(a, data)
  }

  /** The definition: both sums modulo 65521, the second one in the high half. */
  function Adler(adler: nat, data: seq<Byte>): nat
  {
    SumB(adler % 0x1_0000, adler / 0x1_0000 % 0x1_0000, data) % 65521 * 0x1_0000
    + SumA(adler % 0x1_0000, data) % 65521
  }

  lemma {:induction false} SumsConcat(a: nat, b: nat, x: seq<Byte>, y: seq<Byte>)
    ensures SumA(a, x + y) == SumA(SumA(a, x), y)
    ensures SumB(a, b, x + y) == SumB(SumA(a, x), SumB(a, b, x), y)
  {
    if |y| == 0 {
      assert x + y == x;
    } else {
      var m := |y| - 1;
      assert (x + y)[..|x| + m] == x + y[..m];
      SumsConcat(a, b, x, y[..m]);
    }
  }

  lemma SameRest(x: nat, y: nat, c: nat)
    requires x % BASE == y % BASE
    ensures (x + c) % BASE == (y + c) % BASE
  {
  }

  lemma SameRests(x: nat, y: nat, c: nat, d: nat)
    requires x % BASE == y % BASE && c % BASE == d % BASE
    ensures (x + c) % BASE == (y + d) % BASE
  {
    SameRest(x, y, c);
    SameRest(c, d, y);
  }

  /** Reducing the sums at any time changes nothing modulo 65521. */
  lemma {:induction false} SumsReduced(a: nat, b: nat, a': nat, b': nat, data: seq<Byte>)
    requires a % BASE == a' % BASE && b % BASE == b' % BASE
    ensures SumA(a, data) % BASE == SumA(a', data) % BASE
    ensures SumB(a, b, data) % BASE == SumB(a', b', data) % BASE
  {
    if |data| > 0 {
      var m := |data| - 1;
      SumsReduced(a, b, a', b', data[..m]);
      SameRest(SumA(a, data[..m]), SumA(a', data[..m]), data[m]);
      SameRests(SumB(a, b, data[..m]), SumB(a', b', data[..m]), SumA(a, data), SumA(a', data));
    }
  }

  lemma Halves(hi: nat, lo: nat)
    requires hi < 0x1_0000 && lo < 0x1_0000
    ensures (hi * 0x1_0000 + lo) % 0x1_0000 == lo && (hi * 0x1_0000 + lo) / 0x1_0000 % 0x1_0000 == hi
  {
  }

  /** A checksum can be carried over any split of the data. */
  lemma AdlerConcat(adler: nat, x: seq<Byte>, y: seq<Byte>)
    ensures Adler(Adler(adler, x), y) == Adler(adler, x + y)
  {
    hide SumA, SumB;
    var a, b := adler % 0x1_0000, adler / 0x1_0000 % 0x1_0000;
    SumsConcat(a, b, x, y);
    Halves(SumB(a, b, x) % BASE, SumA(a, x) % BASE);
    SumsReduced(SumA(a, x), SumB(a, b, x), SumA(a, x) % BASE, SumB(a, b, x) % BASE, y);
  }

  /** One stretch of at most 2000 bytes without reduction; nothing leaves the range of 32-bit numbers. */
  method SumStretch(data: seq<Byte>, pos: nat, count: nat, n0: nat, o0: nat) returns (n: nat, o: nat)
    requires count <= 2000 && pos + count <= |data| && n0 < 0x1_0000 && o0 < 0x1_0000
    ensures n == SumA(n0, data[pos..pos + count]) && o == SumB(n0, o0, data[pos..pos + count])
    ensures n < 0x8000_0000 && o < 0x8000_0000
  {
    hide SumA, SumB;
    n, o := n0, o0;
    Nothing(n0, o0, data[pos..pos]);
    for i := 0 to count
      invariant n == SumA(n0, data[pos..pos + i]) && o == SumB(n0, o0, data[pos..pos + i])
      invariant n <= 0xFFFF + 255 * i && o <= 0xFFFF + 575535 * i
    {
      SumNext(n0, o0, data, pos, i);
      n := n + data[pos + i];
      assert n < 0x8000_0000;
      o := o + n;
      assert o < 0x8000_0000;
    }
  }

  lemma Nothing(a: nat, b: nat, data: seq<Byte>)
    requires |data| == 0
    ensures SumA(a, data) == a && SumB(a, b, data) == b
  {
  }

  lemma SumNext(a: nat, b: nat, data: seq<Byte>, pos: nat, i: nat)
    requires pos + i < |data|
    ensures SumA(a, data[pos..pos + i + 1]) == SumA(a, data[pos..pos + i]) + data[pos + i]
    ensures SumB(a, b, data[pos..pos + i + 1])
         == SumB(a, b, data[pos..pos + i]) + SumA(a, data[pos..pos + i + 1])
  {
    assert data[pos..pos + i + 1][..i] == data[pos..pos + i];
  }

  /** The source's adler32: reduction only after every 2000 bytes. Empty data leaves the value as it is. */
  method Adler32(adler: nat, data: seq<Byte>) returns (r: nat)
    requires adler < 0x1_0000_0000
    ensures r == if |data| == 0 then adler else Adler(adler, data)
  {
    hide SumA, SumB;
    var n: nat, o: nat := adler % 0x1_0000, adler / 0x1_0000;
    ghost var n0, o0 := n, o;
    var pos, rest: nat := 0, |data|;
    Nothing(n, o, data[..0]);
    while rest != 0
      invariant pos + rest == |data| && n < 0x1_0000 && o < 0x1_0000
      invariant n % BASE == SumA(n0, data[..pos]) % BASE && o % BASE == SumB(n0, o0, data[..pos]) % BASE
      invariant if pos == 0 then n == n0 && o == o0 else n < BASE && o < BASE
    {
      var count := if rest > 2000 then 2000 else rest;
      rest := rest - count;
      SumsReduced(SumA(n0, data[..pos]), SumB(n0, o0, data[..pos]), n, o, data[pos..pos + count]);
      SumsConcat(n0, o0, data[..pos], data[pos..pos + count]);
      assert data[..pos] + data[pos..pos + count] == data[..pos + count];
      n, o := SumStretch(data, pos, count, n, o);
      pos := pos + count;
      n := n % BASE;
      o := o % BASE;
    }
    assert data[..|data|] == data;
    r := n + o * 0x1_0000;
  }

  // ----- CRC-32, section 8 of RFC 1952 -----

  const POLYNOMIAL: nat := 0xEDB8_8320
  const ALL_ONES: nat := 0xFFFF_FFFF

  /** The constant has the generator polynomial's coefficients below the 32nd power, the lowest in front. */
  lemma PolynomialTerms()
    ensures POLYNOMIAL
         == Pow2(31 - 26) + Pow2(31 - 23) + Pow2(31 - 22) + Pow2(31 - 16) + Pow2(31 - 12) + Pow2(31 - 11)
            + Pow2(31 - 10) + Pow2(31 - 8) + Pow2(31 - 7) + Pow2(31 - 5) + Pow2(31 - 4) + Pow2(31 - 2) + Pow2(31 - 1) + Pow2(31 - 0)
  {
    assert Pow2(5) == 32 && Pow2(8) == 256 && Pow2(9) == 512;
    hide Pow2;
    NextPower(9);
    NextPower(10);
    NextPower(11);
    NextPower(12);
    NextPower(13);
    NextPower(14);
    Pow2Add(15, 4);
    NextPower(19);
    NextPower(20);
    NextPower(21);
    NextPower(22);
    NextPower(23);
    NextPower(24);
    NextPower(25);
    NextPower(26);
    NextPower(27);
    NextPower(28);
    NextPower(29);
    NextPower(30);
    SixteenIs();
  }

  lemma NextPower(n: nat)
    ensures Pow2(n + 1) == 2 * Pow2(n)
  {
  }

  lemma SixteenIs()
    ensures Pow2(4) == 16
  {
  }

  /** One bit of the division. */
  function CrcStep(c: nat): nat
  {
    if c % 2 == 1 then Xor(POLYNOMIAL, c / 2) else c / 2
  }

  /** The bitwise form: n bits of the division. */
  function CrcBits(c: nat, n: nat): nat
    decreases n
  {
    if n == 0 then c else CrcBits(CrcStep(c), n - 1)
  }

  /** The bitwise form for a byte string, on the inverted register. */
  function CrcBytes(c: nat, data: seq<Byte>): nat
  {
    if |data| == 0 then c else CrcBits(Xor(CrcBytes(c, data[..|data| - 1]), data[|data| - 1]), 8)
  }

  function Crc(crc: nat, data: seq<Byte>): nat
  {
    Xor(CrcBytes(Xor(crc, 0xFFFF_FFFF), data), 0xFFFF_FFFF)
  }

  lemma StepLinear(a: nat, b: nat)
    ensures CrcStep(Xor(a, b)) == Xor(CrcStep(a), CrcStep(b))
  {
    hide Xor;
    XorStep(a, b);
    var x, y := a / 2, b / 2;
    XorAssociates(POLYNOMIAL, x, y);
    XorCommutes(POLYNOMIAL, y);
    XorAssociates(x, y, POLYNOMIAL);
    XorCommutes(Xor(x, y), POLYNOMIAL);
    XorShuffle(POLYNOMIAL, x, POLYNOMIAL, y);
    XorSelf(POLYNOMIAL);
    XorZero(Xor(x, y));
  }

  lemma {:induction false} BitsLinear(a: nat, b: nat, n: nat)
    ensures CrcBits(Xor(a, b), n) == Xor(CrcBits(a, n), CrcBits(b, n))
    decreases n
  {
    hide Xor, CrcStep;
    if n > 0 {
      StepLinear(a, b);
      BitsLinear(CrcStep(a), CrcStep(b), n - 1);
    }
  }

  /** Bits above the ones divided are only shifted. */
  lemma {:induction false} BitsShift(h: nat, n: nat)
    ensures CrcBits(h * Pow2(n), n) == h
  {
    hide Pow2, Xor;
    DoubledPower(h, n);
    if n > 0 { BitsShift(h, n - 1); }
  }

  /** The table step: eight bits at once. */
  lemma TableStep(c: nat, b: Byte)
    ensures CrcBits(Xor(c, b), 8) == Xor(c / 256, CrcBits(Xor(c, b) % 256, 8))
  {
    hide Xor, CrcBits, Pow2;
    Pow2Eight();
    var x := Xor(c, b);
    SplitXor(x / 256, x % 256, 8);
    BitsLinear(x / 256 * 256, x % 256, 8);
    BitsShift(x / 256, 8);
    HighBytes(c, b);
  }

  lemma HighBytes(c: nat, b: Byte)
    ensures Xor(c, b) / 256 == c / 256
  {
    hide Xor;
    ShrIsDivision(c);
    ShrIsDivision(b);
    ShrIsDivision(Xor(c, b));
    XorShift(c, b, 8);
    XorZero(c / 256);
  }

  lemma ShrIsDivision(x: nat)
    ensures Shr(x, 8) == x / 256
  {
    ShrStep(x, 0);
    ShrStep(x, 1);
    ShrStep(x, 2);
    ShrStep(x, 3);
    assert Shr(x, 4) == x / 16;
    ShrStep(x, 4);
    ShrStep(x, 5);
    ShrStep(x, 6);
    ShrStep(x, 7);
  }

  method MakeTable() returns (table: array<nat>)
    ensures fresh(table) && table.Length == 256
    ensures forall t :: 0 <= t < 256 ==> table[t] == CrcBits(t, 8)
  {
    hide CrcBits, Xor;
    table := new nat[256];
    for t := 0 to 256
      invariant forall u :: 0 <= u < t ==> table[u] == CrcBits(u, 8)
    {
      var r: nat := t;
      for a := 0 to 8
        invariant forall u :: 0 <= u < t ==> table[u] == CrcBits(u, 8)
        invariant CrcBits(r, 8 - a) == CrcBits(t, 8)
      {
        BitsNext(r, 8 - a);
        r := if r % 2 == 1 then Xor(POLYNOMIAL, r / 2) else r / 2;
      }
      BitsNone(r);
      table[t] := r;
    }
  }

  lemma BitsNext(c: nat, n: nat)
    requires n > 0
    ensures CrcBits(c, n) == CrcBits(CrcStep(c), n - 1)
  {
  }

  lemma BitsNone(c: nat)
    ensures CrcBits(c, 0) == c
  {
  }

  lemma BytesNext(c: nat, data: seq<Byte>, i: nat)
    requires i < |data|
    ensures CrcBytes(c, data[..i + 1]) == CrcBits(Xor(CrcBytes(c, data[..i]), data[i]), 8)
  {
    assert data[..i + 1][..i] == data[..i];
  }

  lemma BytesNone(c: nat, data: seq<Byte>)
    ensures CrcBytes(c, data[..0]) == c && data[..|data|] == data
  {
  }

  /** The source's crc32 of the compression library: the table form computes the bitwise form. */
  method Crc32(crc: nat, data: seq<Byte>, table: array<nat>) returns (r: nat)
    requires table.Length == 256 && forall t :: 0 <= t < 256 ==> table[t] == CrcBits(t, 8)
    ensures r == Crc(crc, data)
  {
    hide CrcBits, CrcBytes, Xor;
    var e := Xor(crc, ALL_ONES);
    ghost var c := e;
    BytesNone(c, data);
    for i := 0 to |data|
      invariant e == CrcBytes(c, data[..i])
    {
      TableStep(e, data[i]);
      BytesNext(c, data, i);
      e := Xor(e / 256, table[Xor(e, data[i]) % 256]);
    }
    r := Xor(ALL_ONES, e);
    XorCommutes(ALL_ONES, e);
  }

  lemma {:induction false} BytesConcat(c: nat, x: seq<Byte>, y: seq<Byte>)
    ensures CrcBytes(c, x + y) == CrcBytes(CrcBytes(c, x), y)
  {
    hide CrcBits, Xor;
    if |y| == 0 {
      assert x + y == x;
    } else {
      assert (x + y)[..|x| + |y| - 1] == x + y[..|y| - 1];
      BytesConcat(c, x, y[..|y| - 1]);
    }
  }

  /** The checksum can be carried over any split of the data. */
  lemma CrcConcat(crc: nat, x: seq<Byte>, y: seq<Byte>)
    ensures Crc(Crc(crc, x), y) == Crc(crc, x + y)
    ensures Crc(crc, []) == crc
  {
    hide CrcBits, Xor;
    BytesConcat(Xor(crc, ALL_ONES), x, y);
    XorCancel(CrcBytes(Xor(crc, ALL_ONES), x), ALL_ONES);
    XorCancel(crc, ALL_ONES);
  }

  // ----- Errors that are detected -----

  lemma TopPowers()
    ensures Pow2(31) == 0x8000_0000 && Pow2(32) == 0x1_0000_0000
  {
    assert Pow2(8) == 256;
    Pow2Add(8, 8);
    Pow2Add(16, 15);
    assert Pow2(15) == 128 * Pow2(8);
    assert Pow2(32) == 2 * Pow2(31);
  }

  /** The top bit of the next register tells whether the polynomial was added. */
  lemma StepTop(c: nat)
    requires c < 0x1_0000_0000
    ensures CrcStep(c) < 0x1_0000_0000 && (GetBit(CrcStep(c), 31) <==> c % 2 == 1)
  {
    hide Xor, Pow2;
    TopPowers();
    ShrShifted(1, POLYNOMIAL - 0x8000_0000, 31);
    ShrSmall(c / 2, 31);
    GetBitXor(POLYNOMIAL, c / 2, 31);
    XorBound(POLYNOMIAL, c / 2, 32);
  }

  lemma StepInjective(a: nat, b: nat)
    requires a < 0x1_0000_0000 && b < 0x1_0000_0000 && CrcStep(a) == CrcStep(b)
    ensures a == b
  {
    hide Xor, GetBit;
    StepTop(a);
    StepTop(b);
    XorCancel(a / 2, POLYNOMIAL);
    XorCancel(b / 2, POLYNOMIAL);
  }

  lemma {:induction false} BitsInjective(a: nat, b: nat, n: nat)
    requires a < 0x1_0000_0000 && b < 0x1_0000_0000
    ensures CrcBits(a, n) < 0x1_0000_0000 && (CrcBits(a, n) == CrcBits(b, n) ==> a == b)
    decreases n
  {
    hide CrcStep, GetBit;
    if n > 0 {
      StepTop(a);
      StepTop(b);
      BitsInjective(CrcStep(a), CrcStep(b), n - 1);
      if CrcStep(a) == CrcStep(b) { StepInjective(a, b); }
    }
  }

  lemma {:induction false} BytesInjective(a: nat, b: nat, data: seq<Byte>)
    requires a < 0x1_0000_0000 && b < 0x1_0000_0000
    ensures CrcBytes(a, data) < 0x1_0000_0000 && CrcBytes(b, data) < 0x1_0000_0000
    ensures CrcBytes(a, data) == CrcBytes(b, data) ==> a == b
  {
    hide CrcBits, Xor, Pow2;
    if |data| > 0 {
      var m := |data| - 1;
      var s, t, d := CrcBytes(a, data[..m]), CrcBytes(b, data[..m]), data[m];
      BytesInjective(a, b, data[..m]);
      TopPowers();
      XorBound(s, d, 32);
      XorBound(t, d, 32);
      BitsInjective(Xor(s, d), Xor(t, d), 8);
      BitsInjective(Xor(t, d), Xor(s, d), 8);
      XorCancel(s, d);
      XorCancel(t, d);
    }
  }

  lemma OneByte(c: nat, b: Byte)
    ensures CrcBytes(c, [b]) == CrcBits(Xor(c, b), 8)
  {
    hide CrcBits, Xor;
    assert [b][..0] == [];
  }

  /** Changing one byte anywhere changes the checksum. */
  lemma ByteErrorDetected(crc: nat, x: seq<Byte>, a: Byte, b: Byte, y: seq<Byte>)
    requires crc < 0x1_0000_0000 && a != b
    ensures Crc(crc, x + [a] + y) != Crc(crc, x + [b] + y)
  {
    hide CrcBits, Xor, CrcBytes, Pow2;
    TopPowers();
    XorBound(crc, ALL_ONES, 32);
    var c := Xor(crc, ALL_ONES);
    BytesInjective(c, c, x);
    var s := CrcBytes(c, x);
    XorBound(s, a, 32);
    XorBound(s, b, 32);
    BitsInjective(Xor(s, a), Xor(s, b), 8);
    BitsInjective(Xor(s, b), Xor(s, a), 8);
    XorCancel(a, s);
    XorCancel(b, s);
    XorCommutes(s, a);
    XorCommutes(s, b);
    OneByte(s, a);
    OneByte(s, b);
    BytesInjective(CrcBytes(s, [a]), CrcBytes(s, [b]), y);
    BytesConcat(c, x, [a]);
    BytesConcat(c, x, [b]);
    BytesConcat(c, x + [a], y);
    BytesConcat(c, x + [b], y);
    XorCancel(CrcBytes(c, x + [a] + y), ALL_ONES);
    XorCancel(CrcBytes(c, x + [b] + y), ALL_ONES);
  }

  // ----- The ZIP library's variant -----

  /** Like Crc, but an empty string has checksum 0 whatever came before. */
  function ChunkCrc(data: seq<Byte>, crc: nat): nat
  {
    if |data| == 0 then 0 else Crc(crc, data)
  }

  /** The checksum that the probe accumulates over the chunks of a file. */
  function Probe(chunks: seq<seq<Byte>>): nat
  {
    if |chunks| == 0 then 0 else ChunkCrc(chunks[|chunks| - 1], Probe(chunks[..|chunks| - 1]))
  }

  /** The chunks after the last empty one. */
  function AfterLastEmpty(chunks: seq<seq<Byte>>): seq<seq<Byte>>
  {
    if |chunks| == 0 || |chunks[|chunks| - 1]| == 0 then []
    else AfterLastEmpty(chunks[..|chunks| - 1]) + [chunks[|chunks| - 1]]
  }

  /** An empty chunk makes the probe forget everything before it. */
  lemma {:induction false} ProbeForgets(chunks: seq<seq<Byte>>)
    ensures Probe(chunks) == Crc(0, Flatten(AfterLastEmpty(chunks)))
  {
    hide Crc;
    CrcConcat(0, [], []);
    if |chunks| > 0 && |chunks[|chunks| - 1]| > 0 {
      var before, last := chunks[..|chunks| - 1], chunks[|chunks| - 1];
      ProbeForgets(before);
      FlattenAppend(AfterLastEmpty(before), last);
      CrcConcat(0, Flatten(AfterLastEmpty(before)), last);
    }
  }

  /** One chunk of the probe: the source's crc32 of the ZIP library. */
  method ChunkChecksum(data: seq<Byte>, crc: nat, table: array<nat>) returns (r: nat)
    requires table.Length == 256 && forall t :: 0 <= t < 256 ==> table[t] == CrcBits(t, 8)
    ensures r == ChunkCrc(data, crc)
  {
    if |data| == 0 { return 0; }
    r := Crc32(crc, data, table);
  }

  /** No empty chunk comes after one that is not empty. */
  predicate EmptyFirst(chunks: seq<seq<Byte>>) {
    forall i, j :: 0 <= i < j < |chunks| && |chunks[j]| == 0 ==> |chunks[i]| == 0
  }

  predicate SameSizes(chunks: seq<seq<Byte>>, other: seq<seq<Byte>>) {
    |chunks| == |other| && forall i :: 0 <= i < |chunks| ==> |chunks[i]| == |other[i]|
  }

  /** The probe computes the checksum of the whole file unless an empty chunk follows content. */
  lemma ProbeIsCrc(chunks: seq<seq<Byte>>)
    requires EmptyFirst(chunks)
    ensures Probe(chunks) == Crc(0, Flatten(chunks))
  {
    hide Crc;
    ProbeForgets(chunks);
    NoneForgotten(chunks);
  }

  lemma {:induction false} NoneForgotten(chunks: seq<seq<Byte>>)
    requires EmptyFirst(chunks)
    ensures Flatten(AfterLastEmpty(chunks)) == Flatten(chunks)
  {
    if |chunks| > 0 {
      var before, last := chunks[..|chunks| - 1], chunks[|chunks| - 1];
      if |last| == 0 {
        AllEmpty(chunks);
      } else {
        NoneForgotten(before);
        FlattenAppend(AfterLastEmpty(before), last);
        FlattenAppend(before, last);
        assert chunks == before + [last];
      }
    }
  }

  lemma {:induction false} AllEmpty(chunks: seq<seq<Byte>>)
    requires forall i :: 0 <= i < |chunks| ==> |chunks[i]| == 0
    ensures Flatten(chunks) == []
  {
    if |chunks| > 0 { AllEmpty(chunks[1..]); }
  }

  /** A chunk of the concatenation, with what comes before and after it. */
  lemma {:induction false} FlattenAround(chunks: seq<seq<Byte>>, i: nat) returns (x: seq<Byte>, y: seq<Byte>)
    requires i < |chunks|
    ensures forall c: seq<Byte> :: Flatten(chunks[i := c]) == x + c + y
  {
    var before, last := chunks[..|chunks| - 1], chunks[|chunks| - 1];
    if i == |chunks| - 1 {
      x, y := Flatten(before), [];
      forall c: seq<Byte> ensures Flatten(chunks[i := c]) == x + c + y {
        assert chunks[i := c] == before + [c];
        FlattenAppend(before, c);
      }
    } else {
      var y';
      x, y' := FlattenAround(before, i);
      y := y' + last;
      forall c: seq<Byte> ensures Flatten(chunks[i := c]) == x + c + y {
        assert chunks[i := c] == before[i := c] + [last];
        FlattenAppend(before[i := c], last);
      }
    }
  }

  /** What lies before an empty chunk does not count. */
  lemma {:induction false} BeforeEmpty(chunks: seq<seq<Byte>>, other: seq<seq<Byte>>, j: nat)
    requires j < |chunks| == |other| && |chunks[j]| == 0 && chunks[j..] == other[j..]
    ensures AfterLastEmpty(chunks) == AfterLastEmpty(other)
  {
    assert other[j] == other[j..][0] == chunks[j..][0] == chunks[j];
    var n := |chunks| - 1;
    assert chunks[n] == chunks[j..][n - j] == other[j..][n - j] == other[n];
    if j < n {
      assert chunks[..n][j..] == chunks[j..][..n - j] == other[j..][..n - j] == other[..n][j..];
      BeforeEmpty(chunks[..n], other[..n], j);
    }
  }

  /** With an empty chunk after content, some content of the same sizes gets a wrong checksum. */
  lemma ProbeFails(chunks: seq<seq<Byte>>, i: nat, j: nat) returns (other: seq<seq<Byte>>)
    requires i < j < |chunks| && |chunks[i]| > 0 && |chunks[j]| == 0
    ensures SameSizes(chunks, other) && Probe(other) != Crc(0, Flatten(other))
  {
    hide Crc, Probe, Flatten, AfterLastEmpty;
    var x, y := FlattenAround(chunks, i);
    var first, rest := chunks[i][0], chunks[i][1..];
    var changed: Byte := if first == 0 then 1 else 0;
    other := chunks[i := [changed] + rest];
    assert [first] + rest == chunks[i];
    assert chunks[i := [first] + rest] == chunks;
    assert chunks[j..] == other[j..];
    BeforeEmpty(chunks, other, j);
    ProbeForgets(chunks);
    ProbeForgets(other);
    assert x + ([first] + rest) + y == x + [first] + (rest + y);
    assert x + ([changed] + rest) + y == x + [changed] + (rest + y);
    ByteErrorDetected(0, x, first, changed, rest + y);
    if Probe(other) == Crc(0, Flatten(other)) { other := chunks; }
  }

  /** Exactly the sizes without an empty chunk after content are safe for all contents. */
  lemma ProbeIsCrcIff(chunks: seq<seq<Byte>>)
    ensures EmptyFirst(chunks)
      <==> forall other :: SameSizes(chunks, other) ==> Probe(other) == Crc(0, Flatten(other))
  {
    hide Crc, Probe, Flatten;
    if EmptyFirst(chunks) {
      forall other | SameSizes(chunks, other) ensures Probe(other) == Crc(0, Flatten(other)) {
        ProbeIsCrc(other);
      }
    } else {
      var i, j :| 0 <= i < j < |chunks| && |chunks[j]| == 0 && |chunks[i]| != 0;
      var other := ProbeFails(chunks, i, j);
    }
  }
}

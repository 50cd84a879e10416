/**
 The Reed-Solomon encoder: the generator polynomial and the remainder of the data under
 division by it. Polynomials are byte sequences, highest power first.
 */
module ReedSolomon {
  import opened Bits
  import opened GaloisField
  import opened Results

  type Poly = seq<Byte>

  /** The value of the polynomial at x, by Horner's rule. */
  function Eval(p: Poly, x: Byte): Byte
  {
    if |p| == 0 then 0 else Add(Mul(Eval(p[..|p| - 1], x), x), p[|p| - 1])
  }

  function AddPoly(p: Poly, q: Poly): (r: Poly)
    requires |p| == |q|
    ensures |r| == |p|
  {
    seq(|p|, i requires 0 <= i < |p| => Add(p[i], q[i]))
  }

  function Scale(p: Poly, c: Byte): (r: Poly)
    ensures |r| == |p|
  {
    seq(|p|, i requires 0 <= i < |p| => Mul(p[i], c))
  }

  function Zeros(n: nat): (r: Poly)
    ensures |r| == n
  {
    seq(n, _ => 0)
  }

  lemma EvalAppend(p: Poly, b: Byte, x: Byte)
    ensures Eval(p + [b], x) == Add(Mul(Eval(p, x), x), b)
  {
    assert (p + [b])[..|p|] == p;
  }

  lemma {:induction false} EvalAdd(p: Poly, q: Poly, x: Byte)
    requires |p| == |q|
    ensures Eval(AddPoly(p, q), x) == Add(Eval(p, x), Eval(q, x))
  {
    hide Add, Mul;
    if |p| == 0 {
      AddZero(0);
    } else {
      var p', q' := p[..|p| - 1], q[..|p| - 1];
      assert AddPoly(p, q)[..|p| - 1] == AddPoly(p', q');
      EvalAdd(p', q', x);
      MulDistributes(Eval(p', x), Eval(q', x), x);
      AddShuffle(Mul(Eval(p', x), x), Mul(Eval(q', x), x), p[|p| - 1], q[|p| - 1]);
    }
  }

  lemma {:induction false} EvalScale(p: Poly, c: Byte, x: Byte)
    ensures Eval(Scale(p, c), x) == Mul(Eval(p, x), c)
  {
    hide Add, Mul;
    if |p| == 0 {
      MulZero(c);
    } else {
      var p' := p[..|p| - 1];
      var b := p[|p| - 1];
      assert Scale(p, c)[..|p| - 1] == Scale(p', c);
      EvalScale(p', c, x);
      var v := Eval(p', x);
      MulAssociates(v, c, x);
      MulCommutes(c, x);
      MulAssociates(v, x, c);
      MulDistributes(Mul(v, x), b, c);
    }
  }

  lemma {:induction false} EvalLeadingZeros(n: nat, p: Poly, x: Byte)
    ensures Eval(Zeros(n) + p, x) == Eval(p, x)
  {
    hide Add, Mul;
    if |p| > 0 {
      var p' := p[..|p| - 1];
      assert (Zeros(n) + p)[..n + |p| - 1] == Zeros(n) + p';
      EvalLeadingZeros(n, p', x);
    } else if n > 0 {
      assert Zeros(n) + p == Zeros(n - 1) + p + [0];
      EvalLeadingZeros(n - 1, p, x);
      EvalAppend(Zeros(n - 1) + p, 0, x);
      MulZero(x);
      AddZero(0);
    } else {
      assert Zeros(n) + p == p;
    }
  }

  // ----- The generator polynomial -----

  /** The value at x of (x - 2^0)(x - 2^1)...(x - 2^(n-1)). */
  function RootProduct(n: nat, x: Byte): Byte
  {
    if n == 0 then 1 else Mul(RootProduct(n - 1, x), Add(x, Alpha(n - 1)))
  }

  /** One round of the source's product loop: multiply by (x - root), keep the length. */
  function TimesRoot(p: Poly, root: Byte): (r: Poly)
    ensures |r| == |p|
  {
    seq(|p|, j requires 0 <= j < |p| =>
      if j + 1 < |p| then Add(Mul(p[j], root), p[j + 1]) else Mul(p[j], root))
  }

  /** The coefficient array after n rounds. */
  function DivisorRound(degree: nat, n: nat): (r: Poly)
    requires degree >= 1
    ensures |r| == degree
  {
    if n == 0 then Zeros(degree - 1) + [1] else TimesRoot(DivisorRound(degree, n - 1), Alpha(n - 1))
  }

  function Divisor(degree: nat): (r: Poly)
    requires degree >= 1
    ensures |r| == degree
  {
    DivisorRound(degree, degree)
  }

  /** Multiplying by (x - root) without dropping the leading coefficient. */
  lemma TimesRootValue(p: Poly, root: Byte, x: Byte)
    requires |p| > 0
    ensures Eval([p[0]] + TimesRoot(p, root), x) == Mul(Eval(p, x), Add(x, root))
  {
    hide Add, Mul, Eval;
    AddZero(p[0]);
    AddZero(Mul(p[|p| - 1], root));
    var left, right := [p[0]] + TimesRoot(p, root), AddPoly(p + [0], Zeros(1) + Scale(p, root));
    forall j | 0 <= j < |left| ensures left[j] == right[j] {
      if 0 < j { AddCancel(Mul(p[j - 1], root), (p + [0])[j]); }
    }
    assert left == right;
    EvalAdd(p + [0], Zeros(1) + Scale(p, root), x);
    EvalAppend(p, 0, x);
    AddZero(Mul(Eval(p, x), x));
    EvalLeadingZeros(1, Scale(p, root), x);
    EvalScale(p, root, x);
    MulDistributes(x, root, Eval(p, x));
  }

  lemma {:induction false} DivisorRoundShape(degree: nat, n: nat)
    requires n < degree
    ensures forall j :: 0 <= j < degree - 1 - n ==> DivisorRound(degree, n)[j] == 0
    ensures DivisorRound(degree, n)[degree - 1 - n] == 1
  {
    hide TimesRoot, Alpha;
    if n > 0 {
      DivisorRoundShape(degree, n - 1);
      TimesRootShape(DivisorRound(degree, n - 1), Alpha(n - 1), degree - n);
    }
  }

  /** The leading 1 moves one place to the left. */
  lemma TimesRootShape(p: Poly, root: Byte, d: nat)
    requires 1 <= d < |p| && p[d] == 1 && forall j :: 0 <= j < d ==> p[j] == 0
    ensures TimesRoot(p, root)[d - 1] == 1 && forall j :: 0 <= j < d - 1 ==> TimesRoot(p, root)[j] == 0
  {
    hide Add, Mul;
    MulZero(root);
    AddZero(0);
    AddZero(1);
  }

  lemma EvalConstant(b: Byte, x: Byte)
    ensures Eval([b], x) == b
  {
    hide Add, Mul;
    assert [b][..0] == [];
    MulZero(x);
    AddZero(b);
  }

  lemma {:induction false} DivisorRoundValue(degree: nat, n: nat, x: Byte)
    requires n < degree
    ensures Eval(DivisorRound(degree, n), x) == RootProduct(n, x)
  {
    hide Add, Mul, Eval, Alpha, TimesRoot;
    if n == 0 {
      EvalLeadingZeros(degree - 1, [1], x);
      EvalConstant(1, x);
    } else {
      var p := DivisorRound(degree, n - 1);
      DivisorRoundValue(degree, n - 1, x);
      DivisorRoundShape(degree, n - 1);
      TimesRootValue(p, Alpha(n - 1), x);
      assert [p[0]] == Zeros(1);
      EvalLeadingZeros(1, TimesRoot(p, Alpha(n - 1)), x);
    }
  }

  /** With its leading 1 restored, the divisor is the product of (x - 2^i) for i below the degree. */
  lemma DivisorIsProduct(degree: nat, x: Byte)
    requires degree >= 1
    ensures Eval([1] + Divisor(degree), x) == RootProduct(degree, x)
  {
    hide Add, Mul, Eval, TimesRoot;
    DivisorRoundShape(degree, degree - 1);
    DivisorRoundValue(degree, degree - 1, x);
    TimesRootValue(DivisorRound(degree, degree - 1), Alpha(degree - 1), x);
  }

  lemma {:induction false} RootProductRoots(n: nat, i: nat)
    requires i < n
    ensures RootProduct(n, Alpha(i)) == 0
  {
    hide Add, Mul;
    if i == n - 1 {
      AddZero(Alpha(i));
      MulZero(RootProduct(n - 1, Alpha(i)));
    } else {
      RootProductRoots(n - 1, i);
      MulZero(Add(Alpha(i), Alpha(n - 1)));
    }
  }

  // ----- The remainder -----

  /** One step of the source's polynomial division. */
  function RemainderStep(state: Poly, b: Byte, divisor: Poly): (r: Poly)
    requires |state| == |divisor| > 0
    ensures |r| == |divisor|
  {
    AddPoly(state[1..] + [0], Scale(divisor, Add(b, state[0])))
  }

  function Remainder(data: Poly, divisor: Poly): (r: Poly)
    requires |divisor| > 0
    ensures |r| == |divisor|
  {
    if |data| == 0 then Zeros(|divisor|)
    else RemainderStep(Remainder(data[..|data| - 1], divisor), data[|data| - 1], divisor)
  }

  /** The data followed by its remainder vanishes wherever the divisor does. */
  lemma {:induction false} RemainderKeepsRoots(data: Poly, divisor: Poly, x: Byte)
    requires |divisor| > 0 && Eval([1] + divisor, x) == 0
    ensures Eval(data + Remainder(data, divisor), x) == 0
  {
    hide Add, Mul, Eval;
    if |data| == 0 {
      assert data + Remainder(data, divisor) == Zeros(|divisor|) + [];
      EvalLeadingZeros(|divisor|, [], x);
      EvalEmpty(x);
    } else {
      var d, b := data[..|data| - 1], data[|data| - 1];
      var s := Remainder(d, divisor);
      var factor := Add(b, s[0]);
      RemainderKeepsRoots(d, divisor, x);
      var shifted, multiple := d + s + [0], Zeros(|d|) + Scale([1] + divisor, factor);
      DivisionStepIsAddition(data, divisor);
      EvalAdd(shifted, multiple, x);
      EvalAppend(d + s, 0, x);
      EvalLeadingZeros(|d|, Scale([1] + divisor, factor), x);
      EvalScale([1] + divisor, factor, x);
      MulZero(x);
      MulZero(factor);
      AddZero(0);
    }
  }

  lemma EvalEmpty(x: Byte)
    ensures Eval([], x) == 0
  {
  }

  /** A division step adds a multiple of the divisor to the codeword built so far. */
  lemma DivisionStepIsAddition(data: Poly, divisor: Poly)
    requires |divisor| > 0 && |data| > 0
    ensures var d, b := data[..|data| - 1], data[|data| - 1];
            var s := Remainder(d, divisor);
            data + Remainder(data, divisor)
            == AddPoly(d + s + [0], Zeros(|d|) + Scale([1] + divisor, Add(b, s[0])))
  {
    hide Add, Mul;
    var d, b := data[..|data| - 1], data[|data| - 1];
    var s := Remainder(d, divisor);
    var factor := Add(b, s[0]);
    var left := data + Remainder(data, divisor);
    var shifted, multiple := d + s + [0], Zeros(|d|) + Scale([1] + divisor, factor);
    OneMul(factor);
    AddCancel(s[0], b);
    AddCancel(b, s[0]);
    forall i | 0 <= i < |left| ensures left[i] == Add(shifted[i], multiple[i]) {
      if i < |d| {
        AddZero(d[i]);
      } else if i > |d| {
        assert shifted[i] == (s[1..] + [0])[i - |d| - 1];
      }
    }
    assert left == AddPoly(shifted, multiple);
  }

  /** A data block followed by its error correction bytes. */
  function Codeword(data: Poly, degree: nat): (c: Poly)
    requires degree >= 1
    ensures |c| == |data| + degree
  {
    data + Remainder(data, Divisor(degree))
  }

  /** Every codeword, of any length, has the roots 2^0 .. 2^(degree-1). */
  lemma CodewordRoots(data: Poly, degree: nat, i: nat)
    requires i < degree
    ensures Eval(Codeword(data, degree), Alpha(i)) == 0
  {
    DivisorIsProduct(degree, Alpha(i));
    RootProductRoots(degree, i);
    RemainderKeepsRoots(data, Divisor(degree), Alpha(i));
  }

  // ----- Minimum distance -----

  function Power(x: Byte, n: nat): Byte
  {
    if n == 0 then 1 else Mul(Power(x, n - 1), x)
  }

  /** Raising 2^m to the n-th power is symmetric in m and n. */
  lemma {:induction false} AlphaPower(m: nat, n: nat)
    ensures Power(Alpha(m), n) == Alpha(m * n)
  {
    hide Mul, Alpha;
    if n == 0 {
      AlphaZero();
      assert m * n == 0;
    } else {
      AlphaPower(m, n - 1);
      assert m * n == m * (n - 1) + m;
      AlphaAdd(m * (n - 1), m);
    }
  }

  /** The j-th power sum of e, in which the k-th byte from the end stands at 2^k. */
  function Syndrome(e: Poly, j: nat): Byte
  {
    if |e| == 0 then 0 else Add(Mul(e[0], Power(Alpha(|e| - 1), j)), Syndrome(e[1..], j))
  }

  lemma {:induction false} EvalPrepend(b: Byte, p: Poly, x: Byte)
    ensures Eval([b] + p, x) == Add(Mul(b, Power(x, |p|)), Eval(p, x))
  {
    hide Add, Mul;
    if |p| == 0 {
      assert [b] + p == [b] && [b][..0] == [];
      MulZero(x);
      AddZero(b);
      MulCommutes(b, 1);
      OneMul(b);
    } else {
      var p', c := p[..|p| - 1], p[|p| - 1];
      assert ([b] + p)[..|p|] == [b] + p';
      EvalPrepend(b, p', x);
      MulDistributes(Mul(b, Power(x, |p'|)), Eval(p', x), x);
      MulAssociates(b, Power(x, |p'|), x);
      AddAssociates(Mul(b, Power(x, |p|)), Mul(Eval(p', x), x), c);
    }
  }

  /** Evaluating at 2^j is taking the j-th power sum. */
  lemma {:induction false} EvalIsSyndrome(e: Poly, j: nat)
    ensures Eval(e, Alpha(j)) == Syndrome(e, j)
  {
    hide Add, Mul, Power, Alpha;
    if |e| > 0 {
      assert [e[0]] + e[1..] == e;
      EvalPrepend(e[0], e[1..], Alpha(j));
      AlphaPower(j, |e| - 1);
      AlphaPower(|e| - 1, j);
      EvalIsSyndrome(e[1..], j);
    }
  }

  function Weight(e: Poly): nat
  {
    if |e| == 0 then 0 else (if e[0] == 0 then 0 else 1) + Weight(e[1..])
  }

  /** Every byte of e multiplied by the distance of its position from c. */
  function Eliminated(e: Poly, c: Byte): (r: Poly)
    ensures |r| == |e|
  {
    if |e| == 0 then [] else [Mul(e[0], Add(Alpha(|e| - 1), c))] + Eliminated(e[1..], c)
  }

  lemma {:induction false} EliminatedWeight(e: Poly, c: Byte)
    ensures Weight(Eliminated(e, c)) <= Weight(e)
  {
    hide Add, Mul, Alpha;
    if |e| > 0 {
      EliminatedWeight(e[1..], c);
      MulZero(Add(Alpha(|e| - 1), c));
      assert Eliminated(e, c)[1..] == Eliminated(e[1..], c);
    }
  }

  /** The power sums of the eliminated bytes are combinations of two neighbouring ones. */
  lemma {:induction false} EliminatedSyndrome(e: Poly, c: Byte, j: nat)
    ensures Syndrome(Eliminated(e, c), j) == Add(Syndrome(e, j + 1), Mul(c, Syndrome(e, j)))
  {
    hide Add, Mul, Alpha;
    if |e| == 0 {
      MulZero(c);
      AddZero(0);
    } else {
      var x, rest := Alpha(|e| - 1), e[1..];
      assert Eliminated(e, c)[1..] == Eliminated(rest, c);
      EliminatedSyndrome(rest, c, j);
      EliminatedTerm(e[0], x, c, Power(x, j));
      var t, u := Mul(e[0], Power(x, j)), Mul(e[0], Power(x, j + 1));
      MulDistributes(t, Syndrome(rest, j), c);
      AddShuffle(u, Mul(c, t), Syndrome(rest, j + 1), Mul(c, Syndrome(rest, j)));
    }
  }

  lemma EliminatedTerm(b: Byte, x: Byte, c: Byte, p: Byte)
    ensures Mul(Mul(b, Add(x, c)), p) == Add(Mul(b, Mul(p, x)), Mul(c, Mul(b, p)))
  {
    hide Add, Mul;
    MulAssociates(b, Add(x, c), p);
    MulCommutes(Add(x, c), p);
    MulDistributes(x, c, p);
    MulDistributes(Mul(p, x), Mul(p, c), b);
    MulAssociates(b, p, c);
    MulCommutes(Mul(b, p), c);
  }

  /** If what is left after elimination is zero, so was everything but the eliminated byte. */
  lemma {:induction false} EliminatedZero(e: Poly, m: nat)
    requires |e| <= m < 255
    requires Eliminated(e, Alpha(m)) == Zeros(|e|)
    ensures e == Zeros(|e|)
  {
    hide Add, Mul, Alpha;
    if |e| > 0 {
      assert Eliminated(e, Alpha(m))[1..] == Eliminated(e[1..], Alpha(m));
      assert Zeros(|e|)[1..] == Zeros(|e| - 1);
      EliminatedZero(e[1..], m);
      assert e == [e[0]] + e[1..];
      AlphaDistinct(|e| - 1, m);
      AddIsZero(Alpha(|e| - 1), Alpha(m));
      assert Eliminated(e, Alpha(m))[0] == 0;
      if e[0] != 0 {
        MulNonzero(e[0], Add(Alpha(|e| - 1), Alpha(m)));
      }
      assert forall i :: 0 <= i < |e| ==> e[i] == 0;
    }
  }

  /** A word of at most d nonzero bytes whose first d power sums vanish is zero. */
  lemma {:induction false} FewErrorsShow(e: Poly, d: nat)
    requires |e| <= 255 && Weight(e) <= d
    requires forall j :: 0 <= j < d ==> Syndrome(e, j) == 0
    ensures e == Zeros(|e|)
    decreases |e|
  {
    hide Add, Mul, Alpha;
    if |e| > 0 {
      var rest, x := e[1..], Alpha(|e| - 1);
      if e[0] == 0 {
        forall j | 0 <= j < d ensures Syndrome(rest, j) == 0 {
          MulZero(Power(x, j));
          AddZero(Syndrome(rest, j));
          assert Syndrome(e, j) == 0;
        }
        FewErrorsShow(rest, d);
        assert e == [0] + rest;
      } else {
        forall j | 0 <= j < d - 1 ensures Syndrome(Eliminated(rest, x), j) == 0 {
          SyndromeStep(e, j);
        }
        EliminatedWeight(rest, x);
        FewErrorsShow(Eliminated(rest, x), d - 1);
        EliminatedZero(rest, |e| - 1);
        LoneByteIsSyndrome(e);
      }
    }
  }

  lemma LoneByteIsSyndrome(e: Poly)
    requires |e| > 0 && e[1..] == Zeros(|e| - 1)
    ensures Syndrome(e, 0) == e[0]
  {
    hide Add, Mul, Alpha;
    SyndromeOfZeros(|e| - 1);
    MulCommutes(e[0], 1);
    OneMul(e[0]);
    AddZero(e[0]);
  }

  lemma SyndromeStep(e: Poly, j: nat)
    requires |e| > 0 && Syndrome(e, j) == 0 && Syndrome(e, j + 1) == 0
    ensures Syndrome(Eliminated(e[1..], Alpha(|e| - 1)), j) == 0
  {
    hide Add, Mul, Alpha;
    var rest, x := e[1..], Alpha(|e| - 1);
    EliminatedSyndrome(rest, x, j);
    var p := Power(x, j);
    AddIsZero(Mul(e[0], p), Syndrome(rest, j));
    AddIsZero(Mul(e[0], Mul(p, x)), Syndrome(rest, j + 1));
    MulAssociates(e[0], p, x);
    MulCommutes(Mul(e[0], p), x);
    AddZero(Syndrome(rest, j + 1));
  }

  lemma {:induction false} SyndromeOfZeros(n: nat)
    ensures Syndrome(Zeros(n), 0) == 0
  {
    hide Add, Mul, Alpha;
    if n > 0 {
      assert Zeros(n)[1..] == Zeros(n - 1);
      SyndromeOfZeros(n - 1);
      MulZero(1);
      AddZero(0);
    }
  }

  /** The number of positions at which two words differ. */
  function Distance(p: Poly, q: Poly): nat
    requires |p| == |q|
  {
    if |p| == 0 then 0 else (if p[0] == q[0] then 0 else 1) + Distance(p[1..], q[1..])
  }

  lemma {:induction false} DistanceIsWeight(p: Poly, q: Poly)
    requires |p| == |q|
    ensures Distance(p, q) == Weight(AddPoly(p, q))
  {
    hide Add;
    if |p| > 0 {
      AddIsZero(p[0], q[0]);
      assert AddPoly(p, q)[1..] == AddPoly(p[1..], q[1..]);
      DistanceIsWeight(p[1..], q[1..]);
    }
  }

  lemma CloseCodewordsAgree(a: Poly, b: Poly, degree: nat)
    requires |a| == |b| && degree >= 1 && |a| + degree <= 255
    requires Distance(Codeword(a, degree), Codeword(b, degree)) <= degree
    ensures a == b
  {
    hide Add, Mul, Alpha, Remainder, Divisor, Eval, Syndrome, Distance, Weight;
    var c, d := Codeword(a, degree), Codeword(b, degree);
    var e := AddPoly(c, d);
    DistanceIsWeight(c, d);
    forall j | 0 <= j < degree ensures Syndrome(e, j) == 0 {
      CodewordRoots(a, degree, j);
      CodewordRoots(b, degree, j);
      EvalAdd(c, d, Alpha(j));
      EvalIsSyndrome(e, j);
      AddZero(0);
    }
    FewErrorsShow(e, degree);
    forall i | 0 <= i < |a| ensures a[i] == b[i] {
      assert e[i] == 0;
      AddIsZero(a[i], b[i]);
    }
  }

  /** Two different data blocks of one length get codewords that differ in more than `degree` bytes. */
  lemma MinimumDistance(a: Poly, b: Poly, degree: nat)
    requires |a| == |b| && a != b && degree >= 1 && |a| + degree <= 255
    ensures Distance(Codeword(a, degree), Codeword(b, degree)) > degree
  {
    if Distance(Codeword(a, degree), Codeword(b, degree)) <= degree {
      CloseCodewordsAgree(a, b, degree);
    }
  }

  lemma {:induction false} DistanceTriangle(p: Poly, q: Poly, r: Poly)
    requires |p| == |q| == |r|
    ensures Distance(p, r) <= Distance(p, q) + Distance(r, q)
  {
    if |p| > 0 { DistanceTriangle(p[1..], q[1..], r[1..]); }
  }

  /** A received word within half the degree of two codewords determines the data. */
  lemma CorrectionIsUnique(received: Poly, a: Poly, b: Poly, degree: nat)
    requires |a| == |b| && degree >= 1 && |a| + degree <= 255 && |received| == |a| + degree
    requires 2 * Distance(Codeword(a, degree), received) <= degree
    requires 2 * Distance(Codeword(b, degree), received) <= degree
    ensures a == b
  {
    DistanceTriangle(Codeword(a, degree), received, Codeword(b, degree));
    CloseCodewordsAgree(a, b, degree);
  }

  // ----- The loops of the source -----

  /** The inner loop of the divisor computation, in place. */
  method MultiplyByRoot(result: array<Byte>, root: Byte)
    modifies result
    ensures result[..] == TimesRoot(old(result[..]), root)
  {
    hide Add, Mul;
    ghost var p := result[..];
    for j := 0 to result.Length
      invariant forall k :: 0 <= k < j ==> result[k] == TimesRoot(p, root)[k]
      invariant forall k :: j <= k < result.Length ==> result[k] == p[k]
    {
      var product := ReedSolomonMultiply(result[j], root);
      result[j] := product;
      if j + 1 < result.Length {
        result[j] := Add(result[j], result[j + 1]);
      }
    }
  }

  method ComputeDivisor(degree: int) returns (r: Result<Poly>)
    ensures degree < 1 || degree > 255 ==> r.Err?
    ensures 1 <= degree <= 255 ==> r == Ok(Divisor(degree))
  {
    hide Add, Mul, Double, TimesRoot;
    if degree < 1 || degree > 255 {
      return Err("Degree out of range");
    }
    var result := new Byte[degree](_ => 0);
    result[degree - 1] := 1;
    assert result[..] == DivisorRound(degree, 0);
    var root: Byte := 1;
    for i := 0 to degree
      invariant root == Alpha(i)
      invariant result[..] == DivisorRound(degree, i)
    {
      MultiplyByRoot(result, root);
      root := ReedSolomonMultiply(root, 2);
      MulByTwo(Alpha(i));
    }
    r := Ok(result[..]);
  }

  method ComputeRemainder(data: Poly, divisor: Poly) returns (result: Poly)
    requires |divisor| > 0
    ensures result == Remainder(data, divisor)
  {
    result := Zeros(|divisor|);
    for n := 0 to |data|
      invariant result == Remainder(data[..n], divisor)
    {
      hide Add, Mul;
      ghost var before := result;
      var factor := Add(data[n], result[0]);
      result := result[1..];
      result := result + [0];
      ghost var shifted := result;
      for i := 0 to |divisor|
        invariant |result| == |divisor|
        invariant forall k :: 0 <= k < i ==> result[k] == RemainderStep(before, data[n], divisor)[k]
        invariant forall k :: i <= k < |divisor| ==> result[k] == shifted[k]
      {
        var product := ReedSolomonMultiply(divisor[i], factor);
        result := result[i := Add(result[i], product)];
      }
      assert result == RemainderStep(before, data[n], divisor);
      assert data[..n + 1][..n] == data[..n];
    }
    assert data[..|data|] == data;
  }
}

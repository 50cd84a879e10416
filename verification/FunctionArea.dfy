/**
 All function patterns of a version together, and the number of cells they leave for data.
 */
module FunctionArea {
  import opened Grids
  import opened Patterns
  import opened Tables
  import opened Zigzag

  function SizeOf(ver: nat): (size: nat)
    requires IsVersion(ver)
    ensures IsSize(size)
  {
    4 * ver + 17
  }

  // ----- Alignment pattern centres -----

  function NumAlign(ver: nat): nat
  {
    ver / 7 + 2
  }

  /** The source's rounded-up, doubled distance between centres; version 32 is special. */
  function AlignStep(ver: nat): nat
    requires IsVersion(ver)
  {
    if ver == 32 then 26
    else
      var d := 2 * NumAlign(ver) - 2;
      (SizeOf(ver) - 13 + d - 1) / d * 2
  }

  function CentreAt(ver: nat, i: int): int
    requires IsVersion(ver)
  {
    if i == 0 then 6 else SizeOf(ver) - 7 - (NumAlign(ver) - 1 - i) * AlignStep(ver)
  }

  /** The centre coordinates: 6, then equal steps that end at size - 7. */
  function Centres(ver: nat): (ps: seq<int>)
    requires IsVersion(ver)
    ensures ver >= 2 ==> |ps| == NumAlign(ver)
  {
    if ver == 1 then [] else seq(NumAlign(ver), i => CentreAt(ver, i))
  }

  method GetAlignmentPatternPositions(ver: nat) returns (result: seq<int>)
    requires IsVersion(ver)
    ensures result == Centres(ver)
  {
    if ver == 1 {
      return [];
    }
    var size := ver * 4 + 17;
    var numAlign := ver / 7 + 2;
    var step := if ver == 32 then 26 else (size - 13 + (numAlign * 2 - 2) - 1) / (numAlign * 2 - 2) * 2;
    assert step == AlignStep(ver);
    result := [6];
    var pos := size - 7;
    while |result| < numAlign
      invariant 1 <= |result| <= numAlign && result[0] == 6
      invariant pos == size - 7 - (|result| - 1) * step
      invariant result[1..] == Centres(ver)[numAlign - |result| + 1..]
    {
      ghost var before := result;
      result := result[..1] + [pos] + result[1..];
      ghost var k, i := |before| - 1, numAlign - |before|;
      assert numAlign - 1 - i == k && (k + 1) * step == k * step + step;
      assert Centres(ver)[i] == CentreAt(ver, i) == pos;
      pos := pos - step;
    }
  }

  /** What the drawing and the count need of the centres. */
  ghost predicate WellSpaced(ps: seq<int>, size: nat)
  {
    && |ps| >= 2 && ps[0] == 6 && ps[|ps| - 1] == size - 7
    && forall i :: 0 <= i < |ps| - 1 ==> ps[i] + 8 <= ps[i + 1]
  }

  lemma StepBounds(ver: nat)
    requires 2 <= ver <= 40
    ensures AlignStep(ver) >= 8
    ensures 6 + 8 <= SizeOf(ver) - 7 - (NumAlign(ver) - 2) * AlignStep(ver)
  {
    if ver < 7 { assert NumAlign(ver) == 2; }
    else if ver < 14 { assert NumAlign(ver) == 3; }
    else if ver < 21 { assert NumAlign(ver) == 4; }
    else if ver < 28 { assert NumAlign(ver) == 5; }
    else if ver < 35 { assert NumAlign(ver) == 6; }
    else { assert NumAlign(ver) == 7; }
  }

  lemma CentresWellSpaced(ver: nat)
    requires 2 <= ver <= 40
    ensures WellSpaced(Centres(ver), SizeOf(ver))
  {
    hide AlignStep;
    StepBounds(ver);
    var ps, n, step := Centres(ver), NumAlign(ver), AlignStep(ver);
    forall i | 0 <= i < n - 1 ensures ps[i] + 8 <= ps[i + 1] {
      assert (n - 1 - i) * step == (n - 1 - (i + 1)) * step + step;
    }
  }

  /** The distance between centres, after the first, by the table in annex E of the standard. */
  function Distance(ver: nat): nat
  {
    match ver
    case 2 => 12 case 3 => 16 case 4 => 20 case 5 => 24 case 6 => 28
    case 7 => 16 case 8 => 18 case 9 => 20 case 10 => 22 case 11 => 24 case 12 => 26 case 13 => 28
    case 14 => 20 case 15 => 22 case 16 => 24 case 17 => 24 case 18 => 26 case 19 => 28 case 20 => 28
    case 21 => 22 case 22 => 24 case 23 => 24 case 24 => 26 case 25 => 26 case 26 => 28 case 27 => 28
    case 28 => 24 case 29 => 24 case 30 => 26 case 31 => 26 case 32 => 26 case 33 => 28 case 34 => 28
    case 35 => 24 case 36 => 26 case 37 => 26 case 38 => 26 case 39 => 28 case 40 => 28
    case _ => 0
  }

  lemma TwoSteps(ver: nat)
    requires 2 <= ver <= 6
    ensures AlignStep(ver) == Distance(ver)
  {
    match ver { case 2 => case 3 => case 4 => case 5 => case 6 => }
  }

  lemma ThreeSteps(ver: nat)
    requires 7 <= ver <= 13
    ensures AlignStep(ver) == Distance(ver)
  {
    match ver { case 7 => case 8 => case 9 => case 10 => case 11 => case 12 => case 13 => }
  }

  lemma FourSteps(ver: nat)
    requires 14 <= ver <= 20
    ensures AlignStep(ver) == Distance(ver)
  {
    match ver { case 14 => case 15 => case 16 => case 17 => case 18 => case 19 => case 20 => }
  }

  lemma FiveSteps(ver: nat)
    requires 21 <= ver <= 27
    ensures AlignStep(ver) == Distance(ver)
  {
    match ver { case 21 => case 22 => case 23 => case 24 => case 25 => case 26 => case 27 => }
  }

  lemma SixSteps(ver: nat)
    requires 28 <= ver <= 34
    ensures AlignStep(ver) == Distance(ver)
  {
    match ver { case 28 => case 29 => case 30 => case 31 => case 32 => case 33 => case 34 => }
  }

  lemma SevenSteps(ver: nat)
    requires 35 <= ver <= 40
    ensures AlignStep(ver) == Distance(ver)
  {
    match ver { case 35 => case 36 => case 37 => case 38 => case 39 => case 40 => }
  }

  /** The source's rule yields the standard's table: 6 in front, and the others end at size - 7. */
  lemma CentresAreStandard(ver: nat)
    requires 2 <= ver <= 40
    ensures var ps, n := Centres(ver), ver / 7 + 2;
            && |ps| == n && ps[0] == 6 && ps[n - 1] == 4 * ver + 10
            && forall i :: 1 <= i < n - 1 ==> ps[i + 1] == ps[i] + Distance(ver)
  {
    hide AlignStep, Distance;
    if ver <= 6 { TwoSteps(ver); }
    else if ver <= 13 { ThreeSteps(ver); }
    else if ver <= 20 { FourSteps(ver); }
    else if ver <= 27 { FiveSteps(ver); }
    else if ver <= 34 { SixSteps(ver); }
    else { SevenSteps(ver); }
    var ps, n, step := Centres(ver), NumAlign(ver), AlignStep(ver);
    forall i | 1 <= i < n - 1 ensures ps[i + 1] == ps[i] + Distance(ver) {
      assert (n - 1 - i) * step == (n - 1 - (i + 1)) * step + step;
    }
  }

  // ----- Drawing -----

  predicate IsCorner(i: int, j: int, n: int)
  {
    (i == 0 && j == 0) || (i == 0 && j == n - 1) || (i == n - 1 && j == 0)
  }

  /** The first j alignment patterns of row i, finder corners left out. */
  function AlignRow(ps: seq<int>, i: nat, j: nat): Layer
    requires i < |ps| && j <= |ps|
  {
    if j == 0 then Blank
    else if IsCorner(i, j - 1, |ps|) then AlignRow(ps, i, j - 1)
    else Over(Alignment(ps[i], ps[j - 1]), AlignRow(ps, i, j - 1))
  }

  function AlignRows(ps: seq<int>, i: nat): Layer
    requires i <= |ps|
  {
    if i == 0 then Blank else Over(AlignRow(ps, i - 1, |ps|), AlignRows(ps, i - 1))
  }

  function FinderLayer(size: nat): Layer
  {
    Over(Finder(3, size - 4), Over(Finder(size - 4, 3), Over(Finder(3, 3), Timing)))
  }

  function VersionLayer(ver: nat): Layer
  {
    if ver < 7 then Blank else Version(VersionWord(ver))
  }

  /** Everything drawFunctionPatterns paints, later steps over earlier ones. */
  function FunctionLayer(ver: nat, ecl: Ecc): Layer
    requires IsVersion(ver)
  {
    Over(VersionLayer(ver),
      Over(Format(FormatWord(ecl.FormatBits(), 0)),
        Over(AlignRows(Centres(ver), |Centres(ver)|), FinderLayer(SizeOf(ver)))))
  }

  method DrawFinders(canvas: Canvas)
    requires canvas.Valid()
    modifies canvas.modules, canvas.isFunction
    ensures Overlay(old(canvas.Colours()), old(canvas.Functions()), canvas.Colours(), canvas.Functions(),
      FinderLayer(canvas.size), canvas.size)
  {
    hide At, Colour;
    ghost var m0, f0 := canvas.Colours(), canvas.Functions();
    canvas.DrawTiming();
    ghost var m1, f1 := canvas.Colours(), canvas.Functions();
    canvas.DrawFinderPattern(3, 3);
    ghost var m2, f2 := canvas.Colours(), canvas.Functions();
    OverlayTwice(m0, f0, m1, f1, m2, f2, Timing, Finder(3, 3), canvas.size);
    canvas.DrawFinderPattern(canvas.size - 4, 3);
    ghost var m3, f3 := canvas.Colours(), canvas.Functions();
    OverlayTwice(m0, f0, m2, f2, m3, f3, Over(Finder(3, 3), Timing), Finder(canvas.size - 4, 3), canvas.size);
    canvas.DrawFinderPattern(3, canvas.size - 4);
    OverlayTwice(m0, f0, m3, f3, canvas.Colours(), canvas.Functions(),
      Over(Finder(canvas.size - 4, 3), Over(Finder(3, 3), Timing)), Finder(3, canvas.size - 4), canvas.size);
  }

  lemma OverlayNothing(m: Grid, f: Grid, size: nat)
    ensures Overlay(m, f, m, f, Blank, size)
  {
  }

  lemma {:induction false} CentreRange(ps: seq<int>, size: nat, i: nat)
    requires WellSpaced(ps, size) && i < |ps|
    ensures 6 + 8 * i <= ps[i] <= size - 7 - 8 * (|ps| - 1 - i)
    decreases |ps| - i
  {
    CentreAbove(ps, size, i);
    if i < |ps| - 1 { CentreRange(ps, size, i + 1); }
  }

  lemma {:induction false} CentreAbove(ps: seq<int>, size: nat, i: nat)
    requires WellSpaced(ps, size) && i < |ps|
    ensures 6 + 8 * i <= ps[i]
  {
    if i > 0 { CentreAbove(ps, size, i - 1); }
  }

  method DrawAlignRow(canvas: Canvas, ps: seq<int>, i: nat)
    requires canvas.Valid() && WellSpaced(ps, canvas.size) && i < |ps|
    modifies canvas.modules, canvas.isFunction
    ensures Overlay(old(canvas.Colours()), old(canvas.Functions()), canvas.Colours(), canvas.Functions(),
      AlignRow(ps, i, |ps|), canvas.size)
  {
    hide At, Colour, Overlay;
    ghost var m0, f0 := canvas.Colours(), canvas.Functions();
    OverlayNothing(m0, f0, canvas.size);
    for j := 0 to |ps|
      invariant Overlay(m0, f0, canvas.Colours(), canvas.Functions(), AlignRow(ps, i, j), canvas.size)
    {
      if !((i == 0 && j == 0) || (i == 0 && j == |ps| - 1) || (i == |ps| - 1 && j == 0)) {
        ghost var m1, f1 := canvas.Colours(), canvas.Functions();
        CentreRange(ps, canvas.size, i);
        CentreRange(ps, canvas.size, j);
        canvas.DrawAlignmentPattern(ps[i], ps[j]);
        OverlayTwice(m0, f0, m1, f1, canvas.Colours(), canvas.Functions(),
          AlignRow(ps, i, j), Alignment(ps[i], ps[j]), canvas.size);
      }
    }
  }

  method DrawAlignRows(canvas: Canvas, ps: seq<int>)
    requires canvas.Valid() && (ps == [] || WellSpaced(ps, canvas.size))
    modifies canvas.modules, canvas.isFunction
    ensures Overlay(old(canvas.Colours()), old(canvas.Functions()), canvas.Colours(), canvas.Functions(),
      AlignRows(ps, |ps|), canvas.size)
  {
    hide At, Colour, Overlay, WellSpaced;
    ghost var m0, f0 := canvas.Colours(), canvas.Functions();
    OverlayNothing(m0, f0, canvas.size);
    for i := 0 to |ps|
      invariant Overlay(m0, f0, canvas.Colours(), canvas.Functions(), AlignRows(ps, i), canvas.size)
    {
      ghost var m1, f1 := canvas.Colours(), canvas.Functions();
      DrawAlignRow(canvas, ps, i);
      OverlayTwice(m0, f0, m1, f1, canvas.Colours(), canvas.Functions(),
        AlignRows(ps, i), AlignRow(ps, i, |ps|), canvas.size);
    }
  }

  /** The source's drawFunctionPatterns. */
  method DrawFunctionPatterns(canvas: Canvas, ver: nat, ecl: Ecc)
    requires canvas.Valid() && IsVersion(ver) && canvas.size == SizeOf(ver)
    modifies canvas.modules, canvas.isFunction
    ensures Overlay(old(canvas.Colours()), old(canvas.Functions()), canvas.Colours(), canvas.Functions(),
      FunctionLayer(ver, ecl), canvas.size)
  {
    hide At, Colour, Overlay, WellSpaced, Centres, AlignRows, FinderLayer, FormatWord, VersionWord;
    ghost var m0, f0 := canvas.Colours(), canvas.Functions();
    DrawFinders(canvas);
    ghost var m1, f1 := canvas.Colours(), canvas.Functions();
    var ps := GetAlignmentPatternPositions(ver);
    if ver >= 2 { CentresWellSpaced(ver); } else { NoCentres(); }
    DrawAlignRows(canvas, ps);
    ghost var m2, f2 := canvas.Colours(), canvas.Functions();
    ghost var l2 := Over(AlignRows(ps, |ps|), FinderLayer(canvas.size));
    OverlayTwice(m0, f0, m1, f1, m2, f2, FinderLayer(canvas.size), AlignRows(ps, |ps|), canvas.size);
    canvas.DrawFormatBits(ecl.FormatBits(), 0);
    ghost var m3, f3 := canvas.Colours(), canvas.Functions();
    ghost var l3 := Over(Format(FormatWord(ecl.FormatBits(), 0)), l2);
    OverlayTwice(m0, f0, m2, f2, m3, f3, l2, Format(FormatWord(ecl.FormatBits(), 0)), canvas.size);
    canvas.DrawVersion(ver);
    OverlayTwice(m0, f0, m3, f3, canvas.Colours(), canvas.Functions(), l3, VersionLayer(ver), canvas.size);
  }

  lemma NoCentres()
    ensures Centres(1) == []
  {
  }
}

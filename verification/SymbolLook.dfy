/**
 What a finished symbol looks like outside its data area, cell by cell: finder and alignment
 patterns as squares in squares, timing cells in turn, and every bit of the format and version words.
 */
module SymbolLook {
  import opened Bits
  import opened DataAreaCount
  import opened FunctionArea
  import opened Grids
  import opened Patterns
  import opened Results
  import opened Symbols
  import opened Tables
  import opened Zigzag

  // ----- Format and version bits -----

  /** Bit i of the format word, beside the finder pattern in the top left corner. */
  function FirstFormatCell(i: nat): Cell
  {
    if i <= 5 then Cell(8, i) else if i == 6 then Cell(8, 7) else if i == 7 then Cell(8, 8)
    else if i == 8 then Cell(7, 8) else Cell(14 - i, 8)
  }

  /** And beside the other two finder patterns. */
  function SecondFormatCell(size: nat, i: nat): Cell
  {
    if i <= 7 then Cell(size - 1 - i, 8) else Cell(8, size - 15 + i)
  }

  /** Both copies of the format word, and the module that is always black. */
  lemma FormatShown(g: Grid, ver: nat, ecl: Ecc, mask: nat, i: nat)
    requires IsVersion(ver) && ShowsPatterns(g, ver, ecl, mask) && i < 15
    ensures At(g, FirstFormatCell(i)) == GetBit(FormatWord(ecl.FormatBits(), mask), i)
    ensures At(g, SecondFormatCell(SizeOf(ver), i)) == GetBit(FormatWord(ecl.FormatBits(), mask), i)
    ensures At(g, Cell(8, SizeOf(ver) - 8))
  {
    hide At, SymbolLayer, FormatWord, GetBit;
    SymbolColour(ver, ecl, mask, FirstFormatCell(i));
    SymbolColour(ver, ecl, mask, SecondFormatCell(SizeOf(ver), i));
    SymbolColour(ver, ecl, mask, Cell(8, SizeOf(ver) - 8));
  }

  /** Both copies of the version word. */
  lemma VersionShown(g: Grid, ver: nat, ecl: Ecc, mask: nat, i: nat)
    requires 7 <= ver <= 40 && ShowsPatterns(g, ver, ecl, mask) && i < 18
    ensures At(g, Cell(SizeOf(ver) - 11 + i % 3, i / 3)) == GetBit(VersionWord(ver), i)
    ensures At(g, Cell(i / 3, SizeOf(ver) - 11 + i % 3)) == GetBit(VersionWord(ver), i)
  {
    hide At, SymbolLayer, FormatWord, VersionWord, GetBit, AlignRows, FinderLayer, Centres;
    var a, b := SizeOf(ver) - 11 + i % 3, i / 3;
    SymbolColour(ver, ecl, mask, Cell(a, b));
    SymbolColour(ver, ecl, mask, Cell(b, a));
    VersionCells(SizeOf(ver), i, Cell(a, b));
    VersionCells(SizeOf(ver), i, Cell(b, a));
  }

  // ----- Finder patterns -----

  /** A dark square of three cells in a light one of five in a dark one of seven, and light around it. */
  predicate FinderDark(dx: nat, dy: nat)
  {
    dx <= 3 && dy <= 3 && (dx == 3 || dy == 3 || (dx <= 1 && dy <= 1))
  }

  lemma OverColour(top: Layer, bottom: Layer, size: nat, c: Cell)
    ensures Colour(Over(top, bottom), size, c)
         == if Colour(top, size, c).Some? then Colour(top, size, c) else Colour(bottom, size, c)
  {
  }

  lemma UnpaintedWords(ver: nat, word: nat, size: nat, c: Cell)
    requires FormatTurn(size, c) < 0 && VersionIndex(size, c) < 0
    ensures Colour(Format(word), size, c) == None && Colour(VersionLayer(ver), size, c) == None
  {
  }

  /** Away from format and version bits the layers below show. */
  lemma PatternLayerShows(ver: nat, ecl: Ecc, mask: nat, c: Cell)
    requires IsVersion(ver) && FormatTurn(SizeOf(ver), c) < 0 && VersionIndex(SizeOf(ver), c) < 0
    ensures Colour(SymbolLayer(ver, ecl, mask), SizeOf(ver), c)
         == Colour(Over(AlignRows(Centres(ver), |Centres(ver)|), FinderLayer(SizeOf(ver))), SizeOf(ver), c)
  {
    hide FormatWord, VersionLayer, AlignRows, FinderLayer, Centres, FormatTurn, VersionIndex, Colour;
    var size, word := SizeOf(ver), FormatWord(ecl.FormatBits(), 0);
    var below := Over(AlignRows(Centres(ver), |Centres(ver)|), FinderLayer(size));
    SymbolColour(ver, ecl, mask, c);
    UnpaintedWords(ver, word, size, c);
    OverColour(VersionLayer(ver), Over(Format(word), below), size, c);
    OverColour(Format(word), below, size, c);
  }

  /** Where neither alignment patterns nor format and version bits are, the finder layer shows. */
  lemma FinderLayerShows(ver: nat, ecl: Ecc, mask: nat, c: Cell)
    requires IsVersion(ver) && FormatTurn(SizeOf(ver), c) < 0 && VersionIndex(SizeOf(ver), c) < 0
    requires !Paints(AlignRows(Centres(ver), |Centres(ver)|), SizeOf(ver), c)
    ensures Colour(SymbolLayer(ver, ecl, mask), SizeOf(ver), c) == Colour(FinderLayer(SizeOf(ver)), SizeOf(ver), c)
  {
    hide FormatWord, VersionWord, AlignRows, FinderLayer, Centres, FormatTurn, VersionIndex, SymbolLayer, Colour;
    PatternLayerShows(ver, ecl, mask, c);
    OverColour(AlignRows(Centres(ver), |Centres(ver)|), FinderLayer(SizeOf(ver)), SizeOf(ver), c);
  }

  lemma NoAlignmentInCorner(ver: nat, c: Cell)
    requires IsVersion(ver)
    requires (c.x <= 8 && c.y <= 8) || (c.x >= SizeOf(ver) - 8 && c.y <= 8) || (c.x <= 8 && c.y >= SizeOf(ver) - 8)
    ensures !Paints(AlignRows(Centres(ver), |Centres(ver)|), SizeOf(ver), c)
  {
    hide AlignRows, Centres, Near, WellSpaced;
    var ps, size := Centres(ver), SizeOf(ver);
    VersionCentres(ver);
    if ver == 1 {
      NoAlignment(size, c);
    } else {
      CentresWellSpaced(ver);
      AlignmentPaints(ps, size, c);
      NearBounds(ps, size, c.x);
      NearBounds(ps, size, c.y);
    }
  }

  /** The finder layer from the top down. */
  lemma FinderLayerColour(size: nat, c: Cell)
    ensures Colour(FinderLayer(size), size, c)
         == if Paints(Finder(3, size - 4), size, c) then Colour(Finder(3, size - 4), size, c)
            else if Paints(Finder(size - 4, 3), size, c) then Colour(Finder(size - 4, 3), size, c)
            else if Paints(Finder(3, 3), size, c) then Colour(Finder(3, 3), size, c)
            else Colour(Timing, size, c)
  {
    var first := Over(Finder(3, 3), Timing);
    OverColour(Finder(3, 3), Timing, size, c);
    OverColour(Finder(size - 4, 3), first, size, c);
    OverColour(Finder(3, size - 4), Over(Finder(size - 4, 3), first), size, c);
  }

  lemma FinderColours(size: nat, c: Cell)
    requires IsSize(size) && Inside(c, size)
    ensures c.x <= 7 && c.y <= 7 ==>
      Colour(FinderLayer(size), size, c) == Some(FinderDark(Abs(c.x - 3), Abs(c.y - 3)))
    ensures c.x >= size - 8 && c.y <= 7 ==>
      Colour(FinderLayer(size), size, c) == Some(FinderDark(Abs(c.x - (size - 4)), Abs(c.y - 3)))
    ensures c.x <= 7 && c.y >= size - 8 ==>
      Colour(FinderLayer(size), size, c) == Some(FinderDark(Abs(c.x - 3), Abs(c.y - (size - 4))))
  {
    FinderLayerColour(size, c);
  }

  /** The three finder patterns with their light borders. */
  lemma FindersShown(g: Grid, ver: nat, ecl: Ecc, mask: nat, c: Cell)
    requires IsVersion(ver) && ShowsPatterns(g, ver, ecl, mask) && Inside(c, SizeOf(ver))
    ensures c.x <= 7 && c.y <= 7 ==> At(g, c) == FinderDark(Abs(c.x - 3), Abs(c.y - 3))
    ensures c.x >= SizeOf(ver) - 8 && c.y <= 7 ==>
      At(g, c) == FinderDark(Abs(c.x - (SizeOf(ver) - 4)), Abs(c.y - 3))
    ensures c.x <= 7 && c.y >= SizeOf(ver) - 8 ==>
      At(g, c) == FinderDark(Abs(c.x - 3), Abs(c.y - (SizeOf(ver) - 4)))
  {
    hide At, SymbolLayer, FinderLayer, FinderDark, Centres, AlignRows, Abs;
    FinderColours(SizeOf(ver), c);
    if (c.x <= 7 && c.y <= 7) || (c.x >= SizeOf(ver) - 8 && c.y <= 7) || (c.x <= 7 && c.y >= SizeOf(ver) - 8) {
      NoAlignmentInCorner(ver, c);
      FinderLayerShows(ver, ecl, mask, c);
      assert Some(At(g, c)) == Colour(SymbolLayer(ver, ecl, mask), SizeOf(ver), c);
    }
  }

  // ----- Alignment patterns -----

  /** One dark cell in a light square of three in a dark one of five. */
  predicate AlignmentDark(dx: nat, dy: nat)
  {
    dx == 2 || dy == 2 || (dx == 0 && dy == 0)
  }

  lemma CentresApart(ps: seq<int>, size: nat, i: nat, j: nat)
    requires WellSpaced(ps, size) && i < |ps| && j < |ps| && i != j
    ensures Abs(ps[i] - ps[j]) >= 8
  {
    if i < j { Increasing(ps, size, i + 1, j); } else { Increasing(ps, size, j + 1, i); }
  }

  lemma AlignmentColour(x: int, y: int, size: nat, c: Cell)
    ensures Colour(Alignment(x, y), size, c)
         == if Abs(c.x - x) <= 2 && Abs(c.y - y) <= 2 then Some(AlignmentDark(Abs(c.x - x), Abs(c.y - y))) else None
  {
  }

  /** In a row of patterns a cell belongs to the one it is near to. */
  lemma {:induction false} AlignRowColour(ps: seq<int>, size: nat, i: nat, j: nat, n: nat, c: Cell)
    requires WellSpaced(ps, size) && i < |ps| && j < n <= |ps| && !IsCorner(i, j, |ps|)
    requires Abs(c.x - ps[i]) <= 2 && Abs(c.y - ps[j]) <= 2
    ensures Colour(AlignRow(ps, i, n), size, c) == Some(AlignmentDark(Abs(c.x - ps[i]), Abs(c.y - ps[j])))
  {
    hide AlignmentDark, WellSpaced;
    AlignmentColour(ps[i], ps[n - 1], size, c);
    if j < n - 1 {
      CentresApart(ps, size, j, n - 1);
      AlignRowColour(ps, size, i, j, n - 1, c);
    }
  }

  lemma RowPaintsNear(ps: seq<int>, size: nat, i: nat, c: Cell)
    requires WellSpaced(ps, size) && i < |ps| && Abs(c.x - ps[i]) > 2
    ensures !Paints(AlignRow(ps, i, |ps|), size, c)
  {
    hide WellSpaced, AlignRow, RowNear;
    AlignRowPaints(ps, size, i, |ps|, c);
  }

  lemma {:induction false} AlignRowsColour(ps: seq<int>, size: nat, i: nat, j: nat, n: nat, c: Cell)
    requires WellSpaced(ps, size) && i < n <= |ps| && j < |ps| && !IsCorner(i, j, |ps|)
    requires Abs(c.x - ps[i]) <= 2 && Abs(c.y - ps[j]) <= 2
    ensures Colour(AlignRows(ps, n), size, c) == Some(AlignmentDark(Abs(c.x - ps[i]), Abs(c.y - ps[j])))
  {
    hide AlignmentDark, WellSpaced, AlignRow;
    if i == n - 1 {
      AlignRowColour(ps, size, i, j, |ps|, c);
    } else {
      CentresApart(ps, size, i, n - 1);
      RowPaintsNear(ps, size, n - 1, c);
      AlignRowsColour(ps, size, i, j, n - 1, c);
    }
  }

  /** Alignment cells are neither format nor version bits. */
  lemma AlignmentIsFree(ver: nat, i: nat, j: nat, c: Cell)
    requires 2 <= ver <= 40 && i < |Centres(ver)| && j < |Centres(ver)| && !IsCorner(i, j, |Centres(ver)|)
    requires Abs(c.x - Centres(ver)[i]) <= 2 && Abs(c.y - Centres(ver)[j]) <= 2
    ensures FormatTurn(SizeOf(ver), c) < 0 && VersionIndex(SizeOf(ver), c) < 0
    ensures Inside(c, SizeOf(ver))
  {
    hide Centres;
    var ps, size := Centres(ver), SizeOf(ver);
    CentresWellSpaced(ver);
    CentreRange(ps, size, i);
    CentreRange(ps, size, j);
    EndCentres(ps, size, i);
    EndCentres(ps, size, j);
  }

  lemma EndCentres(ps: seq<int>, size: nat, i: nat)
    requires WellSpaced(ps, size) && i < |ps|
    ensures i == 0 <==> ps[i] < 14
    ensures i == 0 ==> ps[i] == 6
    ensures i == |ps| - 1 <==> ps[i] > size - 15
    ensures i == |ps| - 1 ==> ps[i] == size - 7
  {
    hide WellSpaced;
    SpacedEnds(ps, size);
    CentreRange(ps, size, i);
  }

  lemma SpacedEnds(ps: seq<int>, size: nat)
    requires WellSpaced(ps, size)
    ensures |ps| >= 2 && ps[0] == 6 && ps[|ps| - 1] == size - 7
  {
  }

  /** Every alignment pattern but the three that finder patterns leave no room for. */
  lemma AlignmentShown(g: Grid, ver: nat, ecl: Ecc, mask: nat, i: nat, j: nat, c: Cell)
    requires 2 <= ver <= 40 && ShowsPatterns(g, ver, ecl, mask)
    requires i < |Centres(ver)| && j < |Centres(ver)| && !IsCorner(i, j, |Centres(ver)|)
    requires Abs(c.x - Centres(ver)[i]) <= 2 && Abs(c.y - Centres(ver)[j]) <= 2
    ensures At(g, c) == AlignmentDark(Abs(c.x - Centres(ver)[i]), Abs(c.y - Centres(ver)[j]))
  {
    hide At, SymbolLayer, FinderLayer, Centres, FormatTurn, VersionIndex, AlignRows, AlignmentDark, Abs, WellSpaced,
      Colour;
    var ps, size := Centres(ver), SizeOf(ver);
    CentresWellSpaced(ver);
    AlignmentIsFree(ver, i, j, c);
    AlignRowsColour(ps, size, i, j, |ps|, c);
    PatternLayerShows(ver, ecl, mask, c);
    OverColour(AlignRows(ps, |ps|), FinderLayer(size), size, c);
    assert Some(At(g, c)) == Colour(SymbolLayer(ver, ecl, mask), size, c);
  }

  // ----- Timing -----

  lemma CentresEven(ver: nat, i: nat)
    requires 2 <= ver <= 40 && i < |Centres(ver)|
    ensures Centres(ver)[i] % 2 == 0
  {
    hide AlignStep, Centres;
    StepEven(ver);
    CentreIs(ver, i);
    EvenProduct(NumAlign(ver) - 1 - i, AlignStep(ver));
  }

  lemma CentreIs(ver: nat, i: nat)
    requires 2 <= ver <= 40 && i < |Centres(ver)|
    ensures Centres(ver)[i] == if i == 0 then 6 else 4 * ver + 10 - (NumAlign(ver) - 1 - i) * AlignStep(ver)
  {
    hide AlignStep;
  }

  lemma StepEven(ver: nat)
    requires IsVersion(ver)
    ensures AlignStep(ver) % 2 == 0
  {
  }

  lemma EvenProduct(a: int, b: nat)
    requires b % 2 == 0
    ensures a * b % 2 == 0
  {
    assert a * b == 2 * (a * (b / 2));
  }

  /** An alignment pattern on row 6 is one of the inner ones of the first row, and agrees with the timing. */
  lemma TimingAgrees(ver: nat, c: Cell)
    requires 2 <= ver <= 40 && Paints(AlignRows(Centres(ver), |Centres(ver)|), SizeOf(ver), c)
    requires (c.y == 6 && 9 <= c.x < SizeOf(ver) - 8) || (c.x == 6 && 9 <= c.y < SizeOf(ver) - 8)
    ensures Colour(AlignRows(Centres(ver), |Centres(ver)|), SizeOf(ver), c)
         == Some(if c.y == 6 then c.x % 2 == 0 else c.y % 2 == 0)
  {
    hide AlignRows, Centres, WellSpaced, Near;
    var ps, size := Centres(ver), SizeOf(ver);
    CentresWellSpaced(ver);
    SpacedEnds(ps, size);
    AlignmentPaints(ps, size, c);
    NearBounds(ps, size, c.x);
    NearBounds(ps, size, c.y);
    if c.y == 6 {
      var i := NearOne(ps, 1, |ps| - 1, c.x);
      CentresEven(ver, i);
      AlignRowsColour(ps, size, i, 0, |ps|, c);
    } else {
      var j := NearOne(ps, 1, |ps| - 1, c.y);
      CentresEven(ver, j);
      AlignRowsColour(ps, size, 0, j, |ps|, c);
    }
  }

  lemma {:induction false} NearOne(ps: seq<int>, lo: nat, hi: nat, x: int) returns (i: nat)
    requires lo <= hi <= |ps| && Near(ps, lo, hi, x)
    ensures lo <= i < hi && Abs(x - ps[i]) <= 2
  {
    if Abs(x - ps[hi - 1]) <= 2 { i := hi - 1; } else { i := NearOne(ps, lo, hi - 1, x); }
  }

  lemma TimingColour(size: nat, c: Cell)
    requires IsSize(size) && Inside(c, size)
    requires (c.y == 6 && 9 <= c.x < size - 8) || (c.x == 6 && 9 <= c.y < size - 8)
    ensures Colour(FinderLayer(size), size, c) == Some(if c.y == 6 then c.x % 2 == 0 else c.y % 2 == 0)
    ensures FormatTurn(size, c) < 0 && VersionIndex(size, c) < 0
  {
    FinderLayerColour(size, c);
  }

  /** Between the finder patterns row 6 and column 6 alternate, alignment patterns or not. */
  lemma TimingShown(g: Grid, ver: nat, ecl: Ecc, mask: nat, k: nat)
    requires IsVersion(ver) && ShowsPatterns(g, ver, ecl, mask) && 9 <= k < SizeOf(ver) - 8
    ensures At(g, Cell(k, 6)) == At(g, Cell(6, k)) == (k % 2 == 0)
  {
    hide At, SymbolLayer, FinderLayer, Centres, FormatTurn, VersionIndex, AlignRows, Colour;
    var size := SizeOf(ver);
    forall c | c == Cell(k, 6) || c == Cell(6, k) ensures At(g, c) == (k % 2 == 0) {
      TimingColour(size, c);
      PatternLayerShows(ver, ecl, mask, c);
      OverColour(AlignRows(Centres(ver), |Centres(ver)|), FinderLayer(size), size, c);
      if Paints(AlignRows(Centres(ver), |Centres(ver)|), size, c) {
        if ver == 1 { NoAlignment(size, c); } else { TimingAgrees(ver, c); }
      }
      assert Some(At(g, c)) == Colour(SymbolLayer(ver, ecl, mask), size, c);
    }
  }
}

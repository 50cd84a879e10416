/**
 The QrCode constructor: drawing, error correction, masking, and the choice of a mask. A
 `Symbol` is the finished, immutable object.
 */
module Symbols {
  import opened Bits
  import opened BitStream
  import opened DataAreaCount
  import opened FunctionArea
  import opened Grids
  import opened Interleave
  import opened Masking
  import opened Patterns
  import opened Results
  import opened Sequences
  import opened Tables
  import opened Zigzag

  datatype Symbol = Symbol(version: nat, size: nat, level: Ecc, mask: nat, modules: Grid)

  // ----- What a symbol shows -----

  /** A mask number that inverts no cell. */
  const NO_MASK: nat := 8

  /** The function modules of a version. */
  function FunctionGrid(ver: nat): (g: Grid)
    requires IsVersion(ver)
    ensures Square(g, SizeOf(ver))
    ensures forall c: Cell :: Inside(c, SizeOf(ver)) ==>
      At(g, c) == Paints(FunctionLayer(ver, LOW), SizeOf(ver), c)
  {
    seq(SizeOf(ver), y requires 0 <= y < SizeOf(ver) =>
      seq(SizeOf(ver), x requires 0 <= x < SizeOf(ver) => Paints(FunctionLayer(ver, LOW), SizeOf(ver), Cell(x, y))))
  }

  /** The data area of a version in scan order. */
  function Area(ver: nat): seq<Cell>
    requires IsVersion(ver)
  {
    DataArea(SizeOf(ver), FunctionGrid(ver))
  }

  /** All function patterns, with the format bits of the given mask. */
  function SymbolLayer(ver: nat, ecl: Ecc, format: nat): Layer
    requires IsVersion(ver)
  {
    Over(Format(FormatWord(ecl.FormatBits(), format)), FunctionLayer(ver, ecl))
  }

  /** The k-th bit of the codewords; the remainder bits are zero. */
  predicate DataBit(codewords: seq<Byte>, k: nat)
  {
    k < 8 * |codewords| && BytesToBits(codewords)[k]
  }

  ghost predicate ShowsPatterns(g: Grid, ver: nat, ecl: Ecc, format: nat)
    requires IsVersion(ver)
  {
    forall c: Cell :: Inside(c, SizeOf(ver)) ==>
      match Colour(SymbolLayer(ver, ecl, format), SizeOf(ver), c)
      case Some(b) => At(g, c) == b
      case None => true
  }

  ghost predicate ShowsData(g: Grid, ver: nat, mask: nat, codewords: seq<Byte>)
    requires IsVersion(ver)
  {
    var area := Area(ver);
    forall k :: 0 <= k < |area| ==> At(g, area[k]) == (DataBit(codewords, k) != Inverts(mask, area[k]))
  }

  /** The grid shows all function patterns, the format bits for `format`, and the masked codewords. */
  ghost predicate Shows(g: Grid, ver: nat, ecl: Ecc, format: nat, mask: nat, codewords: seq<Byte>)
    requires IsVersion(ver)
  {
    Square(g, SizeOf(ver)) && ShowsPatterns(g, ver, ecl, format) && ShowsData(g, ver, mask, codewords)
  }

  /** A finished grid names its own mask in its format bits. */
  ghost predicate Finished(g: Grid, ver: nat, ecl: Ecc, mask: nat, codewords: seq<Byte>)
    requires IsVersion(ver)
  {
    Shows(g, ver, ecl, mask, mask, codewords)
  }

  // ----- The function modules do not depend on level and mask -----

  lemma LayerPaints(ver: nat, ecl: Ecc, format: nat, c: Cell)
    requires IsVersion(ver)
    ensures var size := SizeOf(ver);
            && Paints(SymbolLayer(ver, ecl, format), size, c) == Paints(FunctionLayer(ver, LOW), size, c)
            && Paints(FunctionLayer(ver, ecl), size, c) == Paints(FunctionLayer(ver, LOW), size, c)
  {
    hide Paints, FormatWord, AlignRows, FinderLayer, VersionLayer, SizeOf;
    var size, rest := SizeOf(ver), Over(AlignRows(Centres(ver), |Centres(ver)|), FinderLayer(SizeOf(ver)));
    forall e | e == ecl || e == LOW
      ensures Paints(FunctionLayer(ver, e), size, c)
        <==> Paints(VersionLayer(ver), size, c) || 0 <= FormatTurn(size, c) || Paints(rest, size, c)
    {
      var format := Format(FormatWord(e.FormatBits(), 0));
      PaintsOver(VersionLayer(ver), Over(format, rest), size, c);
      PaintsOver(format, rest, size, c);
      PaintsFormat(FormatWord(e.FormatBits(), 0), size, c);
    }
    PaintsOver(Format(FormatWord(ecl.FormatBits(), format)), FunctionLayer(ver, ecl), size, c);
    PaintsFormat(FormatWord(ecl.FormatBits(), format), size, c);
  }

  lemma PaintsFormat(bits: nat, size: nat, c: Cell)
    ensures Paints(Format(bits), size, c) <==> 0 <= FormatTurn(size, c)
  {
  }

  lemma FunctionGridIs(f: Grid, ver: nat, ecl: Ecc)
    requires IsVersion(ver) && Square(f, SizeOf(ver))
    requires forall c: Cell :: Inside(c, SizeOf(ver)) ==>
      At(f, c) == Paints(FunctionLayer(ver, ecl), SizeOf(ver), c)
    ensures f == FunctionGrid(ver)
  {
    hide At, Paints, FunctionLayer;
    forall c: Cell | Inside(c, SizeOf(ver)) ensures At(f, c) == At(FunctionGrid(ver), c) {
      LayerPaints(ver, ecl, 0, c);
    }
    SameGrid(f, FunctionGrid(ver), SizeOf(ver));
  }

  /** The area holds each non-function cell once, as many as the capacity formula says. */
  lemma AreaCells(ver: nat)
    requires IsVersion(ver)
    ensures |Area(ver)| == NumRawDataModules(ver) >= 0 && Distinct(Area(ver))
    ensures forall c: Cell :: c in Area(ver) <==> Inside(c, SizeOf(ver)) && !At(FunctionGrid(ver), c)
  {
    hide At, Paints, FunctionLayer, DataArea, NumRawDataModules;
    DataAreaSize(ver, LOW, FunctionGrid(ver));
    DataAreaMembers(SizeOf(ver), FunctionGrid(ver));
  }

  /** Patterns and codewords determine the grid. */
  lemma ShowsDetermines(g: Grid, h: Grid, ver: nat, ecl: Ecc, format: nat, mask: nat, codewords: seq<Byte>)
    requires IsVersion(ver)
    requires Shows(g, ver, ecl, format, mask, codewords) && Shows(h, ver, ecl, format, mask, codewords)
    ensures g == h
  {
    hide At, Area, SymbolLayer, FunctionLayer, Inverts, DataBit;
    AreaCells(ver);
    forall c: Cell | Inside(c, SizeOf(ver)) ensures At(g, c) == At(h, c) {
      LayerPaints(ver, ecl, format, c);
      if !At(FunctionGrid(ver), c) {
        var k :| 0 <= k < |Area(ver)| && Area(ver)[k] == c;
      }
    }
    SameGrid(g, h, SizeOf(ver));
  }

  // ----- Masking and format bits change what is shown as intended -----

  lemma MaskShows(g: Grid, h: Grid, ver: nat, ecl: Ecc, format: nat, mask: nat, codewords: seq<Byte>)
    requires IsVersion(ver) && Square(h, SizeOf(ver))
    requires IsMasked(g, h, FunctionGrid(ver), mask, SizeOf(ver))
    ensures Shows(g, ver, ecl, format, NO_MASK, codewords) ==> Shows(h, ver, ecl, format, mask, codewords)
    ensures Shows(g, ver, ecl, format, mask, codewords) ==> Shows(h, ver, ecl, format, NO_MASK, codewords)
  {
    MaskKeepsPatterns(g, h, ver, ecl, format, mask);
    MaskMasksData(g, h, ver, mask, codewords);
  }

  lemma MaskKeepsPatterns(g: Grid, h: Grid, ver: nat, ecl: Ecc, format: nat, mask: nat)
    requires IsVersion(ver)
    requires IsMasked(g, h, FunctionGrid(ver), mask, SizeOf(ver))
    ensures ShowsPatterns(g, ver, ecl, format) ==> ShowsPatterns(h, ver, ecl, format)
  {
    hide At, FunctionGrid, SymbolLayer, FunctionLayer, Inverts, Colour;
    forall c: Cell | Inside(c, SizeOf(ver)) && Paints(SymbolLayer(ver, ecl, format), SizeOf(ver), c)
      ensures At(h, c) == At(g, c)
    {
      LayerPaints(ver, ecl, format, c);
    }
  }

  lemma MaskMasksData(g: Grid, h: Grid, ver: nat, mask: nat, codewords: seq<Byte>)
    requires IsVersion(ver)
    requires IsMasked(g, h, FunctionGrid(ver), mask, SizeOf(ver))
    ensures ShowsData(g, ver, NO_MASK, codewords) ==> ShowsData(h, ver, mask, codewords)
    ensures ShowsData(g, ver, mask, codewords) ==> ShowsData(h, ver, NO_MASK, codewords)
  {
    hide At, Area, FunctionGrid, DataBit;
    AreaCells(ver);
    var area := Area(ver);
    forall k | 0 <= k < |area| ensures At(h, area[k]) == (At(g, area[k]) != Inverts(mask, area[k])) {
      assert area[k] in area;
    }
  }

  lemma FormatShows(g: Grid, f: Grid, h: Grid, f': Grid, ver: nat, ecl: Ecc, earlier: nat, format: nat, mask: nat,
      codewords: seq<Byte>)
    requires IsVersion(ver) && Square(h, SizeOf(ver)) && Square(f', SizeOf(ver)) && f == FunctionGrid(ver)
    requires Shows(g, ver, ecl, earlier, mask, codewords)
    requires Overlay(g, f, h, f', Format(FormatWord(ecl.FormatBits(), format)), SizeOf(ver))
    ensures f' == FunctionGrid(ver) && Shows(h, ver, ecl, format, mask, codewords)
  {
    FormatOnFunctions(g, f, h, f', ver, ecl, format);
    FormatShowsPatterns(g, f, h, f', ver, ecl, earlier, format);
    FormatKeepsData(g, f, h, f', ver, ecl, format, mask, codewords);
  }

  lemma FormatCells(ver: nat, ecl: Ecc, format: nat, c: Cell)
    requires IsVersion(ver) && Inside(c, SizeOf(ver))
    ensures Paints(Format(FormatWord(ecl.FormatBits(), format)), SizeOf(ver), c) ==> At(FunctionGrid(ver), c)
  {
    hide FormatWord, AlignRows, FinderLayer, VersionLayer, VersionWord, GetBit, At, FormatTurn;
    LayerPaints(ver, ecl, format, c);
  }

  lemma FormatOnFunctions(g: Grid, f: Grid, h: Grid, f': Grid, ver: nat, ecl: Ecc, format: nat)
    requires IsVersion(ver) && Square(f', SizeOf(ver)) && f == FunctionGrid(ver)
    requires Overlay(g, f, h, f', Format(FormatWord(ecl.FormatBits(), format)), SizeOf(ver))
    ensures f' == FunctionGrid(ver)
  {
    hide At, FunctionGrid, Colour, FormatWord;
    forall c: Cell | Inside(c, SizeOf(ver)) ensures At(f', c) == At(f, c) {
      FormatCells(ver, ecl, format, c);
    }
    SameGrid(f', f, SizeOf(ver));
  }

  lemma FormatShowsPatterns(g: Grid, f: Grid, h: Grid, f': Grid, ver: nat, ecl: Ecc, earlier: nat, format: nat)
    requires IsVersion(ver) && ShowsPatterns(g, ver, ecl, earlier)
    requires Overlay(g, f, h, f', Format(FormatWord(ecl.FormatBits(), format)), SizeOf(ver))
    ensures ShowsPatterns(h, ver, ecl, format)
  {
    hide At, FunctionLayer, FormatWord, Colour;
    forall c: Cell | Inside(c, SizeOf(ver))
      ensures match Colour(SymbolLayer(ver, ecl, format), SizeOf(ver), c)
              case Some(b) => At(h, c) == b
              case None => true
    {
      SymbolColour(ver, ecl, earlier, c);
      SymbolColour(ver, ecl, format, c);
    }
  }

  /** The later format bits hide the earlier ones. */
  lemma SymbolColour(ver: nat, ecl: Ecc, format: nat, c: Cell)
    requires IsVersion(ver)
    ensures var size := SizeOf(ver);
            var word := Format(FormatWord(ecl.FormatBits(), format));
            && (Paints(word, size, c) <==> 0 <= FormatTurn(size, c))
            && Colour(SymbolLayer(ver, ecl, format), size, c)
               == if 0 <= FormatTurn(size, c) then Colour(word, size, c) else Colour(FunctionLayer(ver, ecl), size, c)
  {
    hide FunctionLayer, FormatWord, FormatTurn, GetBit;
  }

  lemma FormatKeepsData(g: Grid, f: Grid, h: Grid, f': Grid, ver: nat, ecl: Ecc, format: nat, mask: nat,
      codewords: seq<Byte>)
    requires IsVersion(ver) && ShowsData(g, ver, mask, codewords)
    requires Overlay(g, f, h, f', Format(FormatWord(ecl.FormatBits(), format)), SizeOf(ver))
    ensures ShowsData(h, ver, mask, codewords)
  {
    hide At, Area, FunctionGrid, DataBit, Inverts, Colour, FormatWord;
    AreaCells(ver);
    var area := Area(ver);
    forall k | 0 <= k < |area| ensures At(h, area[k]) == At(g, area[k]) {
      assert area[k] in area;
      FormatCells(ver, ecl, format, area[k]);
    }
  }

  // ----- Drawing the codewords -----

  /** The first format bits do not meet the version bits, so they might as well be drawn last. */
  lemma FirstFormat(ver: nat, ecl: Ecc, c: Cell)
    requires IsVersion(ver)
    ensures Colour(SymbolLayer(ver, ecl, 0), SizeOf(ver), c) == Colour(FunctionLayer(ver, ecl), SizeOf(ver), c)
  {
    hide FormatWord, AlignRows, FinderLayer, GetBit, VersionWord;
    SymbolColour(ver, ecl, 0, c);
    if 0 <= FormatTurn(SizeOf(ver), c) {
      FormatMissesVersion(ver, c);
    }
  }

  lemma FormatMissesVersion(ver: nat, c: Cell)
    requires IsVersion(ver) && 0 <= FormatTurn(SizeOf(ver), c)
    ensures Colour(VersionLayer(ver), SizeOf(ver), c) == None
  {
    hide GetBit, VersionWord;
  }

  ghost predicate IsWhite(g: Grid, size: nat)
  {
    forall c: Cell :: Inside(c, size) ==> !At(g, c)
  }

  /** Function patterns on white, then the codewords: everything but the mask. */
  lemma DrawnShows(white: Grid, m0: Grid, m1: Grid, ver: nat, ecl: Ecc, codewords: seq<Byte>)
    requires IsVersion(ver) && IsWhite(white, SizeOf(ver)) && Square(m0, SizeOf(ver)) && Square(m1, SizeOf(ver))
    requires Overlay(white, white, m0, FunctionGrid(ver), FunctionLayer(ver, ecl), SizeOf(ver))
    requires Drawn(m0, m1, Area(ver), BytesToBits(codewords), 8 * |codewords|)
    ensures Shows(m1, ver, ecl, 0, NO_MASK, codewords)
  {
    hide Overlay, Drawn, ShowsPatterns, ShowsData, FunctionGrid, Area, FunctionLayer;
    DrawnShowsPatterns(white, m0, m1, ver, ecl, codewords);
    DrawnShowsData(white, m0, m1, ver, ecl, codewords);
  }

  lemma DrawnShowsPatterns(white: Grid, m0: Grid, m1: Grid, ver: nat, ecl: Ecc, codewords: seq<Byte>)
    requires IsVersion(ver) && Square(m0, SizeOf(ver))
    requires Overlay(white, white, m0, FunctionGrid(ver), FunctionLayer(ver, ecl), SizeOf(ver))
    requires Drawn(m0, m1, Area(ver), BytesToBits(codewords), 8 * |codewords|)
    ensures ShowsPatterns(m1, ver, ecl, 0)
  {
    hide At, Colour, Area, FunctionLayer, SymbolLayer, BytesToBits, FunctionGrid;
    AreaCells(ver);
    forall c: Cell | Inside(c, SizeOf(ver))
      ensures match Colour(SymbolLayer(ver, ecl, 0), SizeOf(ver), c)
              case Some(b) => At(m1, c) == b
              case None => true
    {
      FirstFormat(ver, ecl, c);
      LayerPaints(ver, ecl, 0, c);
    }
  }

  lemma DrawnShowsData(white: Grid, m0: Grid, m1: Grid, ver: nat, ecl: Ecc, codewords: seq<Byte>)
    requires IsVersion(ver) && IsWhite(white, SizeOf(ver)) && Square(m0, SizeOf(ver))
    requires Overlay(white, white, m0, FunctionGrid(ver), FunctionLayer(ver, ecl), SizeOf(ver))
    requires Drawn(m0, m1, Area(ver), BytesToBits(codewords), 8 * |codewords|)
    ensures ShowsData(m1, ver, NO_MASK, codewords)
  {
    hide At, Colour, Area, FunctionLayer, BytesToBits, FunctionGrid, IsWhite, Overlay, Inverts, NumRawDataModules,
      Distinct;
    AreaCells(ver);
    var area, n := Area(ver), 8 * |codewords|;
    forall k | 0 <= k < |area| ensures At(m1, area[k]) == (DataBit(codewords, k) != Inverts(NO_MASK, area[k])) {
      var c := area[k];
      assert c in area;
      UndrawnIsWhite(white, m0, ver, ecl, c);
      if k >= n { NotEarlierCell(area, k, n); }
      NoMaskInverts(c);
    }
  }

  lemma NoMaskInverts(c: Cell)
    ensures !Inverts(NO_MASK, c)
  {
  }

  lemma NotEarlierCell(cells: seq<Cell>, k: nat, n: nat)
    requires Distinct(cells) && n <= k < |cells|
    ensures cells[k] !in cells[..n]
  {
  }

  lemma UndrawnIsWhite(white: Grid, m0: Grid, ver: nat, ecl: Ecc, c: Cell)
    requires IsVersion(ver) && IsWhite(white, SizeOf(ver)) && Inside(c, SizeOf(ver)) && !At(FunctionGrid(ver), c)
    requires Overlay(white, white, m0, FunctionGrid(ver), FunctionLayer(ver, ecl), SizeOf(ver))
    ensures !At(m0, c)
  {
    hide At, Colour, FunctionLayer, FunctionGrid;
    LayerPaints(ver, ecl, 0, c);
  }

  /** The source's drawCodewords; its length check and its final assertion. */
  method DrawAllCodewords(canvas: Canvas, ver: nat, data: seq<Byte>) returns (r: Result<()>)
    requires IsVersion(ver) && canvas.Valid() && canvas.size == SizeOf(ver)
    requires canvas.Functions() == FunctionGrid(ver)
    modifies canvas.modules
    ensures r.Ok? <==> |data| == NumRawDataModules(ver) / 8
    ensures r.Ok? ==> Drawn(old(canvas.Colours()), canvas.Colours(), Area(ver), BytesToBits(data), 8 * |data|)
  {
    hide NumRawDataModules, DataArea, FunctionGrid, Drawn, BytesToBits;
    if |data| != NumRawDataModules(ver) / 8 {
      return Err("Invalid argument");
    }
    AreaCells(ver);
    r := DrawCodewords(canvas.modules, canvas.isFunction, data);
  }

  // ----- The constructor -----

  /** The canvas shows the codewords under a mask, with the format bits of some mask. */
  ghost predicate Showing(canvas: Canvas, ver: nat, ecl: Ecc, format: nat, mask: nat, codewords: seq<Byte>)
    requires IsVersion(ver) && canvas.Valid()
    reads canvas.modules, canvas.isFunction
  {
    && canvas.size == SizeOf(ver) && canvas.Functions() == FunctionGrid(ver)
    && Shows(canvas.Colours(), ver, ecl, format, mask, codewords)
  }

  /** Function patterns, error correction and codewords on a new canvas. */
  method DrawUnmasked(canvas: Canvas, ver: nat, ecl: Ecc, data: seq<Byte>)
    returns (r: Result<()>, ghost codewords: seq<Byte>)
    requires IsVersion(ver) && canvas.Valid() && canvas.size == SizeOf(ver)
    requires IsWhite(canvas.Colours(), canvas.size) && IsWhite(canvas.Functions(), canvas.size)
    modifies canvas.modules, canvas.isFunction
    ensures r.Ok? <==> |data| == NumDataCodewords(ver, ecl)
    ensures r.Ok? ==> LayoutOf(ver, ecl).Carries(codewords, data)
    ensures r.Ok? ==> Showing(canvas, ver, ecl, 0, NO_MASK, codewords)
  {
    hide Shows, Drawn, FunctionLayer, FunctionGrid, At, Area, BytesToBits, NumDataCodewords, NumRawDataModules,
      Layout.Carries, Colour, LayoutOf;
    ghost var white := canvas.Colours();
    AllWhite(white, canvas.Functions(), canvas.size);
    DrawFunctionPatterns(canvas, ver, ecl);
    FunctionsDrawn(white, canvas.Colours(), canvas.Functions(), ver, ecl);
    ghost var drawn := canvas.Colours();
    var all := AddEccAndInterleave(data, ver, ecl);
    if all.Err? {
      return Err(all.error), [];
    }
    codewords := all.value;
    CarriedLength(ver, ecl, codewords, data);
    var _ := DrawAllCodewords(canvas, ver, all.value);
    DrawnShows(white, drawn, canvas.Colours(), ver, ecl, codewords);
    r := Ok(());
  }

  lemma AllWhite(g: Grid, h: Grid, size: nat)
    requires Square(g, size) && Square(h, size) && IsWhite(g, size) && IsWhite(h, size)
    ensures g == h
  {
    SameGrid(g, h, size);
  }

  lemma CarriedLength(ver: nat, ecl: Ecc, codewords: seq<Byte>, data: seq<Byte>)
    requires IsVersion(ver) && LayoutOf(ver, ecl).Carries(codewords, data)
    ensures |codewords| == NumRawDataModules(ver) / 8
  {
    hide NumRawDataModules, NumBlocks, EccPerBlock;
  }

  lemma FunctionsDrawn(white: Grid, m: Grid, f: Grid, ver: nat, ecl: Ecc)
    requires IsVersion(ver) && IsWhite(white, SizeOf(ver)) && Square(f, SizeOf(ver))
    requires Overlay(white, white, m, f, FunctionLayer(ver, ecl), SizeOf(ver))
    ensures f == FunctionGrid(ver)
  {
    hide At, Colour, FunctionLayer, FunctionGrid;
    FunctionGridIs(f, ver, ecl);
  }

  /** Applies a mask to an unmasked symbol or takes it off again. */
  method ToggleMask(canvas: Canvas, mask: nat, ghost ver: nat, ghost ecl: Ecc, ghost format: nat, ghost from: nat,
      ghost codewords: seq<Byte>)
    requires IsVersion(ver) && canvas.Valid() && mask < 8 && (from == NO_MASK || from == mask)
    requires Showing(canvas, ver, ecl, format, from, codewords)
    modifies canvas.modules
    ensures Showing(canvas, ver, ecl, format, if from == NO_MASK then mask else NO_MASK, codewords)
  {
    hide Shows, IsMasked, FunctionGrid;
    ghost var before := canvas.Colours();
    var _ := ApplyMask(canvas, mask);
    MaskShows(before, canvas.Colours(), ver, ecl, format, mask, codewords);
  }

  /** Overwrites the format bits. */
  method SetFormat(canvas: Canvas, mask: nat, ecl: Ecc, ghost ver: nat, ghost before: nat, ghost codewords: seq<Byte>)
    requires IsVersion(ver) && canvas.Valid() && mask < 8
    requires Showing(canvas, ver, ecl, before, mask, codewords)
    modifies canvas.modules, canvas.isFunction
    ensures Showing(canvas, ver, ecl, mask, mask, codewords)
  {
    hide Shows, Overlay, FunctionGrid, FormatWord;
    ghost var m, f := canvas.Colours(), canvas.Functions();
    canvas.DrawFormatBits(ecl.FormatBits(), mask);
    FormatShows(m, f, canvas.Colours(), canvas.Functions(), ver, ecl, before, mask, mask, codewords);
  }

  /** Masks the symbol and names the mask in the format bits. */
  method FinishMask(canvas: Canvas, mask: nat, ecl: Ecc, ghost ver: nat, ghost format: nat,
      ghost codewords: seq<Byte>)
    requires IsVersion(ver) && canvas.Valid() && mask < 8
    requires Showing(canvas, ver, ecl, format, NO_MASK, codewords)
    modifies canvas.modules, canvas.isFunction
    ensures Showing(canvas, ver, ecl, mask, mask, codewords)
  {
    hide Shows, FunctionGrid;
    ToggleMask(canvas, mask, ver, ecl, format, NO_MASK, codewords);
    SetFormat(canvas, mask, ecl, ver, format, codewords);
  }

  /** One round of the automatic choice: finish the grid with mask i, score it, and take the mask off. */
  method TryMask(canvas: Canvas, i: nat, ecl: Ecc, ghost ver: nat, ghost format: nat, ghost codewords: seq<Byte>)
    returns (penalty: int, ghost trial: Grid)
    requires IsVersion(ver) && canvas.Valid() && i < 8
    requires Showing(canvas, ver, ecl, format, NO_MASK, codewords)
    modifies canvas.modules, canvas.isFunction
    ensures Finished(trial, ver, ecl, i, codewords) && penalty == Penalty(trial)
    ensures Showing(canvas, ver, ecl, i, NO_MASK, codewords)
  {
    hide Shows, Penalty, FunctionGrid;
    FinishMask(canvas, i, ecl, ver, format, codewords);
    trial := canvas.Colours();
    penalty := GetPenaltyScore(canvas);
    ToggleMask(canvas, i, ver, ecl, i, i, codewords);
  }

  /** The trials are the finished grids of the first n masks, and `best` is the first cheapest of them. */
  ghost predicate FirstCheapest(trials: seq<Grid>, best: nat, ver: nat, ecl: Ecc, codewords: seq<Byte>)
    requires IsVersion(ver)
  {
    && (forall m :: 0 <= m < |trials| ==> Finished(trials[m], ver, ecl, m, codewords) && |trials[m]| > 0)
    && best < |trials|
    && forall m :: 0 <= m < |trials| ==>
      Penalty(trials[best]) <= Penalty(trials[m]) && (m < best ==> Penalty(trials[best]) < Penalty(trials[m]))
  }

  method ChooseMask(canvas: Canvas, ecl: Ecc, ghost ver: nat, ghost codewords: seq<Byte>)
    returns (mask: nat, ghost trials: seq<Grid>)
    requires IsVersion(ver) && canvas.Valid() && Showing(canvas, ver, ecl, 0, NO_MASK, codewords)
    modifies canvas.modules, canvas.isFunction
    ensures mask < 8 == |trials| && FirstCheapest(trials, mask, ver, ecl, codewords)
    ensures Showing(canvas, ver, ecl, 7, NO_MASK, codewords)
  {
    hide Finished, Penalty, Shows, FunctionGrid;
    var minPenalty: Option<int> := None;
    mask, trials := 0, [];
    for i := 0 to 8
      invariant mask < 8 && |trials| == i && (minPenalty == None <==> i == 0)
      invariant i > 0 ==> FirstCheapest(trials, mask, ver, ecl, codewords) && minPenalty == Some(Penalty(trials[mask]))
      invariant Showing(canvas, ver, ecl, if i == 0 then 0 else i - 1, NO_MASK, codewords)
    {
      ghost var trial;
      var penalty;
      penalty, trial := TryMask(canvas, i, ecl, ver, if i == 0 then 0 else i - 1, codewords);
      FinishedIsGrid(trial, ver, ecl, i, codewords);
      trials := trials + [trial];
      if minPenalty == None || penalty < minPenalty.value {
        mask := i;
        minPenalty := Some(penalty);
      }
    }
  }

  lemma FinishedIsGrid(g: Grid, ver: nat, ecl: Ecc, mask: nat, codewords: seq<Byte>)
    requires IsVersion(ver) && Finished(g, ver, ecl, mask, codewords)
    ensures |g| == SizeOf(ver) > 0
  {
  }

  /** A symbol holds its data: the codewords carry it and the grid shows them. */
  ghost predicate Holds(sym: Symbol, data: seq<Byte>, codewords: seq<Byte>)
  {
    && IsVersion(sym.version) && sym.size == SizeOf(sym.version) && sym.mask < 8
    && LayoutOf(sym.version, sym.level).Carries(codewords, data)
    && Finished(sym.modules, sym.version, sym.level, sym.mask, codewords)
  }

  /** The mask is the cheapest of the eight, and the first such. */
  ghost predicate BestMask(sym: Symbol, codewords: seq<Byte>)
    requires IsVersion(sym.version) && |sym.modules| > 0
  {
    forall m: nat, g: Grid :: m < 8 && |g| > 0 && Finished(g, sym.version, sym.level, m, codewords) ==>
      Penalty(sym.modules) <= Penalty(g) && (m < sym.mask ==> Penalty(sym.modules) < Penalty(g))
  }

  /** The source's QrCode constructor; mask -1 asks for the automatic choice. */
  method NewQrCode(version: int, ecl: Ecc, dataCodewords: seq<Byte>, mask: int)
    returns (r: Result<Symbol>, ghost codewords: seq<Byte>, ghost trials: seq<Grid>)
    ensures r.Ok? <==> IsVersion(version) && -1 <= mask <= 7 && |dataCodewords| == NumDataCodewords(version, ecl)
    ensures r.Ok? ==> r.value.version == version && r.value.level == ecl && Holds(r.value, dataCodewords, codewords)
    ensures r.Ok? && mask >= 0 ==> r.value.mask == mask
    ensures r.Ok? && mask == -1 ==>
      && |trials| == 8 && FirstCheapest(trials, r.value.mask, version, ecl, codewords)
      && r.value.modules == trials[r.value.mask]
  {
    hide Penalty, Shows, FunctionGrid, NumDataCodewords, LayoutOf, Layout.Carries, FirstCheapest;
    codewords, trials := [], [];
    if version < 1 || version > 40 {
      return Err("Version value out of range"), [], [];
    }
    if mask < -1 || mask > 7 {
      return Err("Mask value out of range"), [], [];
    }
    var size := version * 4 + 17;
    var canvas := new Canvas(size);
    var drawn;
    drawn, codewords := DrawUnmasked(canvas, version, ecl, dataCodewords);
    if drawn.Err? {
      return Err(drawn.error), [], [];
    }
    var chosen := mask;
    ghost var format := 0;
    if mask == -1 {
      chosen, trials := ChooseMask(canvas, ecl, version, codewords);
      format := 7;
    }
    assert 0 <= chosen <= 7;
    FinishMask(canvas, chosen, ecl, version, format, codewords);
    if mask == -1 {
      LastTrial(canvas.Colours(), trials, chosen, version, ecl, codewords);
    }
    r := Ok(Symbol(version, size, ecl, chosen, canvas.Colours()));
  }

  lemma LastTrial(g: Grid, trials: seq<Grid>, mask: nat, ver: nat, ecl: Ecc, codewords: seq<Byte>)
    requires IsVersion(ver) && FirstCheapest(trials, mask, ver, ecl, codewords)
    requires Finished(g, ver, ecl, mask, codewords)
    ensures g == trials[mask]
  {
    hide Shows, Penalty;
    ShowsDetermines(g, trials[mask], ver, ecl, mask, mask, codewords);
  }

  /** With the automatic choice no finished grid of the same codewords is cheaper. */
  lemma ChosenMaskIsBest(sym: Symbol, codewords: seq<Byte>, trials: seq<Grid>)
    requires IsVersion(sym.version) && |trials| == 8
    requires FirstCheapest(trials, sym.mask, sym.version, sym.level, codewords) && sym.modules == trials[sym.mask]
    ensures BestMask(sym, codewords)
  {
    hide Shows, Penalty;
    forall m: nat, g: Grid | m < 8 && |g| > 0 && Finished(g, sym.version, sym.level, m, codewords)
      ensures g == trials[m]
    {
      ShowsDetermines(g, trials[m], sym.version, sym.level, m, m, codewords);
    }
  }
}

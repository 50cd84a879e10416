/**
 The function patterns of a symbol. A `Layer` says which cells a drawing step paints and in
 which colour; the drawing methods are proved to overlay exactly their layer.
 */
module Patterns {
  import opened Bits
  import opened Grids
  import opened Results
  import opened Zigzag

  datatype Layer =
    | Blank
    | Timing
    | Finder(x: int, y: int)
    | Alignment(x: int, y: int)
    | Format(bits: nat)
    | Version(bits: nat)
    | Over(top: Layer, bottom: Layer)

  function Abs(d: int): nat
  {
    if d < 0 then -d else d
  }

  function Max(a: int, b: int): int
  {
    if a < b then b else a
  }

  /** The Chebyshev distance of a cell from (x, y). */
  function Dist(c: Cell, x: int, y: int): nat
  {
    Max(Abs(c.x - x), Abs(c.y - y))
  }

  /** The turn at which drawFormatBits paints a cell: 0..14 the first copy, 15..29 the second. */
  function FormatTurn(size: nat, c: Cell): (t: int)
    ensures -1 <= t <= 30
  {
    if c.x == 8 && 0 <= c.y <= 5 then c.y
    else if c.x == 8 && c.y == 7 then 6
    else if c.x == 8 && c.y == 8 then 7
    else if c.x == 7 && c.y == 8 then 8
    else if c.y == 8 && 0 <= c.x <= 5 then 14 - c.x
    else if c.y == 8 && size - 8 <= c.x < size then 15 + size - 1 - c.x
    else if c.x == 8 && size - 7 <= c.y < size then 30 + c.y - size
    else if c.x == 8 && c.y == size - 8 then 30
    else -1
  }

  function VersionIndex(size: nat, c: Cell): (i: int)
    ensures -1 <= i < 18
  {
    if size - 11 <= c.x <= size - 9 && 0 <= c.y <= 5 then 3 * c.y + c.x - (size - 11)
    else if size - 11 <= c.y <= size - 9 && 0 <= c.x <= 5 then 3 * c.x + c.y - (size - 11)
    else -1
  }

  /** The colour a layer gives a cell, if it paints the cell. */
  function Colour(l: Layer, size: nat, c: Cell): Option<bool>
  {
    match l
    case Blank => None
    case Timing =>
      if c.y == 6 then Some(c.x % 2 == 0) else if c.x == 6 then Some(c.y % 2 == 0) else None
    case Finder(x, y) =>
      if Dist(c, x, y) <= 4 then Some(Dist(c, x, y) != 2 && Dist(c, x, y) != 4) else None
    case Alignment(x, y) =>
      if Dist(c, x, y) <= 2 then Some(Dist(c, x, y) != 1) else None
    case Format(bits) =>
      var t := FormatTurn(size, c);
      if t < 0 then None else Some(t == 30 || GetBit(bits, t % 15))
    case Version(bits) =>
      var i := VersionIndex(size, c);
      if i < 0 then None else Some(GetBit(bits, i))
    case Over(top, bottom) =>
      match Colour(top, size, c)
      case Some(b) => Some(b)
      case None => Colour(bottom, size, c)
  }

  predicate Paints(l: Layer, size: nat, c: Cell)
  {
    Colour(l, size, c).Some?
  }

  /** Painting the layer turns the first pair of grids into the second. */
  ghost predicate Overlay(m0: Grid, f0: Grid, m1: Grid, f1: Grid, l: Layer, size: nat)
  {
    forall c: Cell :: Inside(c, size) ==>
      match Colour(l, size, c)
      case Some(b) => At(m1, c) == b && At(f1, c)
      case None => At(m1, c) == At(m0, c) && At(f1, c) == At(f0, c)
  }

  lemma OverlayTwice(m0: Grid, f0: Grid, m1: Grid, f1: Grid, m2: Grid, f2: Grid, l1: Layer, l2: Layer, size: nat)
    requires Overlay(m0, f0, m1, f1, l1, size) && Overlay(m1, f1, m2, f2, l2, size)
    ensures Overlay(m0, f0, m2, f2, Over(l2, l1), size)
  {
  }

  // ----- The format and version words -----

  /** The source's division loop for format bits after n rounds. */
  function FormatRemainder(data: nat, n: nat): nat
  {
    if n == 0 then data
    else
      var rem := FormatRemainder(data, n - 1);
      Xor(2 * rem, Shr(rem, 9) * 0x537)
  }

  function FormatWord(formatBits: nat, mask: nat): nat
  {
    var data := Or(formatBits * 8, mask);
    Xor(Or(data * 1024, FormatRemainder(data, 10)), 0x5412)
  }

  function VersionRemainder(ver: nat, n: nat): nat
  {
    if n == 0 then ver
    else
      var rem := VersionRemainder(ver, n - 1);
      Xor(2 * rem, Shr(rem, 11) * 0x1F25)
  }

  function VersionWord(ver: nat): nat
  {
    Or(ver * 4096, VersionRemainder(ver, 12))
  }

  lemma {:induction false} FormatRemainderBound(data: nat, n: nat)
    requires data < 1024
    ensures FormatRemainder(data, n) < 1024
  {
    hide Xor;
    if n > 0 {
      FormatRemainderBound(data, n - 1);
      var rem := FormatRemainder(data, n - 1);
      ShrByPowers(rem);
      ShrByPowers(2 * rem);
      var t := rem / 512;
      assert t <= 1 && t * 0x537 / 1024 == t && 2 * rem / 1024 == t;
      ShrByPowers((rem / 512) * 0x537);
      XorShift(2 * rem, (rem / 512) * 0x537, 10);
      XorSelf(rem / 512);
      PowerValues();
      ShrSmall(FormatRemainder(data, n), 10);
    }
  }

  lemma {:induction false} VersionRemainderBound(ver: nat, n: nat)
    requires ver < 4096
    ensures VersionRemainder(ver, n) < 4096
  {
    hide Xor;
    if n > 0 {
      VersionRemainderBound(ver, n - 1);
      var rem := VersionRemainder(ver, n - 1);
      ShrByPowers(rem);
      ShrByPowers(2 * rem);
      var t := rem / 2048;
      assert t <= 1 && t * 0x1F25 / 4096 == t && 2 * rem / 4096 == t;
      ShrByPowers((rem / 2048) * 0x1F25);
      XorShift(2 * rem, (rem / 2048) * 0x1F25, 12);
      XorSelf(rem / 2048);
      PowerValues();
      ShrSmall(VersionRemainder(ver, n), 12);
    }
  }

  lemma ShrByPowers(x: nat)
    ensures Shr(x, 9) == x / 512 && Shr(x, 10) == x / 1024
    ensures Shr(x, 11) == x / 2048 && Shr(x, 12) == x / 4096
  {
    ShrStep(x, 1);
    ShrStep(x, 2);
    assert Shr(x, 3) == x / 8;
    ShrStep(x, 3);
    ShrStep(x, 4);
    assert Shr(x, 5) == x / 32;
    ShrStep(x, 5);
    ShrStep(x, 6);
    assert Shr(x, 7) == x / 128;
    ShrStep(x, 7);
    ShrStep(x, 8);
    assert Shr(x, 9) == x / 512;
    ShrStep(x, 9);
    ShrStep(x, 10);
    assert Shr(x, 11) == x / 2048;
    ShrStep(x, 11);
  }

  lemma PowerValues()
    ensures Pow2(3) == 8 && Pow2(5) == 32 && Pow2(6) == 64
    ensures Pow2(10) == 1024 && Pow2(12) == 4096
  {
    assert Pow2(6) == 64;
    assert Pow2(10) == 16 * Pow2(6);
  }

  /** The top five bits of the format word are the level and mask, exclusive-or 10101. */
  lemma FormatWordTop(formatBits: nat, mask: nat)
    requires formatBits < 4 && mask < 8
    ensures Shr(FormatWord(formatBits, mask), 10) == Xor(8 * formatBits + mask, 21) < 32
    ensures Shr(FormatWord(formatBits, mask), 15) == 0
  {
    hide Xor, Or, FormatRemainder;
    PowerValues();
    OrLow(formatBits, mask, 3);
    var data := 8 * formatBits + mask;
    FormatRemainderBound(data, 10);
    var rem := FormatRemainder(data, 10);
    OrLow(data, rem, 10);
    XorShift(data * 1024 + rem, 0x5412, 10);
    ShrShifted(data, rem, 10);
    ShrByPowers(0x5412);
    XorBound(data, 21, 5);
    ShrSmall(Xor(data, 21), 5);
    ShrAdd(FormatWord(formatBits, mask), 10, 5);
  }

  lemma {:induction false} ShrAdd(x: nat, m: nat, n: nat)
    ensures Shr(x, m + n) == Shr(Shr(x, m), n)
  {
    if m > 0 { ShrAdd(x / 2, m - 1, n); }
  }

  lemma VersionWordBound(ver: nat)
    requires ver < 64
    ensures Shr(VersionWord(ver), 18) == 0
  {
    hide Xor, Or, VersionRemainder;
    PowerValues();
    VersionRemainderBound(ver, 12);
    OrLow(ver, VersionRemainder(ver, 12), 12);
    ShrShifted(ver, VersionRemainder(ver, 12), 12);
    ShrSmall(ver, 6);
    ShrAdd(VersionWord(ver), 12, 6);
  }

  /** What drawFormatBits has done after n of its thirty-one paint steps. */
  ghost predicate FormatSoFar(m0: Grid, f0: Grid, m1: Grid, f1: Grid, bits: nat, size: nat, n: int)
  {
    forall c: Cell :: Inside(c, size) ==>
      var t := FormatTurn(size, c);
      if 0 <= t < n then At(m1, c) == (t == 30 || GetBit(bits, t % 15)) && At(f1, c)
      else At(m1, c) == At(m0, c) && At(f1, c) == At(f0, c)
  }

  lemma FormatStart(m: Grid, f: Grid, bits: nat, size: nat)
    ensures FormatSoFar(m, f, m, f, bits, size, 0)
  {
  }

  lemma FormatDone(m0: Grid, f0: Grid, m1: Grid, f1: Grid, bits: nat, size: nat)
    requires FormatSoFar(m0, f0, m1, f1, bits, size, 31)
    ensures Overlay(m0, f0, m1, f1, Format(bits), size)
  {
    hide GetBit, FormatTurn;
  }

  ghost predicate VersionSoFar(m0: Grid, f0: Grid, m1: Grid, f1: Grid, bits: nat, size: nat, n: int)
  {
    forall c: Cell :: Inside(c, size) ==>
      var i := VersionIndex(size, c);
      if 0 <= i < n then At(m1, c) == GetBit(bits, i) && At(f1, c)
      else At(m1, c) == At(m0, c) && At(f1, c) == At(f0, c)
  }

  /** Painting the cell whose turn it is. */
  ghost predicate Painted(m1: Grid, f1: Grid, m2: Grid, f2: Grid, p: Cell, colour: bool, size: nat)
  {
    && Inside(p, size)
    && forall c: Cell :: Inside(c, size) ==>
      && At(m2, c) == (if c == p then colour else At(m1, c))
      && At(f2, c) == (c == p || At(f1, c))
  }

  lemma VersionStart(m: Grid, f: Grid, bits: nat, size: nat)
    ensures VersionSoFar(m, f, m, f, bits, size, 0)
  {
  }

  lemma VersionCells(size: nat, i: nat, c: Cell)
    requires IsSize(size) && i < 18
    ensures VersionIndex(size, c) == i
      <==> c == Cell(size - 11 + i % 3, i / 3) || c == Cell(i / 3, size - 11 + i % 3)
  {
  }

  lemma VersionNext(m0: Grid, f0: Grid, m1: Grid, f1: Grid, m2: Grid, f2: Grid, m3: Grid, f3: Grid,
      bits: nat, size: nat, i: nat)
    requires IsSize(size) && i < 18 && VersionSoFar(m0, f0, m1, f1, bits, size, i)
    requires Painted(m1, f1, m2, f2, Cell(size - 11 + i % 3, i / 3), GetBit(bits, i), size)
    requires Painted(m2, f2, m3, f3, Cell(i / 3, size - 11 + i % 3), GetBit(bits, i), size)
    ensures VersionSoFar(m0, f0, m3, f3, bits, size, i + 1)
  {
    hide GetBit, VersionIndex;
    forall c: Cell | Inside(c, size)
      ensures VersionIndex(size, c) == i
        <==> c == Cell(size - 11 + i % 3, i / 3) || c == Cell(i / 3, size - 11 + i % 3)
    {
      VersionCells(size, i, c);
    }
  }

  lemma VersionDone(m0: Grid, f0: Grid, m1: Grid, f1: Grid, bits: nat, size: nat)
    requires VersionSoFar(m0, f0, m1, f1, bits, size, 18)
    ensures Overlay(m0, f0, m1, f1, Version(bits), size)
  {
    hide GetBit, VersionIndex;
  }

  lemma TurnsDiffer(size: nat, c: Cell, d: Cell)
    requires IsSize(size) && c != d && 0 <= FormatTurn(size, c)
    ensures FormatTurn(size, c) != FormatTurn(size, d)
  {
  }

  lemma FormatNext(m0: Grid, f0: Grid, m1: Grid, f1: Grid, m2: Grid, f2: Grid, bits: nat, size: nat, p: Cell)
    requires IsSize(size) && 0 <= FormatTurn(size, p)
    requires FormatSoFar(m0, f0, m1, f1, bits, size, FormatTurn(size, p))
    requires Painted(m1, f1, m2, f2, p, FormatTurn(size, p) == 30 || GetBit(bits, FormatTurn(size, p) % 15), size)
    ensures FormatSoFar(m0, f0, m2, f2, bits, size, FormatTurn(size, p) + 1)
  {
    hide GetBit, FormatTurn;
    forall c: Cell | Inside(c, size) && c != p ensures FormatTurn(size, c) != FormatTurn(size, p) {
      TurnsDiffer(size, p, c);
    }
  }

  /** The two grids that the QrCode constructor draws on. */
  class Canvas {
    const size: nat
    const modules: array2<bool>
    const isFunction: array2<bool>

    ghost predicate Valid()
    {
      && IsSize(size) && modules != isFunction
      && modules.Length0 == modules.Length1 == isFunction.Length0 == isFunction.Length1 == size
    }

    function Colours(): (g: Grid)
      requires Valid()
      reads modules
      ensures Square(g, size)
    {
      Snapshot(modules)
    }

    function Functions(): (g: Grid)
      requires Valid()
      reads isFunction
      ensures Square(g, size)
    {
      Snapshot(isFunction)
    }

    /** Both grids start out white. */
    constructor (size: nat)
      requires IsSize(size)
      ensures Valid() && this.size == size && fresh(modules) && fresh(isFunction)
      ensures forall c: Cell :: Inside(c, size) ==> !At(Colours(), c) && !At(Functions(), c)
    {
      this.size := size;
      modules := new bool[size, size]((_, _) => false);
      isFunction := new bool[size, size]((_, _) => false);
    }

    method SetFunctionModule(x: int, y: int, isBlack: bool)
      requires Valid() && Inside(Cell(x, y), size)
      modifies modules, isFunction
      ensures forall c: Cell :: Inside(c, size) ==>
        At(Colours(), c) == if c == Cell(x, y) then isBlack else old(At(Colours(), c))
      ensures forall c: Cell :: Inside(c, size) ==>
        At(Functions(), c) == (c == Cell(x, y) || old(At(Functions(), c)))
    {
      modules[y, x] := isBlack;
      isFunction[y, x] := true;
    }

    method DrawTiming()
      requires Valid()
      modifies modules, isFunction
      ensures Overlay(old(Colours()), old(Functions()), Colours(), Functions(), Timing, size)
    {
      for i := 0 to size
        invariant forall c: Cell :: Inside(c, size) ==>
          if (c.y == 6 && c.x < i) || (c.x == 6 && c.y < i)
          then Some(At(Colours(), c)) == Colour(Timing, size, c) && At(Functions(), c)
          else At(Colours(), c) == old(At(Colours(), c)) && At(Functions(), c) == old(At(Functions(), c))
      {
        SetFunctionModule(6, i, i % 2 == 0);
        SetFunctionModule(i, 6, i % 2 == 0);
      }
    }

    method DrawFinderPattern(x: int, y: int)
      requires Valid()
      modifies modules, isFunction
      ensures Overlay(old(Colours()), old(Functions()), Colours(), Functions(), Finder(x, y), size)
    {
      for dy := -4 to 5
        invariant forall c: Cell :: Inside(c, size) ==>
          if Dist(c, x, y) <= 4 && c.y < y + dy
          then Some(At(Colours(), c)) == Colour(Finder(x, y), size, c) && At(Functions(), c)
          else At(Colours(), c) == old(At(Colours(), c)) && At(Functions(), c) == old(At(Functions(), c))
      {
        for dx := -4 to 5
          invariant forall c: Cell :: Inside(c, size) ==>
            if Dist(c, x, y) <= 4 && (c.y < y + dy || (c.y == y + dy && c.x < x + dx))
            then Some(At(Colours(), c)) == Colour(Finder(x, y), size, c) && At(Functions(), c)
            else At(Colours(), c) == old(At(Colours(), c)) && At(Functions(), c) == old(At(Functions(), c))
        {
          var dist := Max(Abs(dx), Abs(dy));
          var xx, yy := x + dx, y + dy;
          if 0 <= xx < size && 0 <= yy < size {
            SetFunctionModule(xx, yy, dist != 2 && dist != 4);
          }
        }
      }
    }

    method DrawAlignmentPattern(x: int, y: int)
      requires Valid() && 2 <= x < size - 2 && 2 <= y < size - 2
      modifies modules, isFunction
      ensures Overlay(old(Colours()), old(Functions()), Colours(), Functions(), Alignment(x, y), size)
    {
      for dy := -2 to 3
        invariant forall c: Cell :: Inside(c, size) ==>
          if Dist(c, x, y) <= 2 && c.y < y + dy
          then Some(At(Colours(), c)) == Colour(Alignment(x, y), size, c) && At(Functions(), c)
          else At(Colours(), c) == old(At(Colours(), c)) && At(Functions(), c) == old(At(Functions(), c))
      {
        for dx := -2 to 3
          invariant forall c: Cell :: Inside(c, size) ==>
            if Dist(c, x, y) <= 2 && (c.y < y + dy || (c.y == y + dy && c.x < x + dx))
            then Some(At(Colours(), c)) == Colour(Alignment(x, y), size, c) && At(Functions(), c)
            else At(Colours(), c) == old(At(Colours(), c)) && At(Functions(), c) == old(At(Functions(), c))
        {
          SetFunctionModule(x + dx, y + dy, Max(Abs(dx), Abs(dy)) != 1);
        }
      }
    }

    method DrawFormatBits(formatBits: nat, mask: nat)
      requires Valid() && formatBits < 4 && mask < 8
      modifies modules, isFunction
      ensures Overlay(old(Colours()), old(Functions()), Colours(), Functions(),
        Format(FormatWord(formatBits, mask)), size)
    {
      hide Xor, Or, GetBit;
      var data := Or(formatBits * 8, mask);
      var rem := data;
      for i := 0 to 10
        invariant rem == FormatRemainder(data, i)
      {
        rem := Xor(2 * rem, Shr(rem, 9) * 0x537);
      }
      var bits := Xor(Or(data * 1024, rem), 0x5412);
      FormatWordTop(formatBits, mask);
      assert Shr(bits, 15) == 0;
      DrawFormatWord(bits);
    }

    /** One call of setFunctionModule by drawFormatBits. */
    method DrawFormatModule(x: int, y: int, isBlack: bool, ghost m0: Grid, ghost f0: Grid, ghost bits: nat)
      requires Valid() && Inside(Cell(x, y), size) && 0 <= FormatTurn(size, Cell(x, y))
      requires FormatSoFar(m0, f0, Colours(), Functions(), bits, size, FormatTurn(size, Cell(x, y)))
      requires isBlack == (FormatTurn(size, Cell(x, y)) == 30 || GetBit(bits, FormatTurn(size, Cell(x, y)) % 15))
      modifies modules, isFunction
      ensures FormatSoFar(m0, f0, Colours(), Functions(), bits, size, FormatTurn(size, Cell(x, y)) + 1)
    {
      hide GetBit, FormatTurn, FormatSoFar;
      ghost var m1, f1 := Colours(), Functions();
      SetFunctionModule(x, y, isBlack);
      FormatNext(m0, f0, m1, f1, Colours(), Functions(), bits, size, Cell(x, y));
    }

    method DrawFirstFormat(bits: nat)
      requires Valid()
      modifies modules, isFunction
      ensures FormatSoFar(old(Colours()), old(Functions()), Colours(), Functions(), bits, size, 15)
    {
      hide GetBit, FormatSoFar, At;
      ghost var m0, f0 := Colours(), Functions();
      FormatStart(m0, f0, bits, size);
      for i := 0 to 6
        invariant FormatSoFar(m0, f0, Colours(), Functions(), bits, size, i)
      {
        DrawFormatModule(8, i, GetBit(bits, i), m0, f0, bits);
      }
      DrawFormatModule(8, 7, GetBit(bits, 6), m0, f0, bits);
      DrawFormatModule(8, 8, GetBit(bits, 7), m0, f0, bits);
      DrawFormatModule(7, 8, GetBit(bits, 8), m0, f0, bits);
      for i := 9 to 15
        invariant FormatSoFar(m0, f0, Colours(), Functions(), bits, size, i)
      {
        DrawFormatModule(14 - i, 8, GetBit(bits, i), m0, f0, bits);
      }
    }

    /** The drawing half of drawFormatBits: two copies and the module that is always black. */
    method DrawFormatWord(bits: nat)
      requires Valid()
      modifies modules, isFunction
      ensures Overlay(old(Colours()), old(Functions()), Colours(), Functions(), Format(bits), size)
    {
      hide GetBit, FormatSoFar, At;
      ghost var m0, f0 := Colours(), Functions();
      DrawFirstFormat(bits);
      for i := 0 to 8
        invariant FormatSoFar(m0, f0, Colours(), Functions(), bits, size, 15 + i)
      {
        DrawFormatModule(size - 1 - i, 8, GetBit(bits, i), m0, f0, bits);
      }
      for i := 8 to 15
        invariant FormatSoFar(m0, f0, Colours(), Functions(), bits, size, 15 + i)
      {
        DrawFormatModule(8, size - 15 + i, GetBit(bits, i), m0, f0, bits);
      }
      DrawFormatModule(8, size - 8, true, m0, f0, bits);
      FormatDone(m0, f0, Colours(), Functions(), bits, size);
    }

    method DrawVersion(ver: nat)
      requires Valid() && ver < 64
      modifies modules, isFunction
      ensures Overlay(old(Colours()), old(Functions()), Colours(), Functions(),
        if ver < 7 then Blank else Version(VersionWord(ver)), size)
    {
      hide Xor, Or, GetBit;
      if ver < 7 {
        return;
      }
      var rem := ver;
      for i := 0 to 12
        invariant rem == VersionRemainder(ver, i)
      {
        rem := Xor(2 * rem, Shr(rem, 11) * 0x1F25);
      }
      var bits := Or(ver * 4096, rem);
      VersionWordBound(ver);
      assert Shr(bits, 18) == 0;
      DrawVersionWord(bits);
    }

    method DrawVersionWord(bits: nat)
      requires Valid()
      modifies modules, isFunction
      ensures Overlay(old(Colours()), old(Functions()), Colours(), Functions(), Version(bits), size)
    {
      hide GetBit;
      hide VersionIndex, VersionSoFar, At;
      ghost var m0, f0 := Colours(), Functions();
      VersionStart(m0, f0, bits, size);
      for i := 0 to 18
        invariant VersionSoFar(m0, f0, Colours(), Functions(), bits, size, i)
      {
        var bit := GetBit(bits, i);
        var a := size - 11 + i % 3;
        var b := i / 3;
        ghost var m1, f1 := Colours(), Functions();
        SetFunctionModule(a, b, bit);
        ghost var m2, f2 := Colours(), Functions();
        SetFunctionModule(b, a, bit);
        VersionNext(m0, f0, m1, f1, m2, f2, Colours(), Functions(), bits, size, i);
      }
      VersionDone(m0, f0, Colours(), Functions(), bits, size);
    }
  }
}

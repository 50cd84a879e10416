/** Mask patterns and the penalty score of a grid. */
module Masking {
  import opened Bits
  import opened DataAreaCount
  import opened Grids
  import opened LinePenalty
  import opened Patterns
  import opened Results

  // ----- Masks -----

  /**
   The patterns as the standard draws them: they repeat after six columns, and row by row these are
   the columns of black cells.
   */
  function Columns(mask: nat, y: int): set<nat>
    requires mask < 8
  {
    match mask
    case 0 => if y % 2 == 0 then {0, 2, 4} else {1, 3, 5}
    case 1 => if y % 2 == 0 then {0, 1, 2, 3, 4, 5} else {}
    case 2 => {0, 3}
    case 3 => (match y % 3 case 0 => {0, 3} case 1 => {2, 5} case 2 => {1, 4})
    case 4 => if y % 4 < 2 then {0, 1, 2} else {3, 4, 5}
    case 5 =>
      (match y % 6 case 0 => {0, 1, 2, 3, 4, 5} case 1 => {0} case 2 => {0, 3} case 3 => {0, 2, 4} case 4 => {0, 3}
       case 5 => {0})
    case 6 =>
      (match y % 6 case 0 => {0, 1, 2, 3, 4, 5} case 1 => {0, 1, 2} case 2 => {0, 1, 3, 4} case 3 => {0, 2, 4}
       case 4 => {0, 2, 3, 5} case 5 => {0, 4, 5})
    case 7 =>
      (match y % 6 case 0 => {0, 2, 4} case 1 => {3, 4, 5} case 2 => {0, 4, 5} case 3 => {1, 3, 5}
       case 4 => {0, 1, 2} case 5 => {1, 2, 3})
  }

  /** Whether mask pattern `mask` inverts the cell; numbers from 8 on invert nothing. */
  predicate Inverts(mask: nat, c: Cell)
  {
    mask < 8 && c.x % 6 in Columns(mask, c.y)
  }

  /** The formulas of the source. */
  predicate Formula(mask: nat, x: nat, y: nat)
    requires mask < 8
  {
    match mask
    case 0 => (x + y) % 2 == 0
    case 1 => y % 2 == 0
    case 2 => x % 3 == 0
    case 3 => (x + y) % 3 == 0
    case 4 => (x / 3 + y / 2) % 2 == 0
    case 5 => x * y % 2 + x * y % 3 == 0
    case 6 => (x * y % 2 + x * y % 3) % 2 == 0
    case 7 => ((x + y) % 2 + x * y % 3) % 2 == 0
  }

  lemma ProductRests(x: nat, y: nat)
    ensures x * y % 2 == (x % 6) * (y % 6) % 2 && x * y % 3 == (x % 6) * (y % 6) % 3
  {
    var n := ProductSplit(x / 6, x % 6, y / 6, y % 6);
    RestsOfSum(x, y, n, (x % 6) * (y % 6));
  }

  lemma RestsOfSum(x: nat, y: nat, n: nat, p: nat)
    requires (6 * (x / 6) + x % 6) * (6 * (y / 6) + y % 6) == 6 * n + p
    ensures x * y % 2 == p % 2 && x * y % 3 == p % 3
  {
    assert 6 * (x / 6) + x % 6 == x && 6 * (y / 6) + y % 6 == y;
    RestsOfSix(x * y, n, p);
  }

  lemma RestsOfSix(product: nat, n: nat, p: nat)
    requires product == 6 * n + p
    ensures product % 2 == p % 2 && product % 3 == p % 3
  {
    RestIs(3 * n + p / 2, p % 2, 2);
    RestIs(2 * n + p / 3, p % 3, 3);
  }

  lemma ProductSplit(q: nat, a: nat, r: nat, b: nat) returns (n: nat)
    ensures (6 * q + a) * (6 * r + b) == 6 * n + a * b
  {
    n := q * (6 * r + b) + a * r;
  }

  lemma SumParity(x: nat, y: nat)
    ensures Formula(0, x, y) <==> x % 6 in Columns(0, y)
  {
    assert x % 2 == x % 6 % 2;
  }

  lemma RowParity(x: nat, y: nat)
    ensures Formula(1, x, y) <==> x % 6 in Columns(1, y)
  {
  }

  lemma ThirdsFormulas(mask: nat, x: nat, y: nat)
    requires 2 <= mask <= 3
    ensures Formula(mask, x, y) <==> x % 6 in Columns(mask, y)
  {
    assert x % 3 == x % 6 % 3;
  }

  lemma QuotientFormula(x: nat, y: nat)
    ensures Formula(4, x, y) <==> x % 6 in Columns(4, y)
  {
    assert x / 3 % 2 == x % 6 / 3 && y / 2 % 2 == y % 4 / 2;
  }

  /** The value of a product formula depends on the rests of the coordinates. */
  lemma ProductFormulas(mask: nat, x: nat, y: nat)
    requires 5 <= mask < 8
    ensures Formula(mask, x, y) <==> Formula(mask, x % 6, y % 6)
  {
    ProductRests(x, y);
  }

  lemma Products5(a: nat, b: nat)
    requires a < 6 && b < 6
    ensures Formula(5, a, b) <==> a in Columns(5, b)
  {
    match b { case 0 => case 1 => case 2 => case 3 => case 4 => case 5 => }
  }

  lemma Products6(a: nat, b: nat)
    requires a < 6 && b < 6
    ensures Formula(6, a, b) <==> a in Columns(6, b)
  {
    match b { case 0 => case 1 => case 2 => case 3 => case 4 => case 5 => }
  }

  lemma FirstProducts7(a: nat, b: nat)
    requires a < 6 && b < 3
    ensures Formula(7, a, b) <==> a in Columns(7, b)
  {
    match b {
      case 0 => assert Formula(7, a, 0) <==> a % 2 == 0;
      case 1 => assert Formula(7, a, 1) <==> ((a + 1) % 2 + a % 3) % 2 == 0;
      case 2 => assert Formula(7, a, 2) <==> (a % 2 + 2 * a % 3) % 2 == 0;
    }
  }

  lemma LowerProducts7(a: nat, b: nat)
    requires a < 6 && 3 <= b < 6
    ensures Formula(7, a, b) <==> a in Columns(7, b)
  {
    match b { case 3 => case 4 => case 5 => }
  }

  lemma ColumnsRepeat(mask: nat, y: nat)
    requires 5 <= mask < 8
    ensures Columns(mask, y) == Columns(mask, y % 6)
  {
  }

  /** The formulas draw the patterns, over the whole plane. */
  lemma FormulaIsPicture(mask: nat, x: nat, y: nat)
    requires mask < 8
    ensures Formula(mask, x, y) <==> Inverts(mask, Cell(x, y))
  {
    hide Formula, Columns;
    var a, b := x % 6, y % 6;
    if mask == 0 {
      SumParity(x, y);
    } else if mask == 1 {
      RowParity(x, y);
    } else if mask <= 3 {
      ThirdsFormulas(mask, x, y);
    } else if mask == 4 {
      QuotientFormula(x, y);
    } else {
      ColumnsRepeat(mask, y);
      ProductFormulas(mask, x, y);
      match mask {
        case 5 => Products5(a, b);
        case 6 => Products6(a, b);
        case 7 => if b < 3 { FirstProducts7(a, b); } else { LowerProducts7(a, b); }
      }
    }
  }

  /** The value of a cell after masking. */
  predicate MaskedAt(g: Grid, isFunction: Grid, mask: nat, c: Cell)
  {
    At(g, c) != (!At(isFunction, c) && Inverts(mask, c))
  }

  ghost predicate IsMasked(before: Grid, after: Grid, isFunction: Grid, mask: nat, size: nat)
  {
    forall c: Cell :: Inside(c, size) ==> At(after, c) == MaskedAt(before, isFunction, mask, c)
  }

  /** Masking twice with one mask changes nothing. */
  lemma MaskingUndoes(g: Grid, h: Grid, i: Grid, isFunction: Grid, mask: nat, size: nat)
    requires IsMasked(g, h, isFunction, mask, size) && IsMasked(h, i, isFunction, mask, size)
    ensures forall c: Cell :: Inside(c, size) ==> At(i, c) == At(g, c)
  {
    hide Inverts, At;
  }

  method ApplyMask(canvas: Canvas, mask: int) returns (r: Result<()>)
    requires canvas.Valid()
    modifies canvas.modules
    ensures r.Ok? <==> 0 <= mask <= 7
    ensures r.Ok? ==> IsMasked(old(canvas.Colours()), canvas.Colours(), canvas.Functions(), mask, canvas.size)
    ensures r.Err? ==> canvas.Colours() == old(canvas.Colours())
    ensures canvas.Functions() == old(canvas.Functions())
  {
    hide Inverts, Formula;
    if mask < 0 || mask > 7 {
      return Err("Mask value out of range");
    }
    ghost var g, f := canvas.Colours(), canvas.Functions();
    for y := 0 to canvas.size
      invariant canvas.Functions() == f
      invariant forall c: Cell :: Inside(c, canvas.size) ==>
        At(canvas.Colours(), c) == if c.y < y then MaskedAt(g, f, mask, c) else At(g, c)
    {
      for x := 0 to canvas.size
        invariant canvas.Functions() == f
        invariant forall c: Cell :: Inside(c, canvas.size) ==>
          At(canvas.Colours(), c)
          == if c.y < y || (c.y == y && c.x < x) then MaskedAt(g, f, mask, c) else At(g, c)
      {
        FormulaIsPicture(mask, x, y);
        var invert := Formula(mask, x, y);
        if !canvas.isFunction[y, x] && invert {
          canvas.modules[y, x] := !canvas.modules[y, x];
        }
      }
    }
    r := Ok(());
  }

  // ----- The penalty score -----

  const PENALTY_N2 := 3
  const PENALTY_N4 := 10

  function RowOf(g: Grid, y: nat): (line: seq<bool>)
    ensures |line| == |g|
  {
    seq(|g|, x requires 0 <= x < |g| => At(g, Cell(x, y)))
  }

  function ColumnOf(g: Grid, x: nat): (line: seq<bool>)
    ensures |line| == |g|
  {
    seq(|g|, y requires 0 <= y < |g| => At(g, Cell(x, y)))
  }

  ghost function RowScores(g: Grid, n: nat): nat
  {
    if n == 0 then 0 else RowScores(g, n - 1) + LineScore(RowOf(g, n - 1))
  }

  ghost function ColumnScores(g: Grid, n: nat): nat
  {
    if n == 0 then 0 else ColumnScores(g, n - 1) + LineScore(ColumnOf(g, n - 1))
  }

  /** Whether the 2*2 block whose top left cell is c has one colour. */
  predicate IsBlock(g: Grid, c: Cell)
  {
    var colour := At(g, c);
    && colour == At(g, Cell(c.x + 1, c.y))
    && colour == At(g, Cell(c.x, c.y + 1))
    && colour == At(g, Cell(c.x + 1, c.y + 1))
  }

  predicate ScanBefore(c: Cell, x: int, y: int)
  {
    c.y < y || (c.y == y && c.x < x)
  }

  /** The one-coloured blocks, up to a point of the row-by-row scan. */
  ghost function Blocks(g: Grid, x: int, y: int): set<Cell>
  {
    set c | c in Rect(0, 0, if |g| == 0 then 0 else |g| - 1, if |g| == 0 then 0 else |g| - 1)
            && ScanBefore(c, x, y) && IsBlock(g, c)
  }

  ghost function BlackCells(g: Grid, x: int, y: int): set<Cell>
  {
    set c | c in Rect(0, 0, |g|, |g|) && ScanBefore(c, x, y) && At(g, c)
  }

  /** How far the share of black is from one half, in whole steps of five percent, rounded down. */
  ghost function Imbalance(black: nat, total: nat): int
    requires total > 0
  {
    (Abs(black * 20 - total * 10) + total - 1) / total - 1
  }

  /**
   The penalty of a finished grid: the lines, three points for each one-coloured block, and ten for
   each step of imbalance.
   */
  ghost function Penalty(g: Grid): int
    requires |g| > 0
  {
    RowScores(g, |g|) + ColumnScores(g, |g|)
    + 3 * |Blocks(g, 0, |g|)|
    + 10 * Imbalance(|BlackCells(g, 0, |g|)|, |g| * |g|)
  }

  /** The step count is the least k >= 0 with the black share within 45-5k and 55+5k percent. */
  lemma ImbalanceIsLeast(black: nat, total: nat, j: nat)
    requires total % 2 == 1
    ensures var k := Imbalance(black, total);
            && k >= 0
            && (45 - 5 * k) * total <= 100 * black <= (55 + 5 * k) * total
            && (j < k ==> !((45 - 5 * j) * total <= 100 * black <= (55 + 5 * j) * total))
  {
    var d, k := Abs(black * 20 - total * 10), Imbalance(black, total);
    var q := (d + total - 1) / total;
    assert q * total <= d + total - 1 < q * total + total;
    assert d != 0;
    if q == 0 { assert false; }
    assert (k + 1) * total == q * total;
    ScaleSteps(k, total);
    ScaleSteps(j, total);
    if j < k { ScaledOrder(j + 1, k, total); }
  }

  lemma ScaleSteps(k: int, total: nat)
    ensures (45 - 5 * k) * total == 45 * total - 5 * (k * total)
    ensures (55 + 5 * k) * total == 55 * total + 5 * (k * total)
    ensures (k + 1) * total == k * total + total
  {
  }

  lemma BlocksStep(g: Grid, x: int, y: int)
    requires 0 <= x < |g| - 1 && 0 <= y < |g| - 1
    ensures |Blocks(g, x + 1, y)| == |Blocks(g, x, y)| + if IsBlock(g, Cell(x, y)) then 1 else 0
  {
    hide IsBlock;
    var c := Cell(x, y);
    assert Blocks(g, x + 1, y) == if IsBlock(g, c) then Blocks(g, x, y) + {c} else Blocks(g, x, y);
  }

  lemma BlocksNextRow(g: Grid, y: int)
    requires 0 <= y < |g|
    ensures Blocks(g, |g| - 1, y) == Blocks(g, 0, y + 1)
    ensures y == |g| - 1 ==> Blocks(g, 0, y) == Blocks(g, 0, |g|)
    ensures |Blocks(g, 0, 0)| == 0
  {
    hide IsBlock;
    assert Blocks(g, 0, 0) == {};
  }

  lemma BlackStep(g: Grid, x: int, y: int)
    requires 0 <= x < |g| && 0 <= y < |g|
    ensures |BlackCells(g, x + 1, y)| == |BlackCells(g, x, y)| + if At(g, Cell(x, y)) then 1 else 0
  {
    hide At;
    var c := Cell(x, y);
    assert BlackCells(g, x + 1, y) == if At(g, c) then BlackCells(g, x, y) + {c} else BlackCells(g, x, y);
  }

  lemma BlackNextRow(g: Grid, y: int)
    ensures BlackCells(g, |g|, y) == BlackCells(g, 0, y + 1)
    ensures |BlackCells(g, 0, 0)| == 0
  {
    hide At;
    assert BlackCells(g, 0, 0) == {};
  }

  method CountBlocks(canvas: Canvas) returns (count: nat)
    requires canvas.Valid()
    ensures count == |Blocks(canvas.Colours(), 0, canvas.size)|
  {
    hide Blocks;
    count := 0;
    ghost var g := canvas.Colours();
    BlocksNextRow(g, 0);
    for y := 0 to canvas.size - 1
      invariant count == |Blocks(g, 0, y)|
    {
      for x := 0 to canvas.size - 1
        invariant count == |Blocks(g, x, y)|
      {
        BlocksStep(g, x, y);
        var color := canvas.modules[y, x];
        if color == canvas.modules[y, x + 1] && color == canvas.modules[y + 1, x]
          && color == canvas.modules[y + 1, x + 1]
        {
          count := count + 1;
        }
      }
      BlocksNextRow(g, y);
    }
    BlocksNextRow(g, canvas.size - 1);
  }

  method CountBlack(canvas: Canvas) returns (black: nat)
    requires canvas.Valid()
    ensures black == |BlackCells(canvas.Colours(), 0, canvas.size)|
  {
    hide BlackCells;
    black := 0;
    ghost var g := canvas.Colours();
    BlackNextRow(g, 0);
    for y := 0 to canvas.size
      invariant black == |BlackCells(g, 0, y)|
    {
      for x := 0 to canvas.size
        invariant black == |BlackCells(g, x, y)|
      {
        BlackStep(g, x, y);
        if canvas.modules[y, x] {
          black := black + 1;
        }
      }
      BlackNextRow(g, y);
    }
  }

  method ScoreRows(canvas: Canvas) returns (result: nat)
    requires canvas.Valid()
    ensures result == RowScores(canvas.Colours(), canvas.size)
  {
    hide LineScore, At, Canvas.Functions, IsBlock;
    ghost var g := canvas.Colours();
    var size := canvas.size;
    result := 0;
    for y := 0 to size
      invariant result == RowScores(g, y)
    {
      var line := RowLine(canvas, y);
      var score := ScoreLine(line);
      result := result + score;
    }
  }

  method ScoreColumns(canvas: Canvas) returns (result: nat)
    requires canvas.Valid()
    ensures result == ColumnScores(canvas.Colours(), canvas.size)
  {
    hide LineScore, At, Canvas.Functions, IsBlock;
    ghost var g := canvas.Colours();
    var size := canvas.size;
    result := 0;
    for x := 0 to size
      invariant result == ColumnScores(g, x)
    {
      var line := ColumnLine(canvas, x);
      var score := ScoreLine(line);
      result := result + score;
    }
  }

  method RowLine(canvas: Canvas, y: nat) returns (line: seq<bool>)
    requires canvas.Valid() && y < canvas.size
    ensures line == RowOf(canvas.Colours(), y)
  {
    line := seq(canvas.size, x requires 0 <= x < canvas.size reads canvas.modules => canvas.modules[y, x]);
  }

  method ColumnLine(canvas: Canvas, x: nat) returns (line: seq<bool>)
    requires canvas.Valid() && x < canvas.size
    ensures line == ColumnOf(canvas.Colours(), x)
  {
    line := seq(canvas.size, y requires 0 <= y < canvas.size reads canvas.modules => canvas.modules[y, x]);
  }

  /** The source's getPenaltyScore. */
  method GetPenaltyScore(canvas: Canvas) returns (result: int)
    requires canvas.Valid()
    ensures result == Penalty(canvas.Colours())
  {
    hide RowScores, ColumnScores, Blocks, BlackCells, Imbalance, At;
    var size := canvas.size;
    var rows := ScoreRows(canvas);
    var columns := ScoreColumns(canvas);
    var blocks := CountBlocks(canvas);
    var black := CountBlack(canvas);
    var k := CeilingOfShare(black, size * size);
    result := rows + columns + PENALTY_N2 * blocks + k * PENALTY_N4;
  }

  method CeilingOfShare(black: nat, total: nat) returns (k: int)
    requires total > 0
    ensures k == Imbalance(black, total)
  {
    hide Imbalance, Abs;
    var d: nat := Abs(black * 20 - total * 10);
    var q, r := d / total, d % total;
    k := if r == 0 then q - 1 else q;
    Division(d, total);
    ImbalanceRoundsUp(black, total, q, r);
  }

  lemma Division(d: nat, total: nat)
    requires total > 0
    ensures d == d / total * total + d % total
  {
  }

  /** Rounding up is adding the divisor less one before dividing. */
  lemma ImbalanceRoundsUp(black: nat, total: nat, q: nat, r: nat)
    requires total > 0 && Abs(black * 20 - total * 10) == q * total + r && r < total
    ensures Imbalance(black, total) == if r == 0 then q - 1 else q
  {
    var d := Abs(black * 20 - total * 10);
    if r == 0 {
      QuotientIs(d + total - 1, total, q, total - 1);
    } else {
      assert (q + 1) * total == q * total + total;
      QuotientIs(d + total - 1, total, q + 1, r - 1);
    }
  }

  lemma QuotientIs(a: nat, d: nat, q: nat, r: nat)
    requires d > 0 && a == q * d + r && r < d
    ensures a / d == q
  {
    var p := a / d;
    ScaledOrder(q + 1, p, d);
    ScaledOrder(p + 1, q, d);
  }
}

/**
 The zigzag scan over the data area: the order in which codeword bits are drawn, and
 in which a reader takes them back.
 */
module Zigzag {
  import opened Bits
  import opened BitStream
  import opened Grids
  import opened Results
  import opened Sequences

  /** The sizes 4v + 17 of symbols. */
  predicate IsSize(size: int)
  {
    21 <= size <= 177 && size % 4 == 1
  }

  /** The right column of the p-th column pair; column 6 is skipped. */
  function RightColumn(size: int, p: nat): int
  {
    if size - 1 - 2 * p > 6 then size - 1 - 2 * p else size - 2 - 2 * p
  }

  /** The source's `((right + 1) & 2) == 0`. */
  predicate Upward(right: nat)
  {
    (right + 1) / 2 % 2 == 0
  }

  function RowAt(size: int, right: nat, vert: int): int
  {
    if Upward(right) then size - 1 - vert else vert
  }

  /** The first n rows of a column pair, two cells a row. */
  function PairCells(size: int, right: nat, n: nat): (cells: seq<Cell>)
    ensures |cells| == 2 * n
  {
    if n == 0 then []
    else
      var y := RowAt(size, right, n - 1);
      PairCells(size, right, n - 1) + [Cell(right, y), Cell(right - 1, y)]
  }

  /** The cells of the first p column pairs, in the order of the scan. */
  function Scan(size: nat, p: nat): (cells: seq<Cell>)
    requires IsSize(size) && 2 * p <= size - 1
    ensures |cells| == 2 * p * size
  {
    if p == 0 then []
    else
      assert 2 * p * size == 2 * (p - 1) * size + 2 * size;
      Scan(size, p - 1) + PairCells(size, RightColumn(size, p - 1), size)
  }

  /**
   The order of the scan: pairs of columns from right to left without column 6, upward and downward
   in turn, starting upward in the bottom right corner; in each row the right cell first.
   */
  function FullScan(size: nat): (cells: seq<Cell>)
    requires IsSize(size)
    ensures |cells| == (size - 1) * size
  {
    seq((size - 1) * size, k requires 0 <= k < (size - 1) * size => CellInOrder(size, k))
  }

  /** Each pair has two cells in each row. */
  function CellInOrder(size: nat, k: nat): Cell
    requires size > 0
  {
    CellOfPair(size, k / (2 * size), k % (2 * size))
  }

  /** Cell k of pair p. */
  function CellOfPair(size: nat, p: nat, k: nat): Cell
  {
    var column := size - 1 - 2 * p - k % 2;
    var row := if p % 2 == 0 then size - 1 - k / 2 else k / 2;
    Cell(if size - 1 - 2 * p > 6 then column else column - 1, row)
  }

  /** The direction alternates from pair to pair. */
  lemma UpwardAlternates(size: nat, p: nat)
    requires IsSize(size) && 2 * p < size - 1
    ensures Upward(RightColumn(size, p)) <==> p % 2 == 0
  {
    var m := size / 4;
    assert size == 4 * m + 1;
    assert (RightColumn(size, p) + 1) / 2 == 2 * m - p;
  }

  lemma {:induction false} PairCellsAre(size: nat, p: nat, n: nat)
    requires IsSize(size) && 2 * p < size - 1 && n <= size
    ensures forall k :: 0 <= k < 2 * n ==> PairCells(size, RightColumn(size, p), n)[k] == CellOfPair(size, p, k)
  {
    hide Upward;
    UpwardAlternates(size, p);
    if n > 0 { PairCellsAre(size, p, n - 1); }
  }

  lemma {:induction false} ScanCells(size: nat, p: nat)
    requires IsSize(size) && 2 * p <= size - 1
    ensures forall k: nat :: k < |Scan(size, p)| ==> Scan(size, p)[k] == CellInOrder(size, k)
  {
    hide PairCells, CellInOrder;
    if p > 0 {
      ScanCells(size, p - 1);
      ScanNext(size, p - 1);
    }
  }

  lemma ScanNext(size: nat, p: nat)
    requires IsSize(size) && 2 * p < size - 1
    ensures forall k: nat :: |Scan(size, p)| <= k < |Scan(size, p + 1)| ==>
      Scan(size, p + 1)[k] == CellInOrder(size, k)
  {
    hide PairCells, CellInOrder;
    PairCellsAre(size, p, size);
    NextPair(size, p);
    var start := |Scan(size, p)|;
    hide Scan;
    forall k: nat | start <= k < |Scan(size, p + 1)| ensures Scan(size, p + 1)[k] == CellInOrder(size, k) {
      PlaceInPair(size, p, k, start);
    }
  }

  lemma PlaceInPair(size: nat, p: nat, k: nat, start: nat)
    requires start == 2 * p * size <= k < start + 2 * size
    ensures CellInOrder(size, k) == CellOfPair(size, p, k - start)
  {
    hide CellOfPair;
    assert 2 * p * size == p * (2 * size);
    RestIs(p, k - start, 2 * size);
  }

  /** The loops of the source visit the cells in this order. */
  lemma ScanIsFull(size: nat)
    requires IsSize(size)
    ensures Scan(size, (size - 1) / 2) == FullScan(size)
  {
    hide Scan, CellInOrder, FullScan;
    ScanCells(size, (size - 1) / 2);
    assert 2 * ((size - 1) / 2) == size - 1;
    FullScanCells(size);
  }

  lemma FullScanCells(size: nat)
    requires IsSize(size)
    ensures forall k: nat :: k < (size - 1) * size ==> FullScan(size)[k] == CellInOrder(size, k)
  {
    hide CellInOrder;
  }

  lemma {:induction false} PairMembers(size: nat, right: nat, n: nat)
    requires n <= size
    ensures forall c: Cell :: c in PairCells(size, right, n) <==>
      (c.x == right || c.x == right - 1) && 0 <= RowAt(size, right, c.y) < n
    ensures Distinct(PairCells(size, right, n))
  {
    if n > 0 {
      PairMembers(size, right, n - 1);
      var y := RowAt(size, right, n - 1);
      assert RowAt(size, right, y) == n - 1;
      forall c: Cell | (c.x == right || c.x == right - 1) && 0 <= RowAt(size, right, c.y) < n
        ensures c in PairCells(size, right, n)
      {
        if RowAt(size, right, c.y) == n - 1 {
          assert c == Cell(right, y) || c == Cell(right - 1, y);
          assert PairCells(size, right, n)[2 * n - 2] == Cell(right, y);
          assert PairCells(size, right, n)[2 * n - 1] == Cell(right - 1, y);
        }
      }
    }
  }

  /** After p pairs, exactly the cells right of the next pair have been visited, column 6 apart. */
  lemma {:induction false} ScanMembers(size: nat, p: nat)
    requires IsSize(size) && 2 * p <= size - 1
    ensures forall c: Cell :: c in Scan(size, p) <==>
      0 <= c.y < size && RightColumn(size, p) < c.x < size && c.x != 6
    ensures Distinct(Scan(size, p))
  {
    hide PairCells, Distinct;
    if p == 0 {
      EmptyIsDistinct();
    } else {
      var right := RightColumn(size, p - 1);
      ScanMembers(size, p - 1);
      PairMembers(size, right, size);
      DistinctConcat(Scan(size, p - 1), PairCells(size, right, size));
    }
  }

  lemma EmptyIsDistinct()
    ensures Distinct<Cell>([])
  {
  }

  lemma DistinctConcat(a: seq<Cell>, b: seq<Cell>)
    requires Distinct(a) && Distinct(b) && forall c: Cell :: c in a ==> c !in b
    ensures Distinct(a + b)
  {
    forall i, j | 0 <= i < j < |a + b| ensures (a + b)[i] != (a + b)[j] {
      if i < |a| <= j { assert (a + b)[i] in a && (a + b)[j] in b; }
    }
  }

  /** The scan visits every cell outside column 6 once and no other cell. */
  lemma FullScanMembers(size: nat)
    requires IsSize(size)
    ensures Distinct(FullScan(size))
    ensures forall c: Cell :: c in FullScan(size) <==> Inside(c, size) && c.x != 6
  {
    hide Scan, Distinct, FullScan;
    ScanMembers(size, (size - 1) / 2);
    ScanIsFull(size);
  }

  // ----- The data area -----

  /** Those of the cells that are not function modules, in order. */
  function DataCells(cells: seq<Cell>, isFunction: Grid): seq<Cell>
  {
    if |cells| == 0 then []
    else
      var last := cells[|cells| - 1];
      DataCells(cells[..|cells| - 1], isFunction) + if At(isFunction, last) then [] else [last]
  }

  lemma DataCellsAppend(cells: seq<Cell>, c: Cell, isFunction: Grid)
    ensures DataCells(cells + [c], isFunction)
         == DataCells(cells, isFunction) + if At(isFunction, c) then [] else [c]
  {
    assert (cells + [c])[..|cells|] == cells;
  }

  lemma {:induction false} DataCellsMembers(cells: seq<Cell>, isFunction: Grid)
    ensures forall c: Cell :: c in DataCells(cells, isFunction) <==> c in cells && !At(isFunction, c)
    ensures Distinct(cells) ==> Distinct(DataCells(cells, isFunction))
  {
    if |cells| > 0 {
      var init, last := cells[..|cells| - 1], cells[|cells| - 1];
      DataCellsMembers(init, isFunction);
      assert cells == init + [last];
    }
  }

  /** The data area of a symbol in scan order. */
  function DataArea(size: nat, isFunction: Grid): seq<Cell>
    requires IsSize(size)
  {
    DataCells(FullScan(size), isFunction)
  }

  predicate CoversTimingColumn(size: nat, isFunction: Grid)
  {
    forall y :: 0 <= y < size ==> At(isFunction, Cell(6, y))
  }

  /** The scan meets every non-function cell of the symbol exactly once and nothing else. */
  lemma DataAreaMembers(size: nat, isFunction: Grid)
    requires IsSize(size) && CoversTimingColumn(size, isFunction)
    ensures Distinct(DataArea(size, isFunction))
    ensures forall c: Cell :: c in DataArea(size, isFunction) <==> Inside(c, size) && !At(isFunction, c)
  {
    FullScanMembers(size);
    DataCellsMembers(FullScan(size), isFunction);
    forall c: Cell | Inside(c, size) && c.x == 6 ensures At(isFunction, c) {
      assert c == Cell(6, c.y);
    }
  }

  function ReadCells(g: Grid, cells: seq<Cell>): (bits: seq<bool>)
    ensures |bits| == |cells|
  {
    seq(|cells|, k requires 0 <= k < |cells| => At(g, cells[k]))
  }

  /** The first n cells hold the first n bits; every other cell is as before. */
  ghost predicate Drawn(before: Grid, after: Grid, cells: seq<Cell>, bits: seq<bool>, n: nat)
  {
    && |before| == |after| && n <= |cells| && n <= |bits|
    && (forall k :: 0 <= k < n ==> At(after, cells[k]) == bits[k])
    && forall c: Cell :: Inside(c, |before|) && c !in cells[..n] ==> At(after, c) == At(before, c)
  }

  lemma DrawnReads(before: Grid, after: Grid, cells: seq<Cell>, bits: seq<bool>)
    requires Drawn(before, after, cells, bits, |bits|)
    ensures ReadCells(after, cells)[..|bits|] == bits
  {
  }

  lemma DrawnNext(before: Grid, now: Grid, after: Grid, cells: seq<Cell>, bits: seq<bool>, c: Cell)
    requires Drawn(before, now, cells, bits, |cells|) && |cells| < |bits|
    requires c !in cells && |after| == |now| && At(after, c) == bits[|cells|]
    requires forall d: Cell :: Inside(d, |now|) && d != c ==> At(after, d) == At(now, d)
    requires forall d: Cell :: d in cells ==> Inside(d, |now|)
    ensures Drawn(before, after, cells + [c], bits, |cells| + 1)
  {
    assert (cells + [c])[..|cells| + 1] == cells + [c];
    assert cells[..|cells|] == cells;
  }

  /** The bit index after a scan of the given cells, and the grid drawn so far. */
  ghost predicate Progress(modules: array2<bool>, before: Grid, cells: seq<Cell>, bits: seq<bool>, i: int)
    requires modules.Length0 == modules.Length1
    reads modules
  {
    && i == (if |cells| < |bits| then |cells| else |bits|)
    && Drawn(before, Snapshot(modules), cells, bits, i)
  }

  ghost predicate AllInside(cells: seq<Cell>, size: nat)
  {
    forall c: Cell :: c in cells ==> Inside(c, size)
  }

  /** The innermost step of the source's drawCodewords. */
  method DrawCell(modules: array2<bool>, isFunction: array2<bool>, c: Cell, data: seq<Byte>, i: nat,
      ghost before: Grid, ghost seen: seq<Cell>) returns (next: nat)
    requires modules.Length0 == modules.Length1 == isFunction.Length0 == isFunction.Length1
    requires modules != isFunction && Inside(c, modules.Length0) && c !in seen
    requires AllInside(seen, modules.Length0)
    requires Progress(modules, before, DataCells(seen, Snapshot(isFunction)), BytesToBits(data), i)
    modifies modules
    ensures Progress(modules, before, DataCells(seen + [c], Snapshot(isFunction)), BytesToBits(data), next)
  {
    hide DataCells, BytesToBits, Drawn;
    ghost var f := Snapshot(isFunction);
    ghost var cells, now := DataCells(seen, f), Snapshot(modules);
    DataCellsAppend(seen, c, f);
    DataCellsMembers(seen, f);
    next := i;
    if !isFunction[c.y, c.x] && i < 8 * |data| {
      BytesToBitsAt(data, i);
      modules[c.y, c.x] := GetBit(data[i / 8], 7 - i % 8);
      next := i + 1;
      assert Snapshot(isFunction) == f;
      DrawnNext(before, now, Snapshot(modules), cells, BytesToBits(data), c);
    } else if !isFunction[c.y, c.x] {
      DrawnSkip(before, now, cells, BytesToBits(data), c);
    } else {
      assert cells + [] == cells;
    }
  }

  lemma DrawnSkip(before: Grid, now: Grid, cells: seq<Cell>, bits: seq<bool>, c: Cell)
    requires Drawn(before, now, cells, bits, |bits|)
    ensures Drawn(before, now, cells + [c], bits, |bits|)
  {
    assert (cells + [c])[..|bits|] == cells[..|bits|];
  }

  /** Draws the codewords; refuses if the data area is too small for them. */
  method DrawCodewords(modules: array2<bool>, isFunction: array2<bool>, data: seq<Byte>) returns (r: Result<()>)
    requires IsSize(modules.Length0)
    requires modules.Length0 == modules.Length1 == isFunction.Length0 == isFunction.Length1
    requires modules != isFunction
    modifies modules
    ensures r.Ok? <==> |DataArea(modules.Length0, Snapshot(isFunction))| >= 8 * |data|
    ensures r.Ok? ==> Drawn(old(Snapshot(modules)), Snapshot(modules),
      DataArea(modules.Length0, Snapshot(isFunction)), BytesToBits(data), 8 * |data|)
  {
    hide DataCells, BytesToBits, Drawn, Scan, PairCells, FullScan;
    ghost var before, f := Snapshot(modules), Snapshot(isFunction);
    var size := modules.Length0;
    var i := 0;
    var right := size - 1;
    ghost var p := 0;
    ghost var seen := [];
    EmptyScan(size, before, f, BytesToBits(data));
    while right >= 1
      invariant right == size - 1 - 2 * p || (right == size - 2 - 2 * p && right < 6)
      invariant 0 <= 2 * p <= size - 1 && RightColumn(size, p) == if right == 6 then 5 else right
      invariant seen == Scan(size, p)
      invariant Snapshot(isFunction) == f && Progress(modules, before, DataCells(seen, f), BytesToBits(data), i)
    {
      if right == 6 {
        right := 5;
      }
      i := DrawPair(modules, isFunction, right, data, i, before, seen, p);
      NextPair(size, p);
      p := p + 1;
      seen := Scan(size, p);
      right := right - 2;
    }
    assert p == (size - 1) / 2;
    ScanIsFull(size);
    if i != 8 * |data| {
      return Err("Assertion error");
    }
    r := Ok(());
  }

  lemma EmptyScan(size: nat, before: Grid, f: Grid, bits: seq<bool>)
    requires IsSize(size)
    ensures Scan(size, 0) == []
    ensures DataCells([], f) == [] && Drawn(before, before, [], bits, 0)
  {
  }

  lemma NextPair(size: nat, p: nat)
    requires IsSize(size) && 2 * p < size - 1
    ensures Scan(size, p + 1) == Scan(size, p) + PairCells(size, RightColumn(size, p), size)
  {
  }

  lemma NextRow(size: nat, right: nat, vert: nat)
    ensures PairCells(size, right, 0) == []
    ensures PairCells(size, right, vert + 1)
         == PairCells(size, right, vert)
            + [Cell(right, RowAt(size, right, vert)), Cell(right - 1, RowAt(size, right, vert))]
  {
  }

  lemma RowsReflect(size: nat, right: nat)
    ensures forall v :: RowAt(size, right, RowAt(size, right, v)) == v
    ensures forall v :: 0 <= v < size <==> 0 <= RowAt(size, right, v) < size
  {
  }

  /** The cells seen before row `vert` of pair p are inside, and the two cells of that row are new. */
  lemma RowIsNew(size: nat, p: nat, vert: nat)
    requires IsSize(size) && 2 * p < size - 1 && vert < size
    ensures var right := RightColumn(size, p);
            var y := RowAt(size, right, vert);
            var seen := Scan(size, p) + PairCells(size, right, vert);
            && AllInside(seen, size) && Cell(right, y) !in seen && Cell(right - 1, y) !in seen
            && Inside(Cell(right, y), size) && Inside(Cell(right - 1, y), size)
  {
    hide Scan, PairCells, Distinct, RowAt;
    ScanMembers(size, p);
    PairMembers(size, RightColumn(size, p), vert);
    RowsReflect(size, RightColumn(size, p));
  }

  method DrawPair(modules: array2<bool>, isFunction: array2<bool>, right: nat, data: seq<Byte>, start: nat,
      ghost before: Grid, ghost seen: seq<Cell>, ghost p: nat) returns (i: nat)
    requires IsSize(modules.Length0) && 2 * p < modules.Length0 - 1
    requires modules.Length0 == modules.Length1 == isFunction.Length0 == isFunction.Length1
    requires modules != isFunction
    requires right == RightColumn(modules.Length0, p) && seen == Scan(modules.Length0, p)
    requires Progress(modules, before, DataCells(seen, Snapshot(isFunction)), BytesToBits(data), start)
    modifies modules
    ensures Progress(modules, before,
      DataCells(seen + PairCells(modules.Length0, right, modules.Length0), Snapshot(isFunction)), BytesToBits(data), i)
  {
    hide DataCells, BytesToBits, Drawn, Scan, PairCells;
    ghost var f := Snapshot(isFunction);
    var size := modules.Length0;
    i := start;
    NextRow(size, right, 0);
    assert seen + [] == seen;
    for vert := 0 to size
      invariant Snapshot(isFunction) == f
      invariant Progress(modules, before, DataCells(seen + PairCells(size, right, vert), f), BytesToBits(data), i)
    {
      var upward := (right + 1) / 2 % 2 == 0;
      var y := if upward then size - 1 - vert else vert;
      ghost var now := seen + PairCells(size, right, vert);
      RowIsNew(size, p, vert);
      NextRow(size, right, vert);
      i := DrawCell(modules, isFunction, Cell(right, y), data, i, before, now);
      assert Snapshot(isFunction) == f;
      i := DrawCell(modules, isFunction, Cell(right - 1, y), data, i, before, now + [Cell(right, y)]);
      assert now + [Cell(right, y)] + [Cell(right - 1, y)] == seen + PairCells(size, right, vert + 1);
    }
  }
}

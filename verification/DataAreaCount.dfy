/**
 The cells left for data number exactly `NumRawDataModules`: the function patterns are cut
 into disjoint rectangles and counted.
 */
module DataAreaCount {
  import opened Bits
  import opened FunctionArea
  import opened Grids
  import opened Patterns
  import opened Sequences
  import opened Tables
  import opened Zigzag

  predicate InRect(c: Cell, x: int, y: int, w: int, h: int)
  {
    x <= c.x < x + w && y <= c.y < y + h
  }

  ghost function Row(x: int, y: int, w: nat): (s: set<Cell>)
    ensures |s| == w
    ensures forall c: Cell :: c in s <==> InRect(c, x, y, w, 1)
  {
    if w == 0 then {} else Row(x, y, w - 1) + {Cell(x + w - 1, y)}
  }

  ghost function Rect(x: int, y: int, w: nat, h: nat): (s: set<Cell>)
    ensures |s| == w * h
    ensures forall c: Cell :: c in s <==> InRect(c, x, y, w, h)
  {
    if h == 0 then {}
    else
      assert w * h == w * (h - 1) + w;
      Rect(x, y, w, h - 1) + Row(x, y + h - 1, w)
  }

  /** Whether a coordinate is within two of one of the centres lo .. hi-1. */
  predicate Near(ps: seq<int>, lo: nat, hi: nat, x: int)
    requires lo <= hi <= |ps|
  {
    lo < hi && (Abs(x - ps[hi - 1]) <= 2 || Near(ps, lo, hi - 1, x))
  }

  lemma {:induction false} NearRange(ps: seq<int>, size: nat, lo: nat, hi: nat, x: int)
    requires WellSpaced(ps, size) && lo <= hi <= |ps| && Near(ps, lo, hi, x)
    ensures 0 < hi && ps[lo] - 2 <= x <= ps[hi - 1] + 2
  {
    Increasing(ps, size, lo, hi - 1);
    if Abs(x - ps[hi - 1]) > 2 {
      NearRange(ps, size, lo, hi - 1, x);
    }
  }

  lemma {:induction false} Increasing(ps: seq<int>, size: nat, i: nat, j: nat)
    requires WellSpaced(ps, size) && i <= j < |ps|
    ensures ps[i] <= ps[j]
  {
    if i < j { Increasing(ps, size, i, j - 1); }
  }

  lemma DisjointUnion(a: set<Cell>, b: set<Cell>)
    requires a !! b
    ensures |a + b| == |a| + |b|
  {
  }

  /** The horizontal strips of height h, starting at y, around centres lo .. hi-1. */
  ghost function Strip(ps: seq<int>, lo: nat, hi: nat, y: int, h: nat): set<Cell>
    requires lo <= hi <= |ps|
  {
    if lo == hi then {} else Strip(ps, lo, hi - 1, y, h) + Rect(ps[hi - 1] - 2, y, 5, h)
  }

  lemma {:induction false} StripMembers(ps: seq<int>, lo: nat, hi: nat, y: int, h: nat)
    requires lo <= hi <= |ps|
    ensures forall c: Cell :: c in Strip(ps, lo, hi, y, h) <==> y <= c.y < y + h && Near(ps, lo, hi, c.x)
  {
    hide Rect;
    if lo < hi { StripMembers(ps, lo, hi - 1, y, h); }
  }

  lemma StripApart(ps: seq<int>, size: nat, lo: nat, hi: nat, y: int, h: nat)
    requires WellSpaced(ps, size) && lo < hi <= |ps|
    ensures Strip(ps, lo, hi - 1, y, h) !! Rect(ps[hi - 1] - 2, y, 5, h)
  {
    hide Rect, Strip, Near;
    StripMembers(ps, lo, hi - 1, y, h);
    var rest, last := Strip(ps, lo, hi - 1, y, h), Rect(ps[hi - 1] - 2, y, 5, h);
    forall c: Cell | c in rest ensures c !in last {
      NearRange(ps, size, lo, hi - 1, c.x);
    }
  }

  lemma {:induction false} StripCount(ps: seq<int>, size: nat, lo: nat, hi: nat, y: int, h: nat)
    requires WellSpaced(ps, size) && lo <= hi <= |ps|
    ensures |Strip(ps, lo, hi, y, h)| == (hi - lo) * (5 * h)
  {
    hide Rect, WellSpaced;
    if lo < hi {
      StripCount(ps, size, lo, hi - 1, y, h);
      StripApart(ps, size, lo, hi, y, h);
      DisjointUnion(Strip(ps, lo, hi - 1, y, h), Rect(ps[hi - 1] - 2, y, 5, h));
      OneMoreTimes(hi - 1 - lo, 5 * h);
    }
  }

  /** The same strips, turned by the diagonal. */
  ghost function Turned(ps: seq<int>, lo: nat, hi: nat, x: int, w: nat): set<Cell>
    requires lo <= hi <= |ps|
  {
    if lo == hi then {} else Turned(ps, lo, hi - 1, x, w) + Rect(x, ps[hi - 1] - 2, w, 5)
  }

  lemma {:induction false} TurnedMembers(ps: seq<int>, lo: nat, hi: nat, x: int, w: nat)
    requires lo <= hi <= |ps|
    ensures forall c: Cell :: c in Turned(ps, lo, hi, x, w) <==> x <= c.x < x + w && Near(ps, lo, hi, c.y)
  {
    hide Rect;
    if lo < hi { TurnedMembers(ps, lo, hi - 1, x, w); }
  }

  lemma TurnedApart(ps: seq<int>, size: nat, lo: nat, hi: nat, x: int, w: nat)
    requires WellSpaced(ps, size) && lo < hi <= |ps|
    ensures Turned(ps, lo, hi - 1, x, w) !! Rect(x, ps[hi - 1] - 2, w, 5)
  {
    hide Rect, Turned, Near;
    TurnedMembers(ps, lo, hi - 1, x, w);
    var rest, last := Turned(ps, lo, hi - 1, x, w), Rect(x, ps[hi - 1] - 2, w, 5);
    forall c: Cell | c in rest ensures c !in last {
      NearRange(ps, size, lo, hi - 1, c.y);
    }
  }

  lemma {:induction false} TurnedCount(ps: seq<int>, size: nat, lo: nat, hi: nat, x: int, w: nat)
    requires WellSpaced(ps, size) && lo <= hi <= |ps|
    ensures |Turned(ps, lo, hi, x, w)| == (hi - lo) * (5 * w)
  {
    hide Rect, WellSpaced;
    if lo < hi {
      TurnedCount(ps, size, lo, hi - 1, x, w);
      TurnedApart(ps, size, lo, hi, x, w);
      DisjointUnion(Turned(ps, lo, hi - 1, x, w), Rect(x, ps[hi - 1] - 2, w, 5));
      OneMoreTimes(hi - 1 - lo, 5 * w);
    }
  }

  /** The alignment patterns centred on rows 1 .. hi-1 and columns 1 .. n-1. */
  ghost function Inner(ps: seq<int>, hi: nat): set<Cell>
    requires 1 <= hi <= |ps|
  {
    if hi == 1 then {} else Inner(ps, hi - 1) + Strip(ps, 1, |ps|, ps[hi - 1] - 2, 5)
  }

  lemma {:induction false} InnerMembers(ps: seq<int>, hi: nat)
    requires 1 <= hi <= |ps|
    ensures forall c: Cell :: c in Inner(ps, hi) <==> Near(ps, 1, |ps|, c.x) && Near(ps, 1, hi, c.y)
  {
    hide Strip;
    if hi > 1 {
      InnerMembers(ps, hi - 1);
      StripMembers(ps, 1, |ps|, ps[hi - 1] - 2, 5);
    }
  }

  lemma {:induction false} InnerCount(ps: seq<int>, size: nat, hi: nat)
    requires WellSpaced(ps, size) && 1 <= hi <= |ps|
    ensures |Inner(ps, hi)| == 25 * (|ps| - 1) * (hi - 1)
  {
    hide Strip, Near;
    if hi > 1 {
      var rest, last := Inner(ps, hi - 1), Strip(ps, 1, |ps|, ps[hi - 1] - 2, 5);
      InnerCount(ps, size, hi - 1);
      InnerMembers(ps, hi - 1);
      StripMembers(ps, 1, |ps|, ps[hi - 1] - 2, 5);
      StripCount(ps, size, 1, |ps|, ps[hi - 1] - 2, 5);
      forall c: Cell | c in rest ensures c !in last {
        NearRange(ps, size, 1, hi - 1, c.y);
      }
      DisjointUnion(rest, last);
      assert 25 * (|ps| - 1) * (hi - 1) == 25 * (|ps| - 1) * (hi - 2) + (|ps| - 1) * 25;
    }
  }

  // ----- What the layers paint -----

  lemma PaintsOver(top: Layer, bottom: Layer, size: nat, c: Cell)
    ensures Paints(Over(top, bottom), size, c) <==> Paints(top, size, c) || Paints(bottom, size, c)
  {
  }

  lemma PaintsAlignment(x: int, y: int, size: nat, c: Cell)
    ensures Paints(Alignment(x, y), size, c) <==> Abs(c.x - x) <= 2 && Abs(c.y - y) <= 2
    ensures !Paints(Blank, size, c)
  {
  }

  /** The cells that a row of alignment patterns paints; the corners leave out some of them. */
  lemma {:induction false} AlignRowPaints(ps: seq<int>, size: nat, i: nat, j: nat, c: Cell)
    requires WellSpaced(ps, size) && i < |ps| && j <= |ps|
    ensures Paints(AlignRow(ps, i, j), size, c)
      <==> Abs(c.x - ps[i]) <= 2 && RowNear(ps, i, j, c.y)
  {
    hide Paints;
    if j == 0 {
      PaintsAlignment(0, 0, size, c);
    } else {
      AlignRowPaints(ps, size, i, j - 1, c);
      if !IsCorner(i, j - 1, |ps|) {
        PaintsOver(Alignment(ps[i], ps[j - 1]), AlignRow(ps, i, j - 1), size, c);
        PaintsAlignment(ps[i], ps[j - 1], size, c);
      }
    }
  }

  predicate RowNear(ps: seq<int>, i: nat, j: nat, y: int)
    requires i < |ps| && j <= |ps|
  {
    j > 0 && ((!IsCorner(i, j - 1, |ps|) && Abs(y - ps[j - 1]) <= 2) || RowNear(ps, i, j - 1, y))
  }

  lemma {:induction false} RowNearIsNear(ps: seq<int>, i: nat, j: nat, y: int)
    requires |ps| >= 2 && i < |ps| && 1 <= j <= |ps|
    ensures 0 < i < |ps| - 1 ==> RowNear(ps, i, j, y) == Near(ps, 0, j, y)
    ensures i == |ps| - 1 ==> RowNear(ps, i, j, y) == Near(ps, 1, j, y)
    ensures i == 0 && j < |ps| ==> RowNear(ps, i, j, y) == Near(ps, 1, j, y)
    ensures i == 0 && j == |ps| ==> RowNear(ps, i, j, y) == Near(ps, 1, j - 1, y)
  {
    if j > 1 { RowNearIsNear(ps, i, j - 1, y); }
  }

  /** Near one of the centres 0 .. hi-1 is near centre 0 or one of the others. */
  lemma {:induction false} NearSplit(ps: seq<int>, hi: nat, x: int)
    requires 1 <= hi <= |ps|
    ensures Near(ps, 0, hi, x) <==> Abs(x - ps[0]) <= 2 || Near(ps, 1, hi, x)
  {
    if hi > 1 { NearSplit(ps, hi - 1, x); }
  }

  /** The alignment patterns of the first i columns of centres. */
  lemma {:induction false} AlignRowsPaint(ps: seq<int>, size: nat, i: nat, c: Cell)
    requires WellSpaced(ps, size) && 1 <= i <= |ps|
    ensures var n := |ps|;
            Paints(AlignRows(ps, i), size, c)
            <==> || (Abs(c.x - 6) <= 2 && Near(ps, 1, n - 1, c.y))
                 || (Near(ps, 1, if i < n then i else n - 1, c.x) && Near(ps, 0, n, c.y))
                 || (i == n && Abs(c.x - ps[n - 1]) <= 2 && Near(ps, 1, n, c.y))
  {
    hide AlignRow, RowNear, Paints;
    AlignRowPaints(ps, size, i - 1, |ps|, c);
    RowNearIsNear(ps, i - 1, |ps|, c.y);
    PaintsOver(AlignRow(ps, i - 1, |ps|), AlignRows(ps, i - 1), size, c);
    if i == 1 {
      PaintsAlignment(0, 0, size, c);
    } else {
      AlignRowsPaint(ps, size, i - 1, c);
    }
  }

  /** An alignment cell belongs to an inner pattern or to one on the timing row or column. */
  predicate OnAlignment(ps: seq<int>, c: Cell)
    requires |ps| >= 2
  {
    var n := |ps|;
    || (Near(ps, 1, n, c.x) && Near(ps, 1, n, c.y))
    || (Near(ps, 1, n - 1, c.x) && Abs(c.y - 6) <= 2)
    || (Abs(c.x - 6) <= 2 && Near(ps, 1, n - 1, c.y))
  }

  lemma AlignmentPaints(ps: seq<int>, size: nat, c: Cell)
    requires WellSpaced(ps, size)
    ensures Paints(AlignRows(ps, |ps|), size, c) <==> OnAlignment(ps, c)
  {
    hide AlignRows;
    AlignRowsPaint(ps, size, |ps|, c);
    NearSplit(ps, |ps|, c.y);
  }

  /** The three corners with their format modules, the timing row and column, the version blocks. */
  predicate OnFrame(size: nat, versionBits: bool, c: Cell)
  {
    || InRect(c, 0, 0, 9, 9) || InRect(c, size - 8, 0, 8, 9) || InRect(c, 0, size - 8, 9, 8)
    || InRect(c, 9, 6, size - 17, 1) || InRect(c, 6, 9, 1, size - 17)
    || (versionBits && (InRect(c, size - 11, 0, 3, 6) || InRect(c, 0, size - 11, 6, 3)))
  }

  lemma FinderPaints(x: int, y: int, size: nat, c: Cell)
    ensures Paints(Finder(x, y), size, c) <==> Abs(c.x - x) <= 4 && Abs(c.y - y) <= 4
    ensures Paints(Timing, size, c) <==> c.x == 6 || c.y == 6
  {
  }

  lemma WordPaints(bits: nat, ver: nat, size: nat, c: Cell)
    ensures Paints(Format(bits), size, c) <==> FormatTurn(size, c) >= 0
    ensures Paints(VersionLayer(ver), size, c) <==> ver >= 7 && VersionIndex(size, c) >= 0
  {
  }

  lemma FramePaints(ver: nat, ecl: Ecc, c: Cell)
    requires IsVersion(ver) && Inside(c, SizeOf(ver))
    ensures var size := SizeOf(ver);
            Paints(FunctionLayer(ver, ecl), size, c)
            <==> OnFrame(size, ver >= 7, c) || Paints(AlignRows(Centres(ver), |Centres(ver)|), size, c)
  {
    hide AlignRows, Centres, FormatWord, VersionLayer, Paints;
    var size, word := SizeOf(ver), FormatWord(ecl.FormatBits(), 0);
    var aligned := AlignRows(Centres(ver), |Centres(ver)|);
    FinderPaints(3, 3, size, c);
    FinderPaints(size - 4, 3, size, c);
    FinderPaints(3, size - 4, size, c);
    WordPaints(word, ver, size, c);
    PaintsOver(Finder(3, 3), Timing, size, c);
    PaintsOver(Finder(size - 4, 3), Over(Finder(3, 3), Timing), size, c);
    PaintsOver(Finder(3, size - 4), Over(Finder(size - 4, 3), Over(Finder(3, 3), Timing)), size, c);
    PaintsOver(aligned, FinderLayer(size), size, c);
    PaintsOver(Format(word), Over(aligned, FinderLayer(size)), size, c);
    PaintsOver(VersionLayer(ver), Over(Format(word), Over(aligned, FinderLayer(size))), size, c);
  }

  // ----- Counting -----

  ghost function Frame(size: nat, versionBits: bool): (s: set<Cell>)
    requires IsSize(size)
  {
    Rect(0, 0, 9, 9) + Rect(size - 8, 0, 8, 9) + Rect(0, size - 8, 9, 8)
    + Rect(9, 6, size - 17, 1) + Rect(6, 9, 1, size - 17)
    + if versionBits then Rect(size - 11, 0, 3, 6) + Rect(0, size - 11, 6, 3) else {}
  }

  lemma FrameMembers(size: nat, versionBits: bool)
    requires IsSize(size)
    ensures forall c: Cell :: c in Frame(size, versionBits) <==> OnFrame(size, versionBits, c)
  {
    hide Rect;
  }

  lemma FrameCount(size: nat, versionBits: bool)
    requires IsSize(size)
    ensures |Frame(size, versionBits)| == 225 + 2 * (size - 17) + if versionBits then 36 else 0
  {
    hide Rect;
    var a, b, c := Rect(0, 0, 9, 9), Rect(size - 8, 0, 8, 9), Rect(0, size - 8, 9, 8);
    var d, e := Rect(9, 6, size - 17, 1), Rect(6, 9, 1, size - 17);
    DisjointUnion(a, b);
    DisjointUnion(a + b, c);
    DisjointUnion(a + b + c, d);
    DisjointUnion(a + b + c + d, e);
    if versionBits {
      DisjointUnion(Rect(size - 11, 0, 3, 6), Rect(0, size - 11, 6, 3));
      DisjointUnion(a + b + c + d + e, Rect(size - 11, 0, 3, 6) + Rect(0, size - 11, 6, 3));
    } else {
      assert Frame(size, versionBits) == a + b + c + d + e;
    }
  }

  /** What the alignment patterns add to the frame. */
  ghost function Extra(ps: seq<int>): set<Cell>
    requires |ps| >= 2
  {
    var n := |ps|;
    Inner(ps, n) + (Strip(ps, 1, n - 1, 4, 2) + Strip(ps, 1, n - 1, 7, 2))
    + (Turned(ps, 1, n - 1, 4, 2) + Turned(ps, 1, n - 1, 7, 2))
  }

  lemma ExtraCount(ps: seq<int>, size: nat)
    requires WellSpaced(ps, size)
    ensures |Extra(ps)| == 25 * (|ps| - 1) * (|ps| - 1) + 40 * (|ps| - 2)
  {
    hide Strip, Turned, Inner, Near;
    var n := |ps|;
    var a, b, c, d, e := Inner(ps, n), Strip(ps, 1, n - 1, 4, 2), Strip(ps, 1, n - 1, 7, 2),
      Turned(ps, 1, n - 1, 4, 2), Turned(ps, 1, n - 1, 7, 2);
    InnerCount(ps, size, n);
    StripCount(ps, size, 1, n - 1, 4, 2);
    StripCount(ps, size, 1, n - 1, 7, 2);
    TurnedCount(ps, size, 1, n - 1, 4, 2);
    TurnedCount(ps, size, 1, n - 1, 7, 2);
    ExtraApart(ps, size);
    DisjointUnion(b, c);
    DisjointUnion(a, b + c);
    DisjointUnion(d, e);
    DisjointUnion(a + (b + c), d + e);
  }

  /** Inner patterns start at row and column 12, the outer ones stay near row or column 6. */
  lemma ExtraApart(ps: seq<int>, size: nat)
    requires WellSpaced(ps, size)
    ensures var n := |ps|;
            var b, c := Strip(ps, 1, n - 1, 4, 2), Strip(ps, 1, n - 1, 7, 2);
            var d, e := Turned(ps, 1, n - 1, 4, 2), Turned(ps, 1, n - 1, 7, 2);
            b !! c && d !! e && Inner(ps, n) !! (b + c) && (Inner(ps, n) + (b + c)) !! (d + e)
  {
    hide Strip, Turned, Inner, Near;
    var n := |ps|;
    InnerMembers(ps, n);
    StripMembers(ps, 1, n - 1, 4, 2);
    StripMembers(ps, 1, n - 1, 7, 2);
    TurnedMembers(ps, 1, n - 1, 4, 2);
    TurnedMembers(ps, 1, n - 1, 7, 2);
    forall c: Cell | Near(ps, 1, n, c.y) ensures c.y >= 12 { NearRange(ps, size, 1, n, c.y); }
    forall c: Cell | Near(ps, 1, n, c.x) ensures c.x >= 12 { NearRange(ps, size, 1, n, c.x); }
    forall c: Cell | Near(ps, 1, n - 1, c.x) ensures c.x >= 12 { NearRange(ps, size, 1, n - 1, c.x); }
    forall c: Cell | Near(ps, 1, n - 1, c.y) ensures c.y >= 12 { NearRange(ps, size, 1, n - 1, c.y); }
  }

  /** The cells of alignment patterns on the timing row and column, that row and column left out. */
  predicate OnExtra(ps: seq<int>, c: Cell)
    requires |ps| >= 2
  {
    var n := |ps|;
    || (Near(ps, 1, n, c.x) && Near(ps, 1, n, c.y))
    || (Near(ps, 1, n - 1, c.x) && Abs(c.y - 6) <= 2 && c.y != 6)
    || (Abs(c.x - 6) <= 2 && c.x != 6 && Near(ps, 1, n - 1, c.y))
  }

  lemma ExtraMembers(ps: seq<int>)
    requires |ps| >= 2
    ensures forall c: Cell :: c in Extra(ps) <==> OnExtra(ps, c)
  {
    hide Strip, Turned, Inner, Near;
    var n := |ps|;
    InnerMembers(ps, n);
    StripMembers(ps, 1, n - 1, 4, 2);
    StripMembers(ps, 1, n - 1, 7, 2);
    TurnedMembers(ps, 1, n - 1, 4, 2);
    TurnedMembers(ps, 1, n - 1, 7, 2);
  }

  /** Frame and alignment patterns together are the frame and the extra cells, which are apart. */
  lemma FrameAndExtra(ps: seq<int>, size: nat, versionBits: bool, c: Cell)
    requires IsSize(size) && WellSpaced(ps, size)
    ensures OnFrame(size, versionBits, c) || OnAlignment(ps, c) <==> OnFrame(size, versionBits, c) || OnExtra(ps, c)
    ensures !(OnFrame(size, versionBits, c) && OnExtra(ps, c))
    ensures OnExtra(ps, c) ==> Inside(c, size)
  {
    hide Near, WellSpaced;
    NearBounds(ps, size, c.x);
    NearBounds(ps, size, c.y);
  }

  lemma NearBounds(ps: seq<int>, size: nat, x: int)
    requires WellSpaced(ps, size)
    ensures Near(ps, 1, |ps|, x) ==> 12 <= x <= size - 5
    ensures Near(ps, 1, |ps| - 1, x) ==> 12 <= x <= size - 13
  {
    hide Near;
    var n := |ps|;
    if Near(ps, 1, n, x) { NearRange(ps, size, 1, n, x); }
    if Near(ps, 1, n - 1, x) { NearRange(ps, size, 1, n - 1, x); }
  }

  /** No alignment patterns, or patterns around well-spaced centres. */
  ghost predicate AreCentres(ps: seq<int>, size: nat)
  {
    ps == [] || WellSpaced(ps, size)
  }

  /** All function cells of a symbol of any size, with any centres of alignment patterns. */
  ghost function MarkedCells(size: nat, ps: seq<int>, versionBits: bool): set<Cell>
    requires IsSize(size) && AreCentres(ps, size)
  {
    Frame(size, versionBits) + if ps == [] then {} else Extra(ps)
  }

  /** They are the cells of the frame and those that alignment patterns paint, all inside the symbol. */
  lemma MarkedMembers(size: nat, ps: seq<int>, versionBits: bool, c: Cell)
    requires IsSize(size) && AreCentres(ps, size)
    ensures c in MarkedCells(size, ps, versionBits)
      <==> OnFrame(size, versionBits, c) || Paints(AlignRows(ps, |ps|), size, c)
    ensures c in MarkedCells(size, ps, versionBits) ==> Inside(c, size)
  {
    hide OnFrame, OnExtra, OnAlignment, Frame, Extra, WellSpaced, AlignRows, Paints;
    FrameMembers(size, versionBits);
    FrameInside(size, versionBits, c);
    if ps == [] {
      NoAlignment(size, c);
    } else {
      SpacedHasTwo(ps, size);
      ExtraMembers(ps);
      AlignmentPaints(ps, size, c);
      FrameAndExtra(ps, size, versionBits, c);
    }
  }

  /** How many cells of a symbol of any size are not left for data. */
  lemma MarkedCount(size: nat, ps: seq<int>, versionBits: bool)
    requires IsSize(size) && AreCentres(ps, size)
    ensures |MarkedCells(size, ps, versionBits)|
         == 2 * size + 191 + (if ps == [] then 0 else (25 * |ps| - 10) * |ps| - 55) + if versionBits then 36 else 0
  {
    hide OnFrame, OnExtra, Frame, Extra, WellSpaced;
    FrameCount(size, versionBits);
    if ps != [] {
      SpacedHasTwo(ps, size);
      ExtraCount(ps, size);
      FrameMembers(size, versionBits);
      ExtraMembers(ps);
      forall c: Cell | c in Frame(size, versionBits) ensures c !in Extra(ps) {
        FrameAndExtra(ps, size, versionBits, c);
      }
      DisjointUnion(Frame(size, versionBits), Extra(ps));
      PatternCells(|ps|);
    } else {
      assert MarkedCells(size, ps, versionBits) == Frame(size, versionBits);
    }
  }

  lemma PatternCells(n: nat)
    requires n >= 2
    ensures 25 * (n - 1) * (n - 1) + 40 * (n - 2) == (25 * n - 10) * n - 55
  {
    assert 25 * (n - 1) * (n - 1) == 25 * (n * n) - 50 * n + 25;
    assert (25 * n - 10) * n == 25 * (n * n) - 10 * n;
  }

  lemma VersionCentres(ver: nat)
    requires IsVersion(ver)
    ensures IsSize(SizeOf(ver)) && AreCentres(Centres(ver), SizeOf(ver)) && (Centres(ver) == [] <==> ver == 1)
  {
    hide WellSpaced, Centres;
    if ver >= 2 {
      CentresWellSpaced(ver);
      SpacedHasTwo(Centres(ver), SizeOf(ver));
    } else {
      NoAlignment(0, Cell(0, 0));
    }
  }

  /** All function cells of a version. */
  ghost function FunctionCells(ver: nat): set<Cell>
    requires IsVersion(ver)
  {
    VersionCentres(ver);
    MarkedCells(SizeOf(ver), Centres(ver), ver >= 7)
  }

  lemma FunctionCellsMembers(ver: nat, ecl: Ecc)
    requires IsVersion(ver)
    ensures forall c: Cell :: c in FunctionCells(ver) ==> Inside(c, SizeOf(ver))
    ensures forall c: Cell :: Inside(c, SizeOf(ver)) ==>
      (c in FunctionCells(ver) <==> Paints(FunctionLayer(ver, ecl), SizeOf(ver), c))
  {
    hide OnFrame, MarkedCells, Paints, AreCentres, FunctionLayer, AlignRows, Centres;
    var size, ps := SizeOf(ver), Centres(ver);
    VersionCentres(ver);
    forall c: Cell ensures c in FunctionCells(ver) ==> Inside(c, size) {
      MarkedMembers(size, ps, ver >= 7, c);
    }
    forall c: Cell | Inside(c, size)
      ensures c in FunctionCells(ver) <==> Paints(FunctionLayer(ver, ecl), size, c)
    {
      FramePaints(ver, ecl, c);
      MarkedMembers(size, ps, ver >= 7, c);
    }
  }

  lemma SpacedHasTwo(ps: seq<int>, size: nat)
    requires WellSpaced(ps, size)
    ensures |ps| >= 2
  {
  }

  lemma FrameInside(size: nat, versionBits: bool, c: Cell)
    requires IsSize(size)
    ensures OnFrame(size, versionBits, c) ==> Inside(c, size)
  {
  }

  lemma NoAlignment(size: nat, c: Cell)
    ensures Centres(1) == [] && !Paints(AlignRows([], 0), size, c)
  {
  }

  /** For the 40 versions that is the formula of the source. */
  lemma FunctionCellsCount(ver: nat)
    requires IsVersion(ver)
    ensures SizeOf(ver) * SizeOf(ver) - |FunctionCells(ver)| == NumRawDataModules(ver)
  {
    hide MarkedCells, AreCentres, Centres;
    VersionCentres(ver);
    CentresNumber(ver);
    MarkedCount(SizeOf(ver), Centres(ver), ver >= 7);
    SquareOfSize(ver);
  }

  lemma CentresNumber(ver: nat)
    requires IsVersion(ver)
    ensures ver >= 2 ==> |Centres(ver)| == NumAlign(ver)
  {
  }

  lemma SquareOfSize(ver: nat)
    ensures (4 * ver + 17) * (4 * ver + 17) - 2 * (4 * ver + 17) - 191 == (16 * ver + 128) * ver + 64
  {
    assert (4 * ver + 17) * (4 * ver + 17) == 16 * (ver * ver) + 136 * ver + 289;
    assert (16 * ver + 128) * ver == 16 * (ver * ver) + 128 * ver;
  }

  ghost function CellSet(cells: seq<Cell>): (s: set<Cell>)
    ensures forall c: Cell :: c in s <==> c in cells
  {
    if |cells| == 0 then {} else
      assert cells == cells[..|cells| - 1] + [cells[|cells| - 1]];
      CellSet(cells[..|cells| - 1]) + {cells[|cells| - 1]}
  }

  lemma {:induction false} CellSetCount(cells: seq<Cell>)
    requires Distinct(cells)
    ensures |CellSet(cells)| == |cells|
  {
    if |cells| > 0 {
      CellSetCount(cells[..|cells| - 1]);
      assert cells[|cells| - 1] !in cells[..|cells| - 1];
    }
  }

  /** The function patterns of every version leave exactly `NumRawDataModules` cells for data. */
  lemma DataAreaSize(ver: nat, ecl: Ecc, isFunction: Grid)
    requires IsVersion(ver)
    requires forall c: Cell :: Inside(c, SizeOf(ver)) ==>
      At(isFunction, c) == Paints(FunctionLayer(ver, ecl), SizeOf(ver), c)
    ensures CoversTimingColumn(SizeOf(ver), isFunction)
    ensures |DataArea(SizeOf(ver), isFunction)| == NumRawDataModules(ver)
  {
    hide FunctionCells, Paints, FunctionLayer, DataArea, Distinct, CellSet, Rect, NumRawDataModules;
    var size := SizeOf(ver);
    TimingIsFunction(ver, ecl, isFunction);
    DataAreaMembers(size, isFunction);
    var area, functions := CellSet(DataArea(size, isFunction)), FunctionCells(ver);
    FunctionCellsMembers(ver, ecl);
    assert area !! functions;
    assert area + functions == Rect(0, 0, size, size);
    DisjointUnion(area, functions);
    CellSetCount(DataArea(size, isFunction));
    FunctionCellsCount(ver);
  }

  lemma TimingIsFunction(ver: nat, ecl: Ecc, isFunction: Grid)
    requires IsVersion(ver)
    requires forall c: Cell :: Inside(c, SizeOf(ver)) ==>
      At(isFunction, c) == Paints(FunctionLayer(ver, ecl), SizeOf(ver), c)
    ensures CoversTimingColumn(SizeOf(ver), isFunction)
  {
    hide Paints, FunctionLayer, AlignRows;
    var size := SizeOf(ver);
    forall y | 0 <= y < size ensures At(isFunction, Cell(6, y)) {
      FramePaints(ver, ecl, Cell(6, y));
    }
  }
}

/**
 Splitting the data codewords into blocks, appending error correction to each, and
 interleaving the blocks; with the reader's view of the interleaved codewords.
 */
module Interleave {
  import opened Bits
  import opened ReedSolomon
  import opened Results
  import opened Tables

  /** The parameters of a block structure. */
  datatype Layout = Layout(blocks: nat, ecc: nat, raw: nat)
  {
    /** Every block has room for its error correction, and there is some. */
    predicate Valid()
    {
      blocks >= 1 && ecc >= 1 && ecc <= raw / blocks
    }

    function NumShort(): (n: nat)
      requires Valid()
      ensures 1 <= n <= blocks
    {
      blocks - raw % blocks
    }

    function ShortLen(): nat
      requires Valid()
    {
      raw / blocks
    }

    /** The number of data bytes in a short block; a long block has one more. */
    function ShortData(): nat
      requires Valid()
    {
      raw / blocks - ecc
    }

    function DataLen(j: nat): nat
      requires Valid()
    {
      ShortData() + if j < NumShort() then 0 else 1
    }

    /** Where the data of block j starts. */
    function Offset(j: nat): nat
      requires Valid()
    {
      if j == 0 then 0 else Offset(j - 1) + DataLen(j - 1)
    }

    /** Where column i starts in the interleaved sequence. */
    function ColumnStart(i: nat): (n: int)
      requires Valid()
      ensures n >= 0
    {
      if i == 0 then 0
      else ColumnStart(i - 1) + blocks - if i - 1 == ShortData() then NumShort() else 0
    }

    /** Short blocks have nothing in the column after their data. */
    predicate Present(i: nat, j: nat)
      requires Valid()
    {
      i <= ShortLen() && j < blocks && (i != ShortData() || j >= NumShort())
    }

    /** Where byte i of block j ends up. */
    function Position(i: nat, j: nat): (p: nat)
      requires Valid() && Present(i, j)
    {
      ColumnStart(i) + if i == ShortData() then j - NumShort() else j
    }

    lemma {:induction false} OffsetClosed(j: nat)
      requires Valid() && j <= blocks
      ensures Offset(j) == j * ShortData() + if j <= NumShort() then 0 else j - NumShort()
    {
      if j > 0 {
        OffsetClosed(j - 1);
        assert j * ShortData() == (j - 1) * ShortData() + ShortData();
      }
    }

    lemma {:induction false} ColumnClosed(i: nat)
      requires Valid()
      ensures ColumnStart(i) == i * blocks - if i <= ShortData() then 0 else NumShort()
    {
      if i > 0 {
        ColumnClosed(i - 1);
        assert i * blocks == (i - 1) * blocks + blocks;
      }
    }

    /** All the data is used, and the columns add up to the raw capacity. */
    lemma Totals()
      requires Valid()
      ensures Offset(blocks) == raw - ecc * blocks
      ensures ColumnStart(ShortLen() + 1) == raw
    {
      hide Offset, ColumnStart;
      OffsetClosed(blocks);
      ColumnClosed(ShortLen() + 1);
      Distribute(blocks, raw / blocks, ecc);
      Divided(raw, blocks);
    }

    static lemma Divided(r: nat, b: nat)
      requires b > 0
      ensures r == r / b * b + r % b
    {
    }

    static lemma Distribute(b: nat, l: nat, e: nat)
      requires e <= l
      ensures b * (l - e) == l * b - e * b
      ensures (l + 1) * b == l * b + b
    {
    }

    lemma {:induction false} OffsetMonotone(j: nat, k: nat)
      requires Valid() && j <= k
      ensures Offset(j) <= Offset(k)
    {
      if j < k { OffsetMonotone(j, k - 1); }
    }

    lemma {:induction false} ColumnMonotone(i: nat, k: nat)
      requires Valid() && i <= k
      ensures ColumnStart(i) <= ColumnStart(k)
    {
      if i < k { ColumnMonotone(i, k - 1); }
    }

    /** No two bytes share a position, and every position is taken. */
    lemma PositionsDistinct(i: nat, j: nat, i': nat, j': nat)
      requires Valid() && Present(i, j) && Present(i', j') && (i, j) != (i', j')
      ensures Position(i, j) != Position(i', j')
    {
      if i < i' {
        ColumnMonotone(i + 1, i');
      } else if i' < i {
        ColumnMonotone(i' + 1, i);
      }
    }

    lemma {:induction false} PositionTaken(p: nat, i: nat) returns (i': nat, j: nat)
      requires Valid() && i <= ShortLen() + 1 && p < ColumnStart(i)
      ensures Present(i', j) && Position(i', j) == p
    {
      if p < ColumnStart(i - 1) {
        i', j := PositionTaken(p, i - 1);
      } else {
        i' := i - 1;
        j := p - ColumnStart(i') + if i' == ShortData() then NumShort() else 0;
      }
    }

    /**
     Bytes are taken column by column: the data bytes by their place in the block, then the error
     correction bytes by theirs, and blocks in order for one place.
     */
    lemma PositionsInOrder(j: nat, k: nat, j': nat, k': nat)
      requires Valid() && j < blocks && j' < blocks
      ensures k < DataLen(j) && k' < DataLen(j') ==>
        (Position(k, j) < Position(k', j') <==> k < k' || (k == k' && j < j'))
      ensures k < DataLen(j) && k' < ecc ==> Position(k, j) < Position(ShortData() + 1 + k', j')
      ensures k < ecc && k' < ecc ==>
        (Position(ShortData() + 1 + k, j) < Position(ShortData() + 1 + k', j') <==> k < k' || (k == k' && j < j'))
    {
      hide ColumnStart;
      if k < DataLen(j) && k' < DataLen(j') { ColumnsInOrder(k, j, k', j'); }
      if k < DataLen(j) && k' < ecc { ColumnsInOrder(k, j, ShortData() + 1 + k', j'); }
      if k < ecc && k' < ecc { ColumnsInOrder(ShortData() + 1 + k, j, ShortData() + 1 + k', j'); }
    }

    lemma ColumnsInOrder(i: nat, j: nat, i': nat, j': nat)
      requires Valid() && Present(i, j) && Present(i', j')
      ensures Position(i, j) < Position(i', j') <==> i < i' || (i == i' && j < j')
    {
      if i < i' {
        ColumnMonotone(i + 1, i');
      } else if i' < i {
        ColumnMonotone(i' + 1, i);
      }
    }

    /** Blocks hold equally much data, or later ones one byte more. */
    lemma BlocksAreBalanced(j: nat, j': nat)
      requires Valid() && j <= j' < blocks
      ensures DataLen(j) <= DataLen(j') <= DataLen(j) + 1
    {
    }

    // ----- The reader's view -----

    function BlockData(codewords: seq<Byte>, j: nat): (d: seq<Byte>)
      requires Valid() && |codewords| == raw && j < blocks
      ensures |d| == DataLen(j)
    {
      seq<Byte>(DataLen(j), i requires 0 <= i < DataLen(j) => At(codewords, i, j))
    }

    function BlockEcc(codewords: seq<Byte>, j: nat): (e: seq<Byte>)
      requires Valid() && |codewords| == raw && j < blocks
      ensures |e| == ecc
    {
      seq<Byte>(ecc, t requires 0 <= t < ecc => At(codewords, ShortData() + 1 + t, j))
    }

    function At(codewords: seq<Byte>, i: nat, j: nat): Byte
      requires Valid() && |codewords| == raw && Present(i, j)
    {
      PositionInRange(i, j);
      codewords[Position(i, j)]
    }

    lemma PositionInRange(i: nat, j: nat)
      requires Valid() && Present(i, j)
      ensures Position(i, j) < raw
    {
      Totals();
      ColumnMonotone(i + 1, ShortLen() + 1);
    }

    /** The data of the first n blocks, concatenated. */
    function ReadBlocks(codewords: seq<Byte>, n: nat): seq<Byte>
      requires Valid() && |codewords| == raw && n <= blocks
    {
      if n == 0 then [] else ReadBlocks(codewords, n - 1) + BlockData(codewords, n - 1)
    }

    /** De-interleaving: the data codewords, error correction dropped. */
    function Deinterleave(codewords: seq<Byte>): seq<Byte>
      requires Valid() && |codewords| == raw
    {
      ReadBlocks(codewords, blocks)
    }

    /** What the encoder promises: every block carries its slice of the data and its remainder. */
    ghost predicate Carries(codewords: seq<Byte>, data: seq<Byte>)
      requires Valid()
    {
      && |codewords| == raw && |data| == Offset(blocks)
      && forall j :: 0 <= j < blocks ==> BlockCarries(codewords, data, j)
    }

    ghost predicate BlockCarries(codewords: seq<Byte>, data: seq<Byte>, j: nat)
      requires Valid() && |codewords| == raw && |data| == Offset(blocks) && j < blocks
    {
      OffsetMonotone(j + 1, blocks);
      && BlockData(codewords, j) == data[Offset(j)..Offset(j + 1)]
      && BlockEcc(codewords, j) == Remainder(data[Offset(j)..Offset(j + 1)], Divisor(ecc))
    }

    lemma {:induction false} ReadBlocksIsPrefix(codewords: seq<Byte>, data: seq<Byte>, n: nat)
      requires Valid() && Carries(codewords, data) && n <= blocks
      ensures Offset(n) <= |data| && ReadBlocks(codewords, n) == data[..Offset(n)]
    {
      OffsetMonotone(n, blocks);
      if n > 0 {
        ReadBlocksIsPrefix(codewords, data, n - 1);
        OffsetMonotone(n - 1, n);
        assert BlockCarries(codewords, data, n - 1);
        assert data[..Offset(n)] == data[..Offset(n - 1)] + data[Offset(n - 1)..Offset(n)];
      }
    }

    /** De-interleaving gives the data back. */
    lemma DeinterleaveGivesBack(codewords: seq<Byte>, data: seq<Byte>)
      requires Valid() && Carries(codewords, data)
      ensures Deinterleave(codewords) == data
    {
      ReadBlocksIsPrefix(codewords, data, blocks);
      assert data[..Offset(blocks)] == data;
    }

    // ----- The encoder's blocks -----

    function DataOf(data: seq<Byte>, j: nat): (d: seq<Byte>)
      requires Valid() && |data| == Offset(blocks) && j < blocks
      ensures |d| == DataLen(j)
    {
      OffsetMonotone(j + 1, blocks);
      data[Offset(j)..Offset(j + 1)]
    }

    /** Block j with its pad byte if it is short, and its error correction. */
    function Block(data: seq<Byte>, j: nat): (b: seq<Byte>)
      requires Valid() && |data| == Offset(blocks) && j < blocks
      ensures |b| == ShortLen() + 1
    {
      var dat := DataOf(data, j);
      dat + (if j < NumShort() then [0] else []) + Remainder(dat, Divisor(ecc))
    }

    ghost predicate Interleaves(codewords: seq<Byte>, data: seq<Byte>)
      requires Valid() && |data| == Offset(blocks)
    {
      && |codewords| == raw
      && forall i: nat, j: nat :: Present(i, j) ==> At(codewords, i, j) == Block(data, j)[i]
    }

    lemma InterleavesCarries(codewords: seq<Byte>, data: seq<Byte>)
      requires Valid() && |data| == Offset(blocks) && Interleaves(codewords, data)
      ensures Carries(codewords, data)
    {
      hide Position, Remainder, Divisor, At;
      forall j | 0 <= j < blocks ensures BlockCarries(codewords, data, j) {
        var dat := DataOf(data, j);
        assert BlockData(codewords, j) == dat;
        forall t | 0 <= t < ecc ensures BlockEcc(codewords, j)[t] == Remainder(dat, Divisor(ecc))[t] {
          assert Present(ShortData() + 1 + t, j);
        }
        assert BlockEcc(codewords, j) == Remainder(dat, Divisor(ecc));
      }
    }
  }

  /** The splitting loop. */
  method SplitBlocks(lay: Layout, data: seq<Byte>) returns (blocks: seq<seq<Byte>>)
    requires lay.Valid() && |data| == lay.Offset(lay.blocks) && lay.ecc <= 255
    ensures |blocks| == lay.blocks
    ensures forall j :: 0 <= j < lay.blocks ==> blocks[j] == lay.Block(data, j)
  {
    hide Remainder, Divisor, Layout.Offset;
    var shortBlockLen, numShortBlocks := lay.raw / lay.blocks, lay.blocks - lay.raw % lay.blocks;
    var rsDiv := ComputeDivisor(lay.ecc);
    var k := 0;
    blocks := [];
    OffsetZero(lay);
    for i := 0 to lay.blocks
      invariant |blocks| == i && k == lay.Offset(i)
      invariant forall j :: 0 <= j < i ==> blocks[j] == lay.Block(data, j)
    {
      OffsetNext(lay, i);
      lay.OffsetMonotone(i + 1, lay.blocks);
      var dat := data[k..k + shortBlockLen - lay.ecc + if i < numShortBlocks then 0 else 1];
      k := k + |dat|;
      var ecc := ComputeRemainder(dat, rsDiv.value);
      if i < numShortBlocks {
        dat := dat + [0];
      }
      blocks := blocks + [dat + ecc];
    }
  }

  lemma OffsetZero(lay: Layout)
    requires lay.Valid()
    ensures lay.Offset(0) == 0
  {
  }

  lemma OffsetNext(lay: Layout, i: nat)
    requires lay.Valid()
    ensures lay.Offset(i + 1) == lay.Offset(i) + lay.DataLen(i)
  {
  }

  /** The interleaving loop: columns first, skipping the pad bytes. */
  method InterleaveBlocks(lay: Layout, blocks: seq<seq<Byte>>) returns (result: seq<Byte>)
    requires lay.Valid() && |blocks| == lay.blocks
    requires forall j :: 0 <= j < lay.blocks ==> |blocks[j]| == lay.ShortLen() + 1
    ensures |result| == lay.raw
    ensures forall i: nat, j: nat :: lay.Present(i, j) ==> lay.At(result, i, j) == blocks[j][i]
  {
    hide Layout.ColumnStart;
    var shortBlockLen, numShortBlocks := lay.raw / lay.blocks, lay.blocks - lay.raw % lay.blocks;
    result := [];
    ColumnZero(lay);
    for i := 0 to |blocks[0]|
      invariant |result| == lay.ColumnStart(i)
      invariant forall i': nat, j': nat :: lay.Present(i', j') && i' < i ==>
        lay.Position(i', j') < |result| && result[lay.Position(i', j')] == blocks[j'][i']
    {
      ColumnNext(lay, i);
      for j := 0 to |blocks|
        invariant |result| == lay.ColumnStart(i)
          + if i != lay.ShortData() then j else if j < numShortBlocks then 0 else j - numShortBlocks
        invariant forall i': nat, j': nat :: lay.Present(i', j') && (i' < i || (i' == i && j' < j)) ==>
          lay.Position(i', j') < |result| && result[lay.Position(i', j')] == blocks[j'][i']
      {
        if i != shortBlockLen - lay.ecc || j >= numShortBlocks {
          assert lay.Position(i, j) == |result|;
          result := result + [blocks[j][i]];
        }
      }
    }
    lay.Totals();
  }

  lemma ColumnZero(lay: Layout)
    requires lay.Valid()
    ensures lay.ColumnStart(0) == 0
  {
  }

  lemma ColumnNext(lay: Layout, i: nat)
    requires lay.Valid()
    ensures lay.ColumnStart(i + 1)
         == lay.ColumnStart(i) + lay.blocks - if i == lay.ShortData() then lay.NumShort() else 0
  {
  }

  /** The block structure of a version and level. */
  function LayoutOf(ver: nat, ecl: Ecc): (lay: Layout)
    requires IsVersion(ver)
    ensures lay.Valid() && lay.Offset(lay.blocks) == NumDataCodewords(ver, ecl) >= 1
    ensures lay.ecc <= 30 && lay.raw / lay.blocks < 255
  {
    LayoutFits(ver, ecl);
    Layout(NumBlocks(ver, ecl), EccPerBlock(ver, ecl), NumRawDataModules(ver) / 8)
  }

  lemma LayoutFits(ver: nat, ecl: Ecc)
    requires IsVersion(ver)
    ensures NumBlocks(ver, ecl) >= 1 && EccPerBlock(ver, ecl) >= 1 && NumRawDataModules(ver) >= 0
    ensures var lay := Layout(NumBlocks(ver, ecl), EccPerBlock(ver, ecl), NumRawDataModules(ver) / 8);
            && lay.Valid() && lay.Offset(lay.blocks) == NumDataCodewords(ver, ecl) >= 1
            && lay.ecc <= 30 && lay.raw / lay.blocks < 255
  {
    hide NumRawDataModules, NumBlocks, EccPerBlock, Layout.Offset;
    TablesAreSound(ver, ecl);
    var b, e, r := NumBlocks(ver, ecl), EccPerBlock(ver, ecl), NumRawDataModules(ver) / 8;
    QuotientBounds(r, b, e);
    Layout(b, e, r).Totals();
  }

  lemma QuotientBounds(r: nat, b: nat, e: nat)
    requires b >= 1 && (e + 1) * b <= r < 255 * b
    ensures e < r / b < 255
    ensures r - e * b >= 1
  {
    ScaledOrder(r / b, e, b);
    ScaledOrder(255, r / b, b);
    assert (e + 1) * b == e * b + b;
  }

  /** The source's addEccAndInterleave. */
  method AddEccAndInterleave(data: seq<Byte>, ver: nat, ecl: Ecc) returns (r: Result<seq<Byte>>)
    requires IsVersion(ver)
    ensures r.Ok? <==> |data| == NumDataCodewords(ver, ecl)
    ensures r.Ok? ==> LayoutOf(ver, ecl).Carries(r.value, data)
  {
    if |data| != NumDataCodewords(ver, ecl) {
      return Err("Invalid argument");
    }
    var lay := LayoutOf(ver, ecl);
    var blocks := SplitBlocks(lay, data);
    var result := InterleaveBlocks(lay, blocks);
    lay.InterleavesCarries(result, data);
    r := Ok(result);
  }

  /** Every block of a symbol is a Reed-Solomon codeword short enough for the distance bound. */
  lemma BlocksAreCodewords(ver: nat, ecl: Ecc, codewords: seq<Byte>, data: seq<Byte>, j: nat)
    requires IsVersion(ver) && j < LayoutOf(ver, ecl).blocks
    requires LayoutOf(ver, ecl).Carries(codewords, data)
    ensures var lay := LayoutOf(ver, ecl);
            && lay.BlockData(codewords, j) + lay.BlockEcc(codewords, j)
               == Codeword(lay.BlockData(codewords, j), lay.ecc)
            && lay.DataLen(j) + lay.ecc <= 255
  {
    assert LayoutOf(ver, ecl).BlockCarries(codewords, data, j);
  }

  /** Block j as a reader of possibly damaged codewords sees it: data, then error correction. */
  function BlockWord(lay: Layout, codewords: seq<Byte>, j: nat): seq<Byte>
    requires lay.Valid() && |codewords| == lay.raw && j < lay.blocks
  {
    lay.BlockData(codewords, j) + lay.BlockEcc(codewords, j)
  }

  /** In every block at most half as many bytes are wrong as the block has error correction bytes. */
  ghost predicate Correctable(lay: Layout, codewords: seq<Byte>, received: seq<Byte>)
    requires lay.Valid() && |codewords| == lay.raw && |received| == lay.raw
  {
    forall j :: 0 <= j < lay.blocks ==>
      2 * Distance(BlockWord(lay, codewords, j), BlockWord(lay, received, j)) <= lay.ecc
  }

  /** Correctable damage leaves one possible reading: no other data could have been damaged to the same bytes. */
  lemma DamageDeterminesData(ver: nat, ecl: Ecc, received: seq<Byte>, c: seq<Byte>, d: seq<Byte>,
      c': seq<Byte>, d': seq<Byte>)
    requires IsVersion(ver) && |received| == LayoutOf(ver, ecl).raw
    requires LayoutOf(ver, ecl).Carries(c, d) && Correctable(LayoutOf(ver, ecl), c, received)
    requires LayoutOf(ver, ecl).Carries(c', d') && Correctable(LayoutOf(ver, ecl), c', received)
    ensures d == d'
  {
    hide LayoutOf, Distance, Codeword, Layout.BlockData, Layout.BlockEcc, Layout.BlockCarries;
    var lay := LayoutOf(ver, ecl);
    forall j | 0 <= j < lay.blocks ensures lay.BlockData(c, j) == lay.BlockData(c', j) {
      BlocksAreCodewords(ver, ecl, c, d, j);
      BlocksAreCodewords(ver, ecl, c', d', j);
      CorrectionIsUnique(BlockWord(lay, received, j), lay.BlockData(c, j), lay.BlockData(c', j), lay.ecc);
    }
    SameBlocks(lay, c, c', lay.blocks);
    lay.DeinterleaveGivesBack(c, d);
    lay.DeinterleaveGivesBack(c', d');
  }

  lemma {:induction false} SameBlocks(lay: Layout, c: seq<Byte>, c': seq<Byte>, n: nat)
    requires lay.Valid() && |c| == lay.raw && |c'| == lay.raw && n <= lay.blocks
    requires forall j :: 0 <= j < lay.blocks ==> lay.BlockData(c, j) == lay.BlockData(c', j)
    ensures lay.ReadBlocks(c, n) == lay.ReadBlocks(c', n)
  {
    hide Layout.BlockData;
    if n > 0 { SameBlocks(lay, c, c', n - 1); }
  }
}

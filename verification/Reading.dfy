/**
 A reader of finished symbols, and the round trip: whatever the encoder accepts is read back.
 The reader knows the symbol format only; it sees nothing but the grid.
 */
module Reading {
  import opened Bits
  import opened BitStream
  import opened Encoding
  import opened FunctionArea
  import opened Grids
  import opened Interleave
  import opened Masking
  import opened Patterns
  import opened Results
  import opened Segments
  import opened Symbols
  import opened Tables

  datatype Reading = Reading(version: nat, level: Ecc, mask: nat, payloads: seq<Payload>, rest: seq<bool>)

  // ----- The format bits -----

  function LevelOf(formatBits: nat): Ecc
  {
    if formatBits == 0 then MEDIUM else if formatBits == 1 then LOW else if formatBits == 2 then HIGH else QUARTILE
  }

  /** The five information bits of the first format copy, masking pattern removed. */
  function ReadFormat(g: Grid): nat
  {
    Xor(Value(seq(5, i requires 0 <= i < 5 => At(g, Cell(i, 8)))), 21)
  }

  lemma FormatCell(ver: nat, ecl: Ecc, mask: nat, i: nat)
    requires IsVersion(ver) && i < 5
    ensures Colour(SymbolLayer(ver, ecl, mask), SizeOf(ver), Cell(i, 8))
         == Some(GetBit(FormatWord(ecl.FormatBits(), mask), 14 - i))
  {
    hide FunctionLayer, FormatWord, GetBit;
    SymbolColour(ver, ecl, mask, Cell(i, 8));
  }

  lemma FormatReads(g: Grid, ver: nat, ecl: Ecc, mask: nat)
    requires IsVersion(ver) && mask < 8 && ShowsPatterns(g, ver, ecl, mask)
    ensures ReadFormat(g) == 8 * ecl.FormatBits() + mask
  {
    hide At, SymbolLayer, FormatWord, Xor, Value, BitsOf, Shr, GetBit;
    var word, data := FormatWord(ecl.FormatBits(), mask), 8 * ecl.FormatBits() + mask;
    var cells := seq(5, i requires 0 <= i < 5 => At(g, Cell(i, 8)));
    FormatWordTop(ecl.FormatBits(), mask);
    forall i | 0 <= i < 5 ensures cells[i] == BitsOf(Shr(word, 10), 5)[i] {
      FormatCell(ver, ecl, mask, i);
      BitAt(Shr(word, 10), 5, i);
      HigherBit(word, 4 - i);
    }
    assert cells == BitsOf(Shr(word, 10), 5);
    PowerValues();
    ValueOfBits(Shr(word, 10), 5);
    XorCancel(data, 21);
  }

  lemma HigherBit(word: nat, i: nat)
    ensures GetBit(Shr(word, 10), i) == GetBit(word, 10 + i)
  {
    hide Shr;
    ShrAdd(word, 10, i);
  }

  // ----- The codewords -----

  /** The data area with the mask taken off, in scan order. */
  function ReadArea(g: Grid, ver: nat, mask: nat): (bits: seq<bool>)
    requires IsVersion(ver)
    ensures |bits| == |Area(ver)|
  {
    var area := Area(ver);
    seq(|area|, k requires 0 <= k < |area| => At(g, area[k]) != Inverts(mask, area[k]))
  }

  lemma AreaReads(g: Grid, ver: nat, mask: nat, codewords: seq<Byte>)
    requires IsVersion(ver) && ShowsData(g, ver, mask, codewords) && 8 * |codewords| <= |Area(ver)|
    ensures ReadArea(g, ver, mask)[..8 * |codewords|] == BytesToBits(codewords)
    ensures forall k :: 8 * |codewords| <= k < |Area(ver)| ==> !ReadArea(g, ver, mask)[k]
  {
    hide At, Area, Inverts, BytesToBits;
  }

  /** The longest prefix that is a whole number of bytes. */
  function WholePart(bits: seq<bool>): (whole: seq<bool>)
    ensures whole <= bits && |whole| % 8 == 0 && |bits| - |whole| < 8
  {
    bits[..8 * (|bits| / 8)]
  }

  /** The interleaved codewords; the remainder bits are dropped. */
  function ReadCodewords(g: Grid, ver: nat, mask: nat): (codewords: seq<Byte>)
    requires IsVersion(ver)
  {
    BytesOf(WholePart(ReadArea(g, ver, mask)))
  }

  lemma CodewordsRead(g: Grid, ver: nat, mask: nat, codewords: seq<Byte>)
    requires IsVersion(ver) && ShowsData(g, ver, mask, codewords) && |codewords| == |Area(ver)| / 8
    ensures ReadCodewords(g, ver, mask) == codewords
  {
    hide Area, ReadArea, ShowsData, BytesOf;
    AreaReads(g, ver, mask, codewords);
    BytesOfBits(codewords);
  }

  // ----- The whole symbol -----

  function ReadVersion(g: Grid, ver: nat): Option<Reading>
    requires IsVersion(ver)
  {
    var format := ReadFormat(g);
    if format >= 32 then None
    else
      var level, mask := LevelOf(format / 8), format % 8;
      var codewords := ReadCodewords(g, ver, mask);
      if |codewords| != LayoutOf(ver, level).raw then None
      else
        match ReadStream(BytesToBits(LayoutOf(ver, level).Deinterleave(codewords)), ver)
        case None => None
        case Some((payloads, rest)) => Some(Reading(ver, level, mask, payloads, rest))
  }

  function ReadSymbol(g: Grid): Option<Reading>
  {
    if |g| < 21 || |g| > 177 || |g| % 4 != 1 then None else ReadVersion(g, (|g| - 17) / 4)
  }

  /** The reader gets version, level, mask and data codewords of any symbol of the constructor. */
  lemma SymbolReads(sym: Symbol, data: seq<Byte>, codewords: seq<Byte>)
    requires Holds(sym, data, codewords)
    ensures ReadSymbol(sym.modules)
         == match ReadStream(BytesToBits(data), sym.version)
            case None => None
            case Some((payloads, rest)) => Some(Reading(sym.version, sym.level, sym.mask, payloads, rest))
  {
    hide ReadFormat, ReadCodewords, ReadStream, ReadVersion, ReadSymbol, Layout.Deinterleave, Layout.Carries, ShowsData,
      ShowsPatterns, BytesToBits, LayoutOf, SizeOf;
    var g, ver := sym.modules, sym.version;
    FormatReads(g, ver, sym.level, sym.mask);
    LevelReads(sym.level, sym.mask);
    RawLength(ver, sym.level, codewords, data);
    CodewordsRead(g, ver, sym.mask, codewords);
    LayoutOf(ver, sym.level).DeinterleaveGivesBack(codewords, data);
    ReadingSteps(g, ver, sym.level, sym.mask, codewords);
    SizeTellsVersion(g, ver);
  }

  lemma SizeTellsVersion(g: Grid, ver: nat)
    requires IsVersion(ver) && |g| == SizeOf(ver)
    ensures ReadSymbol(g) == ReadVersion(g, ver)
  {
    hide ReadVersion;
  }

  lemma ReadingSteps(g: Grid, ver: nat, level: Ecc, mask: nat, codewords: seq<Byte>)
    requires IsVersion(ver) && mask < 8
    requires ReadFormat(g) < 32 && LevelOf(ReadFormat(g) / 8) == level && ReadFormat(g) % 8 == mask
    requires ReadCodewords(g, ver, mask) == codewords && |codewords| == LayoutOf(ver, level).raw
    ensures ReadVersion(g, ver)
         == match ReadStream(BytesToBits(LayoutOf(ver, level).Deinterleave(codewords)), ver)
            case None => None
            case Some((payloads, rest)) => Some(Reading(ver, level, mask, payloads, rest))
  {
    hide ReadFormat, ReadCodewords, ReadStream, Layout.Deinterleave, BytesToBits, LayoutOf, LevelOf;
  }

  lemma LevelReads(level: Ecc, mask: nat)
    requires mask < 8
    ensures var format := 8 * level.FormatBits() + mask;
            format < 32 && LevelOf(format / 8) == level && format % 8 == mask
  {
  }

  lemma RawLength(ver: nat, ecl: Ecc, codewords: seq<Byte>, data: seq<Byte>)
    requires IsVersion(ver) && LayoutOf(ver, ecl).Carries(codewords, data)
    ensures |codewords| == |Area(ver)| / 8 == LayoutOf(ver, ecl).raw
  {
    hide NumRawDataModules, NumBlocks, EccPerBlock, Area;
    AreaCells(ver);
  }

  /**
   Encoding any payloads and reading the symbol gives exactly the payloads, followed by nothing
   but the terminator and the pad bits.
   */
  lemma RoundTrip(sym: Symbol, ps: seq<Payload>, data: seq<Byte>, codewords: seq<Byte>)
    requires forall i :: 0 <= i < |ps| ==> Encodable(ps[i])
    requires Encodes(sym, SegmentsOf(ps), data, codewords)
    ensures IsVersion(sym.version)
    ensures var used := |Stream(SegmentsOf(ps), sym.version)|;
            && 0 <= used <= Capacity(sym.version, sym.level) && Capacity(sym.version, sym.level) % 8 == 0
            && ReadSymbol(sym.modules)
               == Some(Reading(sym.version, sym.level, sym.mask, ps, PadTail(used, Capacity(sym.version, sym.level))))
  {
    hide Holds, ReadSymbol, ReadStream, Stream, SegmentsOf, Capacity, PadTail, BytesToBits, AtTerminator, CountFits,
      Encodable;
    var segs := SegmentsOf(ps);
    HeldGrid(sym, data, codewords);
    var used, capacity := |Stream(segs, sym.version)|, Capacity(sym.version, sym.level);
    CapacityIsWhole(sym.version, sym.level);
    TailTerminates(used, capacity);
    SegmentsAt(ps);
    StreamReads(ps, sym.version, PadTail(used, capacity));
    SymbolReads(sym, data, codewords);
  }

  lemma SegmentsAt(ps: seq<Payload>)
    requires forall i :: 0 <= i < |ps| ==> Encodable(ps[i])
    ensures forall i :: 0 <= i < |ps| ==> SegmentsOf(ps)[i] == SegmentOf(ps[i])
  {
    hide SegmentOf, Encodable;
  }

  /** Symbols of different payload lists differ, whatever version, level and mask were chosen. */
  lemma EncodingIsInjective(s: Symbol, t: Symbol, ps: seq<Payload>, qs: seq<Payload>, d: seq<Byte>, e: seq<Byte>,
      c: seq<Byte>, f: seq<Byte>)
    requires forall i :: 0 <= i < |ps| ==> Encodable(ps[i])
    requires forall i :: 0 <= i < |qs| ==> Encodable(qs[i])
    requires Encodes(s, SegmentsOf(ps), d, c) && Encodes(t, SegmentsOf(qs), e, f)
    requires s.modules == t.modules
    ensures ps == qs && s == t
  {
    hide Encodes, ReadSymbol, SegmentsOf, Stream, Encodable, PadTail, Capacity;
    RoundTrip(s, ps, d, c);
    RoundTrip(t, qs, e, f);
    EncodedSize(s, SegmentsOf(ps), d, c);
    EncodedSize(t, SegmentsOf(qs), e, f);
  }

  lemma EncodedSize(sym: Symbol, segs: seq<Segment>, data: seq<Byte>, codewords: seq<Byte>)
    requires Encodes(sym, segs, data, codewords)
    ensures |sym.modules| == sym.size
  {
    hide Stream, PadTail, Fits, BytesToBits, Capacity, LayoutOf, Layout.Carries, ShowsData, ShowsPatterns;
  }
}

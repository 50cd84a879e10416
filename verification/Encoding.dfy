/**
 From segments to a symbol: the choice of version and level, the padded bit stream, and
 the data codewords. The source's encodeSegments.
 */
module Encoding {
  import opened Bits
  import opened BitStream
  import opened Interleave
  import opened Results
  import opened Segments
  import opened Symbols
  import opened Tables

  predicate CountsFit(segs: seq<Segment>, ver: nat)
    requires IsVersion(ver)
  {
    forall i :: 0 <= i < |segs| ==> CountFits(segs[i], ver)
  }

  /** The number of data bits of a version and level. */
  function Capacity(ver: nat, ecl: Ecc): int
    requires IsVersion(ver)
  {
    8 * NumDataCodewords(ver, ecl)
  }

  lemma CapacityIsWhole(ver: nat, ecl: Ecc)
    requires IsVersion(ver)
    ensures Capacity(ver, ecl) == 8 * NumDataCodewords(ver, ecl) > 0 && Capacity(ver, ecl) % 8 == 0
  {
    hide NumDataCodewords, NumRawDataModules, NumBlocks, EccPerBlock, Layout.Offset;
    LayoutFits(ver, ecl);
  }

  /** Every count fits its field and the stream fits the data codewords. */
  predicate Fits(segs: seq<Segment>, ver: nat, ecl: Ecc)
    requires IsVersion(ver)
  {
    CountsFit(segs, ver) && |Stream(segs, ver)| <= Capacity(ver, ecl)
  }

  // ----- The length of the stream -----

  lemma StreamNext(segs: seq<Segment>, ver: nat, i: nat)
    requires IsVersion(ver) && i < |segs|
    ensures Stream(segs[..i + 1], ver) == Stream(segs[..i], ver) + SegmentBits(segs[i], ver)
    ensures |SegmentBits(segs[i], ver)| == 4 + CountWidth(segs[i].mode, ver) + |segs[i].data|
  {
    assert segs[..i + 1][..i] == segs[..i];
  }

  /** Mode, count and data of every segment. */
  function TotalLength(segs: seq<Segment>, ver: nat): nat
  {
    if |segs| == 0 then 0
    else
      var last := segs[|segs| - 1];
      TotalLength(segs[..|segs| - 1], ver) + 4 + CountWidth(last.mode, ver) + |last.data|
  }

  lemma {:induction false} StreamLength(segs: seq<Segment>, ver: nat)
    requires IsVersion(ver)
    ensures |Stream(segs, ver)| == TotalLength(segs, ver)
  {
    hide CountWidth;
    if |segs| > 0 { StreamLength(segs[..|segs| - 1], ver); }
  }

  /** None stands for the source's Infinity: some count does not fit its field. */
  method GetTotalBits(segs: seq<Segment>, ver: nat) returns (r: Option<nat>)
    requires IsVersion(ver)
    ensures r.Some? <==> CountsFit(segs, ver)
    ensures r.Some? ==> r.value == |Stream(segs, ver)| == TotalLength(segs, ver)
  {
    hide Stream, SegmentBits, Mode.NumCharCountBits;
    var result := 0;
    EmptyStream(segs, ver);
    for i := 0 to |segs|
      invariant CountsFit(segs[..i], ver) && result == |Stream(segs[..i], ver)|
    {
      var seg := segs[i];
      var ccbits := seg.mode.NumCharCountBits(ver);
      if seg.numChars >= Pow2(ccbits) {
        return None;
      }
      StreamNext(segs, ver, i);
      result := result + 4 + ccbits + |seg.data|;
    }
    StreamLength(segs, ver);
    r := Some(result);
  }

  lemma EmptyStream(segs: seq<Segment>, ver: nat)
    requires IsVersion(ver)
    ensures Stream(segs[..0], ver) == [] && segs[..|segs|] == segs
  {
  }

  // ----- Version and level -----

  /** The least version of the range that fits, with the length of the stream. */
  method FindVersion(segs: seq<Segment>, ecl: Ecc, minVersion: nat, maxVersion: nat)
    returns (r: Option<(nat, nat)>)
    requires 1 <= minVersion <= maxVersion <= 40
    ensures r == None <==> forall v :: minVersion <= v <= maxVersion ==> !Fits(segs, v, ecl)
    ensures r.Some? ==>
      var (version, used) := r.value;
      && minVersion <= version <= maxVersion && Fits(segs, version, ecl) && used == |Stream(segs, version)|
      && forall v :: minVersion <= v < version ==> !Fits(segs, v, ecl)
  {
    hide Stream, NumDataCodewords, CountsFit;
    var version := minVersion;
    while true
      invariant minVersion <= version <= maxVersion
      invariant forall v :: minVersion <= v < version ==> !Fits(segs, v, ecl)
      decreases maxVersion - version
    {
      var used := GetTotalBits(segs, version);
      if used.Some? && used.value <= Capacity(version, ecl) {
        assert Fits(segs, version, ecl);
        return Some((version, used.value));
      }
      if version >= maxVersion {
        return None;
      }
      version := version + 1;
    }
  }

  const LEVELS: seq<Ecc> := [MEDIUM, QUARTILE, HIGH]

  /** The level after the first n steps of the boosting loop. */
  function Boosted(ecl: Ecc, used: nat, ver: nat, n: nat): Ecc
    requires IsVersion(ver) && n <= 3
  {
    if n == 0 then ecl
    else if used <= Capacity(ver, LEVELS[n - 1]) then LEVELS[n - 1]
    else Boosted(ecl, used, ver, n - 1)
  }

  /** Boosting ends at the highest level that fits, never below the request. */
  lemma BoostedIsHighest(ecl: Ecc, used: nat, ver: nat)
    requires IsVersion(ver) && used <= Capacity(ver, ecl)
    ensures var level := Boosted(ecl, used, ver, 3);
            && used <= Capacity(ver, level) && level.Ordinal() >= ecl.Ordinal()
            && forall e: Ecc :: e.Ordinal() > level.Ordinal() ==> used > Capacity(ver, e)
  {
    hide Capacity;
    assert Boosted(ecl, used, ver, 1) == if used <= Capacity(ver, MEDIUM) then MEDIUM else ecl;
    assert Boosted(ecl, used, ver, 3)
        == if used <= Capacity(ver, HIGH) then HIGH
           else if used <= Capacity(ver, QUARTILE) then QUARTILE else Boosted(ecl, used, ver, 1);
  }

  method BoostLevel(ecl: Ecc, used: nat, ver: nat, boostEcl: bool) returns (level: Ecc)
    requires IsVersion(ver) && used <= Capacity(ver, ecl)
    ensures !boostEcl ==> level == ecl
    ensures used <= Capacity(ver, level) && level.Ordinal() >= ecl.Ordinal()
    ensures boostEcl ==> forall e: Ecc :: e.Ordinal() > level.Ordinal() ==> used > Capacity(ver, e)
  {
    hide Capacity;
    level := ecl;
    for i := 0 to 3
      invariant level == if boostEcl then Boosted(ecl, used, ver, i) else ecl
    {
      if boostEcl && used <= Capacity(ver, LEVELS[i]) {
        level := LEVELS[i];
      }
    }
    BoostedIsHighest(ecl, used, ver);
  }

  // ----- The padded bit stream -----

  /** Alternating pad bytes. */
  function PadBytes(n: nat): (data: seq<Byte>)
    ensures |data| == n
  {
    if n == 0 then [] else PadBytes(n - 1) + [PadByte(n - 1)]
  }

  function PadByte(i: nat): Byte
  {
    if i % 2 == 0 then 0xEC else 0x11
  }

  function TerminatorLength(used: nat, capacity: nat): nat
    requires used <= capacity
  {
    Min(4, capacity - used)
  }

  /** The next multiple of 8. */
  function RoundUp(n: nat): (r: nat)
    ensures r % 8 == 0 && n <= r < n + 8
  {
    n + (8 - n % 8) % 8
  }

  lemma RoundUpFits(n: nat, capacity: nat)
    requires n <= capacity && capacity % 8 == 0
    ensures RoundUp(n) <= capacity
  {
  }

  /** The length once a terminator and the zero bits up to a byte are in place. */
  function WholeBytes(used: nat, capacity: nat): (n: nat)
    requires used <= capacity && capacity % 8 == 0
    ensures used + TerminatorLength(used, capacity) <= n <= capacity && n % 8 == 0
  {
    var n := used + TerminatorLength(used, capacity);
    RoundUpFits(n, capacity);
    RoundUp(n)
  }

  /** The pad bytes that fill the capacity. */
  function PadCount(used: nat, capacity: nat): (k: nat)
    requires used <= capacity && capacity % 8 == 0
    ensures WholeBytes(used, capacity) + 8 * k == capacity
  {
    (capacity - WholeBytes(used, capacity)) / 8
  }

  /** What follows the segments. */
  function PadTail(used: nat, capacity: nat): (tail: seq<bool>)
    requires used <= capacity && capacity % 8 == 0
    ensures |tail| == capacity - used
  {
    var t, n := TerminatorLength(used, capacity), WholeBytes(used, capacity);
    BitsOf(0, t) + BitsOf(0, n - used - t) + BytesToBits(PadBytes(PadCount(used, capacity)))
  }

  /** The tail starts with a terminator, or with fewer than four bits and nothing else. */
  lemma TailTerminates(used: nat, capacity: nat)
    requires used <= capacity && capacity % 8 == 0
    ensures AtTerminator(PadTail(used, capacity))
  {
    hide BytesToBits, PadBytes;
    var tail := PadTail(used, capacity);
    if |tail| >= 4 {
      assert tail[..4] == BitsOf(0, 4);
      PowersOfTwo();
      ValueOfBits(0, 4);
    }
  }

  /** The toggling exclusive-or of the pad loop. */
  lemma PadToggles(i: nat)
    ensures Xor(PadByte(i), Xor(0xEC, 0x11)) == PadByte(i + 1)
  {
    hide Xor;
    XorCommutes(0xEC, 0x11);
    XorCancel(0x11, 0xEC);
    XorCancel(0xEC, 0x11);
  }

  /** The pad bytes spell 11101100 and 00010001 in turn. */
  lemma PadPattern(n: nat, k: nat)
    requires k < 8 * n
    ensures BytesToBits(PadBytes(n))[k] <==> "1110110000010001"[k % 16] == '1'
  {
    hide BytesToBits, PadBytes, BitsOf, GetBit;
    BytesToBitsAt(PadBytes(n), k);
    PadAt(n, k / 8);
    PadBit(k / 8, k % 8);
  }

  lemma {:induction false} PadAt(n: nat, i: nat)
    requires i < n
    ensures PadBytes(n)[i] == PadByte(i)
  {
    if i < n - 1 { PadAt(n - 1, i); }
  }

  lemma PadBit(i: nat, b: nat)
    requires b < 8
    ensures GetBit(PadByte(i), 7 - b) <==> "1110110000010001"[(8 * i + b) % 16] == '1'
  {
    assert (8 * i + b) % 16 == if i % 2 == 0 then b else 8 + b;
    EvenPad(b);
    OddPad(b);
  }

  lemma EvenPad(b: nat)
    requires b < 8
    ensures GetBit(0xEC, 7 - b) <==> "11101100"[b] == '1'
  {
    assert GetBit(0xEC, 7) && GetBit(0xEC, 6) && GetBit(0xEC, 5) && !GetBit(0xEC, 4);
    assert GetBit(0xEC, 3) && GetBit(0xEC, 2) && !GetBit(0xEC, 1) && !GetBit(0xEC, 0);
    assert b == 0 || b == 1 || b == 2 || b == 3 || b == 4 || b == 5 || b == 6 || b == 7;
  }

  lemma OddPad(b: nat)
    requires b < 8
    ensures GetBit(0x11, 7 - b) <==> "00010001"[b] == '1'
  {
    assert !GetBit(0x11, 7) && !GetBit(0x11, 6) && !GetBit(0x11, 5) && GetBit(0x11, 4);
    assert !GetBit(0x11, 3) && !GetBit(0x11, 2) && !GetBit(0x11, 1) && GetBit(0x11, 0);
    assert b == 0 || b == 1 || b == 2 || b == 3 || b == 4 || b == 5 || b == 6 || b == 7;
  }

  /**
   What follows the segments, bit by bit: four zero bits or as many as fit, then zero bits up to a whole
   byte, then the pad pattern.
   */
  lemma TailShape(used: nat, capacity: nat, k: nat) returns (zeros: nat)
    requires used <= capacity && capacity % 8 == 0 && k < capacity - used
    ensures Min(4, capacity - used) <= zeros < Min(4, capacity - used) + 8 && (used + zeros) % 8 == 0
    ensures PadTail(used, capacity)[k] <==> k >= zeros && "1110110000010001"[(k - zeros) % 16] == '1'
  {
    hide BytesToBits, PadBytes, BitsOf;
    var t, n := TerminatorLength(used, capacity), WholeBytes(used, capacity);
    zeros := n - used;
    ZeroBits(t);
    ZeroBits(n - used - t);
    if k >= zeros { PadPattern(PadCount(used, capacity), k - zeros); }
  }

  lemma {:induction false} ZeroBits(n: nat)
    ensures forall i :: 0 <= i < n ==> !BitsOf(0, n)[i]
  {
    if n > 0 { ZeroBits(n - 1); }
  }

  /** Appends the terminator and zero bits up to a whole byte. */
  method Terminate(bb: BitBuffer, capacity: nat)
    requires |bb.bits| <= capacity && capacity % 8 == 0
    modifies bb
    ensures var used, t := |old(bb.bits)|, TerminatorLength(|old(bb.bits)|, capacity);
            bb.bits == old(bb.bits) + (BitsOf(0, t) + BitsOf(0, WholeBytes(used, capacity) - used - t))
  {
    hide BitsOf;
    var terminator := Min(4, capacity - |bb.bits|);
    AllowedZero(terminator);
    var _ := bb.AppendBits(0, terminator);
    var fill := (8 - |bb.bits| % 8) % 8;
    AllowedZero(fill);
    var _ := bb.AppendBits(0, fill);
    assert |bb.bits| % 8 == 0;
  }

  /** Appends alternating bytes up to the capacity. */
  method AppendPadBytes(bb: BitBuffer, capacity: nat)
    requires |bb.bits| <= capacity && |bb.bits| % 8 == 0 && capacity % 8 == 0
    modifies bb
    ensures bb.bits == old(bb.bits) + BytesToBits(PadBytes((capacity - |old(bb.bits)|) / 8))
  {
    hide BitsOf, BytesToBits, Xor, PadBytes, PadByte, Pow2;
    PowersOfTwo();
    var padByte := 0xEC;
    ghost var k := 0;
    NoPads();
    while |bb.bits| < capacity
      invariant bb.bits == old(bb.bits) + BytesToBits(PadBytes(k)) && padByte == PadByte(k)
      invariant |old(bb.bits)| + 8 * k == |bb.bits| <= capacity
    {
      var _ := bb.AppendBits(padByte, 8);
      MorePads(k);
      PadToggles(k);
      padByte := Xor(padByte, Xor(0xEC, 0x11));
      k := k + 1;
    }
  }

  method Pad(bb: BitBuffer, capacity: nat)
    requires |bb.bits| <= capacity && capacity % 8 == 0
    modifies bb
    ensures bb.bits == old(bb.bits) + PadTail(|old(bb.bits)|, capacity)
  {
    hide BitsOf, BytesToBits, PadBytes;
    Terminate(bb, capacity);
    AppendPadBytes(bb, capacity);
  }

  lemma AllowedZero(len: nat)
    ensures 0 < Pow2(len)
  {
  }

  lemma NoPads()
    ensures BytesToBits(PadBytes(0)) == [] && PadByte(0) == 0xEC
  {
  }

  lemma MorePads(k: nat)
    ensures BytesToBits(PadBytes(k + 1)) == BytesToBits(PadBytes(k)) + BitsOf(PadByte(k), 8)
  {
    assert PadBytes(k + 1)[..k] == PadBytes(k);
  }

  /** The bits of the segments, one after the other. */
  method AppendSegments(bb: BitBuffer, segs: seq<Segment>, ver: nat)
    requires IsVersion(ver) && CountsFit(segs, ver) && bb.bits == []
    modifies bb
    ensures bb.bits == Stream(segs, ver)
  {
    hide Stream, BitsOf, Pow2, Mode.NumCharCountBits;
    PowersOfTwo();
    EmptyStream(segs, ver);
    for i := 0 to |segs|
      invariant bb.bits == Stream(segs[..i], ver)
    {
      var seg := segs[i];
      assert CountFits(seg, ver);
      StreamNext(segs, ver, i);
      CountIsUint32(seg, ver);
      var _ := bb.AppendBits(seg.mode.ModeBits(), 4);
      var _ := bb.AppendBits(seg.numChars, seg.mode.NumCharCountBits(ver));
      ghost var header := bb.bits;
      for k := 0 to |seg.data|
        invariant bb.bits == header + seg.data[..k]
      {
        bb.Push(seg.data[k]);
      }
      assert seg.data[..|seg.data|] == seg.data;
    }
  }

  lemma CountIsUint32(seg: Segment, ver: nat)
    requires IsVersion(ver) && CountFits(seg, ver)
    ensures seg.numChars < 0x1_0000_0000 && seg.mode.NumCharCountBits(ver) <= 31
  {
    hide Pow2;
    PowersOfTwo();
    Pow2Monotone(seg.mode.NumCharCountBits(ver), 16);
    Pow2Add(8, 8);
  }

  // ----- encodeSegments -----

  /** The symbol holds exactly the stream of the segments and its padding. */
  ghost predicate Encodes(sym: Symbol, segs: seq<Segment>, data: seq<Byte>, codewords: seq<Byte>)
  {
    && Holds(sym, data, codewords) && Fits(segs, sym.version, sym.level)
    && var stream := Stream(segs, sym.version);
       CapacityIsWhole(sym.version, sym.level);
       BytesToBits(data) == stream + PadTail(|stream|, Capacity(sym.version, sym.level))
  }

  predicate ValidArguments(minVersion: int, maxVersion: int, mask: int)
  {
    1 <= minVersion <= maxVersion <= 40 && -1 <= mask <= 7
  }

  method EncodeSegments(segs: seq<Segment>, ecl: Ecc, minVersion: int := 1, maxVersion: int := 40, mask: int := -1,
      boostEcl: bool := true)
    returns (r: Result<Symbol>, ghost data: seq<Byte>, ghost codewords: seq<Byte>)
    ensures r == Err("Invalid value") <==> !ValidArguments(minVersion, maxVersion, mask)
    ensures r == Err("Data too long") <==>
      && ValidArguments(minVersion, maxVersion, mask)
      && forall v :: minVersion <= v <= maxVersion ==> !Fits(segs, v, ecl)
    ensures r.Err? ==> r.error == "Invalid value" || r.error == "Data too long"
    ensures r.Ok? ==> Encodes(r.value, segs, data, codewords)
    ensures r.Ok? ==> minVersion <= r.value.version <= maxVersion
    ensures r.Ok? ==> forall v :: minVersion <= v < r.value.version ==> !Fits(segs, v, ecl)
    ensures r.Ok? ==> r.value.level.Ordinal() >= ecl.Ordinal() && (!boostEcl ==> r.value.level == ecl)
    ensures r.Ok? && boostEcl ==>
      forall e: Ecc :: e.Ordinal() > r.value.level.Ordinal() ==> !Fits(segs, r.value.version, e)
    ensures r.Ok? && 0 <= mask ==> r.value.mask == mask
    ensures r.Ok? && mask == -1 ==> |r.value.modules| > 0 && BestMask(r.value, codewords)
  {
    hide Stream, NumDataCodewords, Capacity, CountsFit, BytesToBits, PadTail, Holds, BestMask, FirstCheapest;
    data, codewords := [], [];
    if !(1 <= minVersion && minVersion <= maxVersion && maxVersion <= 40) || mask < -1 || mask > 7 {
      return Err("Invalid value"), [], [];
    }
    var found := FindVersion(segs, ecl, minVersion, maxVersion);
    if found == None {
      return Err("Data too long"), [], [];
    }
    var (version, dataUsedBits) := found.value;
    var level := BoostLevel(ecl, dataUsedBits, version, boostEcl);
    var bb := new BitBuffer();
    AppendSegments(bb, segs, version);
    assert |bb.bits| == dataUsedBits;
    CapacityIsWhole(version, level);
    var dataCapacityBits := Capacity(version, level);
    Pad(bb, dataCapacityBits);
    var dataCodewords := PackBytes(bb.bits);
    data := dataCodewords;
    ghost var trials;
    r, codewords, trials := NewQrCode(version, level, dataCodewords, mask);
    HeldGrid(r.value, data, codewords);
    if mask == -1 {
      ChosenMaskIsBest(r.value, codewords, trials);
    }
  }

  lemma HeldGrid(sym: Symbol, data: seq<Byte>, codewords: seq<Byte>)
    requires Holds(sym, data, codewords)
    ensures IsVersion(sym.version) && |sym.modules| > 0
  {
    hide NumDataCodewords, LayoutOf, Layout.Carries;
  }
}

/**
 Data segments: the makers, the bit stream of a segment list, and a reader of such
 streams. The reader is the independent half: it knows the stream format, not the makers.
 */
module Segments {
  import opened Bits
  import opened BitStream
  import opened Results

  datatype Mode = NUMERIC | ALPHANUMERIC | BYTE | KANJI | ECI
  {
    function ModeBits(): (m: nat)
      ensures 0 < m < 16
    {
      match this
      case NUMERIC => 1
      case ALPHANUMERIC => 2
      case BYTE => 4
      case KANJI => 8
      case ECI => 7
    }

    /** The source's table of count field widths. */
    function NumCharCountBits(ver: nat): (w: nat)
      requires 1 <= ver <= 40
      ensures w == CountWidth(this, ver)
    {
      var widths := match this
        case NUMERIC => [10, 12, 14]
        case ALPHANUMERIC => [9, 11, 13]
        case BYTE => [8, 16, 16]
        case KANJI => [8, 10, 12]
        case ECI => [0, 0, 0];
      widths[(ver + 7) / 17]
    }
  }

  /** The width of the character count field, by mode over the versions 1 to 9, 10 to 26 and 27 to 40. */
  function CountWidth(mode: Mode, ver: nat): (w: nat)
    ensures w <= 16
  {
    match mode
    case NUMERIC => if ver <= 9 then 10 else if ver <= 26 then 12 else 14
    case ALPHANUMERIC => if ver <= 9 then 9 else if ver <= 26 then 11 else 13
    case BYTE => if ver <= 9 then 8 else 16
    case KANJI => if ver <= 9 then 8 else if ver <= 26 then 10 else 12
    case ECI => 0
  }

  datatype Segment = Segment(mode: Mode, numChars: nat, data: seq<bool>)

  /** What a caller asks a maker to encode. */
  datatype Payload =
    | Numeric(digits: string)
    | Alphanumeric(text: string)
    | Bytes(bytes: seq<Byte>)
    | Eci(assignment: nat)

  predicate IsDigit(c: char)
  {
    '0' <= c <= '9'
  }

  function DigitValue(c: char): (d: nat)
    requires IsDigit(c)
    ensures d < 10
  {
    c as int - '0' as int
  }

  const CHARSET := "0123456789" + "ABCDEFGHIJKLMNOPQRSTUVWXYZ" + " $%*+-./:"

  /** JavaScript's indexOf. */
  function IndexOf(s: string, c: char): (i: int)
    ensures -1 <= i < |s|
    ensures 0 <= i ==> s[i] == c
  {
    if |s| == 0 then -1
    else if s[0] == c then 0
    else
      var i := IndexOf(s[1..], c);
      if i < 0 then -1 else i + 1
  }

  predicate IsAlphanumeric(c: char)
  {
    IndexOf(CHARSET, c) >= 0
  }

  function CharIndex(c: char): (i: nat)
    requires IsAlphanumeric(c)
    ensures i < 45 && CharOf(i) == c
  {
    var i := IndexOf(CHARSET, c);
    CharsetInOrder(i);
    i
  }

  /** The character of a value: digits, capital letters, and nine signs. */
  function CharOf(v: nat): char
  {
    if v < 10 then ('0' as int + v) as char
    else if v < 36 then ('A' as int + v - 10) as char
    else match v
      case 36 => ' '
      case 37 => '$'
      case 38 => '%'
      case 39 => '*'
      case 40 => '+'
      case 41 => '-'
      case 42 => '.'
      case 43 => '/'
      case _ => ':'
  }

  lemma DigitsInOrder(i: nat)
    requires i < 10
    ensures CHARSET[i] == ('0' as int + i) as char
  {
    assert i == 0 || i == 1 || i == 2 || i == 3 || i == 4 || i == 5 || i == 6 || i == 7 || i == 8 || i == 9;
  }

  lemma LettersInOrder(i: nat)
    requires 10 <= i < 36
    ensures CHARSET[i] == ('A' as int + i - 10) as char
  {
    assert i == 10 || i == 11 || i == 12 || i == 13 || i == 14 || i == 15 || i == 16 || i == 17 || i == 18 ||
      i == 19 || i == 20 || i == 21 || i == 22 || i == 23 || i == 24 || i == 25 || i == 26 || i == 27 || i == 28 ||
      i == 29 || i == 30 || i == 31 || i == 32 || i == 33 || i == 34 || i == 35;
  }

  lemma SignsInOrder(i: nat)
    requires 36 <= i < |CHARSET|
    ensures CHARSET[i] == CharOf(i)
  {
    assert i == 36 || i == 37 || i == 38 || i == 39 || i == 40 || i == 41 || i == 42 || i == 43 || i == 44;
  }

  lemma CharsetInOrder(i: nat)
    requires i < |CHARSET|
    ensures |CHARSET| == 45 && CHARSET[i] == CharOf(i)
  {
    if i < 10 {
      DigitsInOrder(i);
    } else if i < 36 {
      LettersInOrder(i);
    } else {
      SignsInOrder(i);
    }
  }

  predicate Encodable(p: Payload)
  {
    match p
    case Numeric(digits) => forall i :: 0 <= i < |digits| ==> IsDigit(digits[i])
    case Alphanumeric(text) => forall i :: 0 <= i < |text| ==> IsAlphanumeric(text[i])
    case Bytes(_) => true
    case Eci(assignment) => assignment < 1000000
  }

  // ----- Numeric mode -----

  function Pow10(n: nat): (p: nat)
    ensures p >= 1
  {
    if n == 0 then 1 else 10 * Pow10(n - 1)
  }

  function ParseInt(s: string): nat
    requires forall i :: 0 <= i < |s| ==> IsDigit(s[i])
  {
    if |s| == 0 then 0 else 10 * ParseInt(s[..|s| - 1]) + DigitValue(s[|s| - 1])
  }

  /** The n lowest decimal digits of v. */
  function Digits(v: nat, n: nat): (s: string)
    ensures |s| == n
  {
    if n == 0 then "" else Digits(v / 10, n - 1) + [('0' as int + v % 10) as char]
  }

  lemma {:induction false} DigitsOfParseInt(s: string)
    requires forall i :: 0 <= i < |s| ==> IsDigit(s[i])
    ensures ParseInt(s) < Pow10(|s|)
    ensures Digits(ParseInt(s), |s|) == s
  {
    if |s| > 0 {
      DigitsOfParseInt(s[..|s| - 1]);
    }
  }

  function Min(a: int, b: int): int
  {
    if a < b then a else b
  }

  function NumericBits(s: string): seq<bool>
    requires forall i :: 0 <= i < |s| ==> IsDigit(s[i])
  {
    if |s| == 0 then []
    else
      var n := Min(|s|, 3);
      BitsOf(ParseInt(s[..n]), 3 * n + 1) + NumericBits(s[n..])
  }

  function ReadNumeric(count: nat, bits: seq<bool>): Option<(string, seq<bool>)>
    decreases count
  {
    if count == 0 then Some(("", bits))
    else
      var n := Min(count, 3);
      if |bits| < 3 * n + 1 then None
      else
        match ReadNumeric(count - n, bits[3 * n + 1..])
        case None => None
        case Some((s, rest)) => Some((Digits(Value(bits[..3 * n + 1]), n) + s, rest))
  }

  lemma GroupFits(n: nat)
    requires 1 <= n <= 3
    ensures Pow10(n) <= Pow2(3 * n + 1)
  {
    assert Pow10(1) == 10 && Pow10(2) == 100 && Pow10(3) == 1000;
    assert Pow2(4) == 16 && Pow2(7) == 128;
    assert Pow2(10) == 8 * Pow2(7);
  }

  lemma FieldReads(v: nat, len: nat, tail: seq<bool>)
    requires v < Pow2(len)
    ensures var bits := BitsOf(v, len) + tail;
            Value(bits[..len]) == v && bits[len..] == tail
  {
    ValueOfBits(v, len);
    assert (BitsOf(v, len) + tail)[..len] == BitsOf(v, len);
  }

  lemma ReadNumericGroup(count: nat, v: nat, rest: seq<bool>)
    requires count > 0 && v < Pow2(3 * Min(count, 3) + 1)
    ensures var n := Min(count, 3);
            ReadNumeric(count, BitsOf(v, 3 * n + 1) + rest)
            == match ReadNumeric(count - n, rest)
               case None => None
               case Some((s, end)) => Some((Digits(v, n) + s, end))
  {
    hide Digits, Value, BitsOf, Pow2;
    FieldReads(v, 3 * Min(count, 3) + 1, rest);
  }

  lemma {:induction false} NumericReads(s: string, tail: seq<bool>)
    requires forall i :: 0 <= i < |s| ==> IsDigit(s[i])
    ensures ReadNumeric(|s|, NumericBits(s) + tail) == Some((s, tail))
    decreases |s|, 1
  {
    if |s| == 0 {
      assert NumericBits(s) + tail == tail;
    } else {
      NumericReadsMore(s, tail, Min(|s|, 3));
    }
  }

  lemma {:induction false} NumericReadsMore(s: string, tail: seq<bool>, n: nat)
    requires forall i :: 0 <= i < |s| ==> IsDigit(s[i])
    requires |s| > 0 && n == Min(|s|, 3)
    ensures ReadNumeric(|s|, NumericBits(s) + tail) == Some((s, tail))
    decreases |s|, 0
  {
    hide ParseInt, Digits, Value, BitsOf, Pow10, Pow2, ReadNumeric;
    var rest := NumericBits(s[n..]) + tail;
    NumericReads(s[n..], tail);
    assert NumericBits(s) + tail == BitsOf(ParseInt(s[..n]), 3 * n + 1) + rest;
    DigitsOfParseInt(s[..n]);
    GroupFits(n);
    ReadNumericGroup(|s|, ParseInt(s[..n]), rest);
    assert s == s[..n] + s[n..];
  }

  // ----- Alphanumeric mode -----

  function AlphanumericBits(s: string): seq<bool>
    requires forall i :: 0 <= i < |s| ==> IsAlphanumeric(s[i])
  {
    if |s| == 0 then []
    else if |s| == 1 then BitsOf(CharIndex(s[0]), 6)
    else BitsOf(CharIndex(s[0]) * 45 + CharIndex(s[1]), 11) + AlphanumericBits(s[2..])
  }

  function ReadAlphanumeric(count: nat, bits: seq<bool>): Option<(string, seq<bool>)>
  {
    if count == 0 then Some(("", bits))
    else if count == 1 then
      if |bits| < 6 || Value(bits[..6]) >= 45 then None
      else Some(([CharOf(Value(bits[..6]))], bits[6..]))
    else if |bits| < 11 || Value(bits[..11]) >= 45 * 45 then None
    else
      var v := Value(bits[..11]);
      match ReadAlphanumeric(count - 2, bits[11..])
      case None => None
      case Some((s, rest)) => Some(([CharOf(v / 45), CharOf(v % 45)] + s, rest))
  }

  lemma ReadAlphanumericPair(count: nat, v: nat, rest: seq<bool>)
    requires count >= 2 && v < 45 * 45
    ensures ReadAlphanumeric(count, BitsOf(v, 11) + rest)
         == match ReadAlphanumeric(count - 2, rest)
            case None => None
            case Some((s, end)) => Some(([CharOf(v / 45), CharOf(v % 45)] + s, end))
  {
    hide Value, BitsOf, Pow2;
    PowersOfTwo();
    FieldReads(v, 11, rest);
  }

  lemma {:induction false} AlphanumericReads(s: string, tail: seq<bool>)
    requires forall i :: 0 <= i < |s| ==> IsAlphanumeric(s[i])
    ensures ReadAlphanumeric(|s|, AlphanumericBits(s) + tail) == Some((s, tail))
    decreases |s|, 1
  {
    hide CharIndex, IsAlphanumeric, Value, BitsOf, Pow2;
    if |s| == 0 {
      assert AlphanumericBits(s) + tail == tail;
    } else if |s| == 1 {
      PowersOfTwo();
      FieldReads(CharIndex(s[0]), 6, tail);
      assert s == [s[0]];
    } else {
      AlphanumericReadsMore(s, tail);
    }
  }

  lemma {:induction false} AlphanumericReadsMore(s: string, tail: seq<bool>)
    requires |s| >= 2 && forall i :: 0 <= i < |s| ==> IsAlphanumeric(s[i])
    ensures ReadAlphanumeric(|s|, AlphanumericBits(s) + tail) == Some((s, tail))
    decreases |s|, 0
  {
    hide CharIndex, IsAlphanumeric, Value, BitsOf, Pow2, AlphanumericBits, ReadAlphanumeric;
    var i, j := CharIndex(s[0]), CharIndex(s[1]);
    var rest := AlphanumericBits(s[2..]) + tail;
    AlphanumericReads(s[2..], tail);
    AlphanumericSplit(s);
    assert AlphanumericBits(s) + tail == BitsOf(i * 45 + j, 11) + rest;
    ReadAlphanumericPair(|s|, i * 45 + j, rest);
    DivideBack(i, j);
    assert s == [s[0], s[1]] + s[2..];
  }

  lemma AlphanumericSplit(s: string)
    requires |s| >= 2 && forall i :: 0 <= i < |s| ==> IsAlphanumeric(s[i])
    ensures AlphanumericBits(s) == BitsOf(CharIndex(s[0]) * 45 + CharIndex(s[1]), 11) + AlphanumericBits(s[2..])
  {
  }

  lemma DivideBack(i: nat, j: nat)
    requires j < 45
    ensures (i * 45 + j) / 45 == i && (i * 45 + j) % 45 == j
  {
  }

  lemma PowersOfTwo()
    ensures Pow2(4) == 16 && Pow2(6) == 64 && Pow2(7) == 128 && Pow2(8) == 256
    ensures Pow2(11) == 2048 && Pow2(14) == 16384 && Pow2(21) == 2097152
  {
    assert Pow2(6) == 64;
    assert Pow2(11) == 32 * Pow2(6);
    assert Pow2(14) == 8 * Pow2(11);
    assert Pow2(21) == 128 * Pow2(14);
  }

  // ----- Byte and ECI modes -----

  function ReadBytes(count: nat, bits: seq<bool>): Option<(seq<Byte>, seq<bool>)>
  {
    if |bits| < 8 * count then None else Some((BytesOf(bits[..8 * count]), bits[8 * count..]))
  }

  /** The byte string with the given bits. */
  function BytesOf(bits: seq<bool>): (data: seq<Byte>)
    requires |bits| % 8 == 0
  {
    if |bits| == 0 then []
    else
      BitsOfValue(bits[|bits| - 8..]);
      PowersOfTwo();
      BytesOf(bits[..|bits| - 8]) + [Value(bits[|bits| - 8..])]
  }

  lemma {:induction false} BytesOfBits(data: seq<Byte>)
    ensures BytesOf(BytesToBits(data)) == data
  {
    hide Value, BitsOf, Pow2;
    if |data| > 0 {
      var n := |data| - 1;
      BytesOfBits(data[..n]);
      PowersOfTwo();
      ValueOfBits(data[n], 8);
      assert BytesToBits(data)[..8 * n] == BytesToBits(data[..n]);
      assert BytesToBits(data)[8 * n..] == BitsOf(data[n], 8);
    }
  }

  function EciBits(assignment: nat): seq<bool>
    requires assignment < 1000000
  {
    if assignment < 128 then BitsOf(assignment, 8)
    else if assignment < 16384 then BitsOf(2, 2) + BitsOf(assignment, 14)
    else BitsOf(6, 3) + BitsOf(assignment, 21)
  }

  function ReadEci(bits: seq<bool>): Option<(nat, seq<bool>)>
  {
    if |bits| < 8 then None
    else if !bits[0] then Some((Value(bits[..8]), bits[8..]))
    else if !bits[1] then
      if |bits| < 16 then None else Some((Value(bits[2..16]), bits[16..]))
    else if !bits[2] then
      if |bits| < 24 then None else Some((Value(bits[3..24]), bits[24..]))
    else None
  }

  lemma EciReads(assignment: nat, tail: seq<bool>)
    requires assignment < 1000000
    ensures ReadEci(EciBits(assignment) + tail) == Some((assignment, tail))
  {
    hide Value, Pow2, BitsOf;
    PowersOfTwo();
    EciPrefixes();
    if assignment < 128 {
      FieldReads(assignment, 8, tail);
      TopBitClear(assignment);
    } else if assignment < 16384 {
      PrefixedFieldReads(BitsOf(2, 2), assignment, 14, tail);
    } else {
      PrefixedFieldReads(BitsOf(6, 3), assignment, 21, tail);
    }
  }

  lemma EciPrefixes()
    ensures BitsOf(2, 2) == [true, false] && BitsOf(6, 3) == [true, true, false]
  {
  }

  lemma PrefixedFieldReads(prefix: seq<bool>, v: nat, len: nat, tail: seq<bool>)
    requires v < Pow2(len)
    ensures var bits := prefix + BitsOf(v, len) + tail;
            Value(bits[|prefix|..|prefix| + len]) == v && bits[|prefix| + len..] == tail
  {
    ValueOfBits(v, len);
    assert (prefix + BitsOf(v, len) + tail)[|prefix|..|prefix| + len] == BitsOf(v, len);
  }

  lemma TopBitClear(v: nat)
    requires v < 128
    ensures !BitsOf(v, 8)[0]
  {
    BitAt(v, 8, 0);
    PowersOfTwo();
    ShrSmall(v, 7);
  }

  // ----- Segments and streams -----

  /** The segment that the makers build for a payload. */
  function SegmentOf(p: Payload): Segment
    requires Encodable(p)
  {
    match p
    case Numeric(digits) => Segment(NUMERIC, |digits|, NumericBits(digits))
    case Alphanumeric(text) => Segment(ALPHANUMERIC, |text|, AlphanumericBits(text))
    case Bytes(bytes) => Segment(BYTE, |bytes|, BytesToBits(bytes))
    case Eci(assignment) => Segment(ECI, 0, EciBits(assignment))
  }

  function SegmentBits(seg: Segment, ver: nat): seq<bool>
    requires 1 <= ver <= 40
  {
    BitsOf(seg.mode.ModeBits(), 4) + BitsOf(seg.numChars, CountWidth(seg.mode, ver)) + seg.data
  }

  /** The concatenated segments, headers included. */
  function Stream(segs: seq<Segment>, ver: nat): seq<bool>
    requires 1 <= ver <= 40
  {
    if |segs| == 0 then [] else Stream(segs[..|segs| - 1], ver) + SegmentBits(segs[|segs| - 1], ver)
  }

  predicate CountFits(seg: Segment, ver: nat)
    requires 1 <= ver <= 40
  {
    seg.numChars < Pow2(CountWidth(seg.mode, ver))
  }

  function ModeOf(m: nat): Option<Mode>
  {
    if m == 1 then Some(NUMERIC) else if m == 2 then Some(ALPHANUMERIC)
    else if m == 4 then Some(BYTE) else if m == 7 then Some(ECI) else None
  }

  function ReadData(mode: Mode, count: nat, bits: seq<bool>): Option<(Payload, seq<bool>)>
  {
    match mode
    case NUMERIC =>
      (match ReadNumeric(count, bits) case None => None case Some((s, rest)) => Some((Numeric(s), rest)))
    case ALPHANUMERIC =>
      (match ReadAlphanumeric(count, bits) case None => None case Some((s, rest)) => Some((Alphanumeric(s), rest)))
    case BYTE =>
      (match ReadBytes(count, bits) case None => None case Some((b, rest)) => Some((Bytes(b), rest)))
    case ECI =>
      (match ReadEci(bits) case None => None case Some((a, rest)) => Some((Eci(a), rest)))
    case KANJI => None
  }

  /** Reads one segment. */
  function ReadSegment(bits: seq<bool>, ver: nat): Option<(Payload, seq<bool>)>
    requires 1 <= ver <= 40
  {
    if |bits| < 4 then None
    else
      match ModeOf(Value(bits[..4]))
      case None => None
      case Some(mode) =>
        var width := CountWidth(mode, ver);
        if |bits| < 4 + width then None
        else ReadData(mode, Value(bits[4..4 + width]), bits[4 + width..])
  }

  /** A stream ends at four zero bits, or where fewer than four bits are left. */
  predicate AtTerminator(bits: seq<bool>)
  {
    |bits| < 4 || Value(bits[..4]) == 0
  }

  /** Reads segments up to the terminator; the second component is what follows them. */
  function ReadStream(bits: seq<bool>, ver: nat): Option<(seq<Payload>, seq<bool>)>
    requires 1 <= ver <= 40
    decreases |bits|
  {
    if AtTerminator(bits) then Some(([], bits))
    else
      match ReadSegment(bits, ver)
      case None => None
      case Some((p, rest)) =>
        if |rest| >= |bits| then None
        else
          match ReadStream(rest, ver)
          case None => None
          case Some((ps, end)) => Some(([p] + ps, end))
  }

  lemma HeaderReads(m: nat, count: nat, width: nat, rest: seq<bool>)
    requires m < 16 && count < Pow2(width)
    ensures var bits := BitsOf(m, 4) + BitsOf(count, width) + rest;
            && Value(bits[..4]) == m && Value(bits[4..4 + width]) == count && bits[4 + width..] == rest
  {
    hide Value, BitsOf, Pow2;
    PowersOfTwo();
    FieldReads(m, 4, BitsOf(count, width) + rest);
    assert BitsOf(m, 4) + BitsOf(count, width) + rest == BitsOf(m, 4) + (BitsOf(count, width) + rest);
    PrefixedFieldReads(BitsOf(m, 4), count, width, rest);
  }

  lemma SegmentReads(p: Payload, ver: nat, tail: seq<bool>)
    requires 1 <= ver <= 40 && Encodable(p) && CountFits(SegmentOf(p), ver)
    ensures ReadSegment(SegmentBits(SegmentOf(p), ver) + tail, ver) == Some((p, tail))
    ensures !AtTerminator(SegmentBits(SegmentOf(p), ver) + tail)
  {
    hide Value, BitsOf, Pow2, ReadData, NumericBits, AlphanumericBits, BytesToBits, EciBits;
    var seg := SegmentOf(p);
    var width := CountWidth(seg.mode, ver);
    HeaderReads(seg.mode.ModeBits(), seg.numChars, width, seg.data + tail);
    assert SegmentBits(seg, ver) + tail
        == BitsOf(seg.mode.ModeBits(), 4) + BitsOf(seg.numChars, width) + (seg.data + tail);
    DataReads(p, tail);
  }

  lemma DataReads(p: Payload, tail: seq<bool>)
    requires Encodable(p)
    ensures ReadData(SegmentOf(p).mode, SegmentOf(p).numChars, SegmentOf(p).data + tail) == Some((p, tail))
  {
    hide Value, BitsOf, Pow2, NumericBits, AlphanumericBits, BytesToBits, EciBits;
    match p
    case Numeric(digits) => NumericReads(digits, tail);
    case Alphanumeric(text) => AlphanumericReads(text, tail);
    case Bytes(bytes) =>
      var bits := BytesToBits(bytes) + tail;
      assert bits[..8 * |bytes|] == BytesToBits(bytes) && bits[8 * |bytes|..] == tail;
      BytesOfBits(bytes);
    case Eci(assignment) => EciReads(assignment, tail);
  }

  function SegmentsOf(ps: seq<Payload>): (segs: seq<Segment>)
    requires forall i :: 0 <= i < |ps| ==> Encodable(ps[i])
    ensures |segs| == |ps|
  {
    seq(|ps|, i requires 0 <= i < |ps| => SegmentOf(ps[i]))
  }

  lemma {:induction false} StreamPrepend(seg: Segment, segs: seq<Segment>, ver: nat)
    requires 1 <= ver <= 40
    ensures Stream([seg] + segs, ver) == SegmentBits(seg, ver) + Stream(segs, ver)
  {
    hide SegmentBits;
    if |segs| == 0 {
      assert [seg] + segs == [seg] && [seg][..0] == [];
    } else {
      assert ([seg] + segs)[..|segs|] == [seg] + segs[..|segs| - 1];
      StreamPrepend(seg, segs[..|segs| - 1], ver);
    }
  }

  /** Reading the stream of any encodable payloads gives them back, with what follows them. */
  lemma {:induction false} StreamReads(ps: seq<Payload>, ver: nat, tail: seq<bool>)
    requires 1 <= ver <= 40
    requires forall i :: 0 <= i < |ps| ==> Encodable(ps[i])
    requires forall i :: 0 <= i < |ps| ==> CountFits(SegmentOf(ps[i]), ver)
    requires AtTerminator(tail)
    ensures ReadStream(Stream(SegmentsOf(ps), ver) + tail, ver) == Some((ps, tail))
    decreases |ps|
  {
    hide ReadSegment, SegmentBits, AtTerminator, CountFits, SegmentOf, Encodable;
    var segs := SegmentsOf(ps);
    if |ps| == 0 {
      assert Stream(segs, ver) + tail == tail;
    } else {
      var rest := Stream(segs[1..], ver) + tail;
      assert segs == [segs[0]] + segs[1..];
      assert segs[1..] == SegmentsOf(ps[1..]);
      StreamPrepend(segs[0], segs[1..], ver);
      assert Stream(segs, ver) + tail == SegmentBits(segs[0], ver) + rest;
      SegmentReads(ps[0], ver, rest);
      StreamReads(ps[1..], ver, tail);
      SegmentIsLong(segs[0], ver);
      assert ps == [ps[0]] + ps[1..];
    }
  }

  lemma SegmentIsLong(seg: Segment, ver: nat)
    requires 1 <= ver <= 40
    ensures |SegmentBits(seg, ver)| >= 4
  {
  }

  // ----- The makers -----

  method MakeBytes(bytes: seq<Byte>) returns (seg: Segment)
    ensures seg == SegmentOf(Bytes(bytes))
  {
    var bb := new BitBuffer();
    for i := 0 to |bytes|
      invariant fresh(bb) && bb.bits == BytesToBits(bytes[..i])
    {
      PowersOfTwo();
      var _ := bb.AppendBits(bytes[i], 8);
      assert bytes[..i + 1][..i] == bytes[..i];
    }
    assert bytes[..|bytes|] == bytes;
    seg := Segment(BYTE, |bytes|, bb.bits);
  }

  lemma NumericGroup(digits: string, i: nat, n: nat)
    requires forall k :: 0 <= k < |digits| ==> IsDigit(digits[k])
    requires i < |digits| && n == Min(|digits| - i, 3)
    ensures ParseInt(digits[i..i + n]) < Pow2(3 * n + 1) <= 1024
    ensures NumericBits(digits[i..])
         == BitsOf(ParseInt(digits[i..i + n]), 3 * n + 1) + NumericBits(digits[i + n..])
  {
    hide ParseInt, BitsOf, Pow10, Pow2;
    DigitsOfParseInt(digits[i..i + n]);
    GroupFits(n);
    SmallPower(3 * n + 1);
    assert digits[i..][..n] == digits[i..i + n] && digits[i..][n..] == digits[i + n..];
  }

  lemma AlphanumericEnd(s: string)
    requires |s| < 2 && forall k :: 0 <= k < |s| ==> IsAlphanumeric(s[k])
    ensures AlphanumericBits(s) == if |s| == 0 then [] else BitsOf(CharIndex(s[0]), 6)
  {
  }

  lemma AlphanumericPair(text: string, i: nat)
    requires forall k :: 0 <= k < |text| ==> IsAlphanumeric(text[k])
    requires i + 2 <= |text|
    ensures AlphanumericBits(text[i..])
         == BitsOf(CharIndex(text[i]) * 45 + CharIndex(text[i + 1]), 11) + AlphanumericBits(text[i + 2..])
  {
    hide CharIndex, IsAlphanumeric, BitsOf;
    assert text[i..][2..] == text[i + 2..];
  }

  method MakeNumeric(digits: string) returns (r: Result<Segment>)
    ensures r.Ok? <==> Encodable(Numeric(digits))
    ensures r.Ok? ==> r.value == SegmentOf(Numeric(digits))
  {
    hide ParseInt, BitsOf, Pow10, Pow2, NumericBits;
    if !(forall i :: 0 <= i < |digits| ==> IsDigit(digits[i])) {
      return Err("String contains non-numeric characters");
    }
    var bb := new BitBuffer();
    var i := 0;
    while i < |digits|
      invariant fresh(bb) && 0 <= i <= |digits|
      invariant bb.bits + NumericBits(digits[i..]) == NumericBits(digits)
    {
      ghost var before := bb.bits;
      var n := Min(|digits| - i, 3);
      NumericGroup(digits, i, n);
      var v := ParseInt(digits[i..i + n]);
      var _ := bb.AppendBits(v, 3 * n + 1);
      Regroup(before, BitsOf(v, 3 * n + 1), NumericBits(digits[i + n..]));
      i := i + n;
    }
    NoDigits(digits[i..]);
    r := Ok(Segment(NUMERIC, |digits|, bb.bits));
  }

  lemma NoDigits(s: string)
    requires |s| == 0
    ensures NumericBits(s) == []
  {
  }

  lemma Regroup(a: seq<bool>, b: seq<bool>, c: seq<bool>)
    ensures (a + b) + c == a + (b + c)
  {
  }

  lemma SmallPower(n: nat)
    requires n <= 10
    ensures Pow2(n) <= 1024
  {
    assert Pow2(10) == 1024;
    Pow2Monotone(n, 10);
  }

  method MakeAlphanumeric(text: string) returns (r: Result<Segment>)
    ensures r.Ok? <==> Encodable(Alphanumeric(text))
    ensures r.Ok? ==> r.value == SegmentOf(Alphanumeric(text))
  {
    hide CharIndex, IsAlphanumeric, BitsOf, Pow2, AlphanumericBits;
    if !(forall i :: 0 <= i < |text| ==> IsAlphanumeric(text[i])) {
      return Err("String contains unencodable characters in alphanumeric mode");
    }
    PowersOfTwo();
    var bb := new BitBuffer();
    var i := 0;
    while i + 2 <= |text|
      invariant fresh(bb) && 0 <= i <= |text|
      invariant bb.bits + AlphanumericBits(text[i..]) == AlphanumericBits(text)
    {
      ghost var before := bb.bits;
      AlphanumericPair(text, i);
      var temp := CharIndex(text[i]) * 45;
      temp := temp + CharIndex(text[i + 1]);
      var _ := bb.AppendBits(temp, 11);
      Regroup(before, BitsOf(temp, 11), AlphanumericBits(text[i + 2..]));
      i := i + 2;
    }
    AlphanumericEnd(text[i..]);
    if i < |text| {
      var _ := bb.AppendBits(CharIndex(text[i]), 6);
    }
    r := Ok(Segment(ALPHANUMERIC, |text|, bb.bits));
  }

  method MakeEci(assignVal: int) returns (r: Result<Segment>)
    ensures r.Ok? <==> 0 <= assignVal < 1000000
    ensures r.Ok? ==> r.value == SegmentOf(Eci(assignVal))
  {
    PowersOfTwo();
    var bb := new BitBuffer();
    if assignVal < 0 {
      return Err("ECI assignment value out of range");
    } else if assignVal < 128 {
      var _ := bb.AppendBits(assignVal, 8);
    } else if assignVal < 16384 {
      var _ := bb.AppendBits(2, 2);
      var _ := bb.AppendBits(assignVal, 14);
    } else if assignVal < 1000000 {
      var _ := bb.AppendBits(6, 3);
      var _ := bb.AppendBits(assignVal, 21);
    } else {
      return Err("ECI assignment value out of range");
    }
    r := Ok(Segment(ECI, 0, bb.bits));
  }
}

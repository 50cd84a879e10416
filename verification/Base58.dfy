/** Base-58 encoding of byte strings by a carry loop over a growing list of digits, and its inverse. */
module Base58 {
  import opened Bits
  import opened Results

  const ALPHABET: string := "123456789ABCDEFGHJKL" + "MNPQRSTUVWXYZabcdefg" + "hijkmnopqrstuvwxyz"

  // ----- The alphabet -----

  /** The alphabet by its six runs of consecutive characters. */
  function Glyph(k: nat): char
    requires k < 58
  {
    if k < 9 then (49 + k) as char
    else if k < 17 then (65 + k - 9) as char
    else if k < 22 then (74 + k - 17) as char
    else if k < 33 then (80 + k - 22) as char
    else if k < 44 then (97 + k - 33) as char
    else (109 + k - 44) as char
  }

  lemma FirstGlyphs(k: nat)
    requires k < 20
    ensures |ALPHABET| == 58 && ALPHABET[k] == Glyph(k)
  {
  }

  lemma MiddleGlyphs(k: nat)
    requires 20 <= k < 40
    ensures |ALPHABET| == 58 && ALPHABET[k] == Glyph(k)
  {
  }

  lemma LastGlyphs(k: nat)
    requires 40 <= k < 58
    ensures |ALPHABET| == 58 && ALPHABET[k] == Glyph(k)
  {
  }

  lemma Glyphs(k: nat)
    requires k < 58
    ensures |ALPHABET| == 58 && ALPHABET[k] == Glyph(k)
  {
    if k < 20 { FirstGlyphs(k); } else if k < 40 { MiddleGlyphs(k); } else { LastGlyphs(k); }
  }

  /** The digit that a character stands for. */
  function DigitOf(c: char): (d: Option<nat>)
    ensures d.Some? ==> d.value < 58
  {
    var n := c as int;
    if 49 <= n <= 57 then Some(n - 49)
    else if 65 <= n <= 72 then Some(n - 65 + 9)
    else if 74 <= n <= 78 then Some(n - 74 + 17)
    else if 80 <= n <= 90 then Some(n - 80 + 22)
    else if 97 <= n <= 107 then Some(n - 97 + 33)
    else if 109 <= n <= 122 then Some(n - 109 + 44)
    else None
  }

  lemma GlyphDigit(k: nat)
    requires k < 58
    ensures |ALPHABET| == 58 && DigitOf(ALPHABET[k]) == Some(k) && (ALPHABET[k] == '1' <==> k == 0)
  {
    Glyphs(k);
  }

  // ----- Numbers -----

  /** The number that a byte string denotes, first byte most significant. */
  function Number(bytes: seq<Byte>): nat
  {
    if |bytes| == 0 then 0 else 256 * Number(bytes[..|bytes| - 1]) + bytes[|bytes| - 1]
  }

  /** The number that a digit list denotes, first digit least significant. */
  function Digits(d: seq<nat>): nat
  {
    if |d| == 0 then 0 else d[0] + 58 * Digits(d[1..])
  }

  function Power58(n: nat): nat
  {
    if n == 0 then 1 else 58 * Power58(n - 1)
  }

  lemma {:induction false} DigitsAppend(d: seq<nat>, x: nat)
    ensures Digits(d + [x]) == Digits(d) + Power58(|d|) * x
  {
    if |d| == 0 {
      assert [x][1..] == [] && d + [x] == [x];
    } else {
      assert (d + [x])[1..] == d[1..] + [x];
      DigitsAppend(d[1..], x);
      assert 58 * (Power58(|d| - 1) * x) == 58 * Power58(|d| - 1) * x;
    }
  }

  predicate AreDigits(d: seq<nat>)
  {
    forall i :: 0 <= i < |d| ==> d[i] < 58
  }

  /** No leading zero, except that zero itself is one digit. */
  predicate Minimal(d: seq<nat>)
  {
    |d| >= 1 && AreDigits(d) && (|d| > 1 ==> d[|d| - 1] != 0)
  }

  // ----- The carry loop -----

  /** Multiplying the first j digits by 256 and adding a byte, with the carry still to go on. */
  lemma {:induction false} CarryMoves(d: seq<nat>, e: seq<nat>, j: nat, carry: nat, byte: nat)
    requires j < |d| && |e| == |d|
    requires Digits(e[..j]) + Power58(j) * carry == 256 * Digits(d[..j]) + byte
    ensures var c := carry + d[j] * 256;
            Digits(e[..j] + [c % 58]) + Power58(j + 1) * (c / 58) == 256 * Digits(d[..j + 1]) + byte
  {
    var c, p := carry + d[j] * 256, Power58(j);
    DigitsAppend(e[..j], c % 58);
    DigitsAppend(d[..j], d[j]);
    assert d[..j] + [d[j]] == d[..j + 1];
    CarryArithmetic(p, c, carry, d[j]);
  }

  lemma CarryArithmetic(p: nat, c: nat, carry: nat, digit: nat)
    requires c == carry + digit * 256
    ensures p * (c % 58) + 58 * p * (c / 58) == p * carry + 256 * (p * digit)
  {
    assert c == 58 * (c / 58) + c % 58;
    assert p * c == p * (58 * (c / 58)) + p * (c % 58);
    assert p * (58 * (c / 58)) == 58 * p * (c / 58);
    assert p * c == p * carry + p * (digit * 256);
  }

  /** One byte: the inner loop of the source. The carry stays below 256. */
  method AddByte(digits: seq<nat>, byte: Byte) returns (d: seq<nat>)
    requires Minimal(digits)
    ensures Minimal(d) && Digits(d) == 256 * Digits(digits) + byte
  {
    hide Digits, Power58;
    d := digits;
    var c: nat := byte;
    StartCarry(digits, d, byte);
    for j := 0 to |d|
      invariant |d| == |digits| && c <= 255 && d[j..] == digits[j..]
      invariant forall i :: 0 <= i < j ==> d[i] < 58
      invariant Digits(d[..j]) + Power58(j) * c == 256 * Digits(digits[..j]) + byte
      invariant |digits| > 1 && j == |digits| && c == 0 ==> d[j - 1] != 0
    {
      CarryMoves(digits, d, j, c, byte);
      assert d[j] == d[j..][0] == digits[j..][0];
      ghost var before, was := d, c;
      c := c + d[j] * 256;
      CarryBound(was, digits[j], c);
      d := d[j := c % 58];
      c := c / 58;
      assert d[..j + 1] == before[..j] + [d[j]];
      assert d[j + 1..] == before[j..][1..];
    }
    assert d[..|d|] == d && digits[..|digits|] == digits;
    d := PushCarry(d, c);
  }

  lemma StartCarry(digits: seq<nat>, d: seq<nat>, byte: nat)
    ensures Digits(d[..0]) + Power58(0) * byte == 256 * Digits(digits[..0]) + byte
  {
  }

  /** A top digit that is not zero stays so, or leaves a carry. */
  lemma CarryBound(carry: nat, digit: nat, c: nat)
    requires carry <= 255 && digit < 58 && c == carry + digit * 256
    ensures c / 58 <= 255
    ensures digit != 0 ==> c / 58 != 0
  {
  }

  /** The second inner loop: the carry becomes new digits. */
  method PushCarry(digits: seq<nat>, carry: nat) returns (d: seq<nat>)
    requires |digits| >= 1 && AreDigits(digits) && (|digits| > 1 && carry == 0 ==> digits[|digits| - 1] != 0)
    ensures Minimal(d) && Digits(d) == Digits(digits) + Power58(|digits|) * carry
  {
    hide Digits, Power58;
    d := digits;
    var c := carry;
    while c != 0
      invariant |d| >= 1 && AreDigits(d) && (|d| > 1 && c == 0 ==> d[|d| - 1] != 0)
      invariant Digits(d) + Power58(|d|) * c == Digits(digits) + Power58(|digits|) * carry
      decreases c
    {
      DigitsAppend(d, c % 58);
      PushArithmetic(Power58(|d|), c);
      PowerNext(|d|);
      d := d + [c % 58];
      c := c / 58;
    }
  }

  lemma PowerNext(n: nat)
    ensures Power58(n + 1) == 58 * Power58(n)
  {
  }

  lemma PushArithmetic(p: nat, c: nat)
    ensures p * (c % 58) + 58 * p * (c / 58) == p * c
  {
    CarryArithmetic(p, c, c, 0);
  }

  // ----- The encoder -----

  /** The number of leading zero bytes. */
  function Zeros(bytes: seq<Byte>): (z: nat)
    ensures z <= |bytes|
    ensures forall i :: 0 <= i < z ==> bytes[i] == 0
    ensures z < |bytes| ==> bytes[z] != 0
  {
    if |bytes| == 0 || bytes[0] != 0 then 0 else 1 + Zeros(bytes[1..])
  }

  function Ones(n: nat): (s: string)
    ensures |s| == n && forall i :: 0 <= i < n ==> s[i] == '1'
  {
    if n == 0 then "" else Ones(n - 1) + "1"
  }

  /** The characters of a digit list, last digit first. */
  function Spelled(d: seq<nat>): (s: string)
    requires AreDigits(d)
    ensures |s| == |d|
  {
    if |d| == 0 then ""
    else
      Glyphs(d[0]);
      Spelled(d[1..]) + [ALPHABET[d[0]]]
  }

  /** What the encoder returns: as many '1' as leading zero bytes, then the digits of the rest. */
  ghost predicate Encodes(s: string, bytes: seq<Byte>)
  {
    var z := Zeros(bytes);
    exists d: seq<nat> :: Minimal(d) && Digits(d) == Number(bytes[z..]) && s == Ones(z) + Spelled(d)
  }

  method Encode(bytes: seq<Byte>) returns (s: string)
    ensures Encodes(s, bytes)
  {
    hide Digits, Number, Spelled;
    var z := 0;
    while z < |bytes| && bytes[z] == 0
      invariant 0 <= z <= |bytes| && forall i :: 0 <= i < z ==> bytes[i] == 0
    {
      z := z + 1;
    }
    ZerosAre(bytes, z);
    var d := [0];
    NothingYet(bytes[z..z]);
    for i := z to |bytes|
      invariant Minimal(d) && Digits(d) == Number(bytes[z..i])
    {
      NumberNext(bytes, z, i);
      d := AddByte(d, bytes[i]);
    }
    s := Spell(z, d);
    assert bytes[z..|bytes|] == bytes[z..];
  }

  lemma {:induction false} ZerosAre(bytes: seq<Byte>, z: nat)
    requires z <= |bytes| && (forall i :: 0 <= i < z ==> bytes[i] == 0) && (z < |bytes| ==> bytes[z] != 0)
    ensures Zeros(bytes) == z
  {
    if z > 0 { ZerosAre(bytes[1..], z - 1); }
  }

  lemma NothingYet(none: seq<Byte>)
    requires |none| == 0
    ensures Digits([0]) == 0 == Number(none)
  {
    assert Digits([0]) == 0 + 58 * Digits([]);
  }

  lemma NumberNext(bytes: seq<Byte>, z: nat, i: nat)
    requires z <= i < |bytes|
    ensures Number(bytes[z..i + 1]) == 256 * Number(bytes[z..i]) + bytes[i]
  {
    assert bytes[z..i + 1][..i - z] == bytes[z..i];
  }

  /** The two output loops of the source. */
  method Spell(z: nat, d: seq<nat>) returns (s: string)
    requires AreDigits(d)
    ensures s == Ones(z) + Spelled(d)
  {
    s := "";
    for k := 0 to z
      invariant s == Ones(k)
    {
      s := s + "1";
    }
    NoDigits(d);
    for q := |d| downto 0
      invariant AreDigits(d[q..]) && s == Ones(z) + Spelled(d[q..])
    {
      assert d[q..][1..] == d[q + 1..];
      Glyphs(d[q]);
      s := s + [ALPHABET[d[q]]];
    }
    assert d[0..] == d;
  }

  lemma NoDigits(d: seq<nat>)
    ensures d[|d|..] == [] && Spelled([]) == ""
  {
  }

  // ----- The decoder -----

  function LeadingOnes(s: string): (z: nat)
    ensures z <= |s|
  {
    if |s| == 0 || s[0] != '1' then 0 else 1 + LeadingOnes(s[1..])
  }

  /** The number that a string of digits denotes, first digit most significant. */
  function Numeral(s: string): Option<nat>
  {
    if |s| == 0 then Some(0)
    else
      match (Numeral(s[..|s| - 1]), DigitOf(s[|s| - 1]))
      case (Some(v), Some(d)) => Some(58 * v + d)
      case _ => None
  }

  /** The shortest byte string for a number. */
  function ShortestBytes(n: nat): seq<Byte>
  {
    if n == 0 then [] else ShortestBytes(n / 256) + [(n % 256) as Byte]
  }

  function ZeroBytes(n: nat): (b: seq<Byte>)
    ensures |b| == n && forall i :: 0 <= i < n ==> b[i] == 0
  {
    if n == 0 then [] else ZeroBytes(n - 1) + [0]
  }

  function Decode(s: string): Option<seq<Byte>>
  {
    var z := LeadingOnes(s);
    match Numeral(s[z..])
    case None => None
    case Some(v) => Some(ZeroBytes(z) + ShortestBytes(v))
  }

  lemma {:induction false} SpelledValue(d: seq<nat>)
    requires AreDigits(d)
    ensures Numeral(Spelled(d)) == Some(Digits(d))
  {
    hide DigitOf;
    if |d| > 0 {
      SpelledValue(d[1..]);
      GlyphDigit(d[0]);
      assert Spelled(d)[..|d| - 1] == Spelled(d[1..]);
    }
  }

  lemma {:induction false} FirstCharacter(d: seq<nat>)
    requires AreDigits(d) && |d| > 0
    ensures Spelled(d)[0] == '1' <==> d[|d| - 1] == 0
  {
    hide DigitOf;
    if |d| == 1 {
      GlyphDigit(d[0]);
      assert Spelled(d[1..]) == "";
    } else {
      FirstCharacter(d[1..]);
    }
  }

  lemma {:induction false} NumberBytes(bytes: seq<Byte>)
    requires |bytes| > 0 ==> bytes[0] != 0
    ensures ShortestBytes(Number(bytes)) == bytes
    ensures |bytes| > 0 ==> Number(bytes) > 0
  {
    if |bytes| > 0 {
      var init, last := bytes[..|bytes| - 1], bytes[|bytes| - 1];
      NumberBytes(init);
      assert (256 * Number(init) + last) / 256 == Number(init);
      assert bytes == init + [last];
    }
  }

  lemma {:induction false} OnesBefore(z: nat, t: string)
    ensures LeadingOnes(Ones(z) + t) == z + LeadingOnes(t)
  {
    if z == 0 {
      assert Ones(0) + t == t;
    } else {
      assert (Ones(z) + t)[1..] == Ones(z - 1) + t;
      OnesBefore(z - 1, t);
    }
  }

  lemma {:induction false} TopDigit(d: seq<nat>)
    requires AreDigits(d) && |d| > 0 && d[|d| - 1] != 0
    ensures Digits(d) > 0
  {
    if |d| > 1 { TopDigit(d[1..]); }
  }

  lemma {:induction false} AllZeros(bytes: seq<Byte>)
    requires forall i :: 0 <= i < |bytes| ==> bytes[i] == 0
    ensures bytes == ZeroBytes(|bytes|)
  {
  }

  lemma DecodeIs(s: string, z: nat, rest: string)
    requires s == Ones(z) + rest && (|rest| > 0 ==> rest[0] != '1') && Numeral(rest).Some?
    ensures Decode(s) == Some(ZeroBytes(z) + ShortestBytes(Numeral(rest).value))
  {
    hide Numeral, ShortestBytes, ZeroBytes, Ones;
    OnesBefore(z, rest);
    assert s[z..] == rest;
  }

  /** With a byte that is not zero, the leading '1' are exactly the leading zero bytes. */
  lemma DecodesNonzero(s: string, bytes: seq<Byte>)
    requires Encodes(s, bytes) && Zeros(bytes) < |bytes|
    ensures Decode(s) == Some(bytes)
  {
    hide Digits, Number, Spelled, Numeral, ShortestBytes, Ones, ZeroBytes, Decode, Zeros;
    var z := Zeros(bytes);
    var d: seq<nat> :| Minimal(d) && Digits(d) == Number(bytes[z..]) && s == Ones(z) + Spelled(d);
    NumberBytes(bytes[z..]);
    TopNotZero(d);
    FirstCharacter(d);
    SpelledValue(d);
    DecodeIs(s, z, Spelled(d));
    AllZeros(bytes[..z]);
    assert bytes == bytes[..z] + bytes[z..];
  }

  lemma TopNotZero(d: seq<nat>)
    requires Minimal(d)
    ensures Digits(d) == 0 <==> d == [0]
    ensures Digits(d) > 0 ==> d[|d| - 1] != 0
  {
    if |d| == 1 {
      assert d[1..] == [] && d == [d[0]];
    } else {
      TopDigit(d);
    }
  }

  /** All zero bytes, or no bytes: the one digit of zero is one more '1'. */
  lemma DecodesZero(s: string, bytes: seq<Byte>)
    requires Encodes(s, bytes) && Zeros(bytes) == |bytes|
    ensures Decode(s) == Some(bytes + [0])
  {
    hide Digits, Number, Spelled, Numeral, ShortestBytes, Ones, ZeroBytes, Decode, Zeros;
    var z := Zeros(bytes);
    var d: seq<nat> :| Minimal(d) && Digits(d) == Number(bytes[z..]) && s == Ones(z) + Spelled(d);
    NothingYet(bytes[z..]);
    TopNotZero(d);
    SpelledZero();
    OneMoreOne(z);
    NothingSpelled();
    DecodeIs(s, z + 1, "");
    AllZeros(bytes + [0]);
    assert ZeroBytes(z + 1) + [] == bytes + [0];
  }

  lemma OneMoreOne(z: nat)
    ensures Ones(z) + "1" == Ones(z + 1) + ""
  {
  }

  lemma NothingSpelled()
    ensures Numeral("") == Some(0) && ShortestBytes(0) == []
  {
  }

  lemma SpelledZero()
    ensures Spelled([0]) == "1"
  {
    GlyphDigit(0);
    assert [0][1..] == [];
  }

  /** Decoding undoes encoding exactly when some byte is not zero. */
  lemma DecodeUndoesIff(s: string, bytes: seq<Byte>)
    requires Encodes(s, bytes)
    ensures Decode(s) == Some(bytes) <==> exists i :: 0 <= i < |bytes| && bytes[i] != 0
  {
    hide Encodes, Decode;
    if Zeros(bytes) < |bytes| { DecodesNonzero(s, bytes); } else { DecodesZero(s, bytes); }
  }

  /** Two byte strings never have the same encoding. */
  lemma EncodingIsInjective(s: string, x: seq<Byte>, y: seq<Byte>)
    requires Encodes(s, x) && Encodes(s, y)
    ensures x == y
  {
    hide Encodes, Decode;
    if Zeros(x) < |x| { DecodesNonzero(s, x); } else { DecodesZero(s, x); }
    if Zeros(y) < |y| { DecodesNonzero(s, y); } else { DecodesZero(s, y); }
    if Zeros(x) == |x| && Zeros(y) == |y| {
      assert (x + [0])[..|x|] == x && (y + [0])[..|y|] == y;
    }
  }

  /** And one byte string has only one. */
  lemma EncodingIsUnique(s: string, t: string, x: seq<Byte>)
    requires Encodes(s, x) && Encodes(t, x)
    ensures s == t
  {
    hide Digits, Number, Spelled;
    var z := Zeros(x);
    var d: seq<nat> :| Minimal(d) && Digits(d) == Number(x[z..]) && s == Ones(z) + Spelled(d);
    var e: seq<nat> :| Minimal(e) && Digits(e) == Number(x[z..]) && t == Ones(z) + Spelled(e);
    SameDigits(d, e);
  }

  lemma {:induction false} SameDigits(d: seq<nat>, e: seq<nat>)
    requires Minimal(d) && Minimal(e) && Digits(d) == Digits(e)
    ensures d == e
  {
    TopNotZero(d);
    TopNotZero(e);
    assert Digits(d) % 58 == d[0] && Digits(e) % 58 == e[0];
    if |d| > 1 && |e| > 1 {
      SameDigits(d[1..], e[1..]);
      assert d == [d[0]] + d[1..] && e == [e[0]] + e[1..];
    } else if |d| > 1 {
      TopDigit(d[1..]);
    } else if |e| > 1 {
      TopDigit(e[1..]);
    }
  }
}

/**
 The appendable bit sequence of the encoder, big-endian fields, and the packing of bits
 into codeword bytes.
 */
module BitStream {
  import opened Bits
  import opened Results

  /** The len low-order bits of val, most significant first. */
  function BitsOf(val: nat, len: nat): (bits: seq<bool>)
    ensures |bits| == len
  {
    if len == 0 then [] else BitsOf(val / 2, len - 1) + [val % 2 == 1]
  }

  /** The number that a big-endian bit field denotes. */
  function Value(bits: seq<bool>): nat
  {
    if |bits| == 0 then 0
    else 2 * Value(bits[..|bits| - 1]) + if bits[|bits| - 1] then 1 else 0
  }

  lemma {:induction false} ValueOfBits(val: nat, len: nat)
    requires val < Pow2(len)
    ensures Value(BitsOf(val, len)) == val
  {
    if len > 0 {
      ValueOfBits(val / 2, len - 1);
      assert BitsOf(val, len)[..len - 1] == BitsOf(val / 2, len - 1);
    }
  }

  lemma {:induction false} BitsOfValue(bits: seq<bool>)
    ensures Value(bits) < Pow2(|bits|)
    ensures BitsOf(Value(bits), |bits|) == bits
  {
    if |bits| > 0 {
      BitsOfValue(bits[..|bits| - 1]);
    }
  }

  lemma {:induction false} BitAt(val: nat, len: nat, i: nat)
    requires i < len
    ensures BitsOf(val, len)[i] == GetBit(val, len - 1 - i)
  {
    if i < len - 1 {
      BitAt(val / 2, len - 1, i);
    }
  }

  /** JavaScript's conversion of an integer to an unsigned 32-bit one. */
  function ToUint32(val: int): (u: nat)
    ensures 0 <= val < 0x1_0000_0000 ==> u == val
  {
    val % 0x1_0000_0000
  }

  class BitBuffer {
    var bits: seq<bool>

    constructor ()
      ensures bits == []
    {
      bits := [];
    }

    method Push(bit: bool)
      modifies this
      ensures bits == old(bits) + [bit]
    {
      bits := bits + [bit];
    }

    /** Appends a field; refuses a length outside 0..31 and a value that does not fit. */
    method AppendBits(val: int, len: int) returns (r: Result<()>)
      modifies this
      ensures r.Ok? <==> 0 <= len <= 31 && ToUint32(val) < Pow2(len)
      ensures r.Ok? ==> bits == old(bits) + BitsOf(ToUint32(val), len)
      ensures r.Err? ==> bits == old(bits)
    {
      if len < 0 || len > 31 || Shr(ToUint32(val), len) != 0 {
        if 0 <= len { ShrSmall(ToUint32(val), len); }
        return Err("Value out of range");
      }
      ShrSmall(ToUint32(val), len);
      for i := len downto 0
        invariant bits == old(bits) + BitsOf(Shr(ToUint32(val), i), len - i)
      {
        ShrStep(ToUint32(val), i);
        Push(GetBit(ToUint32(val), i));
      }
      r := Ok(());
    }
  }

  // ----- Packing bits into bytes -----

  lemma {:induction false} OrAbove(y: nat, k: nat)
    ensures Or(y * (2 * Pow2(k)), Pow2(k)) == y * (2 * Pow2(k)) + Pow2(k)
  {
    hide Or;
    if k == 0 {
      OrOne(y);
    } else {
      var p := Pow2(k - 1);
      OrAbove(y, k - 1);
      OrStep(y * (2 * p), p);
      assert y * (2 * (2 * p)) == 2 * (y * (2 * p));
    }
  }

  lemma OrStep(a: nat, b: nat)
    ensures Or(2 * a, 2 * b) == 2 * Or(a, b)
  {
    assert 2 * a / 2 == a && 2 * b / 2 == b;
  }

  lemma OrOne(y: nat)
    ensures Or(2 * y, 1) == 2 * y + 1
  {
  }

  /** The bits of a byte string, most significant first. */
  function BytesToBits(data: seq<Byte>): (bits: seq<bool>)
    ensures |bits| == 8 * |data|
  {
    if |data| == 0 then [] else BytesToBits(data[..|data| - 1]) + BitsOf(data[|data| - 1], 8)
  }

  /** The k-th bit of the string is the bit that `getBit(data[k >>> 3], 7 - (k & 7))` reads. */
  lemma {:induction false} BytesToBitsAt(data: seq<Byte>, k: nat)
    requires k < 8 * |data|
    ensures BytesToBits(data)[k] == GetBit(data[k / 8], 7 - k % 8)
  {
    var n := |data| - 1;
    if k < 8 * n {
      BytesToBitsAt(data[..n], k);
    } else {
      BitAt(data[n], 8, k - 8 * n);
      assert k / 8 == n;
    }
  }

  /** Setting the next lower bit of a partly filled byte. */
  lemma PackBit(part: seq<bool>, b: bool)
    requires |part| < 8
    ensures Or(Value(part) * Pow2(8 - |part|), (if b then 1 else 0) * Pow2(7 - |part|))
         == Value(part + [b]) * Pow2(7 - |part|) < 256
  {
    hide Or, Value, Pow2;
    var k := 7 - |part|;
    PackBound(part + [b]);
    ValueAppend(part, b);
    Pow2Twice(k);
    RegroupTwo(Value(part), Pow2(k));
    OrAbove(Value(part), k);
    OrZero(Value(part) * (2 * Pow2(k)));
  }

  lemma ValueAppend(part: seq<bool>, b: bool)
    ensures Value(part + [b]) == 2 * Value(part) + if b then 1 else 0
  {
    assert (part + [b])[..|part|] == part;
  }

  lemma Pow2Twice(k: nat)
    ensures Pow2(k + 1) == 2 * Pow2(k)
  {
  }

  lemma RegroupTwo(y: nat, p: nat)
    ensures (2 * y + 1) * p == y * (2 * p) + p && (2 * y) * p == y * (2 * p)
  {
  }

  lemma PackBound(part: seq<bool>)
    requires |part| <= 8
    ensures Value(part) * Pow2(8 - |part|) < 256
  {
    hide Value;
    BitsOfValue(part);
    Pow2Add(|part|, 8 - |part|);
    Pow2Eight();
    ProductBelow(Value(part), Pow2(|part|), Pow2(8 - |part|));
  }

  lemma ProductBelow(v: nat, limit: nat, p: nat)
    requires v < limit && p > 0
    ensures v * p < limit * p
  {
  }

  lemma OrZero(a: nat)
    ensures Or(a, 0) == a
  {
  }

  /** The state of the packing loop when the first 8j + m bits are done. */
  ghost predicate Packed(bits: seq<bool>, j: nat, m: nat, data: seq<Byte>)
  {
    && 8 * |data| == |bits| && 8 * j + m <= |bits| && m < 8
    && BytesToBits(data[..j]) == bits[..8 * j]
    && (j < |data| ==> data[j] == Value(bits[8 * j..8 * j + m]) * Pow2(8 - m))
    && forall k :: j < k < |data| ==> data[k] == 0
  }

  lemma PackNext(bits: seq<bool>, j: nat, m: nat, data: seq<Byte>, v: nat)
    requires Packed(bits, j, m, data) && j < |data|
    requires v == Or(data[j], (if bits[8 * j + m] then 1 else 0) * Pow2(7 - m))
    ensures v < 256
    ensures m < 7 ==> Packed(bits, j, m + 1, data[j := v])
    ensures m == 7 ==> Packed(bits, j + 1, 0, data[j := v])
  {
    hide Or, Value, Pow2, BitsOf;
    var i := 8 * j + m;
    var part, next := bits[8 * j..i], data[..j] + [v] + data[j + 1..];
    PackBit(part, bits[i]);
    assert part + [bits[i]] == bits[8 * j..i + 1];
    assert data[j := v][..j] == data[..j];
    if m == 7 {
      PackedByte(bits[8 * j..i + 1], v);
      assert data[j := v][..j + 1][..j] == data[..j];
      assert bits[..8 * (j + 1)] == bits[..8 * j] + bits[8 * j..i + 1];
      EmptyPart(bits[i + 1..i + 1]);
    }
  }

  lemma EmptyPart(part: seq<bool>)
    requires |part| == 0
    ensures Value(part) == 0
  {
  }

  lemma PackedByte(chunk: seq<bool>, byte: nat)
    requires |chunk| == 8 && byte == Value(chunk) * Pow2(0)
    ensures BitsOf(byte, 8) == chunk
  {
    BitsOfValue(chunk);
  }

  /** The packing loop of the source: one or-assignment per bit. */
  method PackBytes(bits: seq<bool>) returns (data: seq<Byte>)
    requires |bits| % 8 == 0
    ensures BytesToBits(data) == bits
  {
    hide Or, Value, Pow2, BytesToBits, Packed;
    data := [];
    while 8 * |data| < |bits|
      invariant forall j :: 0 <= j < |data| ==> data[j] == 0
      invariant 8 * |data| <= |bits|
    {
      data := data + [0];
    }
    PackStart(bits, data);
    for i := 0 to |bits|
      invariant 8 * |data| == |bits| && Packed(bits, i / 8, i % 8, data)
    {
      var bit := if bits[i] then 1 else 0;
      PackNext(bits, i / 8, i % 8, data, Or(data[i / 8], bit * Pow2(7 - i % 8)));
      data := data[i / 8 := Or(data[i / 8], bit * Pow2(7 - i % 8))];
      assert if i % 8 < 7 then (i + 1) / 8 == i / 8 else (i + 1) / 8 == i / 8 + 1;
    }
    PackEnd(bits, data);
  }

  lemma PackStart(bits: seq<bool>, data: seq<Byte>)
    requires 8 * |data| == |bits| && forall k :: 0 <= k < |data| ==> data[k] == 0
    ensures Packed(bits, 0, 0, data)
  {
    hide Pow2;
    if |data| > 0 { EmptyPart(bits[0..0]); }
  }

  lemma PackEnd(bits: seq<bool>, data: seq<Byte>)
    requires Packed(bits, |data|, 0, data)
    ensures BytesToBits(data) == bits
  {
    hide BytesToBits, Value, Pow2;
    assert data[..|data|] == data && bits[..|bits|] == bits;
  }
}

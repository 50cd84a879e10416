/**
 SSH signatures: the cursor reader, the growing writer, and the parser of SSHSIG blobs, with the
 encodings of section 5 of RFC 4251.
 */
module SshSig {
  import opened Bits
  import opened Results

  // ----- Encodings -----

  /** An unsigned 32-bit number, most significant byte first; what does not fit is dropped. */
  function Uint32(v: nat): (b: seq<Byte>)
    ensures |b| == 4
  {
    [v / 0x100_0000 % 256, v / 0x1_0000 % 256, v / 0x100 % 256, v % 256]
  }

  function Uint32Value(b: seq<Byte>): (v: nat)
    requires |b| == 4
    ensures v < 0x1_0000_0000
  {
    var b0: nat, b1: nat, b2: nat, b3: nat := b[0], b[1], b[2], b[3];
    b0 * 0x100_0000 + b1 * 0x1_0000 + b2 * 0x100 + b3
  }

  lemma Uint32Reads(v: nat)
    requires v < 0x1_0000_0000
    ensures Uint32Value(Uint32(v)) == v
    ensures Uint32(0x01020304) == [1, 2, 3, 4]
  {
    assert v == 256 * (v / 256) + v % 256;
    assert v / 256 / 256 == v / 0x1_0000 && v / 0x1_0000 / 256 == v / 0x100_0000;
  }

  /** A string: its length, then its bytes. */
  function Str(b: seq<Byte>): (s: seq<Byte>)
    ensures |s| == 4 + |b|
  {
    Uint32(|b|) + b
  }

  /** One character for each byte. */
  function Text(b: seq<Byte>): (s: string)
    ensures |s| == |b| && forall i :: 0 <= i < |b| ==> s[i] as int == b[i]
  {
    seq(|b|, i requires 0 <= i < |b| => b[i] as char)
  }

  predicate IsLatin(s: string)
  {
    forall i :: 0 <= i < |s| ==> s[i] as int < 256
  }

  /** The bytes that the writer stores for a text: a character code that is no byte loses its high bits. */
  function CharCodes(s: string): (b: seq<Byte>)
    ensures |b| == |s|
  {
    seq<Byte>(|s|, i requires 0 <= i < |s| => s[i] as int % 256)
  }

  lemma TextOfCodes(s: string)
    requires IsLatin(s)
    ensures Text(CharCodes(s)) == s
  {
  }

  // ----- The writer -----

  const RANGE_ERROR := "RangeError"

  class Writer {
    const maxByteLength: nat
    var pos: nat
    var buffer: seq<Byte>

    ghost predicate Valid()
      reads this
    {
      pos == |buffer| <= maxByteLength
    }

    constructor (maxByteLength: nat)
      ensures Valid() && buffer == [] && this.maxByteLength == maxByteLength
    {
      this.maxByteLength := maxByteLength;
      pos, buffer := 0, [];
    }

    /** Grows the buffer with zero bytes; refuses to exceed the maximum. */
    method AddResize(num: nat) returns (r: Result<()>)
      modifies `buffer
      ensures r.Ok? <==> |old(buffer)| + num <= maxByteLength
      ensures r.Ok? ==> |buffer| == |old(buffer)| + num && buffer[..|old(buffer)|] == old(buffer)
      ensures r.Err? ==> buffer == old(buffer) && r.error == RANGE_ERROR
    {
      if |buffer| + num > maxByteLength {
        return Err(RANGE_ERROR);
      }
      buffer := buffer + seq<Byte>(num, _ => 0);
      r := Ok(());
    }

    method WriteUint32(num: nat) returns (r: Result<()>)
      requires Valid()
      modifies this
      ensures Valid() && (r.Ok? <==> |old(buffer)| + 4 <= maxByteLength)
      ensures r.Err? ==> r.error == RANGE_ERROR
      ensures buffer == if r.Ok? then old(buffer) + Uint32(num) else old(buffer)
    {
      ghost var before := buffer;
      var _ :- AddResize(4);
      buffer := buffer[..pos] + Uint32(num) + buffer[pos + 4..];
      pos := pos + 4;
      assert buffer == before + Uint32(num);
      r := Ok(());
    }

    method WriteBytes(bytes: seq<Byte>) returns (r: Result<()>)
      requires Valid()
      modifies this
      ensures Valid() && (r.Ok? <==> |old(buffer)| + |bytes| <= maxByteLength)
      ensures r.Err? ==> r.error == RANGE_ERROR
      ensures buffer == if r.Ok? then old(buffer) + bytes else old(buffer)
    {
      ghost var before := buffer;
      var _ :- AddResize(|bytes|);
      for i := 0 to |bytes|
        invariant pos == |before| + i && |buffer| == |before| + |bytes|
        invariant buffer[..pos] == before + bytes[..i]
      {
        ghost var now := buffer;
        buffer := buffer[pos := bytes[i]];
        pos := pos + 1;
        assert buffer[..pos] == now[..pos - 1] + [bytes[i]];
      }
      assert buffer == buffer[..pos] && bytes[..|bytes|] == bytes;
      r := Ok(());
    }

    method WriteString(bytes: seq<Byte>) returns (r: Result<()>)
      requires Valid()
      modifies this
      ensures Valid() && (r.Ok? <==> |old(buffer)| + 4 + |bytes| <= maxByteLength)
      ensures r.Err? ==> r.error == RANGE_ERROR
      ensures r.Ok? ==> buffer == old(buffer) + Str(bytes)
    {
      ghost var before := buffer;
      var _ :- WriteUint32(|bytes|);
      r := WriteBytes(bytes);
      assert before + Uint32(|bytes|) + bytes == before + (Uint32(|bytes|) + bytes);
    }

    method WriteByte(byte: Byte) returns (r: Result<()>)
      requires Valid()
      modifies this
      ensures Valid() && (r.Ok? <==> |old(buffer)| + 1 <= maxByteLength)
      ensures r.Err? ==> r.error == RANGE_ERROR
      ensures buffer == if r.Ok? then old(buffer) + [byte] else old(buffer)
    {
      ghost var before := buffer;
      var _ :- AddResize(1);
      buffer := buffer[pos := byte];
      pos := pos + 1;
      assert buffer == before + [byte];
      r := Ok(());
    }
  }

  // ----- The reader -----

  /** A window on a buffer. */
  datatype View = View(buffer: seq<Byte>, off: nat, len: nat)
  {
    predicate Valid()
    {
      off + len <= |buffer|
    }

    function Content(): seq<Byte>
      requires Valid()
    {
      buffer[off..off + len]
    }

    /** The same window with nothing around it. */
    function Alone(): (v: View)
      requires Valid()
      ensures v.Valid() && v.Content() == Content()
    {
      View(Content(), 0, len)
    }

    /** A number is read within the window. */
    function Uint32At(pos: nat): Result<nat>
      requires Valid()
    {
      if pos + 4 > len then Err(RANGE_ERROR) else Ok(Uint32Value(buffer[off + pos..off + pos + 4]))
    }

    /** A new window is placed on the whole buffer, whatever this one covers. */
    function Window(pos: nat, num: nat): (r: Result<View>)
      requires Valid()
      ensures r.Ok? ==> r.value.Valid() && r.value.len == num
    {
      if off + pos + num > |buffer| then Err(RANGE_ERROR) else Ok(View(buffer, off + pos, num))
    }

    function StringAt(pos: nat): (r: Result<View>)
      requires Valid()
      ensures r.Ok? ==> r.value.Valid()
    {
      var n :- Uint32At(pos);
      Window(pos + 4, n)
    }

    /** What bytes() returns when the cursor is at pos. */
    function BytesFrom(pos: nat): seq<Byte>
      requires Valid()
    {
      if pos > len then [] else buffer[off + pos..off + len]
    }
  }

  class Reader {
    const view: View
    var pos: nat

    constructor (view: View)
      ensures this.view == view && pos == 0
    {
      this.view := view;
      pos := 0;
    }

    method PeekUint32() returns (r: Result<nat>)
      requires view.Valid()
      ensures r == view.Uint32At(pos)
    {
      if pos + 4 > view.len {
        return Err(RANGE_ERROR);
      }
      r := Ok(Uint32Value(view.buffer[view.off + pos..view.off + pos + 4]));
    }

    method ReadUint32() returns (r: Result<nat>)
      requires view.Valid()
      modifies this
      ensures r == view.Uint32At(old(pos)) && (r.Ok? ==> pos == old(pos) + 4)
    {
      var v :- PeekUint32();
      pos := pos + 4;
      r := Ok(v);
    }

    method PeekBytes(at: nat, num: nat) returns (r: Result<Reader>)
      requires view.Valid()
      ensures r.Ok? <==> view.Window(at, num).Ok?
      ensures r.Ok? ==> fresh(r.value) && r.value.pos == 0 && view.Window(at, num) == Ok(r.value.view)
      ensures r.Err? ==> view.Window(at, num) == Err(r.error)
    {
      if view.off + at + num > |view.buffer| {
        return Err(RANGE_ERROR);
      }
      var reader := new Reader(View(view.buffer, view.off + at, num));
      r := Ok(reader);
    }

    method ReadBytes(num: nat) returns (r: Result<Reader>)
      requires view.Valid()
      modifies this
      ensures r.Ok? <==> view.Window(old(pos), num).Ok?
      ensures r.Ok? ==> fresh(r.value) && r.value.pos == 0 && view.Window(old(pos), num) == Ok(r.value.view)
      ensures r.Ok? ==> pos == old(pos) + num
      ensures r.Err? ==> view.Window(old(pos), num) == Err(r.error)
    {
      var reader :- PeekBytes(pos, num);
      pos := pos + num;
      r := Ok(reader);
    }

    method ReadString() returns (r: Result<Reader>)
      requires view.Valid()
      modifies this
      ensures r.Ok? <==> view.StringAt(old(pos)).Ok?
      ensures r.Ok? ==> fresh(r.value) && r.value.pos == 0 && view.StringAt(old(pos)) == Ok(r.value.view)
      ensures r.Ok? ==> pos == old(pos) + 4 + r.value.view.len
      ensures r.Err? ==> view.StringAt(old(pos)) == Err(r.error)
    {
      var len :- ReadUint32();
      r := ReadBytes(len);
    }

    method PeekString() returns (r: Result<Reader>)
      requires view.Valid()
      ensures r.Ok? <==> view.StringAt(pos).Ok?
      ensures r.Ok? ==> fresh(r.value) && r.value.pos == 0 && view.StringAt(pos) == Ok(r.value.view)
      ensures r.Err? ==> view.StringAt(pos) == Err(r.error)
    {
      var len :- PeekUint32();
      r := PeekBytes(pos + 4, len);
    }

    method ToText() returns (s: string)
      requires view.Valid()
      ensures s == Text(view.Content())
    {
      s := "";
      for i := 0 to view.len
        invariant s == Text(view.buffer[view.off..view.off + i])
      {
        s := s + [view.buffer[view.off + i] as char];
      }
    }

    method Bytes() returns (b: seq<Byte>)
      requires view.Valid()
      ensures b == view.BytesFrom(pos)
    {
      b := if pos > view.len then [] else view.buffer[view.off + pos..view.off + view.len];
    }
  }

  /** A window of four bytes from which a string of two bytes is read. */
  lemma WindowEscaped()
    ensures var v := View([0, 0, 0, 2, 7, 8], 0, 4);
            v.Valid() && v.StringAt(0) == Ok(View(v.buffer, 4, 2)) && 4 + 2 > v.off + v.len
  {
    var v := View([0, 0, 0, 2, 7, 8], 0, 4);
    assert v.buffer[0..4] == [0, 0, 0, 2];
  }
}

/**
 The sliding window of inflate and the copying of matches, over any number of calls with output
 buffers of any size.
 */
module InflateWindow {
  import opened Bits
  import opened Results

  // ----- What matches mean -----

  /** Section 3.2.3 of RFC 1951: a match repeats bytes from a distance back, its own output included. */
  function Repeat(out: seq<Byte>, dist: nat, n: nat): (r: seq<Byte>)
    ensures |r| == |out| + n
  {
    if n == 0 then out
    else
      var r := Repeat(out, dist, n - 1);
      r + [if 1 <= dist <= |r| then r[|r| - dist] else 0]
  }

  /** The same, said of the finished output. */
  ghost predicate Repeats(out: seq<Byte>, r: seq<Byte>, dist: nat, n: nat)
  {
    && |r| == |out| + n && r[..|out|] == out && 1 <= dist <= |out|
    && forall p :: |out| <= p < |r| ==> r[p] == r[p - dist]
  }

  lemma {:induction false} RepeatsIsRepeat(out: seq<Byte>, r: seq<Byte>, dist: nat, n: nat)
    requires Repeats(out, r, dist, n)
    ensures r == Repeat(out, dist, n)
  {
    if n > 0 {
      var m := |r| - 1;
      assert r[..m][..|out|] == out;
      RepeatsIsRepeat(out, r[..m], dist, n - 1);
      assert r == r[..m] + [r[m]];
    } else {
      assert r == out;
    }
  }

  lemma {:induction false} RepeatIsRepeats(out: seq<Byte>, dist: nat, n: nat)
    requires 1 <= dist <= |out|
    ensures Repeats(out, Repeat(out, dist, n), dist, n)
  {
    if n > 0 { RepeatIsRepeats(out, dist, n - 1); }
  }

  lemma NothingRepeated(out: seq<Byte>, dist: nat)
    ensures Repeat(out, dist, 0) == out
  {
  }

  lemma {:induction false} RepeatSum(out: seq<Byte>, dist: nat, m: nat, n: nat)
    ensures Repeat(Repeat(out, dist, m), dist, n) == Repeat(out, dist, m + n)
  {
    if n > 0 { RepeatSum(out, dist, m, n - 1); }
  }

  // ----- The ring buffer -----

  /** The place of the byte that was output k bytes ago. */
  function Slot(wnext: nat, wsize: nat, k: nat): int
  {
    if k <= wnext then wnext - k else wnext + wsize - k
  }

  /** The n bytes from `back` ago on lie next to each other from place d on. */
  ghost predicate InOneStretch(wsize: nat, wnext: nat, back: nat, d: nat, n: nat)
  {
    n <= back && forall m :: back - n < m <= back ==> Slot(wnext, wsize, m) == d + back - m
  }

  /** Up to the end of the ring, or up to the present place, earlier bytes lie next to each other. */
  lemma Stretch(wsize: nat, wnext: nat, back: nat, n: nat)
    requires wnext < wsize && 1 <= back <= wsize && n <= (if back > wnext then back - wnext else back)
    ensures var d := if back > wnext then wsize - (back - wnext) else wnext - back;
            d >= 0 && d + n <= wsize && InOneStretch(wsize, wnext, back, d, n)
  {
  }

  /** The window holds the last bytes of the history, as many as it has room for. */
  ghost predicate Holds(window: seq<Byte>, wsize: nat, whave: nat, wnext: nat, hist: seq<Byte>)
  {
    && |window| == wsize && wnext < wsize && whave <= wsize && whave <= |hist|
    && (whave < wsize ==> wnext == whave == |hist|)
    && forall k :: 1 <= k <= whave ==> window[Slot(wnext, wsize, k)] == hist[|hist| - k]
  }

  /** Writing a whole window's worth. */
  lemma HoldsAll(window: seq<Byte>, hist: seq<Byte>, wsize: nat)
    requires |window| == wsize >= 1 && |hist| >= wsize && window == hist[|hist| - wsize..]
    ensures Holds(window, wsize, wsize, 0, hist)
  {
  }

  /** Writing a shorter chunk without reaching the end of the ring, or just reaching it. */
  lemma HoldsMore(window: seq<Byte>, wsize: nat, whave: nat, wnext: nat, hist: seq<Byte>, chunk: seq<Byte>,
      window': seq<Byte>)
    requires Holds(window, wsize, whave, wnext, hist) && wnext + |chunk| <= wsize && |chunk| < wsize
    requires |window'| == wsize
    requires forall i :: 0 <= i < wsize ==>
      window'[i] == if wnext <= i < wnext + |chunk| then chunk[i - wnext] else window[i]
    ensures Holds(window', wsize, if whave < wsize then whave + |chunk| else whave,
      if wnext + |chunk| == wsize then 0 else wnext + |chunk|, hist + chunk)
  {
    var n, hist' := |chunk|, hist + chunk;
    var whave' := if whave < wsize then whave + n else whave;
    var wnext' := if wnext + n == wsize then 0 else wnext + n;
    forall k | 1 <= k <= whave' ensures window'[Slot(wnext', wsize, k)] == hist'[|hist'| - k] {
      if k > n {
        assert window[Slot(wnext, wsize, k - n)] == hist[|hist| - (k - n)];
      }
    }
  }

  /** Writing a chunk around the end of the ring. */
  lemma HoldsAround(window: seq<Byte>, wsize: nat, whave: nat, wnext: nat, hist: seq<Byte>, chunk: seq<Byte>,
      window': seq<Byte>)
    requires Holds(window, wsize, whave, wnext, hist) && wnext + |chunk| > wsize && |chunk| < wsize
    requires |window'| == wsize
    requires forall i :: 0 <= i < wsize ==>
      window'[i] == if wnext <= i then chunk[i - wnext]
        else if i < wnext + |chunk| - wsize then chunk[i + wsize - wnext] else window[i]
    ensures Holds(window', wsize, wsize, wnext + |chunk| - wsize, hist + chunk)
  {
    var n, hist' := |chunk|, hist + chunk;
    var wnext' := wnext + n - wsize;
    forall k | 1 <= k <= wsize ensures window'[Slot(wnext', wsize, k)] == hist'[|hist'| - k] {
      if k > n {
        assert window[Slot(wnext, wsize, k - n)] == hist[|hist| - (k - n)];
      }
    }
  }

  /** The source's arraySet on separate arrays. */
  method ArraySet(dest: array<Byte>, src: array<Byte>, srcOffs: nat, len: nat, destOffs: nat)
    requires dest != src && srcOffs + len <= src.Length && destOffs + len <= dest.Length
    modifies dest
    ensures forall i :: 0 <= i < dest.Length ==>
      dest[i] == if destOffs <= i < destOffs + len then src[srcOffs + i - destOffs] else old(dest[i])
  {
    for k := 0 to len
      invariant forall i :: 0 <= i < dest.Length ==>
        dest[i] == if destOffs <= i < destOffs + k then src[srcOffs + i - destOffs] else old(dest[i])
    {
      dest[destOffs + k] := src[srcOffs + k];
    }
  }

  /** The copying loop: forward, one byte at a time, so that a copy may feed on itself. */
  method CopyBytes(dest: array<Byte>, i: nat, src: array<Byte>, d: nat, n: nat)
    requires i + n <= dest.Length && d + n <= src.Length && (src == dest ==> d < i)
    modifies dest
    ensures forall q :: i <= q < i + n ==> dest[q] == src[q - i + d]
    ensures forall k :: 0 <= k < dest.Length && !(i <= k < i + n) ==> dest[k] == old(dest[k])
  {
    for k := 0 to n
      invariant forall q :: i <= q < i + k ==> dest[q] == src[q - i + d]
      invariant forall m :: 0 <= m < dest.Length && !(i <= m < i + k) ==> dest[m] == old(dest[m])
    {
      dest[i + k] := src[d + k];
    }
  }

  /** The last copying loop of the fast path: three bytes a round, then what is left. */
  method CopyByThrees(dest: array<Byte>, i: nat, src: array<Byte>, d: nat, n: nat)
    requires i + n <= dest.Length && d + n <= src.Length && (src == dest ==> d < i)
    modifies dest
    ensures forall q :: i <= q < i + n ==> dest[q] == src[q - i + d]
    ensures forall k :: 0 <= k < dest.Length && !(i <= k < i + n) ==> dest[k] == old(dest[k])
  {
    var k, rest: int := 0, n;
    while 2 < rest
      invariant 0 <= k && 0 <= rest && k + rest == n
      invariant forall q :: i <= q < i + k ==> dest[q] == src[q - i + d]
      invariant forall m :: 0 <= m < dest.Length && !(i <= m < i + k) ==> dest[m] == old(dest[m])
    {
      dest[i + k] := src[d + k];
      dest[i + k + 1] := src[d + k + 1];
      dest[i + k + 2] := src[d + k + 2];
      k, rest := k + 3, rest - 3;
    }
    if rest != 0 {
      dest[i + k] := src[d + k];
      if 1 < rest {
        dest[i + k + 1] := src[d + k + 1];
      }
    }
  }

  /** The part of inflate's state that concerns its output. */
  datatype Mode = LEN | MATCH | LIT | BAD

  datatype Token = Literal(byte: Byte) | Match(length: nat, dist: nat)

  /** What is at hand of the input when a token is due: nothing of use, the token, or enough for the fast loop. */
  datatype Input = Nothing | Whole | Plenty

  /** What a stream of literals and matches stands for. */
  function Expand(tokens: seq<Token>): seq<Byte>
  {
    if |tokens| == 0 then []
    else
      var out := Expand(tokens[..|tokens| - 1]);
      match tokens[|tokens| - 1]
      case Literal(b) => out + [b]
      case Match(length, dist) => Repeat(out, dist, length)
  }

  lemma ExpandNext(tokens: seq<Token>, n: nat)
    requires n < |tokens|
    ensures Expand(tokens[..n + 1])
         == match tokens[n]
            case Literal(b) => Expand(tokens[..n]) + [b]
            case Match(length, dist) => Repeat(Expand(tokens[..n]), dist, length)
  {
    assert tokens[..n + 1][..n] == tokens[..n];
  }

  /** Lengths and distances as the code tables give them. */
  predicate AreTokens(tokens: seq<Token>)
  {
    forall k :: 0 <= k < |tokens| && tokens[k].Match? ==> tokens[k].length >= 1 && tokens[k].dist >= 1
  }

  /** No match reaches back before the start of the output or further than the limit. */
  predicate InReach(tokens: seq<Token>, limit: nat)
  {
    forall k :: 0 <= k < |tokens| && tokens[k].Match? ==>
      tokens[k].dist <= limit && tokens[k].dist <= |Expand(tokens[..k])|
  }

  /** The distance of match k goes back before the output, further than the window, or further than is allowed. */
  ghost predicate Unreachable(tokens: seq<Token>, k: nat, wbits: nat, dmax: nat)
    requires k < |tokens| && tokens[k].Match?
  {
    tokens[k].dist > dmax || tokens[k].dist > |Expand(tokens[..k])| || tokens[k].dist > Pow2(wbits)
  }

  /** How the output so far relates to the tokens taken so far. */
  ghost predicate Agrees(tokens: seq<Token>, next: nat, mode: Mode, length: nat, offset: nat, total: seq<Byte>)
  {
    && next <= |tokens|
    && (mode == LEN ==> total == Expand(tokens[..next]))
    && (mode != LEN ==> next >= 1)
    && (mode == LIT ==> length < 256 && total + [length as Byte] == Expand(tokens[..next]))
    && (mode == MATCH || mode == BAD ==> tokens[next - 1].Match? && offset == tokens[next - 1].dist >= 1)
    && (mode == MATCH ==>
      && 1 <= length <= tokens[next - 1].length
      && total == Repeat(Expand(tokens[..next - 1]), offset, tokens[next - 1].length - length))
    && (mode == BAD ==>
      var before := Expand(tokens[..next - 1]);
      |before| <= |total| && total == Repeat(before, offset, |total| - |before|))
  }

  /** The distance of match k stays within the output before it and within the allowed range. */
  ghost predicate WithinOutput(tokens: seq<Token>, k: nat, dmax: nat)
    requires k < |tokens|
  {
    tokens[k].Match? ==> tokens[k].dist <= |Expand(tokens[..k])| && tokens[k].dist <= dmax
  }

  /** Token k has been taken, and if it is a match some of it has been copied. */
  predicate Begun(tokens: seq<Token>, k: nat, next: nat, mode: Mode, length: nat)
    requires k < |tokens|
  {
    k + 1 < next
    || (k + 1 == next
        && (mode == LEN || mode == LIT || (mode == MATCH && tokens[k].Match? && length < tokens[k].length)))
  }

  /** Nothing has ever been copied from outside the output. */
  ghost predicate Sound(tokens: seq<Token>, next: nat, mode: Mode, length: nat, dmax: nat)
  {
    && next <= |tokens|
    && (mode == MATCH ==> next >= 1 && tokens[next - 1].Match? && tokens[next - 1].dist <= dmax)
    && forall k: nat :: k < |tokens| && Begun(tokens, k, next, mode, length) ==> WithinOutput(tokens, k, dmax)
  }

  ghost predicate AllWithin(tokens: seq<Token>, dmax: nat)
  {
    forall k :: 0 <= k < |tokens| ==> WithinOutput(tokens, k, dmax)
  }

  lemma SoundTake(tokens: seq<Token>, next: nat, length: nat, taken: nat, dmax: nat)
    requires Sound(tokens, next, LEN, length, dmax) && next < |tokens|
    ensures tokens[next].Literal? ==> Sound(tokens, next + 1, LIT, taken, dmax)
    ensures tokens[next].Match? ==> Sound(tokens, next + 1, BAD, taken, dmax)
    ensures tokens[next].Match? && tokens[next].dist <= dmax && taken == tokens[next].length ==>
      Sound(tokens, next + 1, MATCH, taken, dmax)
  {
    hide Expand;
  }

  lemma SoundLiteral(tokens: seq<Token>, next: nat, length: nat, dmax: nat)
    requires Sound(tokens, next, LIT, length, dmax)
    ensures Sound(tokens, next, LEN, length, dmax)
  {
    hide WithinOutput;
  }

  lemma SoundCopy(tokens: seq<Token>, next: nat, length: nat, dmax: nat)
    requires Sound(tokens, next, MATCH, length, dmax) && tokens[next - 1].dist <= |Expand(tokens[..next - 1])|
    ensures forall l: nat :: Sound(tokens, next, LEN, l, dmax) && Sound(tokens, next, MATCH, l, dmax)
  {
    hide Expand;
  }

  lemma SoundRefusal(tokens: seq<Token>, next: nat, length: nat, dmax: nat)
    requires Sound(tokens, next, MATCH, length, dmax)
    ensures forall l: nat :: Sound(tokens, next, BAD, l, dmax)
  {
    hide WithinOutput;
  }

  /** A match that has been copied in part is within the output. */
  lemma SoundBegun(tokens: seq<Token>, next: nat, length: nat, dmax: nat)
    requires Sound(tokens, next, MATCH, length, dmax) && length < tokens[next - 1].length
    ensures tokens[next - 1].dist <= |Expand(tokens[..next - 1])|
  {
    hide Expand;
    assert Begun(tokens, next - 1, next, MATCH, length);
  }

  class InflateState {
    const wbits: nat
    const dmax: nat
    var window: array<Byte>
    var wsize: nat
    var whave: nat
    var wnext: nat
    var mode: Mode
    var length: nat
    var offset: nat
    var next: nat
    ghost var hist: seq<Byte>

    /** The header, if there is one, names a window size that is no larger than the one in use. */
    constructor (wbits: nat, header: Option<nat>)
      requires 8 <= wbits <= 15 && (header.Some? ==> 8 <= header.value <= wbits)
      ensures this.wbits == wbits && WindowOk() && hist == [] && mode == LEN && next == 0
      ensures dmax == if header.None? then 32768 else Pow2(header.value)
      ensures length == 0 && offset == 0 && fresh(window)
    {
      this.wbits := wbits;
      match header {
        case None => dmax := 32768;
        case Some(bits) => dmax := Pow2(bits);
      }
      window := new Byte[0];
      wsize, whave, wnext := 0, 0, 0;
      mode := LEN;
      length, offset, next := 0, 0, 0;
      hist := [];
    }

    /** Before the first output there is no window; the source's null is a window of size 0 here. */
    ghost predicate WindowOk()
      reads `window, `wsize, `whave, `wnext, `hist, window
    {
      && 8 <= wbits <= 15 && window.Length == wsize
      && if wsize == 0 then hist == [] && whave == 0 && wnext == 0
         else wsize == Pow2(wbits) && Holds(window[..], wsize, whave, wnext, hist)
    }

    /** The first call of the window update makes the window. */
    method MakeWindow()
      requires WindowOk()
      modifies `window, `wsize, `whave, `wnext
      ensures WindowOk() && wsize == Pow2(wbits)
      ensures window == old(window) || fresh(window)
    {
      if wsize == 0 {
        wsize := Pow2(wbits);
        wnext, whave := 0, 0;
        window := new Byte[wsize](_ => 0);
      }
    }

    /** A chunk smaller than the window goes into the ring, around its end if need be. */
    method UpdateRing(output: array<Byte>, end: nat, chunkLen: nat)
      requires WindowOk() && output != window && chunkLen <= end <= output.Length && chunkLen < wsize
      modifies `whave, `wnext, `hist, window
      ensures WindowOk() && hist == old(hist) + output[end - chunkLen..end]
    {
      hide Holds;
      ghost var chunk, was := output[end - chunkLen..end], window[..];
      RingBounds(was, wsize, whave, wnext, hist);
      var copy := chunkLen;
      var dist := wsize - wnext;
      if copy < dist {
        dist := copy;
      }
      ArraySet(window, output, end - copy, dist, wnext);
      copy := copy - dist;
      if copy != 0 {
        ArraySet(window, output, end - copy, copy, 0);
        HoldsAround(was, wsize, whave, wnext, hist, chunk, window[..]);
        wnext := copy;
        whave := wsize;
      } else {
        HoldsMore(was, wsize, whave, wnext, hist, chunk, window[..]);
        wnext := wnext + dist;
        if wnext == wsize {
          wnext := 0;
        }
        if whave < wsize {
          whave := whave + dist;
        }
      }
      hist := hist + chunk;
    }

    /** Copies the last `copy` bytes before `end` into the window. */
    method UpdateWindow(output: array<Byte>, end: nat, copy: nat)
      requires WindowOk() && output != window && copy <= end <= output.Length
      modifies `window, `wsize, `whave, `wnext, `hist, window
      ensures WindowOk() && hist == old(hist) + output[end - copy..end] && wsize > 0
      ensures window == old(window) || fresh(window)
    {
      hide Holds, Pow2;
      MakeWindow();
      if wsize <= copy {
        ghost var before := hist;
        ArraySet(window, output, end - wsize, wsize, 0);
        wnext := 0;
        whave := wsize;
        hist := hist + output[end - copy..end];
        assert window[..] == output[end - wsize..end];
        assert hist[|hist| - wsize..] == output[end - wsize..end];
        HoldsAll(window[..], hist, wsize);
      } else {
        UpdateRing(output, end, copy);
      }
    }

    /** Everything output so far: by earlier calls, and by this one from `begin` on. */
    ghost function Total(output: array<Byte>, begin: nat, i: nat): seq<Byte>
      requires begin <= i <= output.Length
      reads `hist, output
    {
      hist + output[begin..i]
    }

    /** Copies n bytes from place d of the window. */
    method FromWindow(output: array<Byte>, begin: nat, i: nat, d: nat, n: nat, byThrees: bool)
      requires WindowOk() && output != window && begin <= i && i + n <= output.Length && wsize > 0
      requires i - begin < offset <= i - begin + whave && n <= offset - (i - begin)
      requires d + n <= wsize && InOneStretch(wsize, wnext, offset - (i - begin), d, n)
      modifies output
      ensures Total(output, begin, i + n) == Repeat(old(Total(output, begin, i)), offset, n)
      ensures output[..i] == old(output[..i])
    {
      hide Holds, InOneStretch, Repeat;
      ghost var before := output[..];
      if byThrees {
        CopyByThrees(output, i, window, d, n);
      } else {
        CopyBytes(output, i, window, d, n);
      }
      CopiedFromWindow(window[..], wsize, whave, wnext, hist, before, output[..], begin, i, offset, d, n);
      assert output[..][begin..i + n] == output[begin..i + n] && before[begin..i] == old(output[begin..i]);
    }

    /** Copies n bytes from the output of this call. */
    method FromOutput(output: array<Byte>, begin: nat, i: nat, n: nat, byThrees: bool)
      requires begin <= i && i + n <= output.Length && 1 <= offset <= i - begin
      modifies output
      ensures Total(output, begin, i + n) == Repeat(old(Total(output, begin, i)), offset, n)
      ensures output[..i] == old(output[..i])
    {
      hide Repeat;
      ghost var before := output[..];
      if byThrees {
        CopyByThrees(output, i, output, i - offset, n);
      } else {
        CopyBytes(output, i, output, i - offset, n);
      }
      CopiedFromOutput(hist, before, output[..], begin, i, offset, n);
      assert output[..][begin..i + n] == output[begin..i + n] && before[begin..i] == old(output[begin..i]);
    }

    /** The match state of inflate: copies what it can and stays in the state if anything is left. */
    method MatchStep(output: array<Byte>, begin: nat, i: nat) returns (j: nat)
      requires WindowOk() && output != window && mode == MATCH && length >= 1 && offset >= 1
      requires begin <= i < output.Length
      modifies `mode, `length, output
      ensures offset > i - begin + whave ==> mode == BAD && j == i && output[..] == old(output[..])
      ensures offset <= i - begin + whave ==>
        && i < j <= output.Length && j - i <= old(length) && length == old(length) - (j - i)
        && Total(output, begin, j) == Repeat(old(Total(output, begin, i)), offset, j - i)
        && mode == if length == 0 then LEN else MATCH
      ensures output[..i] == old(output[..i])
    {
      hide WindowOk, Repeat;
      var left := output.Length - i;
      var f := length;
      if offset > i - begin {
        if offset - (i - begin) > whave {
          mode := BAD;
          return i;
        }
        f := MatchFromWindow(output, begin, i);
      } else {
        if left < f {
          f := left;
        }
        FromOutput(output, begin, i, f, false);
      }
      length := length - f;
      j := i + f;
      if length == 0 {
        mode := LEN;
      }
    }

    /** As many bytes as lie together in the window, are wanted, and fit. */
    method MatchFromWindow(output: array<Byte>, begin: nat, i: nat) returns (f: nat)
      requires WindowOk() && output != window && length >= 1 && begin <= i < output.Length
      requires i - begin < offset <= i - begin + whave
      modifies output
      ensures 1 <= f <= length && i + f <= output.Length
      ensures Total(output, begin, i + f) == Repeat(old(Total(output, begin, i)), offset, f)
      ensures output[..i] == old(output[..i])
    {
      hide Holds, Repeat, InOneStretch, Slot;
      WindowBounds();
      f := offset - (i - begin);
      var d;
      if f > wnext {
        f := f - wnext;
        d := wsize - f;
      } else {
        d := wnext - f;
      }
      if f > length {
        f := length;
      }
      if output.Length - i < f {
        f := output.Length - i;
      }
      Stretch(wsize, wnext, offset - (i - begin), f);
      FromWindow(output, begin, i, d, f, false);
    }

    /** A whole match in the fast path: up to two pieces from the window, the rest from the output. */
    method FastMatch(output: array<Byte>, begin: nat, i: nat) returns (j: nat)
      requires WindowOk() && output != window && length >= 1 && offset >= 1
      requires begin <= i && i + length <= output.Length
      modifies `mode, output
      ensures offset > i - begin + whave ==> mode == BAD && j == i && output[..] == old(output[..])
      ensures offset <= i - begin + whave ==>
        && j == i + length && mode == old(mode)
        && Total(output, begin, j) == Repeat(old(Total(output, begin, i)), offset, length)
      ensures output[..i] == old(output[..i])
    {
      hide Holds, Repeat, InOneStretch, Slot;
      j := i;
      var n := length;
      ghost var out := Total(output, begin, i);
      NothingRepeated(out, offset);
      if offset > i - begin {
        var op := offset - (i - begin);
        if op > whave {
          mode := BAD;
          return;
        }
        WindowBounds();
        if wnext < op {
          j, n := FastFromEnd(output, begin, i);
        } else {
          j, n := FastFromPresent(output, begin, i);
        }
      }
      if n > 0 {
        RepeatSum(out, offset, length - n, n);
        FromOutput(output, begin, j, n, true);
        j := j + n;
      }
    }

    /** The wanted bytes lie before the present place of the ring. */
    method FastFromPresent(output: array<Byte>, begin: nat, i: nat) returns (j: nat, rest: nat)
      requires WindowOk() && output != window && length >= 1 && begin <= i && i + length <= output.Length
      requires i - begin < offset <= i - begin + whave && offset - (i - begin) <= wnext
      modifies output
      ensures rest < length && j == i + (length - rest) && (rest > 0 ==> offset == j - begin)
      ensures Total(output, begin, j) == Repeat(old(Total(output, begin, i)), offset, length - rest)
      ensures output[..i] == old(output[..i])
    {
      hide Holds, Repeat, InOneStretch, Slot;
      WindowBounds();
      var op := offset - (i - begin);
      var piece := if op < length then op else length;
      Stretch(wsize, wnext, op, piece);
      FromWindow(output, begin, i, wnext - op, piece, piece == length);
      j, rest := i + piece, length - piece;
    }

    /** The wanted bytes start before the end of the ring, and go on at its start if anything is there. */
    method FastFromEnd(output: array<Byte>, begin: nat, i: nat) returns (j: nat, rest: nat)
      requires WindowOk() && output != window && length >= 1 && begin <= i && i + length <= output.Length
      requires i - begin < offset <= i - begin + whave && wnext < offset - (i - begin)
      modifies output
      ensures rest < length && j == i + (length - rest) && (rest > 0 ==> offset == j - begin)
      ensures Total(output, begin, j) == Repeat(old(Total(output, begin, i)), offset, length - rest)
      ensures output[..i] == old(output[..i])
    {
      hide Holds, Repeat, InOneStretch, Slot;
      WindowBounds();
      ghost var out := Total(output, begin, i);
      var op := offset - (i - begin);
      var piece := if op - wnext < length then op - wnext else length;
      Stretch(wsize, wnext, op, piece);
      FromWindow(output, begin, i, wsize - (op - wnext), piece, piece == length);
      j, rest := i + piece, length - piece;
      if rest > 0 && wnext > 0 {
        j, rest := FastFromStart(output, begin, j, rest, out, piece);
      }
    }

    /** The second piece from the window, from its start. */
    method FastFromStart(output: array<Byte>, begin: nat, i: nat, n: nat, ghost out: seq<Byte>, ghost done: nat)
      returns (j: nat, rest: nat)
      requires WindowOk() && output != window && begin <= i && 1 <= n && i + n <= output.Length && wsize > 0
      requires wnext > 0 && offset == i - begin + wnext && wnext <= whave
      requires Total(output, begin, i) == Repeat(out, offset, done)
      modifies output
      ensures rest < n && j == i + (n - rest) && (rest > 0 ==> offset == j - begin)
      ensures Total(output, begin, j) == Repeat(out, offset, done + (n - rest))
      ensures output[..i] == old(output[..i])
    {
      hide Holds, Repeat, InOneStretch, Slot;
      WindowBounds();
      var op := if wnext < n then wnext else n;
      Stretch(wsize, wnext, wnext, op);
      RepeatSum(out, offset, done, op);
      FromWindow(output, begin, i, 0, op, op == n);
      j, rest := i + op, n - op;
    }

    // ----- Whole calls -----

    ghost predicate Running(tokens: seq<Token>, output: array<Byte>, begin: nat, i: nat)
      reads this, window, output
    {
      && WindowOk() && begin <= i <= output.Length && AreTokens(tokens)
      && Agrees(tokens, next, mode, length, offset, Total(output, begin, i))
      && (mode == BAD ==> offset > dmax || offset > |Total(output, begin, i)| || offset > Pow2(wbits))
      && Sound(tokens, next, mode, length, dmax)
    }

    /** Takes the next token. */
    method TakeToken(tokens: seq<Token>, output: array<Byte>, begin: nat, i: nat)
      requires Running(tokens, output, begin, i) && mode == LEN && next < |tokens|
      modifies `mode, `length, `offset, `next
      ensures Running(tokens, output, begin, i) && next == old(next) + 1 && mode != LEN
      ensures mode == BAD <==> tokens[old(next)].Match? && tokens[old(next)].dist > dmax
      ensures mode == LIT <==> tokens[old(next)].Literal?
      ensures mode == MATCH ==> length == tokens[old(next)].length && offset == tokens[old(next)].dist
    {
      hide WindowOk, Repeat, Expand, Sound;
      ghost var out := Total(output, begin, i);
      var token := tokens[next];
      ExpandNext(tokens, next);
      SoundTake(tokens, next, length, if token.Literal? then token.byte else token.length, dmax);
      next := next + 1;
      match token
      case Literal(b) =>
        length := b;
        mode := LIT;
      case Match(l, d) =>
        length, offset := l, d;
        NothingRepeated(out, d);
        mode := if d > dmax then BAD else MATCH;
    }

    method WriteLiteral(tokens: seq<Token>, output: array<Byte>, begin: nat, i: nat)
      requires Running(tokens, output, begin, i) && mode == LIT && i < output.Length && output != window
      modifies `mode, output
      ensures Running(tokens, output, begin, i + 1) && mode == LEN && output[..i] == old(output[..i])
    {
      hide WindowOk, Expand, Repeat, Sound;
      SoundLiteral(tokens, next, length, dmax);
      ghost var out := output[begin..i];
      output[i] := length;
      assert output[begin..i + 1] == out + [length as Byte];
      assert Total(output, begin, i + 1) == hist + out + [length as Byte];
      mode := LEN;
    }

    /** What is within reach of this call is what has been output, as far as the window goes. */
    lemma Reach(output: array<Byte>, begin: nat, i: nat)
      requires WindowOk() && begin <= i <= output.Length
      ensures offset <= i - begin + whave ==> offset <= |Total(output, begin, i)|
      ensures offset > i - begin + whave ==> offset > |Total(output, begin, i)| || offset > Pow2(wbits)
    {
      hide Pow2;
    }

    /** One round in the match state. */
    method CopyMatch(tokens: seq<Token>, output: array<Byte>, begin: nat, i: nat) returns (j: nat)
      requires Running(tokens, output, begin, i) && mode == MATCH && i < output.Length && output != window
      modifies `mode, `length, output
      ensures i <= j <= output.Length && Running(tokens, output, begin, j)
      ensures mode == BAD || i < j
    {
      hide WindowOk, Expand, Repeat, Pow2, Sound;
      ghost var before, done := Expand(tokens[..next - 1]), tokens[next - 1].length - length;
      Reach(output, begin, i);
      NothingRepeated(before, offset);
      SoundRefusal(tokens, next, length, dmax);
      if done > 0 { SoundBegun(tokens, next, length, dmax); }
      if offset <= |before| { SoundCopy(tokens, next, length, dmax); }
      j := MatchStep(output, begin, i);
      RepeatSum(before, offset, done, j - i);
      if mode == LEN {
        ExpandNext(tokens, next - 1);
      }
    }

    /** The loop of the fast path: whole tokens while input is at hand and the longest match fits. */
    method FastLoop(tokens: seq<Token>, output: array<Byte>, begin: nat, i: nat, input: nat -> Input) returns (j: nat)
      requires Running(tokens, output, begin, i) && mode == LEN && output != window
      requires forall k :: 0 <= k < |tokens| && tokens[k].Match? ==> tokens[k].length <= 258
      modifies `mode, `length, `offset, `next, output
      ensures i <= j <= output.Length && Running(tokens, output, begin, j) && (mode == LEN || mode == BAD)
      ensures next >= old(next)
      ensures next > old(next) || (next == old(next) && j == i)
      ensures old(next) < |tokens| && input(old(next)) == Plenty && 258 <= output.Length - i ==> next > old(next)
    {
      hide WindowOk, Expand, Repeat, Pow2, Running;
      j := i;
      RunningNext(tokens, output, begin, i);
      while mode == LEN && next < |tokens| && input(next) == Plenty && 258 <= output.Length - j
        invariant i <= j <= output.Length && Running(tokens, output, begin, j) && (mode == LEN || mode == BAD)
        invariant next > old(next) || (next == old(next) && j == i && mode == LEN)
        decreases |tokens| - next
      {
        j := FastToken(tokens, output, begin, j);
      }
    }

    method FastToken(tokens: seq<Token>, output: array<Byte>, begin: nat, i: nat) returns (j: nat)
      requires Running(tokens, output, begin, i) && mode == LEN && next < |tokens| && output != window
      requires 258 <= output.Length - i && (tokens[next].Match? ==> tokens[next].length <= 258)
      modifies `mode, `length, `offset, `next, output
      ensures i <= j <= output.Length && Running(tokens, output, begin, j) && (mode == LEN || mode == BAD)
      ensures next == old(next) + 1
    {
      hide WindowOk, Expand, Repeat, Pow2, Sound;
      TakeToken(tokens, output, begin, i);
      j := i;
      if mode == LIT {
        WriteLiteral(tokens, output, begin, i);
        j := i + 1;
      } else if mode == MATCH {
        j := FastWhole(tokens, output, begin, i);
      }
    }

    method FastWhole(tokens: seq<Token>, output: array<Byte>, begin: nat, i: nat) returns (j: nat)
      requires Running(tokens, output, begin, i) && mode == MATCH && output != window
      requires length == tokens[next - 1].length <= output.Length - i
      modifies `mode, output
      ensures i <= j <= output.Length && Running(tokens, output, begin, j) && (mode == LEN || mode == BAD)
    {
      hide WindowOk, Expand, Repeat, Pow2, Sound;
      ghost var before := Expand(tokens[..next - 1]);
      Reach(output, begin, i);
      NothingRepeated(before, offset);
      SoundRefusal(tokens, next, length, dmax);
      if offset <= |before| { SoundCopy(tokens, next, length, dmax); }
      j := FastMatch(output, begin, i);
      if mode == MATCH {
        ExpandNext(tokens, next - 1);
        mode := LEN;
      }
    }

    /** Between calls. */
    ghost predicate Resting(tokens: seq<Token>)
      reads this, window
    {
      && WindowOk() && AreTokens(tokens)
      && Agrees(tokens, next, mode, length, offset, hist) && Sound(tokens, next, mode, length, dmax)
    }

    /** No token is left, or nothing is at hand of the next one. */
    predicate Starved(tokens: seq<Token>, input: nat -> Input)
      reads `next
    {
      next >= |tokens| || input(next) == Nothing
    }

    /** The loop of one call. */
    method Loop(tokens: seq<Token>, output: array<Byte>, begin: nat, input: nat -> Input) returns (end: nat)
      requires begin <= output.Length && Running(tokens, output, begin, begin) && output != window
      requires forall k :: 0 <= k < |tokens| && tokens[k].Match? ==> tokens[k].length <= 258
      modifies `mode, `length, `offset, `next, output
      ensures begin <= end <= output.Length && Running(tokens, output, begin, end)
      ensures mode == BAD || (end == output.Length && mode != LEN) || (mode == LEN && Starved(tokens, input))
    {
      hide WindowOk, Expand, Repeat, Pow2, Running;
      end := begin;
      RunningNext(tokens, output, begin, end);
      while mode != BAD && !(mode == LEN && Starved(tokens, input)) && !(mode != LEN && end == output.Length)
        invariant begin <= end <= output.Length && Running(tokens, output, begin, end) && next <= |tokens|
        decreases |tokens| - next, output.Length - end, if mode == BAD then 0 else 1
      {
        if mode == LEN {
          if input(next) == Plenty && 258 <= output.Length - end {
            end := FastLoop(tokens, output, begin, end, input);
          } else {
            TakeToken(tokens, output, begin, end);
          }
        } else if mode == LIT {
          WriteLiteral(tokens, output, begin, end);
          end := end + 1;
        } else {
          end := CopyMatch(tokens, output, begin, end);
        }
        RunningNext(tokens, output, begin, end);
      }
    }

    lemma RunningNext(tokens: seq<Token>, output: array<Byte>, begin: nat, i: nat)
      requires Running(tokens, output, begin, i)
      ensures next <= |tokens| && begin <= i <= output.Length
    {
    }

    /**
     One call of inflate with any buffer: afterwards the output of all calls together is what the
     tokens taken so far stand for, up to a match that is still being copied. A call that is not
     refused ends between tokens for want of input, or within one with its buffer full.
     */
    method Inflate(tokens: seq<Token>, output: array<Byte>, begin: nat, input: nat -> Input) returns (end: nat)
      requires Resting(tokens) && mode != BAD && begin <= output.Length && output != window
      requires forall k :: 0 <= k < |tokens| && tokens[k].Match? ==> tokens[k].length <= 258
      modifies this, window, output
      ensures begin <= end <= output.Length && (window == old(window) || fresh(window)) && next <= |tokens|
      ensures mode != BAD ==> Resting(tokens) && hist == old(hist) + output[begin..end]
      ensures mode == LEN ==> Starved(tokens, input)
      ensures mode == LIT || mode == MATCH ==> end == output.Length
      ensures mode == BAD ==>
        1 <= next <= |tokens| && tokens[next - 1].Match? && Unreachable(tokens, next - 1, wbits, dmax)
    {
      hide WindowOk, Expand, Repeat, Pow2, Holds, Sound;
      assert Total(output, begin, begin) == hist;
      end := Loop(tokens, output, begin, input);
      if mode == BAD {
        Unreached(tokens, output, begin, end);
      }
      assert WindowOk();
      NoWindowYet();
      if wsize != 0 || (end != begin && mode != BAD) {
        UpdateWindow(output, end, end - begin);
      } else if mode != BAD {
        assert hist + output[begin..end] == hist;
      }
    }

    lemma Unreached(tokens: seq<Token>, output: array<Byte>, begin: nat, i: nat)
      requires Running(tokens, output, begin, i) && mode == BAD
      ensures 1 <= next <= |tokens| && tokens[next - 1].Match? && Unreachable(tokens, next - 1, wbits, dmax)
    {
      hide WindowOk, Expand, Repeat, Pow2;
    }

    lemma NoWindowYet()
      requires WindowOk()
      ensures wsize == 0 ==> hist == []
    {
    }

    /** When all tokens are taken, the output of all calls is their expansion, and no match left the output. */
    lemma AllOutput(tokens: seq<Token>)
      requires Resting(tokens) && mode == LEN && next == |tokens|
      ensures hist == Expand(tokens) && AllWithin(tokens, dmax)
    {
      hide WindowOk, Expand, WithinOutput;
      assert tokens[..|tokens|] == tokens;
      forall k | 0 <= k < |tokens| ensures WithinOutput(tokens, k, dmax) {
        assert Begun(tokens, k, next, mode, length);
      }
    }

    /** Between calls in the middle of the stream the output is a part of the expansion, and some is still owed. */
    lemma OutputOwed(tokens: seq<Token>)
      requires Resting(tokens) && mode != BAD && (mode == LEN ==> next < |tokens|)
      ensures hist < Expand(tokens)
    {
      hide WindowOk, Expand, Repeat;
      StillOwed(tokens, next, mode, length, offset, hist);
    }

    lemma WindowBounds()
      requires WindowOk()
      ensures whave > 0 ==> wnext < wsize && whave <= wsize
      ensures whave <= |hist|
    {
    }
  }

  /** Bytes copied from within the output of this call. */
  lemma CopiedFromOutput(hist: seq<Byte>, before: seq<Byte>, after: seq<Byte>, begin: nat, i: nat, offset: nat, n: nat)
    requires |before| == |after| && begin <= i && i + n <= |after| && 1 <= offset <= i - begin
    requires forall q :: i <= q < i + n ==> after[q] == after[q - offset]
    requires forall k :: 0 <= k < i ==> after[k] == before[k]
    ensures hist + after[begin..i + n] == Repeat(hist + before[begin..i], offset, n)
  {
    var out, r := hist + before[begin..i], hist + after[begin..i + n];
    forall p | |out| <= p < |r| ensures r[p] == r[p - offset] {
      var q := p - |hist| + begin;
      assert r[p] == after[q] && after[q] == after[q - offset];
    }
    RepeatsIsRepeat(out, r, offset, n);
  }

  /** Bytes copied from the window. */
  lemma CopiedFromWindow(window: seq<Byte>, wsize: nat, whave: nat, wnext: nat, hist: seq<Byte>, before: seq<Byte>,
      after: seq<Byte>, begin: nat, i: nat, offset: nat, d: nat, n: nat)
    requires Holds(window, wsize, whave, wnext, hist) && |before| == |after| && begin <= i && i + n <= |after|
    requires i - begin < offset <= i - begin + whave && n <= offset - (i - begin)
    requires d + n <= wsize && InOneStretch(wsize, wnext, offset - (i - begin), d, n)
    requires forall q :: i <= q < i + n ==> after[q] == window[q - i + d]
    requires forall k :: 0 <= k < i ==> after[k] == before[k]
    ensures hist + after[begin..i + n] == Repeat(hist + before[begin..i], offset, n)
  {
    var out, r, back := hist + before[begin..i], hist + after[begin..i + n], offset - (i - begin);
    forall p | |out| <= p < |r| ensures r[p] == r[p - offset] {
      var q, m := p - |hist| + begin, back - (p - |out|);
      assert r[p] == after[q] && after[q] == window[q - i + d];
      assert window[Slot(wnext, wsize, m)] == hist[|hist| - m];
    }
    RepeatsIsRepeat(out, r, offset, n);
  }

  lemma RingBounds(window: seq<Byte>, wsize: nat, whave: nat, wnext: nat, hist: seq<Byte>)
    requires Holds(window, wsize, whave, wnext, hist)
    ensures wnext < wsize == |window| && whave <= wsize
  {
  }

  // ----- Runs of calls -----

  /** A call brings an output buffer of some size and some input. */
  datatype Call = Call(size: nat, input: nat -> Input)

  function TotalSize(calls: seq<Call>): nat
  {
    if |calls| == 0 then 0 else TotalSize(calls[..|calls| - 1]) + calls[|calls| - 1].size
  }

  lemma SizeNext(calls: seq<Call>, n: nat)
    requires n < |calls|
    ensures TotalSize(calls[..n + 1]) == TotalSize(calls[..n]) + calls[n].size
  {
    assert calls[..n + 1][..n] == calls[..n];
  }

  lemma {:induction false} RepeatExtends(out: seq<Byte>, dist: nat, n: nat)
    ensures out <= Repeat(out, dist, n)
  {
    if n > 0 { RepeatExtends(out, dist, n - 1); }
  }

  lemma {:induction false} ExpandGrows(tokens: seq<Token>, m: nat, n: nat)
    requires m <= n <= |tokens| && AreTokens(tokens)
    ensures Expand(tokens[..m]) <= Expand(tokens[..n])
    ensures m < n ==> Expand(tokens[..m]) < Expand(tokens[..n])
  {
    hide Expand, Repeat;
    if m < n {
      ExpandGrows(tokens, m, n - 1);
      ExpandNext(tokens, n - 1);
      if tokens[n - 1].Match? { RepeatExtends(Expand(tokens[..n - 1]), tokens[n - 1].dist, tokens[n - 1].length); }
    }
  }

  /** In the middle of the stream the expansion goes on behind what has been output. */
  lemma StillOwed(tokens: seq<Token>, next: nat, mode: Mode, length: nat, offset: nat, total: seq<Byte>)
    requires AreTokens(tokens) && Agrees(tokens, next, mode, length, offset, total)
    requires mode != BAD && (mode == LEN ==> next < |tokens|)
    ensures total < Expand(tokens)
  {
    hide Expand, Repeat;
    ExpandGrows(tokens, next, |tokens|);
    assert tokens[..|tokens|] == tokens;
    if mode == MATCH {
      ExpandNext(tokens, next - 1);
      var before, done := Expand(tokens[..next - 1]), tokens[next - 1].length - length;
      RepeatSum(before, offset, done, length);
      RepeatExtends(total, offset, length);
    }
  }

  datatype Outcome = Done | Refused | Unfinished

  /** Some call had no token at hand when one was due. */
  ghost predicate SomeStarved(calls: seq<Call>, n: nat, tokens: nat)
    requires n <= |calls|
  {
    exists i, k: nat :: 0 <= i < n && k < tokens && calls[i].input(k) == Nothing
  }

  /**
   Any stream, any output buffers, any input at hand in each call: the concatenated output of the
   calls is the expansion; or a part of it, if the buffers together are too small or input was
   missing; or a match reaches too far back. Nothing is ever copied from outside the output.
   */
  method Run(tokens: seq<Token>, calls: seq<Call>, wbits: nat, header: Option<nat>)
    returns (out: seq<Byte>, outcome: Outcome)
    requires 8 <= wbits <= 15 && (header.Some? ==> 8 <= header.value <= wbits) && AreTokens(tokens) && |calls| > 0
    requires forall k :: 0 <= k < |tokens| && tokens[k].Match? ==> tokens[k].length <= 258
    ensures |out| <= TotalSize(calls)
    ensures outcome == Done ==>
      out == Expand(tokens) && AllWithin(tokens, if header.None? then 32768 else Pow2(header.value))
    ensures outcome == Unfinished ==> out < Expand(tokens)
    ensures outcome == Unfinished && !SomeStarved(calls, |calls|, |tokens|) ==> |out| == TotalSize(calls)
    ensures outcome == Refused ==>
      exists k: nat :: k < |tokens| && tokens[k].Match?
                       && Unreachable(tokens, k, wbits, if header.None? then 32768 else Pow2(header.value))
    ensures header.None? && InReach(tokens, 32768) && InReach(tokens, Pow2(wbits)) ==> outcome != Refused
    ensures header.Some? && InReach(tokens, Pow2(header.value)) ==> outcome != Refused
    ensures !SomeStarved(calls, |calls|, |tokens|) && |Expand(tokens)| <= TotalSize(calls) ==> outcome != Unfinished
  {
    hide Expand, Repeat, Pow2, AreTokens, TotalSize, Agrees, Sound, AllWithin, Unreachable, InReach,
      SomeStarved, InflateState.WindowOk;
    var state := new InflateState(wbits, header);
    out, outcome := [], Unfinished;
    RunStarts(tokens, calls, state.dmax);
    var i := 0;
    while outcome == Unfinished && i < |calls|
      invariant 0 <= i <= |calls| && fresh(state) && fresh(state.window)
      invariant state.wbits == wbits && state.dmax == if header.None? then 32768 else Pow2(header.value)
      invariant |out| <= TotalSize(calls[..i])
      invariant outcome == Unfinished ==> state.Resting(tokens) && state.mode != BAD && state.hist == out
      invariant outcome == Unfinished && i > 0 ==> out < Expand(tokens)
      invariant outcome == Unfinished && !SomeStarved(calls, i, |tokens|) ==> |out| == TotalSize(calls[..i])
      invariant outcome == Done ==> out == Expand(tokens) && AllWithin(tokens, state.dmax)
      invariant outcome == Refused ==>
        exists k: nat :: k < |tokens| && tokens[k].Match? && Unreachable(tokens, k, wbits, state.dmax)
    {
      var output := new Byte[calls[i].size](_ => 0);
      SizeNext(calls, i);
      var end := state.Inflate(tokens, output, 0, calls[i].input);
      if state.mode == BAD {
        outcome := Refused;
      } else {
        out := out + output[0..end];
        if state.mode == LEN && state.next == |tokens| {
          state.AllOutput(tokens);
          outcome := Done;
        } else {
          state.OutputOwed(tokens);
          StarvedNext(calls, i, |tokens|, state.next, state.mode == LEN);
        }
      }
      i := i + 1;
    }
    SizeGrows(calls, i, |calls|);
    assert calls[..|calls|] == calls;
    if header.Some? && InReach(tokens, Pow2(header.value)) { HeaderReach(tokens, header.value, wbits); }
    NeverUnreachable(tokens, wbits, state.dmax);
  }

  /** A header's window is no larger than the one in use. */
  lemma HeaderReach(tokens: seq<Token>, bits: nat, wbits: nat)
    requires bits <= wbits && InReach(tokens, Pow2(bits))
    ensures InReach(tokens, Pow2(wbits))
  {
    hide Expand, Pow2;
    Pow2Monotone(bits, wbits);
  }

  /** A stream whose matches stay in reach is never refused, however the output is divided into calls. */
  lemma NeverUnreachable(tokens: seq<Token>, wbits: nat, dmax: nat)
    ensures InReach(tokens, Pow2(wbits)) && InReach(tokens, dmax) ==>
      forall k: nat :: k < |tokens| && tokens[k].Match? ==> !Unreachable(tokens, k, wbits, dmax)
  {
    hide Expand, Pow2;
  }

  lemma StarvedNext(calls: seq<Call>, i: nat, tokens: nat, k: nat, starved: bool)
    requires i < |calls| && (starved ==> k < tokens && calls[i].input(k) == Nothing)
    ensures SomeStarved(calls, i, tokens) ==> SomeStarved(calls, i + 1, tokens)
    ensures starved ==> SomeStarved(calls, i + 1, tokens)
  {
  }

  lemma {:induction false} SizeGrows(calls: seq<Call>, m: nat, n: nat)
    requires m <= n <= |calls|
    ensures TotalSize(calls[..m]) <= TotalSize(calls[..n])
  {
    hide TotalSize;
    if m < n {
      SizeGrows(calls, m, n - 1);
      SizeNext(calls, n - 1);
    }
  }

  lemma RunStarts(tokens: seq<Token>, calls: seq<Call>, dmax: nat)
    requires AreTokens(tokens)
    ensures Agrees(tokens, 0, LEN, 0, 0, []) && Sound(tokens, 0, LEN, 0, dmax)
    ensures TotalSize(calls[..0]) == 0
  {
  }
}

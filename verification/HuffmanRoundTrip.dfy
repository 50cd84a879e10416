/** The codes that deflate assigns are the codes that inflate's tables decode. */
module HuffmanRoundTrip {
  import opened BitReversal
  import opened Bits
  import opened BitStream
  import opened CanonicalCode
  import opened DeflateCodes
  import opened InflateTable
  import opened Results
  import opened SymbolMeaning

  lemma {:induction false} LowBit(low: nat, rest: nat, n: nat, i: nat)
    requires low < Pow2(n) && i < n
    ensures GetBit(rest * Pow2(n) + low, i) == GetBit(low, i)
  {
    hide Pow2;
    Pow2Twice(n - 1);
    EvenPlus(rest, Pow2(n - 1), low);
    if i > 0 {
      LowBit(low / 2, rest, n - 1, i - 1);
    }
  }

  lemma EvenPlus(rest: nat, p: nat, low: nat)
    ensures var x := rest * (2 * p) + low;
            x % 2 == low % 2 && x / 2 == rest * p + low / 2
  {
    assert rest * (2 * p) == 2 * (rest * p);
  }

  /** The accumulator when a code of n bits is followed by other bits. */
  function Held(code: nat, n: nat, rest: nat): nat
  {
    rest * Pow2(n) + code
  }

  /** A reversed code with anything behind it starts with the code word. */
  lemma CodeWordFirst(lens: seq<nat>, s: nat, rest: nat)
    requires Coded(lens, s)
    ensures Word(lens, s) <= StreamBits(Held(Reverse(Code(lens, s), lens[s]), lens[s], rest), MAX_BITS)
  {
    hide Reverse, Code, Pow2, GetBit, BitsOf;
    var n, c := lens[s], Code(lens, s);
    var hold := Held(Reverse(c, n), n, rest);
    ReverseBound(c, n);
    forall i | 0 <= i < n ensures Word(lens, s)[i] == StreamBits(hold, MAX_BITS)[i] {
      LowBit(Reverse(c, n), rest, n, i);
      ReversedBit(c, n, i);
    }
  }

  /**
   Whatever deflate sends for a symbol, the decoder with the table of the same lengths gets the
   symbol back, with the number of bits sent, whatever follows in the stream.
   */
  lemma SentCodeDecodes(kind: Kind, lens: seq<nat>, tree: seq<nat>, table: seq<Entry>, root: nat, s: nat, rest: nat)
    requires |lens| <= Symbols(kind) && Complete(lens) && CodesStored(tree, lens)
    requires TableDone(kind, lens, table, root) && Coded(lens, s)
    ensures Decode(table, root, Held(tree[s], lens[s], rest)).Some?
    ensures var e := Decode(table, root, Held(tree[s], lens[s], rest)).value;
            e.bits == lens[s] && Tells(kind, s, e)
  {
    hide Held, Reverse, Code, Pow2, Word, StreamBits, Complete, TableDone, Decode, Tells;
    CodeWordFirst(lens, s, rest);
    var t := DecodesNextSymbol(kind, lens, table, root, Held(tree[s], lens[s], rest));
  }
}

/**
 The decoding tables of inflate: a root table addressed by the next bits of the stream, with
 second-level tables for longer codes. The source's inflate_table, proved to decode the canonical
 code of the given lengths.
 */
module InflateTable {
  import opened BitReversal
  import opened Bits
  import opened BitStream
  import opened CanonicalCode
  import opened Results
  import opened SymbolMeaning
  import opened TableCells
  import opened TableSize

  /** A table entry; the source packs the three parts into one 32-bit number. */
  datatype Entry = Entry(bits: nat, op: nat, val: nat)

  const LENGTH_BASE: seq<nat> := [
    3, 4, 5, 6, 7, 8, 9, 10, 11, 13, 15, 17, 19, 23, 27, 31, 35, 43, 51, 59, 67, 83, 99, 115, 131, 163, 195, 227, 258, 0, 0
  ]

  const LENGTH_EXTRA: seq<nat> := [
    16, 16, 16, 16, 16, 16, 16, 16, 17, 17, 17, 17, 18, 18, 18, 18, 19, 19, 19, 19, 20, 20, 20, 20, 21, 21, 21, 21, 16, 72, 78
  ]

  const DIST_BASE: seq<nat> := [
    1, 2, 3, 4, 5, 7, 9, 13, 17, 25, 33, 49, 65, 97, 129, 193, 257, 385, 513, 769, 1025, 1537, 2049, 3073, 4097, 6145,
    8193, 12289, 16385, 24577, 0, 0
  ]

  const DIST_EXTRA: seq<nat> := [
    16, 16, 16, 16, 17, 17, 18, 18, 19, 19, 20, 20, 21, 21, 22, 22, 23, 23, 24, 24, 25, 25, 26, 26, 27, 27, 28, 28, 29, 29,
    64, 64
  ]

  /** The number of symbols an alphabet can have. */
  function Symbols(kind: Kind): nat
  {
    match kind
    case CODES => 19
    case LENS => 288
    case DISTS => 32
  }

  /** What a symbol means to the decoder, with the number of bits to drop. */
  function SymbolEntry(kind: Kind, sym: nat, bits: nat): (e: Entry)
    requires sym < Symbols(kind)
    ensures e.bits == bits && !IsLink(e)
  {
    match kind
    case CODES => Entry(bits, 0, sym)
    case LENS =>
      if sym < 256 then Entry(bits, 0, sym)
      else if sym > 256 then Entry(bits, LENGTH_EXTRA[sym - 257], LENGTH_BASE[sym - 257])
      else Entry(bits, 96, 0)
    case DISTS => Entry(bits, DIST_EXTRA[sym], DIST_BASE[sym])
  }

  const INVALID_CODE: nat := 64

  predicate BitOf(op: nat, value: nat)
    requires value >= 1
  {
    op / value % 2 == 1
  }

  /** How the decoder takes an entry that is no link, outside the fast loop. */
  function Means(kind: Kind, e: Entry): Meaning
  {
    if kind == CODES || (kind == LENS && e.op == 0) then Plain(e.val)
    else if kind == LENS && BitOf(e.op, 32) then EndOfBlock
    else if BitOf(e.op, 64) then Invalid
    else Range(e.val, e.op % 16)
  }

  /** How the fast loop takes it. */
  function FastMeans(kind: Kind, e: Entry): Meaning
    requires kind != CODES
  {
    if kind == LENS && e.op == 0 then Plain(e.val)
    else if BitOf(e.op, 16) then Range(e.val, e.op % 16)
    else if kind == LENS && BitOf(e.op, 32) then EndOfBlock
    else Invalid
  }

  /** The decoder takes the entry as what the symbol stands for, in the fast loop or not. */
  predicate Tells(kind: Kind, sym: nat, e: Entry)
  {
    Means(kind, e) == MeaningOf(kind, sym) && (kind != CODES ==> FastMeans(kind, e) == MeaningOf(kind, sym))
  }

  /** An operation with bit 16 and fewer than 16 extra bits. */
  lemma RangeOp(n: nat)
    requires n < 16
    ensures BitOf(16 + n, 16) && !BitOf(16 + n, 32) && !BitOf(16 + n, 64) && (16 + n) % 16 == n
  {
  }

  lemma LengthRow(sym: nat)
    requires 257 <= sym <= 285
    ensures LENGTH_EXTRA[sym - 257] == 16 + LengthExtra(sym) && LENGTH_BASE[sym - 257] == LengthBase(sym)
    ensures LengthExtra(sym) < 16
  {
    SmallPowers();
    hide Pow2;
    if 265 <= sym < 285 {
      LengthGroup(sym);
    }
  }

  lemma LengthGroup(sym: nat)
    requires 265 <= sym <= 284
    ensures var k := (sym - 261) / 4;
            LENGTH_EXTRA[sym - 257] == 16 + k && LENGTH_BASE[sym - 257] == 3 + (4 + (sym - 265) % 4) * Pow2(k)
  {
    SmallPowers();
    hide Pow2;
    var k := (sym - 261) / 4;
    assert k == 1 || k == 2 || k == 3 || k == 4 || k == 5;
  }

  lemma DistRow(sym: nat)
    requires sym <= 29
    ensures DIST_EXTRA[sym] == 16 + DistExtra(sym) && DIST_BASE[sym] == DistBase(sym) && DistExtra(sym) < 16
  {
    if sym >= 4 {
      var k := (sym - 2) / 2;
      if k <= 6 { LowDistances(sym); } else { HighDistances(sym); }
    }
  }

  lemma LowDistances(sym: nat)
    requires 4 <= sym <= 15
    ensures var k := (sym - 2) / 2; DIST_EXTRA[sym] == 16 + k && DIST_BASE[sym] == 1 + (2 + sym % 2) * Pow2(k)
  {
    SmallPowers();
    hide Pow2;
    var k := (sym - 2) / 2;
    assert k == 1 || k == 2 || k == 3 || k == 4 || k == 5 || k == 6;
  }

  lemma HighDistances(sym: nat)
    requires 16 <= sym <= 29
    ensures var k := (sym - 2) / 2; DIST_EXTRA[sym] == 16 + k && DIST_BASE[sym] == 1 + (2 + sym % 2) * Pow2(k)
  {
    SmallPowers();
    hide Pow2;
    var k := (sym - 2) / 2;
    assert k == 7 || k == 8 || k == 9 || k == 10 || k == 11 || k == 12 || k == 13;
  }

  /** Every entry that a symbol gets is taken as what the symbol stands for. */
  lemma EntryTells(kind: Kind, sym: nat, bits: nat)
    requires sym < Symbols(kind)
    ensures Tells(kind, sym, SymbolEntry(kind, sym, bits))
  {
    hide LengthBase, LengthExtra, DistBase, DistExtra, BitOf;
    OtherOps();
    if kind == LENS && 257 <= sym <= 285 {
      LengthRow(sym);
      RangeOp(LengthExtra(sym));
    } else if kind == DISTS && sym <= 29 {
      DistRow(sym);
      RangeOp(DistExtra(sym));
    }
  }

  lemma OtherOps()
    ensures BitOf(96, 32) && !BitOf(96, 16)
    ensures forall op: nat :: op == 64 || op == 72 || op == 78 ==> !BitOf(op, 16) && !BitOf(op, 32) && BitOf(op, 64)
  {
  }

  /** Entries with such an operation lead to a second-level table. */
  predicate IsLink(e: Entry)
  {
    0 < e.op < 16
  }

  /** The decoder ahead of the bits w finds the entry e, without leaving the table. */
  ghost predicate Reaches(table: seq<Entry>, root: nat, w: nat, e: Entry)
    requires root <= MAX_BITS
  {
    var i := Reverse(Top(w, root), root);
    && i < |table|
    && if IsLink(table[i]) then
         && table[i].bits == root && root + table[i].op <= MAX_BITS
         && var j := table[i].val + Reverse(Middle(w, root, table[i].op), table[i].op);
            j < |table| && !IsLink(table[j]) && e == Entry(root + table[j].bits, table[j].op, table[j].val)
       else e == table[i]
  }

  /** Everything below p is decoded as the canonical code demands. */
  ghost predicate Decoded(kind: Kind, lens: seq<nat>, table: seq<Entry>, root: nat, p: nat)
    requires root <= MAX_BITS && |lens| <= Symbols(kind)
  {
    forall w: nat :: w < p ==> DecodedAt(kind, lens, table, root, w)
  }

  ghost predicate DecodedAt(kind: Kind, lens: seq<nat>, table: seq<Entry>, root: nat, w: nat)
    requires root <= MAX_BITS && |lens| <= Symbols(kind)
  {
    forall s: nat :: Owns(lens, s, w) ==> Reaches(table, root, w, SymbolEntry(kind, s, lens[s]))
  }

  /** Second-level tables lie behind the root table; those of root cells before `cur` end before `next`. */
  ghost predicate Layered(table: seq<Entry>, root: nat, p: nat, cur: nat, next: nat, used: nat)
    requires root <= MAX_BITS
  {
    && Pow2(root) <= |table|
    && forall w: nat :: w < p ==> CellLayered(table, root, w, cur, next, used)
  }

  ghost predicate CellLayered(table: seq<Entry>, root: nat, w: nat, cur: nat, next: nat, used: nat)
    requires root <= MAX_BITS
  {
    var i := Reverse(Top(w, root), root);
    i < |table| &&
    (IsLink(table[i]) ==>
      && Pow2(root) <= table[i].val
      && table[i].val + Pow2(table[i].op) <= if Top(w, root) < cur then next else used)
  }

  // ----- Which cells a symbol's entries are written to -----

  /** Of the root cells, a short code's entries are at those that its interval selects. */
  lemma RootTouched(w: nat, root: nat, len: nat, c: nat)
    requires w < Pow2(MAX_BITS) && len <= root <= MAX_BITS && c < Pow2(len)
    ensures Reverse(Top(w, root), root) < Pow2(root)
    ensures Reverse(Top(w, root), root) % Pow2(len) == Reverse(c, len) <==> Top(w, len) == c
  {
    hide Top, Middle, Pow2, Reverse;
    TopSmall(w, root);
    ReverseBound(Top(w, root), root);
    CellClass(Top(w, root), root, len, c);
    TopSplits(w, len, root - len);
    RestIs(Top(w, len), Middle(w, len, root - len), Pow2(root - len));
  }

  lemma SplitSum(q: nat, m: nat, r: nat, a: nat, b: nat)
    ensures (q * a + m) * b + r == q * (a * b) + (m * b + r)
  {
    NestedProduct(q, m, a, b);
  }

  lemma MiddleSplits(w: nat, root: nat, m: nat, n: nat)
    requires root + m + n <= MAX_BITS
    ensures Middle(w, root, m + n) / Pow2(n) == Middle(w, root, m)
  {
    hide Top, Middle, Pow2;
    TopSplits(w, root, m + n);
    TopSplits(w, root + m, n);
    TopSplits(w, root, m);
    Pow2Add(m, n);
    var q, a, r := Top(w, root), Middle(w, root, m), Middle(w, root + m, n);
    SplitSum(q, a, r, Pow2(m), Pow2(n));
    RestIs(a, r, Pow2(n));
  }

  /** Of the cells of a second-level table, a long code's entries are at those that its interval selects. */
  lemma SubTouched(w: nat, root: nat, curr: nat, m: nat, q: nat, c: nat)
    requires w < Pow2(MAX_BITS) && root + curr <= MAX_BITS && m <= curr && q < Pow2(root) && c < Pow2(m)
    requires Top(w, root) == q
    ensures Reverse(Middle(w, root, curr), curr) < Pow2(curr)
    ensures Reverse(Middle(w, root, curr), curr) % Pow2(m) == Reverse(c, m) <==> Top(w, root + m) == q * Pow2(m) + c
  {
    hide Top, Middle, Pow2, Reverse;
    TopSplits(w, root, curr);
    ReverseBound(Middle(w, root, curr), curr);
    CellClass(Middle(w, root, curr), curr, m, c);
    MiddleSplits(w, root, m, curr - m);
    TopSplits(w, root, m);
  }

  // ----- Placing a symbol -----

  /** The entries of a code of at most root bits. */
  ghost predicate FilledRoot(table: seq<Entry>, table': seq<Entry>, root: nat, len: nat, c: nat, e: Entry)
  {
    && |table'| == |table|
    && forall i :: 0 <= i < |table| ==>
      table'[i] == if i < Pow2(root) && i % Pow2(len) == Reverse(c, len) then e else table[i]
  }

  lemma OwnedIsTop(lens: seq<nat>, s: nat, w: nat)
    requires Coded(lens, s)
    ensures Owns(lens, s, w) <==> Top(w, lens[s]) == Code(lens, s)
  {
    hide Top, Code, Width, Start;
    StartIsCode(lens, s);
    TopIs(w, lens[s], Code(lens, s));
  }

  lemma PlaceRoot(kind: Kind, lens: seq<nat>, s: nat, table: seq<Entry>, table': seq<Entry>, root: nat)
    requires |lens| <= Symbols(kind) && Coded(lens, s) && lens[s] <= root <= MAX_BITS && Total(lens) <= Pow2(MAX_BITS)
    requires FilledRoot(table, table', root, lens[s], Code(lens, s), SymbolEntry(kind, s, lens[s]))
    requires Decoded(kind, lens, table, root, Start(lens, s))
    requires Layered(table, root, Start(lens, s), Pow2(root), 0, Pow2(root))
    ensures Decoded(kind, lens, table', root, Start(lens, s) + Width(lens[s]))
    ensures Layered(table', root, Start(lens, s) + Width(lens[s]), Pow2(root), 0, Pow2(root))
  {
    hide Pow2, SymbolEntry, Width, Code, Start, DecodedAt, CellLayered;
    forall w: nat | w < Start(lens, s) + Width(lens[s])
      ensures DecodedAt(kind, lens, table', root, w) && CellLayered(table', root, w, Pow2(root), 0, Pow2(root))
    {
      PlaceRootAt(kind, lens, s, table, table', root, w);
    }
  }

  lemma PlaceRootAt(kind: Kind, lens: seq<nat>, s: nat, table: seq<Entry>, table': seq<Entry>, root: nat, w: nat)
    requires |lens| <= Symbols(kind) && Coded(lens, s) && lens[s] <= root <= MAX_BITS && Total(lens) <= Pow2(MAX_BITS)
    requires FilledRoot(table, table', root, lens[s], Code(lens, s), SymbolEntry(kind, s, lens[s]))
    requires Decoded(kind, lens, table, root, Start(lens, s))
    requires Layered(table, root, Start(lens, s), Pow2(root), 0, Pow2(root))
    requires w < Start(lens, s) + Width(lens[s])
    ensures DecodedAt(kind, lens, table', root, w) && CellLayered(table', root, w, Pow2(root), 0, Pow2(root))
  {
    hide Top, Middle, Reverse, Pow2, SymbolEntry, Width, Code, Start;
    CodesFit(lens, s);
    TopSmall(w, root);
    RootTouched(w, root, lens[s], Code(lens, s));
    OwnedIsTop(lens, s, w);
    if w >= Start(lens, s) {
      forall t: nat | Owns(lens, t, w) ensures t == s {
        OwnerIsUnique(lens, s, t, w);
      }
    } else {
      assert CellLayered(table, root, w, Pow2(root), 0, Pow2(root)) && DecodedAt(kind, lens, table, root, w);
    }
  }

  /** The second-level table in use: behind root cell `cur`, at `next`, for curr more bits. */
  ghost predicate HasTable(table: seq<Entry>, root: nat, cur: nat, next: nat, curr: nat, used: nat)
  {
    && 1 <= root && 1 <= curr && root + curr <= MAX_BITS && cur < Pow2(root) && Pow2(root) <= next
    && next + Pow2(curr) == used <= |table|
    && Reverse(cur, root) < |table| && table[Reverse(cur, root)] == Entry(root, curr, next)
  }

  /** The entries of a code that goes on for m bits behind root cell `cur`. */
  ghost predicate FilledSub(table: seq<Entry>, table': seq<Entry>, next: nat, curr: nat, m: nat, c: nat, e: Entry)
  {
    && |table'| == |table| && next + Pow2(curr) <= |table|
    && forall i :: 0 <= i < |table| ==>
      table'[i] == if next <= i < next + Pow2(curr) && (i - next) % Pow2(m) == Reverse(c, m) then e else table[i]
  }

  lemma PlaceSub(kind: Kind, lens: seq<nat>, s: nat, table: seq<Entry>, table': seq<Entry>, root: nat,
      cur: nat, next: nat, curr: nat, used: nat, m: nat, c: nat)
    requires |lens| <= Symbols(kind) && Coded(lens, s) && Total(lens) <= Pow2(MAX_BITS)
    requires HasTable(table, root, cur, next, curr, used) && 1 <= m <= curr && c < Pow2(m)
    requires lens[s] == root + m && Code(lens, s) == cur * Pow2(m) + c
    requires FilledSub(table, table', next, curr, m, c, SymbolEntry(kind, s, m))
    requires Decoded(kind, lens, table, root, Start(lens, s))
    requires Layered(table, root, Start(lens, s), cur, next, used)
    ensures Decoded(kind, lens, table', root, Start(lens, s) + Width(lens[s]))
    ensures Layered(table', root, Start(lens, s) + Width(lens[s]), cur, next, used)
    ensures HasTable(table', root, cur, next, curr, used)
  {
    hide Pow2, SymbolEntry, Width, Code, Start, DecodedAt, CellLayered, Reverse;
    ReverseBound(cur, root);
    forall w: nat | w < Start(lens, s) + Width(lens[s])
      ensures DecodedAt(kind, lens, table', root, w) && CellLayered(table', root, w, cur, next, used)
    {
      PlaceSubAt(kind, lens, s, table, table', root, cur, next, curr, used, m, c, w);
    }
  }

  lemma PlaceSubAt(kind: Kind, lens: seq<nat>, s: nat, table: seq<Entry>, table': seq<Entry>, root: nat,
      cur: nat, next: nat, curr: nat, used: nat, m: nat, c: nat, w: nat)
    requires |lens| <= Symbols(kind) && Coded(lens, s) && Total(lens) <= Pow2(MAX_BITS)
    requires HasTable(table, root, cur, next, curr, used) && 1 <= m <= curr && c < Pow2(m)
    requires lens[s] == root + m && Code(lens, s) == cur * Pow2(m) + c
    requires FilledSub(table, table', next, curr, m, c, SymbolEntry(kind, s, m))
    requires Decoded(kind, lens, table, root, Start(lens, s))
    requires Layered(table, root, Start(lens, s), cur, next, used)
    requires w < Start(lens, s) + Width(lens[s])
    ensures DecodedAt(kind, lens, table', root, w) && CellLayered(table', root, w, cur, next, used)
  {
    hide Top, Middle, Reverse, Pow2, SymbolEntry, Width, Code, Start;
    CodesFit(lens, s);
    OwnedIsTop(lens, s, w);
    TopSmall(w, root);
    ReverseBound(Top(w, root), root);
    if w >= Start(lens, s) {
      OwnedInTable(lens, s, table, table', root, cur, next, curr, used, m, c, w, SymbolEntry(kind, s, m));
      SameMeaning(kind, s, root, m);
      forall t: nat | Owns(lens, t, w) ensures t == s {
        OwnerIsUnique(lens, s, t, w);
      }
    } else {
      assert CellLayered(table, root, w, cur, next, used) && DecodedAt(kind, lens, table, root, w);
      EarlierCells(lens, s, root, cur, m, c, w);
      EarlierUntouched(table, table', root, cur, next, curr, used, m, c, w, SymbolEntry(kind, s, m));
    }
  }

  lemma SameMeaning(kind: Kind, s: nat, root: nat, m: nat)
    requires s < Symbols(kind)
    ensures var e := SymbolEntry(kind, s, m);
            SymbolEntry(kind, s, root + m) == Entry(root + m, e.op, e.val)
  {
  }

  /** The new interval is reached through the link of the current table. */
  lemma OwnedInTable(lens: seq<nat>, s: nat, table: seq<Entry>, table': seq<Entry>, root: nat,
      cur: nat, next: nat, curr: nat, used: nat, m: nat, c: nat, w: nat, e: Entry)
    requires Coded(lens, s) && w < Pow2(MAX_BITS) && Owns(lens, s, w)
    requires HasTable(table, root, cur, next, curr, used) && 1 <= m <= curr && c < Pow2(m)
    requires lens[s] == root + m && Code(lens, s) == cur * Pow2(m) + c
    requires FilledSub(table, table', next, curr, m, c, e) && e.bits == m && !IsLink(e)
    ensures Reaches(table', root, w, Entry(root + m, e.op, e.val)) && CellLayered(table', root, w, cur, next, used)
  {
    hide Top, Middle, Reverse, Pow2, Code, Width, Owns;
    OwnedIsTop(lens, s, w);
    TopSplits(w, root, m);
    RestIs(Top(w, root), Middle(w, root, m), Pow2(m));
    RestIs(cur, c, Pow2(m));
    assert Top(w, root) == cur;
    ReverseBound(cur, root);
    SubTouched(w, root, curr, m, cur, c);
  }

  /** Earlier numbers do not select later root cells. */
  lemma EarlierCells(lens: seq<nat>, s: nat, root: nat, cur: nat, m: nat, c: nat, w: nat)
    requires Coded(lens, s) && w < Start(lens, s)
    requires lens[s] == root + m && Code(lens, s) == cur * Pow2(m) + c && c < Pow2(m)
    ensures Top(w, root) <= cur && Top(w, lens[s]) != Code(lens, s)
  {
    hide Top, Middle, Pow2, Code, Width, Start;
    var p := Start(lens, s);
    OwnedIsTop(lens, s, w);
    OwnedIsTop(lens, s, p);
    TopSplits(p, root, m);
    RestIs(Top(p, root), Middle(p, root, m), Pow2(m));
    RestIs(cur, c, Pow2(m));
    TopMonotone(w, p, root);
  }

  /** What was reached before is still reached. */
  lemma EarlierUntouched(table: seq<Entry>, table': seq<Entry>, root: nat,
      cur: nat, next: nat, curr: nat, used: nat, m: nat, c: nat, w: nat, e: Entry)
    requires HasTable(table, root, cur, next, curr, used) && 1 <= m <= curr && c < Pow2(m) && w < Pow2(MAX_BITS)
    requires Top(w, root) <= cur && Top(w, root + m) != cur * Pow2(m) + c
    requires FilledSub(table, table', next, curr, m, c, e)
    requires CellLayered(table, root, w, cur, next, used)
    ensures CellLayered(table', root, w, cur, next, used)
    ensures forall f: Entry :: Reaches(table, root, w, f) ==> Reaches(table', root, w, f)
  {
    hide Top, Middle, Reverse, Pow2;
    var i := Reverse(Top(w, root), root);
    TopSmall(w, root);
    ReverseBound(Top(w, root), root);
    assert table'[i] == table[i];
    if IsLink(table[i]) && root + table[i].op <= MAX_BITS {
      var op := table[i].op;
      var j := table[i].val + Reverse(Middle(w, root, op), op);
      ReverseBound(Middle(w, root, op), op);
      if Top(w, root) == cur {
        SubTouched(w, root, curr, m, cur, c);
      }
      assert j < |table| ==> table'[j] == table[j];
    }
  }

  // ----- Opening a second-level table -----

  lemma OpenTable(kind: Kind, lens: seq<nat>, table: seq<Entry>, table': seq<Entry>, root: nat, p: nat,
      cur: nat, next: nat, used: nat, q: nat, curr: nat)
    requires |lens| <= Symbols(kind) && 1 <= root && 1 <= curr && root + curr <= MAX_BITS && q < Pow2(root)
    requires p == q * Width(root) && next <= used && Pow2(root) <= used && used + Pow2(curr) <= |table|
    requires Decoded(kind, lens, table, root, p) && Layered(table, root, p, cur, next, used)
    requires Reverse(q, root) < |table| && table' == table[Reverse(q, root) := Entry(root, curr, used)]
    ensures Decoded(kind, lens, table', root, p) && Layered(table', root, p, q, used, used + Pow2(curr))
    ensures HasTable(table', root, q, used, curr, used + Pow2(curr))
  {
    hide Pow2, SymbolEntry, Width, DecodedAt, CellLayered, Reverse;
    var used' := used + Pow2(curr);
    forall w: nat | w < p
      ensures DecodedAt(kind, lens, table', root, w) && CellLayered(table', root, w, q, used, used')
    {
      OpenTableAt(kind, lens, table, table', root, p, cur, next, used, q, curr, w);
    }
  }

  lemma OpenTableAt(kind: Kind, lens: seq<nat>, table: seq<Entry>, table': seq<Entry>, root: nat, p: nat,
      cur: nat, next: nat, used: nat, q: nat, curr: nat, w: nat)
    requires |lens| <= Symbols(kind) && 1 <= root && 1 <= curr && root + curr <= MAX_BITS && q < Pow2(root)
    requires p == q * Width(root) && next <= used && Pow2(root) <= used && used + Pow2(curr) <= |table| && w < p
    requires DecodedAt(kind, lens, table, root, w) && CellLayered(table, root, w, cur, next, used)
    requires Reverse(q, root) < |table| && table' == table[Reverse(q, root) := Entry(root, curr, used)]
    ensures DecodedAt(kind, lens, table', root, w) && CellLayered(table', root, w, q, used, used + Pow2(curr))
  {
    hide Top, Middle, Reverse, Pow2, SymbolEntry, Width, Owns;
    var i := Reverse(Top(w, root), root);
    TopBounds(w, root);
    FitsBelow(Top(w, root), q, Width(root));
    ReverseInjective(Top(w, root), q, root);
    ReverseBound(Top(w, root), root);
    ReverseBound(q, root);
    assert table'[i] == table[i];
    forall e: Entry | Reaches(table, root, w, e) ensures Reaches(table', root, w, e) {
      if IsLink(table[i]) {
        ReverseBound(Middle(w, root, table[i].op), table[i].op);
      }
    }
  }

  // ----- Symbols in the order of their codes -----

  /** The number of symbols with lengths below l. */
  function Offset(lens: seq<nat>, l: nat): nat
    requires l <= MAX_BITS + 1
  {
    if l <= 1 then 0 else Offset(lens, l - 1) + Count(lens, l - 1)
  }

  /** The place of a symbol in the order of codes. */
  function Place(lens: seq<nat>, s: nat): nat
    requires Coded(lens, s)
  {
    Offset(lens, lens[s]) + Rank(lens, s)
  }

  lemma {:induction false} OffsetMonotone(lens: seq<nat>, l: nat, m: nat)
    requires l <= m <= MAX_BITS + 1
    ensures Offset(lens, l) <= Offset(lens, m)
  {
    if l < m { OffsetMonotone(lens, l, m - 1); }
  }

  lemma PlaceBounds(lens: seq<nat>, s: nat)
    requires Coded(lens, s)
    ensures Offset(lens, lens[s]) <= Place(lens, s) < Offset(lens, lens[s] + 1) <= Offset(lens, MAX_BITS + 1)
  {
    RankBelowCount(lens, s);
    OffsetMonotone(lens, lens[s] + 1, MAX_BITS + 1);
  }

  lemma PlacesDiffer(lens: seq<nat>, s: nat, t: nat)
    requires Coded(lens, s) && Coded(lens, t) && s < t
    ensures Place(lens, s) != Place(lens, t)
  {
    PlaceBounds(lens, s);
    PlaceBounds(lens, t);
    if lens[s] < lens[t] { OffsetMonotone(lens, lens[s] + 1, lens[t]); }
    else if lens[t] < lens[s] { OffsetMonotone(lens, lens[t] + 1, lens[s]); }
    else { RankIncreases(lens, s, t); }
  }

  lemma {:induction false} CodedCount(lens: seq<nat>, n: nat)
    requires n <= |lens|
    ensures Offset(lens[..n], MAX_BITS + 1) <= n
    decreases n
  {
    if n == 0 {
      NoneOffset(lens[..0], MAX_BITS + 1);
    } else {
      CodedCount(lens, n - 1);
      OffsetNext(lens, n - 1, MAX_BITS + 1);
    }
  }

  lemma {:induction false} NoneOffset(lens: seq<nat>, l: nat)
    requires |lens| == 0 && l <= MAX_BITS + 1
    ensures Offset(lens, l) == 0
  {
    if l > 1 { NoneOffset(lens, l - 1); }
  }

  lemma {:induction false} OffsetNext(lens: seq<nat>, n: nat, l: nat)
    requires n < |lens| && l <= MAX_BITS + 1
    ensures Offset(lens[..n + 1], l) == Offset(lens[..n], l) + if 1 <= lens[n] < l then 1 else 0
  {
    hide Count;
    if l > 1 {
      OffsetNext(lens, n, l - 1);
      CountNext(lens, n, l - 1);
    }
  }

  ghost predicate Sorted(lens: seq<nat>, work: seq<nat>, n: nat)
  {
    && Offset(lens, MAX_BITS + 1) <= |work|
    && forall s: nat :: Coded(lens, s) && s < n ==> Place(lens, s) < |work| && work[Place(lens, s)] == s
  }

  /** The source's counting sort of the symbols by length. */
  method SortSymbols(lens: seq<nat>, count: array<nat>) returns (work: array<nat>)
    requires ValidLengths(lens) && count.Length == MAX_BITS + 1
    requires forall b :: 1 <= b <= MAX_BITS ==> count[b] == Count(lens, b)
    ensures fresh(work) && Sorted(lens, work[..], |lens|)
  {
    hide Count, Offset;
    var offs := Offsets(lens, count);
    work := new nat[|lens|](_ => 0);
    CodedCount(lens, |lens|);
    assert lens[..|lens|] == lens;
    NoCounts(lens);
    for sym := 0 to |lens|
      invariant fresh(offs) && fresh(work) && work != offs
      invariant Sorted(lens, work[..], sym)
      invariant forall l :: 1 <= l <= MAX_BITS ==> offs[l] == Offset(lens, l) + Count(lens[..sym], l)
    {
      PrefixCounts(lens, sym);
      if lens[sym] != 0 {
        ghost var before := work[..];
        PlaceBounds(lens, sym);
        work[offs[lens[sym]]] := sym;
        assert work[..] == before[Place(lens, sym) := sym];
        SortedNext(lens, before, sym);
        offs[lens[sym]] := offs[lens[sym]] + 1;
      }
    }
  }

  lemma SortedNext(lens: seq<nat>, work: seq<nat>, sym: nat)
    requires Sorted(lens, work, sym) && Coded(lens, sym) && Place(lens, sym) < |work|
    ensures Sorted(lens, work[Place(lens, sym) := sym], sym + 1)
  {
    hide Place, Offset;
    forall s: nat | Coded(lens, s) && s < sym ensures Place(lens, s) != Place(lens, sym) {
      PlacesDiffer(lens, s, sym);
    }
  }

  method Offsets(lens: seq<nat>, count: array<nat>) returns (offs: array<nat>)
    requires count.Length == MAX_BITS + 1
    requires forall b :: 1 <= b <= MAX_BITS ==> count[b] == Count(lens, b)
    ensures fresh(offs) && offs.Length == MAX_BITS + 1
    ensures forall l :: 1 <= l <= MAX_BITS ==> offs[l] == Offset(lens, l)
  {
    hide Count;
    offs := new nat[MAX_BITS + 1];
    offs[1] := 0;
    for len := 1 to MAX_BITS
      invariant forall l :: 1 <= l <= len ==> offs[l] == Offset(lens, l)
    {
      offs[len + 1] := offs[len] + count[len];
    }
  }

  // ----- From one symbol to the next -----

  lemma {:induction false} NextLength(lens: seq<nat>, l: nat) returns (m: nat)
    requires l <= MAX_BITS && Offset(lens, l + 1) < Offset(lens, MAX_BITS + 1)
    ensures l < m <= MAX_BITS && Count(lens, m) > 0 && forall b :: l < b < m ==> Count(lens, b) == 0
    ensures Offset(lens, m) == Offset(lens, l + 1) && Below(lens, m) == Below(lens, l + 1)
    decreases MAX_BITS - l
  {
    hide Count, Width;
    if l == MAX_BITS {
      assert false;
      m := l;
    } else if Count(lens, l + 1) > 0 {
      m := l + 1;
    } else {
      NoneOfLength(lens, l + 1);
      m := NextLength(lens, l + 1);
    }
  }

  lemma NoneOfLength(lens: seq<nat>, b: nat)
    requires b <= MAX_BITS && Count(lens, b) == 0
    ensures Offset(lens, b + 1) == Offset(lens, b) && Below(lens, b + 1) == Below(lens, b)
  {
    hide Count, Width;
    if b == 0 { assert Offset(lens, 1) == Offset(lens, 0) && Below(lens, 1) == Below(lens, 0); }
  }

  /** The symbol at the next place: its interval follows immediately. */
  lemma NextSymbol(lens: seq<nat>, s: nat) returns (t: nat)
    requires Coded(lens, s) && Place(lens, s) + 1 < Offset(lens, MAX_BITS + 1)
    ensures Coded(lens, t) && Place(lens, t) == Place(lens, s) + 1 && lens[s] <= lens[t]
    ensures Start(lens, t) == Start(lens, s) + Width(lens[s])
    ensures lens[s] == lens[t] <==> Rank(lens, s) + 1 < Count(lens, lens[s])
    ensures lens[s] < lens[t] ==> Rank(lens, s) + 1 == Count(lens, lens[s]) && Rank(lens, t) == 0
    ensures lens[s] == lens[t] ==> Rank(lens, t) == Rank(lens, s) + 1
    ensures forall b :: lens[s] < b < lens[t] ==> Count(lens, b) == 0
  {
    hide Count, Width, Below, Offset, Rank;
    var l := lens[s];
    RankBelowCount(lens, s);
    UnfoldLength(lens, l);
    if Rank(lens, s) + 1 < Count(lens, l) {
      t := SymbolOfRank(lens, l, Rank(lens, s) + 1);
      OneMoreTimes(Rank(lens, s), Width(l));
    } else {
      var m := NextLength(lens, l);
      t := SymbolOfRank(lens, m, 0);
      OneMoreTimes(Rank(lens, s), Width(l));
      NoTimes(Width(m));
    }
  }

  lemma UnfoldLength(lens: seq<nat>, l: nat)
    requires 1 <= l <= MAX_BITS
    ensures Offset(lens, l + 1) == Offset(lens, l) + Count(lens, l)
    ensures Below(lens, l + 1) == Below(lens, l) + Count(lens, l) * Width(l)
  {
  }

  lemma NoTimes(w: nat)
    ensures 0 * w == 0
  {
  }

  /** The last symbol's interval ends the code. */
  lemma LastSymbol(lens: seq<nat>, s: nat)
    requires Coded(lens, s) && Place(lens, s) + 1 == Offset(lens, MAX_BITS + 1)
    ensures Start(lens, s) + Width(lens[s]) == Total(lens)
    ensures Rank(lens, s) + 1 == Count(lens, lens[s])
  {
    hide Count, Width, Below, Offset, Rank;
    var l := lens[s];
    RankBelowCount(lens, s);
    UnfoldLength(lens, l);
    OffsetMonotone(lens, l + 1, MAX_BITS + 1);
    OneMoreTimes(Rank(lens, s), Width(l));
    SameBelow(lens, l + 1, MAX_BITS + 1);
  }

  lemma {:induction false} SameBelow(lens: seq<nat>, a: nat, b: nat)
    requires a <= b <= MAX_BITS + 1 && Offset(lens, a) == Offset(lens, b)
    ensures Below(lens, a) == Below(lens, b)
  {
    hide Count, Width;
    if a < b {
      OffsetMonotone(lens, a, b - 1);
      OffsetMonotone(lens, b - 1, b);
      if b > 1 { NoTimes(Width(b - 1)); }
      SameBelow(lens, a, b - 1);
    }
  }

  /** The reversed code of the next symbol is one more, carried from the top. */
  lemma NextHuff(lens: seq<nat>, s: nat, t: nat)
    requires Coded(lens, s) && Coded(lens, t) && Total(lens) <= Pow2(MAX_BITS) && lens[s] <= lens[t]
    requires Start(lens, t) == Start(lens, s) + Width(lens[s])
    ensures Carry(Reverse(Code(lens, s), lens[s]), lens[s]) == Reverse(Code(lens, t), lens[t])
    ensures Code(lens, t) == (Code(lens, s) + 1) * Pow2(lens[t] - lens[s])
  {
    hide Code, Start, Width, Reverse, Carry, Pow2, Total;
    var l, n, c := lens[s], lens[t] - lens[s], Code(lens, s);
    StartIsCode(lens, s);
    StartIsCode(lens, t);
    CodesFit(lens, t);
    WidthProduct(l, n);
    WidthWhole(l);
    NextProducts(c, Code(lens, t), Pow2(n), Width(l), Width(lens[t]), Pow2(l));
    ReverseSuccessor(c, l);
    ReverseSplit(c + 1, 0, l, n);
    ReverseZero(n);
  }

  lemma NextProducts(c: nat, d: nat, p: nat, wide: nat, narrow: nat, limit: nat)
    requires wide == p * narrow && narrow >= 1 && p >= 1
    requires d * narrow == c * wide + wide && d * narrow + narrow <= limit * wide
    ensures d == (c + 1) * p && c + 1 < limit
  {
    NestedProduct(0, c + 1, p, narrow);
    assert (c + 1) * wide == c * wide + wide;
    assert ((c + 1) * p) * narrow == (c + 1) * (p * narrow);
    SameFactor(d, (c + 1) * p, narrow);
    FitsBelow(c + 1, limit, wide);
  }

  lemma SameFactor(a: nat, b: nat, w: nat)
    requires w >= 1 && a * w == b * w
    ensures a == b
  {
    MulBound(a, b, w);
    MulBound(b, a, w);
  }

  lemma {:induction false} ReverseZero(n: nat)
    ensures Reverse(0, n) == 0
  {
    if n > 0 { ReverseZero(n - 1); }
  }

  // ----- Checking the lengths -----

  method CountLengths(lens: seq<nat>) returns (count: array<nat>)
    requires ValidLengths(lens)
    ensures fresh(count) && count.Length == MAX_BITS + 1
    ensures forall b :: 0 <= b <= MAX_BITS ==> count[b] == Count(lens, b)
  {
    hide Count;
    count := new nat[MAX_BITS + 1](_ => 0);
    NoCounts(lens);
    for sym := 0 to |lens|
      invariant fresh(count)
      invariant forall b :: 0 <= b <= MAX_BITS ==> count[b] == Count(lens[..sym], b)
    {
      PrefixCounts(lens, sym);
      count[lens[sym]] := count[lens[sym]] + 1;
    }
    assert lens[..|lens|] == lens;
  }

  lemma LeftStep(left: int, count: nat, wide: nat, narrow: nat, below: int, whole: int)
    requires wide == 2 * narrow && left * wide == whole - below
    ensures (2 * left - count) * narrow == whole - (below + count * narrow)
  {
    assert (2 * left - count) * narrow == left * (2 * narrow) - count * narrow;
  }

  lemma LeftSign(left: int, w: nat)
    requires w >= 1
    ensures left < 0 <==> left * w < 0
  {
    if left < 0 { MulBound(left, 0, w); } else { assert left * w >= 0; }
  }

  /** The source's check of the code lengths; None when they are over-subscribed. */
  method CodesLeft(lens: seq<nat>, count: array<nat>) returns (r: Option<nat>)
    requires count.Length == MAX_BITS + 1 && forall b :: 1 <= b <= MAX_BITS ==> count[b] == Count(lens, b)
    ensures r.Some? <==> Total(lens) <= Pow2(MAX_BITS)
    ensures r.Some? ==> r.value == Pow2(MAX_BITS) - Total(lens)
  {
    hide Count, Width, Pow2;
    var left := 1;
    WidthEnds();
    for len := 1 to MAX_BITS + 1
      invariant left >= 0 && left * Width(len - 1) == Pow2(MAX_BITS) - Below(lens, len)
    {
      WidthHalves(len);
      LeftStep(left, count[len], Width(len - 1), Width(len), Below(lens, len), Pow2(MAX_BITS));
      left := 2 * left - count[len];
      LeftSign(left, Width(len));
      if left < 0 {
        BelowMonotone(lens, len + 1, MAX_BITS + 1);
        return None;
      }
    }
    r := Some(left);
  }

  lemma WidthEnds()
    ensures Width(0) == Pow2(MAX_BITS) && Width(MAX_BITS) == 1
  {
  }

  /** The greatest and the least length in use; 0 if none is. */
  method LengthRange(count: array<nat>) returns (min: nat, max: nat)
    requires count.Length == MAX_BITS + 1
    ensures max <= MAX_BITS && (forall b :: max < b <= MAX_BITS ==> count[b] == 0) && (max > 0 ==> count[max] != 0)
    ensures max > 0 ==> 1 <= min <= max && count[min] != 0 && forall b :: 1 <= b < min ==> count[b] == 0
  {
    max := MAX_BITS;
    while 1 <= max && count[max] == 0
      invariant max <= MAX_BITS && forall b :: max < b <= MAX_BITS ==> count[b] == 0
    {
      max := max - 1;
    }
    min := 1;
    while min < max && count[min] == 0
      invariant 1 <= min <= MAX_BITS && (max > 0 ==> min <= max) && forall b :: 1 <= b < min ==> count[b] == 0
    {
      min := min + 1;
    }
  }

  // ----- The loop -----

  /** The loop variables of the source. */
  datatype Walk = Walk(sym: nat, len: nat, huff: nat, next: nat, curr: nat, drop: nat, low: int, used: nat)

  /** The loop is at symbol s, and the counts are those of the symbols not yet placed. */
  ghost predicate AtSymbol(lens: seq<nat>, count: seq<nat>, w: Walk, s: nat)
  {
    && Coded(lens, s) && lens[s] == w.len && Place(lens, s) == w.sym && |count| == MAX_BITS + 1
    && w.huff == Reverse(Code(lens, s), w.len)
    && forall b :: 1 <= b <= MAX_BITS ==>
      count[b] == if b < w.len then 0 else if b == w.len then Count(lens, b) - Rank(lens, s) else Count(lens, b)
  }

  /** Codes of root cell `cur` are no longer than its table allows. */
  ghost predicate Roomy(lens: seq<nat>, root: nat, cur: nat, curr: nat, max: nat)
    requires root + curr <= MAX_BITS
  {
    root + curr == max || (root + curr < max && Below(lens, root + curr + 1) >= cur * Width(root) + Width(root))
  }

  /** The tables as they are when the loop comes to position p of the code space. */
  ghost predicate Tables(kind: Kind, lens: seq<nat>, table: seq<Entry>, root: nat, max: nat, w: Walk, cur: nat, p: nat)
    requires 1 <= root <= MAX_BITS && |lens| <= Symbols(kind)
  {
    && Decoded(kind, lens, table, root, p)
    && Layered(table, root, p, cur, w.next, w.used)
    && if w.drop == 0 then
         w.next == 0 && w.curr == root && w.low == -1 && w.used == Pow2(root) && cur == Pow2(root)
       else
         && w.drop == root && HasTable(table, root, cur, w.next, w.curr, w.used)
         && w.low == Reverse(cur, root) && root + w.curr <= MAX_BITS && Roomy(lens, root, cur, w.curr, max)
  }

  /** In the root table all codes are short; behind it they belong to the current root cell. */
  ghost predicate Fitting(lens: seq<nat>, root: nat, max: nat, w: Walk, cur: nat, s: nat)
    requires 1 <= root <= MAX_BITS && Coded(lens, s)
  {
    && w.len <= max <= MAX_BITS
    && if w.drop == 0 then w.len <= root
       else w.len > root && Top(Start(lens, s), root) == cur
  }

  /** The cells whose offset ends with the given low part. */
  predicate InClass(offset: int, step: nat, first: nat)
    requires step >= 1
  {
    offset % step == first
  }

  /** The class of `first` is filled from offset `from` on. */
  ghost predicate Filled(was: seq<Entry>, now: seq<Entry>, base: nat, first: nat, step: nat, size: nat, from: nat,
      e: Entry)
    requires step >= 1
  {
    && |now| == |was|
    && forall i :: 0 <= i < |was| ==>
      now[i] == if base + from <= i < base + size && InClass(i - base, step, first) then e else was[i]
  }

  lemma FilledNext(was: seq<Entry>, now: seq<Entry>, base: nat, first: nat, step: nat, size: nat, k: nat, from: nat,
      e: Entry)
    requires first < step && from == k * step && base + from + step <= base + size <= |was|
    requires Filled(was, now, base, first, step, size, from + step, e)
    ensures Filled(was, now[base + first + from := e], base, first, step, size, from, e)
  {
    hide InClass;
    forall x | from <= x < from + step ensures InClass(x, step, first) <==> x == from + first {
      OneInStep(x, k, step, first);
    }
  }

  lemma OneInStep(x: nat, k: nat, step: nat, first: nat)
    requires first < step && k * step <= x < k * step + step
    ensures InClass(x, step, first) <==> x == k * step + first
  {
    RestIs(k, x - k * step, step);
  }

  lemma Multiples(k: nat, step: nat)
    requires step >= 1
    ensures k * step == 0 <==> k == 0
  {
  }

  /** Writes an entry to every `step`-th cell of a table, from the last to the first. */
  method Fill(table: array<Entry>, base: nat, first: nat, step: nat, size: nat, e: Entry, ghost times: nat)
    requires 1 <= step && size == times * step && times >= 1 && first < step && base + size <= table.Length
    modifies table
    ensures Filled(old(table[..]), table[..], base, first, step, size, 0, e)
  {
    hide Filled, InClass;
    var fill: nat := size;
    ghost var k: nat := times;
    NothingFilled(table[..], base, first, step, size, e);
    while fill != 0
      invariant fill == k * step && k <= times && fill <= size
      invariant Filled(old(table[..]), table[..], base, first, step, size, fill, e)
      decreases k
    {
      ghost var now := table[..];
      Multiples(k, step);
      OneMoreTimes(k - 1, step);
      fill := fill - step;
      k := k - 1;
      FilledNext(old(table[..]), now, base, first, step, size, k, fill, e);
      table[base + first + fill] := e;
      assert table[..] == now[base + first + fill := e];
    }
    Multiples(k, step);
  }

  lemma NothingFilled(table: seq<Entry>, base: nat, first: nat, step: nat, size: nat, e: Entry)
    requires step >= 1
    ensures Filled(table, table, base, first, step, size, size, e)
  {
  }

  /** The source's backward increment of huff. */
  method Advance(huff: nat, len: nat) returns (r: nat)
    requires len >= 1 && huff < Pow2(len)
    ensures r == Carry(huff, len)
  {
    hide Pow2, Carry;
    ghost var k: nat := len;
    var incr := Pow2(len - 1);
    ghost var rest: nat := huff;
    AtTop(huff, len);
    while incr != 0 && huff / incr % 2 == 1
      invariant 0 <= k <= len && incr == (if k == 0 then 0 else Pow2(k - 1))
      invariant rest < Pow2(k) && (k > 0 ==> rest == huff % (2 * Pow2(k - 1)))
      invariant Carry(huff, len) == Carry(rest, k)
      decreases k
    {
      BitSet(huff, Pow2(k - 1), rest);
      CarryStep(rest - Pow2(k - 1), k);
      HalfPower(k - 1);
      rest := rest - Pow2(k - 1);
      k := k - 1;
      incr := incr / 2;
    }
    if incr != 0 {
      BitSet(huff, Pow2(k - 1), rest);
      CarryStep(rest, k);
      r := huff % incr + incr;
    } else {
      NothingCarried(rest);
      r := 0;
    }
  }

  lemma AtTop(huff: nat, len: nat)
    requires len >= 1 && huff < Pow2(len)
    ensures Pow2(len) == 2 * Pow2(len - 1) && huff == huff % (2 * Pow2(len - 1))
  {
    hide Pow2;
    Pow2Twice(len - 1);
    RestIs(0, huff, Pow2(len));
  }

  /** The bit at p of the number is the top bit of its low part. */
  lemma BitSet(huff: nat, p: nat, rest: nat)
    requires p >= 1 && rest == huff % (2 * p)
    ensures huff / p % 2 == 1 <==> rest >= p
    ensures huff % p == if rest >= p then rest - p else rest
  {
    var q := huff / (2 * p);
    DivMod(huff, 2 * p);
    TwiceProduct(q, p);
    if rest >= p {
      RestIs(2 * q + 1, rest - p, p);
    } else {
      RestIs(2 * q, rest, p);
    }
  }

  lemma TwiceProduct(q: nat, p: nat)
    ensures q * (2 * p) == 2 * q * p && (2 * q + 1) * p == 2 * q * p + p
  {
  }

  lemma HalfPower(j: nat)
    ensures Pow2(j) / 2 == if j == 0 then 0 else Pow2(j - 1)
    ensures j > 0 ==> Pow2(j) == 2 * Pow2(j - 1)
    ensures Pow2(j + 1) == 2 * Pow2(j) && Pow2(0) == 1
  {
  }

  lemma NothingCarried(rest: nat)
    ensures Carry(rest, 0) == 0
  {
  }

  // ----- Writing the entries of one symbol -----

  lemma FitsTable(lens: seq<nat>, s: nat, root: nat, cur: nat, curr: nat, max: nat)
    requires Coded(lens, s) && 1 <= root && root + curr <= MAX_BITS && Roomy(lens, root, cur, curr, max)
    requires Top(Start(lens, s), root) == cur && lens[s] <= max
    ensures lens[s] <= root + curr
  {
    hide Top, Start, Width, Below;
    TopBounds(Start(lens, s), root);
    StartBounds(lens, s);
    if lens[s] > root + curr { BelowMonotone(lens, root + curr + 1, lens[s]); }
  }

  /** The code of a long symbol: the root cell's bits, then the rest. */
  lemma CodeSplits(lens: seq<nat>, s: nat, root: nat, m: nat) returns (c: nat)
    requires Coded(lens, s) && lens[s] == root + m && Total(lens) <= Pow2(MAX_BITS)
    ensures c < Pow2(m) && Code(lens, s) == Top(Start(lens, s), root) * Pow2(m) + c
    ensures Top(Start(lens, s), root) < Pow2(root)
  {
    hide Top, Middle, Start, Width, Code, Pow2, Total;
    var p := Start(lens, s);
    OwnedIsTop(lens, s, p);
    TopSplits(p, root, m);
    c := Middle(p, root, m);
    CodesFit(lens, s);
    TopSmall(p, root);
  }

  lemma FilledIsRoot(was: seq<Entry>, now: seq<Entry>, root: nat, len: nat, c: nat, e: Entry)
    requires Filled(was, now, 0, Reverse(c, len), Pow2(len), Pow2(root), 0, e)
    ensures FilledRoot(was, now, root, len, c, e)
  {
    hide Reverse, Pow2;
  }

  lemma FilledIsSub(was: seq<Entry>, now: seq<Entry>, next: nat, curr: nat, m: nat, c: nat, e: Entry)
    requires next + Pow2(curr) <= |was| && Filled(was, now, next, Reverse(c, m), Pow2(m), Pow2(curr), 0, e)
    ensures FilledSub(was, now, next, curr, m, c, e)
  {
    hide Reverse, Pow2;
  }

  method WriteShort(kind: Kind, table: array<Entry>, root: nat, w: Walk, sym: nat, ghost lens: seq<nat>,
      ghost max: nat, ghost count: seq<nat>)
    requires 1 <= root <= MAX_BITS && |lens| <= Symbols(kind) && Total(lens) <= Pow2(MAX_BITS)
    requires AtSymbol(lens, count, w, sym) && w.drop == 0 && Fitting(lens, root, max, w, Pow2(root), sym)
    requires Tables(kind, lens, table[..], root, max, w, Pow2(root), Start(lens, sym))
    modifies table
    ensures Tables(kind, lens, table[..], root, max, w, Pow2(root), Start(lens, sym) + Width(w.len))
  {
    hide Decoded, Filled, Pow2, SymbolEntry, Reverse, Code, Start, Width, Total, Place, Rank, CellLayered;
    ghost var was := table[..];
    CodesFit(lens, sym);
    ReverseBound(Code(lens, sym), w.len);
    Pow2Add(root - w.len, w.len);
    Fill(table, w.next, w.huff, Pow2(w.len), Pow2(w.curr), SymbolEntry(kind, sym, w.len), Pow2(root - w.len));
    FilledIsRoot(was, table[..], root, w.len, Code(lens, sym), SymbolEntry(kind, sym, w.len));
    PlaceRoot(kind, lens, sym, was, table[..], root);
  }

  method WriteLong(kind: Kind, table: array<Entry>, root: nat, w: Walk, sym: nat, ghost lens: seq<nat>,
      ghost max: nat, ghost count: seq<nat>, ghost cur: nat)
    requires 1 <= root <= MAX_BITS && |lens| <= Symbols(kind) && Total(lens) <= Pow2(MAX_BITS)
    requires AtSymbol(lens, count, w, sym) && w.drop == root && Fitting(lens, root, max, w, cur, sym)
    requires Tables(kind, lens, table[..], root, max, w, cur, Start(lens, sym))
    modifies table
    ensures Tables(kind, lens, table[..], root, max, w, cur, Start(lens, sym) + Width(w.len))
  {
    hide Decoded, Filled, Pow2, SymbolEntry, Reverse, Code, Start, Width, Total, Place, Rank, CellLayered, Top, Roomy;
    ghost var was, m := table[..], w.len - root;
    FitsTable(lens, sym, root, cur, w.curr, max);
    ghost var c := CodeSplits(lens, sym, root, m);
    CodeCells(cur, c, root, m);
    ReverseBound(c, m);
    Pow2Add(w.curr - m, m);
    Fill(table, w.next, w.huff / Pow2(root), Pow2(w.len - root), Pow2(w.curr), SymbolEntry(kind, sym, w.len - root),
      Pow2(w.curr - m));
    FilledIsSub(was, table[..], w.next, w.curr, m, c, SymbolEntry(kind, sym, m));
    PlaceSub(kind, lens, sym, was, table[..], root, cur, w.next, w.curr, w.used, m, c);
  }

  // ----- The size of a second-level table -----

  /** The code space that the symbols from t on with lengths below b take. */
  ghost function Ahead(lens: seq<nat>, t: nat, b: nat): int
    requires Coded(lens, t) && b <= MAX_BITS + 1
  {
    if b <= lens[t] then 0 else Below(lens, b) - Start(lens, t)
  }

  lemma AheadNext(lens: seq<nat>, count: seq<nat>, w: Walk, t: nat, b: nat)
    requires AtSymbol(lens, count, w, t) && lens[t] <= b <= MAX_BITS
    ensures Ahead(lens, t, b + 1) == Ahead(lens, t, b) + count[b] * Width(b)
  {
    hide Width, Count, Rank, Code, Reverse, Place;
    if b == lens[t] {
      Difference(Count(lens, b), Rank(lens, t), Width(b));
    }
  }

  lemma Difference(a: int, b: int, w: nat)
    ensures (a - b) * w == a * w - b * w
  {
  }

  /** How many more bits the second-level table for the codes from t on needs. */
  method ChooseSize(count: array<nat>, root: nat, max: nat, w: Walk, ghost lens: seq<nat>, ghost t: nat, ghost q: nat)
    returns (curr: nat)
    requires count.Length == MAX_BITS + 1 && AtSymbol(lens, count[..], w, t)
    requires 1 <= root < w.len <= max <= MAX_BITS && Start(lens, t) == q * Width(root) && EndsAt(lens, max)
    ensures 1 <= curr && w.len <= root + curr <= max && Roomy(lens, root, q, curr, max)
    ensures curr == SubBits(lens, root, q, 1)
  {
    hide Width, Start, Below, Ahead, Pow2, Covered, Total, SubBits, EndsAt;
    curr := w.len - root;
    var left: int := Pow2(curr);
    WidthProduct(root, curr);
    NothingAhead(lens, t);
    forall c: nat | 1 <= c < curr ensures !Covered(lens, root, q, c) {
      NotCoveredBefore(lens, root, q, t, c);
    }
    while root + curr < max
      invariant 1 <= curr && w.len <= root + curr <= max && left >= 1
      invariant left * Width(root + curr) == Width(root) - Ahead(lens, t, root + curr)
      invariant forall c: nat :: 1 <= c < curr ==> !Covered(lens, root, q, c)
    {
      AheadNext(lens, count[..], w, t, root + curr);
      Difference(left, count[root + curr], Width(root + curr));
      left := left - count[root + curr];
      if left <= 0 {
        EnoughAhead(lens, t, root, q, curr, left);
        SubBitsIs(lens, root, q, 1, curr);
        return;
      }
      NotEnoughAhead(lens, t, root, q, curr, left, max);
      WidthHalves(root + curr + 1);
      TwiceTimes(left, Width(root + curr + 1));
      curr := curr + 1;
      left := 2 * left;
    }
    LongestCovers(lens, root, q, curr, max);
    SubBitsIs(lens, root, q, 1, curr);
  }

  lemma NotEnoughAhead(lens: seq<nat>, t: nat, root: nat, q: nat, curr: nat, left: int, max: nat)
    requires EndsAt(lens, max) && Coded(lens, t) && lens[t] <= root + curr < max && root <= MAX_BITS
    requires Start(lens, t) == q * Width(root)
    requires left > 0 && left * Width(root + curr) == Width(root) - Ahead(lens, t, root + curr + 1)
    ensures !Covered(lens, root, q, curr)
  {
    hide Width, Start, Below, Count;
    MulBound(0, left, Width(root + curr));
    BelowMonotone(lens, root + curr + 1, max);
    UnfoldLength(lens, max);
    MulBound(0, Count(lens, max), Width(max));
    BelowMonotone(lens, max + 1, MAX_BITS + 1);
  }

  lemma LongestCovers(lens: seq<nat>, root: nat, q: nat, curr: nat, max: nat)
    requires root + curr == max && EndsAt(lens, max)
    ensures Covered(lens, root, q, curr)
  {
    hide Width, Below, Count;
    BelowEnds(lens, max, MAX_BITS + 1);
  }

  lemma {:induction false} BelowEnds(lens: seq<nat>, max: nat, l: nat)
    requires EndsAt(lens, max) && max < l <= MAX_BITS + 1
    ensures Below(lens, l) == Below(lens, max + 1)
  {
    hide Count, Width;
    if l > max + 1 {
      BelowEnds(lens, max, l - 1);
      UnfoldLength(lens, l - 1);
      NoTimes(Width(l - 1));
    }
  }

  lemma TwiceTimes(a: int, w: nat)
    ensures a * (2 * w) == 2 * a * w
  {
  }

  lemma NothingAhead(lens: seq<nat>, t: nat)
    requires Coded(lens, t)
    ensures Ahead(lens, t, lens[t]) == 0
  {
  }

  lemma EnoughAhead(lens: seq<nat>, t: nat, root: nat, q: nat, curr: nat, left: int)
    requires Coded(lens, t) && lens[t] <= root + curr < MAX_BITS && Start(lens, t) == q * Width(root)
    requires left <= 0 && left * Width(root + curr) == Width(root) - Ahead(lens, t, root + curr + 1)
    ensures Below(lens, root + curr + 1) >= q * Width(root) + Width(root) && Covered(lens, root, q, curr)
  {
    hide Width, Start, Below, Total;
    MulBound(left, 1, Width(root + curr));
  }

  // ----- The main loop -----

  const ENOUGH_LENS: nat := 852
  const ENOUGH_DISTS: nat := 592

  /** The table has room for all the entries needed, or for as many as the source's check lets through. */
  predicate TableFits(kind: Kind, lens: seq<nat>, root: nat, length: nat)
    requires root <= MAX_BITS
  {
    || Entries(lens, root) <= length
    || (kind == LENS && ENOUGH_LENS <= length) || (kind == DISTS && ENOUGH_DISTS <= length)
  }

  predicate TooMany(kind: Kind, used: nat)
  {
    (kind == LENS && used > ENOUGH_LENS) || (kind == DISTS && used > ENOUGH_DISTS)
  }

  /** After a short code the next root cell is untouched. */
  lemma AlignedAfterShort(lens: seq<nat>, s: nat, t: nat, root: nat)
    requires Coded(lens, s) && Coded(lens, t) && lens[s] <= root <= MAX_BITS
    requires Start(lens, t) == Start(lens, s) + Width(lens[s])
    ensures Start(lens, t) == Top(Start(lens, t), root) * Width(root)
  {
    hide Top, Start, Width, Code, Pow2;
    var c, n := Code(lens, s), root - lens[s];
    StartIsCode(lens, s);
    WidthProduct(lens[s], n);
    OneMoreTimes(c, Width(lens[s]));
    NestedProduct(0, c + 1, Pow2(n), Width(root));
    ScaledUp(c + 1, Pow2(n), Width(root));
    TopIs(Start(lens, t), root, (c + 1) * Pow2(n));
  }

  lemma ScaledUp(a: nat, p: nat, w: nat)
    ensures a * (p * w) == a * p * w
  {
  }

  /** After a long code the next root cell is untouched, if it is another one. */
  lemma AlignedAfterLong(lens: seq<nat>, s: nat, t: nat, root: nat, cur: nat)
    requires Coded(lens, s) && Coded(lens, t) && 1 <= root < lens[s] && Total(lens) <= Pow2(MAX_BITS)
    requires Start(lens, t) == Start(lens, s) + Width(lens[s])
    requires Top(Start(lens, s), root) == cur && Top(Start(lens, t), root) != cur
    ensures Start(lens, t) == Top(Start(lens, t), root) * Width(root) && Top(Start(lens, t), root) == cur + 1
  {
    hide Top, Start, Width, Code, Pow2, Total;
    var m, q, width := lens[s] - root, Top(Start(lens, t), root), Width(lens[s]);
    var c := CodeSplits(lens, s, root, m);
    StartIsCode(lens, s);
    WidthProduct(root, m);
    NestedProduct(cur, c, Pow2(m), width);
    MulBound(c, Pow2(m), width);
    TopBounds(Start(lens, t), root);
    TopMonotone(Start(lens, s), Start(lens, t), root);
    MulBound(cur, q, Width(root));
    OneMoreTimes(cur, Width(root));
    TopIs(Start(lens, t), root, cur + 1);
  }

  /** The low bits of huff name the root cell of the symbol. */
  lemma RootOfHuff(lens: seq<nat>, count: seq<nat>, w: Walk, t: nat, root: nat)
    requires AtSymbol(lens, count, w, t) && Total(lens) <= Pow2(MAX_BITS) && 1 <= root < w.len
    ensures Top(Start(lens, t), root) < Pow2(root)
    ensures w.huff % Pow2(root) == Reverse(Top(Start(lens, t), root), root)
  {
    hide Top, Start, Width, Code, Pow2, Total, Place, Rank, Reverse;
    var m := w.len - root;
    var c := CodeSplits(lens, t, root, m);
    CodeCells(Top(Start(lens, t), root), c, root, m);
  }

  /** The entries in use are those needed for the root cells up to `cur`, and not too many. */
  ghost predicate Sized(kind: Kind, lens: seq<nat>, root: nat, w: Walk, cur: nat)
    requires root <= MAX_BITS
  {
    && w.used == (if w.drop == 0 then Pow2(root) else Needed(lens, root, cur + 1))
    && (w.drop != 0 ==> cur < Pow2(root)) && !TooMany(kind, w.used)
  }

  /** Opens the second-level table for the root cell of the symbol t; fails if there is no room. */
  method OpenNext(kind: Kind, table: array<Entry>, count: array<nat>, root: nat, max: nat, w: Walk,
      ghost lens: seq<nat>, ghost t: nat, ghost cur: nat)
    returns (ok: bool, v: Walk)
    requires 1 <= root <= MAX_BITS && |lens| <= Symbols(kind) && Total(lens) <= Pow2(MAX_BITS) && kind != CODES
    requires TableFits(kind, lens, root, table.Length) && count.Length == MAX_BITS + 1
    requires AtSymbol(lens, count[..], w, t) && root < w.len <= max <= MAX_BITS
    requires Start(lens, t) == Top(Start(lens, t), root) * Width(root)
    requires Tables(kind, lens, table[..], root, max, w, cur, Start(lens, t)) && EndsAt(lens, max)
    requires w.used == Needed(lens, root, Top(Start(lens, t), root))
    modifies table
    ensures count[..] == old(count[..])
    ensures ok ==> Sized(kind, lens, root, v, Top(Start(lens, t), root))
    ensures !ok ==> TooMany(kind, Entries(lens, root))
    ensures ok ==> AtSymbol(lens, count[..], v, t) && v.drop == root
    ensures ok ==> v.len == w.len && v.sym == w.sym && v.huff == w.huff
    ensures ok ==> Tables(kind, lens, table[..], root, max, v, Top(Start(lens, t), root), Start(lens, t))
  {
    hide Decoded, Layered, Pow2, Reverse, Code, Start, Width, Total, Place, Rank, Top, Roomy, Count, EndsAt, Needed,
      SubBits;
    ghost var q, was := Top(Start(lens, t), root), table[..];
    RootOfHuff(lens, count[..], w, t, root);
    ReverseBound(q, root);
    UsedIsNext(kind, lens, table[..], root, max, w, cur, Start(lens, t));
    var next := w.next + Pow2(w.curr);
    var curr := ChooseSize(count, root, max, w, lens, t, q);
    var used := w.used + Pow2(curr);
    NextTable(lens, root, q, t);
    NeededGrows(lens, root, q + 1, Pow2(root));
    if TooMany(kind, used) {
      return false, w;
    }
    var low := w.huff % Pow2(root);
    table[low] := Entry(root, curr, next);
    assert table[..] == was[low := Entry(root, curr, next)];
    OpenTable(kind, lens, was, table[..], root, Start(lens, t), cur, w.next, w.used, q, curr);
    ok, v := true, w.(next := next, curr := curr, drop := root, low := low, used := used);
  }

  lemma UsedIsNext(kind: Kind, lens: seq<nat>, table: seq<Entry>, root: nat, max: nat, w: Walk, cur: nat, p: nat)
    requires 1 <= root <= MAX_BITS && |lens| <= Symbols(kind) && Tables(kind, lens, table, root, max, w, cur, p)
    ensures w.used == w.next + Pow2(w.curr) && w.next <= w.used && Pow2(root) <= w.used && Pow2(root) <= |table|
  {
    hide Decoded, Pow2, Reverse, Roomy, CellLayered;
  }

  /** Everything that holds at the head of the main loop. */
  ghost predicate Looping(kind: Kind, lens: seq<nat>, table: seq<Entry>, count: seq<nat>, work: seq<nat>, root: nat,
      max: nat, w: Walk, s: nat, cur: nat)
    requires 1 <= root <= MAX_BITS && |lens| <= Symbols(kind)
  {
    && AtSymbol(lens, count, w, s) && Tables(kind, lens, table, root, max, w, cur, Start(lens, s))
    && Fitting(lens, root, max, w, cur, s) && Sorted(lens, work, |lens|)
  }

  /** The counts end at max. */
  ghost predicate EndsAt(lens: seq<nat>, max: nat)
  {
    1 <= max <= MAX_BITS && Count(lens, max) > 0 && forall b :: max < b <= MAX_BITS ==> Count(lens, b) == 0
  }

  lemma {:induction false} OffsetEnds(lens: seq<nat>, max: nat, l: nat)
    requires EndsAt(lens, max) && max < l <= MAX_BITS + 1
    ensures Offset(lens, l) == Offset(lens, max + 1)
  {
    hide Count;
    if l > max + 1 { OffsetEnds(lens, max, l - 1); }
  }

  /** Whether s is the last symbol can be read off the counts. */
  lemma IsLast(lens: seq<nat>, count: seq<nat>, w: Walk, s: nat, max: nat)
    requires AtSymbol(lens, count, w, s) && EndsAt(lens, max) && w.len <= max
    ensures count[w.len] >= 1
    ensures Place(lens, s) + 1 <= Offset(lens, MAX_BITS + 1)
    ensures count[w.len] == 1 && w.len == max <==> Place(lens, s) + 1 == Offset(lens, MAX_BITS + 1)
  {
    hide Count, Code, Reverse;
    RankBelowCount(lens, s);
    OffsetEnds(lens, max, MAX_BITS + 1);
    OffsetMonotone(lens, w.len + 1, max + 1);
    UnfoldOffset(lens, w.len);
    UnfoldOffset(lens, max);
    if w.len < max { OffsetMonotone(lens, w.len + 1, max); }
  }

  lemma UnfoldOffset(lens: seq<nat>, l: nat)
    requires 1 <= l <= MAX_BITS
    ensures Offset(lens, l + 1) == Offset(lens, l) + Count(lens, l)
  {
  }

  /** The loop variables at the next symbol. */
  lemma NextAt(lens: seq<nat>, count: seq<nat>, w: Walk, s: nat, t: nat, v: Walk)
    requires AtSymbol(lens, count, w, s) && count[w.len] >= 1 && Coded(lens, t) && Total(lens) <= Pow2(MAX_BITS)
    requires Place(lens, t) == Place(lens, s) + 1 && lens[s] <= lens[t]
    requires Start(lens, t) == Start(lens, s) + Width(lens[s])
    requires lens[s] < lens[t] ==> Rank(lens, s) + 1 == Count(lens, lens[s]) && Rank(lens, t) == 0
    requires lens[s] == lens[t] ==> Rank(lens, t) == Rank(lens, s) + 1
    requires forall b :: lens[s] < b < lens[t] ==> Count(lens, b) == 0
    requires v == w.(sym := w.sym + 1, len := lens[t], huff := Carry(w.huff, w.len))
    ensures AtSymbol(lens, count[w.len := count[w.len] - 1], v, t)
  {
    hide Count, Code, Reverse, Rank, Place, Start, Width, Carry, Total, Pow2;
    NextHuff(lens, s, t);
  }

  /** Writes the entries of the current symbol. */
  method WriteSymbol(kind: Kind, table: array<Entry>, root: nat, w: Walk, sym: nat, ghost lens: seq<nat>,
      ghost max: nat, ghost count: seq<nat>, ghost work: seq<nat>, ghost cur: nat)
    requires 1 <= root <= MAX_BITS && |lens| <= Symbols(kind) && Total(lens) <= Pow2(MAX_BITS)
    requires Looping(kind, lens, table[..], count, work, root, max, w, sym, cur)
    modifies table
    ensures Tables(kind, lens, table[..], root, max, w, cur, Start(lens, sym) + Width(w.len))
  {
    hide AtSymbol, Decoded, Layered, Sorted, Pow2, Start, Width, Total, Roomy, HasTable, Reverse, Top;
    if w.drop == 0 {
      WriteShort(kind, table, root, w, sym, lens, max, count);
    } else {
      WriteLong(kind, table, root, w, sym, lens, max, count, cur);
    }
  }

  lemma SameTables(kind: Kind, lens: seq<nat>, table: seq<Entry>, root: nat, max: nat, w: Walk, v: Walk, cur: nat,
      p: nat)
    requires 1 <= root <= MAX_BITS && |lens| <= Symbols(kind)
    requires Tables(kind, lens, table, root, max, w, cur, p)
    requires v.next == w.next && v.curr == w.curr && v.drop == w.drop && v.low == w.low && v.used == w.used
    ensures Tables(kind, lens, table, root, max, v, cur, p)
  {
    hide Decoded, Layered, Pow2, Roomy, HasTable, Reverse;
  }

  /** Whether the next symbol needs another second-level table, and whether it is due to start one. */
  lemma NeedsTable(kind: Kind, lens: seq<nat>, table: seq<Entry>, count: seq<nat>, work: seq<nat>, root: nat, max: nat,
      w: Walk, v: Walk, count': seq<nat>, s: nat, t: nat, cur: nat)
    requires 1 <= root <= MAX_BITS && |lens| <= Symbols(kind) && Total(lens) <= Pow2(MAX_BITS)
    requires Looping(kind, lens, table, count, work, root, max, w, s, cur)
    requires AtSymbol(lens, count', v, t) && lens[s] <= lens[t] <= max
    requires Start(lens, t) == Start(lens, s) + Width(lens[s])
    requires v.drop == w.drop && v.low == w.low && v.used == w.used && Sized(kind, lens, root, w, cur)
    ensures v.len > root && v.huff % Pow2(root) != v.low ==>
      && Start(lens, t) == Top(Start(lens, t), root) * Width(root)
      && v.used == Needed(lens, root, Top(Start(lens, t), root))
    ensures !(v.len > root && v.huff % Pow2(root) != v.low) ==> Fitting(lens, root, max, v, cur, t)
  {
    hide Decoded, Layered, Pow2, Roomy, Reverse, Start, Width, Total, Code, Place, Rank, Top, Count, Needed, Below;
    var q := Top(Start(lens, t), root);
    if v.len > root {
      RootOfHuff(lens, count', v, t, root);
      if w.drop == 0 {
        AlignedAfterShort(lens, s, t, root);
        StartBounds(lens, s);
        BelowMonotone(lens, lens[s] + 1, root + 1);
        ShortCells(lens, root, q);
      } else {
        ReverseInjective(q, cur, root);
        if q != cur { AlignedAfterLong(lens, s, t, root, cur); }
      }
    }
  }

  /** The result of the loop: all codes are placed, and huff has run over unless the code is incomplete. */
  ghost predicate AllPlaced(kind: Kind, lens: seq<nat>, table: seq<Entry>, root: nat, max: nat, w: Walk, huff: nat)
    requires 1 <= root <= MAX_BITS && |lens| <= Symbols(kind)
  {
    && Decoded(kind, lens, table, root, Total(lens)) && 1 <= w.len == max <= MAX_BITS && w.used <= |table|
    && (w.drop == 0 ==> w.next == 0 && Layered(table, root, Total(lens), Pow2(root), 0, Pow2(root)))
    && (w.drop != 0 ==> max > root)
    && exists s: nat :: Coded(lens, s) && lens[s] == max && Start(lens, s) + Width(max) == Total(lens)
         && huff == Carry(Reverse(Code(lens, s), max), max)
  }

  lemma LoopEnds(kind: Kind, lens: seq<nat>, table: seq<Entry>, count: seq<nat>, root: nat, max: nat, w: Walk,
      s: nat, cur: nat)
    requires 1 <= root <= MAX_BITS && |lens| <= Symbols(kind) && AtSymbol(lens, count, w, s) && w.len == max
    requires Tables(kind, lens, table, root, max, w, cur, Start(lens, s) + Width(w.len))
    requires Place(lens, s) + 1 == Offset(lens, MAX_BITS + 1) && (w.drop != 0 ==> w.len > root)
    ensures AllPlaced(kind, lens, table, root, max, w, Carry(w.huff, w.len))
  {
    hide Decoded, Pow2, Roomy, Reverse, Start, Width, Total, Code, Place, Rank, Top, Count, Carry, CellLayered;
    LastSymbol(lens, s);
  }

  lemma ReversedCode(lens: seq<nat>, count: seq<nat>, w: Walk, s: nat)
    requires AtSymbol(lens, count, w, s) && Total(lens) <= Pow2(MAX_BITS)
    ensures 1 <= w.len <= MAX_BITS && w.huff < Pow2(w.len)
  {
    hide Pow2, Reverse, Code, Place, Rank, Total, Count;
    ReverseBound(Code(lens, s), w.len);
  }

  lemma LoopingFacts(kind: Kind, lens: seq<nat>, table: seq<Entry>, count: seq<nat>, work: seq<nat>, root: nat,
      max: nat, w: Walk, s: nat, cur: nat)
    requires 1 <= root <= MAX_BITS && |lens| <= Symbols(kind)
    requires Looping(kind, lens, table, count, work, root, max, w, s, cur)
    ensures w.sym < |work| && work[w.sym] == s && s < |lens| && w.len <= max && (w.drop != 0 ==> w.len > root)
  {
    hide Tables, Pow2, Reverse, Code, Rank, Offset, Count, Start, Width, Top;
  }

  /** One round of the main loop; None at its end. */
  method Round(kind: Kind, lens: seq<nat>, table: array<Entry>, count: array<nat>, work: array<nat>, root: nat,
      max: nat, w: Walk, ghost s: nat, ghost cur: nat)
    returns (ret: int, v: Option<Walk>, huff: nat, ghost t: nat, ghost q: nat)
    requires 1 <= root <= MAX_BITS && |lens| <= Symbols(kind) && Total(lens) <= Pow2(MAX_BITS)
    requires count != work && count.Length == MAX_BITS + 1 && TableFits(kind, lens, root, table.Length)
    requires EndsAt(lens, max) && (kind == CODES ==> root == max)
    requires Looping(kind, lens, table[..], count[..], work[..], root, max, w, s, cur)
    requires Sized(kind, lens, root, w, cur)
    modifies table, count
    ensures ret == 0 || ret == 1
    ensures ret == 1 ==> TooMany(kind, Entries(lens, root))
    ensures ret == 0 && v.None? ==>
      AllPlaced(kind, lens, table[..], root, max, w, huff) && !TooMany(kind, Entries(lens, root))
    ensures ret == 0 && v.Some? ==>
      Looping(kind, lens, table[..], count[..], work[..], root, max, v.value, t, q) && v.value.sym == w.sym + 1
    ensures ret == 0 && v.Some? ==> Sized(kind, lens, root, v.value, q)
    ensures work[..] == old(work[..])
  {
    hide AtSymbol, Tables, Fitting, Sorted, EndsAt, AllPlaced, Pow2, Start, Width, Total, Top, Offset, Carry, Rank,
      Sized, Needed, Entries, TooMany;
    LoopingFacts(kind, lens, table[..], count[..], work[..], root, max, w, s, cur);
    var sym := work[w.sym];
    ghost var before, counts := table[..], count[..];
    WriteSymbol(kind, table, root, w, sym, lens, max, counts, work[..], cur);
    ReversedCode(lens, counts, w, s);
    huff := Advance(w.huff, w.len);
    IsLast(lens, counts, w, s, max);
    count[w.len] := count[w.len] - 1;
    assert count[..] == counts[w.len := counts[w.len] - 1];
    ret, v, t, q := 0, None, s, cur;
    if count[w.len] == 0 && w.len == max {
      LoopEnds(kind, lens, table[..], counts, root, max, w, s, cur);
      SizeAtEnd(kind, lens, counts, root, max, w, s, cur);
      return;
    }
    SameSymbol(lens, counts, w, s);
    t := NextSymbol(lens, s);
    NextLen(lens, work[..], counts, w, s, t);
    var len := if count[w.len] == 0 then lens[work[w.sym + 1]] else w.len;
    var next := w.(sym := w.sym + 1, len := len, huff := huff);
    NextAt(lens, counts, w, s, t, next);
    SameTables(kind, lens, table[..], root, max, w, next, cur, Start(lens, t));
    LongestAt(lens, max, t);
    SameSize(kind, lens, root, w, next, cur);
    NeedsTable(kind, lens, before, counts, work[..], root, max, w, next, count[..], s, t, cur);
    v := Some(next);
    if len > root && huff % Pow2(root) != w.low {
      var ok;
      ghost var low := Top(Start(lens, t), root);
      ok, next := OpenNext(kind, table, count, root, max, next, lens, t, cur);
      q := low;
      v := Some(next);
      if !ok {
        ret := 1;
      } else {
        FitsOpened(lens, root, max, next, t);
      }
    }
  }

  lemma SameSize(kind: Kind, lens: seq<nat>, root: nat, w: Walk, v: Walk, cur: nat)
    requires root <= MAX_BITS && Sized(kind, lens, root, w, cur) && v.drop == w.drop && v.used == w.used
    ensures Sized(kind, lens, root, v, cur)
  {
    hide Needed, Pow2;
  }

  /** When all codes are placed, all the entries needed are in use. */
  lemma SizeAtEnd(kind: Kind, lens: seq<nat>, count: seq<nat>, root: nat, max: nat, w: Walk, s: nat, cur: nat)
    requires 1 <= root <= MAX_BITS && AtSymbol(lens, count, w, s) && Fitting(lens, root, max, w, cur, s)
    requires w.len == max && Place(lens, s) + 1 == Offset(lens, MAX_BITS + 1) && Sized(kind, lens, root, w, cur)
    ensures !TooMany(kind, Entries(lens, root))
  {
    hide Needed, Pow2, Start, Width, Total, Below, Top, Place, Code, Reverse, Rank, Count, Offset, TooMany;
    LastSymbol(lens, s);
    if w.drop == 0 {
      StartBounds(lens, s);
      BelowMonotone(lens, lens[s] + 1, root + 1);
      AllShort(lens, root, Pow2(root));
    } else {
      EndOfCell(lens, root, s);
      CellsPastEnd(lens, root, cur + 1, Pow2(root));
    }
  }

  /** A code longer than root ends within its root cell. */
  lemma EndOfCell(lens: seq<nat>, root: nat, s: nat)
    requires Coded(lens, s) && root < lens[s]
    ensures (Top(Start(lens, s), root) + 1) * Width(root) >= Start(lens, s) + Width(lens[s])
  {
    hide Top, Start, Width, Code, Pow2, Below;
    var m, p := lens[s] - root, Start(lens, s);
    StartIsCode(lens, s);
    TopSplits(p, root, m);
    OwnedIsTop(lens, s, p);
    WidthProduct(root, m);
    var q, c := Top(p, root), Middle(p, root, m);
    NestedProduct(q, c, Pow2(m), Width(lens[s]));
    MulBound(c, Pow2(m), Width(lens[s]));
    OneMoreTimes(q, Width(root));
  }

  lemma SameSymbol(lens: seq<nat>, count: seq<nat>, w: Walk, s: nat)
    requires AtSymbol(lens, count, w, s)
    ensures Coded(lens, s) && lens[s] == w.len && Place(lens, s) == w.sym
    ensures count[w.len] == Count(lens, w.len) - Rank(lens, s)
  {
    hide Count, Rank, Place, Code, Reverse;
  }

  lemma NextLen(lens: seq<nat>, work: seq<nat>, count: seq<nat>, w: Walk, s: nat, t: nat)
    requires AtSymbol(lens, count, w, s) && Sorted(lens, work, |lens|) && Coded(lens, t)
    requires Place(lens, t) == Place(lens, s) + 1
    ensures w.sym + 1 < |work| && work[w.sym + 1] == t
  {
    hide Count, Rank, Place, Code, Reverse, Offset;
  }

  lemma LongestAt(lens: seq<nat>, max: nat, t: nat)
    requires EndsAt(lens, max) && Coded(lens, t)
    ensures lens[t] <= max <= MAX_BITS
  {
    hide Count, Rank;
    RankBelowCount(lens, t);
  }

  lemma FitsOpened(lens: seq<nat>, root: nat, max: nat, v: Walk, t: nat)
    requires 1 <= root <= MAX_BITS && Coded(lens, t) && v.drop == root && root < v.len <= max <= MAX_BITS
    ensures Fitting(lens, root, max, v, Top(Start(lens, t), root), t)
  {
    hide Top, Start;
  }

  // ----- The whole of inflate_table -----

  predicate NoCodes(lens: seq<nat>)
  {
    forall s :: 0 <= s < |lens| ==> lens[s] == 0
  }

  /** Incomplete codes are refused, except a single code of one bit outside the alphabet of code lengths. */
  predicate Acceptable(kind: Kind, lens: seq<nat>)
  {
    && Total(lens) <= Pow2(MAX_BITS)
    && (Total(lens) == Pow2(MAX_BITS) || (kind != CODES && forall s :: 0 <= s < |lens| ==> lens[s] <= 1))
  }

  method PlaceAll(kind: Kind, lens: seq<nat>, table: array<Entry>, count: array<nat>, work: array<nat>, root: nat,
      min: nat, max: nat)
    returns (ret: int, w: Walk, huff: nat)
    requires 1 <= min <= root <= MAX_BITS && |lens| <= Symbols(kind) && Total(lens) <= Pow2(MAX_BITS)
    requires count != work && count.Length == MAX_BITS + 1 && TableFits(kind, lens, root, table.Length)
    requires EndsAt(lens, max) && (kind == CODES ==> root == max) && root <= max && Pow2(root) <= table.Length
    requires Sorted(lens, work[..], |lens|) && min <= max && Count(lens, min) > 0
    requires forall b :: 1 <= b < min ==> Count(lens, b) == 0
    requires forall b :: 1 <= b <= MAX_BITS ==> count[b] == Count(lens, b)
    requires !TooMany(kind, Pow2(root))
    modifies table, count
    ensures ret == if TooMany(kind, Entries(lens, root)) then 1 else 0
    ensures ret == 0 ==> AllPlaced(kind, lens, table[..], root, max, w, huff)
  {
    hide Looping, Sorted, EndsAt, AllPlaced, Pow2, Total, Count, Offset, Needed, Entries;
    ghost var s := SymbolOfRank(lens, min, 0);
    ghost var cur := Pow2(root);
    w := Walk(0, min, 0, 0, root, 0, -1, Pow2(root));
    LoopStarts(kind, lens, table[..], count[..], work[..], root, min, max, w, s);
    while true
      invariant Looping(kind, lens, table[..], count[..], work[..], root, max, w, s, cur)
      invariant Sized(kind, lens, root, w, cur)
      decreases |work[..]| - w.sym
    {
      LoopingFacts(kind, lens, table[..], count[..], work[..], root, max, w, s, cur);
      var v;
      ghost var t, q;
      ret, v, huff, t, q := Round(kind, lens, table, count, work, root, max, w, s, cur);
      if ret != 0 || v.None? {
        return;
      }
      w, s, cur := v.value, t, q;
    }
  }

  lemma LoopStarts(kind: Kind, lens: seq<nat>, table: seq<Entry>, count: seq<nat>, work: seq<nat>, root: nat,
      min: nat, max: nat, w: Walk, s: nat)
    requires 1 <= min <= root <= MAX_BITS && |lens| <= Symbols(kind) && Sorted(lens, work, |lens|)
    requires |count| == MAX_BITS + 1 && forall b :: 1 <= b <= MAX_BITS ==> count[b] == Count(lens, b)
    requires EndsAt(lens, max) && min <= max && forall b :: 1 <= b < min ==> Count(lens, b) == 0
    requires s < |lens| && lens[s] == min && Rank(lens, s) == 0 && Pow2(root) <= |table|
    requires w == Walk(0, min, 0, 0, root, 0, -1, Pow2(root))
    ensures Looping(kind, lens, table, count, work, root, max, w, s, Pow2(root))
  {
    hide Sorted, Pow2, Count, Rank, Reverse;
    NothingBefore(lens, min);
    StartIsCode(lens, s);
    NoTimes(Width(min));
    CodeIsZero(Code(lens, s), Width(min));
    ReverseZero(min);
    assert forall w': nat :: w' < 0 ==> DecodedAt(kind, lens, table, root, w');
  }

  lemma CodeIsZero(c: nat, w: nat)
    requires w >= 1 && c * w == 0
    ensures c == 0
  {
    Multiples(c, w);
  }

  lemma {:induction false} NothingBefore(lens: seq<nat>, l: nat)
    requires 1 <= l <= MAX_BITS + 1 && forall b :: 1 <= b < l ==> Count(lens, b) == 0
    ensures Offset(lens, l) == 0 && Below(lens, l) == 0
  {
    hide Count, Width;
    if l > 1 {
      NothingBefore(lens, l - 1);
      NoTimes(Width(l - 1));
    }
  }

  /** After the last code huff has run over, unless the code is a single one of one bit. */
  lemma HuffAtEnd(kind: Kind, lens: seq<nat>, table: seq<Entry>, root: nat, max: nat, w: Walk, huff: nat)
    requires 1 <= root <= MAX_BITS && |lens| <= Symbols(kind) && ValidLengths(lens) && Acceptable(kind, lens)
    requires AllPlaced(kind, lens, table, root, max, w, huff)
    ensures Total(lens) == Pow2(MAX_BITS) ==> huff == 0
    ensures Total(lens) < Pow2(MAX_BITS) ==> max == 1 && huff == 1
  {
    hide Decoded, Start, Total, Code, Width, Pow2, Reverse, Carry;
    var s: nat :| Coded(lens, s) && lens[s] == max && Start(lens, s) + Width(max) == Total(lens)
      && huff == Carry(Reverse(Code(lens, s), max), max);
    StartIsCode(lens, s);
    WidthWhole(max);
    OneMoreTimes(Code(lens, s), Width(max));
    if Total(lens) == Pow2(MAX_BITS) {
      SameFactor(Code(lens, s) + 1, Pow2(max), Width(max));
      CarryOut(Code(lens, s), max);
    } else {
      PowerOne();
      FitsBelow(Code(lens, s) + 1, 2, Width(max));
      FirstCarry();
    }
  }

  lemma PowerOne()
    ensures Pow2(1) == 2 && Pow2(7) == 128
  {
  }

  lemma FirstCarry()
    ensures Carry(Reverse(0, 1), 1) == 1
  {
    ReverseZero(1);
  }

  lemma CountOf(lens: seq<nat>, s: nat)
    requires s < |lens|
    ensures Count(lens, lens[s]) > 0
  {
    RankBelowCount(lens, s);
  }

  lemma RangeOfCounts(lens: seq<nat>, max: nat)
    requires ValidLengths(lens) && max <= MAX_BITS && forall b :: max < b <= MAX_BITS ==> Count(lens, b) == 0
    ensures max == 0 ==> NoCodes(lens)
    ensures forall s :: 0 <= s < |lens| ==> lens[s] <= max
    ensures Count(lens, max) > 0 && max > 0 ==> !NoCodes(lens)
    ensures Count(lens, max) > 0 && max > 0 ==> (max == 1 <==> forall s :: 0 <= s < |lens| ==> lens[s] <= 1)
  {
    hide Count, Rank;
    forall s | 0 <= s < |lens| ensures lens[s] <= max {
      CountOf(lens, s);
    }
    if Count(lens, max) > 0 {
      var s := SymbolOfRank(lens, max, 0);
    }
  }

  lemma MaxAtMost(lens: seq<nat>, max: nat, limit: nat)
    requires Count(lens, max) > 0 && forall s :: 0 <= s < |lens| ==> lens[s] <= limit
    ensures max <= limit
  {
    var s := SymbolOfRank(lens, max, 0);
  }

  /** The wanted root size, moved into the range of the lengths in use; 1 if there are none. */
  ghost predicate IsRoot(lens: seq<nat>, bits: nat, root: nat)
  {
    if NoCodes(lens) then root == 1
    else
      && (exists s: nat :: Coded(lens, s) && lens[s] <= root) && (exists s: nat :: Coded(lens, s) && root <= lens[s])
      && (root < bits ==> forall s: nat :: Coded(lens, s) ==> lens[s] <= root)
      && (bits < root ==> forall s: nat :: Coded(lens, s) ==> root <= lens[s])
  }

  /** The room that a caller has to reserve: at the root size that is chosen, all that is needed. */
  ghost predicate BuildFits(kind: Kind, lens: seq<nat>, bits: nat, length: nat)
  {
    && (NoCodes(lens) ==> length >= 2)
    && (!NoCodes(lens) && Acceptable(kind, lens) ==>
          forall root: nat :: root <= MAX_BITS && IsRoot(lens, bits, root) ==> TableFits(kind, lens, root, length))
  }

  /** The arrays that the source reserves for the tables of a stream are large enough. */
  lemma ReservedFits(kind: Kind, lens: seq<nat>, bits: nat, length: nat)
    requires kind != CODES && length >= if kind == LENS then ENOUGH_LENS else ENOUGH_DISTS
    ensures BuildFits(kind, lens, bits, length)
  {
    hide Acceptable, NoCodes, IsRoot, Entries;
  }

  /** With no code longer than the wanted root size so is that table alone: 512 and 32 cells for the fixed codes. */
  lemma ShortCodesFit(kind: Kind, lens: seq<nat>, bits: nat, length: nat)
    requires 1 <= bits <= MAX_BITS && ValidLengths(lens) && Pow2(bits) <= length
    requires forall s :: 0 <= s < |lens| ==> lens[s] <= bits
    ensures BuildFits(kind, lens, bits, length)
  {
    hide Entries, Acceptable, Pow2, IsRoot, NoCodes, Below;
    Pow2Monotone(1, bits);
    PowerOne();
    forall root: nat | root <= MAX_BITS && IsRoot(lens, bits, root) && !NoCodes(lens)
      ensures TableFits(kind, lens, root, length)
    {
      ShortRoot(lens, bits, root);
      Pow2Monotone(root, bits);
      ShortEntries(lens, root);
    }
  }

  lemma ShortRoot(lens: seq<nat>, bits: nat, root: nat)
    requires ValidLengths(lens) && !NoCodes(lens) && IsRoot(lens, bits, root)
    requires forall s :: 0 <= s < |lens| ==> lens[s] <= bits
    ensures 1 <= root <= bits && forall s :: 0 <= s < |lens| ==> lens[s] <= root
  {
    var s: nat :| Coded(lens, s) && lens[s] <= root;
    var t: nat :| Coded(lens, t) && root <= lens[t];
    forall x: nat | x < |lens| ensures lens[x] <= root {
      if Coded(lens, x) {}
    }
  }

  lemma ShortEntries(lens: seq<nat>, root: nat)
    requires root <= MAX_BITS && forall s :: 0 <= s < |lens| ==> lens[s] <= root
    ensures Entries(lens, root) == Pow2(root)
  {
    hide Below, Pow2, Needed;
    NoneLonger(lens, root, MAX_BITS + 1);
    AllShort(lens, root, Pow2(root));
  }

  lemma NoRoot(lens: seq<nat>, bits: nat)
    requires NoCodes(lens)
    ensures IsRoot(lens, bits, 1)
  {
  }

  lemma RootIs(lens: seq<nat>, bits: nat, min: nat, max: nat, root: nat)
    requires 1 <= min <= max <= MAX_BITS && Count(lens, min) > 0 && Count(lens, max) > 0
    requires forall b :: 1 <= b < min ==> Count(lens, b) == 0
    requires forall b :: max < b <= MAX_BITS ==> Count(lens, b) == 0
    requires root == if bits > max then max else if bits < min then min else bits
    ensures IsRoot(lens, bits, root) && 1 <= root <= MAX_BITS
  {
    hide Count, Rank;
    var s := SymbolOfRank(lens, min, 0);
    var t := SymbolOfRank(lens, max, 0);
    assert Coded(lens, s) && Coded(lens, t);
    forall x: nat | Coded(lens, x) ensures min <= lens[x] <= max {
      CountOf(lens, x);
    }
  }

  /** What a call that returns 0 leaves in the table. */
  ghost predicate TableDone(kind: Kind, lens: seq<nat>, table: seq<Entry>, root: nat)
    requires |lens| <= Symbols(kind)
  {
    && 1 <= root <= MAX_BITS && 2 <= |table|
    && (!NoCodes(lens) ==> AllTold(kind, lens, table, root))
    && (NoCodes(lens) ==> IsFree(kind, table[0]))
    && (Total(lens) < Pow2(MAX_BITS) ==> root == 1 && IsFree(kind, table[1]))
  }

  /** Ahead of any bits that start with a code word the decoder finds the length and the meaning of its symbol. */
  ghost predicate AllTold(kind: Kind, lens: seq<nat>, table: seq<Entry>, root: nat)
    requires root <= MAX_BITS
  {
    forall w: nat, s: nat :: w < Total(lens) && Owns(lens, s, w) ==> Told(kind, lens, table, root, w, s)
  }

  ghost predicate Told(kind: Kind, lens: seq<nat>, table: seq<Entry>, root: nat, w: nat, s: nat)
    requires root <= MAX_BITS && s < |lens|
  {
    exists e :: Reaches(table, root, w, e) && e.bits == lens[s] && Tells(kind, s, e)
  }

  /** A cell that no code word leads to takes one bit and, where there is a choice, is an error. */
  predicate IsFree(kind: Kind, e: Entry)
  {
    e.bits == 1 && (kind != CODES ==> Means(kind, e) == FastMeans(kind, e) == Invalid)
  }

  lemma InvalidIsFree(kind: Kind)
    ensures IsFree(kind, Entry(1, INVALID_CODE, 0))
  {
  }

  lemma DecodedIsTold(kind: Kind, lens: seq<nat>, table: seq<Entry>, root: nat)
    requires root <= MAX_BITS && |lens| <= Symbols(kind) && Decoded(kind, lens, table, root, Total(lens))
    ensures AllTold(kind, lens, table, root)
  {
    hide Total, Reaches, SymbolEntry, Tells, Start;
    forall w: nat, s: nat | w < Total(lens) && Owns(lens, s, w) ensures Told(kind, lens, table, root, w, s) {
      assert DecodedAt(kind, lens, table, root, w);
      EntryTells(kind, s, lens[s]);
      assert Reaches(table, root, w, SymbolEntry(kind, s, lens[s]));
    }
  }

  /** The rest of inflate_table, for acceptable lengths: the symbols are sorted and placed. */
  method PlaceCodes(kind: Kind, lens: seq<nat>, table: array<Entry>, count: array<nat>, root: nat, min: nat, max: nat)
    returns (ret: int)
    requires 1 <= min <= root <= max <= MAX_BITS && EndsAt(lens, max) && Count(lens, min) > 0
    requires count.Length == MAX_BITS + 1
    requires ValidLengths(lens) && |lens| <= Symbols(kind) && TableFits(kind, lens, root, table.Length)
    requires kind == CODES ==> root == max <= 7
    requires !NoCodes(lens) && Acceptable(kind, lens) && forall b :: 1 <= b < min ==> Count(lens, b) == 0
    requires forall b :: 1 <= b <= MAX_BITS ==> count[b] == Count(lens, b)
    modifies table, count
    ensures ret == if TooMany(kind, Entries(lens, root)) then 1 else 0
    ensures ret == 0 ==> TableDone(kind, lens, table[..], root)
  {
    hide Count, Pow2, Total, Offset, AllPlaced, Sorted, Decoded, Rank, Entries, NoCodes, TableDone, Acceptable, EndsAt,
      Below;
    AtMostOne(kind, lens);
    var work := SortSymbols(lens, count);
    RootIsNeeded(lens, root);
    if TooMany(kind, Pow2(root)) {
      return 1;
    }
    PowerOne();
    Pow2Monotone(1, root);
    var w, huff;
    ret, w, huff := PlaceAll(kind, lens, table, count, work, root, min, max);
    if ret != 0 {
      return;
    }
    ghost var was := table[..];
    PlacedIsDone(kind, lens, was, root, max, w, huff);
    if huff != 0 {
      table[w.next + huff] := Entry(w.len - w.drop, INVALID_CODE, 0);
      assert table[..] == was[1 := Entry(1, INVALID_CODE, 0)];
    }
  }

  lemma AtMostOne(kind: Kind, lens: seq<nat>)
    requires Acceptable(kind, lens)
    ensures Total(lens) <= Pow2(MAX_BITS)
  {
    hide Total, Pow2;
  }

  /** With all codes placed the table is done, except for the cell that a single code of one bit leaves free. */
  lemma PlacedIsDone(kind: Kind, lens: seq<nat>, table: seq<Entry>, root: nat, max: nat, w: Walk, huff: nat)
    requires |lens| <= Symbols(kind) && 1 <= root <= max <= MAX_BITS && 2 <= |table|
    requires ValidLengths(lens) && !NoCodes(lens) && Acceptable(kind, lens)
    requires AllPlaced(kind, lens, table, root, max, w, huff)
    ensures huff == 0 ==> TableDone(kind, lens, table, root)
    ensures huff != 0 ==> w.next + huff == 1 && w.drop == 0 && w.len == 1
    ensures huff != 0 ==> TableDone(kind, lens, table[1 := Entry(1, INVALID_CODE, 0)], root)
  {
    hide Total, AllPlaced, Decoded, NoCodes, ValidLengths, Pow2, AllTold, IsFree;
    HuffAtEnd(kind, lens, table, root, max, w, huff);
    PlacedIsDecoded(kind, lens, table, root, max, w, huff);
    DecodedIsTold(kind, lens, table, root);
    if huff != 0 {
      InvalidLast(kind, lens, table, max, w, huff);
      DecodedIsTold(kind, lens, table[1 := Entry(1, INVALID_CODE, 0)], root);
      InvalidIsFree(kind);
    }
  }

  /**
   The source's inflate_table: -1 for lengths that are no code, 1 for a table larger than the
   decoder reserves, and 0 for a table that decodes.
   */
  method BuildTable(kind: Kind, lens: seq<nat>, table: array<Entry>, bits: nat) returns (ret: int, root: nat)
    requires ValidLengths(lens) && |lens| <= Symbols(kind)
    requires BuildFits(kind, lens, bits, table.Length)
    requires kind == CODES ==> bits >= 7 && forall s :: 0 <= s < |lens| ==> lens[s] <= 7
    modifies table
    ensures 1 <= root <= MAX_BITS && IsRoot(lens, bits, root)
    ensures ret == if NoCodes(lens) then 0
      else if !Acceptable(kind, lens) then -1
      else if TooMany(kind, Entries(lens, root)) then 1
      else 0
    ensures ret == 0 ==> TableDone(kind, lens, table[..], root)
  {
    hide Count, Pow2, Total, Entries, NoCodes, IsRoot, AllTold, IsFree;
    var count := CountLengths(lens);
    var min, max := LengthRange(count);
    RangeOfCounts(lens, max);
    root := if bits > max then max else bits;
    if max == 0 {
      table[0], table[1] := Entry(1, INVALID_CODE, 0), Entry(1, INVALID_CODE, 0);
      root := 1;
      NoRoot(lens, bits);
      InvalidIsFree(kind);
      return 0, root;
    }
    if root < min {
      root := min;
    }
    RootIs(lens, bits, min, max, root);
    var left := CodesLeft(lens, count);
    if left.None? {
      return -1, root;
    }
    if left.value > 0 && (kind == CODES || max != 1) {
      return -1, root;
    }
    if kind == CODES { MaxAtMost(lens, max, 7); }
    ret := PlaceCodes(kind, lens, table, count, root, min, max);
  }

  lemma PlacedIsDecoded(kind: Kind, lens: seq<nat>, table: seq<Entry>, root: nat, max: nat, w: Walk, huff: nat)
    requires 1 <= root <= MAX_BITS && |lens| <= Symbols(kind) && AllPlaced(kind, lens, table, root, max, w, huff)
    ensures Decoded(kind, lens, table, root, Total(lens))
  {
    hide Decoded, Layered, Total, Pow2, Start, Width, Carry, Reverse;
  }

  /** The cell that a single code of one bit leaves free. */
  lemma InvalidLast(kind: Kind, lens: seq<nat>, table: seq<Entry>, max: nat, w: Walk, huff: nat)
    requires |lens| <= Symbols(kind) && 2 <= |table| && max == 1
    requires AllPlaced(kind, lens, table, 1, max, w, huff) && Total(lens) < Pow2(MAX_BITS)
    ensures w.next == 0 && w.drop == 0 && w.len == 1
    ensures Decoded(kind, lens, table[1 := Entry(1, INVALID_CODE, 0)], 1, Total(lens))
  {
    hide Total, Pow2, Start, Width, Carry, Top, Middle, Reverse, SymbolEntry, Owns;
    var table' := table[1 := Entry(1, INVALID_CODE, 0)];
    var s: nat :| Coded(lens, s) && lens[s] == max && Start(lens, s) + Width(max) == Total(lens)
      && huff == Carry(Reverse(Code(lens, s), max), max);
    StartIsCode(lens, s);
    WidthWhole(1);
    PowerOne();
    OneMoreTimes(Code(lens, s), Width(1));
    FitsBelow(Code(lens, s) + 1, 2, Width(1));
    forall v: nat | v < Total(lens) ensures DecodedAt(kind, lens, table', 1, v) {
      assert CellLayered(table, 1, v, Pow2(1), 0, Pow2(1)) && DecodedAt(kind, lens, table, 1, v);
      TopIs(v, 1, 0);
      NoTimes(Width(1));
      ReverseZero(1);
      TopSmall(v, 1);
    }
  }

  // ----- Decoding from the bit accumulator -----

  /** One table lookup by the decoder, on the bits it holds. */
  function Decode(table: seq<Entry>, root: nat, hold: nat): Option<Entry>
  {
    var i := hold % Pow2(root);
    if i >= |table| then None
    else if !IsLink(table[i]) then Some(table[i])
    else
      var j := table[i].val + hold / Pow2(root) % Pow2(table[i].op);
      if j >= |table| then None else Some(Entry(table[i].bits + table[j].bits, table[j].op, table[j].val))
  }

  /** The next n bits of the stream, the lowest bit of the accumulator first. */
  function StreamBits(hold: nat, n: nat): (bits: seq<bool>)
    ensures |bits| == n
  {
    seq(n, i requires 0 <= i < n => GetBit(hold, i))
  }

  lemma {:induction false} StreamValue(hold: nat, n: nat)
    ensures Value(StreamBits(hold, n)) == Reverse(hold, n)
  {
    hide GetBit, Reverse;
    if n == 0 {
      NothingReversed(hold);
    } else {
      StreamValue(hold, n - 1);
      ReverseNext(hold, n - 1);
      assert StreamBits(hold, n)[..n - 1] == StreamBits(hold, n - 1);
    }
  }

  /** Fifteen held bits, reversed twice, are themselves. */
  lemma HeldBits(hold: nat) returns (high: nat, w: nat)
    ensures w == Reverse(hold, MAX_BITS) < Pow2(MAX_BITS)
    ensures hold == high * Pow2(MAX_BITS) + Reverse(w, MAX_BITS)
  {
    hide Reverse, Pow2;
    high := hold / Pow2(MAX_BITS);
    var low := hold % Pow2(MAX_BITS);
    w := Reverse(hold, MAX_BITS);
    DivMod(hold, Pow2(MAX_BITS));
    ReverseSplit(high, low, 0, MAX_BITS);
    NothingReversed(high);
    PowerZero();
    ReverseBound(hold, MAX_BITS);
    ReverseTwice(low, MAX_BITS);
  }

  lemma PowerZero()
    ensures Pow2(0) == 1
  {
  }

  /** The low parts of a number do not depend on its bits above them. */
  lemma LowParts(high: nat, low: nat, root: nat, n: nat)
    requires root + n <= MAX_BITS
    ensures var x := high * Pow2(MAX_BITS) + low;
            x % Pow2(root) == low % Pow2(root) && x / Pow2(root) % Pow2(n) == low / Pow2(root) % Pow2(n)
  {
    hide Pow2;
    var p, q, f := Pow2(n), Pow2(root), Pow2(MAX_BITS - root - n);
    Pow2Add(n, root);
    Pow2Add(MAX_BITS - root - n, root + n);
    DivMod(low, q);
    DivMod(low / q, p);
    NestedProduct(high, 0, f, p * q);
    NestedProduct(high * f, low / q, p, q);
    RestIs(high * f * p + low / q, low % q, q);
    NestedProduct(high * f, low / q / p, 1, p);
    RestIs(high * f + low / q / p, low / q % p, p);
  }

  /** The decoder finds what the table was built to let it find. */
  lemma DecodeReaches(table: seq<Entry>, root: nat, hold: nat, e: Entry)
    requires root <= MAX_BITS && Reaches(table, root, Reverse(hold, MAX_BITS), e)
    ensures Decode(table, root, hold) == Some(e)
  {
    hide Reverse, Pow2, Top, Middle;
    var w := Reverse(hold, MAX_BITS);
    HeldCells(hold, root, 0);
    var i := Reverse(Top(w, root), root);
    if IsLink(table[i]) {
      HeldCells(hold, root, table[i].op);
    }
  }

  lemma HeldCells(hold: nat, root: nat, n: nat)
    requires root + n <= MAX_BITS
    ensures hold % Pow2(root) == Reverse(Top(Reverse(hold, MAX_BITS), root), root)
    ensures hold / Pow2(root) % Pow2(n) == Reverse(Middle(Reverse(hold, MAX_BITS), root, n), n)
  {
    hide Reverse, Pow2, Top, Middle;
    var high, w := HeldBits(hold);
    HoldCells(w, root, n);
    LowParts(high, Reverse(w, MAX_BITS), root, n);
  }

  /**
   With a complete code the decoder never leaves the table, and finds the one symbol whose code word
   comes next, with the right number of bits.
   */
  lemma DecodesNextSymbol(kind: Kind, lens: seq<nat>, table: seq<Entry>, root: nat, hold: nat) returns (s: nat)
    requires |lens| <= Symbols(kind) && Complete(lens) && TableDone(kind, lens, table, root)
    ensures Coded(lens, s) && Word(lens, s) <= StreamBits(hold, MAX_BITS)
    ensures forall t: nat :: Coded(lens, t) && Word(lens, t) <= StreamBits(hold, MAX_BITS) ==> t == s
    ensures Decode(table, root, hold).Some?
    ensures var e := Decode(table, root, hold).value;
            e.bits == lens[s] && Tells(kind, s, e)
  {
    hide Reverse, Pow2, Word, Total, Decode, Tells, Reaches, StreamBits;
    var bits := StreamBits(hold, MAX_BITS);
    s := DecodesUniquely(lens, bits);
    StreamValue(hold, MAX_BITS);
    WordIsPrefix(lens, s, bits);
    ReverseBound(hold, MAX_BITS);
    assert !NoCodes(lens);
    var w := Reverse(hold, MAX_BITS);
    assert Told(kind, lens, table, root, w, s);
    var e :| Reaches(table, root, w, e) && e.bits == lens[s] && Tells(kind, s, e);
    DecodeReaches(table, root, hold, e);
  }
}

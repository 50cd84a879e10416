/**
 How many entries a decoding table takes: the root table, and for every root cell that belongs to
 longer codes a second-level table just large enough for them.
 */
module TableSize {
  import opened Bits
  import opened CanonicalCode

  /** Root cell q belongs to codes longer than root. */
  predicate IsLong(lens: seq<nat>, root: nat, q: nat)
    requires root <= MAX_BITS
  {
    Below(lens, root + 1) <= q * Width(root) < Total(lens)
  }

  /** The codes of root cell q have at most c more bits. */
  predicate Covered(lens: seq<nat>, root: nat, q: nat, c: nat)
    requires root + c <= MAX_BITS
  {
    Below(lens, root + c + 1) >= Total(lens) || Below(lens, root + c + 1) >= q * Width(root) + Width(root)
  }

  /** The least number of bits, from c on, for the second-level table of root cell q. */
  function SubBits(lens: seq<nat>, root: nat, q: nat, c: nat): (r: nat)
    requires root + c <= MAX_BITS
    ensures c <= r <= MAX_BITS - root
    decreases MAX_BITS - c
  {
    if root + c == MAX_BITS || Covered(lens, root, q, c) then c else SubBits(lens, root, q, c + 1)
  }

  /** The entries of the root table and of the second-level tables of the first q root cells. */
  function Needed(lens: seq<nat>, root: nat, q: nat): nat
    requires root <= MAX_BITS
    decreases q
  {
    if q == 0 then Pow2(root)
    else
      Needed(lens, root, q - 1)
      + if root < MAX_BITS && IsLong(lens, root, q - 1) then Pow2(SubBits(lens, root, q - 1, 1)) else 0
  }

  /** The entries of the whole table. */
  function Entries(lens: seq<nat>, root: nat): nat
    requires root <= MAX_BITS
  {
    Needed(lens, root, Pow2(root))
  }

  lemma {:induction false} SubBitsIs(lens: seq<nat>, root: nat, q: nat, from: nat, c: nat)
    requires from <= c && root + c <= MAX_BITS && Covered(lens, root, q, c)
    requires forall k: nat :: from <= k < c ==> !Covered(lens, root, q, k)
    ensures SubBits(lens, root, q, from) == c
    decreases c - from
  {
    hide Covered;
    if from < c { SubBitsIs(lens, root, q, from + 1, c); }
  }

  lemma {:induction false} NeededGrows(lens: seq<nat>, root: nat, q: nat, r: nat)
    requires root <= MAX_BITS && q <= r
    ensures Pow2(root) <= Needed(lens, root, q) <= Needed(lens, root, r)
    decreases r
  {
    hide IsLong, SubBits, Pow2;
    if q < r {
      NeededGrows(lens, root, q, r - 1);
    } else if q > 0 {
      NeededGrows(lens, root, q - 1, q - 1);
    }
  }

  lemma RootIsNeeded(lens: seq<nat>, root: nat)
    requires root <= MAX_BITS
    ensures Pow2(root) <= Entries(lens, root)
  {
    hide Needed, Pow2;
    NeededGrows(lens, root, 0, Pow2(root));
  }

  lemma {:induction false} NoneLong(lens: seq<nat>, root: nat, q: nat, r: nat)
    requires root <= MAX_BITS && q <= r && forall k: nat :: q <= k < r ==> !IsLong(lens, root, k)
    ensures Needed(lens, root, r) == Needed(lens, root, q)
    decreases r
  {
    hide IsLong, SubBits, Pow2;
    if q < r { NoneLong(lens, root, q, r - 1); }
  }

  /** Root cells before the longer codes need nothing more. */
  lemma ShortCells(lens: seq<nat>, root: nat, q: nat)
    requires root <= MAX_BITS && q * Width(root) <= Below(lens, root + 1)
    ensures Needed(lens, root, q) == Pow2(root)
  {
    hide Width, Below, Total, Pow2;
    forall k: nat | 0 <= k < q ensures !IsLong(lens, root, k) {
      MulBound(k, q, Width(root));
    }
    NoneLong(lens, root, 0, q);
  }

  /** Neither do root cells behind the last code. */
  lemma CellsPastEnd(lens: seq<nat>, root: nat, q: nat, r: nat)
    requires root <= MAX_BITS && q <= r && q * Width(root) >= Total(lens)
    ensures Needed(lens, root, r) == Needed(lens, root, q)
  {
    hide Width, Below, Total, Pow2;
    forall k: nat | q <= k < r ensures !IsLong(lens, root, k) {
      MulBound(q, k, Width(root));
    }
    NoneLong(lens, root, q, r);
  }

  /** Without longer codes the root table is all. */
  lemma AllShort(lens: seq<nat>, root: nat, r: nat)
    requires root <= MAX_BITS && Below(lens, root + 1) >= Total(lens)
    ensures Needed(lens, root, r) == Pow2(root)
  {
    hide Width, Below, Total, Pow2;
    NoneLong(lens, root, 0, r);
  }

  /** A longer code that starts a root cell takes the next table. */
  lemma NextTable(lens: seq<nat>, root: nat, q: nat, t: nat)
    requires Coded(lens, t) && root < lens[t] && Start(lens, t) == q * Width(root)
    ensures Needed(lens, root, q + 1) == Needed(lens, root, q) + Pow2(SubBits(lens, root, q, 1))
  {
    hide Width, Start, Total, Pow2, SubBits, Below;
    StartBounds(lens, t);
    BelowMonotone(lens, root + 1, lens[t]);
    BelowMonotone(lens, lens[t] + 1, MAX_BITS + 1);
    TotalIsBelow(lens);
  }

  lemma TotalIsBelow(lens: seq<nat>)
    ensures Total(lens) == Below(lens, MAX_BITS + 1)
  {
  }

  /** Before the length of the cell's first code nothing is covered. */
  lemma NotCoveredBefore(lens: seq<nat>, root: nat, q: nat, t: nat, c: nat)
    requires Coded(lens, t) && root + c < lens[t] && Start(lens, t) == q * Width(root)
    ensures !Covered(lens, root, q, c)
  {
    hide Width, Start, Total, Below;
    StartBounds(lens, t);
    BelowMonotone(lens, root + c + 1, lens[t]);
    BelowMonotone(lens, lens[t] + 1, MAX_BITS + 1);
    TotalIsBelow(lens);
  }
}

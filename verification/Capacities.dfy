/**
 The numbers of data codewords by the table of the standard, for every version and level. The source
 computes them from its two tables; a wrong entry there would show here.
 */
module Capacities {
  import opened Tables

  function LowCapacity(ver: nat): int
  {
    match ver
    case 1 => 19 case 2 => 34 case 3 => 55 case 4 => 80 case 5 => 108 case 6 => 136 case 7 => 156
    case 8 => 194 case 9 => 232 case 10 => 274 case 11 => 324 case 12 => 370 case 13 => 428 case 14 => 461
    case 15 => 523 case 16 => 589 case 17 => 647 case 18 => 721 case 19 => 795 case 20 => 861 case 21 => 932
    case 22 => 1006 case 23 => 1094 case 24 => 1174 case 25 => 1276 case 26 => 1370 case 27 => 1468 case 28 => 1531
    case 29 => 1631 case 30 => 1735 case 31 => 1843 case 32 => 1955 case 33 => 2071 case 34 => 2191 case 35 => 2306
    case 36 => 2434 case 37 => 2566 case 38 => 2702 case 39 => 2812 case 40 => 2956
    case _ => 0
  }

  function MediumCapacity(ver: nat): int
  {
    match ver
    case 1 => 16 case 2 => 28 case 3 => 44 case 4 => 64 case 5 => 86 case 6 => 108 case 7 => 124
    case 8 => 154 case 9 => 182 case 10 => 216 case 11 => 254 case 12 => 290 case 13 => 334 case 14 => 365
    case 15 => 415 case 16 => 453 case 17 => 507 case 18 => 563 case 19 => 627 case 20 => 669 case 21 => 714
    case 22 => 782 case 23 => 860 case 24 => 914 case 25 => 1000 case 26 => 1062 case 27 => 1128 case 28 => 1193
    case 29 => 1267 case 30 => 1373 case 31 => 1455 case 32 => 1541 case 33 => 1631 case 34 => 1725 case 35 => 1812
    case 36 => 1914 case 37 => 1992 case 38 => 2102 case 39 => 2216 case 40 => 2334
    case _ => 0
  }

  function QuartileCapacity(ver: nat): int
  {
    match ver
    case 1 => 13 case 2 => 22 case 3 => 34 case 4 => 48 case 5 => 62 case 6 => 76 case 7 => 88
    case 8 => 110 case 9 => 132 case 10 => 154 case 11 => 180 case 12 => 206 case 13 => 244 case 14 => 261
    case 15 => 295 case 16 => 325 case 17 => 367 case 18 => 397 case 19 => 445 case 20 => 485 case 21 => 512
    case 22 => 568 case 23 => 614 case 24 => 664 case 25 => 718 case 26 => 754 case 27 => 808 case 28 => 871
    case 29 => 911 case 30 => 985 case 31 => 1033 case 32 => 1115 case 33 => 1171 case 34 => 1231 case 35 => 1286
    case 36 => 1354 case 37 => 1426 case 38 => 1502 case 39 => 1582 case 40 => 1666
    case _ => 0
  }

  function HighCapacity(ver: nat): int
  {
    match ver
    case 1 => 9 case 2 => 16 case 3 => 26 case 4 => 36 case 5 => 46 case 6 => 60 case 7 => 66
    case 8 => 86 case 9 => 100 case 10 => 122 case 11 => 140 case 12 => 158 case 13 => 180 case 14 => 197
    case 15 => 223 case 16 => 253 case 17 => 283 case 18 => 313 case 19 => 341 case 20 => 385 case 21 => 406
    case 22 => 442 case 23 => 464 case 24 => 514 case 25 => 538 case 26 => 596 case 27 => 628 case 28 => 661
    case 29 => 701 case 30 => 745 case 31 => 793 case 32 => 845 case 33 => 901 case 34 => 961 case 35 => 986
    case 36 => 1054 case 37 => 1096 case 38 => 1142 case 39 => 1222 case 40 => 1276
    case _ => 0
  }

  /** The number of data codewords in table 7 of the standard. */
  function StandardCapacity(ver: nat, ecl: Ecc): int
  {
    match ecl
    case LOW => LowCapacity(ver)
    case MEDIUM => MediumCapacity(ver)
    case QUARTILE => QuartileCapacity(ver)
    case HIGH => HighCapacity(ver)
  }

  lemma LowFirst(ver: nat)
    requires 1 <= ver <= 8
    ensures NumDataCodewords(ver, LOW) == LowCapacity(ver)
  {
    match ver { case 1 => case 2 => case 3 => case 4 => case 5 => case 6 => case 7 => case 8 => }
  }

  lemma LowSecond(ver: nat)
    requires 9 <= ver <= 16
    ensures NumDataCodewords(ver, LOW) == LowCapacity(ver)
  {
    match ver { case 9 => case 10 => case 11 => case 12 => case 13 => case 14 => case 15 => case 16 => }
  }

  lemma LowThird(ver: nat)
    requires 17 <= ver <= 24
    ensures NumDataCodewords(ver, LOW) == LowCapacity(ver)
  {
    match ver { case 17 => case 18 => case 19 => case 20 => case 21 => case 22 => case 23 => case 24 => }
  }

  lemma LowFourth(ver: nat)
    requires 25 <= ver <= 32
    ensures NumDataCodewords(ver, LOW) == LowCapacity(ver)
  {
    match ver { case 25 => case 26 => case 27 => case 28 => case 29 => case 30 => case 31 => case 32 => }
  }

  lemma LowFifth(ver: nat)
    requires 33 <= ver <= 40
    ensures NumDataCodewords(ver, LOW) == LowCapacity(ver)
  {
    match ver { case 33 => case 34 => case 35 => case 36 => case 37 => case 38 => case 39 => case 40 => }
  }

  lemma MediumFirst(ver: nat)
    requires 1 <= ver <= 8
    ensures NumDataCodewords(ver, MEDIUM) == MediumCapacity(ver)
  {
    match ver { case 1 => case 2 => case 3 => case 4 => case 5 => case 6 => case 7 => case 8 => }
  }

  lemma MediumSecond(ver: nat)
    requires 9 <= ver <= 16
    ensures NumDataCodewords(ver, MEDIUM) == MediumCapacity(ver)
  {
    match ver { case 9 => case 10 => case 11 => case 12 => case 13 => case 14 => case 15 => case 16 => }
  }

  lemma MediumThird(ver: nat)
    requires 17 <= ver <= 24
    ensures NumDataCodewords(ver, MEDIUM) == MediumCapacity(ver)
  {
    match ver { case 17 => case 18 => case 19 => case 20 => case 21 => case 22 => case 23 => case 24 => }
  }

  lemma MediumFourth(ver: nat)
    requires 25 <= ver <= 32
    ensures NumDataCodewords(ver, MEDIUM) == MediumCapacity(ver)
  {
    match ver { case 25 => case 26 => case 27 => case 28 => case 29 => case 30 => case 31 => case 32 => }
  }

  lemma MediumFifth(ver: nat)
    requires 33 <= ver <= 40
    ensures NumDataCodewords(ver, MEDIUM) == MediumCapacity(ver)
  {
    match ver { case 33 => case 34 => case 35 => case 36 => case 37 => case 38 => case 39 => case 40 => }
  }

  lemma QuartileFirst(ver: nat)
    requires 1 <= ver <= 8
    ensures NumDataCodewords(ver, QUARTILE) == QuartileCapacity(ver)
  {
    match ver { case 1 => case 2 => case 3 => case 4 => case 5 => case 6 => case 7 => case 8 => }
  }

  lemma QuartileSecond(ver: nat)
    requires 9 <= ver <= 16
    ensures NumDataCodewords(ver, QUARTILE) == QuartileCapacity(ver)
  {
    match ver { case 9 => case 10 => case 11 => case 12 => case 13 => case 14 => case 15 => case 16 => }
  }

  lemma QuartileThird(ver: nat)
    requires 17 <= ver <= 24
    ensures NumDataCodewords(ver, QUARTILE) == QuartileCapacity(ver)
  {
    match ver { case 17 => case 18 => case 19 => case 20 => case 21 => case 22 => case 23 => case 24 => }
  }

  lemma QuartileFourth(ver: nat)
    requires 25 <= ver <= 32
    ensures NumDataCodewords(ver, QUARTILE) == QuartileCapacity(ver)
  {
    match ver { case 25 => case 26 => case 27 => case 28 => case 29 => case 30 => case 31 => case 32 => }
  }

  lemma QuartileFifth(ver: nat)
    requires 33 <= ver <= 40
    ensures NumDataCodewords(ver, QUARTILE) == QuartileCapacity(ver)
  {
    match ver { case 33 => case 34 => case 35 => case 36 => case 37 => case 38 => case 39 => case 40 => }
  }

  lemma HighFirst(ver: nat)
    requires 1 <= ver <= 8
    ensures NumDataCodewords(ver, HIGH) == HighCapacity(ver)
  {
    match ver { case 1 => case 2 => case 3 => case 4 => case 5 => case 6 => case 7 => case 8 => }
  }

  lemma HighSecond(ver: nat)
    requires 9 <= ver <= 16
    ensures NumDataCodewords(ver, HIGH) == HighCapacity(ver)
  {
    match ver { case 9 => case 10 => case 11 => case 12 => case 13 => case 14 => case 15 => case 16 => }
  }

  lemma HighThird(ver: nat)
    requires 17 <= ver <= 24
    ensures NumDataCodewords(ver, HIGH) == HighCapacity(ver)
  {
    match ver { case 17 => case 18 => case 19 => case 20 => case 21 => case 22 => case 23 => case 24 => }
  }

  lemma HighFourth(ver: nat)
    requires 25 <= ver <= 32
    ensures NumDataCodewords(ver, HIGH) == HighCapacity(ver)
  {
    match ver { case 25 => case 26 => case 27 => case 28 => case 29 => case 30 => case 31 => case 32 => }
  }

  lemma HighFifth(ver: nat)
    requires 33 <= ver <= 40
    ensures NumDataCodewords(ver, HIGH) == HighCapacity(ver)
  {
    match ver { case 33 => case 34 => case 35 => case 36 => case 37 => case 38 => case 39 => case 40 => }
  }

  /** The source's tables and formula yield the standard's capacities. */
  lemma CapacityIsStandard(ver: nat, ecl: Ecc)
    requires IsVersion(ver)
    ensures NumDataCodewords(ver, ecl) == StandardCapacity(ver, ecl)
  {
    hide NumDataCodewords, LowCapacity, MediumCapacity, QuartileCapacity, HighCapacity;
    match ecl
    case LOW =>
      if ver <= 8 { LowFirst(ver); } else if ver <= 16 { LowSecond(ver); }
      else if ver <= 24 { LowThird(ver); } else if ver <= 32 { LowFourth(ver); } else { LowFifth(ver); }
    case MEDIUM =>
      if ver <= 8 { MediumFirst(ver); } else if ver <= 16 { MediumSecond(ver); }
      else if ver <= 24 { MediumThird(ver); } else if ver <= 32 { MediumFourth(ver); } else { MediumFifth(ver); }
    case QUARTILE =>
      if ver <= 8 { QuartileFirst(ver); } else if ver <= 16 { QuartileSecond(ver); }
      else if ver <= 24 { QuartileThird(ver); } else if ver <= 32 { QuartileFourth(ver); } else { QuartileFifth(ver); }
    case HIGH =>
      if ver <= 8 { HighFirst(ver); } else if ver <= 16 { HighSecond(ver); }
      else if ver <= 24 { HighThird(ver); } else if ver <= 32 { HighFourth(ver); } else { HighFifth(ver); }
  }
}

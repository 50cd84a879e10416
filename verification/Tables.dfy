/** Symbol capacities: the version and error correction tables and the arithmetic on them. */
module Tables {
  datatype Ecc = LOW | MEDIUM | QUARTILE | HIGH
  {
    function Ordinal(): (o: nat)
      ensures o < 4
    {
      match this
      case LOW => 0
      case MEDIUM => 1
      case QUARTILE => 2
      case HIGH => 3
    }

    function FormatBits(): (b: nat)
      ensures b < 4
    {
      match this
      case LOW => 1
      case MEDIUM => 0
      case QUARTILE => 3
      case HIGH => 2
    }
  }

  predicate IsVersion(ver: int)
  {
    1 <= ver <= 40
  }

  // Rows of the two tables, indexed by version; index 0 is padding.

  const ECC_LOW: seq<int> := [
    -1, 7, 10, 15, 20, 26, 18, 20, 24, 30, 18, 20, 24, 26, 30, 22, 24, 28, 30, 28, 28
  ] + [
    28, 28, 30, 30, 26, 28, 30, 30, 30, 30, 30, 30, 30, 30, 30, 30, 30, 30, 30, 30
  ]

  const ECC_MEDIUM: seq<int> := [
    -1, 10, 16, 26, 18, 24, 16, 18, 22, 22, 26, 30, 22, 22, 24, 24, 28, 28, 26, 26, 26
  ] + [
    26, 28, 28, 28, 28, 28, 28, 28, 28, 28, 28, 28, 28, 28, 28, 28, 28, 28, 28, 28
  ]

  const ECC_QUARTILE: seq<int> := [
    -1, 13, 22, 18, 26, 18, 24, 18, 22, 20, 24, 28, 26, 24, 20, 30, 24, 28, 28, 26, 30
  ] + [
    28, 30, 30, 30, 30, 28, 30, 30, 30, 30, 30, 30, 30, 30, 30, 30, 30, 30, 30, 30
  ]

  const ECC_HIGH: seq<int> := [
    -1, 17, 28, 22, 16, 22, 28, 26, 26, 24, 28, 24, 28, 22, 24, 24, 30, 28, 28, 26, 28
  ] + [
    30, 24, 30, 30, 30, 30, 30, 30, 30, 30, 30, 30, 30, 30, 30, 30, 30, 30, 30, 30
  ]

  const BLOCKS_LOW: seq<int> := [
    -1, 1, 1, 1, 1, 1, 2, 2, 2, 2, 4, 4, 4, 4, 4, 6, 6, 6, 6, 7, 8
  ] + [
    8, 9, 9, 10, 12, 12, 12, 13, 14, 15, 16, 17, 18, 19, 19, 20, 21, 22, 24, 25
  ]

  const BLOCKS_MEDIUM: seq<int> := [
    -1, 1, 1, 1, 2, 2, 4, 4, 4, 5, 5, 5, 8, 9, 9, 10, 10, 11, 13, 14, 16
  ] + [
    17, 17, 18, 20, 21, 23, 25, 26, 28, 29, 31, 33, 35, 37, 38, 40, 43, 45, 47, 49
  ]

  const BLOCKS_QUARTILE: seq<int> := [
    -1, 1, 1, 2, 2, 4, 4, 6, 6, 8, 8, 8, 10, 12, 16, 12, 17, 16, 18, 21, 20
  ] + [
    23, 23, 25, 27, 29, 34, 34, 35, 38, 40, 43, 45, 48, 51, 53, 56, 59, 62, 65, 68
  ]

  const BLOCKS_HIGH: seq<int> := [
    -1, 1, 1, 2, 4, 4, 4, 5, 6, 8, 8, 11, 11, 16, 16, 18, 16, 19, 21, 25, 25
  ] + [
    25, 34, 30, 32, 35, 37, 40, 42, 45, 48, 51, 54, 57, 60, 63, 66, 70, 74, 77, 81
  ]

  /** The number of bits that fit into a symbol once the function modules are excluded. */
  function NumRawDataModules(ver: nat): (n: int)
    requires IsVersion(ver)
  {
    var result := (16 * ver + 128) * ver + 64;
    if ver >= 2 then
      var numAlign := ver / 7 + 2;
      var lessAlignment := result - ((25 * numAlign - 10) * numAlign - 55);
      if ver >= 7 then lessAlignment - 36 else lessAlignment
    else result
  }

  function EccPerBlock(ver: nat, ecl: Ecc): int
    requires IsVersion(ver)
  {
    match ecl
    case LOW => ECC_LOW[ver]
    case MEDIUM => ECC_MEDIUM[ver]
    case QUARTILE => ECC_QUARTILE[ver]
    case HIGH => ECC_HIGH[ver]
  }

  function NumBlocks(ver: nat, ecl: Ecc): int
    requires IsVersion(ver)
  {
    match ecl
    case LOW => BLOCKS_LOW[ver]
    case MEDIUM => BLOCKS_MEDIUM[ver]
    case QUARTILE => BLOCKS_QUARTILE[ver]
    case HIGH => BLOCKS_HIGH[ver]
  }

  function NumDataCodewords(ver: nat, ecl: Ecc): int
    requires IsVersion(ver)
  {
    NumRawDataModules(ver) / 8 - EccPerBlock(ver, ecl) * NumBlocks(ver, ecl)
  }

  /** The values of `NumRawDataModules`, as the lookup table it could be. */
  const RAW_MODULES: seq<int> := [
    -1, 208, 359, 567, 807, 1079, 1383, 1568, 1936, 2336, 2768, 3232, 3728, 4256, 4651, 5243, 5867, 6523, 7211, 7931,
    8683
  ] + [
    9252, 10068, 10916, 11796, 12708, 13652, 14628, 15371, 16411, 17483, 18587, 19723, 20891, 22091, 23008, 24272,
    25568, 26896, 28256, 29648
  ]

  lemma RawTableFirst(ver: nat)
    requires 1 <= ver <= 20
    ensures NumRawDataModules(ver) == RAW_MODULES[ver]
  {
  }

  lemma RawTableSecond(ver: nat)
    requires 20 < ver <= 40
    ensures NumRawDataModules(ver) == RAW_MODULES[ver]
  {
  }

  /** What the block-splitting code needs of the tables, without division. */
  predicate Sound(raw: int, blocks: int, ecc: int)
  {
    && 208 <= raw <= 29648 && blocks >= 1 && 7 <= ecc <= 30
    && 8 * (ecc + 1) * blocks <= raw < 8 * 255 * blocks
  }

  lemma LowFirst(ver: nat)
    requires 1 <= ver <= 10
    ensures Sound(RAW_MODULES[ver], BLOCKS_LOW[ver], ECC_LOW[ver])
  {
  }

  lemma LowMiddle(ver: nat)
    requires 10 < ver <= 20
    ensures Sound(RAW_MODULES[ver], BLOCKS_LOW[ver], ECC_LOW[ver])
  {
  }

  lemma LowSecond(ver: nat)
    requires 20 < ver <= 40
    ensures Sound(RAW_MODULES[ver], BLOCKS_LOW[ver], ECC_LOW[ver])
  {
  }

  lemma MediumFirst(ver: nat)
    requires 1 <= ver <= 10
    ensures Sound(RAW_MODULES[ver], BLOCKS_MEDIUM[ver], ECC_MEDIUM[ver])
  {
  }

  lemma MediumMiddle(ver: nat)
    requires 10 < ver <= 20
    ensures Sound(RAW_MODULES[ver], BLOCKS_MEDIUM[ver], ECC_MEDIUM[ver])
  {
  }

  lemma MediumSecond(ver: nat)
    requires 20 < ver <= 40
    ensures Sound(RAW_MODULES[ver], BLOCKS_MEDIUM[ver], ECC_MEDIUM[ver])
  {
  }

  lemma QuartileFirst(ver: nat)
    requires 1 <= ver <= 10
    ensures Sound(RAW_MODULES[ver], BLOCKS_QUARTILE[ver], ECC_QUARTILE[ver])
  {
  }

  lemma QuartileMiddle(ver: nat)
    requires 10 < ver <= 20
    ensures Sound(RAW_MODULES[ver], BLOCKS_QUARTILE[ver], ECC_QUARTILE[ver])
  {
  }

  lemma QuartileSecond(ver: nat)
    requires 20 < ver <= 40
    ensures Sound(RAW_MODULES[ver], BLOCKS_QUARTILE[ver], ECC_QUARTILE[ver])
  {
  }

  lemma HighFirst(ver: nat)
    requires 1 <= ver <= 10
    ensures Sound(RAW_MODULES[ver], BLOCKS_HIGH[ver], ECC_HIGH[ver])
  {
  }

  lemma HighMiddle(ver: nat)
    requires 10 < ver <= 20
    ensures Sound(RAW_MODULES[ver], BLOCKS_HIGH[ver], ECC_HIGH[ver])
  {
  }

  lemma HighSecond(ver: nat)
    requires 20 < ver <= 40
    ensures Sound(RAW_MODULES[ver], BLOCKS_HIGH[ver], ECC_HIGH[ver])
  {
  }

  /** Every version and level: at least one block, room for data in each, at most 255 bytes in each. */
  lemma TablesAreSound(ver: nat, ecl: Ecc)
    requires IsVersion(ver)
    ensures Sound(NumRawDataModules(ver), NumBlocks(ver, ecl), EccPerBlock(ver, ecl))
  {
    hide Sound, NumRawDataModules;
    if ver <= 10 {
      RawTableFirst(ver);
      match ecl
      case LOW => LowFirst(ver);
      case MEDIUM => MediumFirst(ver);
      case QUARTILE => QuartileFirst(ver);
      case HIGH => HighFirst(ver);
    } else if ver <= 20 {
      RawTableFirst(ver);
      match ecl
      case LOW => LowMiddle(ver);
      case MEDIUM => MediumMiddle(ver);
      case QUARTILE => QuartileMiddle(ver);
      case HIGH => HighMiddle(ver);
    } else {
      RawTableSecond(ver);
      match ecl
      case LOW => LowSecond(ver);
      case MEDIUM => MediumSecond(ver);
      case QUARTILE => QuartileSecond(ver);
      case HIGH => HighSecond(ver);
    }
  }
}

# Verified models of the hub's vendored encoders

This project models, in Dafny, the parts of the repository that turn data into exact bit patterns
and back, and proves what they are for. Code that changes state step by step is modelled by
classes, arrays and loops, each proved against a function of its input or its old state; what the
source or the standard behind it promises is then proved about that function.

**QR symbols** (`ui/vendored/qrcodegen.js`, ISO/IEC 18004:2015). The encoder is modelled stage by
stage, and each stage has a reader of the model's own. `Reading.RoundTrip` joins them: whatever
list of segments the makers accept and `encodeSegments` encodes, the modules alone give the
segments back. On the way there are the field laws of GF(2^8)/0x11D (`GaloisField`), roots and
minimum distance of the Reed-Solomon code for blocks of up to 255 bytes (`ReedSolomon`), lossless
interleaving for all block parameters (`Interleave`), the zigzag scan as a bijection with the data
area (`Zigzag`), the number of cells that the function patterns leave free, by inclusion and
exclusion over the cells drawn (`DataAreaCount`), the line penalty as a declarative count
(`LinePenalty`), and the automatic choice of the cheapest mask (`Symbols`). What encoder and reader
share is tied to the standard: scan order, mask patterns, count widths, characters, pad bits, block
order, capacities (`Capacities`), format and version words (`CyclicWords`), and the look of the
function patterns (`SymbolLook`).

**Deflate and inflate** (modules 48 to 50 and 52 of the compression code in
`ui/vendored/pptxgen.bundle.js`, RFC 1951). The Huffman tree builder with its length repair yields
a complete canonical code for any frequencies, its running bit counts are exact, and it is decided
exactly when the code is optimal (`HuffmanTree`, `HuffmanLengths`, `HuffmanOptimal`,
`HuffmanHeight`, `CutLengths`, `DeflateCodes`).
The decoding table refines the canonical code (`InflateTable`) and tells what the symbols stand for
(`SymbolMeaning`), so what deflate stores, inflate decodes (`HuffmanRoundTrip`). Sliding window, match state and fast loop produce the byte-by-byte
meaning of a token stream for any division of output and input into calls (`InflateWindow`).

**ZIP files and checksums** (modules 4, 8, 43 and 45 of the bundle). The writer's offsets hold over
any run in both modes, and a reader that trusts only the end record gets every file back with all
fields of its records (`ZipWriter`). Adler-32 with deferred reduction and the table CRC-32 refine their definitions
(`Checksums`).

**SSH signatures** (`hub/vendored/ssh-sig/reference/`). Writer, cursor reader and parser of SSHSIG
blobs with their round trip (`SshSig`, `SigParser`), what the parser reads from outside a window
(`SigContainment`), the two numbers of an ECDSA signature (`SigNumbers`), and the message that is
verified (`SignedMessage`).

**Base 58** (`hub/vendored/ocg/kernels/_signverdict.inline.js`). The carry loop of the `did:key`
encoder, with decoding and injectivity (`Base58`).

Some promises hold only under a condition, which is stated exactly:

- The ZIP library's `crc32` returns 0 for an empty chunk whatever came before. Accumulated over
  the chunks of a file it is right for all contents exactly if no empty chunk follows content
  (`Checksums.ProbeIsCrcIff`).
- `b58e` writes one `1` too many when no byte is nonzero. Decoding undoes it exactly if some byte
  is nonzero (`Base58.DecodeUndoesIff`); different inputs still never collide.
- `peekBytes` places its window on the whole buffer, so a nested string may run past the blob it
  is in. On success the parser agrees with one whose windows are confined exactly if every string
  of the key blob and of the signature blob ends in its own window
  (`SigContainment.ConfinedIff`), and its result depends on the bytes of the blob alone exactly if
  no such string ends behind it (`SigContainment.DeterminedIff`). A blob that the writer makes fits
  (`SigContainment.BlobFits`); for one that does not, `SigContainment.EscapedKey` gives the key that
  a successful parse returns, made of the bytes behind the key blob.
- The parser joins r and s of an ECDSA signature, which are stored without leading zero bytes, as
  they are but for one rule on a leading zero. The result has the fixed width that a verifier
  expects exactly if each number has a nonzero first byte, or a zero one before a byte with its top
  bit set (`SigNumbers.NumbersJoin`, with 62 bytes instead of 64 in `SigNumbers.ShortSignature`).
- Code lengths over the maximum are cut. Let the frequencies add up to less than 65536, as they do
  in the source, whose blocks hold at most 32768 symbols. The final lengths take the fewest bits of
  all lengths that satisfy Kraft's inequality exactly if the number of used symbols is not one and
  no leaf of the tree is deeper than the maximum; and no leaf is, exactly if some cheapest code
  respects the maximum at all (`CutLengths.FinalLengths`, in the contract of
  `DeflateCodes.BuildTree`). One used symbol gets one bit where none would do. Before the call, a
  total frequency below a Fibonacci number, 55 for seven bits and 2584 for fifteen, excludes a cut
  (`CutLengths.LightIsUncut`); the frequencies 1, 1, 2, 3, 5, 8, 13, 21, 34 with seven bits force
  one (`CutExample.SevenBitsCostMore`). With cut lengths the code is still complete and its bit
  count exact.

Conventions: bytes are natural numbers below 256 and the bit operators are recursive functions on
numbers (`Bits`). JavaScript exceptions are values of `Results.Result`; the branches of the
source that throw an assertion error are proved never to be taken. Members of a bundle module are all on line 33 of the
bundle, which is minified. `dfyconfig.toml` lists all files.

## Model

| member | source | states |
|---|---|---|
| Reading.RoundTrip | ui/vendored/qrcodegen.js:83-655 | For every list of numeric, alphanumeric, byte and ECI payloads that the makers accept and every symbol that `encodeSegments` returns for their segments: unmasking with the stored mask, reading the zigzag, de-interleaving, dropping the error correction and parsing headers gives exactly those payloads, with the version, level and mask, followed only by terminator and pad bits |
| Reading.EncodingIsInjective | ui/vendored/qrcodegen.js:83-655 | Two symbols with the same modules were made from the same payloads, with the same version, level and mask |
| Reading.SymbolReads | ui/vendored/qrcodegen.js:83-131 | For any data codewords given to the constructor the reader recovers version, level, mask and data from the modules alone |
| Reading.FormatReads | ui/vendored/qrcodegen.js:240-265 | The first copy of the format bits gives back level and mask |
| Reading.AreaReads | ui/vendored/qrcodegen.js:369-422 | The unmasked data area holds the codeword bits in order, then only white remainder bits |
| Reading.CodewordsRead | ui/vendored/qrcodegen.js:369-422 | Unmasking and packing the data area returns the interleaved codewords |
| Encoding.EncodeSegments | ui/vendored/qrcodegen.js:595-655 | The three outcomes: bad arguments, no version of the range fits, or a symbol holding exactly the stream and its padding in the least fitting version, at the highest level that still fits (never below the request), with the given mask or the cheapest one |
| Encoding.FindVersion | ui/vendored/qrcodegen.js:603-612 | The least version of the range that fits, or none if no version of the range fits |
| Encoding.GetTotalBits | ui/vendored/qrcodegen.js:956-966 | Infinity exactly when some count does not fit its field; otherwise the length of the stream: for each segment four bits, the width of its count field, and its data |
| Encoding.BoostLevel | ui/vendored/qrcodegen.js:614-618 | The highest level that still fits, at least the requested one; the requested one without boosting |
| Encoding.BoostedIsHighest | ui/vendored/qrcodegen.js:614-618 | After the three boosting steps every higher level is too small, and the level was never lowered |
| Encoding.CapacityIsWhole | ui/vendored/qrcodegen.js:683-687 | The data capacity is a positive whole number of bytes for every version and level |
| Encoding.AppendSegments | ui/vendored/qrcodegen.js:620-630 | The buffer holds exactly the concatenated segments with their headers; no field is refused |
| Encoding.Terminate | ui/vendored/qrcodegen.js:632-639 | Up to four zero bits, then zero bits up to a whole byte, never past the capacity |
| Encoding.AppendPadBytes | ui/vendored/qrcodegen.js:641-643 | The pad loop ends exactly at the capacity with alternating 0xEC and 0x11 bytes |
| Encoding.PadToggles | ui/vendored/qrcodegen.js:642 | The exclusive-or step alternates between the two pad bytes |
| Encoding.Pad | ui/vendored/qrcodegen.js:632-643 | Terminator, zero bits and pad bytes fill the capacity exactly |
| Encoding.TailTerminates | ui/vendored/qrcodegen.js:632-643 | What follows the segments always starts with a terminator, or with fewer than four bits |
| Encoding.PadPattern | ui/vendored/qrcodegen.js:641-643 | The pad bytes spell 11101100 and 00010001 in turn |
| Encoding.TailShape | ui/vendored/qrcodegen.js:632-643 | Bit by bit: four zero bits or as many as fit, zero bits up to a whole byte, then the pad pattern up to the capacity |
| BitStream.BitBuffer.constructor | ui/vendored/qrcodegen.js:1039-1040 | A new buffer is empty |
| BitStream.BitBuffer.AppendBits | ui/vendored/qrcodegen.js:1044-1049 | Appends the field most significant bit first; refuses exactly bad lengths and values that do not fit, leaving the buffer as it is |
| BitStream.ValueOfBits | ui/vendored/qrcodegen.js:1044-1049 | A field that fits is read back |
| BitStream.BitAt | ui/vendored/qrcodegen.js:1047-1048 | Bit i of a field is the bit `(val >>> (len - 1 - i)) & 1` |
| BitStream.PackBytes | ui/vendored/qrcodegen.js:645-651 | The packed bytes have exactly the given bits: packing by or-assignments is undone by `BytesToBits` |
| BitStream.BytesToBitsAt | ui/vendored/qrcodegen.js:383 | `getBit(data[k >>> 3], 7 - (k & 7))` is bit k of the byte string |
| Segments.Mode.NumCharCountBits | ui/vendored/qrcodegen.js:1000-1012 | The width of the count field by the standard: written out for each mode over the versions 1 to 9, 10 to 26 and 27 to 40 |
| Segments.CharsetInOrder | ui/vendored/qrcodegen.js:986 | The values 0 to 9 are the digits, 10 to 35 the capital letters, 36 to 44 the nine signs |
| Segments.MakeBytes | ui/vendored/qrcodegen.js:869-875 | The segment of the byte payload: eight bits a byte |
| Segments.MakeNumeric | ui/vendored/qrcodegen.js:881-891 | Succeeds exactly on digit strings, with the three-digit grouping the reader inverts |
| Segments.MakeAlphanumeric | ui/vendored/qrcodegen.js:899-912 | Succeeds exactly on strings over the 45 characters, with the pair grouping the reader inverts |
| Segments.MakeEci | ui/vendored/qrcodegen.js:936-951 | Succeeds exactly on assignment values below 1000000, with the prefix code the reader inverts |
| Segments.NumericReads | ui/vendored/qrcodegen.js:881-891 | Reading the numeric bits with the right count returns the digits, leading zeros included, and the rest of the stream |
| Segments.DigitsOfParseInt | ui/vendored/qrcodegen.js:887 | The value of a group and its length determine its digits |
| Segments.AlphanumericReads | ui/vendored/qrcodegen.js:899-912 | Reading the alphanumeric bits returns the characters and the rest |
| Segments.EciReads | ui/vendored/qrcodegen.js:936-951 | The three prefixes are told apart and the value is returned |
| Segments.SegmentReads | ui/vendored/qrcodegen.js:622-628 | A header and its data are read back as the payload; a segment never looks like a terminator |
| Segments.StreamReads | ui/vendored/qrcodegen.js:622-628 | The stream of any payloads, followed by a terminator or fewer than four bits, is read back as those payloads |
| GaloisField.ReedSolomonMultiply | ui/vendored/qrcodegen.js:735-747 | The peasant loop computes the field product; both range checks pass |
| GaloisField.MulCommutes | ui/vendored/qrcodegen.js:735-747 | The product is commutative |
| GaloisField.MulAssociates | ui/vendored/qrcodegen.js:735-747 | The product is associative |
| GaloisField.MulDistributes | ui/vendored/qrcodegen.js:735-747 | The product distributes over exclusive-or |
| GaloisField.DefiningEquation | ui/vendored/qrcodegen.js:735-747 | Multiplication by x shifts, and x^8 is x^4 + x^3 + x^2 + 1, which with the laws determines every product |
| GaloisField.MulNonzero | ui/vendored/qrcodegen.js:735-747 | No zero divisors |
| GaloisField.Reciprocal | ui/vendored/qrcodegen.js:735-747 | Every nonzero byte has a reciprocal |
| GaloisField.AlphaOrder | ui/vendored/qrcodegen.js:702-704 | 2 has order 255: no smaller positive power is 1 |
| GaloisField.AlphaDistinct | ui/vendored/qrcodegen.js:702-704 | The first 255 powers of 2 differ |
| GaloisField.Logarithm | ui/vendored/qrcodegen.js:702-704 | Every nonzero byte is a power of 2 |
| ReedSolomon.MultiplyByRoot | ui/vendored/qrcodegen.js:707-712 | In place: the coefficient array times (x - root) |
| ReedSolomon.ComputeDivisor | ui/vendored/qrcodegen.js:692-716 | Refuses exactly degrees outside 1..255; otherwise the divisor polynomial |
| ReedSolomon.DivisorIsProduct | ui/vendored/qrcodegen.js:702-704 | With its leading 1 restored the divisor is (x - 2^0)...(x - 2^(d-1)) |
| ReedSolomon.RootProductRoots | ui/vendored/qrcodegen.js:702-704 | The product vanishes at 2^0 .. 2^(d-1) |
| ReedSolomon.ComputeRemainder | ui/vendored/qrcodegen.js:720-730 | The division loop computes the remainder |
| ReedSolomon.DivisionStepIsAddition | ui/vendored/qrcodegen.js:722-728 | One division step adds a multiple of the divisor to the codeword so far |
| ReedSolomon.RemainderKeepsRoots | ui/vendored/qrcodegen.js:720-730 | Data followed by its remainder vanishes wherever the divisor does, for data of any length |
| ReedSolomon.CodewordRoots | ui/vendored/qrcodegen.js:692-747 | Every codeword, of any length, evaluates to zero at 2^0 .. 2^(d-1) |
| ReedSolomon.FewErrorsShow | ui/vendored/qrcodegen.js:692-747 | A word of at most 255 bytes with at most d nonzero ones whose first d power sums vanish is zero (Vandermonde elimination) |
| ReedSolomon.MinimumDistance | ui/vendored/qrcodegen.js:692-747 | Codewords of different data of one length differ in at least degree + 1 bytes, if no longer than 255 |
| ReedSolomon.CloseCodewordsAgree | ui/vendored/qrcodegen.js:692-747 | Codewords that differ in at most `degree` bytes carry the same data |
| ReedSolomon.CorrectionIsUnique | ui/vendored/qrcodegen.js:692-747 | A received word within half the degree of two codewords determines the data |
| Tables.TablesAreSound | ui/vendored/qrcodegen.js:780-796 | For every version and level: at least one block, data and error correction in each block, fewer than 255 bytes a short block |
| Tables.RawTableFirst | ui/vendored/qrcodegen.js:666-677 | The capacity formula as the lookup table it could be, versions 1 to 20 |
| Tables.RawTableSecond | ui/vendored/qrcodegen.js:666-677 | The capacity formula as the lookup table it could be, versions 21 to 40 |
| Capacities.CapacityIsStandard | ui/vendored/qrcodegen.js:683-687 | The source's two tables and its formula yield the number of data codewords of the standard for every version and level |
| Interleave.LayoutFits | ui/vendored/qrcodegen.js:334-338 | The tables give block structures with all properties the splitting needs |
| Interleave.Layout.Totals | ui/vendored/qrcodegen.js:337-350 | For all block parameters the blocks use up the data, and the columns add up to the raw capacity |
| Interleave.Layout.PositionsDistinct | ui/vendored/qrcodegen.js:352-360 | No two bytes of blocks go to the same place of the result |
| Interleave.Layout.PositionTaken | ui/vendored/qrcodegen.js:352-360 | Every place of the result is taken by some byte of a block |
| Interleave.Layout.PositionsInOrder | ui/vendored/qrcodegen.js:352-360 | Bytes are taken column by column: data by its place in the block, then error correction by its place, blocks in order for one place |
| Interleave.Layout.BlocksAreBalanced | ui/vendored/qrcodegen.js:340-349 | Blocks hold equally much data, or later ones one byte more |
| Interleave.SplitBlocks | ui/vendored/qrcodegen.js:340-350 | Block j is its slice of the data, a pad byte if it is short, and its remainder |
| Interleave.InterleaveBlocks | ui/vendored/qrcodegen.js:352-363 | The result has exactly the raw length, and byte i of block j is at its position; only pad bytes are skipped |
| Interleave.Layout.InterleavesCarries | ui/vendored/qrcodegen.js:340-363 | Interleaved blocks carry every block's data and error correction |
| Interleave.Layout.DeinterleaveGivesBack | ui/vendored/qrcodegen.js:340-363 | De-interleaving returns the data, for all block parameters |
| Interleave.AddEccAndInterleave | ui/vendored/qrcodegen.js:329-364 | Refuses exactly data of the wrong length; otherwise the codewords carry the data |
| Interleave.BlocksAreCodewords | ui/vendored/qrcodegen.js:340-350 | Every block of a symbol is a Reed-Solomon codeword of at most 255 bytes |
| Interleave.DamageDeterminesData | ui/vendored/qrcodegen.js:329-364 | If in every block at most half as many bytes are damaged as it has error correction bytes, no other data fits what is left |
| Zigzag.ScanIsFull | ui/vendored/qrcodegen.js:374-381 | The loops visit the cells in the order of the standard: cell k is in pair k / (2 size), pairs go from right to left without column 6, upward and downward in turn from the bottom right corner, and the right cell of a row comes first |
| Zigzag.UpwardAlternates | ui/vendored/qrcodegen.js:380 | The direction test of the source is true for every other pair, the first one included |
| Zigzag.FullScanMembers | ui/vendored/qrcodegen.js:374-381 | The scan visits every cell outside column 6 once and no other cell |
| Zigzag.DataAreaMembers | ui/vendored/qrcodegen.js:374-385 | The scan meets every non-function cell exactly once, if column 6 holds function cells |
| Zigzag.DrawCell | ui/vendored/qrcodegen.js:382-385 | One cell: the next bit if it is a data cell and bits are left, else unchanged |
| Zigzag.DrawPair | ui/vendored/qrcodegen.js:377-389 | One column pair, upward or downward as the scan demands |
| Zigzag.DrawCodewords | ui/vendored/qrcodegen.js:369-393 | For every size 4v+17 and every function mask: succeeds exactly when there are enough cells; then the first cells of the scan hold the bits and every other cell is unchanged |
| Zigzag.DrawnReads | ui/vendored/qrcodegen.js:369-393 | Reading in the same order returns the bits |
| Patterns.Canvas.constructor | ui/vendored/qrcodegen.js:96-105 | Two white grids of the given size |
| Patterns.Canvas.SetFunctionModule | ui/vendored/qrcodegen.js:319-322 | Colours and marks one cell and no other |
| Patterns.Canvas.DrawTiming | ui/vendored/qrcodegen.js:210-214 | Row 6 and column 6, alternating; nothing else changes |
| Patterns.Canvas.DrawFinderPattern | ui/vendored/qrcodegen.js:295-304 | The 9*9 pattern by Chebyshev distance, clipped to the grid; nothing else changes |
| Patterns.Canvas.DrawAlignmentPattern | ui/vendored/qrcodegen.js:309-314 | The 5*5 pattern by Chebyshev distance; nothing else changes |
| Patterns.Canvas.DrawFormatBits | ui/vendored/qrcodegen.js:240-265 | Both copies of the format word and the black module; the assertion holds; nothing else changes |
| Patterns.Canvas.DrawFormatWord | ui/vendored/qrcodegen.js:250-264 | The 31 paint steps colour each format cell once |
| Patterns.Canvas.DrawFirstFormat | ui/vendored/qrcodegen.js:250-257 | The first 15 paint steps |
| Patterns.Canvas.DrawVersion | ui/vendored/qrcodegen.js:270-290 | Nothing below version 7, else both copies of the version word; the assertion holds |
| Patterns.Canvas.DrawVersionWord | ui/vendored/qrcodegen.js:282-289 | Both 3*6 blocks of version bits |
| Patterns.FormatWordTop | ui/vendored/qrcodegen.js:242-248 | The format word has 15 bits; the top five are level and mask, exclusive-or 10101 |
| CyclicWords.FormatIsCodeword | ui/vendored/qrcodegen.js:242-246 | Without the pattern 101010000010010 the format word is level and mask and ten bits that make it a multiple of x^10 + x^8 + x^5 + x^4 + x^2 + x + 1 |
| CyclicWords.VersionIsCodeword | ui/vendored/qrcodegen.js:275-278 | The version word is the version and twelve bits that make it a multiple of x^12 + x^11 + x^10 + x^9 + x^8 + x^5 + x^2 + 1 |
| Patterns.VersionWordBound | ui/vendored/qrcodegen.js:275-280 | The version word has 18 bits |
| Patterns.OverlayTwice | ui/vendored/qrcodegen.js:209-235 | Painting one layer and then another is painting the second over the first |
| FunctionArea.GetAlignmentPatternPositions | ui/vendored/qrcodegen.js:509-521 | The list built from the end equals the closed form: 6, then equal steps to size - 7 |
| FunctionArea.CentresWellSpaced | ui/vendored/qrcodegen.js:509-521 | For every version from 2: at least two centres, from 6 to size - 7, at least 8 apart |
| FunctionArea.CentresAreStandard | ui/vendored/qrcodegen.js:509-521 | For every version from 2 the centres are 6, then the distances of the standard's table up to size - 7 |
| FunctionArea.DrawFinders | ui/vendored/qrcodegen.js:216-219 | All three finder patterns |
| FunctionArea.DrawAlignRow | ui/vendored/qrcodegen.js:225-229 | One row of alignment patterns without finder corners |
| FunctionArea.DrawAlignRows | ui/vendored/qrcodegen.js:221-230 | All alignment patterns without finder corners |
| FunctionArea.DrawFunctionPatterns | ui/vendored/qrcodegen.js:209-235 | The grids show exactly the layered function patterns; every other cell is unchanged |
| DataAreaCount.FrameCount | ui/vendored/qrcodegen.js:210-290 | Timing, finder, format and version cells number 225 + 2(size - 17), and 36 more with version bits |
| DataAreaCount.ExtraCount | ui/vendored/qrcodegen.js:221-230 | For any ascending well-spaced list of n >= 2 centres, alignment cells off row and column 6 number 25(n-1)^2 + 40(n-2), cells counted once |
| DataAreaCount.FrameAndExtra | ui/vendored/qrcodegen.js:209-290 | Function cells are the frame and the extra alignment cells, which do not meet |
| DataAreaCount.MarkedMembers | ui/vendored/qrcodegen.js:209-290 | For any size and any well-spaced centres: the counted set is exactly the frame and the cells that the alignment patterns paint, all inside the symbol |
| DataAreaCount.MarkedCount | ui/vendored/qrcodegen.js:209-290 | For any size, any well-spaced centres or none, with or without version bits: the number of function cells |
| DataAreaCount.FunctionCellsMembers | ui/vendored/qrcodegen.js:209-322 | The counted set is exactly the set of cells that the drawing marks |
| DataAreaCount.FunctionCellsCount | ui/vendored/qrcodegen.js:666-677 | For the 40 versions that is what the capacity formula says: the cells left unmarked number exactly that many |
| DataAreaCount.DataAreaSize | ui/vendored/qrcodegen.js:666-677 | The zigzag finds exactly that many data cells |
| DataAreaCount.TimingIsFunction | ui/vendored/qrcodegen.js:210-214 | Column 6 holds function cells only, as the scan needs |
| Masking.FormulaIsPicture | ui/vendored/qrcodegen.js:408-415 | The eight formulas draw the patterns of the standard over the whole plane, given by the columns of black cells in each row |
| Masking.ApplyMask | ui/vendored/qrcodegen.js:401-422 | Refuses exactly masks outside 0..7; inverts exactly the data cells that the pattern selects |
| Masking.MaskingUndoes | ui/vendored/qrcodegen.js:123 | Applying a mask twice restores the grid |
| LinePenalty.RunsAreMaximal | ui/vendored/qrcodegen.js:431-451 | The runs of a line cut it into stretches of one colour between cells that differ |
| LinePenalty.FinderIsHistory | ui/vendored/qrcodegen.js:526-533 | A 1:1:3:1:1 pattern with its quiet zones in the padded line is what the run history shows |
| LinePenalty.HistoryIsFinder | ui/vendored/qrcodegen.js:526-533 | What the run history shows is such a pattern |
| LinePenalty.WhiteRunAdds | ui/vendored/qrcodegen.js:446-447 | A finished white run adds one pattern to each count if the history shows one, and none otherwise |
| LinePenalty.FinderPenaltyAddHistory | ui/vendored/qrcodegen.js:751-754 | The new run in front, the oldest dropped |
| LinePenalty.FinderPenaltyCountPatterns | ui/vendored/qrcodegen.js:526-533 | One for each side with four quiet units |
| LinePenalty.FinderPenaltyTerminateAndCount | ui/vendored/qrcodegen.js:537-545 | The white padding completes the count of the whole line |
| LinePenalty.BlackRunFits | ui/vendored/qrcodegen.js:528-529 | The assertion never fires: no black run in the history is longer than the line |
| LinePenalty.ScoreLine | ui/vendored/qrcodegen.js:432-452 | For every line: the incremental loop equals the sum over maximal runs of at least five cells plus forty for each finder side |
| Masking.ScoreRows | ui/vendored/qrcodegen.js:431-453 | The sum of the line scores of all rows |
| Masking.ScoreColumns | ui/vendored/qrcodegen.js:455-477 | The sum of the line scores of all columns |
| Masking.CountBlocks | ui/vendored/qrcodegen.js:480-488 | The number of one-coloured 2*2 blocks |
| Masking.CountBlack | ui/vendored/qrcodegen.js:491-497 | The number of black cells |
| Masking.CeilingOfShare | ui/vendored/qrcodegen.js:499-500 | The rounded share, as whole steps of five percent |
| Masking.ImbalanceIsLeast | ui/vendored/qrcodegen.js:499-500 | It is the least k >= 0 with the black share within (45-5k)% and (55+5k)% |
| Masking.GetPenaltyScore | ui/vendored/qrcodegen.js:427-503 | The penalty of the grid as a function of its cells |
| Symbols.AreaCells | ui/vendored/qrcodegen.js:369-393 | The data area holds each non-function cell once, as many as the capacity formula says |
| Symbols.DrawAllCodewords | ui/vendored/qrcodegen.js:369-393 | Refuses exactly the wrong number of codewords; the final assertion holds |
| Symbols.DrawUnmasked | ui/vendored/qrcodegen.js:107-110 | Function patterns and codewords on a white grid: everything but the mask |
| Symbols.DrawnShows | ui/vendored/qrcodegen.js:107-110 | Such a grid shows all patterns, the codeword bits, and white remainder bits |
| Symbols.ShowsDetermines | ui/vendored/qrcodegen.js:83-131 | Patterns, mask and codewords determine every cell of the grid |
| SymbolLook.FindersShown | ui/vendored/qrcodegen.js:295-305 | In a finished symbol the three corners show a dark square of three cells in a light one of five in a dark one of seven, with a light border |
| SymbolLook.TimingShown | ui/vendored/qrcodegen.js:211-214 | Between the finder patterns row 6 and column 6 alternate, where alignment patterns cross them too |
| SymbolLook.AlignmentShown | ui/vendored/qrcodegen.js:221-230 | At every pair of centres but the three finder corners there is one dark cell in a light square of three in a dark one of five |
| SymbolLook.FormatShown | ui/vendored/qrcodegen.js:250-264 | Each bit of the format word is at its two places, and the module beside them is black |
| SymbolLook.VersionShown | ui/vendored/qrcodegen.js:282-289 | From version 7 on each bit of the version word is at its two places |
| Symbols.MaskShows | ui/vendored/qrcodegen.js:116-123 | A mask turns the unmasked into the masked symbol and back |
| Symbols.FormatShows | ui/vendored/qrcodegen.js:117 | Redrawing the format bits changes nothing but the named mask |
| Symbols.ToggleMask | ui/vendored/qrcodegen.js:116-123 | Applies or removes a mask; patterns and function cells are unchanged |
| Symbols.SetFormat | ui/vendored/qrcodegen.js:117 | The grid names the mask; all else is unchanged |
| Symbols.FinishMask | ui/vendored/qrcodegen.js:128-129 | The grid is the drawn codewords under the mask, with matching format bits |
| Symbols.TryMask | ui/vendored/qrcodegen.js:116-123 | One trial: the score is that of a finished grid, and the unmasked codewords are restored |
| Symbols.ChooseMask | ui/vendored/qrcodegen.js:113-125 | The chosen mask is the first of the eight with the least penalty of its finished grid |
| Symbols.LastTrial | ui/vendored/qrcodegen.js:128-129 | The final grid is the finished grid that was scored |
| Symbols.ChosenMaskIsBest | ui/vendored/qrcodegen.js:113-129 | No finished grid of the same codewords is cheaper, and ties go to the lowest mask |
| Symbols.NewQrCode | ui/vendored/qrcodegen.js:83-131 | Refuses exactly bad versions, masks and data lengths; otherwise the symbol holds its data, under the given or the cheapest mask; no assertion fires |
| CanonicalCode.StartsInOrder | ui/vendored/pptxgen.bundle.js:33 | Section 3.2.2 of RFC 1951: code words as intervals of 15-bit numbers, shorter ones first, equally long ones in symbol order, without overlap |
| CanonicalCode.OwnerIsUnique | ui/vendored/pptxgen.bundle.js:33 | No 15-bit number starts with two code words |
| CanonicalCode.OwnerExists | ui/vendored/pptxgen.bundle.js:33 | Every number below the Kraft sum starts with a code word |
| CanonicalCode.FirstCodeIsBelow | ui/vendored/pptxgen.bundle.js:33 | The next-code recurrence gives the first interval of each length |
| CanonicalCode.StartIsCode | ui/vendored/pptxgen.bundle.js:33 | The code of a symbol is the start of its interval |
| CanonicalCode.CodesFit | ui/vendored/pptxgen.bundle.js:33 | With a Kraft sum of at most one, every code fits its length |
| CanonicalCode.WordIsPrefix | ui/vendored/pptxgen.bundle.js:33 | Fifteen bits start with a code word exactly when their value lies in its interval |
| CanonicalCode.PrefixFree | ui/vendored/pptxgen.bundle.js:33 | No code word is a prefix of another |
| CanonicalCode.DecodesUniquely | ui/vendored/pptxgen.bundle.js:33 | With a complete code any fifteen bits start with exactly one code word |
| BitReversal.ReversedBit | ui/vendored/pptxgen.bundle.js:33 | Bit i of the reversed code is bit i of the code word |
| BitReversal.ReverseTwice | ui/vendored/pptxgen.bundle.js:33 | Reversal is its own inverse |
| BitReversal.ReverseSuccessor | ui/vendored/pptxgen.bundle.js:33 | Reversing the next number is adding one from the top bit down |
| HuffmanHeap.SiftDown | ui/vendored/pptxgen.bundle.js:33 | Restores the heap order from one place on, keeps the contents and everything outside the heap |
| HuffmanHeap.FirstIsSmallest | ui/vendored/pptxgen.bundle.js:33 | The first node of an ordered heap is smallest |
| HuffmanTree.DeflateState.constructor | ui/vendored/pptxgen.bundle.js:33 | Arrays of the source's sizes |
| HuffmanTree.TreeDesc.constructor | ui/vendored/pptxgen.bundle.js:33 | A descriptor over given arrays |
| HuffmanTree.CollectLeaves | ui/vendored/pptxgen.bundle.js:33 | The heap holds exactly the symbols with a frequency, in order; unused symbols get length 0 |
| HuffmanTree.ForceTwoLeaves | ui/vendored/pptxgen.bundle.js:33 | With fewer than two leaves the smallest free symbols get frequency 1; no other frequency changes, and both bit counts are lowered by exactly the code lengths of the added symbols |
| HuffmanTree.Heapify | ui/vendored/pptxgen.bundle.js:33 | The leaves become an ordered heap with the same contents |
| HuffmanTree.PopSmallest | ui/vendored/pptxgen.bundle.js:33 | Takes a least node out of the heap |
| HuffmanTree.TakeTwo | ui/vendored/pptxgen.bundle.js:33 | Takes the two smallest nodes and lists them in order |
| HuffmanTree.MakeParent | ui/vendored/pptxgen.bundle.js:33 | Replaces the second by their parent, whose frequency is the sum modulo 65536 |
| HuffmanTree.Merge | ui/vendored/pptxgen.bundle.js:33 | One round keeps the forest, and merges the two smallest nodes |
| HuffmanTree.MergeKeepsForest | ui/vendored/pptxgen.bundle.js:33 | Every node is once a root or once merged under a later node, in the order of the list |
| HuffmanTree.MergeKeepsGreedy | ui/vendored/pptxgen.bundle.js:33 | Every merge so far took the two lightest roots of its time, against the later merged and the still live nodes |
| HuffmanTree.ForestIsParentsFirst | ui/vendored/pptxgen.bundle.js:33 | A forest with one root is a list of all nodes, parents before their pairs of children |
| HuffmanTree.MergeAll | ui/vendored/pptxgen.bundle.js:33 | The merge loop ends with such a list, every pair in it the lightest of its time |
| HuffmanTree.BuildNodes | ui/vendored/pptxgen.bundle.js:33 | For any frequencies: the upper part of the heap array is a binary tree over exactly the used symbols, parents first, built by lightest merges |
| HuffmanLengths.FrontierSums | ui/vendored/pptxgen.bundle.js:33 | Over any tree: Kraft sum, number of leaves and number of clamped nodes move together as parents are expanded |
| HuffmanLengths.TreeIsClamped | ui/vendored/pptxgen.bundle.js:33 | For any tree with fewer leaves than longest codes: the clamped lengths exceed the Kraft sum by exactly half the overflow count |
| HuffmanLengths.ShorterExists | ui/vendored/pptxgen.bundle.js:33 | While the Kraft sum exceeds one there is a shorter code to lengthen, so the search stops above index 0 |
| HuffmanLengths.RepairedSums | ui/vendored/pptxgen.bundle.js:33 | One repair round keeps the number of leaves and lowers the Kraft sum by one unit |
| HuffmanLengths.RepairKeepsClamped | ui/vendored/pptxgen.bundle.js:33 | A round takes two off the overflow and keeps the invariant |
| HuffmanLengths.DeepestShorter | ui/vendored/pptxgen.bundle.js:33 | The search finds the deepest used length below the maximum |
| HuffmanLengths.Repair | ui/vendored/pptxgen.bundle.js:33 | The repair loop terminates with a Kraft sum of exactly one and the same number of leaves |
| HuffmanLengths.AssignDepth | ui/vendored/pptxgen.bundle.js:33 | One node: one more than its parent's length, clamped; a leaf is counted in its length and in both bit counts |
| HuffmanLengths.AssignDepths | ui/vendored/pptxgen.bundle.js:33 | The first loop computes clamped depths, their counts, the overflow, and the bits of all leaves in this code and in the fixed one |
| HuffmanLengths.BitsNext | ui/vendored/pptxgen.bundle.js:33 | The bits of the leaves so far grow by frequency times length and extra bits of the next leaf |
| HuffmanLengths.HandOutLevel | ui/vendored/pptxgen.bundle.js:33 | One length is handed to as many leaves as its count says |
| HuffmanLengths.HandOut | ui/vendored/pptxgen.bundle.js:33 | The last loop gives every leaf a length, each length as often as its count says, and corrects the bit count to the new lengths |
| DeflateCodes.GenBitLen | ui/vendored/pptxgen.bundle.js:33 | Clamping, repair and reassignment: lengths match counts, none exceeds the maximum, the Kraft sum is one; without overflow the lengths are the depths; the bit counts match the final lengths |
| DeflateCodes.LengthsComplete | ui/vendored/pptxgen.bundle.js:33 | Lengths that match such counts form a complete code over all symbols |
| CheapestCodes.LongestToLightest | ui/vendored/pptxgen.bundle.js:33 | Giving the longest code to a lightest member costs no more |
| CheapestCodes.Leveled | ui/vendored/pptxgen.bundle.js:33 | A single longest code can be shortened to the next length within Kraft's inequality |
| CheapestCodes.ExpandBest | ui/vendored/pptxgen.bundle.js:33 | If lengths are best for some weights, in cost and then in depth, splitting a member into the two lightest ones, one bit deeper, keeps them best |
| HuffmanOptimal.FrontierNext | ui/vendored/pptxgen.bundle.js:33 | Expanding the i-th parent of the list exchanges it for its two children |
| HuffmanOptimal.PairIsLightest | ui/vendored/pptxgen.bundle.js:33 | Its children weigh no more than anything else on the frontier |
| HuffmanOptimal.WeightsAdd | ui/vendored/pptxgen.bundle.js:33 | Merging never adds weight, so frequencies that fit together never wrap around in 16 bits |
| HuffmanOptimal.TreeIsBest | ui/vendored/pptxgen.bundle.js:33 | If the frequencies fit together into 16 bits: no lengths that satisfy Kraft's inequality take fewer bits than the depths of the tree, and none that take as few are shallower |
| HuffmanOptimal.TreeIsCode | ui/vendored/pptxgen.bundle.js:33 | The depths of the tree satisfy Kraft's inequality |
| HuffmanOptimal.ClampedIff | ui/vendored/pptxgen.bundle.js:33 | The overflow count is zero exactly if no leaf is deeper than the maximum |
| HuffmanHeight.SiblingIsHeavy | ui/vendored/pptxgen.bundle.js:33 | A node weighs at least as much as each child of its sibling |
| HuffmanHeight.NodeWeight | ui/vendored/pptxgen.bundle.js:33 | A node of height h weighs at least the h-th Fibonacci number, from 1 and 2 on |
| HuffmanHeight.LightTreesAreFlat | ui/vendored/pptxgen.bundle.js:33 | So no length is cut if the total frequency is below the Fibonacci number of the maximum plus one |
| CutLengths.CompleteIsCode | ui/vendored/pptxgen.bundle.js:33 | The final lengths satisfy Kraft's inequality, cut or not |
| CutLengths.UsedAreBest | ui/vendored/pptxgen.bundle.js:33 | With two or more used symbols nothing is forced, and the depths of the tree are the best lengths for the given frequencies |
| CutLengths.FinalLengths | ui/vendored/pptxgen.bundle.js:33 | If the frequencies fit together into 16 bits: the final lengths are cheapest exactly if the number of used symbols is not one and nothing overflowed; and something overflows exactly if every cheapest code has a length over the maximum |
| CutLengths.LightIsUncut | ui/vendored/pptxgen.bundle.js:33 | With a total frequency below the Fibonacci number nothing overflows |
| CutExample.SevenBitsCostMore | ui/vendored/pptxgen.bundle.js:33 | For the frequencies 1, 1, 2, 3, 5, 8, 13, 21, 34 no lengths of at most seven bits are cheapest |
| DeflateCodes.CountsAreExact | ui/vendored/pptxgen.bundle.js:33 | Both bit counts have moved by exactly the bits of the symbols used, whatever was forced or repaired |
| DeflateCodes.LongestIsUsed | ui/vendored/pptxgen.bundle.js:33 | If lengths were cut, some symbol has the greatest length |
| DeflateCodes.BuildLengths | ui/vendored/pptxgen.bundle.js:33 | Tree, lengths and both bit counts, before codes are assigned |
| DeflateCodes.BiReverse | ui/vendored/pptxgen.bundle.js:33 | The loop reverses the low bits of the code |
| DeflateCodes.FirstCodes | ui/vendored/pptxgen.bundle.js:33 | The first loop of gen_codes gives the first code of each length |
| DeflateCodes.GenCodes | ui/vendored/pptxgen.bundle.js:33 | Every coded symbol gets its canonical code, reversed |
| DeflateCodes.BuildTree | ui/vendored/pptxgen.bundle.js:33 | For any frequencies: a complete code, no length over the maximum, a code for every used symbol, canonical codes stored, `opt_len` and `static_len` moved by exactly the bits of the data; whether another code takes fewer bits, exactly; and a total frequency that excludes a cut |
| HuffmanRoundTrip.CodeWordFirst | ui/vendored/pptxgen.bundle.js:33 | A stored code followed by any bits starts with the code word |
| HuffmanRoundTrip.SentCodeDecodes | ui/vendored/pptxgen.bundle.js:33 | A code that deflate stores, followed by any bits, is decoded by inflate's table to its length and to what its symbol stands for |
| InflateTable.CountLengths | ui/vendored/pptxgen.bundle.js:33 | The counts of all lengths |
| InflateTable.LengthRange | ui/vendored/pptxgen.bundle.js:33 | The least and the greatest length in use |
| InflateTable.CodesLeft | ui/vendored/pptxgen.bundle.js:33 | None exactly for over-subscribed lengths; otherwise what the Kraft sum leaves free |
| InflateTable.Offsets | ui/vendored/pptxgen.bundle.js:33 | The place of the first symbol of each length |
| InflateTable.SortSymbols | ui/vendored/pptxgen.bundle.js:33 | The counting sort puts every coded symbol at its place, by length, then by number |
| InflateTable.NextSymbol | ui/vendored/pptxgen.bundle.js:33 | The next symbol in that order starts where this one's interval ends |
| InflateTable.NextHuff | ui/vendored/pptxgen.bundle.js:33 | The backward increment of the reversed code gives the next symbol's reversed code |
| InflateTable.Advance | ui/vendored/pptxgen.bundle.js:33 | The loop computes that increment |
| InflateTable.Fill | ui/vendored/pptxgen.bundle.js:33 | The replication loop writes exactly the cells whose low bits are the reversed code |
| InflateTable.RootTouched | ui/vendored/pptxgen.bundle.js:33 | Those are the root cells that the code's interval selects |
| InflateTable.SubTouched | ui/vendored/pptxgen.bundle.js:33 | The same for second-level tables |
| InflateTable.PlaceRoot | ui/vendored/pptxgen.bundle.js:33 | Placing a short code extends the correctly decoded part of the code space by its interval |
| InflateTable.PlaceSub | ui/vendored/pptxgen.bundle.js:33 | Placing a long code does the same through the second-level table |
| InflateTable.OpenTable | ui/vendored/pptxgen.bundle.js:33 | Opening a second-level table keeps everything placed so far |
| InflateTable.ChooseSize | ui/vendored/pptxgen.bundle.js:33 | The size loop ends with the least number of bits that covers all codes of the root cell |
| TableSize.NextTable | ui/vendored/pptxgen.bundle.js:33 | A longer code that starts a root cell adds exactly one second-level table of that size to the entries needed |
| InflateTable.OpenNext | ui/vendored/pptxgen.bundle.js:33 | Opens the table for the next symbol, or fails exactly when the whole code needs more entries than the source lets through |
| InflateTable.NeedsTable | ui/vendored/pptxgen.bundle.js:33 | The source's test opens a table exactly when the next symbol does not fit the current one, and then the entries used are those needed so far |
| InflateTable.WriteShort | ui/vendored/pptxgen.bundle.js:33 | The entries of a code that fits the root table |
| InflateTable.WriteLong | ui/vendored/pptxgen.bundle.js:33 | The entries of a longer code |
| InflateTable.Round | ui/vendored/pptxgen.bundle.js:33 | One round of the main loop keeps the loop invariant or ends with all codes placed |
| InflateTable.PlaceAll | ui/vendored/pptxgen.bundle.js:33 | The main loop places all codes, or returns 1 exactly when the entries needed exceed the number that the source lets through |
| InflateTable.SizeAtEnd | ui/vendored/pptxgen.bundle.js:33 | When the last symbol is placed, the entries used are all that the code needs |
| InflateTable.HuffAtEnd | ui/vendored/pptxgen.bundle.js:33 | A cell is left over exactly for the one incomplete code that is let through |
| InflateTable.ReservedFits | ui/vendored/pptxgen.bundle.js:33 | The arrays of 852 and 592 entries have room for every table that is let through |
| InflateTable.ShortCodesFit | ui/vendored/pptxgen.bundle.js:33 | With no code longer than the wanted root size the root table alone is enough: 512 and 32 entries for the fixed codes |
| InflateTable.PlaceCodes | ui/vendored/pptxgen.bundle.js:33 | Sorting, placing and marking what is left over |
| InflateTable.BuildTable | ui/vendored/pptxgen.bundle.js:33 | For every array with room for the table or for as many entries as the source lets through: returns -1 exactly for lengths that are no acceptable code, 1 exactly if the code needs more than 852 or 592 entries, else 0; the root size is the wanted one moved into the range of lengths; on 0 the decoder finds for all bits below the Kraft sum the length and the meaning of their symbol, and an error in what is left |
| InflateTable.DecodeReaches | ui/vendored/pptxgen.bundle.js:33 | The two-step lookup finds what the table was built to let it find, without leaving the table |
| SymbolMeaning.LengthsTile | ui/vendored/pptxgen.bundle.js:33 | Section 3.2.5 of RFC 1951: the ranges of the length symbols 257 to 284 cover each length from 3 to 258 once; symbol 285 stands for 258 besides |
| SymbolMeaning.DistancesTile | ui/vendored/pptxgen.bundle.js:33 | The ranges of the distance symbols 0 to 29 cover each distance from 1 to 32768 once |
| InflateTable.EntryTells | ui/vendored/pptxgen.bundle.js:33 | Every entry that a symbol gets is taken by the decoder, in the fast loop or not, as what the symbol stands for |
| InflateTable.DecodesNextSymbol | ui/vendored/pptxgen.bundle.js:33 | For a complete code and any held bits the lookup yields the length and the meaning of the one symbol whose code word is a prefix of them: literal, end of block, range of lengths or distances, or invalid |
| InflateWindow.RepeatsIsRepeat | ui/vendored/pptxgen.bundle.js:33 | Section 3.2.3 of RFC 1951: "each byte equals the one a distance back" determines the output of a match, overlapping or not |
| InflateWindow.RepeatIsRepeats | ui/vendored/pptxgen.bundle.js:33 | And the byte-by-byte definition has that property |
| InflateWindow.HoldsMore | ui/vendored/pptxgen.bundle.js:33 | Writing to the ring without passing its end keeps it equal to the last bytes of the output |
| InflateWindow.HoldsAround | ui/vendored/pptxgen.bundle.js:33 | Writing around the end of the ring does so too |
| InflateWindow.HoldsAll | ui/vendored/pptxgen.bundle.js:33 | So does replacing the whole window |
| InflateWindow.ArraySet | ui/vendored/pptxgen.bundle.js:33 | Copies a stretch between separate arrays and changes nothing else |
| InflateWindow.CopyBytes | ui/vendored/pptxgen.bundle.js:33 | Forward byte by byte, so a copy may feed on itself |
| InflateWindow.CopyByThrees | ui/vendored/pptxgen.bundle.js:33 | The three-at-a-time loop has the same effect |
| InflateWindow.InflateState.constructor | ui/vendored/pptxgen.bundle.js:33 | A state before any output; the distance limit is 32768 or the window size that a zlib header names |
| InflateWindow.InflateState.UpdateRing | ui/vendored/pptxgen.bundle.js:33 | A chunk smaller than the window goes into the ring, around its end if need be |
| InflateWindow.InflateState.UpdateWindow | ui/vendored/pptxgen.bundle.js:33 | After any update the window holds the last bytes of all output |
| InflateWindow.CopiedFromOutput | ui/vendored/pptxgen.bundle.js:33 | Bytes copied within this call's output extend the repetition |
| InflateWindow.CopiedFromWindow | ui/vendored/pptxgen.bundle.js:33 | Bytes copied from the window extend the repetition across calls |
| InflateWindow.InflateState.FromWindow | ui/vendored/pptxgen.bundle.js:33 | One stretch from the window |
| InflateWindow.InflateState.FromOutput | ui/vendored/pptxgen.bundle.js:33 | One stretch from the output |
| InflateWindow.InflateState.MatchFromWindow | ui/vendored/pptxgen.bundle.js:33 | As many bytes as lie together in the window, are wanted, and fit |
| InflateWindow.InflateState.MatchStep | ui/vendored/pptxgen.bundle.js:33 | One step of the match state: bad exactly when the distance is out of reach, else the output grows by part of the repetition |
| InflateWindow.InflateState.FastFromPresent | ui/vendored/pptxgen.bundle.js:33 | The fast loop's case before the present place of the ring |
| InflateWindow.InflateState.FastFromEnd | ui/vendored/pptxgen.bundle.js:33 | The fast loop's case before the end of the ring |
| InflateWindow.InflateState.FastFromStart | ui/vendored/pptxgen.bundle.js:33 | The fast loop's second piece from the start of the ring |
| InflateWindow.InflateState.FastMatch | ui/vendored/pptxgen.bundle.js:33 | A whole match in the fast loop has the same effect as the match state |
| InflateWindow.InflateState.TakeToken | ui/vendored/pptxgen.bundle.js:33 | The next literal or match; refused exactly if the distance exceeds the limit |
| InflateWindow.InflateState.WriteLiteral | ui/vendored/pptxgen.bundle.js:33 | One literal byte |
| InflateWindow.InflateState.CopyMatch | ui/vendored/pptxgen.bundle.js:33 | One round in the match state keeps the run invariant |
| InflateWindow.SoundCopy | ui/vendored/pptxgen.bundle.js:33 | A match that is within the output keeps the invariant that nothing was copied from outside it |
| InflateWindow.InflateState.FastToken | ui/vendored/pptxgen.bundle.js:33 | One token in the fast loop |
| InflateWindow.InflateState.FastWhole | ui/vendored/pptxgen.bundle.js:33 | One whole match in the fast loop |
| InflateWindow.InflateState.FastLoop | ui/vendored/pptxgen.bundle.js:33 | The fast loop keeps the run invariant and takes whole tokens while plenty of input is at hand |
| InflateWindow.InflateState.Loop | ui/vendored/pptxgen.bundle.js:33 | One call ends with the output full within a token, between tokens with no input for the next one or none left, or at an unreachable match |
| InflateWindow.InflateState.Inflate | ui/vendored/pptxgen.bundle.js:33 | One call appends to the history exactly what it wrote, and ends for want of output or input only; bad only for a match that reaches too far back |
| InflateWindow.NeverUnreachable | ui/vendored/pptxgen.bundle.js:33 | No match of a stream in reach is unreachable, for any window and any limit |
| InflateWindow.InflateState.AllOutput | ui/vendored/pptxgen.bundle.js:33 | When all tokens are taken the output of all calls is their expansion, and no match reached outside the output |
| InflateWindow.InflateState.OutputOwed | ui/vendored/pptxgen.bundle.js:33 | In the middle of the stream the output is a proper prefix of the expansion |
| InflateWindow.Run | ui/vendored/pptxgen.bundle.js:33 | For any stream, any output buffers and any input at hand in each call: done with the expansion as output and every match within it; or refused only for a match that reaches too far back; or unfinished with a proper prefix of the expansion, and with every buffer full unless input was missing. Never refused if all matches stay within the output, the window, and 32768 or the window size in the header; never unfinished if the buffers hold the expansion and no input was missing |
| ZipWriter.ZipFileWorker.constructor | ui/vendored/pptxgen.bundle.js:33 | A worker with nothing emitted |
| ZipWriter.ZipFileWorker.Pass | ui/vendored/pptxgen.bundle.js:33 | Data goes downstream and counts as written, or into the buffer while accumulating |
| ZipWriter.ZipFileWorker.OpenedSource | ui/vendored/pptxgen.bundle.js:33 | Opens an entry; a streamed one emits its header at once |
| ZipWriter.ZipFileWorker.Push | ui/vendored/pptxgen.bundle.js:33 | A chunk extends the open entry's content |
| ZipWriter.ZipFileWorker.PassBuffer | ui/vendored/pptxgen.bundle.js:33 | Emits the buffered chunks, first one first |
| ZipWriter.ZipFileWorker.ClosedSource | ui/vendored/pptxgen.bundle.js:33 | Completes the entry: what is emitted, the counters and the directory records agree with the list of entries, in both modes |
| ZipWriter.ZipFileWorker.Flush | ui/vendored/pptxgen.bundle.js:33 | Emits directory and end record: the output is the archive of the entries |
| ZipWriter.PushAll | ui/vendored/pptxgen.bundle.js:33 | Any chunking of the content is emitted once and in order |
| ZipWriter.WriteArchive | ui/vendored/pptxgen.bundle.js:33 | Any run of opened, pushes, closed and flush emits the archive, in which each directory record has the number of bytes before its local header |
| ZipWriter.DirectoryNext | ui/vendored/pptxgen.bundle.js:33 | A new entry changes no earlier record, and its own has the number of bytes before it |
| ZipWriter.FieldReads | ui/vendored/pptxgen.bundle.js:33 | A little-endian field that fits is read back, and of one that does not the low digits |
| ZipWriter.CommonFields | ui/vendored/pptxgen.bundle.js:33 | The fields that both records share are read back: version 10, flag bit 3 exactly when streamed and bit 11 exactly for UTF-8 names, method, time, date, checksum, both sizes, both lengths |
| ZipWriter.LocalFields | ui/vendored/pptxgen.bundle.js:33 | A local header is read back: signature, all shared fields, name and extra field |
| ZipWriter.DirFields | ui/vendored/pptxgen.bundle.js:33 | A directory record is read back: signature, writer, all shared fields, attributes, offset, name, extra field and comment |
| ZipWriter.EndFields | ui/vendored/pptxgen.bundle.js:33 | The end record is read back: one disk, both counts, size and offset of the directory, and the comment |
| ZipWriter.DescriptorFields | ui/vendored/pptxgen.bundle.js:33 | A data descriptor is read back: signature, checksum, compressed and uncompressed size |
| ZipWriter.LocalReads | ui/vendored/pptxgen.bundle.js:33 | What lies at a local header is read back in either mode: a streamed entry has zeros there and its checksum and sizes in the descriptor behind the content |
| ZipWriter.DirectoryReads | ui/vendored/pptxgen.bundle.js:33 | The records are read as the entries, each with its local header, content and descriptor |
| ZipWriter.ArchiveReads | ui/vendored/pptxgen.bundle.js:33 | A reader that trusts only the end record gets every file back in order: name, content and every field of directory record, local header and descriptor, and the archive comment |
| Checksums.SumStretch | ui/vendored/pptxgen.bundle.js:33 | At most 2000 bytes without reduction; both sums stay below 2^31 |
| Checksums.SumsReduced | ui/vendored/pptxgen.bundle.js:33 | Reducing the sums at any time changes nothing modulo 65521 |
| Checksums.Adler32 | ui/vendored/pptxgen.bundle.js:33 | The deferred reduction computes the per-byte definition of section 2.2 of RFC 1950 |
| Checksums.AdlerConcat | ui/vendored/pptxgen.bundle.js:33 | The checksum carries over any split |
| Checksums.TableStep | ui/vendored/pptxgen.bundle.js:33 | One table step is eight steps of the bitwise division |
| Checksums.PolynomialTerms | ui/vendored/pptxgen.bundle.js:33 | The constant of the division has the coefficients of the generator polynomial |
| Checksums.MakeTable | ui/vendored/pptxgen.bundle.js:33 | The table holds the bitwise results of all bytes |
| Checksums.Crc32 | ui/vendored/pptxgen.bundle.js:33 | The table form computes the bitwise form of section 8 of RFC 1952 |
| Checksums.CrcConcat | ui/vendored/pptxgen.bundle.js:33 | The checksum carries over any split |
| Checksums.ByteErrorDetected | ui/vendored/pptxgen.bundle.js:33 | Changing one byte anywhere changes the checksum |
| Checksums.ChunkChecksum | ui/vendored/pptxgen.bundle.js:33 | The ZIP library's variant: 0 for an empty chunk |
| Checksums.ProbeForgets | ui/vendored/pptxgen.bundle.js:33 | The probe's checksum is that of the chunks after the last empty one |
| Checksums.ProbeFails | ui/vendored/pptxgen.bundle.js:33 | With an empty chunk after content, some content of the same sizes gets a wrong checksum |
| Checksums.ProbeIsCrcIff | ui/vendored/pptxgen.bundle.js:33 | The probe computes the file's checksum for all contents of given chunk sizes exactly when no empty chunk follows content |
| SshSig.Writer.constructor | hub/vendored/ssh-sig/reference/writer.ts:10-15 | An empty buffer with a maximum |
| SshSig.Writer.AddResize | hub/vendored/ssh-sig/reference/writer.ts:16-20 | Grows by the given number, keeping the contents; refused exactly beyond the maximum |
| SshSig.Writer.WriteUint32 | hub/vendored/ssh-sig/reference/writer.ts:21-25 | Appends the big-endian number; position and length stay equal |
| SshSig.Writer.WriteString | hub/vendored/ssh-sig/reference/writer.ts:26-29 | Appends length and bytes (section 5 of RFC 4251); fails exactly when they do not fit |
| SshSig.Writer.WriteBytes | hub/vendored/ssh-sig/reference/writer.ts:30-48 | Appends the bytes |
| SshSig.Writer.WriteByte | hub/vendored/ssh-sig/reference/writer.ts:49-52 | Appends one byte |
| SshSig.Uint32Reads | hub/vendored/ssh-sig/reference/writer.ts:21-25 | A number below 2^32 is read back |
| SshSig.Reader.constructor | hub/vendored/ssh-sig/reference/reader.ts:8-10 | A cursor at the start of the window |
| SshSig.Reader.ReadUint32 | hub/vendored/ssh-sig/reference/reader.ts:14-18 | The number at the cursor, which moves by four; fails exactly beyond the window |
| SshSig.Reader.PeekUint32 | hub/vendored/ssh-sig/reference/reader.ts:19-21 | The number at the cursor, which stays |
| SshSig.Reader.PeekBytes | hub/vendored/ssh-sig/reference/reader.ts:22-29 | A window on the whole buffer, not on this one |
| SshSig.Reader.ReadBytes | hub/vendored/ssh-sig/reference/reader.ts:30-34 | That window, and the cursor moves behind it |
| SshSig.Reader.ReadString | hub/vendored/ssh-sig/reference/reader.ts:35-38 | A length-prefixed window, and the cursor moves behind it |
| SshSig.Reader.PeekString | hub/vendored/ssh-sig/reference/reader.ts:39-42 | A length-prefixed window; the cursor stays |
| SshSig.Reader.ToText | hub/vendored/ssh-sig/reference/reader.ts:43-49 | One character for each byte of the window |
| SshSig.Reader.Bytes | hub/vendored/ssh-sig/reference/reader.ts:50-55 | The bytes from the cursor to the end of the window |
| SshSig.WindowEscaped | hub/vendored/ssh-sig/reference/reader.ts:22-28 | A window of four bytes from which a string of two bytes behind it is read |
| SigParser.ReadText | hub/vendored/ssh-sig/reference/sig_parser.ts:33-39 | A string field as text, with the place behind it |
| SigParser.ReadData | hub/vendored/ssh-sig/reference/sig_parser.ts:36 | A string field as bytes, with the place behind it |
| SigParser.ParsePubkey | hub/vendored/ssh-sig/reference/formats.ts:38-103 | The five variants of keys, by name; every other name is refused |
| SigParser.ReadSignatureBytes | hub/vendored/ssh-sig/reference/sig_parser.ts:41-58 | Two numbers joined, each without a leading zero if it is odd in length, or the bytes as they are |
| SigParser.ReadFlags | hub/vendored/ssh-sig/reference/sig_parser.ts:59-66 | Flags and counter exactly for security keys |
| SigParser.ParseSignature | hub/vendored/ssh-sig/reference/sig_parser.ts:38-66 | The parts of the nested signature blob |
| SigParser.ParseHeader | hub/vendored/ssh-sig/reference/sig_parser.ts:35-37 | Namespace, reserved bytes and hash name |
| SigParser.ParseTail | hub/vendored/ssh-sig/reference/sig_parser.ts:35-83 | Everything after the key; refuses bytes left over |
| SigParser.Parse | hub/vendored/ssh-sig/reference/sig_parser.ts:13-84 | The whole parse as a function of the window: each failure in the order of the source, or the fields |
| SigParser.StringReads | hub/vendored/ssh-sig/reference/reader.ts:35-38 | A string that lies in the window is read back as a window that holds its bytes |
| SigParser.PubkeyReads | hub/vendored/ssh-sig/reference/formats.ts:38-103 | The key blob of every variant is read back, to its end |
| SigParser.SignatureReads | hub/vendored/ssh-sig/reference/sig_parser.ts:38-66 | The signature blob is read back |
| SigNumbers.SplitReads | hub/vendored/ssh-sig/reference/sig_parser.ts:41-58 | The two strings of an ECDSA signature are joined, r first |
| SigNumbers.NumbersJoin | hub/vendored/ssh-sig/reference/sig_parser.ts:46-56 | Numbers r and s of one even width, stored as section 5 of RFC 4251 says, come out joined at that width exactly if each has a nonzero first byte, or a zero one before a byte with its top bit set |
| SigNumbers.ShortSignature | hub/vendored/ssh-sig/reference/sig_parser.ts:46-56 | Two 32-byte numbers, one with two leading zero bytes: the parser returns 62 bytes |
| SigParser.HeaderReads | hub/vendored/ssh-sig/reference/sig_parser.ts:35-37 | The header fields are read back |
| SigParser.TailReads | hub/vendored/ssh-sig/reference/sig_parser.ts:35-83 | Everything after the key is read back, ending exactly at the end |
| SigParser.BlobReads | hub/vendored/ssh-sig/reference/sig_parser.ts:13-84 | The blob of any RSA, Ed25519 or security-key Ed25519 signature is parsed into its fields, and nothing is left over |
| SigContainment.CutString | hub/vendored/ssh-sig/reference/reader.ts:22-38 | A string is read from a buffer that is cut behind the window exactly if it ends before the cut, and is then the same |
| SigContainment.CutPubkey | hub/vendored/ssh-sig/reference/formats.ts:38-103 | A key blob is read from the cut buffer exactly if its last string ends before the cut |
| SigContainment.CutSignature | hub/vendored/ssh-sig/reference/sig_parser.ts:38-66 | So is a signature blob, with the strings inside its signature field |
| SigContainment.CutParse | hub/vendored/ssh-sig/reference/sig_parser.ts:13-84 | A parse succeeds with the same fields in a cut buffer exactly if it does in the whole one and nothing that is read lies behind the cut |
| SigContainment.DeterminedIff | hub/vendored/ssh-sig/reference/sig_parser.ts:13-84 | The fields depend on the bytes of the window alone exactly if no nested read leaves the window |
| SigContainment.ConfinedIff | hub/vendored/ssh-sig/reference/sig_parser.ts:13-84 | The parse returns what a parser returns whose nested windows end where they should, exactly if every string of the key blob and of the signature blob ends in its own window; otherwise that parser refuses |
| SigContainment.FitsStays | hub/vendored/ssh-sig/reference/sig_parser.ts:13-84 | Strings that fit their own windows stay in the whole one |
| SigContainment.BlobFits | hub/vendored/ssh-sig/reference/sig_parser.ts:13-84 | The blob of any signature that the model writes is parsed without leaving any window |
| SigContainment.EscapedKey | hub/vendored/ssh-sig/reference/reader.ts:22-28 | For any signature, any number n and any bytes behind the blob: a key blob without a key that claims n bytes is parsed, and the key returned is the n bytes behind the key blob, out of the other fields and even from behind the signature |
| SigParser.WriteStrings | hub/vendored/ssh-sig/reference/writer.ts:26-29 | Any list of fields is written as the concatenation of their encodings; fails exactly when it does not fit |
| SigParser.WriteSignature | hub/vendored/ssh-sig/reference/writer.ts:6-56 | The writer produces the signature blob; fails exactly when it does not fit |
| SigParser.WriteBlob | hub/vendored/ssh-sig/reference/writer.ts:6-56 | The writer produces the blob that is parsed back; fails exactly when it does not fit |
| SignedMessage.WriteMessage | hub/vendored/ssh-sig/reference/verifier.ts:25-44 | The message that is verified; fails exactly for hash names other than sha256 and sha512 and above 100 bytes |
| SignedMessage.DigestsFit | hub/vendored/ssh-sig/reference/verifier.ts:25-44 | With digests of 32 and 64 bytes it never exceeds 100 bytes |
| SignedMessage.MessageReads | hub/vendored/ssh-sig/reference/verifier.ts:25-44 | The message is read back in the order of the protocol: magic bytes, namespace, an empty reserved string, hash name, digest, and nothing behind |
| SignedMessage.MessageDetermines | hub/vendored/ssh-sig/reference/verifier.ts:25-44 | Different hash names or digests give different messages |
| Base58.AddByte | hub/vendored/ocg/kernels/_signverdict.inline.js:25 | One byte: the digits denote 256 times the old number plus the byte, with no leading zero digit |
| Base58.CarryMoves | hub/vendored/ocg/kernels/_signverdict.inline.js:25 | The inner loop keeps digits plus carry equal to 256 times the digits done plus the byte |
| Base58.CarryBound | hub/vendored/ocg/kernels/_signverdict.inline.js:25 | The carry never exceeds 255 |
| Base58.PushCarry | hub/vendored/ocg/kernels/_signverdict.inline.js:25 | The rest of the carry becomes new digits |
| Base58.Encode | hub/vendored/ocg/kernels/_signverdict.inline.js:22-29 | As many `1` as leading zero bytes, then the minimal digits of the rest |
| Base58.Spell | hub/vendored/ocg/kernels/_signverdict.inline.js:26-27 | The output loops spell the digits, last one first |
| Base58.GlyphDigit | hub/vendored/ocg/kernels/_signverdict.inline.js:21 | The alphabet gives each digit its own character |
| Base58.DecodesNonzero | hub/vendored/ocg/kernels/_signverdict.inline.js:22-29 | With a nonzero byte, decoding returns the bytes |
| Base58.DecodesZero | hub/vendored/ocg/kernels/_signverdict.inline.js:22-29 | On all-zero or empty input one extra `1` is emitted, so decoding returns one zero byte more |
| Base58.DecodeUndoesIff | hub/vendored/ocg/kernels/_signverdict.inline.js:22-29 | Decoding undoes encoding exactly when some byte is not zero |
| Base58.EncodingIsInjective | hub/vendored/ocg/kernels/_signverdict.inline.js:22-29 | Different byte strings have different encodings, with no exception |
| Base58.EncodingIsUnique | hub/vendored/ocg/kernels/_signverdict.inline.js:22-29 | The contract of `Encode` leaves exactly one result |

## Left out

QR symbols:

- The choice of a segment mode for a text and the conversion of text to UTF-8 bytes: a regular expression match and a library call; the regular expressions of the makers are modelled by the character sets they describe.
- Kanji segments have a mode but no maker in the source, so no payload of that mode is modelled.
- Drawing on a canvas, SVG output and the public accessors; `getModule` is `Grids.At`.
- `hasFinderLikePattern`, which nothing calls.
- Interleave.BlocksAreCodewords: the error correction of a received symbol is not modelled, because the source has none; `Interleave.DamageDeterminesData` says that correction is possible.
- CyclicWords.FormatIsCodeword: the words are shown to belong to their cyclic codes; the distance of those codes is not claimed.
- Segments are given with their data as bits, and byte arguments as bytes; checks of JavaScript types are left to Dafny's types.
- LinePenalty.ScoreLine: stands for both transposed loops of the source, called once for each row and each column.
- The innermost two-step loop over the columns of a pair is written out as two calls in `Zigzag.DrawPair`.

Compression:

- The source interleaves frequency and length (later code and length) of a node in one array; the model keeps two arrays of the same length. Sums of frequencies wrap at 16 bits as in the source.
- A table entry of inflate is a record of its three parts instead of one 32-bit number.
- Reading a stream's block headers and code lengths, and the bit accumulator that feeds the decoder: tokens are taken as decoded and whole, and each call is told of which tokens nothing, all, or plenty of input is at hand.
- Writing blocks: `deflate`'s match search, the run-length coding of the code lengths, and the choice between stored, fixed and dynamic blocks.
- That a complete code of at most 286 or 30 symbols never needs more than the 852 or 592 entries reserved at the usual root sizes; `TableSize.Entries` is the number needed.
- CutLengths.FinalLengths: the comparison is with all lengths that satisfy Kraft's inequality; that every decodable code satisfies it (McMillan's theorem) is not proved.
- File names, comments and dates of the ZIP writer are given as encoded bytes; the metadata for progress callbacks is left out.
- ZipWriter.ArchiveReads: an archive of at most 65535 files and 2^32 bytes whose fields fit their widths; beyond that the writer cuts fields off, and the model does so too.
- Checksums are the unsigned values of the source's signed 32-bit results.

Signatures:

- SigParser.BlobReads: signatures whose bytes are stored as they are; for the ECDSA names that the parser splits, the parse itself is modelled (`SigParser.ReadSignatureBytes`), but joining r and s is not invertible; `SigNumbers.NumbersJoin` says when it keeps their width.
- The textual armour, base64, the closures that print a key, the conversion of keys to JSON web keys, and every cryptographic operation.
- Text fields hold characters below 256, which is what the reader produces; a character beyond that loses its high bits in the writer, as in the source.
- SignedMessage.WriteMessage: the namespace is always "file", as in the source, whatever the signature's own namespace; the message for security keys is left out.

Elsewhere: the hub daemon, the journal, widgets, document generation and polyfills are not part of this model.

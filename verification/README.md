# A model of the reference Huffman codec and its neighbours

The repository uses a CPU Huffman codec (`tools/huff_test/huff_ref.c`) as the oracle for its GPU
kernels. This project models that codec in Dafny as it works in memory (arrays filled in place, a
bit writer with a 64-bit buffer, unsigned arithmetic with its wrap-around written out) and proves
what each stage hands to the next: Huffman lengths, lengths cut to a limit, canonical codes, three
kinds of decode table, streams, and four container formats. On top of it stand the round-trip test
and the 64 KB chunk loop, for which no failure branch can be reached. Two smaller parts follow: the
host-side layouts of the tANS bench and the lock-free work queue of the parallel test runner.

| file | models |
|---|---|
| `Numbers`, `Bits`, `Spans` | powers of two, sums, `&` and `\|`; bit strings; disjoint intervals |
| `HuffmanTree`, `CodeLengths` | any tree of two-smallest merges, and the builder's own, on values: optimality, Kraft, depth |
| `BuilderBounds`, `DepthBound` | where the bounds of the builder are sharp |
| `TreeBuilder` | `build_code_lengths` over a node pool, an active list and parent indices |
| `HeightLimit`, `LimitExample` | `height_limit` in 30-bit fixed point, and what its result is |
| `Canonical` | `assign_canonical_codes` |
| `BitWriter`, `Encoder` | `bw_write`, `bw_flush`, `huff_encode` |
| `DecodeTables`, `EscapeTable`, `EscapeDecode` | the dual-symbol, 16-bit and escape tables |
| `Decoder`, `RoundTrip` | `huff_decode` against a decoder of one code word at a time |
| `NStreams`, `NStreamsDecode`, `AlignedStreams`, `Interleaved` | the containers |
| `ContainerBytes` | the containers byte by byte |
| `Capacity` | their overhead and the buffers that always suffice |
| `Histogram`, `Pipeline`, `FileRatio` | `roundtrip_test` and the chunk loop |
| `OutputSlots`, `BilTranscode` | output slots and the word-interleaved transcode |
| `WorkQueue` | the test runner under every interleaving |

## How to read it

- An operation that changes memory is a method. Its `ensures` equates the memory it leaves with a
  function of its inputs, and lemmas prove what that function is good for.
- `SimpleDecode` (one code word at a time, on the input bits followed by endless zeros),
  `Huffman` (the merge relation), `FirstTwo` (the scan's order: weight, then position), `IsCanonical` (a code is the Kraft mass of all codes before it),
  `Limited` (the first point of the lengthening path that fits) and `Place`/`Origin` are the
  independent definitions that the methods and tables are measured against.
- A function that a method is measured against has a lemma that says in plain arithmetic, on the
  bytes and counts alone, what it is: `LimitedLowestFirst`, `EncodedBit`, `ChunkBytes`, `ChunkByte`,
  `BufferInverts` and the module `ContainerBytes`.
- The maximum code length is a parameter `maxLen`, from 1 to 16. `MAX_CODE_LEN` is 10 in the source;
  the escape table takes codes of `maxLen + 1` bits. Where all 256 symbols may occur it is at least 8.

## Where the code and its comments disagree

- `height_limit` promises a Kraft sum of exactly 1 (`tools/huff_test/huff_ref.c:150-156`). The loop
  only reaches at most 1. `LimitedExactIff` says when it is exact, by arithmetic on the cut table.
  `LimitedCanBeIncomplete` gives, for every limit from 3 to 28, a histogram of Fibonacci counts whose
  result leaves one unit unused (13 symbols for the limit 10).
- The escape table relies on codes of 11 bits coming in sibling pairs
  (`tools/huff_test/huff_ref.c:297-306`). That holds exactly when their number is even (`EscExactIff`).
  When it is odd, a window that begins with no code reads as symbol 0. A code that fills the code
  space is never odd (`CompleteIsExact`), but the code that the chain makes for those Fibonacci counts
  is (`EscapeFailsAfterLimit`; 14 symbols for 11 bits). Every window that begins with a code is
  decoded correctly either way.
- `length_count` (`tools/huff_test/huff_ref.c:199`) has no entry for 11-bit codes when
  `MAX_CODE_LEN` is 10, so codes for the escape table need a build with 11. The parameter `maxLen`
  of `AssignCanonicalCodes` is that value.
- The comment at `tools/huff_test/huff_ref.c:414-417` describes a 6-byte header of 16-bit sizes; the
  code writes 9 bytes of 24-bit sizes.
- `1u << (30 - len)` is undefined for a length of 31. Every input of n bytes is free of it exactly
  when n is below 3,524,578 (`ShiftsDefinedIff`); from there on the counts 1, 1, 1, 2, 3, 5, ... in
  ascending order make the builder reach it (`LongCodeIff`). 64 KB chunks and the 1 MB that the
  driver reads are well inside.
- The merge loop adds 32-bit weights. The lengths fill the code space even when a sum wraps
  (`MergedLengthsKraft`), and they are those of a Huffman tree for every total below 2^33. That bound
  is sharp: for four counts of 2^31 the lengths 3, 3, 1, 2 come out where 2, 2, 2, 2 are shorter
  (`WrapBoundIff`, `WrapCostsBits`).
- Sizes are returned as `int`. A size from 2^31 on is negative, and from 2^32 on starts again at 0: a
  container then keeps only the beginning of such a stream (`StreamOf`), so the round trips are
  stated for streams below 2^24 bytes. A decoder that fails returns -1, which is also the cast of a
  part that is one byte short of a multiple of 4 GB; the containers take that failure for success
  (`NsAccepts`, `FailureAccepted`).
- `height_limit` leaves its loop by the break exactly when more than 2^limit codes are to be limited
  (as long as the 32-bit sum holds, which for 256 symbols is any limit from 7 on): then every code
  gets the limit as its length and the sum stays above 1.
- The slot offsets and the transcode's chunk offsets are 32-bit (`tools/huff_test/tans_upgrade_bench.h:34`,
  `tools/huff_test/tans_upgrade_bench.h:137`) while the data is placed at 64-bit positions (lines 44 and
  139). The offsets name the right place exactly when the last one is below 4 GB (`OffsetsExactIff`,
  `OffsetsRightIff`).
- `(max + 127) & ~127` in 32 bits (`tools/huff_test/tans_upgrade_bench.h:30`) is 0 for the 127
  largest sizes (`RoundUp32HoldsIff`).
- When no thread can be spawned the runner prints zeros and ends without an error although no test
  ran (`FinishedTotals`, `SilentRunPrintsZeros`).

## Model

| member | source | states |
|---|---|---|
| `HuffmanTree.HuffmanOptimal` | tools/huff_test/huff_ref.c:104-132 | whatever lengths within Kraft the roots of a forest get, the merged tree costs no more |
| `HuffmanTree.MergeLengths` | tools/huff_test/huff_ref.c:105-121 | the exchange step: competing lengths carry over to the merged list, still within Kraft and cheaper by the merged weight |
| `HuffmanTree.MergeKeeps` | tools/huff_test/huff_ref.c:118-130 | one merge keeps the roots a partition of the same symbols and the total weight |
| `HuffmanTree.HuffmanKeeps` | tools/huff_test/huff_ref.c:104-132 | the final tree has every used symbol exactly once and the total weight |
| `HuffmanTree.HuffmanHeavy` | tools/huff_test/huff_ref.c:104-132 | a merged tree of height h weighs at least Fib(h + 2) |
| `CodeLengths.HuffmanLengthsKraft` | tools/huff_test/huff_ref.c:91-147 | Kraft exactly 1 with two or more used symbols, one half for a lone symbol, 0 for none; unused symbols have no code |
| `CodeLengths.HuffmanLengthsOptimal` | tools/huff_test/huff_ref.c:104-145 | the lengths minimise the sum of count times length over all lengths on the used symbols with Kraft at most 1 |
| `CodeLengths.MergedLengthsKraft` | tools/huff_test/huff_ref.c:91-147 | the same Kraft sums for any counts at all, also where the 32-bit sums wrap |
| `CodeLengths.MergedLengthsUnique` | tools/huff_test/huff_ref.c:104-131 | the counts determine the builder's lengths |
| `CodeLengths.InitialForestFacts` | tools/huff_test/huff_ref.c:80-102 | the merges start from one leaf for each occurring symbol, with its count as weight, in ascending order of symbols |
| `CodeLengths.MergedIsHuffman` | tools/huff_test/huff_ref.c:121-121 | below a total of 2^33 the built lengths are those of a true Huffman tree |
| `BuilderBounds.WrapCostsBits` | tools/huff_test/huff_ref.c:121-121 | for four counts of 2^31 the built lengths cost 9 * 2^31 bits and are no Huffman lengths |
| `BuilderBounds.WrapBoundIff` | tools/huff_test/huff_ref.c:121-121 | all histograms with a total below a bound get Huffman lengths if and only if the bound is at most 2^33 |
| `CodeLengths.HuffmanLengthsDepth` | tools/huff_test/huff_ref.c:134-147 | a code of length L needs a total count of at least Fib(L + 2) |
| `CodeLengths.DepthLimits` | tools/huff_test/huff_ref.c:134-172 | at most 22 bits for 64 KB, 28 for 1 MB, 30 below a total of 3,524,578 |
| `BuilderBounds.LongCodeOccurs` | tools/huff_test/huff_ref.c:104-145 | for every total from Fib(l + 2) on there are counts for which the builder makes a code of exactly l bits |
| `BuilderBounds.LongCodeIff` | tools/huff_test/huff_ref.c:134-147 | a code of l bits or more can occur if and only if the total is at least Fib(l + 2) |
| `TreeBuilder.PickTwo` | tools/huff_test/huff_ref.c:105-117 | one scan finds the two entries of lowest weight, of equal weights those at the lower positions |
| `TreeBuilder.CombinePair` | tools/huff_test/huff_ref.c:118-130 | the new root takes the lower of the two places, the last entry the higher one, the others stay; pool, list and forest keep in step |
| `TreeBuilder.MergeLoop` | tools/huff_test/huff_ref.c:104-132 | the loop ends with one root, whose tree is the one that merging the first two 32-bit weights gives |
| `TreeBuilder.WalkUp` | tools/huff_test/huff_ref.c:137-142 | the parent walk of every used symbol ends at the one root and counts its depth |
| `TreeBuilder.BuildCodeLengths` | tools/huff_test/huff_ref.c:71-148 | for every histogram: stores the lengths of the one tree that the merges give (1 for a lone symbol), a Huffman tree below a total of 2^33, and returns the largest |
| `HeightLimit.DemotingFits` | tools/huff_test/huff_ref.c:165-172 | while codes are cut the sum stays at most 2^31, so 32 bits never wrap |
| `HeightLimit.CandidateExists` | tools/huff_test/huff_ref.c:177-185 | while the sum is too large a code below the limit exists: the early break is dead |
| `HeightLimit.PickLowest` | tools/huff_test/huff_ref.c:178-184 | the scan picks the code of the lowest count, of equal counts the lowest symbol, among those below the limit; -1 when there is none |
| `HeightLimit.TooManyCodes` | tools/huff_test/huff_ref.c:177-189 | more than 2^limit codes never fit, whatever their lengths up to the limit |
| `HeightLimit.CutNeverWraps` | tools/huff_test/huff_ref.c:165-172 | below 3 * 2^limit codes the sum after cutting stays below 2^32 |
| `HeightLimit.LimitHeight` | tools/huff_test/huff_ref.c:157-190 | height_limit terminates within the limit: with the first fitting point of the path for up to 2^limit codes, by the break with every code at the limit for more |
| `HeightLimit.LimitedLowestFirst` | tools/huff_test/huff_ref.c:178-184 | a code was lengthened only if every code that could still be has a higher count, or the same count and a higher symbol |
| `HeightLimit.LimitedStopsEarly` | tools/huff_test/huff_ref.c:177-189 | lengths that fit after cutting stay; otherwise some lengthened code, one bit shorter, would exceed 1 again |
| `HeightLimit.LimitedIsValid` | tools/huff_test/huff_ref.c:150-156 | lengths within the limit, the same symbols used, no code shortened below its cut length, Kraft at most 1 |
| `HeightLimit.PathDecreases` | tools/huff_test/huff_ref.c:174-189 | along the lengthening path the Kraft sum only falls, and strictly with every lengthening |
| `HeightLimit.PathKraft` | tools/huff_test/huff_ref.c:174-189 | the sum of a point of the path, from the gains of the codes lengthened before it |
| `HeightLimit.LimitedExactIff` | tools/huff_test/huff_ref.c:150-156 | after cutting, the sum is exactly 1 if and only if the excess equals the gain of some candidate and length |
| `LimitExample.FibLimitedIff` | tools/huff_test/huff_ref.c:157-190 | for these counts height_limit has exactly one result |
| `LimitExample.LimitedCanBeIncomplete` | tools/huff_test/huff_ref.c:150-156 | for every limit from 3 to 28 a histogram whose limited code leaves one unit of the code space unused |
| `LimitExample.FibLensAreBuilt` | tools/huff_test/huff_ref.c:104-145 | the builder makes of that histogram the lengths 1, 2, ..., and the last one twice |
| `Canonical.AssignCanonicalCodes` | tools/huff_test/huff_ref.c:196-219 | every code is the Kraft mass of the codes before it in (length, symbol) order, without 32-bit overflow |
| `Canonical.CanonicalFits` | tools/huff_test/huff_ref.c:192-195 | with Kraft at most 1 every code is below 2^length |
| `Canonical.CanonicalIsPrefixCode` | tools/huff_test/huff_ref.c:192-195 | with Kraft at most 1 no code starts another |
| `Canonical.CanonicalOrder` | tools/huff_test/huff_ref.c:192-195 | codes increase in (length, symbol) order, by at least one unit of the earlier code |
| `Canonical.CanonicalFirst` | tools/huff_test/huff_ref.c:192-195 | the first code in (length, symbol) order is all zeros |
| `Canonical.CanonicalSuccessor` | tools/huff_test/huff_ref.c:192-195 | the next code is the previous plus one, extended with zeros when the length grows |
| `BitWriting.BitWriter.constructor` | tools/huff_test/huff_ref.c:39-42 | a new writer has written nothing |
| `BitWriting.BitWriter.Write` | tools/huff_test/huff_ref.c:44-56 | appends exactly the low n bits to what was written, or fails exactly when the buffer or the array is too small |
| `BitWriting.BitWriter.Flush` | tools/huff_test/huff_ref.c:58-65 | pads the last byte with zeros, or fails exactly when no byte is left for it |
| `Encoder.HuffEncode` | tools/huff_test/huff_ref.c:358-369 | stores the concatenated codes, zero-padded, and returns their ceiling in bytes, cast to int; -1 when they do not fit |
| `Numbers.CIntIs` | tools/huff_test/huff_ref.c:368-368 | the cast gives the int that is congruent to the size modulo 2^32 |
| `Encoder.EncodedSize` | tools/huff_test/huff_ref.c:366-368 | the stream has the bytes that its code bits need and no more, and zeros fill the last one |
| `Encoder.EncodedBit` | tools/huff_test/huff_ref.c:44-56 | bit by bit: code k starts behind the lengths of the codes before it, highest bit first |
| `Bits.BitAtIs` | tools/huff_test/huff_ref.c:52-54 | bit i of a stream is bit 7 - i % 8 of byte i / 8 |
| `DecodeTables.EntryFields` | tools/huff_test/huff_ref.c:221-239 | the four bytes of an entry, symbol in the lowest, and the fields that read them back |
| `DecodeTables.BuildDecodeLut` | tools/huff_test/huff_ref.c:241-275 | every index holds the first one or two symbols that it starts with, or 0 |
| `DecodeTables.DualEntryIff` | tools/huff_test/huff_ref.c:254-274 | an index holds the pair (s1, s2) if and only if both have codes, they fit together and the index starts with both in a row |
| `DecodeTables.DualEntryFields` | tools/huff_test/huff_ref.c:221-232 | symbols, total length and count of every entry: none, one or two code words |
| `EscapeTable.BuildDecodeLut16` | tools/huff_test/huff_ref.c:283-295 | every index holds the symbol and length of the code it starts with, or 0 |
| `EscapeTable.SingleAgreesWithDual` | tools/huff_test/huff_ref.c:277-295 | the 16-bit table has the dual table's first symbol with that symbol's own length, at every index |
| `EscapeTable.BuildDecodeLutEsc` | tools/huff_test/huff_ref.c:308-354 | the three passes store what `EscEntry` says at every index |
| `EscapeTable.SlotUntouched` | tools/huff_test/huff_ref.c:342-343 | no shorter code starts the slot of a long code, so passes 1 and 2 leave it alone |
| `EscapeTable.EscRefinesDirect` | tools/huff_test/huff_ref.c:297-306 | for every window that begins with a code, the short lookup and one more bit (the second byte of an escape entry when it is 1) give the symbol and length of the direct table, and a dual entry the symbol after it |
| `EscapeTable.EscExactIff` | tools/huff_test/huff_ref.c:300-306 | every undecodable window is rejected if and only if the number of long codes is even; otherwise one of them reads as symbol 0 |
| `LimitExample.EscapeFailsAfterLimit` | tools/huff_test/huff_ref.c:300-306 | the canonical code of the Fibonacci counts, limited to maxLen + 1, has an odd number of long codes, and an undecodable window reads as symbol 0 |
| `EscapeTable.CompleteIsExact` | tools/huff_test/huff_ref.c:300-306 | for a code that fills the code space the comment is right: every undecodable window is rejected |
| `EscapeDecode.EscDecodeIsSimple` | tools/huff_test/huff_ref.c:301-307 | when every undecodable window is rejected, decoding by the escape table is decoding one code word at a time, for every input |
| `EscapeDecode.EscDecodeIff` | tools/huff_test/huff_ref.c:301-307 | the two agree on every input if and only if the number of long codes is even |
| `Decoder.TopBits` | tools/huff_test/huff_ref.c:389-389 | the table index is the next bits of the stream, whatever stale bits lie above them |
| `Decoder.Refill` | tools/huff_test/huff_ref.c:381-388 | after refilling, the buffer holds the next bits of the stream, with zeros past the end |
| `Decoder.HuffDecode` | tools/huff_test/huff_ref.c:372-412 | writes the bytes of the table decoder and returns their number, cast to int, or -1 at the first unknown index, and touches nothing else |
| `Decoder.EntryStep` | tools/huff_test/huff_ref.c:390-409 | one step on the bytes of the entry: a length of 0 ends it, two symbols come from a dual entry unless one byte is wanted, the whole length is consumed |
| `Decoder.DualDecodeIsSimple` | tools/huff_test/huff_ref.c:372-412 | for every input, valid or not, the dual table decoder gives the bytes and the verdict of decoding one code word at a time, also with a dual entry at the last byte |
| `RoundTrip.SimpleDecodesCodes` | tools/huff_test/huff_ref.c:358-412 | one code word at a time, any stream that carries the codes of a text decodes to that text |
| `RoundTrip.DecodeEncoded` | tools/huff_test/huff_ref.c:358-412 | the encoded stream decodes to its source through the dual table |
| `RoundTrip.EncodedFits` | tools/huff_test/huff_ref.c:718-720 | with codes of at most 16 bits the stream is at most twice the source |
| `NStreams.HuffEncodeNs` | tools/huff_test/huff_ref.c:635-665 | stores the N-stream layout; -1 exactly when N is out of range, a size after the cast reaches 2^24 or a stream finds no room |
| `NStreams.RoomIff` | tools/huff_test/huff_ref.c:650-656 | with streams below 4 GB there is room exactly when the whole layout fits |
| `ContainerBytes.NsFitsIff` | tools/huff_test/huff_ref.c:640-656 | with streams below 4 GB it fails exactly when N is not 1 to 64, a stream has 2^24 bytes or more, or the layout does not fit |
| `ContainerBytes.StreamIs` | tools/huff_test/huff_ref.c:642-652 | stream s is the s-th of N equal slices, encoded; the last slice takes the remainder |
| `ContainerBytes.NsHeader` | tools/huff_test/huff_ref.c:659-663 | each stored size is three bytes of the layout, low byte first |
| `ContainerBytes.NsBody` | tools/huff_test/huff_ref.c:447-451 | the streams stand one after the other behind 3 (N - 1) bytes, and nothing follows |
| `NStreams.HuffEncode4s` | tools/huff_test/huff_ref.c:425-453 | byte for byte the result of the N-stream encoder with N = 4 |
| `NStreamsDecode.HuffDecodeNs` | tools/huff_test/huff_ref.c:667-697 | for every input and size: accepts exactly when the header is good and every part decodes or has a size of -1 modulo 2^32, and stores all parts when all decode |
| `ContainerBytes.NsRead` | tools/huff_test/huff_ref.c:677-694 | for any input: sizes of three bytes, low byte first, the last from the total in 32 bits; when that is good, and which bytes part s decodes |
| `NStreamsDecode.AcceptsIffDecodes` | tools/huff_test/huff_ref.c:692-693 | without such a size it accepts exactly what decodes |
| `NStreamsDecode.FailureAccepted` | tools/huff_test/huff_ref.c:692-693 | with such a size it accepts a part that does not decode |
| `NStreamsDecode.HuffDecode4s` | tools/huff_test/huff_ref.c:602-628 | the same verdict and output as the N-stream decoder with N = 4 |
| `NStreamsDecode.LayoutStream` | tools/huff_test/huff_ref.c:659-685 | the decoder finds every stream where the encoder put it, the last one from the total |
| `NStreamsDecode.NsRoundTrip` | tools/huff_test/huff_ref.c:630-697 | for every N from 1 to 64 decoding undoes encoding |
| `NStreamsDecode.OutputAnyOrder` | tools/huff_test/huff_ref.c:689-695 | the parts stored in any order, with repetitions, give the same output |
| `AlignedStreams.HuffEncode4sAligned` | tools/huff_test/huff_ref.c:463-495 | stores the padded layout; -1 exactly when a size after the cast reaches 2^24 or a stream or its padding finds no room |
| `AlignedStreams.AlignedFitsIff` | tools/huff_test/huff_ref.c:475-485 | with streams below 4 GB that is when a stream reaches 2^24 bytes or the whole does not fit |
| `ContainerBytes.AlignedHeader` | tools/huff_test/huff_ref.c:488-493 | the four stored sizes, low byte first |
| `ContainerBytes.AlignedBody` | tools/huff_test/huff_ref.c:481-486 | where each stream starts, computed from the sizes; the bytes between the streams are zero |
| `AlignedStreams.AlignedReadBack` | tools/huff_test/huff_ref.c:455-461 | each stream starts at a multiple of 4 that follows from the stored sizes, and decodes to its quarter |
| `Interleaved.HuffEncode4sInterleaved` | tools/huff_test/huff_ref.c:510-567 | stores the transposed words, short streams filled with zeros; -1 exactly when a temporary or the output is too small |
| `ContainerBytes.InterleavedFitsIff` | tools/huff_test/huff_ref.c:523-541 | with streams below 4 GB it fails exactly when a stream has 2^24 bytes or more or overruns its temporary, or the layout does not fit |
| `ContainerBytes.InterleavedHeader` | tools/huff_test/huff_ref.c:543-548 | the four stored sizes, low byte first |
| `ContainerBytes.InterleavedLength` | tools/huff_test/huff_ref.c:536-541 | 12 bytes and 16 for each word of the longest stream |
| `ContainerBytes.InterleavedByte` | tools/huff_test/huff_ref.c:549-561 | byte j of word w of stream s stands at 12 + 16 w + 4 s + j; zero where the stream has ended |
| `Interleaved.EncodeTemp` | tools/huff_test/huff_ref.c:524-537 | the zero padding of the last word stays inside the temporary |
| `Interleaved.HuffDecode4sInterleaved` | tools/huff_test/huff_ref.c:569-600 | for every input and size: -1 exactly when a stream is missing words or is not accepted, and all four parts when all decode |
| `ContainerBytes.InterleavedRead` | tools/huff_test/huff_ref.c:573-596 | for any input: part s decodes as many bytes as its stored size, low byte first, picked word by word; nothing when rows are missing |
| `Interleaved.SiAcceptsIffDecodes` | tools/huff_test/huff_ref.c:596-596 | without a part whose size is -1 modulo 2^32 it accepts exactly what decodes |
| `Interleaved.GatheredIsStream` | tools/huff_test/huff_ref.c:582-593 | picking the words of stream s out of the rows gives back exactly that stream |
| `Interleaved.InterleavedRoundTrip` | tools/huff_test/huff_ref.c:497-600 | decoding undoes encoding |
| `Capacity.LayoutOverhead` | tools/huff_test/huff_ref.c:761-763 | N streams cost their header and at most one byte for each further stream over a single one |
| `Capacity.StreamSizes` | tools/huff_test/huff_ref.c:635-657 | a part of less than 2^23 bytes never encodes to 2^24 |
| `Capacity.CountedBelow1G` | tools/huff_test/huff_ref.c:358-369 | below 1 GB of input no code makes a stream of 4 GB |
| `Capacity.FourStreamsLimit` | tools/huff_test/huff_ref.c:437-441 | every byte costs a bit, so four streams below 2^24 bytes hold less than 2^29 bytes |
| `Capacity.NsCapacity` | tools/huff_test/huff_ref.c:635-665 | 2n + 4(N - 1) bytes hold N streams, so 2n + 16 hold four |
| `Capacity.AlignedCapacity` | tools/huff_test/huff_ref.c:463-495 | 2n + 24 bytes hold the aligned layout |
| `Capacity.InterleavedCapacity` | tools/huff_test/huff_ref.c:510-567 | the temporaries never overflow, and 2n + 48 bytes hold the interleaved layout |
| `Histogram.CountBytes` | tools/huff_test/huff_ref.c:701-702 | counts every byte value modulo 2^32 |
| `Numbers.CountOfIs` | tools/huff_test/huff_ref.c:701-702 | a count is the number of positions that hold the value |
| `Histogram.CodeBitsSize` | tools/huff_test/huff_ref.c:358-369 | the encoded bits are the sum of count times length |
| `Histogram.PrefixCodeKraft` | tools/huff_test/huff_ref.c:157-159 | every prefix code satisfies the Kraft inequality |
| `Histogram.NoPrefixCodeIsShorter` | tools/huff_test/huff_ref.c:67-148 | no prefix code encodes the data in fewer bits than one with the built lengths |
| `Histogram.NeverExpands` | tools/huff_test/huff_ref.c:358-369 | with unlimited Huffman lengths the stream is never longer than the source |
| `Pipeline.KraftRescale` | tools/huff_test/huff_ref.c:709-715 | Kraft in 30-bit fixed point carries over to the index range of the table |
| `Pipeline.SmallInputShifts` | tools/huff_test/huff_ref.c:157-172 | below 3,524,578 bytes every shift by 30 - length is defined |
| `DepthBound.ShiftsDefinedIff` | tools/huff_test/huff_ref.c:157-172 | every input of n bytes has its shifts defined if and only if n is below 3,524,578 |
| `Pipeline.FewBytesShifts` | tools/huff_test/huff_ref.c:157-172 | so it is with at most 31 different bytes, whatever the size |
| `Pipeline.ChosenLengths` | tools/huff_test/huff_ref.c:704-709 | the lengths are those that the builder makes of the counts, limited exactly when one of them exceeds the table |
| `Pipeline.BuildTables` | tools/huff_test/huff_ref.c:701-716 | lengths chosen or limited, a canonical prefix code for exactly the occurring bytes, and its dual table |
| `Pipeline.RoundtripTest` | tools/huff_test/huff_ref.c:700-766 | fails exactly when a stream reaches 2^24 bytes, so never below 33,554,416 bytes and always from 2^29 on; the sizes are those under the chosen code, 9 to 12 bytes apart, and unless a length was cut no prefix code is shorter |
| `FileRatio.ProcessChunk` | tools/huff_test/file_ratio.c:36-58 | no chunk overflows its buffer or fails its round trip |
| `FileRatio.ChunkBytes` | tools/huff_test/file_ratio.c:33-35 | every chunk but the last has 65536 bytes, and byte j of the file is byte j % 65536 of chunk j / 65536 |
| `FileRatio.ChunkCode` | tools/huff_test/file_ratio.c:37-49 | the code of a chunk comes from the byte counts of that chunk alone |
| `FileRatio.HuffTotalIs` | tools/huff_test/file_ratio.c:68-68 | the total is the sum of the container sizes |
| `FileRatio.MeasureFile` | tools/huff_test/file_ratio.c:33-72 | for every file: no failure, one turn for each 64 KB begun, raw total = file size, 128 bytes of weights a chunk, container total over all chunks, longest code length of all codes |
| `OutputSlots.RoundUp32HoldsIff` | tools/huff_test/tans_upgrade_bench.h:30-30 | a slot holds its chunk if and only if the rounding does not wrap |
| `OutputSlots.PlanSlots` | tools/huff_test/tans_upgrade_bench.h:26-34 | the slot is the smallest multiple of 128 that holds every chunk, or 0 when a size is one of the 127 largest; offsets are multiples of it modulo 2^32 |
| `OutputSlots.OffsetsExactIff` | tools/huff_test/tans_upgrade_bench.h:33-34 | the 32-bit offsets are the slot starts if and only if there is at most one slot or the last one starts below 4 GB |
| `OutputSlots.OriginOfPlace` | tools/huff_test/tans_upgrade_bench.h:36-48 | the output map is injective and stays inside its 128-byte block |
| `OutputSlots.PlaceOfOrigin` | tools/huff_test/tans_upgrade_bench.h:36-48 | the output map is onto: every position of a block has an origin in it |
| `OutputSlots.PlaceFits` | tools/huff_test/tans_upgrade_bench.h:44-50 | every byte of a chunk lands inside its slot |
| `OutputSlots.SlotsApart` | tools/huff_test/tans_upgrade_bench.h:44-44 | slots of different chunks do not overlap |
| `OutputSlots.FillExpected` | tools/huff_test/tans_upgrade_bench.h:39-53 | the buffer is the row of all slot images |
| `OutputSlots.BufferInverts` | tools/huff_test/tans_upgrade_bench.h:36-53 | byte 32 i + lane of chunk c, which lies behind all chunks before it in the reference output, stands in slot c at (i / 4) * 128 + lane * 4 + i % 4; all other bytes of the slot are zero |
| `BilTranscode.Body` | tools/huff_test/tans_upgrade_bench.h:141-150 | conservation: K rows of 128 bytes and the tails hold as many bytes as the sub-streams |
| `BilTranscode.ReadHeader` | tools/huff_test/tans_upgrade_bench.h:124-135 | the 16-bit sizes, low byte first, every start, and K: every sub-stream has 4 K bytes and one has fewer than 4 (K + 1) |
| `BilTranscode.ReadLaneBack` | tools/huff_test/tans_upgrade_bench.h:141-150 | every sub-stream is read back from a body by the sizes and K alone |
| `BilTranscode.TranscodeChunk` | tools/huff_test/tans_upgrade_bench.h:139-150 | header, K common words and tails of one chunk, nothing else touched |
| `BilTranscode.ChunkByte` | tools/huff_test/tans_upgrade_bench.h:139-150 | byte by byte: the header is copied, byte j of lane l stands in row j / 4 at 4 l + j % 4 below 4 K, and behind the rows and the earlier tails from there on |
| `BilTranscode.ChunkPlace` | tools/huff_test/tans_upgrade_bench.h:136-150 | a chunk starts at the next multiple of 128 and ends 128 bytes and all its sub-streams later |
| `BilTranscode.EndFits` | tools/huff_test/tans_upgrade_bench.h:116-150 | with disjoint payloads the position stays below the capacity, with at most 255 extra bytes a chunk |
| `BilTranscode.DisjointFits` | tools/huff_test/tans_upgrade_bench.h:116-116 | so disjoint payloads fit the buffer of the compressed size and 384 bytes a chunk |
| `BilTranscode.Transcode` | tools/huff_test/tans_upgrade_bench.h:120-151 | for every list of chunks that fits the buffer: each is stored at its 128-aligned position, with the low 32 bits of the position and its own K recorded |
| `BilTranscode.OffsetsRightIff` | tools/huff_test/tans_upgrade_bench.h:137-137 | the recorded offsets are the positions if and only if the last chunk starts below 4 GB |
| `BilTranscode.OffsetsRightBelow4G` | tools/huff_test/tans_upgrade_bench.h:116-137 | so they are when the payloads are disjoint and the buffer is at most 4 GB |
| `BilTranscode.ChunkReadBack` | tools/huff_test/tans_upgrade_bench.h:111-151 | from a transcoded chunk alone every original sub-stream comes back |
| `WorkQueue.StepKeeps` | src/test_runner_parallel.zig:16-38 | every step of every thread keeps the invariant of claims, owners, index and counters |
| `WorkQueue.RunInv` | src/test_runner_parallel.zig:16-68 | the invariant holds in every state of every interleaving |
| `WorkQueue.ClaimedOnce` | src/test_runner_parallel.zig:17-19 | no test is claimed twice or held by two workers, and next_test is at most tests plus workers |
| `WorkQueue.ThreadIffSpawned` | src/test_runner_parallel.zig:53-56 | in every state a thread exists if and only if some spawn of the run succeeded |
| `WorkQueue.FinishedTotals` | src/test_runner_parallel.zig:53-65 | each printed total is the number of tests with that outcome; they add up to all tests if and only if some spawn succeeded or there is no test |
| `WorkQueue.SilentRunPrintsZeros` | src/test_runner_parallel.zig:53-67 | the run in which every spawn fails ends with zeros and exit code 0 for any number of tests |
| `WorkQueue.ExitCodeIff` | src/test_runner_parallel.zig:67-67 | exit code 1 when some test reported a failure, 0 otherwise |
| `WorkQueue.RunsEnd` | src/test_runner_parallel.zig:16-68 | no run takes more than three steps a test and three a worker, plus two |
| `WorkQueue.NoDeadlock` | src/test_runner_parallel.zig:53-63 | until main has finished some thread can take a step |

## Left out

- Reading files, printing, timing, `malloc` and its failure, CUDA calls and kernels: files are byte sequences, a chunk is a slice, allocation succeeds.
- Arrays that a C function only reads are sequences; arrays it writes are Dafny arrays. An out pointer into a buffer is a base index. The interleaved encoder's four temporaries are snapshots once they are filled.
- HeightLimit.LimitHeight: the shape of the result is promised for counts below 0xFFFFFFFF, the scan's sentinel, and for a sum after cutting below 2^32; where the sum wraps only the limit is.
- Pipeline.RoundtripTest: inputs whose built lengths exceed 30, for which a shift is undefined, and inputs of 4 GB or more, whose counters wrap.
- Pipeline.BuildTables: the same inputs.
- NStreams.HuffEncodeNs: N = -2^31, where N - 1 overflows, and capacities from 2^63 on.
- BilTranscode.Transcode: chunks that together overrun the buffer, which takes payloads that overlap in the input; the code would write past its end.
- OutputSlots.FillExpected: chunks larger than the slot, which only a wrapped slot size allows (`RoundUp32HoldsIff`); the code would write past the end.
- A decoder for the aligned layout: the repository has it only as a GPU kernel, so what is proved is that the stored sizes locate each stream and that it decodes.
- Test functions of the runner always return; spawning is a step of main that may fail, and the three loads after the last join are one step because no worker is left.
- The bench's per-chunk comparison loops, and its closing minimum and sums over the chunks (`tools/huff_test/tans_upgrade_bench.h:75-96`, `tools/huff_test/tans_upgrade_bench.h:267-297`).
- The LZ parsers, frame format, checksums, CLI, build script and the other benches.

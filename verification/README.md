# Verified model of the triaging binaries toolkit

The toolkit condenses the sections of an ELF file into two fuzzy hashes and compares such hashes.
This project models both pipelines in Dafny and proves what they compute.

**CTPH** (`src/ctph.c`, `src/edit_dist.c`). An Adler-32 checksum of the byte stream (`RollingHash`)
marks trigger points; the FNV-1 hash of each piece between them (`Fnv`) gives one base-64 character of
a signature (`Engine`). `BlockSearch` halves the block size, which `BlockStart` derives from a size
estimate, until the signature is long enough, and prints `block:signature:signature` (`Decimal`).
`Compare` reads two such texts, caps runs of equal characters (`Runs`) and scores the pieces by a
weighted edit distance (`EditDistance`). `Locality` bounds what a change in the middle of a stream does to
the signature and the score.

**SimHash** (`src/simhash.c`, `src/shingle_table.c`). Digests of sliding windows go into an
open-addressing table (`Slots` for its contents as a value, `ShingleTable` for the class that updates
them in place), which is drained to take a majority vote for each bit (`SimHash`). `SimHashScore`
compares, prints and reads these hashes.

`Words` and `Elf` hold machine words, C strings and the seven sections. The sources change state, so the
model does: the checksum state and the table are classes, the distance rows and the tally are arrays, and
loops stay loops. Long bodies are cut into methods (`Engine.MoveWindow`, `Engine.Finish`,
`BlockSearch.Finish`, `Compare.ReadPieces`, `Compare.CompareSignatures`, `SimHash.AddShingle`) without
changing what they do in which order. Each method is proved against a function or predicate on values,
and the lemmas below say what these mean.

## Where the code departs from its comments

The model follows the code. Each departure comes with the exact condition under which the comment holds.

- `leftmost` is documented to return the leftmost set bit. It returns the lowest bit of the highest
  non-zero byte, which is the leftmost one if and only if that byte has a single bit
  (`BlockStart.LeftmostIsTopBitIff`; 3 is a value for which it fails).
- `score_strings` is documented to score 100 for a great match. That holds below block size 45; from 45 on
  the code returns the distance share itself (`Compare.SmallerDistanceScores`,
  `Compare.EqualPiecesScore100Iff`, and `Compare.CloserPairRanksLower` for three texts).
- The rule for small block sizes in `score_strings` is documented to keep a match from being exaggerated. It limits
  what is subtracted from 100, so it can only raise a score, and does so exactly if the share exceeds the limit
  (`Compare.SmallBlockRuleRaisesScore`, `Compare.DisjointPiecesScore`).
- The shingle table is documented as a set. That holds while nothing was removed. Removing leaves no mark
  behind, so a later insert may store a present digest again; it does so exactly when the removed slot lay on
  the path to it (`Slots.InsertAfterRemoval`, `Slots.SetIsLostAfterRemoval`). Expansion and the hash
  computation never insert into a table that was partly drained.
- The window loop leaves out the last window of each section. That loses no digest of the section exactly if an
  earlier window of it has the same one, and none of the file exactly if some hashed window of any section has
  (`SimHash.LastWindowIsMissedIff`, `SimHash.LastDigestIsCoveredIff`). A section that is no longer than its window
  size has no window at all (`SimHash.NoWindowIff`). For an unlimited size that is every section, so four of the
  seven never influence the hash (`SimHash.OnlyThreeSectionsMatter`), and files without a longer section all have the
  hash zero and match perfectly (`SimHash.WindowlessHashIsZero`, `SimHashScore.WindowlessFilesScore100`).
- The module calls its checksum a rolling hash and keeps a window size of 7. The checksum covers everything before a
  byte and only starts to be looked at after six bytes. For the block sizes of the search, which are powers of two,
  different bytes are followed by the same trigger points exactly if their sums agree modulo 65521 and, from 2^17 on,
  the second halves of their checksums too (`Engine.SuffixTriggersIff`). So a byte inserted behind six or more keeps
  all trigger points behind it exactly if it is zero and, from 2^17 on, the first half of the checksum is zero as well
  (`Engine.InsertionKeepsTriggersIff`, and `Engine.InsertionLosesTrigger` for an input). At block size 1 every byte
  triggers.
- The length that the engine reports is one less than the number of characters, in 16 bits. For an empty
  signature that is 65535, which ends the search and frees the signature that is printed afterwards. The
  coefficient of the search has 16 bits as well and becomes zero after 16 halvings. Both are the outcome
  `Undefined`, and `BlockSearch.SearchOutcome` says exactly when each of the three outcomes occurs. Streams of zero
  bytes reach both: the division by zero from first block size 2^16 on, and the freed signature exactly if their
  number is a multiple of 2^62 (`BlockSearch.ZerosDivideByZero`, `BlockSearch.ZerosHaveNoSignatureIff`).
- The buffer for the text has room for 18 digits, so from block size 2^60 on exactly one character is lost
  (`BlockSearch.SearchFindsLargestBlock`, and `BlockSearch.SomeTextIsShortened` for an input). It is the last one of
  the second signature and never the colon in front of it, because block sizes from 2^32 on have the same signature
  (`Engine.HugeBlocksSignAlike`, `Compare.ColonIsNeverLost`). So every printed hash is accepted
  (`Compare.PrintedHashIsAccepted`).

## Choices

- MD5 is an arbitrary function from byte sequences to 16 bytes. Nothing is assumed about collisions, nor about
  collisions of FNV: where the hash of a stream is the FNV offset basis, the lemmas say what happens.
- The size estimate, computed in floating point by `pow` and `log2`, is an arbitrary 64-bit number. The rest of
  the computation (`leftmost`, the shift that may lose the top bit) is modelled.
- The 32-bit checksum is `65536 * b + a`: the shift in `rh_add_byte` is taken as unsigned.
- `sscanf` with an unsigned format is modelled as skipping white space, accepting a sign, and reading digits; a
  number too large for 64 bits becomes the largest one, and a minus sign negates modulo 2^64.
- The score of two similarity hashes is computed in `real`. `SimHashScore.ScoreIsExactInBinary` shows that the
  quotient and its complement, which the source has in double precision, are 128ths, and that all values from the
  product on, in single precision, are small multiples of 1/32. Both are represented exactly.
- Allocation succeeds. A buffer pointer is a section and an offset, and the nodes that the table points to are
  values in its slots, because each node is referenced from its slot only.

## Model

| member | source | states |
|---|---|---|
| `RollingHash.State.constructor` | src/ctph.c:62-72 | the fresh state is the checksum of the empty stream |
| `RollingHash.State.AddByte` | src/ctph.c:82-93 | after any bytes the state is their Adler-32 checksum in closed form (sums modulo 65521) |
| `RollingHash.ChecksumStep` | src/ctph.c:87-88 | the closed form of a stream with one more byte, from the one without it |
| `RollingHash.ChecksumConcat` | src/ctph.c:82-93 | both halves of the checksum of two concatenated streams from the checksums of the parts |
| `RollingHash.ChecksumFitsItsWords` | src/ctph.c:40-44 | the halves fit 16 bits and the checksum 32 bits, so nothing is truncated |
| `RollingHash.TestVector` | src/ctph.c:82-93 | the checksum of "abc" is the published Adler-32 value |
| `RollingHash.ModulusIs65521` | src/ctph.c:87 | 65520 ones bring the first half back to zero |
| `Fnv.DigitIsSixBitHash` | src/ctph.c:103-112 | the signature character is computed by a 6-bit machine with multiplier 51 from the bytes modulo 64 |
| `Fnv.PiecesEqualMod64ShareTheirDigit` | src/ctph.c:156-165 | pieces whose bytes agree modulo 64 get the same character |
| `Fnv.RemoveUndoesAdd` | src/ctph.c:108-109 | for a fixed byte the hash step is a bijection of the 64-bit words, undone by the inverse multiplier |
| `Fnv.HashFromInjective` | src/ctph.c:103-112 | hashing the same bytes keeps distinct hashes distinct |
| `Fnv.B64IsTable` | src/ctph.c:114-116 | character i is entry i of the table written out |
| `Fnv.FromB64UndoesB64` | src/ctph.c:114-116 | decoding by character ranges and encoding undo each other |
| `Fnv.EqualDigitsIff` | src/ctph.c:161 | two signature characters are equal exactly if the low six bits of the hashes are |
| `Fnv.XorBit` | src/ctph.c:109 | each bit of the exclusive or is set exactly if one of the two bits is |
| `Fnv.TestVector` | src/ctph.c:55-112 | the hash of "foo" is the published FNV-1 value |
| `Fnv.ZerosHashToBasisIff` | src/ctph.c:103-112 | n zero bytes bring the hash back to the offset basis exactly if n is a multiple of 2^62 |
| `Engine.CtphHashEngine` | src/ctph.c:126-187 | the nested section loops give the signature of the concatenated stream, however it is split, and its length less one in 16 bits |
| `Engine.MoveWindow` | src/ctph.c:144-168 | the loop body keeps the relation between all its variables and the bytes consumed so far |
| `Engine.Finish` | src/ctph.c:171-186 | the tail character is added exactly if the running hash is not the offset basis |
| `Engine.ByteConsumed` | src/ctph.c:146-167 | the three ways in which a byte is treated: warming up, no trigger, trigger |
| `Engine.Triggers` | src/ctph.c:152-157 | the trigger points, in increasing order and without omission, are the warm positions whose checksum the block size divides |
| `Engine.CharacterHashesPiece` | src/ctph.c:152-165 | character k of the signature encodes the FNV-1 hash of the bytes between two successive trigger points: the last of them triggers and none before it does |
| `Engine.PiecesPartitionStream` | src/ctph.c:144-175 | the pieces and the tail concatenate to the consumed stream |
| `Engine.CutsAreFirstTriggers` | src/ctph.c:145-162 | a position ends a piece exactly if it is among the first 63 trigger points |
| `Engine.CommonPrefixGivesCommonDigits` | src/ctph.c:144-168 | streams with a common prefix share one character for each of its trigger points |
| `RollingHash.SuffixChecksumIff` | src/ctph.c:82-93 | behind the same bytes two checksums are equal exactly if both halves were equal before them |
| `RollingHash.SmallPowerDividesIff` | src/ctph.c:87-92 | up to 2^16 a power of two divides the checksum exactly if it divides the first half |
| `RollingHash.LargePowerDividesIff` | src/ctph.c:87-92 | 2^j from 2^16 on divides the checksum exactly if the first half is zero and 2^(j - 16) divides the second |
| `RollingHash.HugePowerDividesIff` | src/ctph.c:87-92 | a power of two from 2^32 on divides the checksum exactly if the checksum is zero |
| `Engine.SuffixTriggersIff` | src/ctph.c:146-157 | behind two prefixes every suffix has the same trigger points for 2^j exactly if j is 0, or the first halves of their checksums are equal and, for j above 16, the second halves too |
| `Engine.InsertionKeepsTriggersIff` | src/ctph.c:146-157 | an inserted byte keeps the trigger points of every suffix for 2^j exactly if j is 0, or the byte is zero and, for j above 16, the first half of the checksum is zero |
| `Engine.InsertionLosesTrigger` | src/ctph.c:146-157 | for each block size from 2 to 2^15 a stream that loses a trigger point when a byte is inserted |
| `Engine.CommonSuffixGivesCommonDigits` | src/ctph.c:144-168 | where different prefixes bring the trigger points back, the characters from the second one on come back too, at any shift and up to the cap |
| `Engine.CommonSuffixGivesCommonEnd` | src/ctph.c:144-178 | below the cap the two signatures are then equal up to their end, tail character included |
| `Engine.CoarserTriggersAreTriggers` | src/ctph.c:157-162 | the trigger points for a multiple of a block size are trigger points for it |
| `Engine.CoarserHasFewerTriggers` | src/ctph.c:157-162 | there are no more of them, and if there are as many they are the same |
| `Engine.FinerSignatureIsNotShorter` | src/ctph.c:145-175 | dividing the block size never shortens the signature, cap and tail character included |
| `Engine.HugeBlocksSignAlike` | src/ctph.c:145-175 | all block sizes from 2^32 on give the same signature |
| `Engine.EveryWarmByteTriggersAtOne` | src/ctph.c:152-157 | at block size 1 every byte from the seventh on is a trigger point, the last one included |
| `Engine.SignatureLengthAtOne` | src/ctph.c:145-175 | at block size 1 the signature of 7 bytes or more has exactly min(63, n - 6) characters, and of fewer bytes at most one |
| `Engine.EmptySignature` | src/ctph.c:171-178 | the signature is empty exactly if nothing triggers and the stream hashes to the offset basis |
| `Engine.SignLengthCases` | src/ctph.c:177 | the reported length is one short, and 65535 for the empty signature |
| `Engine.SevenZerosSignAsN` | src/ctph.c:126-187 | seven zero bytes at block size 1 sign as "n" |
| `BlockStart.LeftmostIsSingleBit` | src/ctph.c:195-213 | `leftmost` of a non-zero word has exactly one bit |
| `BlockStart.LeftmostIsTopBitIff` | src/ctph.c:202-213 | it is the highest bit if and only if the highest non-zero byte has one bit |
| `BlockStart.LeftmostMissesTopBitOfThree` | src/ctph.c:202-213 | a value for which it is not the highest bit |
| `BlockStart.LeftmostIsClose` | src/ctph.c:208-213 | it does not exceed the word and is within a factor of 256 of it |
| `BlockStart.FirstBlockSizeIsPowerOfTwo` | src/ctph.c:236 | the first block size is zero exactly if the estimate is zero or its highest byte is 0x80, and otherwise a power of two from 2 to 2^63 |
| `BlockStart.LeftmostInNumbers` | src/ctph.c:195-213 | `leftmost` of a number is two to the exponent of the lowest bit in its highest byte |
| `BlockStart.LeftmostExponentIs` | src/ctph.c:208-213 | with 256^t as the weight of the highest byte, that exponent is 8t and the exponent of the byte |
| `BlockStart.TrailingZerosDivide` | src/ctph.c:195-200 | the exponent of a byte is that of the largest power of two that divides it |
| `BlockStart.FirstBlockSizeInNumbers` | src/ctph.c:236 | the first block size is twice that power, and zero exactly where this is 2^64 |
| `BlockStart.SomeFirstBlockSize` | src/ctph.c:236 | an estimate of 300 gives 512 |
| `BlockSearch.CtphHash` | src/ctph.c:221-281 | the do-while search with its 16-bit coefficient and both ways to the second signature gives the specified outcome |
| `BlockSearch.Finish` | src/ctph.c:258-280 | from the end of the loop on: the second signature, the buffer size and the text |
| `BlockSearch.BlockIsQuotient` | src/ctph.c:241 | dividing by the coefficient is halving once for each round |
| `BlockSearch.ChosenIsFirst` | src/ctph.c:240-256 | the chosen round is the first one that does not go on |
| `BlockSearch.ChosenRound` | src/ctph.c:240-256 | for a power of two, the search stops at the first long signature, or one round after the finest it can reach |
| `BlockSearch.SigLenAntitone` | src/ctph.c:241-251 | along the search the signatures never get shorter |
| `BlockSearch.SearchOutcome` | src/ctph.c:239-267 | if and only if conditions for success, for no hash and for an undefined result, for every power of two |
| `BlockSearch.ZeroBlockGivesNoHash` | src/ctph.c:236-244 | a first block size of zero gives no hash |
| `BlockSearch.OutcomeForEstimate` | src/ctph.c:232-267 | the outcome for every estimate: no hash where it leaves no block size, and otherwise the one decided at twice the lowest bit of its highest byte |
| `BlockSearch.HugeFirstBlockOutcome` | src/ctph.c:239-275 | from first block size 2^47 on the signature for 2^32 alone decides the outcome, and what is printed has the first block size |
| `BlockSearch.ZerosDivideByZero` | src/ctph.c:240-256 | zero bytes of any number lead every first block size from 2^16 on to the division by zero |
| `BlockSearch.ZerosHaveNoSignatureIff` | src/ctph.c:171-178 | n zero bytes have an empty signature for an even block size exactly if n is a multiple of 2^62 |
| `BlockSearch.ZerosOutcome` | src/ctph.c:239-267 | for any number of zero bytes and every first block size, exactly when the search succeeds and when it is undefined |
| `BlockSearch.SearchFindsLargestBlock` | src/ctph.c:239-275 | for every power of two, success means the largest halved block size with more than 32 characters; the text has that signature and the one for the double block size, and is complete exactly below block size 2^60, where it loses one character |
| `BlockSearch.SearchSucceedsIff` | src/ctph.c:239-267 | up to 2^15 the search succeeds exactly if the stream has 39 bytes or more and its first signature is not empty |
| `BlockSearch.SearchSucceeds` | src/ctph.c:239-256 | so from 61 bytes on, unless the stream hashes to the offset basis |
| `BlockSearch.TextLosesMissing` | src/ctph.c:270-275 | the buffer holds the text but for one character for each digit of the block size beyond 18, also when the second signature is empty |
| `BlockSearch.TextIsCompleteIff` | src/ctph.c:270-275 | the text is complete exactly if the block size is below 10^18 |
| `BlockSearch.SomeTextIsShortened` | src/ctph.c:239-275 | a stream that is printed at every first block size from 2 to 2^62, with a character missing from 2^60 on |
| `Decimal.PrintIsDigits` | src/ctph.c:275 | the printed block size consists of digits with that value |
| `Decimal.PrintLength` | src/ctph.c:270-275 | a number prints with at most k digits exactly if it is below 10^k |
| `Decimal.ScanUndoesPrint` | src/ctph.c:385-388 | scanning a printed 64-bit number in front of other text gives it back |
| `Decimal.ScanOfNumber` | src/ctph.c:385-388 | white space, a sign and digits read as the number, negated modulo 2^64 behind a minus sign, and as 2^64 - 1 if it is too large |
| `Decimal.ScanOfNothing` | src/ctph.c:385-388 | without a digit behind white space and sign nothing is read |
| `Decimal.IsSpaceIff` | src/ctph.c:385-388 | white space by character codes |
| `EditDistance.EditDistn` | src/edit_dist.c:24-47 | the two swapped rows compute the distance for any first and a second string of at most 64 characters |
| `EditDistance.EveryScriptCostsAtLeastDistance` | src/edit_dist.c:31-46 | no edit script from one string to the other is cheaper than the distance |
| `EditDistance.SomeScriptCostsDistance` | src/edit_dist.c:31-46 | some edit script costs exactly the distance |
| `EditDistance.CommonSubsequenceBoundsDistance` | src/edit_dist.c:33-46 | every common subsequence bounds the distance from above |
| `EditDistance.DistanceIsLengthsMinusTwiceLcs` | src/edit_dist.c:18-46 | the distance is the sum of the lengths less twice the length of a longest common subsequence |
| `EditDistance.CommonSuffixIsFree` | src/edit_dist.c:31-46 | a common end does not change the distance |
| `EditDistance.CommonEndsBoundDistance` | src/edit_dist.c:31-46 | with a common beginning and a common end, the distance is at most what is between |
| `EditDistance.NothingInCommon` | src/edit_dist.c:33-46 | strings without a common character are as far apart as their lengths allow |
| `EditDistance.DistanceSymmetric` | src/edit_dist.c:33-46 | the distance is symmetric |
| `EditDistance.DistanceZeroIffEqual` | src/edit_dist.c:33-46 | it is zero exactly for equal strings |
| `EditDistance.DistanceTriangle` | src/edit_dist.c:33-46 | it satisfies the triangle inequality |
| `EditDistance.DistanceRange` | src/edit_dist.c:33-46 | it lies between the difference and the sum of the lengths and has the parity of the sum |
| `EditDistance.DistanceStep` | src/edit_dist.c:36-40 | an equal last character is always kept, and replacing is never better than removing and inserting |
| `Runs.CopyEliminateSequences` | src/ctph.c:332-366 | copies the field with its runs capped; fails exactly if that is longer than the buffer, which then holds the beginning; writes nowhere else |
| `Runs.RunsSpellString` | src/ctph.c:343-363 | the runs of a string are non-empty, maximal and spell it |
| `Runs.RunsOfExpansion` | src/ctph.c:343-363 | a list of maximal runs is the only one that spells its string |
| `Runs.RunsOfCap` | src/ctph.c:343-363 | the capped string has as many runs, of the same characters in the same order, each of the smaller of its length and three |
| `Runs.NoRunAboveThree` | src/ctph.c:348-352 | no run of the capped string is longer than three |
| `Runs.CapIdempotent` | src/ctph.c:328-366 | capping twice is capping once |
| `Runs.CapIsSubsequence` | src/ctph.c:328-366 | the capped string is a subsequence of the string, and no longer |
| `Compare.ScoreStrings` | src/ctph.c:289-326 | the scaled, capped and (below block size 45) reversed distance, or a division by zero for two empty pieces |
| `Compare.ScoreRange` | src/ctph.c:303-325 | a score is a percentage |
| `Compare.SmallerDistanceScores` | src/ctph.c:283-325 | below block size 45 a smaller distance never scores less, from 45 on it never scores more |
| `Compare.ShareIsPercentage` | src/ctph.c:303-310 | the two rescalings give the distance as a percentage of the lengths, rounded down by less than three |
| `Compare.SmallBlockRuleRaisesScore` | src/ctph.c:319-325 | below block size 45 the rule for small blocks never lowers a score, and leaves it alone exactly if the share is within the limit |
| `Compare.DisjointPiecesScore` | src/ctph.c:283-325 | what pieces without a common character score |
| `Compare.EqualPiecesScore100Iff` | src/ctph.c:312-325 | equal pieces score 100 exactly below block size 45, and 0 from there on |
| `Compare.OneOfThreeScores32` | src/ctph.c:303-310 | a share of one third scores 32, rounded down twice |
| `Compare.ShortDisjointPiecesScore95` | src/ctph.c:319-325 | two pieces without a common character that score 95 |
| `Compare.CloserPairRanksLower` | src/ctph.c:283-325 | three texts of which the closer pair scores lower |
| `Compare.ReadPieces` | src/ctph.c:399-442 | reads the two capped pieces of one text, or finds it malformed or too long |
| `Compare.CtphCompare` | src/ctph.c:372-479 | the overflow-guarded tests and the pairing of pieces agree with comparing at the common block size |
| `Compare.CompareSignatures` | src/ctph.c:444-478 | the same from the point where both texts are well formed, block sizes above half of the 64-bit range included |
| `Compare.ComparisonSymmetric` | src/ctph.c:393-476 | comparing is symmetric for all texts, undefined results included |
| `Compare.ComparisonRange` | src/ctph.c:372-479 | a defined result is -1 or a percentage |
| `Compare.IncomparableScoreZero` | src/ctph.c:393-398 | block sizes of which neither is the other nor its double score 0 |
| `Compare.RejectedIff` | src/ctph.c:385-442 | the comparison is -1 exactly if a number is missing, or a text is malformed and the block sizes can be compared |
| `Compare.CrossedPairAtItsBlockSize` | src/ctph.c:460-463 | crossed pieces are scored at the larger block size: two pairs of texts that score 100 and 0 |
| `Compare.BetterScoreCounts` | src/ctph.c:455-459 | the second pieces are scored at twice the block size and the better score counts: two texts that score 80 |
| `Compare.ComparisonWithItself` | src/ctph.c:444-451 | a text compared with itself gives 100 if it is well formed and -1 otherwise |
| `Compare.UndefinedIff` | src/ctph.c:303 | the division by zero happens exactly for different well-formed texts that compare two empty pieces |
| `Compare.SomeComparisonDividesByZero` | src/ctph.c:303 | two texts whose comparison divides by zero |
| `Compare.ParseUndoesText` | src/ctph.c:275-442 | every printed text is read back: block size and capped signatures |
| `Compare.ParseOfText` | src/ctph.c:385-442 | a text is read back whatever follows a comma, and rejected exactly if a capped piece is longer than 64 characters |
| `Compare.PiecesNeedTwoColons` | src/ctph.c:401-423 | a text with fewer than two colons is malformed |
| `Compare.ParsePrintedText` | src/ctph.c:270-421 | what is read back of a text for each block size 2^j, with the last character missing from 2^60 on; its case of a missing second colon never arises for a printed hash |
| `Compare.ColonIsNeverLost` | src/ctph.c:239-275 | a text that the search prints keeps its second colon: where it is shortened, the second signature is the first one |
| `Compare.PrintedHashIsAccepted` | src/ctph.c:221-479 | for every power of two as first block size, what the search prints is read back with the block size found and the capped signatures as printed, and scores 100 against itself |
| `Compare.PrintedHashesCompare` | src/ctph.c:221-479 | any two printed hashes are read back and compare to a percentage, except exactly for different ones of the same block size whose second pieces are both empty; to 0 where the block sizes cannot be compared |
| `Compare.DistantHashesScoreZero` | src/ctph.c:221-398 | printed hashes whose block sizes are more than one doubling apart score 0 |
| `Compare.PrintedHashesGivePercentage` | src/ctph.c:221-479 | two printed hashes compare to a percentage, unless both streams hash to the offset basis |
| `Locality.ChangeIsLocal` | src/ctph.c:144-178 | where trigger points come back behind a replaced part and no signature is full, the two signatures are the same but for one character for each trigger point in the part and one more |
| `Locality.ChangeBoundsDistance` | src/ctph.c:144-178 | so their edit distance is bounded by those characters, however long the rest of the stream is |
| `Locality.ChangeBoundsScore` | src/ctph.c:289-326 | and their score by the score of that distance: from below under block size 45, from above from there on |
| `Locality.EqualSumsKeepTriggersIff` | src/ctph.c:146-157 | for block sizes from 2 to 2^16 the trigger points behind a replaced part stay exactly if the sums of its bytes agree modulo 65521 |
| `Slots.ProbeStops` | src/shingle_table.c:165-175 | probing stops at the first slot that is empty or holds the digest |
| `Slots.ProbeTerminates` | src/shingle_table.c:168-175 | in a table that is not full probing stops before it comes round |
| `Slots.HomeInNumbers` | src/shingle_table.c:16-29 | the home slot is the product of the bytes modulo 2^64 and the size, plus their sum, modulo the size |
| `Slots.HomeIgnoresOrder` | src/shingle_table.c:16-29 | it depends on the multiset of the bytes |
| `Slots.SomeHomes` | src/shingle_table.c:16-29 | two digests at home in slots 17 and 16 of a table of the default size |
| `Slots.InsertionFillsNextEmpty` | src/shingle_table.c:162-191 | a stored shingle goes into the first empty slot from its home slot on, in modular arithmetic, past other digests only |
| `Slots.InsertFullIff` | src/shingle_table.c:157-160 | an insert is refused exactly by a full table, which it leaves as it is |
| `Slots.InsertReportsIff` | src/shingle_table.c:154-175 | after any history an insert reports a present digest exactly if it is reachable from its home slot |
| `Slots.InsertIsSetInsert` | src/shingle_table.c:154-191 | in the build phase an insert is insertion into a set and keeps uniqueness, unbroken paths and the count |
| `Slots.InsertAfterRemoval` | src/shingle_table.c:154-208 | after a removal a present digest is reported exactly if the emptied slot is not on its path; otherwise it is stored twice |
| `Slots.SetIsLostAfterRemoval` | include/shingle_table.h:32 | a two-slot table in which that happens |
| `Slots.FirstAfterInsert` | src/shingle_table.c:186-188 | the cached index stays the least occupied slot |
| `Slots.ContentsAfterRemoval` | src/shingle_table.c:205-208 | removing takes one digest and one shingle out and keeps the others distinct |
| `Slots.ListingAfterRemoval` | src/shingle_table.c:200-218 | draining returns the shingles in slot order |
| `Slots.ListingIsContents` | src/shingle_table.c:193-222 | that order names every stored shingle, and in a duplicate-free table exactly once |
| `ShingleTable.GetHash` | src/shingle_table.c:16-29 | the two loops compute the home slot, with 64-bit wrap-around |
| `ShingleTable.IsMd5Equal` | src/shingle_table.c:31-39 | compares whole digests |
| `ShingleTable.Table.constructor` | src/shingle_table.c:54-75 | a new table is valid, empty and in the build phase |
| `ShingleTable.Table.FindSlot` | src/shingle_table.c:162-175 | the cyclic probe loop terminates at the specified slot |
| `ShingleTable.Table.Insert` | src/shingle_table.c:154-191 | code and new contents are those specified, and count and cached first index stay right after any history |
| `ShingleTable.Table.RemoveFirst` | src/shingle_table.c:193-222 | returns and empties the least occupied slot; the rescan ends without wrapping; fails exactly on an empty table |
| `ShingleTable.ExpandSize` | src/shingle_table.c:84-106 | from any duplicate-free table: twice the size, the same shingles, the build phase restored, and the very slots that inserting them in slot order fills |
| `ShingleTable.MoveOne` | src/shingle_table.c:96-99 | each insert of the expansion succeeds: no full table and no duplicate |
| `SimHash.FillTable` | src/simhash.c:61-80 | the table holds exactly the digests of the windows, for any capacity and number of expansions |
| `SimHash.AddShingle` | src/simhash.c:73-78 | one digest is added, with an expansion if the table is full |
| `SimHash.InSectionDigests` | src/simhash.c:62-71 | the digests of a section are those of its windows but the last |
| `SimHash.Tally` | src/simhash.c:90-96 | one digest changes each of the 128 counters by one, by its bit |
| `SimHash.CountVotes` | src/simhash.c:82-97 | draining the table leaves in each counter the vote of everything that was stored |
| `SimHash.VoteCountsSet` | src/simhash.c:87-97 | among distinct digests a vote is the number of ones less the number of zeros |
| `SimHash.VoteIsMajority` | src/simhash.c:87-107 | the vote is positive exactly if more of the set of digests have the bit set than clear |
| `SimHash.PackHash` | src/simhash.c:101-114 | bit k of the result is set exactly if counter k is positive |
| `SimHash.PackOctet` | src/simhash.c:102-113 | the do-while loop packs eight counters into a byte |
| `SimHash.PackedBits` | src/simhash.c:102-113 | each bit of the packed byte is the one it was made from |
| `SimHash.ComputeHash` | src/simhash.c:45-119 | each bit of the hash is the majority over the set of distinct window digests, for any data, digest function and capacity |
| `SimHash.DigestSetDeterminesHash` | src/simhash.c:82-114 | the set of digests alone determines the hash |
| `SimHash.OneDigestIsTheHash` | src/simhash.c:82-114 | the hash of a single digest is that digest |
| `SimHash.BitIsBinaryDigit` | src/simhash.c:92 | the bits counted are the binary digits of the bytes |
| `SimHash.LastWindowIsMissedIff` | src/simhash.c:62-68 | leaving out the last window loses no digest exactly if an earlier window of the section has the same one |
| `SimHash.LastDigestIsCoveredIff` | src/simhash.c:57-68 | the digest of a left-out window is in the set exactly if some hashed window of some section has the same one |
| `SimHash.NoWindowIff` | src/simhash.c:57-71 | there is no digest exactly if no section is longer than its window size |
| `SimHash.WindowlessHashIsZero` | src/simhash.c:57-114 | without a window the hash is zero |
| `SimHash.InDataDigests` | src/simhash.c:57-71 | the digests are those of the hashed windows of all sections |
| `SimHash.WindowsDecideDigestsIff` | src/simhash.c:57-71 | where no two different windows collide, two files have the same digests exactly if they have the same set of windows |
| `SimHash.InWindowsOfData` | src/simhash.c:12-68 | the hashed windows are the single bytes of two sections and the 20-byte windows of a third |
| `SimHash.HashedWindowsAreParts` | src/simhash.c:62-66 | every part of a section with a byte behind it is a hashed window of its length |
| `SimHash.HashedWindowIsPart` | src/simhash.c:62-66 | and every hashed window is such a part |
| `SimHash.LastByteIsIgnored` | src/simhash.c:62-71 | the last byte of a section does not influence its windows |
| `SimHash.OnlyThreeSectionsMatter` | src/simhash.c:12-114 | two files have the same hash if the same byte values occur in their PLT and TEXT taken together, last bytes aside, and their RODATA have the same windows: order, number and section of code bytes and all other sections play no part |
| `SimHashScore.CompareHash` | src/simhash.c:128-151 | the score is 100 less 25/16 for each differing bit, and at least zero |
| `SimHashScore.PopcountOfXor` | src/simhash.c:133-138 | the population count of the exclusive or counts the differing bits |
| `SimHashScore.HammingCounts` | src/simhash.c:133-138 | the distance is the number of the 128 bits that differ |
| `SimHashScore.HammingZeroIffEqual` | src/simhash.c:133-138 | no bit differs exactly for equal hashes |
| `SimHashScore.HammingTriangle` | src/simhash.c:133-138 | the number of differing bits satisfies the triangle inequality |
| `SimHashScore.ScoreIsSimilarity` | src/simhash.c:128-151 | the score is symmetric, 100 exactly for equal hashes, 0 exactly from 64 differing bits on, and what is missing to 100 satisfies the triangle inequality |
| `SimHashScore.WindowlessFilesScore100` | src/simhash.c:57-151 | any two files without a window match perfectly |
| `SimHashScore.ScoreIsExactInBinary` | src/simhash.c:139-148 | the quotient and its complement are 128ths, and all later values small multiples of 1/32 |
| `SimHashScore.SimhashToString` | src/simhash.c:153-166 | two lower-case hexadecimal digits for each byte |
| `SimHashScore.SimhashStringToUint` | src/simhash.c:168-187 | reads two characters for each byte, stopping within a byte at a character that is no digit; the rest stays unset behind a shorter text |
| `SimHashScore.SimhashCompare` | src/simhash.c:205-226 | the score of the hashes that the texts stand for |
| `SimHashScore.ParseUndoesPrint` | src/simhash.c:153-187 | reading a printed hash gives the hash |
| `SimHashScore.HexDigitsAre` | src/simhash.c:163 | lower-case digits are printed and both cases are read, against the tables written out |
| `SimHashScore.StrtolCases` | src/simhash.c:179-184 | a byte from two digits, from the first one alone, or zero, by which characters are digits |
| `SimHashScore.SomeTexts` | src/simhash.c:153-187 | the high digit comes first, and texts with other characters |

## Left out

- BlockStart.FirstBlockSizeIsPowerOfTwo: the estimate itself (`pow` and `log2` of the data size, src/ctph.c:232-235) is a parameter, so the block size is not related to the data size.
- EditDistance.EditDistn: the width of `int` is not modelled; all values are at most the sum of the lengths.
- Locality.ChangeBoundsScore: the strings scored are the signatures as they are made; capping their runs when a text is read back is not followed, and can make a small distance larger.
- SimHashScore.SimhashStringToUint: texts of odd length and of more than 32 characters, for which the source reads or writes outside its buffers.
- SimHashScore.SimhashCompare: shorter texts, for which the source compares bytes that were never set.
- ShingleTable.ExpandSize: tables of 2^63 slots and more, whose doubled size does not fit 64 bits.
- Allocation failure, freeing, and the early returns for null arguments and for a table of size zero.
- MD5 itself (src/simhash.c:71) is a parameter.
- `src/tbt.c`: the command line, directory walk, hash files and the sorting of results.
- `src/elf_manager.c` and `include/libelf`: reading, decoding and printing ELF files.

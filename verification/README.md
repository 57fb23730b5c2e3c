# Verified model of par2rs

A Dafny 4.11 model of the arithmetic and the state machines of par2rs, a PAR2 erasure coder, with proofs about them.
`dafny verify dfyconfig.toml` checks everything. The project follows the program from the bottom up.

**The field.** `Gf16` defines GF(2^16) without tables, as carry-less arithmetic modulo 0x1100B on 16-bit words.
`Primitive` shows that x has order exactly 65535, with a handful of products of constants obtained by squaring, and
hence that every nonzero element has a logarithm. `GaloisTable` builds the log and antilog tables in the loop of the
program and shows that the operations read off them are those of the field. `Divisors` and `Bases` treat the greatest
common divisor loop, the base values, and why there are exactly 32768 of them.

**Slices.** `SliceKernel` and `Slices` hold the split multiplication tables and the kernel that multiplies a byte slice
in place, odd last byte included. `Encoder` is the one-shot recovery block encoder.

**Reconstruction.** `LinearAlgebra` and `GaussJordan` are the elimination, with inverses and unique solutions
characterised by kernels. `RecoveryEquations` states the equations recovery slices put on missing slices.
`WordReconstruction`, `Reconstruction` (with `Contributions`) and `ChunkedReconstruction` (with `Chunks` and
`RepairChunkSize`) are the three routes of the program, and `RouteAgreement` shows that they return the same bytes.
`SliceProvider` is the provider of present slices with its cache, `ServedChunks` and `ReadAheadSchedule` say which of
its chunks arrive without padding, and `ServedRepair` and `SplitWords` say exactly when lost slices come back in spite
of it.
`ErasureCode` is the round trip from lost slices back to lost slices; `Vandermonde` and `Recoverability` say which
losses can be repaired: all of them with consecutive recovery exponents, and for two missing slices exactly which.
`InPlaceElimination` and `ReedSolomon` are the matrix object with its elimination that touches only the columns right
of the pivot.

**Checksums.** `CrcField` and `CrcPowers` are the reflected arithmetic modulo the CRC-32 polynomial and the fast
exponentiation; `RollingCrc` shows that sliding a window gives the CRC-32 of section 8 of RFC 1952 of every later
window.

**Creating.** `CreateBackend` is the batching backend as a class over mutable buffers. `SourceBlocks`, `SourceHashing`
and `StreamingCreate` are the single pass over the source files, chunk by chunk, that feeds the backend and the
hashers. `BlockSize` and `RecoveryFiles` are the integer planning: the block size search and the distribution of
recovery blocks over files. `VolumeFiles` writes the volumes as bytes and reads them back.

**Packets and repair.** `LittleEndian`, `PacketStream` and `PacketFormats` are the resynchronising parser and the five
packet formats the creator writes, recovery slices among them. `RecoveryMetadata` is the scan with which repair finds
recovery slices. `RepairAssembly` numbers the slices of all files and writes a repaired file, and `RepairRun` is repair
of a file from beginning to end. `CreateAndRepair` puts everything together: files are encoded and hashed in chunks and
stored in volumes, slices and recovery slices are lost, and repair reconstructs in chunks of its own. The file it puts
in place is the original under every harmless memory limit: none, one that is at least a slice, or one that splits no
words while the files hold no odd number of bytes above one chunk of any slice.

Loops and in-place updates of the program are methods with loops; vectors, matrices and hash maps it reassigns are
sequences and maps; the buffers of the backend, the tables and the kernel output are arrays. Each method is proved
against a function or a predicate, and the lemmas are about those.

Where the code and its comments disagree the model follows the code:

- `src/checksum/rolling_crc.rs:131-137` describes a multiplication by x^(8 * (window size - 1)); the code multiplies the
  table entry of the byte, which is already divided for eight bits, by x^(8 * window size).
- `src/create/context.rs:163-207` updates the whole-file hash in chunk order, which is file order only under the
  condition of `SourceHashing.HashRightExactly`.
- `src/create/file_naming.rs:156` caps the last file at the bottom, which loses blocks exactly under the condition of
  `RecoveryFiles.LosesBlocks`.
- `src/packets/main_packet.rs:32-37` reads all ids into the first list, so that the second never comes back.
- `src/repair/mod.rs:63-74` says that at least four bytes are required, but accepts smaller limits for slices of at most
  four bytes, with which not all lost slices come back when the limit is odd (`SplitWords.HighByteLost`).
- `src/reed_solomon/codec.rs:1571-1572` relies on the provider to pad every chunk, but
  `src/repair/slice_provider.rs:260-284` caches what it reads ahead without padding. A slice of which the files hold
  an odd number of bytes above one chunk can then lose the high byte of its last product, and a lost slice come back
  with a wrong byte (`SplitWords.ShortSliceSpoils`, `ServedRepair.AlwaysRepairsExactly`).
- `src/create/context.rs:680-690` returns before anything is hashed when there are no recovery blocks, and the
  whole-file hash in the description stays zero (`SourceHashing.HashRightExactly`).
- `src/par2_files.rs:659-670` skips a packet of another type by its length field without a check; a length of zero is
  never got over (`RecoveryMetadata.ZeroLengthEndless`).
- `src/reed_solomon/codec.rs:805-833` makes base values for any number of slices, but beyond 32768 they repeat
  (`Bases.BasesRepeat`), which an explicit block size does not rule out.
- `src/packets/mod.rs:32` bounds packets at 100 MiB, which the creator does not: recovery slices of larger blocks are
  written but not found again by this parser (`VolumeFiles.WriteThenRead`).
- `src/packets/mod.rs:195` promises an empty result on input errors; the code returns the packets read so far.

## Model

| member | source | states |
|---|---|---|
| `Gf16.MulAssoc` | src/reed_solomon/galois.rs:195-209 | carry-less multiplication modulo 0x1100B is associative |
| `Gf16.MulComm` | src/reed_solomon/galois.rs:195-209 | it is commutative |
| `Gf16.MulAddLeft` | src/reed_solomon/galois.rs:161-209 | it distributes over XOR addition |
| `Gf16.MulOneLeft` | src/reed_solomon/galois.rs:195-209 | one is its unit |
| `Primitive.OrderOfX` | src/reed_solomon/galois.rs:55-70 | a power of x is one exactly when the exponent is a multiple of 65535: the generator polynomial is primitive |
| `Primitive.LogExists` | src/reed_solomon/galois.rs:55-70 | every nonzero element is a power of x with an exponent below 65535 |
| `Primitive.MulNonzero` | src/reed_solomon/galois.rs:195-209 | products of nonzero elements are nonzero |
| `Primitive.MulCancel` | src/reed_solomon/galois.rs:221-235 | a nonzero factor cancels |
| `GaloisTable.BuildTables` | src/reed_solomon/galois.rs:55-70 | the loop leaves log and antilog tables that are inverse on all nonzero elements, with zero marked by 65535 |
| `GaloisTable.DoubleIsXtime` | src/reed_solomon/galois.rs:55-70 | the shift and the conditional reduction in the loop multiply by x |
| `GaloisTable.Tables.Times` | src/reed_solomon/galois.rs:195-209 | the table product is the carry-less product modulo 0x1100B, zero operands included |
| `GaloisTable.Tables.CheckedDiv` | src/reed_solomon/galois.rs:101-115 | there is a quotient exactly for a nonzero divisor, and it times the divisor is the dividend |
| `GaloisTable.Tables.Power` | src/reed_solomon/galois.rs:122-131 | the power is iterated multiplication, and zero for base zero whatever the exponent |
| `GaloisTable.LogProductFits` | src/reed_solomon/galois.rs:122-131 | the product of a logarithm and a 16-bit exponent stays below 2^32 |
| `GaloisTable.Tables.Alog` | src/reed_solomon/galois.rs:147-150 | the antilogarithm of n is x^n, and zero for 65535 |
| `Bases.GcdLoop` | src/reed_solomon/galois.rs:265-278 | the subtraction-free loop computes the greatest common divisor, and zero when an argument is zero |
| `Bases.IsUsable` | src/reed_solomon/encoder.rs:48-57 | the loop guard accepts exactly the exponents with no factor 3, 5, 17 or 257 |
| `Bases.NextBaseLog` | src/reed_solomon/encoder.rs:48-57 | the inner loop stops at the next usable exponent and terminates |
| `Bases.BaseLogBound` | src/reed_solomon/codec.rs:457-462 | the logarithm of base i is below 65535 exactly for i < 32768 |
| `Bases.BasesNonzeroDistinct` | src/reed_solomon/encoder.rs:38-63 | the first 32768 base values are nonzero and pairwise different |
| `Bases.GenerateBases` | src/reed_solomon/codec.rs:805-833 | the loop yields base i for every slice, and beyond 32768 slices the antilogarithm of the logarithm cut to 16 bits |
| `Bases.BasesRepeat` | src/reed_solomon/codec.rs:805-833 | slice 32769 has the base value of slice 0 |
| `SliceKernel.BuildSplitMulTable` | src/reed_solomon/codec.rs:91-130 | entry b of the low table is coefficient times b, entry b of the high table coefficient times b shifted up, for every coefficient |
| `SliceKernel.LookupIsMul` | src/reed_solomon/codec.rs:80-91 | low[w & 0xFF] xor high[w >> 8] is coefficient times w for every word |
| `Slices.ProcessSlice` | src/reed_solomon/simd/common.rs:120-171 | the in-place kernel writes or adds the product of every little-endian word, truncates an odd last byte, and leaves the rest of the output alone |
| `Slices.WordOfWritten` | src/reed_solomon/simd/common.rs:120-157 | each word of the output becomes the product, or the sum with it |
| `Slices.EndOfWritten` | src/reed_solomon/simd/common.rs:159-170 | an odd last byte becomes the low byte of its own product, or the sum with it, and what is behind the input stays |
| `Slices.WordOfScale` | src/reed_solomon/simd/common.rs:142-153 | each word of a product slice is the coefficient times the word |
| `Slices.ScaledLast` | src/reed_solomon/simd/common.rs:159-170 | the odd last byte of a product slice is the low byte of coefficient times last byte |
| `Slices.WordsDetermine` | src/reed_solomon/simd/common.rs:120-171 | an even-length slice is determined by its words |
| `Encoder.EncodeRecoveryBlock` | src/reed_solomon/encoder.rs:80-128 | rejects a wrong count or the first block of a wrong size, and otherwise returns the sum of coefficient times block |
| `Encoder.WordOfRecoveryBlock` | src/reed_solomon/encoder.rs:69-128 | word k of a recovery block is the sum over i of base(i)^exponent times word k of input i |
| `Encoder.LastByteOfRecoveryBlock` | src/reed_solomon/encoder.rs:80-128 | the last byte of a recovery block of odd size is the low byte of the sum of coefficient times last byte |
| `LinearAlgebra.SwapKeepsKernel` | src/reed_solomon/codec.rs:1694-1697 | swapping rows keeps the kernel of the augmented matrix |
| `LinearAlgebra.ScaleKeepsKernel` | src/reed_solomon/codec.rs:1699-1706 | scaling a row by a nonzero factor keeps it |
| `LinearAlgebra.AddRowKeepsKernel` | src/reed_solomon/codec.rs:1708-1716 | adding a multiple of another row keeps it |
| `GaussJordan.FindPivot` | src/reed_solomon/codec.rs:1681-1692 | the pivot row is the first from the diagonal down that is nonzero in the column, or the diagonal row if there is none |
| `GaussJordan.EliminateColumn` | src/reed_solomon/codec.rs:1708-1716 | clears the pivot column in all other rows and keeps the kernel and the reduced columns |
| `GaussJordan.Reduce` | src/reed_solomon/codec.rs:1679-1717 | either the left part becomes the identity with the same kernel, or a kernel vector shows the column cannot be reduced; division by a zero pivot is unreachable |
| `GaussJordan.InvertGfMatrix` | src/reed_solomon/codec.rs:1660-1728 | refuses empty and non-square input; succeeds exactly for matrices that annihilate only zero; the result undoes the input; the column an error names is the first that depends on those before it |
| `GaussJordan.InverseIsTwoSided` | src/reed_solomon/codec.rs:1660-1728 | both products of the input and the result are the identity |
| `GaussJordan.SolveGfSystem` | src/reed_solomon/codec.rs:1731-1792 | succeeds exactly for nonsingular square systems, and the result is the only solution; the column an error names is the first that depends on those before it |
| `Reconstruction.BuildMatrix` | src/reed_solomon/codec.rs:1035-1042 | the coefficient matrix is base of the missing slice to the low 16 bits of the recovery exponent |
| `Reconstruction.CombineCoefficients` | src/reed_solomon/codec.rs:1103-1128 | the combined coefficients are a row of the inverse times the coefficients of the present slices |
| `Reconstruction.CombinedRowsSatisfy` | src/reed_solomon/codec.rs:1162-1284 | outputs summed with those coefficients satisfy every recovery equation at every word |
| `Reconstruction.InverseRowNonzero` | src/reed_solomon/codec.rs:1270-1281 | every output gets a term, so the guard against missing coefficients never fires |
| `Contributions.BuildSlice` | src/reed_solomon/codec.rs:1162-1284 | copy, direct write and accumulation with cached tables build what the kernel makes of the row, and nothing is written exactly when all coefficients are zero; a present slice may be short once a recovery slice has filled the output |
| `Contributions.ShortSliceExactly` | src/reed_solomon/simd/common.rs:120-171 | a slice shorter than the output counts as its zero padding exactly when it does not end within a word |
| `Contributions.WordOfKernelSum` | src/reed_solomon/codec.rs:1162-1284 | every word the kernel makes is the sum of its terms: coefficient times word, of a half word only the low byte, and nothing behind the end of a slice |
| `Contributions.LastByteOfKernelSum` | src/reed_solomon/simd/common.rs:159-170 | the last byte the kernel makes of an odd size is the low byte of the sum of coefficient times last byte, over the slices that reach it |
| `Reconstruction.ReconstructGlobal` | src/reed_solomon/codec.rs:1001-1292 | fails for too few recovery slices, succeeds exactly when the matrix is nonsingular, and returns exactly the missing indices; for every size and all present slices, half words included, the slices are the kernel sums of rows that solve the system: the rows of an inverse and the combined coefficients; with present slices of whole words they satisfy the recovery equations |
| `RecoveryEquations.ReconstructionUnique` | src/reed_solomon/codec.rs:846-993 | a nonsingular system of even-length slices has at most one solution |
| `RecoveryEquations.MissingDistinct` | src/reed_solomon/codec.rs:1035-1042 | two missing indices with the same base value, or one listed twice, make the matrix singular |
| `ErasureCode.OriginalSatisfies` | src/reed_solomon/encoder.rs:80-128 | the slices that were encoded satisfy the recovery equations of their recovery slices |
| `ErasureCode.ErasureRoundTrip` | src/reed_solomon/codec.rs:1001-1292 | whatever satisfies the equations of encoded slices is, byte for byte, what was lost |
| `Vandermonde.ProgressionNonsingular` | src/reed_solomon/codec.rs:1035-1042 | powers of distinct values with exponents in progression form a nonsingular matrix |
| `Recoverability.ProgressionRecoverable` | src/reed_solomon/codec.rs:1035-1055 | distinct missing slices and recovery exponents in progression, in any order, with a step prime to 65535 are always recoverable |
| `Recoverability.ConsecutiveRecoverable` | src/reed_solomon/codec.rs:1035-1055 | consecutive recovery exponents are always enough: the singular case is unreachable |
| `Recoverability.TwoMissingExactly` | src/reed_solomon/codec.rs:1035-1055 | two missing slices are recoverable exactly when the product of the exponent distances is not a multiple of 65535 |
| `Recoverability.EnoughCanFail` | src/reed_solomon/codec.rs:836-838 | slices 0 and 2 cannot be recovered from the exponents 0 and 21845, although two recovery slices are there |
| `Recoverability.TooManySlices` | src/reed_solomon/codec.rs:805-833 | with more than 32768 slices, slices 0 and 32769 can never be recovered together |
| `Recoverability.EncodeLoseReconstruct` | src/reed_solomon/codec.rs:1001-1292 | encoding, losing any slices and reconstructing returns the lost bytes, for up to 32768 slices of even length |
| `WordReconstruction.WordRightSide` | src/reed_solomon/codec.rs:907-957 | the right-hand side is the recovery word minus the present contributions, with missing bytes and unmapped slices counting as zero |
| `WordReconstruction.UnmappedColumnSingular` | src/reed_solomon/codec.rs:960-968 | a missing slice without a global index leaves a zero column, which makes the system singular |
| `WordReconstruction.ReconstructByWords` | src/reed_solomon/codec.rs:846-993 | the word-by-word route succeeds exactly when all missing slices are mapped and the matrix is nonsingular, its slices satisfy the equations, and the last byte of an odd size stays zero |
| `ChunkedReconstruction.ChunkedRowIsRow` | src/reed_solomon/codec.rs:1478-1640 | chunks that keep words whole make up the slice computed in one piece |
| `ChunkedReconstruction.ReconstructChunked` | src/reed_solomon/codec.rs:1306-1656 | the chunked route appends one output of the slice size per missing slice to its writer, built from the chunks as the provider serves them, padded or not; it succeeds exactly for nonsingular matrices |
| `ChunkedReconstruction.ServedResultSatisfies` | src/reed_solomon/codec.rs:1306-1656 | with chunks that keep words whole, and no slice that arrives cut within a word, the outputs satisfy the recovery equations |
| `SliceProvider.ChunkedSliceProvider.ReadChunk` | src/repair/slice_provider.rs:328-384 | which error, or a window of the zero-padded slice whose length the state of the cache determines: as cached, or padded; a cached chunk becomes the one used last; and the state after it, with reading ahead and eviction |
| `SliceProvider.ChunkedSliceProvider.PrefetchChunks` | src/repair/slice_provider.rs:216-247 | the next chunks with data are cached without padding, unless the cache is nine tenths full |
| `SliceProvider.Prefetched` | src/repair/slice_provider.rs:216-247 | where the cache is less than nine tenths full, reading ahead adds exactly the next four chunks that have data, or one chunk of a mebibyte and more, as many bytes of each as there are, and forgets nothing |
| `SliceProvider.ChunkedSliceProvider.EvictIfFull` | src/repair/slice_provider.rs:250-258 | of a full cache exactly one entry goes, which all others have been used since |
| `ServedChunks.CacheBounded` | src/repair/slice_provider.rs:250-258 | throughout a reconstruction the cache holds at most 1000 chunks, or 32 of slices of a mebibyte and more |
| `SliceProvider.ChunkedSliceProvider.ReadWithPadding` | src/repair/slice_provider.rs:288-316 | a chunk that is read when it is asked for is padded within the slice |
| `ServedChunks.ServedArrives` | src/repair/slice_provider.rs:216-384 | throughout a reconstruction every chunk arrives in full, or is the bare end of its slice, and the first always in full |
| `ServedChunks.SafeLengthsCutNothing` | src/repair/slice_provider.rs:216-384 | nothing arrives cut within a word when a chunk covers the slice, or no slice has an odd number of bytes above one chunk |
| `ReadAheadSchedule.CutsWordExactly` | src/repair/slice_provider.rs:216-384 | when all data fits in the cache, exactly which chunks arrive cut within a word: those in which data ends on an odd byte, but for every second or fifth chunk |
| `ReadAheadSchedule.FitsInCacheExactly` | src/repair/slice_provider.rs:216-258 | data fits when it makes fewer than 900 chunks, or 28 of slices of a mebibyte and more, and no slice is listed twice |
| `ServedRepair.ServedResultUnique` | src/reed_solomon/codec.rs:1306-1656 | what the chunked route returns is determined by what arrives |
| `ServedRepair.AlwaysRepairsExactly` | src/reed_solomon/codec.rs:1306-1656 | for given losses, exponents and lengths: what was lost comes back for every content exactly when each slice that arrives cut goes into every output with coefficient zero or one |
| `ServedRepair.AlwaysRepairsInCache` | src/reed_solomon/codec.rs:1306-1656 | the same from the lengths alone, when all data fits in the cache |
| `RouteAgreement.ReconstructThreeWays` | src/reed_solomon/codec.rs:846-1656 | the three routes succeed together, exactly for nonsingular matrices, and return the same bytes, for every even chunk size and for present slices of any even length |
| `RepairChunkSize.ChunkingHarmlessExactly` | src/reed_solomon/simd/common.rs:120-171 | multiplying chunk by chunk gives the whole product for all inputs exactly when no boundary cuts a word |
| `RepairChunkSize.RepairChunkSizeHarmlessExactly` | src/repair/mod.rs:55-83 | the chunk size repair computes leaves every single product right except for odd memory limits below a slice of at most four bytes |
| `SplitWords.HighByteLost` | src/reed_solomon/codec.rs:1306-1656 | an input whose lost slice does not come back when the first chunk ends within a word: one slice, one recovery slice with exponent one |
| `SplitWords.ShortSliceSpoils` | src/reed_solomon/codec.rs:1306-1656 | for every even chunk below the slice an input whose lost slice does not come back: the present slice has one byte more than a chunk |
| `SplitWords.ChunksRepairExactly` | src/reed_solomon/codec.rs:1306-1656 | whatever was encoded and lost, and whatever the files hold of the rest, comes back from the chunked route exactly when one chunk covers a slice |
| `SplitWords.EvenSlicesRepairExactly` | src/reed_solomon/codec.rs:1306-1656 | where the files hold an even number of bytes of every present slice, exactly when no chunk boundary cuts a word |
| `SplitWords.RepairRightExactly` | src/repair/mod.rs:722-737 | with the chunk size repair computes, lost slices always come back exactly when the memory limit, if any, is at least a slice; with even lengths, exactly when it is not an odd limit below a slice of four bytes |
| `RepairChunkSize.RepairChunkSizeBounded` | src/repair/mod.rs:55-83 | the chunk keeps to the limit and the slice and is the largest such up to rounding; which limits are refused |
| `ReedSolomon.ReedSolomon.SetInput` | src/reed_solomon/codec.rs:430-471 | records present and missing positions and base values, and refuses exactly more than 32768 inputs |
| `ReedSolomon.PositionsPartition` | src/reed_solomon/codec.rs:446-453 | every input is in exactly one of the two index lists |
| `ReedSolomon.RowExponentsInOrder` | src/reed_solomon/codec.rs:579-709 | the exponents of the present and of the missing recovery blocks are those of their rows, each once and in order |
| `ReedSolomon.ReedSolomon.SetOutput` | src/reed_solomon/codec.rs:480-491 | appends the recovery block and keeps the counters |
| `ReedSolomon.ReedSolomon.BuildMatrix` | src/reed_solomon/codec.rs:579-709 | builds both halves row by row from the recovery rows in order; fails exactly for too few present recovery blocks |
| `InPlaceElimination.ScalePivotRow` | src/reed_solomon/codec.rs:731-746 | scaling only right of the pivot is scaling the whole row of both halves |
| `InPlaceElimination.EliminateRow` | src/reed_solomon/codec.rs:748-781 | subtracting only right of the pivot is the full row operation on both halves |
| `InPlaceElimination.GaussEliminate` | src/reed_solomon/codec.rs:711-785 | succeeds exactly when all leading blocks are nonsingular, leaves the identity on the right, and keeps the kernel of the pair |
| `InPlaceElimination.RightTimesLeft` | src/reed_solomon/codec.rs:507-539 | the original right half times the final left half is the original left half |
| `ReedSolomon.ReedSolomon.Compute` | src/reed_solomon/codec.rs:507-539 | which error is returned when, and that the computed matrix maps every input to the one output that balances the equations |
| `ReedSolomon.ComputedMatrixRecovers` | src/reed_solomon/codec.rs:507-539 | present data and recovery words of any data give the missing words and the recovery words to be made |
| `ReedSolomon.ProgressionComputes` | src/reed_solomon/codec.rs:726-729 | with recovery exponents in progression no pivot is ever zero |
| `CrcField.MulAssoc` | src/checksum/rolling_crc.rs:71-88 | multiplication modulo the CRC polynomial is associative |
| `CrcField.MulComm` | src/checksum/rolling_crc.rs:71-88 | and commutative |
| `CrcPowers.FullTurn` | src/checksum/rolling_crc.rs:92-112 | x^(2^32) = x modulo the CRC polynomial |
| `CrcPowers.SquaresWrap` | src/checksum/rolling_crc.rs:94-99 | repeated squaring returns to the start after 32 squarings, which the wrapped table entries rest on |
| `CrcPowers.Gf32Multiply` | src/checksum/rolling_crc.rs:71-88 | 31 rounds and a last addition compute the product of residues |
| `CrcPowers.PowerTable` | src/checksum/rolling_crc.rs:93-99 | entry j of the power table is x^(8 * 2^j), the wrapped entries 29 to 31 included |
| `CrcPowers.CrcExp8` | src/checksum/rolling_crc.rs:92-112 | the result is x^(8n) for every 64-bit n, the reduction by 2^32 - 1 included |
| `RollingCrc.GenerateCrcTable` | src/checksum/rolling_crc.rs:44-62 | entry b is b divided by the polynomial for eight bits |
| `RollingCrc.TableFeeds` | src/checksum/rolling_crc.rs:173-181 | a shift and a lookup feed one byte into the CRC-32 of section 8 of RFC 1952 |
| `RollingCrc.CheckValue` | src/checksum/rolling_crc.rs:16-62 | the CRC-32 of the digits one to nine is the check value 0xCBF43926 |
| `RollingCrc.ComputeWindowMask` | src/checksum/rolling_crc.rs:239-254 | the entry cancels the outgoing byte and moves the starting value by one byte |
| `RollingCrc.NewRollingTable` | src/checksum/rolling_crc.rs:138-146 | the table holds that entry for every byte |
| `RollingCrc.SlideIsCrc` | src/checksum/rolling_crc.rs:173-181 | one slide from the CRC-32 of a window gives the CRC-32 of the next window, for every window size above zero |
| `RollingCrc.RolledIsCrc` | src/checksum/rolling_crc.rs:173-181 | any number of slides gives the CRC-32 of the window computed from scratch |
| `RollingCrc.SlideForwardIsCrc` | src/checksum/rolling_crc.rs:204-219 | moving on in a buffer gives the CRC-32 of the block there, or nothing when the block does not fit |
| `CreateBackend.BuildCoeffs` | src/create/backend.rs:61-84 | the coefficient of every pair of recovery block and source sits at its index |
| `CreateBackend.CoeffIndexOrder` | src/create/backend.rs:337-339 | different pairs have different indices, in row order |
| `CreateBackend.CreateRecoveryBackend.constructor` | src/create/backend.rs:61-109 | starts out valid, with exponents first, first + 1, ... cut to 16 bits |
| `CreateBackend.CreateRecoveryBackend.BeginChunk` | src/create/backend.rs:112-134 | clears the outputs for a new chunk |
| `CreateBackend.CreateRecoveryBackend.PrepareTransferBuffer` | src/create/backend.rs:137-142 | hands out a zeroed transfer buffer that is neither an output nor staged |
| `CreateBackend.CreateRecoveryBackend.AddInput` | src/create/backend.rs:145-158 | adds one contribution and keeps outputs plus staged inputs equal to the sum of everything added |
| `CreateBackend.CreateRecoveryBackend.AddTransferInput` | src/create/backend.rs:161-175 | the same for the contents of a transfer buffer |
| `CreateBackend.CreateRecoveryBackend.FlushBatch` | src/create/backend.rs:201-246 | moves the staged batch into every output |
| `CreateBackend.CreateRecoveryBackend.FinishChunk` | src/create/backend.rs:178-190 | appends to each recovery block the sum over all inputs of the chunk |
| `StreamingCreate.TotalOfChunk` | src/create/backend.rs:112-246 | the sum over a word-aligned chunk is that chunk of the one-shot recovery block |
| `SourceBlocks.BlockCountBounds` | src/create/source_file.rs:84-90 | the blocks cover the file and the last one is needed |
| `SourceBlocks.ReadLengthIsPiece` | src/create/context.rs:172-183 | the number of bytes read for a chunk of a block is what the file has there |
| `StreamingCreate.ReadPiece` | src/create/context.rs:172-199 | the buffer ends as the chunk of the zero-padded block |
| `StreamingCreate.FeedFile` | src/create/context.rs:169-215 | one file in one chunk: contributions, block hashers, file hasher and head buffer |
| `StreamingCreate.EncodeAndHash` | src/create/context.rs:104-293 | recovery blocks equal the one-shot encoding of the padded blocks of all files; block hashers see exactly those blocks; head buffers end as the first 16k; what each file hasher sees |
| `SourceHashing.CapturedStep` | src/create/context.rs:200-206 | each piece extends the captured part of the head |
| `SourceHashing.OrderKeptExactly` | src/create/context.rs:163-207 | the whole-file hash is taken of every file in order exactly when one chunk covers a block or one block the file |
| `SourceHashing.HashRightExactly` | src/create/context.rs:680-720 | the block sizes, block counts and memory limits for which the creator records the right whole-file hash, and no others; with no recovery blocks it never does |
| `SourceHashing.LargeBlocksHashWrong` | src/create/context.rs:68-82 | with blocks above 32 MiB no memory limit gives every file longer than a block the right hash |
| `SourceHashing.DefaultLimitHashWrong` | src/create/context.rs:732-738 | a case within the default memory limit: blocks of one mebibyte, 2000 source blocks and 1024 recovery blocks |
| `CreateAndRepair.CreateThenRepair` | src/repair/mod.rs:538-753 | create, lose slices and recovery slices, reconstruct by the chunked route through the provider, and write: which failure exactly when; otherwise, under a harmless memory limit, the original file is in place, byte for byte, and is reported as repaired when the creator recorded the hash of the file |
| `CreateAndRepair.CreateStoreRepair` | src/create/context.rs:857-908 | the same with the recovery slices written to volume files and found again by a scan of their headers |
| `CreateAndRepair.CreateRecovery` | src/create/context.rs:680-720 | one pass makes recovery blocks and hashes for every memory limit; without recovery blocks there is no pass and nothing is hashed |
| `RepairRun.ConsecutiveDetermined` | src/reed_solomon/codec.rs:1344-1362 | with consecutive recovery exponents left, and up to 32768 slices, repair never fails for a singular matrix |
| `RepairRun.RepairFile` | src/repair/mod.rs:538-753 | every outcome of repairing one file: how it fails, and for which column; otherwise, whatever the memory limit, the file that is put in place holds its own bytes where nothing was missing and what the chunked route makes of the missing slices, and under a harmless limit it is the original |
| `BlockSize.SearchUnits` | src/create/context.rs:528-557 | the binary search ends with the smallest block size in units that keeps to the target, and with its count; the loop runs at least once |
| `BlockSize.CalculateBlockSize` | src/create/context.rs:479-584 | without an explicit size the result is the smallest multiple of four bytes that keeps to the target, or which error; a target between the number of files and 32768 always succeeds |
| `BlockSize.TotalBlocksIsCount` | src/create/source_file.rs:84-90 | counting in units of four bytes and counting in bytes agree |
| `BlockSize.ChunkSizeSound` | src/create/context.rs:68-82 | the chunk size is the largest multiple of four that fits the block and the memory limit, and at least four |
| `RecoveryFiles.TilesHoldOnce` | src/create/file_naming.rs:34-175 | in a tiling every exponent of the range is in exactly one file |
| `RecoveryFiles.AllocateUniform` | src/create/file_naming.rs:63-77 | tiles the range with counts that differ by at most one, larger first |
| `RecoveryFiles.AllocateVariable` | src/create/file_naming.rs:80-100 | tiles the range with doubling counts, starting from the smallest power of two that suffices |
| `RecoveryFiles.TopFiles` | src/create/file_naming.rs:112-127 | files of the largest count are laid out downwards from the end of the range |
| `RecoveryFiles.BottomFiles` | src/create/file_naming.rs:140-166 | counts double from the smallest power of two that suffices, held to the largest count and raised to what later files cannot take; the files tile what they can hold, and nothing more is lost than exceeds it |
| `RecoveryFiles.AllocateLimited` | src/create/file_naming.rs:103-167 | the counts of all files; tiles the range exactly unless the block count lies strictly between files times largest and that plus largest; then the exponents after the limit of the one bottom file are in no file |
| `RecoveryFiles.LossOccurs` | src/create/file_naming.rs:156 | the losing case occurs for every number of files as soon as a file may hold two blocks, and never for one |
| `RecoveryFiles.AllocateRecoveryBlocks` | src/create/file_naming.rs:34-175 | for every scheme the counts and the range of each file: counts that differ by at most one, larger first; doubling counts from the smallest power of two that suffices; or doubling counts held to the largest and full files above, with the exact condition for losing blocks, and even counts when no file is left for the bottom; and the entry of the index file |
| `RecoveryFiles.DefaultRecoveryFileCount` | src/create/file_naming.rs:251-259 | counts the bits of the block count |
| `RecoveryFiles.DefaultFileCountFor` | src/create/file_naming.rs:264-286 | the default per scheme |
| `RecoveryFiles.LimitedFileCountIs` | src/create/file_naming.rs:278-284 | for the limited scheme: full files until less than two of them are left, and one file for each bit of the rest |
| `RecoveryFiles.LimitedDefaultFits` | src/create/file_naming.rs:264-286 | with the default file count the limited scheme loses nothing |
| `RecoveryFiles.VariableDefaultFits` | src/create/file_naming.rs:251-259 | the default file count never shifts by 32 or more in the other schemes |
| `VolumeFiles.HeldIsAll` | src/create/context.rs:857-908 | volumes that tile the range hold every recovery block once, in order |
| `VolumeFiles.WriteVolumes` | src/create/context.rs:857-908 | the bytes of the index file and of every volume: critical packets, then the recovery slices of its range, in a plan that follows the scheme; all blocks are held exactly when the plan has a place for each |
| `VolumeFiles.ReadVolume` | src/packets/mod.rs:254-337 | parsing a volume gives its critical packets and its recovery slices, these exactly when their length is one the parser accepts |
| `VolumeFiles.WriteThenRead` | src/create/context.rs:857-908 | the recovery blocks come back from the volumes, once each and in order, exactly when the plan places all of them and a block with its header is no longer than the longest packet |
| `RecoveryMetadata.ScanFile` | src/par2_files.rs:621-671 | which recovery slices a scan over packet headers finds, when it gives up, and when it never ends |
| `RecoveryMetadata.ZeroLengthEndless` | src/par2_files.rs:659-670 | a packet of another type with a length of zero is scanned for ever |
| `RecoveryMetadata.CutSliceIsScanned` | src/packets/recovery_slice_packet.rs:79-141 | a recovery slice at the end of a file that is cut short is not there, makes the scan give up, or is found without data, depending on where it is cut |
| `RecoveryMetadata.ShortSliceBroken` | src/packets/recovery_slice_packet.rs:117-123 | a recovery slice whose length field leaves no room for an exponent makes the scan give up |
| `RecoveryMetadata.WrittenIsScanned` | src/packets/recovery_slice_packet.rs:79-141 | a written packet is found with its set, exponent and data if it is a recovery slice, and passed over if not |
| `RecoveryMetadata.LoadMetadata` | src/par2_files.rs:549-580 | the slices of all files in the order found, without those that agree in set and exponent with an earlier one: no two that are kept agree, each is the first of its kind, and every slice found agrees with one that is kept |
| `RecoveryMetadata.RepeatsDropped` | src/par2_files.rs:571-580 | slices that are found again change nothing |
| `RecoveryMetadata.BrokenAddsNothing` | src/par2_files.rs:549-569 | a file that is given up adds nothing, wherever it is listed |
| `RecoveryMetadata.ListedAreScanned` | src/par2_files.rs:549-580 | from volumes listed repeatedly, what is kept is what is kept from each of them once |
| `RecoveryMetadata.WriteThenLoad` | src/par2_files.rs:549-671 | the recovery blocks written to volumes are found again, all of them and in order, exactly when the plan places each, whatever their length, and however often a volume is listed |
| `LittleEndian.LeRoundTrip` | src/packets/mod.rs:69-74 | numbers that fit their width survive the bytes |
| `LittleEndian.LeBytesAt` | src/packets/mod.rs:69-74 | byte i is digit i to the base 256, lowest first |
| `LittleEndian.LeBytesOfValue` | src/packets/mod.rs:69-74 | and bytes survive being read as a number |
| `PacketStream.ParseHeader` | src/packets/mod.rs:51-85 | which headers are truncated, without magic, of impossible length, or accepted |
| `PacketStream.ReadFullPacket` | src/packets/mod.rs:94-114 | the whole packet is returned exactly when its bytes are there |
| `PacketStream.ScanForNextMagic` | src/packets/mod.rs:207-230 | the rolling window finds the first magic at or after its start, if there is one |
| `PacketStream.ParseRound` | src/packets/mod.rs:259-334 | every round that goes on moves the reader strictly forward, and what remains decodes to the rest of the result |
| `PacketStream.ParsePackets` | src/packets/mod.rs:254-337 | the packets and the recovery count are those of the stream; parsing terminates on every input |
| `PacketStream.StreamIsParsed` | src/packets/mod.rs:254-337 | from well-formed packets with bytes between them in which no magic starts, exactly those packets are found, in order |
| `PacketStream.FoundInPlace` | src/packets/mod.rs:254-337 | whatever the bytes are, the packets that are found are well-formed and lie in the data one behind the other without overlap |
| `PacketStream.CutPacketEndsReading` | src/packets/mod.rs:94-114 | a packet that is cut short ends the reading |
| `PacketStream.FromNextMagic` | src/packets/mod.rs:292-312 | resynchronising after a recovery slice that fails validation finds the same packets as reading on |
| `PacketFormats.FinalizedFrame` | src/create/packet_generator.rs:197-214 | the MD5 of everything after its field is put into the field |
| `PacketFormats.RoundTripExactly` | src/packets/main_packet.rs:23-96 | a written packet reads back as itself with its MD5 filled in exactly when it is not a main packet with a separate list of other ids |
| `PacketFormats.ReadBackVerifies` | src/packets/main_packet.rs:134-178 | what is read back passes verification |
| `PacketFormats.VerifiesExactly` | src/packets/main_packet.rs:134-178 | verification accepts a packet that was read exactly when its fields account for all bytes and its MD5 field is the MD5 of the bytes behind it; it then serialises to the same bytes |
| `PacketFormats.CreatorBody` | src/packets/creator_packet.rs:8-17 | the creator text survives |
| `PacketFormats.DescriptionBody` | src/packets/file_description_packet.rs:8-31 | all fields of a file description survive, the padded name included |
| `PacketFormats.ChecksumsBody` | src/packets/input_file_slice_checksum_packet.rs:15-70 | all slice checksums survive, in order |
| `PacketFormats.RecoverySliceBody` | src/packets/recovery_slice_packet.rs:147-160 | exponent and recovery data survive |
| `PacketFormats.WriteRecoverySlice` | src/create/context.rs:34-59 | the writer that hashes first and writes field after field produces the same bytes as serialising and then filling in the MD5 |
| `PacketFormats.PaddedName` | src/create/packet_generator.rs:93-99 | the name is ended by zeros up to a multiple of four |
| `PacketFormats.GeneratedFits` | src/create/packet_generator.rs:34-151 | generated packets carry their own length |
| `PacketFormats.GeneratedRoundTrip` | src/create/packet_generator.rs:217-324 | generate, write, read: the packet comes back with its MD5 and verifies |
| `PacketFormats.MainIsRead` | src/create/packet_generator.rs:34-58 | the bytes of a main packet field by field, and what is read from them: the given set id, block size, and ids with their number |
| `PacketFormats.CreatorIsRead` | src/create/packet_generator.rs:62-79 | the same for the creator packet: set id and text |
| `PacketFormats.DescriptionIsRead` | src/create/packet_generator.rs:84-123 | the same for a file description: set id, file id, MD5, MD5 of the first 16 KiB, size, and the name with its zeros; none for an empty name |
| `PacketFormats.ChecksumsAreRead` | src/create/packet_generator.rs:128-157 | the same for the block checksums: set id, file id, and MD5 and CRC of every block in order |
| `PacketFormats.RecoverySliceIsRead` | src/create/context.rs:34-59 | the same for a recovery slice: set id, exponent and data |
| `PacketFormats.ConcatAt` | src/packets/input_file_slice_checksum_packet.rs:15-70 | record i of a list is at i times its width |
| `PacketFormats.ParsesExactly` | src/packets/main_packet.rs:23-96 | which byte sequences parse as a packet of each type, and that other types never do |
| `PacketFormats.OnePacketRead` | src/packets/mod.rs:254-337 | a recovery slice that is not loaded counts exactly when it parses and verifies; one that is loaded counts when it parses; other packets never do |
| `PacketFormats.ReadWrittenStream` | src/packets/mod.rs:254-337 | a stream of written packets, with damage between them, is read back as those packets in order; recovery slices are counted, and returned only when asked for |
| `RepairAssembly.ExtractFiles` | src/repair/context.rs:98-168 | files in main-packet order with running slice offsets, or no descriptions at all, or the first id without one |
| `RepairAssembly.GlobalIndicesPartition` | src/repair/context.rs:120-168 | the files partition the global slice indices |
| `RepairAssembly.ConversionsInvert` | src/repair/types.rs:22-39 | local and global indices convert back and forth |
| `RepairAssembly.ReadSlice` | src/repair/mod.rs:913-931 | skipping the seek when the file is already there reads the same bytes |
| `RepairAssembly.AvailableExactly` | src/repair/mod.rs:872-938 | a slice can be had exactly when it is rebuilt, or valid and within the old file at the place where verification found it, or else at its own place |
| `RepairAssembly.WriteRepairedFile` | src/repair/mod.rs:809-977 | puts a file in place exactly when every slice is rebuilt, or valid and within the old file at the place verification found it or else at its own; every byte of it is that of the rebuilt slice, or of the old file at that place; the MD5 only decides the verdict; which error otherwise, and for which slice; the byte-count mismatch never happens |
| `RepairAssembly.RepairedIsOriginal` | src/repair/mod.rs:872-938 | if every byte of the original is where it is taken from, the written file is the original |

## Left out

- File names, paths, renames, backups, purging, progress reports, the command line and logging: no deep property.
- SIMD kernels and the AVX2 branch of the backend: the scalar kernel stands for all of them.
- Rayon parallelism: outputs are disjoint per recovery index, and are computed one after the other here.
- MD5: any function from bytes to 16 bytes; hashers are the sequences of bytes fed to them. The crc32fast crate is the
  byte-wise CRC-32.
- The recovery provider of repair returns the requested range of its data; a recovery slice whose file ends early is not
  part of this model. The input provider is modelled with its cache, over the bytes each location holds; that a read
  fails because a file changed meanwhile is not.
- Hash map iteration order: a parameter that lists the keys in any order.
- Machine widths of `usize`, `u32` and `u64` counters: unbounded here, except where the program relies on them (16-bit
  exponents, the 32-bit product of logarithm and exponent, 64-bit window sizes, shift counts below 32). Shifts by 32 or
  more in the allocation of recovery files are excluded by preconditions.
- Flattened matrices: rows are sequences, so index arithmetic such as `row * cols + col` is not modelled there.
- Inversion and solving share one elimination here; the program repeats it in both functions.
- ReconstructChunked: computes output after output within a chunk, where the program goes through recovery slices first;
  the sums are the same. Input chunks that are all padding are skipped by the program and add zero here.
- A read that fails has consumed what was left of the stream; the standard library leaves this open.
- Packed main packets: only the five formats the creator writes are modelled.
- Seeks by lengths of 2^63 bytes and more, which the program casts to signed numbers.
- `src/reed_solomon/matrix.rs`, `src/reed_solomon/builder.rs` and `ReedSolomon::process`: not multiplication of words.
- PAR1: possibly odd block sizes, for which the round trip is not promised.
- The recovery set id, file ids and file name text: uninterpreted values.

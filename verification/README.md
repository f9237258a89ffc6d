# Entropy coding, pass control and row buffering of the JPEG library, and the XML form of objects

This project models the lossless part of the JPEG library in `externals/jpeg-6b` (what happens between DCT coefficients and
the bytes of a file, and the state machines that feed it) and the XML encoder and decoder of `inc/tiny.h`.

- **Bits and bytes** (`BitSeq`, `ByteStream`, `BitStream`, `BitWriter`, `BitReader`): the 24-bit put buffer and the get buffer
  against bit strings with byte stuffing, on a source that may stop at any byte.
- **Huffman tables** (`HuffTable`, `DerivedTables`, `HuffDecode`): canonical codes, the encoder's and the decoder's derived
  tables, decoding with lookahead.
- **Optimal tables** (`HuffmanOptimality`, `HuffmanForest`, `OptimalCodeSizes`, `LengthLimiting`, `SymbolLengths`,
  `OptimalTable`, `EqualCounts`, `LargeCounts`, `ScanSymbols`, `StatisticsPass`, `OptimizedScan`): `jpeg_gen_optimal_table`, from
  counts to a table, where it fails, which counts a statistics pass can yield, and what the tables are good for.
- **Coding** (`Symbols`, `Coefficients`, `BlockCoding`, `SequentialCoding`, `DcCoding`, `AcFirstCoding`, `AcRefineCoding`,
  `ScanCoding`, `ScanEncoding`, `CodedForm`, `NaturalOrder`, `RestartRecovery`): what the sequential and the four progressive
  routines send, that it comes back, restarts and end-of-band runs included, what it is in numbers, and how much is lost with a
  restart marker.
- **Encoders and decoders in place** (`SequentialEncoder`, `ProgressiveEncoder`, `EncoderLoops`, `SequentialDecoder`,
  `ProgressiveDecoder`, `DecoderLoops`, `DecoderSteps`, `RefineAgain`, `MarkerReader`): classes with the fields of the source
  that follow the specification step by step, and may be suspended.
- **Scripts and images** (`ScanScript`, `ScriptHistory`, `SimpleProgression`, `ProgressiveImage`, `FrameLayout`): which scan
  scripts are legal, and what a decoder holds after every scan of one.
- **Control** (`PassSchedule`, `FrameGeometry`, `FrameSetup`, `McuLayout`, `McuBuilding`, `RasterOrder`, `CoefEncoder`,
  `CoefStore`, `ScanCoverage`, `CoefDecoder`, `PrepController`, `MainController`, `ContextPointers`, `RowGroups`): the passes of
  the compressor, the sizes of a frame, the order of blocks in scans and MCUs, padding, and context rows.
- **XML** (`XmlNumbers`, `XmlText`, `XmlTree`, `XmlDecoder`, `XmlReader`, `XmlFormat`, `XmlRoundTrip`).

`ERREXIT` is modelled by a result `false` (or `None`, `TooLong`, `Error`), suspension by a result `false` together with what is
left to do; shifts are multiplications and divisions by powers of two, and 8-, 16- and 32-bit values are truncated where the
source truncates them. The section numbers in comments are those of ITU-T T.81, which the library follows.

## Model

| member | source | states |
|---|---|---|
| FrameLayout.FrameRoundTrip | externals/jpeg-6b/jdcoefct.c:244-303 | for any image size and sampling factors: after the first m scans of any legal progressive script, every coefficient of every real block that the decoder holds equals the original, truncated at the bit position it was last sent at |
| FrameLayout.FrameCovers | externals/jpeg-6b/jcmaster.c:308-389 | the MCUs that per_scan_setup lays out for a scan contain each real block of the scan's components, each block once, and every block has a place in the coefficient arrays |
| FrameLayout.FrameSequential | externals/jpeg-6b/jdcoefct.c:244-303 | the same for sequential scripts: after the first m scans every real block of the components sent equals the original, and all others are zero |
| ProgressiveImage.ProgressiveRoundTrip | externals/jpeg-6b/jcphuff.c:376-759 | the same for any layout of blocks into MCUs that has this property, with all tables, restart intervals and successive approximations the script allows |
| ProgressiveImage.SequentialRoundTrip | externals/jpeg-6b/jchuff.c:476-552 | the same for sequential scripts, interleaved or not: what was sent comes back exactly, the rest is zero |
| ProgressiveImage.SimpleProgressionLossless | externals/jpeg-6b/jcparam.c:537-608 | decoding all scans of the recommended script returns every block exactly |
| ScanScript.ValidateScript | externals/jpeg-6b/jcmaster.c:130-261 | accepts a script if and only if it is a legal progressive or sequential script, and tells which |
| ScriptHistory.ProgressiveIs | externals/jpeg-6b/jcmaster.c:186-256 | a script is a legal progressive one exactly if, by what the scans before each scan have sent of each coefficient: no AC before the DC, no bit twice, every refinement takes the next lower bit, the bands and component lists are in order, and some DC of every component is sent |
| ScriptHistory.SequentialIs | externals/jpeg-6b/jcmaster.c:226-261 | a script is a legal sequential one exactly if every scan sends whole blocks of up to four components in ascending order and every component is sent by exactly one scan |
| SimpleProgression.SimpleProgressionScript | externals/jpeg-6b/jcparam.c:475-608 | the loops that fill the script array write exactly the recommended script, and the space computed in advance is exactly used up |
| SimpleProgression.SimpleScriptLegal | externals/jpeg-6b/jcparam.c:531-608 | for every number of components the recommended script is a legal progressive one and ends with every coefficient sent down to bit 0 |
| SimpleProgression.YccScans | externals/jpeg-6b/jcparam.c:576-595 | the ten scans for YCbCr, with components, bands and bit positions |
| SimpleProgression.PlainScans | externals/jpeg-6b/jcparam.c:596-607 | the stages for any number of components that is not YCbCr, with one DC scan for up to four components |
| ScanCoding.ScanRoundTrip | externals/jpeg-6b/jdphuff.c:228-633 | decoding the bytes of a whole scan of any of the five kinds returns what the scan sends, for any restart interval, without made-up zero bits and with the reader right behind the marker that follows |
| ScanEncoding.PassWritesScan | externals/jpeg-6b/jcphuff.c:347-368 | encoding MCU by MCU with restart counters writes the bytes of the scan, cut into intervals as the specification cuts them, and emits its symbols |
| ScanEncoding.McuInRangeIs | externals/jpeg-6b/jchuff.c:367-421 | an MCU passes the range checks of the encoders exactly if its DC differences, each to the DC of the block of the same component before it, are from -2047 to 2047 and its AC values are from -1023 to 1023, each after the point transform of its scan |
| CodedForm.BlockForm | externals/jpeg-6b/jchuff.c:353-443 | a block of a sequential scan is the difference of its DC, its AC coefficients, and the symbol 0 if the last coefficient is zero, with the tables of its component |
| CodedForm.DcFirstForm | externals/jpeg-6b/jcphuff.c:376-446 | a first DC scan sends the shifted DC of every block as the difference to that of the block of the same component before it |
| CodedForm.BandForm | externals/jpeg-6b/jchuff.c:394-437 | the next nonzero coefficient of a band is sent with the number of zeros since the one before it |
| CodedForm.CoefForm | externals/jpeg-6b/jchuff.c:400-432 | it is sent as a symbol 0xF0 for every 16 zeros, the symbol 16 * zeros + bits, and that many bits of its magnitude category |
| Coefficients.ValueBitsAre | externals/jpeg-6b/jchuff.c:387-391 | the bits of a positive value are its binary digits, and those of its negative their complements |
| CodedForm.EobForm | externals/jpeg-6b/jcphuff.c:316-341 | an end-of-band run of 2^n to 2^(n+1) - 1 blocks is the symbol 16 * n and the n low bits of its length |
| CodedForm.ZeroBlocks | externals/jpeg-6b/jcphuff.c:538-545 | in a first AC scan any number of blocks with empty bands becomes runs of 0x7FFF blocks and one run of what is left |
| CodedForm.HeldBack | externals/jpeg-6b/jcphuff.c:706-731 | in an AC refinement scan a block without new coefficients is sent at once only if the run has come to 0x7FFF blocks or more than 937 correction bits wait; else it only adds its bits to those waiting |
| CodedForm.AcSentIs | externals/jpeg-6b/jcphuff.c:486-507 | an AC coefficient sent down to bit al is the multiple of 2^al next to it towards zero |
| CodedForm.DcSentIs | externals/jpeg-6b/jcphuff.c:401-405 | a DC coefficient sent down to bit al is the largest multiple of 2^al not above it |
| ScanEncoding.RunStaysSafe | externals/jpeg-6b/jcphuff.c:706-731 | behind every MCU the end-of-band run is below 0x7FFF and the correction-bit buffer has room for another block |
| ScanEncoding.GatherAgrees | externals/jpeg-6b/jcphuff.c:276-289 | tables with a code for everything that a statistics pass counts lack no code in the output pass over the same MCUs |
| AcFirstCoding.FirstRoundTrip | externals/jpeg-6b/jdphuff.c:356-432 | decoding what a first AC scan wrote for a restart interval returns its bands down to bit Al, end-of-band runs across blocks included |
| AcRefineCoding.RefineRoundTrip | externals/jpeg-6b/jdphuff.c:491-633 | decoding what an AC refinement scan wrote takes the bands from bit Al + 1 to bit Al, with the correction bits buffered behind runs of bands |
| DcCoding.DcFirstRoundTrip | externals/jpeg-6b/jdphuff.c:285-348 | decoding a first DC scan's MCU returns its DC coefficients shifted down to bit Al, and the same predictions |
| DcCoding.DcRefineRoundTrip | externals/jpeg-6b/jdphuff.c:446-483 | decoding a DC refinement scan's MCU adds bit Al to its DC coefficients |
| SequentialCoding.McuRoundTrip | externals/jpeg-6b/jdhuff.c:517-627 | decoding what encode_one_block wrote for an MCU returns its blocks and the DC predictions, and leaves what follows |
| BlockCoding.AcRoundTrip | externals/jpeg-6b/jchuff.c:353-443 | the run/size coding of a band, decoded, gives exactly its nonzero coefficients, and decoding goes on behind the last of them |
| DecoderSteps.SuspensionInvisible | externals/jpeg-6b/jdhuff.c:504-627 | after any number of suspended attempts, wherever the source stopped them, the attempt that succeeds leaves the blocks and the state that decoding with all bytes present would have left |
| SequentialDecoder.HuffDecoder.DecodeMcuInPlace | externals/jpeg-6b/jdhuff.c:517-627 | one attempt either completes decode_mcu as specified or leaves state and blocks from which it decodes to the same; with all data up to the marker present it does not suspend |
| ProgressiveDecoder.PhuffDecoder.DecodeMcuInPlace | externals/jpeg-6b/jdphuff.c:285-633 | the same for the four progressive routines on coefficient arrays that earlier scans have filled, for any bytes whatever, corrupt ones included |
| ProgressiveDecoder.PhuffDecoder.DecodeRetrying | externals/jpeg-6b/jdphuff.c:262-281 | calling it again whenever more data has come, however often, gives what decoding with all bytes present gives |
| RefineAgain.RefineRetry | externals/jpeg-6b/jdphuff.c:491-633 | once new coefficients are zero again, an AC refinement MCU whose old coefficients are corrected in part decodes to the same block, bits and run; a coefficient that a corrupt stream is going to overwrite past its band does not matter |
| MarkerReader.NextMarker | externals/jpeg-6b/jdmarker.c:874-917 | finds the next marker; after a suspension the same one will be found |
| MarkerReader.ResyncToRestart | externals/jpeg-6b/jdmarker.c:1192-1234 | takes the actions of the default recovery until the stream is in step again, suspended or not |
| RestartRecovery.LostMarkers | externals/jpeg-6b/jdmarker.c:1170-1234 | if one or two restart markers are missing and the next one is intact, the intervals in front of it are lost, and every MCU behind it is decoded as if nothing had happened |
| RestartRecovery.RepeatedMarker | externals/jpeg-6b/jdmarker.c:1170-1234 | if one of the two restart markers before the expected one comes again, with the expected one behind it, no MCU is lost |
| RestartRecovery.StaleMarkers | externals/jpeg-6b/jdmarker.c:1206-1228 | markers that are no legal codes or among the two restarts before are skipped with the data behind them, as if the next other marker had been found at once |
| RestartRecovery.MissedMarker | externals/jpeg-6b/jdmarker.c:1207-1214 | one of the next two restart markers is left unread, with the position unchanged and no bits before it |
| RestartRecovery.ForeignMarker | externals/jpeg-6b/jdmarker.c:1204-1206 | a valid marker that is no restart is never passed |
| RestartRecovery.OutOfData | externals/jpeg-6b/jdhuff.c:531-534 | once the data of a segment are used up, its further MCUs stay as they are, in scans of every kind |
| MarkerReader.ReadRestartMarker | externals/jpeg-6b/jdmarker.c:1113-1139 | swallows the expected restart marker or recovers, exactly as without suspension; the marker number advances only on success |
| MarkerReader.ProcessRestart | externals/jpeg-6b/jdhuff.c:468-498 | drops the buffered bits and gets past the marker, and can be repeated after a suspension |
| BitReader.FillBitBuffer | externals/jpeg-6b/jdhuff.c:292-389 | loads bytes without changing what can still be read, or reports suspension; out of data, exactly the missing bits are zeros |
| BitReader.GetBits | externals/jpeg-6b/jdhuff.h:138-148 | returns the next n bits of the unstuffed stream, or a suspension, which does not happen if the source delivers them |
| CodedForm.BehindEnd | externals/jpeg-6b/jdhuff.c:361-378 | behind the last bit of a segment zeros are read, and it is remembered that they were |
| BitWriter.EmitBits | externals/jpeg-6b/jchuff.c:302-336 | output and put buffer together hold the bits written so far followed by the low bits of the code |
| BitWriter.FlushBits | externals/jpeg-6b/jchuff.c:340-347 | the segment is complete: all bits, padded with ones, stuffed, and an empty buffer |
| ByteStream.ScanSegmentBytes | externals/jpeg-6b/jdhuff.c:292-389 | a finished segment with a marker behind it reads back as its bits followed by fewer than eight ones |
| ByteStream.StuffedFF | externals/jpeg-6b/jchuff.c:325-331 | behind every 0xFF of a segment there is a 0x00, so no segment contains a marker |
| ByteStream.ScanForm | externals/jpeg-6b/jdhuff.c:311-358 | any number of bytes 0xFF is one data byte 0xFF if a zero follows them, and otherwise leads to the marker that ends the segment; every other byte is eight bits of data |
| HuffTable.LegalIffKraft | externals/jpeg-6b/jchuff.c:220-242 | code lengths pass the test of the code generation exactly if their Kraft sum stays below one, which keeps the all-ones code free |
| HuffTable.CodeScaled | externals/jpeg-6b/jchuff.c:220-242 | every code, extended to 16 bits, starts where the codes before it end: the codes are consecutive numbers |
| HuffTable.PrefixFree | externals/jpeg-6b/jdhuff.c:191-211 | no generated codeword is a prefix of another one |
| HuffTable.DecodeCodeword | externals/jpeg-6b/jdhuff.c:398-433 | a codeword at the head of any stream decodes to its symbol and uses up exactly its own bits |
| HuffTable.NoCodeword | externals/jpeg-6b/jdhuff.c:412-433 | if the next bits begin with no codeword, zeros being supplied behind the end, the symbol is 0 and 17 bits are used |
| DerivedTables.MakeCDerived | externals/jpeg-6b/jchuff.c:179-264 | succeeds exactly for tables with valid lengths and distinct symbols in range, and then holds every symbol's codeword |
| DerivedTables.MakeDDerived | externals/jpeg-6b/jdhuff.c:149-266 | succeeds exactly for tables with valid lengths (and DC symbols of at most 15), and then holds the limits, offsets and lookahead entries that decode every codeword |
| HuffDecode.DecodeSymbol | externals/jpeg-6b/jdhuff.h:176-196 | decoding by lookahead or bit by bit yields the unique symbol whose codeword is next, or 0 for bits that are none, or a suspension |
| SequentialEncoder.HuffEncoder.EncodeMcuHuff | externals/jpeg-6b/jchuff.c:476-525 | an MCU, with the restart before it if one is due, is written completely, or nothing has changed; it fails only where it must |
| SequentialEncoder.HuffEncoder.WritePass | externals/jpeg-6b/jchuff.c:476-552 | an output pass writes exactly the bytes of the scan, and fails exactly if a coefficient is out of range (McuInRangeIs) or a symbol has no code |
| SequentialEncoder.HuffEncoder.GatherPass | externals/jpeg-6b/jchuff.c:572-673 | a statistics pass counts exactly the symbols that the output pass writes |
| ProgressiveEncoder.PhuffEncoder.EncodeMcu | externals/jpeg-6b/jcphuff.c:376-738 | each progressive routine, on blocks in natural order, follows the specification of one MCU, and fails exactly where it does (McuInRangeIs has the range in numbers) |
| ProgressiveEncoder.PhuffEncoder.EncodePass | externals/jpeg-6b/jcphuff.c:316-759 | a whole pass writes the bytes of the scan or counts its symbols; it fails exactly if a coefficient is out of range or, when writing, a symbol has no code |
| NaturalOrder.OrderPermutes | externals/jpeg-6b/jutils.c:53-64 | jpeg_natural_order is a permutation of the block, with its inverse, followed by sixteen entries that stay inside it |
| NaturalOrder.OrderIsZigzag | externals/jpeg-6b/jutils.c:53-64 | it starts at DC and goes up to the right on even diagonals, down to the left on odd ones, and turns at the edges |
| HuffmanOptimality.MergingIsOptimal | externals/jpeg-6b/jchuff.c:724-776 | merging the two smallest weights until one is left costs no more than any prefix code |
| OptimalCodeSizes.GenCodeSizes | externals/jpeg-6b/jchuff.c:726-776 | for any counts: the loop over counts and chains of symbols yields code lengths of a complete merging, with none longer than the pseudo-symbol's, if and only if the second smallest count is never above 10^9 while counts are merged (Mergeable, of the counts alone); otherwise the lengths take at least twice the code space, and symbols with counts above 10^9 have none |
| OptimalCodeSizes.TotalSuffices | externals/jpeg-6b/jchuff.c:733-755 | counts that total at most 10^9 are Mergeable |
| LargeCounts.OverlookedCount | externals/jpeg-6b/jchuff.c:733-755 | a count above 10^9 makes the counts not Mergeable, if there is another |
| LargeCounts.OneTooLarge | externals/jpeg-6b/jchuff.c:733-755 | one symbol with the count 10^9 + 1 is not Mergeable with the pseudo-symbol |
| LargeCounts.TwoAtLimit | externals/jpeg-6b/jchuff.c:733-755 | two symbols with counts of 10^9 each, none above the limit, are not Mergeable |
| LargeCounts.OneAtLimit | externals/jpeg-6b/jchuff.c:733-755 | one symbol with the count 10^9 is Mergeable, although the total is above 10^9 |
| HuffmanForest.CodeSizesOptimal | externals/jpeg-6b/jchuff.c:726-776 | these code lengths have the least total weighted length of all prefix codes for the symbols that occur |
| HuffmanForest.DepthBound | externals/jpeg-6b/jchuff.c:782-786 | no code is longer than 32 bits if the counts total less than the 35th Fibonacci number |
| LengthLimiting.LimitLengths | externals/jpeg-6b/jchuff.c:801-815 | the loop on byte counters moves all lengths above 16 as figure K.3 says, without overflow, keeping the number of codes and a full code space |
| LengthLimiting.SeventeenBits | externals/jpeg-6b/jchuff.c:801-815 | one code of each length up to 16 and two of 17 become one each up to 14 and four of 16 |
| LengthLimiting.FitsExactly | externals/jpeg-6b/jchuff.c:708-789 | of at most 257 codes with a full code space a byte counter is too small exactly for 256 codes of 8 bits or 256 codes of 9 bits |
| OptimalTable.GenOptimalTable | externals/jpeg-6b/jchuff.c:705-838 | from any Mergeable counts of at least one symbol: either a legal table with codes for exactly the symbols counted, listed by optimal length and symbol, none shorter than that of a symbol with a shorter optimal one, and of exactly the optimal lengths if all of those fit 16 bits; or the error exit, exactly if an optimal length exceeds 32; or, exactly if a byte counter overflows, no usable table |
| OptimalTable.GeneratedOptimal | externals/jpeg-6b/jchuff.c:705-838 | if no optimal length exceeds 16, the bits that the counted symbols take with the generated table, and the code reserved for the pseudo-symbol, are together no more than with any other prefix code that leaves a code unused |
| StatisticsPass.PassCounts | externals/jpeg-6b/jchuff.c:572-673 | a statistics pass without error exit counts at most 192 different symbols with a table, too few for a byte counter to overflow, at least one with each table the scan uses, and none with any other |
| StatisticsPass.FinishPassGather | externals/jpeg-6b/jchuff.c:846-880 | the loop over components generates the table of each set of counts once, although the counts are clobbered and components share tables, and ends with every table the output pass needs; it can only fail for counts totalling 9227465 or more |
| ScanSymbols.ScanUses | externals/jpeg-6b/jcphuff.c:767-806 | every table of a scan gets a symbol, end-of-band runs and restarts included |
| OptimizedScan.GeneratedTablesCode | externals/jpeg-6b/jchuff.c:846-880 | with the tables generated from a statistics pass no symbol of the output pass lacks a code |
| OptimizedScan.OptimizedRoundTrip | externals/jpeg-6b/jcphuff.c:767-806 | statistics, table generation, output and decoding together return what the scan sends |
| PassSchedule.CompMaster.Compress | externals/jpeg-6b/jcmaster.c:401-590 | every run of the pass state machine, with or without script, optimization or transcoding, does not fail; its log is the schedule, arranged as it should be (ScheduleArranged), and the data in it are the scans of the script, verbatim and in order, or one sequential scan, in any case a legal script |
| PassSchedule.ScansLegal | externals/jpeg-6b/jcmaster.c:267-303 | the scans are a legal script for the image: those of the given one, or without one a sequential scan of all coefficients of all components |
| PassSchedule.ScheduleArranged | externals/jpeg-6b/jcmaster.c:401-535 | in the log every scan header is followed by the data of its scan, statistics are gathered only with optimization and never for DC refinements, there is a frame header behind at most one pass of statistics, and the trailer is behind the data that are marked last |
| PassSchedule.EachScanOnce | externals/jpeg-6b/jcmaster.c:503-535 | every scan of the script is written once and in order |
| PassSchedule.ScheduleInOrder | externals/jpeg-6b/jcmaster.c:401-475 | the data of a scan follow its header, and with optimization its statistics are gathered right before that, unless it has no symbols |
| PassSchedule.OneFrameHeader | externals/jpeg-6b/jcmaster.c:446-470 | there is one frame header, in front of all other headers and data |
| PassSchedule.LastIsLast | externals/jpeg-6b/jcmaster.c:470-474 | is_last_pass is set for the data of the last scan and for no other |
| FrameGeometry.BlocksCovered | externals/jpeg-6b/jdinput.c:121-195 | all components of an interleaved scan agree on the numbers of MCU rows and columns, and last_row_height and last_col_width complete each component |
| FrameGeometry.FewestBlocks | externals/jpeg-6b/jdinput.c:80-89 | a component has the fewest blocks of 8 x 8 samples that hold its share of the image |
| FrameGeometry.FewestMcus | externals/jpeg-6b/jcmaster.c:98-104 | an interleaved scan has the fewest MCU columns and rows that hold the image |
| FrameGeometry.FewestRows | externals/jpeg-6b/jcmaster.c:90-96 | the number of sample rows of a component is the fewest that hold its share of the image, scaled if it is |
| FrameSetup.InitialSetup | externals/jpeg-6b/jcmaster.c:46-124 | accepts exactly images of 1 to 65500 rows and columns with 1 to 10 components and factors of 1 to 4; the largest factors, the fewest blocks per component, and the fewest MCU rows and columns result |
| FrameSetup.PerScanSetup | externals/jpeg-6b/jcmaster.c:308-389 | accepts exactly scans of one component, or of up to four with at most ten blocks per MCU, and computes MCUs per row, MCU rows, the component of each block, and what is left in the last column and row |
| FrameGeometry.RowGroupsAgree | externals/jpeg-6b/jdinput.c:80-108 | all components agree on the number of row groups and of iMCU rows |
| FrameLayout.FrameCanvas | externals/jpeg-6b/jdinput.c:39-117 | for any image size and sampling factors the components' sizes in blocks fit the frame's MCU rows and columns, which is all that FrameRoundTrip asks of a frame |
| McuLayout.FrameGrid | externals/jpeg-6b/jdinput.c:121-195 | any choice of the frame's components makes a valid grid: the MCU rows and columns of the frame and what is left in the last ones fit each component |
| RasterOrder.OneComponent | externals/jpeg-6b/jccoefct.c:143-231 | a scan of one component sends its real blocks and no others, row by row from left to right |
| RasterOrder.Interleaved | externals/jpeg-6b/jccoefct.c:143-231 | an interleaved scan sends its MCUs row by row from left to right, in each h x v blocks of every component, in the order of the components, row by row from left to right |
| CoefEncoder.OneStream | externals/jpeg-6b/jccoefct.c:143-395 | single-pass encoder, multi-pass encoder and transcoder, each suspended wherever the entropy coder suspends it, hand over the same stream of MCUs |
| CoefEncoder.CoefController.BuildMcu | externals/jpeg-6b/jctrans.c:278-351 | an MCU built in any of the three ways holds the real blocks at their places, and behind the edges dummy blocks with the DC of the block before |
| McuLayout.PaddedIs | externals/jpeg-6b/jccoefct.c:175-210 | what stands at any place: a real block; right of the image only the DC of the last block of the row; below it only the DC of the last row at the end of the MCU |
| CoefEncoder.CoefController.ProcessRow | externals/jpeg-6b/jccoefct.c:341-395 | one call hands over the MCUs of an iMCU row in order, or as many as the entropy coder takes, and goes on there at the next call |
| CoefEncoder.CoefController.CompressFirstPass | externals/jpeg-6b/jccoefct.c:245-327 | the first pass stores the padded block rows of all components of the image, and hands over the MCUs of the first scan, suspended or not |
| CoefEncoder.LaterScans | externals/jpeg-6b/jccoefct.c:341-395 | what the first pass has stored is what the passes for all scans read, whichever components they have |
| CoefStore.StoreComponent | externals/jpeg-6b/jccoefct.c:255-316 | the virtual array holds the real block rows of one more iMCU row, followed by dummy blocks at the right and lower edges |
| ScanCoverage.EachOnce | externals/jpeg-6b/jdcoefct.c:244-303 | the MCUs of a scan visit each place of the padded grid exactly once, and no other place |
| CoefDecoder.CoefReader.ConsumeData | externals/jpeg-6b/jdcoefct.c:244-303 | the decoder's controller, suspended at any MCU, gives each MCU its blocks from the arrays, and at the end of the scan has stored them all |
| CoefDecoder.ScanStores | externals/jpeg-6b/jdcoefct.c:257-283 | after a scan every block of the grid holds what the entropy decoder made of what was there before, and no other block has changed |
| CoefDecoder.ImageReturns | externals/jpeg-6b/jdcoefct.c:244-303 | what the encoder takes from its places comes back to the same places of the decoder |
| PrepController.PrepBuffer.PreProcess | externals/jpeg-6b/jcprepct.c:195-259 | for any image height and any split of the input, every row group is downsampled once and in order, with its neighbours above and below, the first and the last row being repeated |
| PrepController.GroupShows | externals/jpeg-6b/jcprepct.c:195-259 | what a row group shows by row numbers: the image rows around it, row 0 above the image and row h - 1 below it |
| MainController.MainBuffer.ProcessData | externals/jpeg-6b/jdmainct.c:385-447 | however input comes and output is drained, the row groups reach the postprocessor once, in order and with the neighbours that Seen describes; at the end there are as many as the image has, and no call is wasted |
| RowGroups.RealRowsSeen | externals/jpeg-6b/jdmainct.c:52-58 | every row group sees all real rows above and below it |
| RowGroups.EdgesRepeated | externals/jpeg-6b/jdmainct.c:52-58 | above the image row 0 is seen, and below it row h - 1, unless the row group is the one before a short last iMCU row |
| RowGroups.RepeatedUnlessShort | externals/jpeg-6b/jdmainct.c:266-299 | if padding was decoded, a row group sees the repeated last row exactly if it is not the one before a last iMCU row of fewer rows than a row group |
| RowGroups.SeventeenRows | externals/jpeg-6b/jdmainct.c:266-299 | an image of 17 rows in row groups of two, of whose last iMCU row more than one row was decoded: row group 7 sees a padding row in place of the repeated last row |
| RowGroups.SameForAll | externals/jpeg-6b/jdmainct.c:277-288 | the number of row groups in the last iMCU row, which is computed for the first component only, is right for all |
| SymbolLengths.OverflowExactly | externals/jpeg-6b/jchuff.c:778-790 | no byte counter overflows with at most 254 symbols, and with more exactly if neither 256 codes of 8 bits nor 256 codes of 9 bits are found |
| EqualCounts.OnesOverflow | externals/jpeg-6b/jchuff.c:778-790 | 255 symbols that occur once each get 256 codes of 8 bits with the pseudo-symbol, and all byte counters read 0 |
| EqualCounts.SameLength | externals/jpeg-6b/jchuff.c:726-776 | of three symbols with codes of the same length none occurs more often than the other two together |
| EqualCounts.SpreadFits | externals/jpeg-6b/jchuff.c:778-790 | 255 symbols of which two have counts that differ by more than one do not make a byte counter overflow |
| XmlTree.StringBuffer.EncodeDocument | inc/tiny.h:2343-2493 | XMLEncoder.encode appends the document of the tree: indentation, escapes and line ends as specified, null in place of objects of unknown classes |
| XmlFormat.EscapedClean | inc/tiny.h:2461-2480 | in an escaped text there are only characters of 32 to 127 or above 255, and no markup characters; a character that needs no escape stands for itself (EscapeClean) |
| XmlFormat.DocumentLines | inc/tiny.h:2343-2493 | a document consists of lines of such characters, each ended by a carriage return and a line feed |
| XmlFormat.Escapes | inc/tiny.h:2461-2480 | control characters and the codes 128 to 255 are written as four hexadecimal digits, the five markup characters by name |
| XmlFormat.Tags | inc/tiny.h:2354-2460 | which tag stands for which class |
| XmlFormat.Bodies | inc/tiny.h:2376-2399 | how the numbers of the leaves are spelled and separated |
| XmlFormat.ColorBody | inc/tiny.h:2400-2403 | a color is 0x and eight hexadecimal digits in upper case |
| XmlFormat.LeafLayout | inc/tiny.h:2353-2403 | a leaf is its tags around its escaped text, indented by its depth |
| XmlFormat.ListLayout | inc/tiny.h:2404-2428 | the tags of a collection stand on lines of their own, its elements between them two blanks deeper |
| XmlFormat.MapLayout | inc/tiny.h:2429-2453 | a key is one blank deeper, its value behind it on the same line, or on lines of its own if it is a collection |
| XmlFormat.DocumentLayout | inc/tiny.h:2343-2350 | prolog, header, the object and the trailer, with a line end behind the first two |
| XmlReader.Reader.ReadDocument | inc/tiny.h:2066-2333 | XMLDecoder.decode, with its loops over a position, agrees with the decoding function on every text, well-formed or not; blanks, signs and prefixes of numbers and NULs in entity names included |
| XmlFormat.DecimalEntity | inc/tiny.h:2311-2319 | four decimal digits name a character |
| XmlFormat.HexEntity | inc/tiny.h:2302-2310 | so do four hexadecimal digits in either case |
| XmlFormat.SpacedNumber | inc/tiny.h:2088-2127 | white space and a plus sign in front of a decimal number do not matter |
| XmlFormat.SpacedHex | inc/tiny.h:2118-2126 | nor do white space and another 0x in front of the digits of a color; a minus sign negates modulo 2^32 |
| XmlFormat.OddRationals | inc/tiny.h:2170-2181 | a zero denominator is read as 1, and an escaped closing tag as 0/1 |
| XmlRoundTrip.DocumentRound | inc/tiny.h:2066-2460 | decoding what was encoded returns the tree, with NULs stripped and null in place of unknown objects, and stops behind the last tag, exactly if no text in it reads like its own closing tag; else it fails |
| XmlRoundTrip.XmlRoundTrip | inc/tiny.h:2066-2460 | every tree of known objects without NULs whose texts do not read like their own closing tags comes back |
| XmlRoundTrip.TextComesBack | inc/tiny.h:2141-2173 | a single text comes back if and only if it has no NUL and is not its own closing tag |

## Findings

Properties that the code or its comments promise and that do not always hold, with an input and the condition.

| where | promised | input | holds exactly if |
|---|---|---|---|
| externals/jpeg-6b/jdmainct.c:266-299 (comment at lines 52-58) | at the bottom of the image the context rows repeat the last real row | `RowGroups.SeventeenRows`: 17 rows, row groups of two rows, 16 rows per iMCU row; row group 7 is handed on before the last iMCU row is known to be short, and sees decoded padding | `RowGroups.RepeatedUnlessShort`: the row group is not the one before a last iMCU row with fewer real rows than a row group; this depends on the image height and the sampling factors only |
| externals/jpeg-6b/jchuff.c:708, 778-790 | a table is generated for any counts | `EqualCounts.OnesOverflow`: symbols 0 to 254 once each; 256 codes of 8 bits are counted in a byte, no length is in use any more, and the search for the largest one leaves the array `bits` | `SymbolLengths.OverflowExactly` and `OptimalTable.GenOptimalTable`: neither 256 codes of 8 bits nor 256 codes of 9 bits are found, in terms of the lengths before limiting. In terms of the counts, two conditions that suffice: at most 254 distinct symbols, or 255 of which two have counts that differ by more than one (`EqualCounts.SpreadFits`). No statistics pass of the library violates the first one (`StatisticsPass.PassCounts`) |
| externals/jpeg-6b/jchuff.c:736-755 | the two smallest nonzero counts are merged until one is left | `LargeCounts.OneTooLarge`: one symbol with the count 10^9 + 1 and the pseudo-symbol; `LargeCounts.TwoAtLimit`: two symbols with counts of 10^9 each, no count being above the limit of the search | `OptimalCodeSizes.GenCodeSizes`: the counts are Mergeable, that is, while the two smallest are merged again and again, the second smallest is at most 10^9 as long as there are two. A total of at most 10^9 suffices (`TotalSuffices`) but is not necessary (`LargeCounts.OneAtLimit`) |
| inc/tiny.h:2141-2173 | the decoder reads what the encoder wrote | the string `</string>`: its escaped form is taken for the closing tag of an empty string; a NUL in a text is written as `&#x0000;` and dropped when it is read | `XmlRoundTrip.TextComesBack` for one text, `XmlRoundTrip.DocumentRound` for trees |

## Left out

- OptimalTable.GenOptimalTable: requires Mergeable counts, because of others the merging leaves several trees whose lengths make no code, and one real symbol, because without it the search for the largest length leaves the array; StatisticsPass.PassCounts has the symbol for each table a pass uses.
- StatisticsPass.FinishPassGather: requires Mergeable counts of the tables used, which an image of extreme size could violate; DC and AC tables are numbered in one list, and the counts are one array per table.
- ProgressiveDecoder.PhuffDecoder.DecodeMcuInPlace: requires that the blocks of an AC refinement scan hold 16-bit coefficients, which is what the source's arrays can hold.
- SequentialEncoder.HuffEncoder.EncodeMcuHuff: an abstract destination decides where it suspends; the progressive encoder cannot suspend in the source either, and the buffer of the destination itself is not modelled.
- SequentialEncoder.HuffEncoder.WritePass: the calls of start_pass, encode_mcu and finish_pass in sequence stand for the coefficient controller and the master driving them; the same holds for GatherPass and EncodePass.
- MainController.MainBuffer.ProcessData: is modelled for one component; RowGroups.SameForAll connects the components. The same holds for PreProcess. The simple variants without context rows are left out.
- CoefDecoder.CoefReader.ConsumeData: keeps the virtual arrays as a map from places to blocks; the dummy blocks' places are in the map.
- XmlTree.StringBuffer.EncodeDocument: sets and maps are given in the order in which compareObjects sorts them; Double is left out, which printf and wcstod convert; Int, Long, Point, Rect and Rational hold unbounded integers where the source holds 32- and 64-bit ones.
- XmlReader.Reader.ReadDocument: does not say what _wtoi and its kin make of numbers that do not fit, nor which characters beyond ASCII they take for blanks; characters are Dafny characters, without lone surrogates; equality of set elements and map keys is that of the values.
- MCU suspension for a source that ends without any marker is not modelled: the data of a segment is followed by a marker, or the source suspends for good.
- Blocks are in zigzag order in the specification; the classes index natural order through jpeg_natural_order.
- DC and AC tables are numbered in one list throughout.
- FrameSetup.InitialSetup: leaves out the checks of samples per row and of data precision, downsampled sizes in samples and the quantization tables; the checks of PerScanSetup that concern the restart interval in MCU rows are left out too.
- Marker segments, table and frame headers, warnings and their counters, trace output, the memory manager and file input and output are left out.
- The restart interval given in MCU rows (per_scan_setup), block smoothing, decompress_onepass, component_needed, scaled DCT sizes, arithmetic coding, DCT, quantization, upsampling and color conversion are left out.

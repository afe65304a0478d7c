# Verified models of LibAFL's coverage pass, CFG reader and image decoders

Three parts of the LibAFL repository are modelled here and proved correct.

**The image decoders of `fuzzers/libfuzzer_stb_image/stb_image.h`.** Each is proved to refine a
plain description of its format.

- *zlib/DEFLATE.* `Deflate` gives a stream its meaning as RFC 1951 does, as the limit of a
  step-indexed decoder, so that no bound enters any statement. `ZHuffman` builds and uses the
  9-bit fast table and the slow path behind it; `ZlibReader` is the reader itself, with its bit
  reservoir, growing output buffer and block loop. `DeflateFetch` says how far the reader gets
  ahead of the bits it has used, and with it `ParseZlib` is proved to succeed exactly when the
  meaning is a string that fits and the reader is not starved. `StoredStream` and `DeflateWriter`
  are writers, of stored blocks and of fixed and dynamic ones with any codes, whose streams the
  reader returns unchanged; `FixedCode` checks the fixed codes against their printed table;
  `ShortStream` is a well-formed stream that the reader refuses.
- *JPEG entropy coding.* `JpegStream` is the unstuffed, zero-extended bit stream; `JpegCode` the
  codes of Annex C of ITU-T T.81; `JpegHuffman` the tables, with the cache of small AC values;
  `JpegBlock` what a block means; `JpegFetch` how far the reader reads ahead over it; `JpegReader`
  the reservoir and the block decoder; `JpegScan` whole scans, interleaved or not, with their
  restart markers; `JpegWriter` a writer of such scans, from coefficients to stuffed bytes, whose
  blocks come back; `JpegGeometry` the planes and the block order of a scan.
- *PNG reconstruction.* `PngFilter` defines filtering and proves it invertible; `PngRow`,
  `PngImage` and `PngExpand` work in place on the output buffer as the decoder does; `PngRaw` puts
  them together for one image; `Adam7` and `PngInterlace` do the same for interlaced images, and
  `PngRoundTrip` stores images and reads them back.
- *GIF.* `GifLzw` is the decoder's dictionary code on strings and `GifFormat` that of Appendix F of
  GIF89a; `GifRaster` is the order and effect of pixels on the canvas, `GifReader` the decoder with
  its prefix table and cursor; `GifWriter` a writer of image data, with any cutting of the pixels
  into strings, whose frames are drawn as they were.

**The AFL coverage pass, `libafl_cc/src/afl-coverage-pass.cc`.** The emitted instrumentation is a
step semantics over runs of a function and over call stacks: which blocks may go without a probe
(`BlockElision`), the n-gram history and the map (`CoverageMap`), calling contexts (`CallContext`).

**The CFG reader, `libafl_cc/src/cfg.rs`.** `CfgDump` reads what the pass writes, `CfgBuild` files
the edges under their map index, `CfgDistance` searches the table, and `CfgShortest` says what the
search computes. `CfgContent` is the way from text to distances; `CfgSample` follows two dumps along
it.

`Bits`, `BitStream` and `BitWriter` hold the arithmetic of shifts, masks and bit positions on unbounded
integers; wherever the program's integer width matters, masks and remainders are written out.

## What turned out not to hold

- *Some well-formed DEFLATE streams are refused.* The reader looks for a symbol only with 16 bits
  in its reservoir, and gives up if there are fewer and all input has been fetched, although the
  code that is due may be shorter (`RefusesWellFormed`, on 4 bytes). `ParseZlib` succeeds on
  exactly the streams that decode, fit and do not starve it; 16 bits to spare are enough.
- *Distances are not always shortest.* The comment at `libafl_cc/src/cfg.rs:294` promises shortest
  distances; the heap is ordered by edge index and then gives back the largest distance first, so
  an edge is expanded once, with the distance at which it was first found. `SampleDistances` runs
  the text of a dump to a distance that is too long. `ShortestIffNothingStale` is the exact
  condition on the graph, and `LoopsDoNoHarm` a simpler one that suffices.
- *Successors of location 0 get lost.* `to_cfg` replaces them by the entry blocks, so the search
  can meet a successor that is not in the table; `ZeroStopsSearch` runs the text of a dump to that
  stop. `ClosedIffHarmless` is the exact condition on the dump, and `CalculateDistances` says when
  the search stops.
- *The function name on edges from 0 depends on iteration order* (`OrderMattersForZeroEdges`).
- *A JPEG table with 256 codes, the last of at most 9 bits, is accepted and decoded wrong*, because
  the last symbol number is the mark of an empty fast entry (`Lookup`, `FullTableIsNotFaithful`).
- *A restart marker can be missed* if 24 or more bits are left before it, where the format leaves
  fewer than 8; the scan then ends early without an error. With 24 to 32 bits left it depends on
  where the reader last filled its buffer (`ReadAheadDecides`; exactly when: `NextRun`).
- *A GIF minimum code size of 0 widens codes at the wrong moment* (`RulesDisagreeAtZero`; for 1 to
  12 the rules agree).
- *A GIF stream that defers its clear code for long is refused.* The format lets a full table of
  4096 entries be used until the encoder clears it; the decoder goes on counting and gives up at
  8192 (`DeferredClearIsRefused`; exactly when: `DecodesTheFormat`).
- *Map indices leave the map unless its size is a power of two* (`IndexSafeIffPow2`).
- *With a vector of K callers, what a returning block calls no longer sees its caller*
  (`ReturningCallerIsLost`), because the restoring store is emitted at the start of the block and
  not before its terminator. `SeesAllCallers` says when the vector is complete all the same: the
  caller must be among the last K to be missed.

## Model

| member | source | states |
|---|---|---|
| `BitReverse.BitReverse16IsRev` | fuzzers/libfuzzer_stb_image/stb_image.h:4336-4342 | the four mask-and-shift exchanges reverse the low 16 bits of any number |
| `BitReverse.ReverseBitsIsRev` | fuzzers/libfuzzer_stb_image/stb_image.h:4344-4349 | reversing 16 and shifting down reverses the low n bits, for every n up to 16 |
| `CanonicalCode.PrefixFree` | fuzzers/libfuzzer_stb_image/stb_image.h:4351-4396 | at most one canonical code (section 3.2.2 of RFC 1951) starts any bit string, for every list of lengths |
| `CanonicalCode.WindowHasSymbol` | fuzzers/libfuzzer_stb_image/stb_image.h:4453-4460 | a 16-bit window between the starts of two lengths belongs to a symbol of that length, whose rank is the window shifted down minus the first code |
| `CanonicalCode.StartIsKraft` | fuzzers/libfuzzer_stb_image/stb_image.h:4369-4373 | the preshifted end of the last length is twice the Kraft sum in units of 2^-15 |
| `CanonicalCode.Consecutive` | fuzzers/libfuzzer_stb_image/stb_image.h:4351-4396 | codes of one length are consecutive in the order of their symbols, the first of the two rules of section 3.2.2 of RFC 1951 |
| `CanonicalCode.ShorterFirst` | fuzzers/libfuzzer_stb_image/stb_image.h:4351-4396 | all continuations of a shorter code lie below every longer code, the second of them |
| `ZHuffman.CountSizes` | fuzzers/libfuzzer_stb_image/stb_image.h:4357-4361 | the histogram of code lengths, with length 0 not counted |
| `ZHuffman.BuildLengthTables` | fuzzers/libfuzzer_stb_image/stb_image.h:4362-4377 | first code, first symbol and preshifted end of every length; fails exactly when Kraft's inequality fails |
| `ZHuffman.FillFast` | fuzzers/libfuzzer_stb_image/stb_image.h:4386-4390 | an entry is written at exactly the windows whose low bits are the reversed code |
| `ZHuffman.BuildSymbolTables` | fuzzers/libfuzzer_stb_image/stb_image.h:4378-4394 | the sorted symbol list and a fast table whose entry is the symbol whose code of at most 9 bits starts the window, or 0 when there is none |
| `ZHuffman.Build` | fuzzers/libfuzzer_stb_image/stb_image.h:4351-4396 | succeeds if and only if the lengths satisfy Kraft's inequality; then all tables are those of the canonical code |
| `ZHuffman.DecodeSlow` | fuzzers/libfuzzer_stb_image/stb_image.h:4445-4461 | the symbol whose code starts the window, or -1 exactly when there is none; its two corruption checks cannot fire |
| `ZHuffman.Decode` | fuzzers/libfuzzer_stb_image/stb_image.h:4463-4479 | fast table and slow path together: the unique symbol whose code starts the window and its length, or -1 exactly when no code does |
| `Deflate.CopyIsPeriodic` | fuzzers/libfuzzer_stb_image/stb_image.h:4556-4570 | a copy keeps the output and extends it periodically: each new byte equals the one dist before it, overlapping or not |
| `Deflate.BlockUnfold` | fuzzers/libfuzzer_stb_image/stb_image.h:4522-4573 | the meaning of a compressed block (a limit over step-indexed decoding, so without a bound) satisfies its token-by-token equation |
| `Deflate.InflateUnfold` | fuzzers/libfuzzer_stb_image/stb_image.h:4708-4728 | the meaning of a stream satisfies its block-by-block equation |
| `Deflate.InflateExtends` | fuzzers/libfuzzer_stb_image/stb_image.h:4702-4729 | decoding only moves forward and only appends |
| `Deflate.AnyBlockStartsInside` | fuzzers/libfuzzer_stb_image/stb_image.h:4708-4728 | no block that is decoded starts beyond the input, so zero padding never makes up a block of its own |
| `Deflate.FixedCodesDecodable` | fuzzers/libfuzzer_stb_image/stb_image.h:4673-4688 | the fixed codes satisfy Kraft's inequality, so building them cannot fail |
| `FixedCode.FixedCodes` | fuzzers/libfuzzer_stb_image/stb_image.h:4673-4685 | the codes that the fixed lengths give are those that the table of section 3.2.6 of RFC 1951 lists, for all 288 symbols |
| `FixedCode.FixedDistanceCodes` | fuzzers/libfuzzer_stb_image/stb_image.h:4686-4688 | fixed distance codes are the five bits of their symbol |
| `DeflateFetch.FetchBlockUnfold` | fuzzers/libfuzzer_stb_image/stb_image.h:4463-4468 | how far the reader has fetched, or that it is starved, over a compressed block: a limit like the block's meaning, which satisfies its token-by-token equation |
| `DeflateFetch.FetchUnfold` | fuzzers/libfuzzer_stb_image/stb_image.h:4463-4468 | the same over a whole stream, block by block |
| `ZlibReader.LengthTable` | fuzzers/libfuzzer_stb_image/stb_image.h:4505-4511 | the length tables are those generated by the rule of section 3.2.5 of RFC 1951: each row starts where the one before ends |
| `ZlibReader.DistTable` | fuzzers/libfuzzer_stb_image/stb_image.h:4513-4520 | the same for the distance tables |
| `ZlibReader.ZBuf.ZGet8` | fuzzers/libfuzzer_stb_image/stb_image.h:4421-4423 | the next input byte, or 0 past the end |
| `ZlibReader.ZBuf.FillBits` | fuzzers/libfuzzer_stb_image/stb_image.h:4425-4434 | refills to more than 24 bits without moving the stream position, up to exactly the byte that the position determines; the treat-as-EOF branch is unreachable |
| `ZlibReader.ZBuf.ZReceive` | fuzzers/libfuzzer_stb_image/stb_image.h:4436-4443 | the next n bits, least significant first, and the position moved by n |
| `ZlibReader.ZBuf.ZHuffmanDecode` | fuzzers/libfuzzer_stb_image/stb_image.h:4463-4479 | the symbol at the stream position with the position moved by its length; -1 exactly when no code matches or the reader is starved: fewer than 16 bits in the reservoir and all input fetched |
| `ZlibReader.ZBuf.ZExpand` | fuzzers/libfuzzer_stb_image/stb_image.h:4481-4503 | makes room by doubling and keeps the output; refuses exactly when the request exceeds what doubling the buffer can reach |
| `ZlibReader.ZBuf.CopyMatch` | fuzzers/libfuzzer_stb_image/stb_image.h:4556-4570 | both copy branches append the periodic extension |
| `ZlibReader.ZBuf.ReadDistance` | fuzzers/libfuzzer_stb_image/stb_image.h:4546-4549 | the distance of a match as the format reads it, with the reason when there is none |
| `ZlibReader.ZBuf.ReadMatch` | fuzzers/libfuzzer_stb_image/stb_image.h:4542-4549 | the whole match token as the format reads it |
| `ZlibReader.ZBuf.ParseToken` | fuzzers/libfuzzer_stb_image/stb_image.h:4525-4549 | one token: literal, match or end of block, as the format reads it |
| `ZlibReader.ZBuf.ParseHuffmanBlock` | fuzzers/libfuzzer_stb_image/stb_image.h:4522-4573 | success means the block's meaning is exactly the new output and position, with the input fetched that the read-ahead function says; failure names a reason that the block's meaning or the read-ahead confirms |
| `ZlibReader.ZBuf.ReadCodeLengthSizes` | fuzzers/libfuzzer_stb_image/stb_image.h:4588-4592 | the code length code in its permuted order |
| `ZlibReader.ZBuf.ReadAllLengths` | fuzzers/libfuzzer_stb_image/stb_image.h:4595-4619 | the run-length coded lengths, all ntot of them, as section 3.2.7 of RFC 1951 reads them |
| `ZlibReader.ZBuf.ComputeHuffmanCodes` | fuzzers/libfuzzer_stb_image/stb_image.h:4575-4623 | the dynamic codes of the format, and tables built for them |
| `ZlibReader.ZBuf.AlignToByte` | fuzzers/libfuzzer_stb_image/stb_image.h:4628-4628 | discards to the next byte boundary of the stream, leaving at most 3 whole bytes in the reservoir |
| `ZlibReader.ZBuf.ReadStoredHeader` | fuzzers/libfuzzer_stb_image/stb_image.h:4629-4640 | LEN and NLEN are the four bytes at the boundary, whether buffered or not |
| `ZlibReader.StoredMeans` | fuzzers/libfuzzer_stb_image/stb_image.h:4641-4651 | what the four header bytes mean for a stored block |
| `ZlibReader.ZBuf.ParseUncompressedBlock` | fuzzers/libfuzzer_stb_image/stb_image.h:4625-4652 | a stored block (section 3.2.4 of RFC 1951) appends its bytes; failures are explained |
| `ZlibReader.ZBuf.UseFixedCodes` | fuzzers/libfuzzer_stb_image/stb_image.h:4717-4721 | tables of the fixed codes |
| `ZlibReader.ZBuf.ParseBlock` | fuzzers/libfuzzer_stb_image/stb_image.h:4709-4726 | one block of any type, header included |
| `ZlibReader.ZBuf.ParseZlibHeader` | fuzzers/libfuzzer_stb_image/stb_image.h:4654-4671 | accepts exactly the two-byte headers the reader supports |
| `ZlibReader.ZBuf.ParseZlib` | fuzzers/libfuzzer_stb_image/stb_image.h:4702-4729 | the reader succeeds if and only if the header is accepted, the stream decodes, its output fits and the read-ahead function does not say starved; then output and position are exactly those of the format's meaning, over any mix of blocks and buffer growth; every failure is explained; and a stream that decodes with 16 bits to spare and fits is never refused |
| `ShortStream.WellFormedAndStarved` | fuzzers/libfuzzer_stb_image/stb_image.h:4463-4468 | the 26 bits of a fixed block for the text aa, in 4 bytes, are a well-formed stream, and one on which the reader is starved |
| `ShortStream.RefusesWellFormed` | fuzzers/libfuzzer_stb_image/stb_image.h:4702-4729 | the reader, run on those bytes without a zlib header, refuses them |
| `StoredStream.StoredBlockMeans` | fuzzers/libfuzzer_stb_image/stb_image.h:4625-4652 | a stored block as a writer emits it means the bytes in it |
| `StoredStream.StoreRoundTrip` | fuzzers/libfuzzer_stb_image/stb_image.h:4702-4729 | any byte string, split into stored blocks, inflates to itself |
| `StoredStream.HeaderOfStored` | fuzzers/libfuzzer_stb_image/stb_image.h:4654-4671 | with header and checksum around it, it is a zlib stream that decodes to the bytes |
| `StoredStream.DecodeStored` | fuzzers/libfuzzer_stb_image/stb_image.h:4702-4729 | the reader itself returns the bytes of such a stream, whatever the initial buffer when it may grow |
| `DeflateWriter.LengthRule` | fuzzers/libfuzzer_stb_image/stb_image.h:4505-4511 | every length symbol stands for the lengths whose leading bits it names: the tables against the shift rule by which a writer finds the symbol |
| `DeflateWriter.DistanceRule` | fuzzers/libfuzzer_stb_image/stb_image.h:4513-4520 | the same for distance symbols |
| `DeflateWriter.ReadToken` | fuzzers/libfuzzer_stb_image/stb_image.h:4525-4549 | any literal, or match of 3 to 258 bytes at 1 to 32768 back, written under any codes that cover it, is the token read |
| `DeflateWriter.ReadBlock` | fuzzers/libfuzzer_stb_image/stb_image.h:4522-4573 | any tokens and the end of block, written under any decodable codes, mean what the tokens stand for |
| `DeflateWriter.FieldOrder` | fuzzers/libfuzzer_stb_image/stb_image.h:4576-4577 | the order of the code length fields is 16, 17, 18, 0 and then outwards from 8 and 7 |
| `DeflateWriter.ReadHeader` | fuzzers/libfuzzer_stb_image/stb_image.h:4575-4623 | any header of a dynamic block, with any code length code, any number of fields and any mix of plain lengths, repeats and runs of zeros, reads back as its two codes; it is refused exactly if one of them violates Kraft's inequality |
| `DeflateWriter.SomeHeader` | fuzzers/libfuzzer_stb_image/stb_image.h:4575-4623 | every two decodable codes have such a header |
| `DeflateWriter.FixedBlock` | fuzzers/libfuzzer_stb_image/stb_image.h:4673-4688 | tokens written by the printed table of fixed codes are the same bits as under the codes derived from the fixed lengths |
| `DeflateWriter.CompressRoundTrip` | fuzzers/libfuzzer_stb_image/stb_image.h:4702-4729 | any sequence of fixed and dynamic blocks inflates to what its literals and matches stand for |
| `DeflateWriter.LiteralsRoundTrip` | fuzzers/libfuzzer_stb_image/stb_image.h:4702-4729 | any byte string, as the literals of a fixed block, comes back |
| `DeflateWriter.KindThreeRefused` | fuzzers/libfuzzer_stb_image/stb_image.h:4713-4714 | a block of the reserved kind is refused |
| `DeflateWriter.OverfullRefused` | fuzzers/libfuzzer_stb_image/stb_image.h:4369-4373 | a dynamic block whose codes are too many for their lengths is refused |
| `DeflateWriter.FarMatchRefused` | fuzzers/libfuzzer_stb_image/stb_image.h:4550-4551 | a match that reaches back before the output is refused |
| `DeflateWriter.BadRunRefused` | fuzzers/libfuzzer_stb_image/stb_image.h:4602-4617 | a repeat with no length before it, and a run beyond the last length, are refused |
| `DeflateWriter.ZlibBytesAccepted` | fuzzers/libfuzzer_stb_image/stb_image.h:4654-4671 | every zlib header of RFC 1950 with method 8 and no dictionary, for all window sizes and levels, is accepted |
| `DeflateWriter.ZlibRoundTrip` | fuzzers/libfuzzer_stb_image/stb_image.h:4702-4729 | with header and checksum around them, such blocks are a zlib stream that means the same |
| `DeflateWriter.DecodeCompressed` | fuzzers/libfuzzer_stb_image/stb_image.h:4702-4729 | the reader itself returns what was compressed, from any such stream whose output fits |
| `JpegStream.HoldsByte` | fuzzers/libfuzzer_stb_image/stb_image.h:2209-2210 | or-ing a byte in below m valid bits gives m + 8 valid bits of the stream |
| `JpegStream.HoldsShift` | fuzzers/libfuzzer_stb_image/stb_image.h:2233-2234 | a 32-bit left shift consumes bits of the stream |
| `JpegStream.HoldsPad` | fuzzers/libfuzzer_stb_image/stb_image.h:2196-2212 | after the last coded byte the zeros below the valid bits are the stream's own padding |
| `JpegCode.LowIsCode` | fuzzers/libfuzzer_stb_image/stb_image.h:2137-2152 | codes numbered as in figure C.2 of ITU-T T.81, preshifted to 16 bits, are the running sum of the windows taken by shorter and earlier codes |
| `JpegCode.MatchInterval` | fuzzers/libfuzzer_stb_image/stb_image.h:2238-2256 | a window starts with code i exactly when it lies in that code's interval |
| `JpegCode.Tiling` | fuzzers/libfuzzer_stb_image/stb_image.h:2149-2151 | the intervals of consecutive codes tile the windows without gaps |
| `JpegCode.PrefixFree` | fuzzers/libfuzzer_stb_image/stb_image.h:2137-2152 | at most one code starts any window |
| `JpegHuffman.BuildSizes` | fuzzers/libfuzzer_stb_image/stb_image.h:2131-2135 | the size list that 16 counts stand for, zero-terminated |
| `JpegHuffman.SizesCounted` | fuzzers/libfuzzer_stb_image/stb_image.h:2131-2135 | the size list has as many codes of each size as its count says |
| `JpegHuffman.AssignCodes` | fuzzers/libfuzzer_stb_image/stb_image.h:2137-2153 | numbers all codes as Annex C of ITU-T T.81 does; fails exactly when Kraft's inequality fails; maxcode is the preshifted end of each length and delta the shift from code to symbol number |
| `JpegHuffman.BuildFast` | fuzzers/libfuzzer_stb_image/stb_image.h:2155-2166 | an entry below 255 names the code that starts its 9-bit window; 255 means that no code other than number 255 does |
| `JpegHuffman.Build` | fuzzers/libfuzzer_stb_image/stb_image.h:2128-2168 | succeeds if and only if Kraft's inequality holds, and then all tables are right |
| `JpegHuffman.LookupSlow` | fuzzers/libfuzzer_stb_image/stb_image.h:2244-2256 | the symbol number by comparing with the preshifted ends |
| `JpegHuffman.Lookup` | fuzzers/libfuzzer_stb_image/stb_image.h:2226-2256 | the unique code that starts the window, or -1 exactly when there is none, if and only if it is not the case that code number 255 has at most 9 bits and starts the window: there 10 bits are taken |
| `JpegHuffman.LostCode` | fuzzers/libfuzzer_stb_image/stb_image.h:2155-2166 | how code number 255 is lost: its empty-entry value sends it to length 10, where it reads as one of the last four symbols |
| `JpegHuffman.FullTableIsNotFaithful` | fuzzers/libfuzzer_stb_image/stb_image.h:2155-2166 | 256 codes of 8 bits are accepted and not decoded faithfully |
| `JpegHuffman.FastAcEntry` | fuzzers/libfuzzer_stb_image/stb_image.h:2175-2192 | an entry is nonzero exactly when the code and its magnitude bits fit in 9 bits and the value in 8, and then packs value, run and length |
| `JpegHuffman.BuildFastAc` | fuzzers/libfuzzer_stb_image/stb_image.h:2172-2194 | the combined table is sound and complete in that sense |
| `JpegHuffman.NoEntriesIsSound` | fuzzers/libfuzzer_stb_image/stb_image.h:2343-2345 | the all-zero table is sound, so every statement about sound tables covers decoding without the cache |
| `JpegBlock.ZigzagWalk` | fuzzers/libfuzzer_stb_image/stb_image.h:2309-2315 | the zigzag table is the diagonal walk of figure A.6 of ITU-T T.81 |
| `JpegBlock.ZigzagThere` | fuzzers/libfuzzer_stb_image/stb_image.h:2309-2315 | every zigzag position has its own place in the block |
| `JpegBlock.ShortIs` | fuzzers/libfuzzer_stb_image/stb_image.h:2335-2335 | the cast to 16 bits gives the number in range that differs by a multiple of 2^16, so the number itself if it is in range |
| `JpegBlock.DcStays` | fuzzers/libfuzzer_stb_image/stb_image.h:2338-2369 | AC coefficients leave the DC coefficient alone |
| `JpegBlock.FieldIsTop` | fuzzers/libfuzzer_stb_image/stb_image.h:2185-2185 | the magnitude bits cut out of a window are those of the stream |
| `JpegBlock.FastAgrees` | fuzzers/libfuzzer_stb_image/stb_image.h:2345-2352 | a combined entry gives the same position in the block, the same signed coefficient and the same bits used as decoding the code and then its magnitude |
| `JpegReader.Jpeg.NextCoded` | fuzzers/libfuzzer_stb_image/stb_image.h:2198-2208 | the next byte of the unstuffed data, or the marker that ends it |
| `JpegReader.Jpeg.GrowBuffer` | fuzzers/libfuzzer_stb_image/stb_image.h:2196-2212 | refills without moving the stream position, to more than 24 bits or to the marker, with zeros after it; how many bytes it takes and whether it meets the marker is a function of the position |
| `JpegReader.Rotate` | fuzzers/libfuzzer_stb_image/stb_image.h:2279-2282 | rotating and masking splits a 32-bit word into its first n bits and the rest |
| `JpegReader.Jpeg.HuffDecode` | fuzzers/libfuzzer_stb_image/stb_image.h:2220-2264 | the value of the code at the stream position, which moves by its size; -1 exactly when there is no code there; the too-few-bits exits are unreachable |
| `JpegReader.Jpeg.ExtendReceive` | fuzzers/libfuzzer_stb_image/stb_image.h:2273-2285 | RECEIVE and EXTEND (section F.2.2.1 of ITU-T T.81) on the next n bits; above 16 bits, zero and nothing read |
| `JpegReader.Jpeg.DecodeDc` | fuzzers/libfuzzer_stb_image/stb_image.h:2325-2335 | the DC difference and the new prediction of the component |
| `JpegReader.Jpeg.AcOne` | fuzzers/libfuzzer_stb_image/stb_image.h:2342-2367 | one AC step equals the format's step, by either path |
| `JpegReader.Jpeg.DecodeBlock` | fuzzers/libfuzzer_stb_image/stb_image.h:2318-2370 | with any sound combined table, all 64 coefficients, the prediction and the bits used are the function of the coded stream that sections F.2.2.1 and F.2.2.2 of ITU-T T.81 define, the first being the prediction times its quantizer cut to 16 bits, and the read-ahead is that of the path each coefficient takes; failure means that a code is missing |
| `JpegReader.Jpeg.Reset` | fuzzers/libfuzzer_stb_image/stb_image.h:3108-3119 | a new run of coded data starts where the input stands, with all predictions zero |
| `JpegScan.NextRun` | fuzzers/libfuzzer_stb_image/stb_image.h:3145-3151 | at the end of a restart interval the reader goes on behind the marker if and only if it is a restart marker and the read-ahead meets it |
| `JpegFetch.BlockSound` | fuzzers/libfuzzer_stb_image/stb_image.h:2318-2370 | over a block, whatever its codes, the reader never takes more bytes than the run has before it meets the marker, and meets it from at most 32 bits away |
| `JpegScan.MeetsIfNear` | fuzzers/libfuzzer_stb_image/stb_image.h:3145-3151 | a restart marker is met with fewer than 24 bits left before it and not met with more than 32 |
| `JpegScan.RestartMarkers` | fuzzers/libfuzzer_stb_image/stb_image.h:3102-3102 | the markers that go on with the scan are the eight restart markers |
| `JpegScan.ReadAheadDecides` | fuzzers/libfuzzer_stb_image/stb_image.h:3145-3151 | with 24 bits left, a run of six bytes whose restart marker is met or missed, by where the reader last filled its buffer |
| `JpegScan.ReadIsScan` | fuzzers/libfuzzer_stb_image/stb_image.h:3121-3191 | unless some run leaves 24 to 32 bits before its restart marker, what the reader makes of a scan is exactly what the coded data stands for |
| `JpegScan.ParseScan` | fuzzers/libfuzzer_stb_image/stb_image.h:3121-3154 | a whole scan of one component, across any number of restart intervals: the blocks are exactly those that the coded data stands for, each predicted from the one before, run after run for as long as the restart markers are met; failure is a missing code |
| `JpegScan.InterleavedMcu` | fuzzers/libfuzzer_stb_image/stb_image.h:3160-3180 | one interleaved MCU: the blocks of all components of the scan in order, each predicted from the last of its own component |
| `JpegScan.ParseInterleaved` | fuzzers/libfuzzer_stb_image/stb_image.h:3155-3191 | a whole interleaved scan across restart intervals, in the same sense |
| `JpegWriter.ExtendBack` | fuzzers/libfuzzer_stb_image/stb_image.h:2273-2285 | the category and bits written for any value (tables F.1 and F.2 of ITU-T T.81) extend back to it |
| `JpegWriter.ReadAc` | fuzzers/libfuzzer_stb_image/stb_image.h:2338-2369 | AC coefficients written as runs, categories and bits, with ZRL and EOB (figure F.2), are the coefficients read |
| `JpegWriter.BlockHolds` | fuzzers/libfuzzer_stb_image/stb_image.h:2335-2364 | each coefficient stands at its zigzag place, times its quantizer, whenever that fits 16 bits |
| `JpegWriter.ReadBlock` | fuzzers/libfuzzer_stb_image/stb_image.h:2318-2370 | any quantized block written under any codes that cover it is the block read, and leaves its DC coefficient as the prediction |
| `JpegWriter.ReadMcu` | fuzzers/libfuzzer_stb_image/stb_image.h:3160-3180 | the same for an MCU of any components |
| `JpegWriter.ReadStuffed` | fuzzers/libfuzzer_stb_image/stb_image.h:2196-2212 | stuffed bytes before a marker unstuff to the bytes, the marker and what follows it |
| `JpegWriter.ScanRoundTrip` | fuzzers/libfuzzer_stb_image/stb_image.h:3121-3191 | any coefficients, written in runs of any restart interval with padding, stuffing and the restart markers in turn, are the blocks of the scan |
| `JpegWriter.DecodeScan` | fuzzers/libfuzzer_stb_image/stb_image.h:3121-3154 | the reader returns the blocks of a written scan of one component |
| `JpegWriter.DecodeInterleaved` | fuzzers/libfuzzer_stb_image/stb_image.h:3155-3191 | and those of a written interleaved scan |
| `JpegGeometry.SingleScanFits` | fuzzers/libfuzzer_stb_image/stb_image.h:3132-3143 | every block of a non-interleaved scan lies inside its component's plane, for every accepted frame |
| `JpegGeometry.AxisFits` | fuzzers/libfuzzer_stb_image/stb_image.h:3519-3534 | nested ceilings: blocks of the effective size never exceed whole MCUs times the sampling factor |
| `JpegGeometry.ImageCovered` | fuzzers/libfuzzer_stb_image/stb_image.h:3509-3534 | every pixel has its sample inside the effective size of each component, no column or row of which is without one, and MCUs cover the image with none to spare |
| `JpegGeometry.MaxAttained` | fuzzers/libfuzzer_stb_image/stb_image.h:3509-3512 | the largest sampling factors are those of some component |
| `JpegGeometry.InterleavedScan` | fuzzers/libfuzzer_stb_image/stb_image.h:3158-3180 | the scan loops visit every block position of every plane exactly once |
| `JpegGeometry.PlaneOfScan` | fuzzers/libfuzzer_stb_image/stb_image.h:3167-3177 | the positions visited are those whose 8x8 block lies inside the plane of the component |
| `PngFilter.ReconFilter` | fuzzers/libfuzzer_stb_image/stb_image.h:4873-4881 | unfiltering undoes filtering (section 9.2 of ISO/IEC 15948), for every filter type, row, prior row and pixel size |
| `PngFilter.FilterRecon` | fuzzers/libfuzzer_stb_image/stb_image.h:4873-4881 | filtering undoes unfiltering |
| `PngFilter.UnfilterStored` | fuzzers/libfuzzer_stb_image/stb_image.h:4918-4923 | an image stored with any choice of filter types, with anything after it, comes back row by row |
| `PngFilter.PaethIsNearest` | fuzzers/libfuzzer_stb_image/stb_image.h:4872-4881 | the Paeth predictor is the one of left, above and above left that is nearest to left + above - above left, the first of them if several are |
| `PngFilter.SubStores` | fuzzers/libfuzzer_stb_image/stb_image.h:4997-4999 | type 1 stores the first pixel as it is and zero exactly where a byte repeats that of the pixel before |
| `PngFilter.UpStores` | fuzzers/libfuzzer_stb_image/stb_image.h:5001-5003 | type 2 stores zero exactly where a byte repeats the one above |
| `PngFilter.AverageStores` | fuzzers/libfuzzer_stb_image/stb_image.h:5005-5008 | type 3 stores zero exactly where a byte is the mean, rounded down, of left and above |
| `PngFilter.PaethStores` | fuzzers/libfuzzer_stb_image/stb_image.h:5010-5014 | type 4 stores zero exactly where a byte is the nearest of left, above and above left |
| `PngFilter.PlainIsStored` | fuzzers/libfuzzer_stb_image/stb_image.h:4918-4922 | without filtering, the data of an image is its rows with a zero before each |
| `PngRow.FirstRowFilters` | fuzzers/libfuzzer_stb_image/stb_image.h:4864-4871 | the synthetic first-row filters equal the ordinary ones over an all-zero prior row |
| `PngRow.FirstPixel` | fuzzers/libfuzzer_stb_image/stb_image.h:4939-4964 | the first pixel of a row is that of the reconstructed row |
| `PngRow.RestSame` | fuzzers/libfuzzer_stb_image/stb_image.h:4987-5027 | the rest of a row in place, and nothing outside the row changed |
| `PngRow.LaterPixel` | fuzzers/libfuzzer_stb_image/stb_image.h:5034-5068 | one later pixel when pixels are spread for alpha |
| `PngRow.RestAlpha` | fuzzers/libfuzzer_stb_image/stb_image.h:5028-5069 | the rest of a row with each pixel's first alpha byte full |
| `PngRow.LowAlpha` | fuzzers/libfuzzer_stb_image/stb_image.h:5071-5078 | the second alpha byte of every pixel, sparing samples and first alpha bytes |
| `PngRow.UnfilterRow` | fuzzers/libfuzzer_stb_image/stb_image.h:4933-5079 | a whole row in place: every reconstructed byte at its place, every alpha full, nothing else changed |
| `PngImage.UnfilterImage` | fuzzers/libfuzzer_stb_image/stb_image.h:4918-5080 | all rows, each from the one above; fails exactly when a stored filter type exceeds 4 |
| `PngExpand.UnpackByte` | fuzzers/libfuzzer_stb_image/stb_image.h:5104-5138 | the samples of one packed byte, though the byte may be overwritten by the last of them |
| `PngExpand.RoomForByte` | fuzzers/libfuzzer_stb_image/stb_image.h:5087-5102 | no packed byte is overwritten before its samples have been read, for every row width and 1, 2 or 4 bits |
| `PngExpand.ExpandRow` | fuzzers/libfuzzer_stb_image/stb_image.h:5104-5138 | the expanded row is the scaled samples of the packed row that shared its space, in order |
| `PngExpand.UnpackPacked` | fuzzers/libfuzzer_stb_image/stb_image.h:5104-5138 | reading a sample back out of the byte the samples were packed into |
| `PngExpand.SamplesOfPacked` | fuzzers/libfuzzer_stb_image/stb_image.h:5104-5138 | a row of samples packed and expanded is the row of samples, scaled |
| `PngExpand.ScaleExact` | fuzzers/libfuzzer_stb_image/stb_image.h:4883-4884 | grey levels stretch to the full range without truncation |
| `PngExpand.InsertAlpha1` | fuzzers/libfuzzer_stb_image/stb_image.h:5143-5147 | the backward pass keeps every grey sample and makes each alpha 255 |
| `PngExpand.InsertAlpha3` | fuzzers/libfuzzer_stb_image/stb_image.h:5148-5156 | the same for colour pixels |
| `PngRaw.RowIsSpread` | fuzzers/libfuzzer_stb_image/stb_image.h:4918-5080 | a finished row is the scanline with full alpha after each pixel |
| `PngRaw.ExpandOne` | fuzzers/libfuzzer_stb_image/stb_image.h:5086-5157 | expansion and alpha of one row |
| `PngRaw.CreateNarrow` | fuzzers/libfuzzer_stb_image/stb_image.h:5082-5158 | an image of fewer than 8 bits per sample: unfiltered, expanded and with alpha |
| `PngRaw.NativeOrder` | fuzzers/libfuzzer_stb_image/stb_image.h:5159-5170 | the in-place pass over 16-bit samples exchanges the two bytes of each |
| `PngRaw.FilterBytesIs` | fuzzers/libfuzzer_stb_image/stb_image.h:4899-4930 | filters look back one pixel, in bytes rounded up to one |
| `PngRaw.Mad3Exact` | fuzzers/libfuzzer_stb_image/stb_image.h:1006-1036 | the overflow checks accept exactly the sizes that fit a signed 32-bit integer |
| `PngRaw.LengthDoesNotWrap` | fuzzers/libfuzzer_stb_image/stb_image.h:4908-4909 | for sizes that are accepted, the length of the data computed in 32 bits does not wrap |
| `PngRaw.CreateRaw` | fuzzers/libfuzzer_stb_image/stb_image.h:4887-5173 | the output is exactly the rows that the data stands for, in every depth and channel layout, 16-bit samples in the byte order of a little-endian machine; each error says what is wrong with the data |
| `Adam7.PassSizeCounts` | fuzzers/libfuzzer_stb_image/stb_image.h:5195-5196 | the pass sizes count exactly the grid lines inside the image, despite the wrapping subtraction |
| `Adam7.MaxDimension` | fuzzers/libfuzzer_stb_image/stb_image.h:806-808 | sides are at most 2^24 pixels |
| `Adam7.EmptyPass` | fuzzers/libfuzzer_stb_image/stb_image.h:5197-5197 | a pass is empty exactly when the image ends before its first grid line |
| `Adam7.OnGrid` | fuzzers/libfuzzer_stb_image/stb_image.h:5189-5209 | every pixel is on the grid of its pass |
| `Adam7.OnlyGrid` | fuzzers/libfuzzer_stb_image/stb_image.h:5189-5209 | and on no other, with the same column and row |
| `Adam7.CellIsPattern` | fuzzers/libfuzzer_stb_image/stb_image.h:5189-5192 | the passes are those of the 8 by 8 pattern that section 8.2 of ISO/IEC 15948 prints |
| `PngInterlace.CopyOne` | fuzzers/libfuzzer_stb_image/stb_image.h:5204-5211 | each copied pixel had not been written before |
| `PngInterlace.PixelWritten` | fuzzers/libfuzzer_stb_image/stb_image.h:5207-5210 | writing at the byte offset of a pixel changes that pixel of the final image and no other |
| `PngInterlace.CopyPass` | fuzzers/libfuzzer_stb_image/stb_image.h:5204-5211 | the pixels of a pass, and only those, get the values its rows hold for them, copied between the two buffers at their byte offsets |
| `PngInterlace.CreateInterlaced` | fuzzers/libfuzzer_stb_image/stb_image.h:5186-5220 | every pixel of the final buffer is the one that its own pass, decoded from its own share of the data, holds for it; a failure is that of some pass |
| `PngInterlace.PassesOfImage` | fuzzers/libfuzzer_stb_image/stb_image.h:5186-5220 | if the passes hold an image's pixels on their grids, the final image is that image |
| `PngInterlace.PassComesBack` | fuzzers/libfuzzer_stb_image/stb_image.h:5197-5214 | data made of the stored passes, with any filter choices, decodes pass by pass to the same scanlines |
| `PngRoundTrip.DecodeStoredRows` | fuzzers/libfuzzer_stb_image/stb_image.h:4887-5173 | scanlines of any depth stored with any filter types, and anything after them, are decoded to exactly the output rows they stand for |
| `PngRoundTrip.RowShown` | fuzzers/libfuzzer_stb_image/stb_image.h:4887-5173 | the scanline of a row of pixels, of any depth, stands for those pixels: narrow samples scaled, full alpha where there is room for it, wide samples in native byte order |
| `PngRoundTrip.GreyShown` | fuzzers/libfuzzer_stb_image/stb_image.h:5093-5095 | narrow grey samples are shown in proportion to 255 |
| `PngRoundTrip.IndexShown` | fuzzers/libfuzzer_stb_image/stb_image.h:5093-5095 | palette indices are shown as they are |
| `PngRoundTrip.DecodeStoredInterlaced` | fuzzers/libfuzzer_stb_image/stb_image.h:5186-5220 | an image of any depth, stored in its seven passes with any filter types, comes back from the de-interlacer pixel by pixel as it is shown |
| `GifLzw.StepCode` | fuzzers/libfuzzer_stb_image/stb_image.h:7074-7110 | one code keeps the dictionary well-formed: every defined code but clear and end has a nonempty string, single bytes stay put, and the previous code is defined |
| `GifLzw.RulesAgree` | fuzzers/libfuzzer_stb_image/stb_image.h:7102-7105 | for minimum code sizes 1 to 12 the test on low bits widens codes when the next free code needs another bit, over whole payloads, with the decoder's own table limit on both sides |
| `GifLzw.RulesDisagreeAtZero` | fuzzers/libfuzzer_stb_image/stb_image.h:7102-7105 | for minimum code size 0 it does not: a one-byte payload that the two rules read differently |
| `GifFormat.StepFormat` | fuzzers/libfuzzer_stb_image/stb_image.h:7074-7110 | one code as Appendix F of GIF89a has it keeps the table well-formed and at most 4096 entries long, and never stops for having too many codes |
| `GifFormat.StepAlike` | fuzzers/libfuzzer_stb_image/stb_image.h:7088-7105 | one code: the decoder does what the format says, or refuses exactly the string code beyond its limit |
| `GifFormat.DecodesTheFormat` | fuzzers/libfuzzer_stb_image/stb_image.h:7034-7113 | for minimum code sizes 1 to 11 the decoder gives the pixels and status of the format if and only if no stretch between clear codes has more string codes than its table takes; its pixels are always the first of the format's |
| `GifFormat.DeferredClearIsRefused` | fuzzers/libfuzzer_stb_image/stb_image.h:7088-7092 | a stream with a deferred clear code that the format takes to its end and the decoder refuses |
| `GifReader.Gif.OutGifCode` | fuzzers/libfuzzer_stb_image/stb_image.h:6999-7032 | recursion through smaller prefix codes draws exactly the string of the code at the next pixels |
| `GifReader.Gif.AddEntry` | fuzzers/libfuzzer_stb_image/stb_image.h:7088-7096 | a new entry stands for the previous string plus the first byte of the current one, including the code not yet defined |
| `GifReader.Gif.HandleCode` | fuzzers/libfuzzer_stb_image/stb_image.h:7074-7110 | each code has the effect the format gives it on table, registers and picture |
| `GifReader.Gif.SkipBlocks` | fuzzers/libfuzzer_stb_image/stb_image.h:7081-7083 | what is left of the sub-blocks is skipped to the place behind their terminator |
| `GifReader.Gif.CodeLoop` | fuzzers/libfuzzer_stb_image/stb_image.h:7059-7112 | the bit reservoir feeds the codes of the concatenated sub-blocks, and after the end code the rest of them is skipped |
| `GifReader.Gif.ProcessGifRaster` | fuzzers/libfuzzer_stb_image/stb_image.h:7034-7113 | the picture is the old one with the decoded pixels of the sub-blocks painted on the frame's offsets; success exactly when decoding ends without error, and the input then stands behind the terminator of the sub-blocks |
| `GifReader.Gif.StartFrame` | fuzzers/libfuzzer_stb_image/stb_image.h:7195-7224 | accepts exactly the frames inside the screen, and then the pixels to come are those of the frame in its order |
| `GifReader.Gif.DrawFrame` | fuzzers/libfuzzer_stb_image/stb_image.h:7190-7224 | a whole frame: refused exactly when outside the screen, or the minimum code size exceeds 12, or decoding fails; the picture changes only by the decoded pixels at the frame's offsets in its order, each showing the bytes of its table entry |
| `GifWriter.StringInStep` | fuzzers/libfuzzer_stb_image/stb_image.h:7085-7107 | after each code the decoder emits the string that was sent and makes the entry that the encoder made one code earlier, the code not yet defined included |
| `GifWriter.ReadStream` | fuzzers/libfuzzer_stb_image/stb_image.h:7059-7112 | any cutting of pixels into strings of the encoder's table, any placing of clear codes, each code in the least width that holds the next entry: the format reads the pixels back |
| `GifWriter.LzwRoundTrip` | fuzzers/libfuzzer_stb_image/stb_image.h:7034-7113 | and so does the decoder, if no stretch between clear codes is longer than its table takes |
| `GifWriter.OneByOne` | fuzzers/libfuzzer_stb_image/stb_image.h:7059-7112 | pixels one by one are one such cutting, so that all pixels can be written |
| `GifWriter.ReadBlocked` | fuzzers/libfuzzer_stb_image/stb_image.h:7060-7068 | bytes in sub-blocks of at most 255 read back, with the end right behind the terminator |
| `GifWriter.DrawWritten` | fuzzers/libfuzzer_stb_image/stb_image.h:7034-7113 | the decoder draws any frame that was written, pixel by pixel, and stops right behind it |
| `GifReader.Gif.Advance` | fuzzers/libfuzzer_stb_image/stb_image.h:7020-7031 | the cursor moves to the next pixel of the order, across rows, passes and empty passes |
| `GifReader.Gif.OutPixel` | fuzzers/libfuzzer_stb_image/stb_image.h:7007-7031 | one pixel drawn, or dropped once the frame is full |
| `GifRaster.RowOrderVisitsOnce` | fuzzers/libfuzzer_stb_image/stb_image.h:7022-7031 | the rows in the order of Appendix E of GIF89a: each row exactly once, for every height |
| `GifRaster.RowOrderInOrder` | fuzzers/libfuzzer_stb_image/stb_image.h:7022-7031 | rows come in rising order, or by the passes of Appendix E of GIF89a and in rising order within each |
| `GifRaster.PassRowsAt` | fuzzers/libfuzzer_stb_image/stb_image.h:7020-7024 | in one pass, the j-th row that comes is row j |
| `GifRaster.FrameVisitsOnce` | fuzzers/libfuzzer_stb_image/stb_image.h:7202-7224 | the frame's offsets are distinct, include every pixel of the rectangle, and are width times height in number |
| `GifRaster.PaintShows` | fuzzers/libfuzzer_stb_image/stb_image.h:7009-7019 | the k-th pixel painted shows the red, green, blue and alpha of its own table entry at the k-th offset if the entry is more than half opaque, keeps what was there otherwise, and is marked as touched |
| `GifRaster.FrameShows` | fuzzers/libfuzzer_stb_image/stb_image.h:6999-7032 | pixel i of the j-th row that comes shows in column i of that row of the rectangle |
| `GifRaster.PaintElsewhere` | fuzzers/libfuzzer_stb_image/stb_image.h:7009-7019 | nothing else is changed |
| `BlockElision.ShouldInstrument` | libafl_cc/src/afl-coverage-pass.cc:541-569 | the loop over predecessors decides as specified: instrument single-block functions and targets of branching blocks |
| `BlockElision.BranchesAreSeen` | libafl_cc/src/afl-coverage-pass.cc:541-569 | every successor of a branching block is instrumented |
| `BlockElision.FallThroughIsElided` | libafl_cc/src/afl-coverage-pass.cc:541-569 | a block that control can only fall into is left out |
| `BlockElision.ElisionIsLossless` | libafl_cc/src/afl-coverage-pass.cc:541-590 | two complete runs with the same instrumented blocks in the same order are the same run, for every control flow graph |
| `CoverageMap.BuildShuffle` | libafl_cc/src/afl-coverage-pass.cc:394-407 | the mask shifts the live lanes by one and fills padding lanes from the first padding lane |
| `CoverageMap.PowerOf2CeilIs` | libafl_cc/src/afl-coverage-pass.cc:302-313 | the vector size is a power of two whose half would be too small |
| `CoverageMap.ShuffleRemembers` | libafl_cc/src/afl-coverage-pass.cc:745-752 | shuffle and insert keep the vector at the most recent values followed by zeros, whatever the undefined lane holds |
| `CoverageMap.PaddingIsNeutral` | libafl_cc/src/afl-coverage-pass.cc:628-635 | the xor over all lanes is that over the live ones |
| `CoverageMap.Probe.constructor` | libafl_cc/src/afl-coverage-pass.cc:246-250 | a zero map and history stand for the empty trace |
| `CoverageMap.Probe.Visit` | libafl_cc/src/afl-coverage-pass.cc:602-752 | over every run: the history and every counter are those of the trace; the visit bumps the counter at its index and changes no other |
| `CoverageMap.IndexAtFirst` | libafl_cc/src/afl-coverage-pass.cc:628-667 | without a history the index is context xor location |
| `CoverageMap.IndexSlides` | libafl_cc/src/afl-coverage-pass.cc:628-667 | each visit changes the index of what comes next by exactly its own shifted location and the one that drops out of the history, for every history length |
| `CoverageMap.IndexOfEdge` | libafl_cc/src/afl-coverage-pass.cc:628-667 | with a history of one location the index is that of the edge from it |
| `CoverageMap.IndexBound` | libafl_cc/src/afl-coverage-pass.cc:636-667 | indices stay below the power of two that bounds locations and contexts |
| `CoverageMap.IndexSafeIffPow2` | libafl_cc/src/afl-coverage-pass.cc:636-667 | the index is always inside the map if and only if the map size is a power of two (or there are no locations) |
| `CoverageMap.BumpCounts` | libafl_cc/src/afl-coverage-pass.cc:708-737 | the increment steps the counter for n hits to that for n + 1, in both counter modes |
| `CoverageMap.NeverZeroRemembers` | libafl_cc/src/afl-coverage-pass.cc:714-733 | with the never-zero counter a cell is nonzero exactly when it was hit; the plain one forgets every 256th hit |
| `CallContext.EveryRunConsistent` | libafl_cc/src/afl-coverage-pass.cc:454-527 | over every trace of calls and returns the variable is the xor of the active ids (or the last caller's id), and each active function loaded that of its callers |
| `CallContext.ContextRestored` | libafl_cc/src/afl-coverage-pass.cc:569-587 | a balanced trace leaves variable and stack as they were |
| `CallContext.StartConsistent` | libafl_cc/src/afl-coverage-pass.cc:335-342 | the variable starts as the context of no callers |
| `CallContext.TwoCallsDeep` | libafl_cc/src/afl-coverage-pass.cc:510-527 | two calls deep it is both ids combined, or the inner one, and the outer one again after the return |
| `CallContext.CallsNest` | libafl_cc/src/afl-coverage-pass.cc:454-587 | a call around a balanced trace, and one after the other, are balanced |
| `CallContext.KEveryRunConsistent` | libafl_cc/src/afl-coverage-pass.cc:454-527 | with a vector of K callers: over every trace the vector is the last K functions that are still calling |
| `CallContext.KStartConsistent` | libafl_cc/src/afl-coverage-pass.cc:331-345 | the vector of zeros is the context of no callers |
| `CallContext.KContextRestored` | libafl_cc/src/afl-coverage-pass.cc:763-781 | a balanced trace restores the vector |
| `CallContext.SeesAllCallers` | libafl_cc/src/afl-coverage-pass.cc:569-587 | the vector of a consistent state is the last K of all active callers if none of those K has begun its returning block, where the vector is restored at the start of the block; and only if, when the active ids are nonzero and different |
| `CallContext.ReturningCallerIsLost` | libafl_cc/src/afl-coverage-pass.cc:763-781 | a caller in its returning block is missing from the vector of what it still calls |
| `CfgDump.CfgFileReader.TakeLine` | libafl_cc/src/cfg.rs:148-190 | one line updates the three maps as specified; panics are explicit |
| `CfgDump.UsizeMax` | libafl_cc/src/cfg.rs:148-190 | locations are 64-bit numbers |
| `CfgDump.CfgFileReader.TakeContent` | libafl_cc/src/cfg.rs:262-269 | a whole dump, line by line |
| `CfgDump.DumpReadsBack` | libafl_cc/src/afl-coverage-pass.cc:796-818 | the reader accepts everything the writer emits, for names without plus signs and newlines |
| `CfgDump.DumpRoundTrip` | libafl_cc/src/afl-coverage-pass.cc:796-818 | with distinct keys it recovers exactly the entry points, block functions and successor lists |
| `CfgDump.HoldsDetermines` | libafl_cc/src/cfg.rs:148-190 | the recovered maps do not depend on the order of records |
| `CfgBuild.BuildEntries` | libafl_cc/src/cfg.rs:195-209 | the entry table, successor edges included |
| `CfgBuild.InsertEdges` | libafl_cc/src/cfg.rs:222-239 | the edges of one block are filed under their hashes |
| `CfgBuild.ToCfg` | libafl_cc/src/cfg.rs:193-242 | every slot holds an edge that hashes to it unless there is none; succeeds exactly when every block has a function and every hash is in range |
| `CfgBuild.SlotsKnowTheirIndex` | libafl_cc/src/cfg.rs:222-239 | a stored edge's own index is its slot |
| `CfgBuild.HashIsMapIndex` | libafl_cc/src/cfg.rs:222-223 | the slot an edge is filed under is the map index that the instrumentation bumps when control takes it |
| `CfgBuild.HashIsFirstIndex` | libafl_cc/src/cfg.rs:222-223 | so is the slot of an edge from 0, when control enters the program there |
| `CfgBuild.ClosedIffHarmless` | libafl_cc/src/cfg.rs:211-240 | without collisions, all successor indices refer to present edges if and only if what location 0 led to is still filed whenever the graph leads to 0 |
| `CfgBuild.HarmlessIsClosed` | libafl_cc/src/cfg.rs:211-240 | the condition suffices with collisions too |
| `CfgBuild.NoZeroBlockIsClosed` | libafl_cc/src/cfg.rs:211-240 | in particular when no successors are recorded for location 0 |
| `CfgBuild.LocationsInRange` | libafl_cc/src/cfg.rs:222-238 | locations inside a power-of-two map have their edges inside it |
| `CfgBuild.SameTable` | libafl_cc/src/cfg.rs:217-240 | without collisions the table does not depend on the order of blocks |
| `CfgBuild.OrderMattersForZeroEdges` | libafl_cc/src/cfg.rs:217-221 | and on the order of functions exactly through the function name that edges from 0 get |
| `CfgBuild.ClosedForSearch` | libafl_cc/src/cfg.rs:314-319 | a closed table gives the search no unknown successor |
| `CfgDistance.RelaxAll` | libafl_cc/src/cfg.rs:315-329 | relaxing all successors of one edge |
| `CfgDistance.U32Max` | libafl_cc/src/cfg.rs:299-333 | distances are 32-bit numbers |
| `CfgDistance.ExpandKeepsInv` | libafl_cc/src/cfg.rs:310-331 | expanding an edge keeps the invariant: every distance and heap entry is a walk's weight, and visited edges have their successors among the keys |
| `CfgDistance.CalculateDistances` | libafl_cc/src/cfg.rs:299-333 | terminates; keys are exactly the edges reachable from start and values are weights of walks; an unknown successor is met only if an edge that can be reached has one, and then nothing but an overflow can come first, so never on a closed table |
| `CfgShortest.PopsFirst` | libafl_cc/src/cfg.rs:310-313 | what is popped for an edge not yet expanded is the distance at which it was first found, and the edge is the highest open one |
| `CfgShortest.FirstFoundExplains` | libafl_cc/src/cfg.rs:310-331 | every returned value is the least, over the reachable edges that lead to the edge, of their first-found distance plus its weight; first-found distances depend on no comparison of distances |
| `CfgShortest.DistancesAreSimple` | libafl_cc/src/cfg.rs:299-333 | every returned value is the weight of a walk that repeats no edge |
| `CfgShortest.SimpleWalksAreShort` | libafl_cc/src/cfg.rs:299-333 | such a walk has no more steps than the table has edges |
| `CfgShortest.LoopsDoNoHarm` | libafl_cc/src/cfg.rs:299-333 | where all walks to an edge that repeat no edge weigh the same, whatever loops there are, the returned value is the shortest distance |
| `CfgShortest.ShortestIffNothingStale` | libafl_cc/src/cfg.rs:299-333 | all returned values are the shortest distances if and only if, in the graph, whenever q leads to e and e to s, some edge that leads to s was first found no later than the arrival at e from q |
| `CfgShortest.ShortestIffSettled` | libafl_cc/src/cfg.rs:299-333 | equivalently, no step of the graph would still lower a returned value |
| `CfgShortest.PathIndependentIsShortest` | libafl_cc/src/cfg.rs:299-333 | where the weights of walks from start do not depend on the way, every walk weight is the shortest |
| `CfgSample.NotAlwaysShortest` | libafl_cc/src/cfg.rs:294-333 | on the table of the sample the search returns 5 for an edge that a walk of weight 4 reaches |
| `CfgSample.SampleDistances` | libafl_cc/src/cfg.rs:262-333 | that table is what the text of a seven-record dump builds, in a map of any power-of-two size from 8 up |
| `CfgSample.ZeroBlockBreaks` | libafl_cc/src/cfg.rs:211-240 | a dump of three records with successors of location 0: the table built from what is read has a successor that is not in it |
| `CfgSample.ZeroStopsSearch` | libafl_cc/src/cfg.rs:211-333 | the text of that dump is read and built without a panic, and the search from its entry edge stops at an unknown successor |
| `CfgSample.ZeroText` | libafl_cc/src/cfg.rs:148-190 | the text of that dump, character by character |
| `CfgContent.FromContent` | libafl_cc/src/cfg.rs:259-269 | reading and building in one: the table of the text, or a panic exactly when a line does not parse, a block has no function or an edge is out of range |
| `CfgContent.SlotTells` | libafl_cc/src/cfg.rs:217-236 | a slot of a module's table tells an edge of the module, the function of the block it leaves, and the successors of the block it enters, as blocks and as edges |
| `CfgContent.DistancesOfDump` | libafl_cc/src/cfg.rs:262-333 | for the text that the pass writes for a module without successors at location 0: no panic, the table is the graph of the module and closed, and the search finds exactly what can be reached, with the values described above |

## Left out

- ZlibReader.ZBuf.ReadMatch, ZlibReader.ZBuf.ReadDistance: stop at length symbols 286 and 287 and distance symbols 30 and 31, which RFC 1951 reserves. The program goes on with the 0 that its tables hold for them: a distance of 0 copies bytes that were never written, and matches of length 0 add nothing, so that its loop need not end. ParseToken, ParseHuffmanBlock, ParseBlock and ParseZlib inherit that stop.
- ZlibReader.ZBuf.ZExpand: needs a buffer that is not empty, since doubling a size of 0 never ends; a failing reallocation is not modelled.
- ZHuffman.Build: the table struct is a value that is returned, not memory that is updated; the tables of an earlier code beyond the symbols of the new one are kept as the program keeps them.
- JpegHuffman.Build: at most 256 codes; the program does not check the total, and more would be written past its arrays.
- JpegReader.Jpeg.ExtendReceive: not for 16 bits, where the program reads past its bias table, nor for more than 24, where it shifts by a negative amount.
- JpegReader.Jpeg.GrowBuffer: with fewer than -7 bits, which can be reached behind a marker, the program shifts a byte by 32 or more, which C leaves undefined; the byte is a zero there, and the model shifts a zero.
- JpegReader.Jpeg.DecodeBlock: the prediction and the products are unbounded integers before they are cut to 16 bits.
- JpegGeometry.InterleavedScan: the order of blocks only; what they decode to is `JpegScan.ParseInterleaved`. A component listed twice in a scan counts as two.
- JpegScan.ParseScan, JpegScan.ParseInterleaved: the inverse transform of each block is left out.
- GifFormat.DecodesTheFormat: minimum code sizes 1 to 11; GIF89a asks for 2 to 8, at 0 the decoder widens codes differently, and at 12 its codes have 13 bits.
- CallContext.SeesAllCallers: the only-if half needs active ids that are nonzero and different; the pass draws them at random.
- PngRoundTrip.DecodeStoredInterlaced: of narrow samples, formats of at most 8 bits per pixel, which are those whose widths the program accepts.
- PngRaw.CreateRaw: for a little-endian machine.
- PngInterlace.CreateInterlaced: the final buffer is always allocated; the program does not check that it is.
- CfgDistance.CalculateDistances: a sum beyond 32 bits is a stop, as in a build with overflow checks; without them it wraps.
- CfgDump.CfgFileReader.TakeLine: lines are sequences of characters, so the panic on a line that starts inside a multi-byte character is not modelled.
- BlockElision.ElisionIsLossless, CallContext.EveryRunConsistent: an instrumentation ratio of 100; lower ratios leave blocks out at random.
- Random choice of locations and context ids: they are arbitrary constants here.
- Atomic counters, the creation of LLVM instructions and globals, and vector sizes other than powers of two.
- Progressive JPEG, dequantization tables, the inverse transform, upsampling and colour conversion.
- PNG chunk parsing, palettes and transparency; zlib's and PNG's checksums, which the program does not check.
- GIF disposal, palettes, extensions and headers.
- The other image loaders, SIMD kernels, floating-point paths, input through files and callbacks, and failing allocations.
- The second copy of the decoders in `fuzzers/libfuzzer_stb_image_sugar`, and the rest of LibAFL.

# Verified model of GudPkg: the LZ4 block codec and the display driver

GudPkg is a UEFI graphics driver for Generic USB Displays. It keeps a frame buffer in host memory,
notes which rectangle of it was painted, and sends that rectangle to the display in compressed bands.
The compression is a copy of LZ4 1.9. This project models both in Dafny, in the form the C code has
(methods over arrays and fields, with loops), and proves what they are for.

## How it is built

| file | models |
|---|---|
| `Bytes.dfy` | bytes, options, minimum and maximum |
| `BlockFormat.dfy` | the LZ4 block format: a block as a list of sequences, its bytes, and the reference decoder |
| `MatchCount.dfy` | `LZ4_count`, `LZ4_NbCommonBytes`, little-endian loads as 64-bit words |
| `WildCopy.dfy` | the over-copying copies and the match copies for short distances |
| `DecoderSpec.dfy`, `FastDecoder.dfy` | `LZ4_decompress_generic`: fast loop, shortcut and safe loop |
| `PlainDecoder.dfy` | `LZ4_decompress_unsafe_generic` |
| `GreedyPlan.dfy` | what the compressor decides, as functions of the input and the hash table |
| `PlanProperties.dfy`, `PlanTheorems.dfy`, `PlanLimits.dfy` | what those decisions guarantee |
| `Filling.dfy` | what fills a given output, told from the block written without a limit |
| `Detection.dfy` | what the search must find, what is written for it, and what the table keeps |
| `BlockWriter.dfy`, `Compressor.dfy` | `LZ4_compress_generic_validated`, writing its table and output in place |
| `Codec.dfy` | the one-shot interface of `lz4.h`, and the round trips |
| `Incompressible.dfy`, `SpareBytes.dfy` | inputs without matches, and the inputs that show how far filled output falls short |
| `Periods.dfy` | inputs that repeat, such as bands of one colour, and their blocks |
| `Stream.dfy` | linked blocks in prefix mode, with renormalisation of the hash table |
| `Geometry.dfy`, `Display.dfy` | damage tracking, banding and flushing, and the device at the other end of the cable |

Buffers that are only read are sequences, buffers that are written are arrays, and pointers are
indexes. Labels reached by `goto` are methods that finish the current sequence, or values of a
datatype that say where control goes (`Compressor.State`, `FastDecoder.Exit`).
The build that is modelled is X64: little-endian, 64-bit registers, fast decoder loop on. The hash
functions are written out; only the examples compute them, other proofs are for any slots.

Everything meets in one place: `BlockFormat.Parse` reads a byte string as a block, `BlockFormat.Run`
says what a block means, and `BlockFormat.ParseIffEncode` says that writing and reading are inverse.
The compressor is proved to write the bytes of `GreedyPlan.Compressed`, the plan is proved to mean
the input, and both decoders are proved to produce what the reference decoder produces.
`Codec.Means(bytes, history, data)` is the contract between the two sides.

## What the proofs found in the code and its documentation

* `lz4.h` says that `LZ4_compress_destSize` takes the entire input "if it's large enough". What is enough is not
  always the size of the block that `LZ4_compress_default` writes, since behind the literals of each sequence room
  is asked for that the end of a block need not use. `Codec.FilledIs` gives the exact condition: the size of that
  block and `Filling.Spare` of it. This is 0 without a match, and otherwise what the coding of the last match length,
  the last literals and their length lack of 8 bytes; at most 3. Thirteen equal bytes need all three: their
  block has ten, and filling twelve takes eleven of them (`SpareBytes.ThreeBytesNeeded`).
* It also says that the output is filled completely otherwise. One byte of it may be left: exactly when the first
  sequence of that block whose check fails is not shortened, and the room from its token on is 16 modulo 256
  (`Filling.StopsAt16`, `Codec.FilledIs`). For an input in which no four bytes in a row occur twice that is a
  condition on the capacity alone (`Incompressible.FilledUnless16`); `Incompressible.FallsShort` gives such inputs
  for all of these capacities up to 195000.
* A band of pixels in which no four bytes in a row occur twice, and as large as the transfer buffer, is never shown
  on a device that wants compressed data: its block does not fit the buffer, so every flush of it fails, though every
  transfer works (`Display.FullBandTooLarge`).
* The comment on `LZ4_memcpy_using_offset` asks for 8 bytes of room behind the destination. They are enough
  exactly when the distance is 1, 2 or 4 or the match has at least 8 bytes (`WildCopy.EightBytesSuffice`); a
  match of 4 to 7 bytes at any other distance is written with 16 bytes, up to 12 more than its length
  (`WildCopy.FourBytesAtThree`). The fast loop has 64 bytes of room there, so nothing is at risk.
* A match distance of 0 is not rejected by the safe decoder. Full decoding writes zeros for it
  (`DecoderSpec.OffsetZeroIsDecoded`), and so does the reference decoder, so that their results can be compared
  for all inputs. Partial decoding, close to the end of the output, and plain decoding leave the bytes there as
  they are; what is said of these is said for distances of at least 1.
* With no room for output, `LZ4_decompress_safe` accepts only the byte 0, although the low nibble of the last
  token is not looked at elsewhere: fifteen more one-byte blocks stand for no data, and are refused there and
  nowhere else (`Codec.EmptyBlockRefused`). What the compressor writes for no data is the byte 0.
* A mode the device rejects stays selected in the driver. Unless it has the dimensions of the mode before, what
  the driver holds no longer belongs together until a mode is accepted (`Display.Driver.SetMode`). Nor does it
  where the blit configuration fails: the frame buffer is freed then.

## Model

| member | source | states |
|---|---|---|
| BlockFormat.ParseIffEncode | UsbGudFbDxe/lz4/lz4.c:1825-1856 | the format is uniquely decodable: a byte string reads as a block exactly when it is the encoding of that block, and all of it is used |
| BlockFormat.ParseHeadFull | UsbGudFbDxe/lz4/lz4.c:1826-1856 | a token reads as literals, distance and match length exactly when the bytes of that sequence stand there |
| BlockFormat.ParseHeadFinal | UsbGudFbDxe/lz4/lz4.c:1827-1841 | a token reads as the last literals exactly when their bytes stand there and end the input |
| BlockFormat.LengthRoundTrip | UsbGudFbDxe/lz4/lz4.c:1789-1795 | a length is read back, and the reader stops, exactly where its nibble and 255-run were written |
| BlockFormat.RunBytesSize | UsbGudFbDxe/lz4/lz4.c:1097-1103 | a length of n behind the nibble takes n/255 bytes 255 and one byte n mod 255 |
| BlockFormat.CopyMatchRepeats | UsbGudFbDxe/lz4/lz4.c:1888-1893 | a byte-by-byte match copy keeps what stood before and repeats it at the match distance |
| BlockFormat.RepeatsIsCopyMatch | UsbGudFbDxe/lz4/lz4.c:1888-1893 | and is the only byte string that does |
| BlockFormat.RunExtends | UsbGudFbDxe/lz4/lz4.c:1825-1902 | expanding a block adds as many bytes as its sequences say, and never changes what was there |
| BlockFormat.TailTakesSix | UsbGudFbDxe/lz4/lz4.c:2053 | a tail that obeys the parsing restrictions and stands for at least five bytes takes at least six: the margin of five in the length reader never rejects such a block |
| MatchCount.Count | UsbGudFbDxe/lz4/lz4.c:660-685 | eight bytes at a time with a tail of 4, 2, 1, counts the longest common run below the limit: all of it is equal, and a difference or the limit follows |
| MatchCount.CommonLenIsLongest | UsbGudFbDxe/lz4/lz4.c:660-685 | what is counted is equal, and a difference or the limit follows |
| MatchCount.CountTail | UsbGudFbDxe/lz4/lz4.c:681-684 | the tail of at most 7 bytes is counted exactly |
| MatchCount.NbCommonBytesIsFirstByte | UsbGudFbDxe/lz4/lz4.c:584-587 | trailing zero bits / 8 is the index of the lowest non-zero byte |
| MatchCount.MultiplyFormAgrees | UsbGudFbDxe/lz4/lz4.c:588-591 | the multiplication form gives the same number for every non-zero 64-bit word |
| MatchCount.CommonLenEight | UsbGudFbDxe/lz4/lz4.c:674-679 | the XOR of two words is zero exactly when eight bytes agree, and otherwise its lowest non-zero byte is the first difference |
| MatchCount.Read32Equal | UsbGudFbDxe/lz4/lz4.c:1073 | two 32-bit loads are equal exactly when the four bytes are |
| WildCopy.WildCopy8 | UsbGudFbDxe/lz4/lz4.c:445-454 | copies at a fixed distance, at least 8 bytes, and writes exactly up to the end of its last 8-byte piece |
| WildCopy.WildCopy32 | UsbGudFbDxe/lz4/lz4.c:500-511 | the same in pieces of 32, for distances of at least 16, up to exactly the end of its last piece |
| WildCopy.StrideIsMultiple | UsbGudFbDxe/lz4/lz4.c:456-457 | for every distance 1 to 7 the two tables leave the read cursor a multiple of the distance behind the write cursor |
| WildCopy.StridedContinues | UsbGudFbDxe/lz4/lz4.c:477-498 | copying on at such a multiple continues the match of the original distance, for any length |
| WildCopy.FirstEight | UsbGudFbDxe/lz4/lz4.c:481-495 | the first eight bytes of a match are right for every distance, 0 included, and the cursor is where the tables say |
| WildCopy.CopyUsingOffset | UsbGudFbDxe/lz4/lz4.c:513-554 | what the buffer holds afterwards, in full: the match repeated at its distance up to the end of the last 8-byte piece, the first two pieces being written together unless the distance is 1, 2 or 4, and nothing else changed |
| WildCopy.CopyUsingOffsetBase | UsbGudFbDxe/lz4/lz4.c:477-498 | the table form does so for any distance, writing at least 16 bytes |
| WildCopy.EightBytesSuffice | UsbGudFbDxe/lz4/lz4.c:513-516 | the copy leaves everything from 8 bytes behind its end on alone, whatever the buffer holds, exactly when the distance is 1, 2 or 4 or the match has at least 8 bytes |
| WildCopy.FourBytesAtThree | UsbGudFbDxe/lz4/lz4.c:513-516 | four bytes at distance 3 change twelve bytes behind them |
| WildCopy.CopiedIsCopyMatch | UsbGudFbDxe/lz4/lz4.c:1888-1893 | a stretch that repeats at the distance is the reference decoder's match copy |
| WildCopy.CopyMatch18 | UsbGudFbDxe/lz4/lz4.c:2081-2083 | 18 bytes in three pieces are the match, for distances of at least 8 |
| WildCopy.CopyMatchFast | UsbGudFbDxe/lz4/lz4.c:2125-2135 | the match copy of the fast loop is the reference copy and stays within 32 bytes past the match |
| WildCopy.CopyMatchSafe | UsbGudFbDxe/lz4/lz4.c:2328-2356 | the match copy of the safe loop is the reference copy, never writes past the buffer, and refuses exactly the matches that leave fewer than 5 bytes |
| FastDecoder.ReadVariableLength | UsbGudFbDxe/lz4/lz4.c:1915-1940 | gives the length and the position behind it exactly when the run ends by the limit |
| FastDecoder.SafeLiterals | UsbGudFbDxe/lz4/lz4.c:2198-2257 | the literals are copied whole, or as far as input and output go, or refused, each under exactly the stated margins |
| FastDecoder.FromToken | UsbGudFbDxe/lz4/lz4.c:2142-2357 | one round of the safe loop keeps the decoder on the reference decoding, finishes it, or rejects only what must be rejected |
| FastDecoder.Shortcut | UsbGudFbDxe/lz4/lz4.c:2147-2186 | so does the two-stage shortcut |
| FastDecoder.FastStep | UsbGudFbDxe/lz4/lz4.c:2009-2136 | one round of the fast loop does so while 64 bytes of room are left, or hands a well-defined state to the safe loop |
| FastDecoder.FastLiterals | UsbGudFbDxe/lz4/lz4.c:2027-2041 | over-copies literals only with 32 bytes of room left behind them on the output side |
| FastDecoder.FastCopy | UsbGudFbDxe/lz4/lz4.c:2049-2135 | the copy of the fast loop keeps 64 bytes of room or passes the match on uncopied |
| FastDecoder.FromMatchCopy | UsbGudFbDxe/lz4/lz4.c:2275-2357 | the safe loop entered at a match copies it, stops inside it when decoding partially, or rejects it for its distance or the end-of-block rule |
| FastDecoder.PartialMatch | UsbGudFbDxe/lz4/lz4.c:2312-2326 | partial decoding close to the end writes the beginning of the match that fits |
| FastDecoder.DecompressGeneric | UsbGudFbDxe/lz4/lz4.c:1948-2366 | for every byte string, window and capacity: terminates and writes only the window; decoding fully, a non-negative result is the reference decoding; stopping early, it is all that can be read, as far as it is wanted, also where the input is cut short; a block that obeys the parsing restrictions and fits is never refused, except where there is no room at all: then exactly the byte 0 is accepted |
| DecoderSpec.SequenceStep | UsbGudFbDxe/lz4/lz4.c:2142-2357 | the decoder's invariant survives any whole sequence |
| DecoderSpec.StopInLiterals | UsbGudFbDxe/lz4/lz4.c:2226-2253 | output filled inside literals is the beginning of the full decoding |
| DecoderSpec.StopInMatch | UsbGudFbDxe/lz4/lz4.c:2312-2326 | output filled inside a match is too |
| DecoderSpec.CutsStep | UsbGudFbDxe/lz4/lz4.c:2142-2357 | a sequence read from a block that is cut short is the block's, and what is expected does not change |
| DecoderSpec.CutLiteralsBegin | UsbGudFbDxe/lz4/lz4.c:2226-2241 | literals copied as far as they are there begin what the whole block stands for |
| DecoderSpec.CutMatchBegins | UsbGudFbDxe/lz4/lz4.c:2312-2326 | so does a match copied as far as it is wanted |
| DecoderSpec.ReadableStep | UsbGudFbDxe/lz4/lz4.c:2142-2357 | what can be read of input, cut short or not, goes on behind every whole sequence |
| DecoderSpec.ReadableEnds | UsbGudFbDxe/lz4/lz4.c:2226-2253 | where input ends in literals, those that are there are the last of it |
| DecoderSpec.ReadableOfCut | UsbGudFbDxe/lz4/lz4.c:2226-2253 | of a block cut in its last literals it is all data but the bytes missing, given three literals that are left, or fifteen where their number takes extra bytes |
| DecoderSpec.LiteralsExpected | UsbGudFbDxe/lz4/lz4.c:2203-2242 | the end-of-block rules guarantee the room on both sides that the literal checks ask for |
| DecoderSpec.MatchExpected | UsbGudFbDxe/lz4/lz4.c:2266-2273 | and the room that the match length reader and the match copy ask for |
| DecoderSpec.OffsetZeroIsZeros | UsbGudFbDxe/lz4/lz4.c:2328-2336 | a match at distance 0 stands for zeros |
| DecoderSpec.OffsetZeroIsDecoded | UsbGudFbDxe/lz4/lz4.c:2277-2336 | blocks with such a match, of any length from 7 on, that the full decoder must decode, with what they decode to |
| PlainDecoder.DecompressUnsafe | UsbGudFbDxe/lz4/lz4.c:1806-1903 | told any size below the block's plus 12, it accepts exactly when literals end at that size, the part of the block up to there obeys the parsing restrictions, and that part never refers before the history; then it consumes exactly the bytes of that part and, all distances being positive, writes what it means |
| PlainDecoder.CutWhole | UsbGudFbDxe/lz4/lz4.c:1839-1841 | told the size of the block, that part is all of it |
| PlainDecoder.CutStands | UsbGudFbDxe/lz4/lz4.c:1825-1902 | the bytes of that part stand in front of the input |
| PlainDecoder.CutIsPrefix | UsbGudFbDxe/lz4/lz4.c:1825-1902 | and mean the first bytes of what the block means |
| PlainDecoder.MatchAcceptable | UsbGudFbDxe/lz4/lz4.c:1858-1898 | the three checks around a match refuse exactly what is not acceptable |
| PlainDecoder.ReadLongLength | UsbGudFbDxe/lz4/lz4.c:1789-1795 | the unchecked reader agrees with the format wherever the run ends inside the input |
| PlainDecoder.RunDefined | UsbGudFbDxe/lz4/lz4.c:1862-1866 | a block expands exactly when no match passes the out-of-range check |
| PlanProperties.AcceptedIsSound | UsbGudFbDxe/lz4/lz4.c:1065-1076 | a candidate that passes the checks is behind the position, at most 65535 back, inside the history, and equal in four bytes |
| PlanProperties.SearchIsSound | UsbGudFbDxe/lz4/lz4.c:1022-1078 | at every lookup all stored indexes lie below the position; what the search finds is real, whatever stale entries the table held |
| PlanProperties.CatchUpIsSound | UsbGudFbDxe/lz4/lz4.c:1081-1083 | moving backwards keeps the match real and inside the history |
| PlanProperties.CatchUpIsLongest | UsbGudFbDxe/lz4/lz4.c:1081-1083 | and goes on to the anchor, the start of the history, or a difference |
| PlanProperties.TakeMatchIsSound | UsbGudFbDxe/lz4/lz4.c:1112-1274 | taking a match, shortened or not, leads to a position that can be trusted again |
| PlanProperties.ClearedIsBelow | UsbGudFbDxe/lz4/lz4.c:1169-1181 | clearing the positions behind a shortened match leaves only entries below its end |
| PlanProperties.NextTableIsSound | UsbGudFbDxe/lz4/lz4.c:1161-1204 | at the end of every match the table holds nothing at or beyond it |
| PlanProperties.EnteredFits | UsbGudFbDxe/lz4/lz4.c:798-806 | every index that is entered fits the type of the table, 16 bits for inputs below 64 KB |
| PlanProperties.EnterKeepsGood | UsbGudFbDxe/lz4/lz4.c:798-806 | entering a position keeps all entries harmless and within that type |
| PlanProperties.ShortenedFillsRoom | UsbGudFbDxe/lz4/lz4.c:1163-1168 | a shortened match leaves exactly the room for one token and five literals |
| PlanProperties.RoomAfterUncut | UsbGudFbDxe/lz4/lz4.c:1121-1126 | an unshortened one leaves at least that, and 9 bytes when its length is coded in the token |
| PlanTheorems.TakenCopies | UsbGudFbDxe/lz4/lz4.c:1128-1159 | the sequence written for a match copies exactly the bytes that follow in the input |
| PlanTheorems.PlanExpands | UsbGudFbDxe/lz4/lz4.c:990-1303 | the block means the input behind its history: all of it, or a prefix when filling the output |
| PlanTheorems.PlanEndsWell | UsbGudFbDxe/lz4/lz4.c:1204-1303 | the block ends in literals, and each match starts 12 and ends 5 bytes before the end of the data it stands for |
| PlanTheorems.PlanFits | UsbGudFbDxe/lz4/lz4.c:1161-1290 | with a limit the block never exceeds it; a filled output has at most one byte unused |
| PlanTheorems.PlanFills | UsbGudFbDxe/lz4/lz4.c:1278-1290 | a filled output is full except exactly when the room for the last run, token included, is 16 modulo 256 |
| PlanTheorems.FillRunFits | UsbGudFbDxe/lz4/lz4.c:1281-1285 | the cut of the last run is never negative, cuts something, and fits |
| PlanTheorems.FillRunIsFull | UsbGudFbDxe/lz4/lz4.c:1284-1285 | it is as long as can be: it leaves a byte unused exactly when the room is 15 modulo 256 |
| PlanLimits.PlanIsBounded | UsbGudFbDxe/lz4/lz4.h:212 | by an amortised cost over all sequences the block has at most size + size/255 + 2 bytes, within the documented bound |
| PlanLimits.TakenPays | UsbGudFbDxe/lz4/lz4.c:1085-1200 | every match keeps the output within one byte in 255 of the input read |
| PlanLimits.LimitedAgrees | UsbGudFbDxe/lz4/lz4.c:1088-1091 | when the limited compressor succeeds it has decided everything as the unlimited one does |
| PlanLimits.FitsTakes | UsbGudFbDxe/lz4/lz4.c:1085-1168 | where the unlimited block fits, no check around a match fails, no match is given back or shortened |
| PlanLimits.FitsAgrees | UsbGudFbDxe/lz4/lz4.c:1085-1290 | a block that fits is written: the limited plan is then the unlimited one |
| Filling.PlanIsFill | UsbGudFbDxe/lz4/lz4.c:1085-1290 | what fills the output is a function of the unlimited block, its data and the limit: its sequences as long as the checks pass, then a shortened match and five literals, or literals alone, as many as fit |
| Filling.DifferPlans | UsbGudFbDxe/lz4/lz4.c:1093-1097 | a match turned down before its literals and one given back after them leave the same block |
| Filling.FillReaches | UsbGudFbDxe/lz4/lz4.h:249-250 | that block is the unlimited one exactly when this fits with the bytes its end asks for; otherwise data is left out and the output is full, but for one byte where filling stops at literals whose room is 16 modulo 256 |
| Filling.SpareIsSmall | UsbGudFbDxe/lz4/lz4.c:1114-1119 | the bytes asked for are at most three |
| Filling.ShortIsShorter | UsbGudFbDxe/lz4/lz4.c:1163-1168 | a match that is shortened gets shorter, keeps at least four bytes, and its length takes exactly the room there is |
| Filling.ShortenedIsFull | UsbGudFbDxe/lz4/lz4.c:1161-1186 | where a match is shortened the output is full and data is left out |
| Filling.CutLiterals | UsbGudFbDxe/lz4/lz4.c:1278-1290 | so it is where literals are cut, but for one byte at 16 modulo 256 |
| Detection.SearchFinds | UsbGudFbDxe/lz4/lz4.c:1022-1078 | a position whose slot still holds an accepted candidate is found, where none before it is, as long as the stride is 1 |
| Detection.LeapsPast | UsbGudFbDxe/lz4/lz4.c:1022-1031 | behind the first position looked up the stride is the acceleration |
| Detection.FirstWritten | UsbGudFbDxe/lz4/lz4.c:1022-1159 | what is found first is the first sequence of the block: the literals before it, moved back as far as it goes, and its distance |
| Detection.PlanOneMatch | UsbGudFbDxe/lz4/lz4.c:1128-1303 | a match that goes on to the end of the data is written up to five bytes before it, and then five literals |
| Detection.SameSlot | UsbGudFbDxe/lz4/lz4.c:758-778 | where the same eight bytes stand the same slot is looked up |
| Detection.SearchKeeps | UsbGudFbDxe/lz4/lz4.c:1022-1078 | a search leaves alone the slots that no position from there on falls into |
| Detection.LeftKeeps | UsbGudFbDxe/lz4/lz4.c:990-1303 | so does all the rest of a block |
| Detection.SecondKept | UsbGudFbDxe/lz4/lz4.c:997-1078 | the first position looked up stands in its slot behind the block, unless a later one took it |
| PlanLimits.PlanSucceeds | UsbGudFbDxe/lz4/lz4.h:177 | there is a block without a limit, with room for the worst case, or when filling the output |
| BlockWriter.WriteRun | UsbGudFbDxe/lz4/lz4.c:1100-1101 | appends exactly the bytes of a length |
| BlockWriter.WriteRunBulk | UsbGudFbDxe/lz4/lz4.c:1189-1197 | so does the form with 32-bit stores, storing at most three bytes too many |
| BlockWriter.WriteLiteralPart | UsbGudFbDxe/lz4/lz4.c:1097-1107 | appends token, length and literals; the over-copying copy stays within 7 bytes behind a run, 8 behind an empty one |
| BlockWriter.WriteMatchLength | UsbGudFbDxe/lz4/lz4.c:1187-1199 | completes a sequence: what stands at its token is then its encoding |
| BlockWriter.WriteLast | UsbGudFbDxe/lz4/lz4.c:1292-1302 | appends the last literals, touching nothing behind them |
| Compressor.Candidate | UsbGudFbDxe/lz4/lz4.c:1065-1073 | the checks of the code, in their order, accept exactly the candidates of the plan, and read nothing outside the history |
| Compressor.FindMatch | UsbGudFbDxe/lz4/lz4.c:1017-1079 | the skipping search loop finds what the plan's search finds and leaves its table |
| Compressor.GoBack | UsbGudFbDxe/lz4/lz4.c:1081-1083 | the catch-up loop goes back as far as the plan says |
| Compressor.LiteralsInRoom | UsbGudFbDxe/lz4/lz4.c:1085-1107 | the checks before the literals leave room for the over-copy: 7 bytes behind the run, and 8 behind its header |
| Compressor.MatchInRoom | UsbGudFbDxe/lz4/lz4.c:1161-1199 | the check before a match length leaves room for the bulk stores and the next token |
| Compressor.LastInRoom | UsbGudFbDxe/lz4/lz4.c:1278-1302 | the last literals fit in the room left |
| Compressor.LiteralStep | UsbGudFbDxe/lz4/lz4.c:1085-1110 | literals are written, or the output policy ends the block, as the plan says |
| Compressor.EnterBehind | UsbGudFbDxe/lz4/lz4.c:1209-1268 | the two positions behind a match are entered and the second is looked up as the plan says |
| Compressor.ClearPositions | UsbGudFbDxe/lz4/lz4.c:1177-1180 | the clearing loop leaves the table of the plan |
| Compressor.SettleCode | UsbGudFbDxe/lz4/lz4.c:1161-1186 | a match length that does not fit is shortened as the plan says, and the table cleared |
| Compressor.MatchStep | UsbGudFbDxe/lz4/lz4.c:1112-1274 | one round from a match on: given back, given up, or written with the bytes of its sequence, and on to the plan's next position |
| Compressor.AdvancesFollows | UsbGudFbDxe/lz4/lz4.c:991-1274 | bytes written plus bytes planned stay equal to the whole block through every round |
| Compressor.LastStep | UsbGudFbDxe/lz4/lz4.c:1276-1303 | the last literals complete the block, cut when filling, or nothing is returned |
| Compressor.CompressGenericValidated | UsbGudFbDxe/lz4/lz4.c:907-1312 | the output holds exactly the encoding of the planned block and its size is returned, or 0 exactly when there is none; nothing behind the room is written; the table is left as planned, holding nothing beyond the data |
| Codec.OutcomeIsPromised | UsbGudFbDxe/lz4/lz4.h:174-187 | for every job, table, policy and limit: a block that is written means the input (a prefix when filling), obeys the parsing restrictions, and stays within limit and bound |
| Codec.OutcomeSucceeds | UsbGudFbDxe/lz4/lz4.h:177 | compression succeeds whenever the capacity reaches the bound, or there is no limit, or one byte to fill |
| Codec.OutcomeIgnoresLimit | UsbGudFbDxe/lz4/lz4.c:1362-1376 | a limit decides whether there is a block, never which |
| Codec.OutcomeFits | UsbGudFbDxe/lz4/lz4.h:180-185 | with a limit there is a block exactly when the unlimited one fits, and it is that |
| Codec.OutcomeFills | UsbGudFbDxe/lz4/lz4.c:1455-1487 | for every job and table, what fills the output is made from the unlimited block |
| Codec.CompressGeneric | UsbGudFbDxe/lz4/lz4.c:1318-1353 | oversized inputs are refused, empty ones are one token, others are compressed as planned, and leave the table as planned |
| Codec.ClampAcceleration | UsbGudFbDxe/lz4/lz4.c:1360-1361 | an acceleration from 1 to 65537 is kept, one below is 1, one above 65537 |
| Codec.CompressFast | UsbGudFbDxe/lz4/lz4.c:1356-1377 | something is written exactly when the input is not oversized and its block, the same for every capacity, fits; it means the input, and succeeds whenever the capacity reaches the bound |
| Codec.CompressDefault | UsbGudFbDxe/lz4/lz4.c:1446-1449 | the same with acceleration 1 |
| Codec.CompressDestSize | UsbGudFbDxe/lz4/lz4.c:1455-1487 | fails exactly for an oversized input or no room; otherwise writes what fills the target made from the block of the input, which means exactly the consumed prefix; the whole input is consumed exactly when its block fits with the bytes its end asks for; if not, the target is full, but for one byte exactly where that block makes filling stop at 16 |
| Codec.FilledIs | UsbGudFbDxe/lz4/lz4.h:249-250 | both conditions, told from the block LZ4_compress_default writes and the target |
| Codec.FilledMeans | UsbGudFbDxe/lz4/lz4.h:249-250 | what fills the target means the beginning of the input |
| Codec.DecompressSafe | UsbGudFbDxe/lz4/lz4.c:2372-2378 | a non-negative result is at most the capacity and is the reference decoding; any block that means some data that fits gives that data, given any room at all; with none, exactly the byte 0 is accepted |
| Codec.EmptyBlocks | UsbGudFbDxe/lz4/lz4.c:1990-1994 | the blocks of no data are the single bytes below 16 |
| Codec.EmptyBlockRefused | UsbGudFbDxe/lz4/lz4.c:1990-1994 | fifteen of these sixteen are refused at capacity 0, and none with more room |
| Codec.DecompressSafePartial | UsbGudFbDxe/lz4/lz4.c:2380-2388 | any block that means some data gives its first min(target, capacity, size) bytes, and that number; so does a block followed by any other bytes, when no more is asked for than it holds; of input cut short, all whole sequences and the literals that are there, and of a block cut short anywhere, a non-negative result is a beginning of its data |
| Codec.ReadableData | UsbGudFbDxe/lz4/lz4.h:297-305 | what can be read of a block is its data, and of one cut in its last literals all but the bytes missing |
| Codec.PartialResult | UsbGudFbDxe/lz4/lz4.h:297-305 | the decoder's result for whatever block the input holds, followed by other bytes, or is the beginning of |
| Codec.DecompressFast | UsbGudFbDxe/lz4/lz4.c:2390-2397 | told the right size the plain decoder rebuilds the data of any such block and consumes exactly its bytes; told another, less than 12 bytes too large, it refuses or gives the beginning of the data, exactly as stated |
| Codec.PlainFacts | UsbGudFbDxe/lz4/lz4.c:1806-1903 | what the plain decoder accepts of a block is a prefix of its bytes that means a prefix of its data, and all of it at the right size |
| Codec.MeansIsExpected | UsbGudFbDxe/lz4/lz4.h:194-196 | a block that means some data that fits must not be refused |
| Codec.RoundTrip | UsbGudFbDxe/lz4/lz4.h:174-205 | compress then decompress gives the input back for every input, capacity and sufficient output, and an error when the output is too small; something is written exactly when the block of the input fits |
| Codec.FillRoundTrip | UsbGudFbDxe/lz4/lz4.h:246-270 | a filled block decodes in exactly the room of the prefix it consumed, to that prefix |
| Incompressible.NothingFound | UsbGudFbDxe/lz4/lz4.c:1022-1078 | on an input in which no four bytes in a row occur twice the search finds nothing |
| Incompressible.LiteralsOnly | UsbGudFbDxe/lz4/lz4.c:1022-1302 | the block of such an input is its literals |
| Incompressible.NothingGained | UsbGudFbDxe/lz4/lz4.h:180-185 | so it needs more room than the input takes |
| Incompressible.FilledUnless16 | UsbGudFbDxe/lz4/lz4.h:249-250 | such an input is taken whole exactly when its literals fit; otherwise the output is filled, but for one byte when its size is 16 modulo 256 |
| Incompressible.NumberedHasNoRepeats | UsbGudFbDxe/lz4/lz4.h:249-250 | there are such inputs of every length up to 195075 |
| Incompressible.FallsShort | UsbGudFbDxe/lz4/lz4.h:249-250 | each of them leaves one byte unused at every size that is 16 modulo 256 and too small for it |
| Incompressible.SmallestTargets | UsbGudFbDxe/lz4/lz4.h:249-250 | among them fifteen bytes into 16, and three hundred into 272 |
| Periods.BlockOfPeriod | UsbGudFbDxe/lz4/lz4.c:1446-1449 | data of period d up to 64, at least 12 bytes longer, that can be told apart within its first period, is written as d literals, one match at distance d and five literals; its size is known |
| Periods.BlockOfColour | UsbGudFbDxe/lz4/lz4.c:1446-1449 | n pixels, at least four, whose rotations fall into different slots are written as one pixel, one match of 4n - 9 at distance 4, and five literals: 13 bytes, and the extra bytes of one length |
| Periods.BlockOfEqual | UsbGudFbDxe/lz4/lz4.c:1446-1449 | bytes all equal are one literal, one match at distance 1 and five literals, without any condition |
| Periods.NothingAtSpeed | UsbGudFbDxe/lz4/lz4.c:1022-1031 | an acceleration as large as the input finds nothing beyond its second position: literals only |
| Periods.ExampleBlock | UsbGudFbDxe/lz4/lz4.c:1356-1377 | 64 pixels of bytes 1, 2, 3, 0 take 14 bytes at acceleration 1, and 258 at the highest |
| SpareBytes.BlockOfThirteen | UsbGudFbDxe/lz4/lz4.c:1022-1302 | thirteen equal bytes are written as a literal, a match of seven and five literals, ten bytes in all |
| SpareBytes.ThreeBytesNeeded | UsbGudFbDxe/lz4/lz4.h:249-250 | the worst case: filling 10, 11 or 12 bytes does not take all of these thirteen, though their block has ten; filling 13 does |
| Stream.RunBehind | UsbGudFbDxe/lz4/lz4.c:2565-2577 | a block means the same behind a longer history, so the decoder may keep more than the compressor |
| Stream.NextIsUsable | UsbGudFbDxe/lz4/lz4.c:1682-1688 | whatever the table holds from earlier blocks, no entry can be mistaken for one of the history |
| Stream.RenormIsTransparent | UsbGudFbDxe/lz4/lz4.c:1624-1641 | the block written after a renormalisation, and whether there is one, is the same as if the offset had gone on growing and every index had been kept |
| Stream.ShiftedEntry | UsbGudFbDxe/lz4/lz4.c:1065-1076 | an entry is accepted after rescaling exactly when it was before, and means the same place |
| Stream.ShiftedCatchUp | UsbGudFbDxe/lz4/lz4.c:1081-1083 | going back from a match in reach stops at the same place though the history is shorter |
| Stream.ShiftedPlan | UsbGudFbDxe/lz4/lz4.c:990-1303 | from any position on, jobs whose indexes differ by a constant, with tables rescaled accordingly, have the same plan |
| Stream.FreeOutcome | UsbGudFbDxe/lz4/lz4.c:1624-1641 | so every block is the one an offset free to grow would give |
| Stream.LinkedBlock | UsbGudFbDxe/lz4/lz4.c:1682-1688 | where the slot of a position looked up still holds one of an earlier block, in reach and equal in four bytes, the block refers to it at that distance |
| Stream.RepeatedBlock | UsbGudFbDxe/lz4/lz4.c:1682-1688 | a block that repeats the one before it is written as one match and five literals, whatever came before, if its second position is alone in its slot |
| Stream.TwiceIsLinked | UsbGudFbDxe/lz4/lz4.c:1682-1688 | thirteen different bytes and again: the second block of a new chain takes nine bytes |
| Stream.NothingAtSpeed | UsbGudFbDxe/lz4/lz4.c:1644-1688 | the acceleration of a call is that of its block |
| Stream.Compression.Renorm | UsbGudFbDxe/lz4/lz4.c:1624-1641 | the table is shifted as a whole exactly when the next block would pass 2 GB; the history's end stays, and the next block's indexes fit |
| Stream.Compression.CompressFastContinue | UsbGudFbDxe/lz4/lz4.c:1644-1688 | the output holds exactly the block of this job and table, renormalised if need be, or 0 is returned, exactly when it does not fit; the block means its data behind the history before it; offset, history and table afterwards are given in full, the table as this block leaves it for the next |
| Stream.Decompression.DecompressSafeContinue | UsbGudFbDxe/lz4/lz4.c:2552-2577 | the block is decoded behind the history already there, where there is any room; state and earlier bytes change as stated, and not at all on failure |
| Stream.SendBlock | UsbGudFbDxe/lz4/lz4.h:371-394 | one block through both sides keeps them in step, and is sent exactly when it fits the packet |
| Stream.SendChain | UsbGudFbDxe/lz4/lz4.h:371-394 | any chain of contiguous blocks whose calls succeed comes out as it went in, across any number of renormalisations; a call succeeds exactly when its block, linked to those before it, fits the packet |
| Geometry.WithinIsContained | UsbGudFbDxe/GudDriver.c:911-940 | a rectangle lies within another exactly when all its pixels do |
| Geometry.Union | UsbGudFbDxe/GudDriver.c:921-931 | growing the damage gives a rectangle around both |
| Geometry.DamageIsLeast | UsbGudFbDxe/GudDriver.c:911-940 | after any sequence of rectangles the damage is the least rectangle around them |
| Geometry.DamageIgnoresOrder | UsbGudFbDxe/GudDriver.c:911-940 | whatever their order |
| Geometry.DamageFits | UsbGudFbDxe/UsbGudFb.c:225-249 | it is not empty and inside the mode if they are |
| Geometry.StoredPacked | UsbGudFbDxe/GudDriver.c:801-805 | storing what was packed from a rectangle copies exactly its pixels |
| Geometry.PackedBands | UsbGudFbDxe/GudDriver.c:895-904 | the bytes of two adjacent bands are the bytes of the rectangle they make up |
| Geometry.PixelOfOffset | UsbGudFbDxe/GudDriver.h:55 | pixel addresses determine row and column |
| Display.Driver.QueueFlush | UsbGudFbDxe/GudDriver.c:911-940 | the stored damage is the least rectangle around everything queued since the last tick |
| Display.Driver.Pack | UsbGudFbDxe/GudDriver.c:801-805 | the transfer buffer holds the rectangle row by row |
| Display.Lz4Compress | UsbGudFbDxe/Lz4.h:7-24 | succeeds exactly when the data is not oversized and its block fits; the output then is that block and decodes to the input |
| Display.FullBandTooLarge | UsbGudFbDxe/GudDriver.c:810-830 | a band of its size fails to compress when no four of its bytes in a row occur twice |
| Display.SomeBandTooLarge | UsbGudFbDxe/GudDriver.c:810-830 | there are such bands of every size up to 195075 |
| Display.ColourPacked | UsbGudFbDxe/GudDriver.c:801-805 | the bytes of a rectangle of one colour are its pixel over and over |
| Display.ColourFits | UsbGudFbDxe/GudDriver.c:810-830 | such a band fails to compress exactly when the buffer lacks the few bytes it takes, if the rotations of its pixel fall into different slots |
| Display.GreyFits | UsbGudFbDxe/GudDriver.c:810-830 | and a grey one, or black, without any condition |
| Display.CountIs | UsbGudFbDxe/GudDriver.c:895-904 | there are as many bands as begin above the end of the rectangle: its height by the rows in a band, rounded up |
| Display.BandInside | UsbGudFbDxe/GudDriver.c:895-904 | band k is inside the rectangle and ends at min((k + 1) * rows, height) |
| Display.WorkingDevice | UsbGudFbDxe/GudDriver.c:877-908 | while the device works a flush succeeds exactly when all of its bands can be sent, and fails for want of room exactly when one cannot |
| Display.BlamedDevice | UsbGudFbDxe/GudDriver.c:877-908 | a device error is reported only when a step of the device failed |
| Display.Driver.FlushPart | UsbGudFbDxe/GudDriver.c:785-875 | a band sent successfully, compressed or not, makes the device show the host's pixels there and nothing else; a failure changes nothing on it; compression fails exactly for bands whose block exceeds the buffer, and the device is blamed exactly when one of its steps failed |
| Display.Driver.Flush | UsbGudFbDxe/GudDriver.c:877-908 | transfer k carries exactly rows k * part to (k + 1) * part of the rectangle, or of the whole screen for a device that wants that, with part the rows that fit the buffer; the flush ends with all bands sent, or at the first that cannot be or that the device fails on, and says which; the device shows the bands sent, and nothing else changed |
| Display.Driver.FlushTimerCallback | UsbGudFbDxe/GudDriver.c:943-966 | a tick with damage flushes all of it and reports as that flush does, one without does nothing; it takes the damage and keeps the agreement; at most the rectangle of a failed flush is lost, and a successful one recovers what it covers |
| Display.Driver.Blt | UsbGudFbDxe/UsbGudFb.c:204-255 | a successful blit queues its rectangle and keeps the agreement; one that only reads queues nothing, and may go to any rectangle of the caller's |
| Display.Driver.SetMode | UsbGudFbDxe/UsbGudFb.c:93-194 | a mode accepted and configured starts with a new frame buffer, black, and nothing queued, whatever was before; an unknown one is refused without effect; one the device rejects changes the mode index alone, which leaves the driver in order exactly when its dimensions are those of the mode before; one that cannot be configured leaves no frame buffer, and nothing queued |
| Display.FlushAgrees | UsbGudFbDxe/GudDriver.c:943-966 | an update of everything pending leaves agreement with nothing pending |
| Display.FailedAgrees | UsbGudFbDxe/GudDriver.c:952-964 | a flush that breaks off can spoil the agreement only inside its rectangle |
| Display.PaintAgrees | UsbGudFbDxe/UsbGudFb.c:225-254 | painting a rectangle that becomes pending keeps agreement elsewhere |
| Display.Run | UsbGudFbDxe/UsbGudFb.c:204-255 | over any run of blits, ticks and mode changes, mode, queue and painted pixels are what the events make them, and every pixel painted since the mode was set is pending, equal on host and device, or was lost by a failed flush; if none failed none was lost; only a mode change breaks the run off, to a mode of other dimensions that the device rejects, or one that cannot be configured |

## Left out

- External dictionaries, attached dictionary contexts, `LZ4_loadDict`, `LZ4_saveDict` and ring buffers that wrap: more cases of the same idea.
- Stream.Compression.CompressFastContinue: only for a block directly behind the ones before it in memory (prefix mode).
- Stream.Decompression.DecompressSafeContinue: only for output directly behind the output before it (prefix mode).
- `LZ4_compress_fast_extState_fastReset` and `LZ4_resetStream_fast`: the model starts from a table of zeros or continues a stream.
- The `byPtr` table, big-endian and 32-bit variants, and the address overflow checks of 32-bit builds.
- Alignment, prefetching and other tuning, and speed and quality of the hash.
- In-place decompression with overlapping buffers: the decoder's input is a value of its own.
- Codec.DecompressFast: only for a block, and a size less than 12 bytes above its own; this decoder does not know where its input ends and would read past it otherwise.
- PlainDecoder.DecompressUnsafe: the same, and the bytes written for a match at distance 0 are left open.
- Codec.DecompressSafePartial: of input in which a length is incomplete or too close to the end to be read, or a match has distance 0, only that a result stays within the room and begins the data of any block it is cut from.
- Negative source sizes: sizes are lengths of sequences.
- Stream.SendChain: after a call that fails nothing is said about the stream, as its documentation says.
- USB transfers, endpoint discovery, status and stall handling: the device is a class whose steps succeed or fail.
- `FrameBufferBlt` is not part of this model: it is taken to paint any bytes, inside a rectangle that is not empty and fits the mode, or to fail.
- Driver binding, protocols, console variables, task priorities and allocation failures; blits and ticks are atomic steps.
- Display.Run: FULL_UPDATE devices are not covered, for which no rectangle is announced.
- Display.Run: what blits and ticks do between a mode change that fails and the next that does not.
- The black fill after a mode change as device content: it is not queued.
- Truncation of rectangle coordinates to 32 bits in the request, and transfer buffers larger than 2 GB.

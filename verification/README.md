# Verification of go-brrr

A Dafny model of the parts of go-brrr, an implementation of Brotli (RFC 7932), where a fast
implementation has to agree with a simple meaning. Each file is one component with its specification,
the algorithm in the form the source has it, and the theorems that connect the two.

- `FindBlocks.dfy`: the dynamic programme that assigns histograms to positions, with its normalised
  costs, bitmap of switches and backtrace, against the minimum over all assignments.
- `TreeHasher.dfy`: the H10 match finder, a forest of search trees in one pointer array, against trees
  as values and longest common prefixes.
- `Arithmetic.dfy`, `Bits.dfy`: shared arithmetic. `PrefixCode.dfy`, `HuffmanTable.dfy`, `SimpleCodes.dfy`: canonical
  prefix codes, the two-level table, and the tables of codes with at most four symbols.
- `CodeLengths.dfy`, `LengthReader.dfy`, `LengthCode.dfy`, `LengthHeader.dfy`: the expansion of code-length
  symbols into linked lists, the three loops that read them, the table of their own code, and the resumable
  reading of a whole prefix code.
- `BitReader.dfy`, `SymbolReader.dfy`, `MetaBlockHeader.dfy`: the bit accumulator against the sequence
  of bits not yet consumed, the fast and safe ways to read symbols, commands and literals through it,
  and the suspendable header parser against the header grammar.
- `RingBuffer.dfy`: the ring with growth, eager stores, pattern copies and suspension, against an unbounded
  history. `MetaBlocks.dfy`: blocks over the ring, what they declare and what they add. `Delivery.dfy`: how
  the output reaches the caller.
- `TwoPass.dfy`: the first pass of quality 1 against a player of its command words.
- `Histograms.dfy`, `Cluster.dfy`, `Splitter.dfy`: clustering and greedy block splitting, for any cost
  and entropy functions.
- `ContextMap.dfy`, `Distance.dfy`, `DistanceCache.dfy`: encoder and decoder halves that undo each
  other.
- `FastWriter.dfy`: how input is cut into fragments, and the seal that a flush appends.

Conventions. Costs and entropies are `real`, or functions about which nothing but bounds is known, so no
result depends on rounding. Unsigned wrap-around is written out where the source relies on it (the
`space` of a prefix code; the space of the code-length code, of which only the sign and zero matter, is an
integer). A byte is a number below 256. Words of the accumulator are sequences of
64 bits, so that `|` and shifts are what they are in the source; a `|=` that combines disjoint bits of a
length is a sum. Where several parallel arrays describe one entity they are one array of records.
Parameters stand for hash functions, the compression of a fragment, logarithms, and the choice of
literal tables by context.

The comment at internal/encoder/encoder.go:1482-1490 assigns the short codes 8 to 15 differently from
the packed constants at lines 1510-1512. The model follows the constants, which agree with the decoder
and with section 4 of RFC 7932.

## Model

| member | source | states |
|---|---|---|
| `FindBlocks.FindBlocks` | internal/encoder/block_splitter.go:179-243 | The assignment left in place has the least total of insertion costs and switch penalties among all assignments, and the result is its number of maximal runs |
| `FindBlocks.FillInsertCost` | internal/encoder/block_splitter.go:204-217 | The in-place table, filled from the last row down over its own first row, holds for every symbol and histogram the cost of coding the one with the other |
| `FindBlocks.InsertAtIsEntry` | internal/encoder/block_splitter.go:198-217 | The costs that the programme minimises are the table's entries for the symbols of the data |
| `FindBlocks.EntryPrices` | internal/encoder/block_splitter.go:204-217 | A symbol costs the logarithm of the total less that of its count, and two bits more than the logarithm of the total if it does not occur |
| `FindBlocks.SwitchPrices` | internal/encoder/findblocks_kernel_generic.go:42-52 | The switch price rises evenly from 0.77 to 0.84 of its full value over the first 2000 positions |
| `FindBlocks.DPStep` | internal/encoder/findblocks_kernel_generic.go:7-17 | Adds a row of insertion costs and returns the least cost with its first index |
| `FindBlocks.Clamp` | internal/encoder/findblocks_kernel_generic.go:21-29 | Rebases and clamps every cost, and sets exactly the bits of the clamped histograms |
| `FindBlocks.Step` | internal/encoder/findblocks_kernel_generic.go:32-36 | One step keeps the normalised costs equal to the clamped differences from the optimum, and marks exactly the histograms where a switch is optimal |
| `FindBlocks.Sweep` | internal/encoder/findblocks_kernel_generic.go:38-61 | One position extends the optimal costs, the switch bitmap and the best histogram by a position |
| `FindBlocks.ForwardPass` | internal/encoder/findblocks_kernel_generic.go:38-61 | After the pass every position holds its best histogram and its row of switch signals |
| `FindBlocks.Backtrace` | internal/encoder/block_splitter.go:225-242 | The assignment read back has the optimal cost, and the count is its number of runs |
| `FindBlocks.OptIsLowerBound` | internal/encoder/findblocks_kernel_generic.go:7-36 | The recurrence is a lower bound of the cost of every assignment with a given last histogram |
| `FindBlocks.BestAttained` | internal/encoder/findblocks_kernel_generic.go:7-17 | The least value of the recurrence is the value at some histogram |
| `FindBlocks.StepIsOpt` | internal/encoder/findblocks_kernel_generic.go:21-29 | Rebased and clamped costs plus the running minimum are the recurrence's next values |
| `TreeHasher.Sandwich` | internal/encoder/hash10.go:136-148 | Between two keys that share a prefix with the current position every key in the order shares it |
| `TreeHasher.SkipIsSound` | internal/encoder/hash10.go:136-142 | The bytes skipped, the lesser of the two best lengths, agree for every position still in the subtree |
| `TreeHasher.SplitIsGood` | internal/encoder/hash10.go:126-169 | Splitting a tree at a key keeps both parts search trees and heaps, with smaller keys left and greater keys right |
| `TreeHasher.InsertedIsSearchTreeAndHeap` | internal/encoder/hash10.go:112-172 | Inserting the newest position keeps the bucket a search tree on 128-byte keys and a max-heap on position |
| `TreeHasher.WalkRefinesSplit` | internal/encoder/hash10.go:112-172 | The pointer walk through the forest, rewriting nodes as it goes, computes the split of the tree that the pointers represent |
| `TreeHasher.CollectIsTrue` | internal/encoder/hash10.go:136-148 | Along a walk the reported matches are true common prefixes, with strictly increasing lengths and distances inside the window |
| `TreeHasher.PathDominates` | internal/encoder/hash10.go:126-169 | Every position off the walk is no better than a newer one on it |
| `TreeHasher.SearchIsComplete` | internal/encoder/hash10.go:126-169 | If the walk ends before its depth is used up, every position in the window is matched by a report at least as long and no farther |
| `TreeHasher.ShallowIsComplete` | internal/encoder/hash10.go:126-169 | The walk ends so in every bucket that is no higher than the depth limit of 64 |
| `TreeHasher.RerootOnly` | internal/encoder/hash10.go:178-230 | The storing walk leaves the forest that the walk function describes |
| `TreeHasher.RerootAndFind` | internal/encoder/hash10.go:99-172 | The searching walk leaves the same forest, and reports what a search that compares every byte would report |
| `TreeHasher.FindOnly` | internal/encoder/hash10.go:236-288 | The search near the end of the input reports the same and changes nothing |
| `TreeHasher.ReportIsTrueAndComplete` | internal/encoder/hash10.go:126-169 | The reports of a walk are true and complete for the tree of the nodes in the window |
| `TreeHasher.StoreKeepsBuckets` | internal/encoder/hash10.go:99-230 | Storing a position keeps every bucket a tree of its own in the shared forest |
| `TreeHasher.H10.StoreAndFindMatches` | internal/encoder/hash10.go:99-172 | A store keeps all buckets valid and reports true and complete matches; its new forest and buckets are those of StoreOnly |
| `TreeHasher.H10.StoreOnly` | internal/encoder/hash10.go:178-230 | Leaves the same forest and buckets as StoreAndFindMatches |
| `TreeHasher.H10.FindMatchesNoStore` | internal/encoder/hash10.go:236-288 | True and complete matches without a store |
| `TreeHasher.MatchLenAt` | internal/encoder/matchlen.go:34-47 | The length of the longest common prefix up to the limit |
| `PrefixCode.KraftIsComplete` | internal/core/huffman.go:169-182 | Code lengths with Kraft sum one are exactly those whose intervals cover all 15-bit strings |
| `PrefixCode.SymbolInterval` | internal/core/huffman.go:148-222 | The canonical code of section 3.2 of RFC 7932 is the start of the symbol's interval in the order of lengths |
| `PrefixCode.CanonicalDecoding` | internal/core/huffman.go:148-222 | For a complete code every bit string starts with the code of exactly one symbol, the one whose interval holds it |
| `HuffmanTable.ReplicateValue` | internal/core/mem_checked.go:12-20 | Fills exactly the slots of one residue class below the end |
| `HuffmanTable.NextTableBitSize` | internal/core/huffman.go:71-82 | The width of the second-level table that starts at a code: the least that holds all codes with the same first eight bits |
| `HuffmanTable.FillRoot` | internal/core/huffman.go:163-182 | Every root slot whose bits start with a code of at most the table's width holds it |
| `HuffmanTable.GrowRoot` | internal/core/huffman.go:184-188 | Doubling the filled part gives the eight-bit root table |
| `HuffmanTable.FillSecondLevel` | internal/core/huffman.go:190-219 | Every long code is in the sub-table of its first eight bits, and the sub-tables are full |
| `HuffmanTable.BuildHuffmanTable` | internal/core/huffman.go:148-222 | For lengths with Kraft sum one the linked lists become a complete two-level table of exactly the size returned |
| `HuffmanTable.TableDecodesCanonicalCode` | decode.go:2284-2297 | For every bit string the lookup returns the one symbol whose canonical code it starts with, and that code's length, inside the table |
| `HuffmanTable.SafeDecodeIsExact` | decode.go:2300-2330 | With some bits known the safe lookup succeeds exactly when they hold the whole code, which for a single symbol they always do, and then agrees with the lookup on the whole stream |
| `SimpleCodes.ShortOrder` | internal/core/huffman.go:227-286 | The canonical order of codes of at most three bits is the list of each length, one after the other |
| `SimpleCodes.WrittenIsTable` | internal/core/huffman.go:235-291 | The slots written for two to four symbols, repeated, are the table of the canonical code with the lengths of section 3.4 of RFC 7932 |
| `SimpleCodes.SortFour` | internal/core/huffman.go:258-264 | The exchanges sort four different symbols in place |
| `SimpleCodes.WriteSlots` | internal/core/huffman.go:231-286 | The slots of each of the five forms, with symbols of equal length in ascending order |
| `SimpleCodes.BuildSimpleHuffmanTable` | internal/core/huffman.go:227-292 | For every order in which one to four symbols were sent: the symbol without bits, or the table of the canonical code with the lengths of section 3.4 |
| `CodeLengths.LengthsAreExpanded` | decode.go:1309-1348 | Zero and repeat codes, with a run that continues across codes of the same kind, expand to the lengths of section 3.5 of RFC 7932 |
| `CodeLengths.StepsAreExpand` | decode.go:1296-1348 | Processing one code after the other is the expansion by maximal runs |
| `CodeLengths.RunsSpellCounts` | decode.go:1309-1326 | A run of codes 16 or 17 stands for two lengths more than the number whose digits, from one up in base 4 or 8, their extra bits spell |
| `CodeLengths.RepeatAfterLiteral` | decode.go:1309-1326 | A single repeat code behind a literal length stands for its extra bits and three; 16 repeats the last length that is not zero |
| `CodeLengths.RunsAreExact` | decode.go:1309-1326 | Every count from three on is the count of exactly one run, and no run stands for fewer than three |
| `CodeLengths.ListsAreLinked` | decode.go:1180-1195 | Lists that enumerate the symbols of each length in ascending order are the input that the table builder needs, with a matching histogram |
| `CodeLengths.CodeLengthReader.ProcessSingle` | decode.go:1296-1306 | A literal length is appended to its list, counted, and taken from the space, modulo two to the 64th |
| `CodeLengths.CodeLengthReader.ProcessRepeated` | decode.go:1309-1348 | A repeat code appends the symbols of its run, or fails exactly when the run exceeds the alphabet |
| `CodeLengths.CodeLengthReader.Accept` | decode.go:1180-1195 | The code is accepted if and only if the expanded lengths have Kraft sum one: space that wraps around never comes back to zero |
| `CodeLengths.BuildTable` | decode.go:1180-1195 | From code-length tokens to the table: a complete code yields the table of its canonical code, any other is refused |
| `LengthReader.TokenIsStable` | decode.go:1491-1522 | More input changes nothing about a code-length symbol that is whole, and makes none out of bits that are not one |
| `LengthReader.TokenForms` | decode.go:1474-1490 | Values below 16 are lengths, 16 repeats the previous length with two extra bits, 17 repeats zero with three |
| `LengthReader.ProcessInPieces` | decode.go:1350-1525 | Reading all symbols that are needed from input in two pieces is reading them from both at once |
| `LengthReader.HoistedToken` | decode.go:1369-1463 | From hoisted reader state with enough bits: exactly the symbol that the stream spells, with its extra bits |
| `LengthReader.ReadBatched` | decode.go:1357-1469 | The batched loop, with every load inside the input, processes symbols that the stream spells, hands the reader back at the cursor it has reached, and stops only when all are read or the end of the input is near |
| `LengthReader.FilledToken` | decode.go:1474-1490 | The loop that fills the accumulator consumes exactly the symbol that the stream spells |
| `LengthReader.SafeToken` | decode.go:1491-1522 | The loop that pulls bytes consumes that symbol when it is whole in the accumulator, pulls one byte when it is not, and gives up only when the input does not hold it; until then the cursor stays in front |
| `LengthReader.ReadCarefully` | decode.go:1471-1525 | Any mix of the last two stops exactly where the meaning stops |
| `LengthReader.ReadSymbolCodeLengths` | decode.go:1350-1525 | Whichever loop reads which symbol, the symbols processed and the bits left are those that the stream spells, and more input is asked for exactly when the next symbol needed is not whole |
| `LengthReader.ReadChunks` | reader.go:205-220 | With a suspension before every chunk, the result is that of all input in one piece |
| `LengthCode.Place` | internal/core/huffman.go:106-117 | The place written for a symbol is its index in the canonical order, and no other symbol with a code has it |
| `LengthCode.SortSymbols` | internal/core/huffman.go:90-117 | The counting sort from the last symbol down puts every symbol with a code at its index in the canonical order, and tells whether there is only one |
| `LengthCode.FillCodes` | internal/core/huffman.go:131-143 | Every slot of the 32 holds the symbol whose interval its reversed number lies in |
| `LengthCode.FillSingle` | internal/core/huffman.go:122-129 | All slots hold the single symbol, which takes no bits |
| `LengthCode.CanonicalIsLengthTable` | internal/core/huffman.go:131-143 | Slots that agree on the bits of an entry hold that entry, so the readers can use the table |
| `LengthCode.BuildCodeLengthsHuffmanTable` | internal/core/huffman.go:87-143 | Every slot holds the one symbol whose canonical code its bits start with, or the single symbol |
| `LengthHeader.LengthIsStable` | decode.go:1256-1276 | A length whose code word is whole is the same whatever follows |
| `LengthHeader.SentOrder` | internal/core/constants.go:43-45 | The order in which the lengths are sent, in closed form |
| `LengthHeader.RunningTotals` | decode.go:1278-1281 | The running code space is what the Kraft sum of the lengths leaves, and the running count is the number of codes |
| `LengthHeader.AcceptedExactly` | decode.go:1288-1291 | The test accepts exactly the lengths of a single symbol or of a complete code |
| `LengthHeader.ReadInPieces` | decode.go:1250-1293 | Lengths from input in two pieces are those from both at once |
| `LengthHeader.NextLength` | decode.go:1258-1276 | Consumes a length exactly when its code word is whole, also when fewer than four bits are left |
| `LengthHeader.LengthLoop.Record` | decode.go:1277-1281 | Lengths by symbol and their histogram |
| `LengthHeader.LengthLoop.ReadCodeLengthCodeLengths` | decode.go:1250-1293 | The resumable loop reads the lengths that are there and needed, asks for more exactly when one is missing, and accepts exactly the lengths of a single symbol or of a complete code |
| `LengthHeader.ReadLengthChunks` | decode.go:1250-1293 | With a suspension before every chunk, the result is that of all input in one piece |
| `LengthHeader.ReadComplexCode` | decode.go:1156-1195 | A whole prefix code of section 3.5 from input in any chunks: suspended exactly when the input ends too early, refused exactly when one of its two codes is not complete, and otherwise the table of the canonical code that the bits spell, with the cursor right behind them |
| `RingBuffer.CopyOverlappingPattern` | decode_mem_checked.go:158-169 | The same bytes as a byte-by-byte copy for every distance from one on, nothing before the start, at most 15 bytes behind the end |
| `RingBuffer.CopyChunks` | decode.go:2105-2147 | Fixed-size stores and a final move copy exactly the bytes of the reference, with at most 16 bytes written behind |
| `RingBuffer.SourceByte` | decode.go:2073-2075 | A masked source index inside the window holds the byte the distance refers to |
| `RingBuffer.DirectCopyHolds` | decode.go:2105-2147 | After a copy whose source is wholly behind, the ring holds the extended history |
| `RingBuffer.PatternCopyHolds` | decode.go:2093-2101 | After a pattern copy the ring holds the extended history |
| `RingBuffer.EagerStoreHolds` | decode.go:2077-2086 | Sixteen bytes of garbage at the write position destroy nothing that can be reached |
| `RingBuffer.CopyToEnd` | decode.go:2154-2176 | One part of a wrapping copy extends the history by its bytes and stops at the end of the ring |
| `RingBuffer.WrapHolds` | decode.go:504-508 | Moving the slack to the front starts the next lap with nothing reachable lost |
| `RingBuffer.Ring.CalculateRingBufferSize` | decode.go:741-766 | The wanted size is a power of two that holds what is there and the block, unless it is the window |
| `RingBuffer.Ring.EnsureRingBuffer` | decode.go:768-787 | Growth keeps the history |
| `RingBuffer.Ring.WriteRingBuffer` | decode.go:469-511 | Growth or a flush and a wrap leave the history unchanged, the output a longer prefix of it, and room for the next byte |
| `RingBuffer.Ring.Wrap` | decode.go:498-509 | The flush hands out exactly the bytes up to the end of the lap |
| `RingBuffer.Ring.ConsumeOutput` | decode.go:450-452 | Taken bytes are appended to the output, which stays a prefix of the history |
| `RingBuffer.Ring.UpdateMaxDistance` | decode.go:1985-1987 | The largest distance is the length of the history up to the window less 16 |
| `RingBuffer.Ring.BackwardReference` | decode.go:1985-2194 | A reference is outside the window exactly when it exceeds the largest distance; otherwise the history grows by out[n] = out[n - distance], and the copy stops early only at the end of the ring |
| `RingBuffer.Ring.WrapCopy` | decode.go:2152-2183 | A suspended copy has appended exactly what the remaining count says |
| `RingBuffer.Ring.PendingOutput` | decode.go:442-447 | Pending bytes are the part of the history inside the ring that was not handed out |
| `MetaBlocks.BlockIsExact` | decode.go:409-413 | A block that ends without error has added exactly the bytes it declared, and one that has not ended has added fewer |
| `MetaBlocks.RunIsExact` | decode.go:188-195 | A run that ends without error has added the sum of the declared lengths, and stays within a nonzero limit |
| `MetaBlocks.Decoder.BeginBlock` | decode.go:188-195 | A block is refused exactly when the declared total would pass the limit |
| `MetaBlocks.Decoder.PendingOutput` | decode.go:437-448 | Nothing after a command has run past its block, and never a byte behind the declared length |
| `MetaBlocks.Decoder.WriteOut` | decode.go:354-367 | The ring is written out unless the block was overrun; nothing else changes |
| `MetaBlocks.Decoder.Insert` | decode.go:1735-1901 | Literals are claimed at once and written one by one with any number of suspensions; an error exactly when they pass the block |
| `MetaBlocks.Decoder.AppendWord` | decode.go:2044-2066 | The same for a word of the dictionary |
| `MetaBlocks.Decoder.CopyReference` | decode.go:2067-2193 | The same for a reference, which is whole after any number of suspensions, and refused exactly when it reaches outside the window |
| `MetaBlocks.Decoder.Perform` | decode.go:1735-2193 | Each event ends as its meaning says |
| `MetaBlocks.Decoder.RunBlock` | decode.go:188-413 | A block ends as its meaning says, with the part of the last command that is not needed skipped |
| `MetaBlocks.Decoder.RunBlocks` | decode.go:188-413 | Any run of blocks with any deliveries: the history is what they mean, the output is its prefix and never longer than what was declared |
| `MetaBlocks.DecodeStream` | decode.go:188-413 | The same from a new decoder, whose ring is not sized yet; a stream without error has exactly the declared bytes |
| `Delivery.Server.Decode` | decode.go:437-466 | Whatever the ring writes out waits for the caller in order |
| `Delivery.Server.Begin` | decode.go:188-195 | A block that would pass the limit is refused before anything is written |
| `Delivery.Server.Fail` | reader.go:124-129 | After an error no waiting byte reaches the caller |
| `Delivery.Server.Serve` | reader.go:161-200 | What the caller received is at every moment a prefix of the decoded history, never longer than what was declared or than a nonzero limit; as many bytes are served as fit, wait together, and are within the limit; the check of the limit here never fails, since the declared lengths were checked before |
| `Delivery.Server.ServeWritten` | reader.go:175-184 | Bytes written out come first, none twice |
| `Delivery.Server.ServeRing` | reader.go:191-199 | Then those in the ring |
| `Delivery.Filled` | output_chunks.go:22-31 | Bytes stored behind the data in the last chunk extend it |
| `Delivery.ChunkWriter.Write` | output_chunks.go:22-31 | Appends over as many chunks as needed |
| `Delivery.ChunkWriter.Take` | output_chunks.go:33-44 | Returns exactly what was written, in order |
| `BitReader.FillAgrees` | bitreader.go:107-126 | Filling again over bits that were left above the count changes none of them |
| `BitReader.FillFits` | bitreader.go:107-126 | The same for reader state kept in locals |
| `BitReader.DropFits` | bitreader.go:150-153 | Dropping bits moves the cursor by as many, for state kept in locals |
| `BitReader.Reader.Warmup` | bitreader.go:44-52 | An empty accumulator is cleared and gets a byte if there is one; the cursor stays |
| `BitReader.Reader.Fill` | bitreader.go:107-126 | A load of k bytes that accounts for j of them does not move the cursor |
| `BitReader.Reader.FillBitWindow` | bitreader.go:107-117 | At least 32 bits are there and the cursor stays |
| `BitReader.Reader.Refill64` | bitreader.go:122-126 | At least 56 bits are there and the cursor stays |
| `BitReader.Reader.TakeBits` | bitreader.go:156-160 | The next n bits of the stream and a cursor n further |
| `BitReader.Reader.PullByte` | bitreader.go:178-186 | One byte more if there is one, and the cursor stays |
| `BitReader.Reader.SafeGetBits` | bitreader.go:190-197 | Succeeds exactly when n bits are left |
| `BitReader.Reader.SafeReadBits` | bitreader.go:201-208 | Succeeds exactly when n bits are left, and otherwise leaves the cursor |
| `BitReader.Reader.SafeReadBits32` | bitreader.go:213-235 | The same for two parts, undone when the second fails |
| `BitReader.Reader.Normalize` | bitreader.go:239-243 | Clears what is above the count |
| `BitReader.Reader.Unload` | bitreader.go:247-255 | Whole bytes go back to the input they came from |
| `BitReader.Reader.JumpToByteBoundary` | bitreader.go:260-268 | Moves to the boundary and succeeds exactly when the skipped bits are zero |
| `BitReader.Reader.CopyBytes` | bitreader.go:277-290 | The next whole bytes of the stream, first from the accumulator, then from the input |
| `BitReader.Reader.Feed` | reader.go:205-220 | New input continues the stream behind the unread bits |
| `SymbolReader.SymbolIsStable` | decode.go:2300-2330 | Whether the next code is complete can be told from the bits that are there, and more input changes nothing |
| `SymbolReader.SymbolIsCanonical` | decode.go:2284-2297 | The symbol at the cursor is the one whose canonical code the stream starts with |
| `SymbolReader.ReadSymbol` | decode.go:2284-2297 | With 15 bits in the accumulator, bits left above the count do not disturb the lookup |
| `SymbolReader.SafeReadSymbol` | decode.go:2333-2339 | Succeeds exactly when the whole code is left |
| `SymbolReader.FindCommand` | decode.go:1624-1640 | A remembered command is the one in the table |
| `SymbolReader.FastSymbol` | decode.go:1613-1670 | An index taken before the refill and a second-level index taken after it give the symbol at the cursor |
| `SymbolReader.ReadCommandFast` | decode.go:1613-1695 | The late-refill path reads the command that the stream spells, with every load inside the input |
| `SymbolReader.ReadCommandSafe` | decode.go:1696-1731 | The safe path reads the same command, exactly when it is whole, and otherwise leaves the cursor in front of it |
| `SymbolReader.DecodeLiteralsBatch` | decode_mem_checked.go:109-153 | The literals that the stream spells; two input bytes for each literal and eight more keep every load inside the input |
| `MetaBlockHeader.RunInPieces` | decode.go:586-714 | Input cut anywhere gives the same result and the same rest as input in one piece |
| `MetaBlockHeader.ReadsWritten` | decode.go:586-714 | Every legal header of section 9.2 of RFC 7932 is read as what it means and nothing behind it is consumed |
| `MetaBlockHeader.ParserIsGrammar` | decode.go:586-714 | The parser accepts a header and a rest if and only if a legal form with that meaning stands before that rest |
| `MetaBlockHeader.LengthField` | decode.go:634-651 | All digits of a length at once; a zero top digit is refused exactly when there are more digits than the least |
| `MetaBlockHeader.HeaderParser.ReadField` | decode.go:590-689 | One field moves the parser as the grammar says |
| `MetaBlockHeader.HeaderParser.ReadDigits` | decode.go:634-710 | The loop over digits is the parser's, from any digit it stopped at |
| `MetaBlockHeader.HeaderParser.DecodeMetaBlockLength` | decode.go:586-714 | Stops exactly where the parser as a function stops, with the same fields |
| `MetaBlockHeader.HeaderParser.ParseChunks` | reader.go:205-220 | With a suspension before every chunk, the result and the bits left are those of a single parse of all input |
| `TwoPass.InsertMeans` | internal/encoder/compress_fragment_two_pass.go:722-756 | The word of an insert length has the base and extra bits of that length, and they fit |
| `TwoPass.CopyMeans` | internal/encoder/compress_fragment_two_pass.go:267-281 | The word of a copy length with a distance of its own means that length |
| `TwoPass.ShortLastDistanceMeans` | internal/encoder/compress_fragment_two_pass.go:761-776 | A short match is one word that copies all but the two bytes of the insert before it |
| `TwoPass.LongLastDistanceMeans` | internal/encoder/compress_fragment_two_pass.go:777-803 | A long match is a word for all but two bytes and the word for the last distance |
| `TwoPass.DistanceMeans` | internal/encoder/compress_fragment_two_pass.go:809-819 | The word of a distance means that distance |
| `TwoPass.PlayMatch` | internal/encoder/compress_fragment_two_pass.go:206-244 | Insert, distance and copy words replay to the literals and the whole match |
| `TwoPass.PlayRepeat` | internal/encoder/compress_fragment_two_pass.go:257-285 | The words of a following match replay to it |
| `TwoPass.PlayLast` | internal/encoder/compress_fragment_two_pass.go:299-306 | The last insert replays to the rest of the block |
| `TwoPass.Emitter.Put` | internal/encoder/compress_fragment_two_pass.go:214-221 | The running histogram counts the words written |
| `TwoPass.Emitter.PutMatch` | internal/encoder/compress_fragment_two_pass.go:211-244 | The words and literals of a match, after the fixed-size literal store |
| `TwoPass.FirstPass.FindMatch` | internal/encoder/compress_fragment_two_pass.go:468-541 | Finds the first position of the schedule, whose steps grow by one every 32 steps, at which the bytes at the last distance or those in the table match within the window; finds nothing only if there is none; the table holds all positions looked at |
| `TwoPass.FirstPass.UpdateHashTable` | internal/encoder/compress_fragment_two_pass.go:549-579 | Enters the positions at the end of the match, whatever the hash function, and returns what the table then holds for the next position |
| `TwoPass.FirstPass.MatchLength` | internal/encoder/compress_fragment_two_pass.go:207-209 | The match repeats the bytes at its distance, up to the end of the block or the first byte that differs |
| `TwoPass.FirstPass.FollowMatches` | internal/encoder/compress_fragment_two_pass.go:246-293 | Takes matches as long as there is one right behind the last |
| `TwoPass.FirstPass.Scan` | internal/encoder/compress_fragment_two_pass.go:186-297 | The matches are exactly those that the rules give: the one right behind a match if there is one, else the first that the scan finds, each as long as it can be, up to the limit |
| `TwoPass.FirstPass.InsertOnly` | internal/encoder/compress_fragment_two_pass.go:173-196 | A block that comes out as a single insert is short, or has no match at any position of the scan |
| `TwoPass.FirstPass.CreateCommands` | internal/encoder/compress_fragment_two_pass.go:154-308 | The words and literals are those of the matches that the rules give, with an insert of the rest. Replaying them gives exactly the block, neither exceeds the number of its bytes, and the histogram counts the words, whatever positions up to the start of the block the hash table holds |
| `TwoPass.FirstPass.CreateBlocks` | internal/encoder/compress_fragment_two_pass.go:106-132 | Every block is parsed so with the table that the one before left, and replaying all blocks gives the fragment |
| `Cluster.MergeSums` | internal/encoder/cluster.go:175-190 | Redirecting one cluster's inputs to another adds their histograms and sizes |
| `Cluster.SumCounts` | internal/encoder/cluster.go:175-178 | A cluster counts each symbol as often as its inputs together |
| `Cluster.ExactMerge` | internal/encoder/cluster.go:175-190 | A merge keeps every cluster the exact sum of its inputs, with its total, cost and size |
| `Cluster.ListsMerge` | internal/encoder/cluster.go:185-199 | Removing the merged cluster leaves each cluster in use listed once |
| `Cluster.BestGrows` | internal/encoder/cluster.go:120-132 | The front of the queue stays its best pair |
| `Cluster.RoomLeft` | internal/encoder/cluster.go:126-131 | While a pair of the list has not been offered, the queue holds fewer than all pairs |
| `Cluster.Dropped` | internal/encoder/cluster.go:201-218 | After the pairs of the merged clusters are gone, exactly the pairs of the new cluster are still to be offered |
| `Cluster.FrontIsBest` | internal/encoder/cluster.go:165-169 | The front of a queue that has been offered all pairs is the best of all, with ties won by the nearer names; if it saves nothing, no pair does |
| `Cluster.PairsOfAllFit` | internal/encoder/cluster.go:444-450 | The queue of the second pass can hold all pairs if and only if there are at most 129 clusters |
| `Cluster.Clusterer.Push` | internal/encoder/cluster.go:75-133 | A queued pair has current costs, the first pair is always queued, and the front is then no worse than the pair offered or than the front before |
| `Cluster.Clusterer.PushAll` | internal/encoder/cluster.go:155-163 | After the first round the front is the best of all pairs |
| `Cluster.Clusterer.Insert` | internal/encoder/cluster.go:120-132 | A new pair is queued with the best pair still in front |
| `Cluster.Clusterer.DropPairs` | internal/encoder/cluster.go:201-218 | In place, exactly the pairs that do not meet the merged one stay, with the best of them in front |
| `Cluster.Clusterer.MergeBest` | internal/encoder/cluster.go:171-199 | One merge keeps sums, lists and the inputs outside the range |
| `Cluster.Clusterer.Combine` | internal/encoder/cluster.go:142-229 | Terminates with at most maxClusters clusters, each exact, for every cost function within its bounds. Every merge saves cost or is made while there are too many clusters, and is no worse than any pair of the cluster merged before. If the queue can hold all pairs, every saving merge is the best of all pairs, one that saves nothing is made only if none does, and at the end no merge saves cost unless such merges were needed to reach the limit |
| `Cluster.Clusterer.Reassign` | internal/encoder/cluster.go:261-287 | Every input ends in a cluster that costs least for it: that of the input before if it is one, else the first in the list |
| `Cluster.Clusterer.Recompute` | internal/encoder/cluster.go:289-306 | Every cluster is again the sum of its inputs |
| `Cluster.Clusterer.Reindex` | internal/encoder/cluster.go:316-369 | Consecutive numbers in the order of first use, inputs together exactly as before, histograms unchanged |
| `Cluster.Clusterer.CombineBatches` | internal/encoder/cluster.go:426-442 | Batches of 64 inputs are each merged greedily with room for all pairs, and their results make one list |
| `Cluster.Clusterer.ClusterHistograms` | internal/encoder/cluster.go:387-467 | At most maxHistograms outputs, each the sum of the inputs mapped to it, numbered in the order of first use; they come from greedy merging of the batches and of their results, after which every input is moved to its cheapest cluster |
| `Cluster.FewNames` | internal/encoder/cluster.go:329-335 | There are no more numbers than clusters |
| `Splitter.OwnedGrows` | internal/encoder/block_split.go:275-325 | When a type takes a block its counts grow by the block's symbols, and no other counts change |
| `Splitter.OwnedCounts` | internal/encoder/block_split.go:228-230 | The histogram of a type holds how often each symbol occurs in its blocks |
| `Splitter.DifferencesAre` | internal/encoder/block_split.go:258-273 | The cached entropies of the last two types give the differences computed from the stream alone |
| `Splitter.NewTypeSplits` | internal/encoder/block_split.go:276-295 | A new type keeps blocks, histograms and the memory of the last two types right |
| `Splitter.MergeSecondSplits` | internal/encoder/block_split.go:296-309 | So does a block with the second last type, given two blocks |
| `Splitter.MergeLastSplits` | internal/encoder/block_split.go:310-324 | So does a longer last block |
| `Splitter.Room` | internal/encoder/block_split.go:131-134 | The arrays always have room for one more block and one more type |
| `Splitter.BlockSplitter.AddSymbol` | internal/encoder/block_split.go:228-234 | After every symbol the blocks are those of the greedy plan for all symbols so far, and every symbol is counted by the type that owns it or by the current histogram |
| `Splitter.BlockSplitter.FinishBlock` | internal/encoder/block_split.go:237-333 | Whatever the entropy function: a new type if one is left and joining either of the last two blocks costs more than the threshold, else the second last block's type if that is better by more than 20 bits, else a longer last block, with the target size that follows |
| `Splitter.BlockSplitter.Finish` | internal/encoder/block_split.go:328-332 | The blocks are those of the plan and cover the stream, only the last reaches beyond it, and each type's histogram counts exactly the symbols in its blocks |
| `ContextMap.MtfRoundTrip` | decode.go:1056-1072 | The inverse transform undoes move to front |
| `ContextMap.PositionIsAhead` | decode.go:1056-1072 | In a list ordered by recency the position of a value is the number of values that come before it |
| `ContextMap.MtfMeans` | internal/encoder/bitwriter.go:609-640 | The transform gives the number of values that come before each value |
| `ContextMap.UnmtfMeans` | decode.go:1056-1072 | The inverse gives the values that so many others come before |
| `ContextMap.MoveToFrontTransform` | internal/encoder/bitwriter.go:609-640 | In place, each value becomes the number of values that come before it, whatever list size the largest value gives: values seen come before others, the latest first, and those not seen in ascending order |
| `ContextMap.InverseMoveToFrontTransform` | decode.go:1056-1072 | In place, each number becomes the value that so many values come before, in the same order |
| `ContextMap.LongestRun` | internal/encoder/bitwriter.go:653-667 | The length of the longest zero run |
| `ContextMap.RunLengthCodeZeros` | internal/encoder/bitwriter.go:651-709 | In place and without overwriting unread input, words that expand to the values, as few as possible; extra bits fit; the largest run symbol is the binary logarithm of the longest run, at most six |
| `ContextMap.FewestWords` | internal/encoder/bitwriter.go:678-706 | No words with the same largest run symbol that expand to the same values are fewer |
| `ContextMap.DecodeSymbols` | decode.go:996-1033 | Fills the map with the expansion, or fails exactly when a run goes past its end |
| `ContextMap.RoundTrip` | decode.go:942-1053 | Every map with values below 256 comes back |
| `ContextMap.StoreTrivialContextMap` | internal/encoder/block_encoder.go:234-273 | The words of the trivial map |
| `ContextMap.TrivialMapDecodes` | internal/encoder/block_encoder.go:234-273 | They decode to the block type in every context, for any number of types |
| `Distance.DistanceCodeInverts` | internal/encoder/command.go:203-216 | The encoder's inverse gives every distance code back, for all parameters |
| `Distance.PrefixRoundTrip` | internal/encoder/command.go:327-346 | The decoder's table gives every distance back, and the extra bits fit the width it reads |
| `Distance.InAlphabet` | internal/encoder/distance_params.go:27-39 | A distance has a symbol of the alphabet if and only if it is at most the largest distance |
| `Distance.CalculateDistanceLut` | decode.go:1529-1572 | The table holds the extra bits and offsets of section 4 of RFC 7932 for every symbol |
| `Distance.RecomputeDistancePrefixes` | internal/encoder/distance_params.go:48-65 | Re-encoding a command list in place keeps every distance code and touches nothing else |
| `DistanceCache.Tables` | internal/encoder/encoder.go:1509-1512 | The packed constants hold the short codes whose offsets they are indexed by |
| `DistanceCache.CodeMeans` | internal/encoder/encoder.go:1499-1520 | Every code means the distance it was computed for; zero only means the latest distance |
| `DistanceCache.CodeIsPreferred` | internal/encoder/encoder.go:1499-1520 | A distance in the window gets a short code whenever one means it: the last two distances before those near them, and the third and fourth last |
| `DistanceCache.Encoder.Encode` | internal/encoder/hash3u16.go:304-311 | The code is the preferred one, and the cache takes exactly the in-window distances whose code is not zero |
| `DistanceCache.Decoder.Implicit` | decode.go:1903-1912 | A command without a distance uses the latest one |
| `DistanceCache.Decoder.TakeDistanceFromRingBuffer` | decode.go:2248-2268 | A short code gives the distance it means, or the largest integer if that is not positive |
| `DistanceCache.Decoder.Decode` | decode.go:2031-2069 | Implicit, short and table symbols, with any postfix bits and direct codes, give the distance they stand for; the ring takes exactly the in-window distances whose code is not zero |
| `DistanceCache.PrefixKeepsMeaning` | internal/encoder/command.go:327-346 | Prefix coding keeps what a code means, for all parameters, and which code repeats the latest distance |
| `DistanceCache.Transmit` | decode.go:2031-2069 | One reference through both sides is decoded as meant and leaves them with the same four distances |
| `DistanceCache.RunReferences` | decode.go:2031-2069 | Over any run of references every distance is decoded as meant, and after each of them the encoder's cache and the decoder's ring are the last four distances that entered |
| `FastWriter.CutMore` | internal/encoder/fast_compressor.go:62-89 | More input only touches the tail |
| `FastWriter.CutIsFull` | internal/encoder/fast_compressor.go:62-89 | Every fragment cut off is full, and fragments and tail make up the input |
| `FastWriter.PackBits` | internal/encoder/fast_compressor.go:214-225 | Whole bytes written hold exactly the bits produced |
| `FastWriter.Writer.Write` | internal/encoder/fast_compressor.go:62-89 | The fragments emitted depend only on the input since the last flush and not on how it was cut, and so do the bits, each fragment's compressed with the bits and fragments before it in view |
| `FastWriter.Writer.Flush` | internal/encoder/fast_compressor.go:100-108 | All input is emitted, in full fragments and a last one, and the stream ends on a byte boundary |
| `FastWriter.Writer.Close` | internal/encoder/fast_compressor.go:112-118 | The tail is emitted as the last fragment, and the bytes written hold the whole stream with no bit left over |
| `FastWriter.Writer.EmitFragment` | internal/encoder/fast_compressor.go:163-227 | Carried bits, the header before the first fragment and new bits continue one bit stream |
| `FastWriter.StreamNext` | internal/encoder/fast_compressor.go:163-227 | The stream of fragments grows by what the compressor adds to it |
| `FastWriter.Writer.PadToByteBoundary` | internal/encoder/fast_compressor.go:237-250 | The carry is followed by an empty metadata block and zeros up to the boundary |
| `FastWriter.SealReads` | decode.go:619-689 | The header parser reads the seal as an empty metadata block |

## Left out

- FindBlocks.FindBlocks: requires that for every symbol some histogram's insertion cost plus a switch stays below the sentinel 1e99 with which the source starts its minimum; costs made of logarithms of 32-bit counts are far below it.
- TreeHasher.H10.StoreAndFindMatches: positions index one flat byte sequence and the forest has its full size, so the several laps of the input ring, the growth of the forest and the wrap-around of 32-bit positions are not modelled.
- HuffmanTable.BuildHuffmanTable: the storage is two arrays of exact size.
- SimpleCodes.BuildSimpleHuffmanTable: requires the symbols to be different and below the size of the alphabet, which their reader (decode.go:1205-1245) checks; that reader is not modelled.
- CodeLengths.BuildTable: requires room for the table; the largest table sizes by alphabet that the source allocates are not derived.
- LengthReader.ReadBatched: the two processing steps that the loop repeats inline are the calls, and the symbol counter is the field.
- LengthHeader.ReadComplexCode: the two bits before it, which choose the form and the lengths skipped, are a parameter.
- Cluster.Clusterer.Combine: requires maxClusters to be at least one, as every caller passes. Costs are required to be non-negative and below 1e99, and the size term not positive. When the queue has no room for all pairs the source drops some, and the best merge of all is not promised then.
- Cluster.Clusterer.ClusterHistograms: requires maxHistograms to be at least one, as every caller passes.
- MetaBlocks.Decoder.AppendWord: the word is given; static dictionary addressing and transforms are not part of this model.
- MetaBlocks.Decoder.Insert: the bytes of an uncompressed block are one insert.
- DistanceCache.Decoder.Decode: references into a compound dictionary are not modelled.
- ContextMap.StoreTrivialContextMap: gives the symbol words only, without the header, the prefix code and the transform bit around them.
- FastWriter.Writer.Write: the compressor is a parameter, any function of the bits and fragments before, the fragment and whether it is the last, of which only is required that the last fragment ends on a byte boundary.
- SymbolReader.DecodeLiteralsBatch: the context lookup is a parameter; the batch without contexts is the case of one table.
- TwoPass.FirstPass.CreateCommands: the small look-up tables for words, the generated 17-bit copy and the unrolled loop for six bytes are the same words and the same steps; table entries must lie at or before the start of the block, which clearing the table for each fragment ensures.
- Splitter.BlockSplitter.FinishBlock: covers the variant with contexts when a histogram stands for all contexts of a type; the flat arrays of that variant are not modelled.
- The second pass of quality 1, quality 0, the other hashers, Zopfli, and the construction of Huffman trees.
- Block-type switches, context modes and the main command loop around the pieces modelled here.
- The io.Reader and io.Writer plumbing, error propagation in it, buffer pools and worker goroutines.
- remapBlockIDs, clusterBlocks and the refinement of entropy codes in the q10 block splitter.
- Fast logarithm tables and floating-point rounding.

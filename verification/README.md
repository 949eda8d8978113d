# brutli, verified

A Dafny model of brutli, an encoder and decoder for the Brotli format (RFC 7932), with proofs that the two
sides fit together. The encoder builds codes, parses and block structure with loops over arrays; the decoder
rebuilds them bit by bit and may stop at any missing bit or full output. What is proved connects the two, up to
the whole: what the encoder's streams decompress to is what they were made from.

`dafny verify dfyconfig.toml` checks everything.

How it is laid out, one module a file:

- `Arithmetic`, `Bytes`, `BitStream`, `Outcomes`: numbers, byte strings, bits in stream order, results.
- `HuffmanTree`, `HuffmanOptimality`, `HuffmanMerge`, `HuffmanSort`, `HuffmanBuilder`, `HuffmanDepths`,
  `HuffmanLengths`, `LengthLimitedCode`, `Kraft`: the length-limited code builder and its optimality.
- `CanonicalCode`, `CanonicalTables`, `PrefixReading`: canonical codewords, the decoder's tables and search.
- `CodeLengthTokens`, `ComplexPrefixFormat`, `ComplexPrefixEncoder`, `ComplexPrefixDecoder`,
  `ComplexPrefixMachine`, `ComplexPrefixCodeReading`, `ComplexPrefixRoundTrip`, `SimplePrefixCode`,
  `PrefixEncodings`, `PrefixCodeReading`: both wire forms of a prefix code.
- `SearchTree`, `HashTree`, `MatchDistances`: the binary-tree match finder, as a tree and as arrays, and the order of
  what it reports.
- `HistoryRing`, `Dictionary`, `Distances`, `Commands`, `BlockStates`, `BlockMachine`, `CompressedBlock`: the
  command-executing decoder.
- `BlockSplitting`, `BlockCursors`, `SplitStreams`, `SplitRoundTrip`, `SplitBody`, `SplitMetablock`, `ContextMaps`,
  `ContextMapWire`: block splitting, the commands of a split metablock, and context maps.
- `DictionaryMatches`: which words of the static dictionary, transformed, stand at a position.
- `CommandStream`, `CommandEmission`, `MetablockStart`: commands as bits, their streams, counts and codes, and the
  header and trees in front of them.
- `FragmentParse`, `FragmentEmission`, `FragmentEncoder`, `FragmentStream`: qualities 0 and 1.
- `MatchFinder`, `GreedyParse`, `MatchIndex`, `MatchCompaction`, `HashedMatchFinder`, `GreedyEmission`,
  `GreedyStream`: the greedy qualities, compaction and the incremental encoder. `MatchFinder` and `GreedyParse`
  say what `HashedMatchFinder` computes in place.
- `BitPacking`, `MetablockHeaders`: the encoder's bit writer, the decoder's bit reader, headers.
- `DecoderMachine`, `DecoderRuns`, `DecoderRounds`, `StreamDecoder`, `Decompression`: the decoder of whole streams,
  as a machine of single steps and as the objects that refine it.
- `MetablockReading`, `HeaderParser`, `StreamRoundTrip`, `GreedyRoundTrip`, `FragmentRoundTrip`,
  `IncrementalRoundTrip`, `SingleTrees`, `CompressedRuns`: the streams of every encoder in front of the decoder.

Conventions. Bits are `seq<bool>`; a reader of part of a stream is handed what is available so far, and what a call
leaves is handed to the next call again. Machine integers are naturals with explicit bounds where the source relies
on them (32-bit populations, 16-bit codes and bucket counts, 64-bit pending words and hash products). Objects the
source updates in place are classes; entropy estimates, merge decisions and the dictionary's words are function
parameters, any functions at all. The decoder's parser of a metablock's header and trees is given as a function of
the bits it has read; the round trips ask of it that it reads what `MetablockStart.WriteStart` writes, which
`MetablockStart.ReadStart` shows the decoder's readers to do, and `HeaderParser.ParserExists` that there is one.

Four things the proofs turned up. `ComplexPrefixCodeDecoder::finish` cannot return its errors for too few
symbols or an invalid tree: the space check has excluded them. `SimplePrefixCodeDecoder::finish` cannot return
an invalid tree either. The distances that `find_all_matches` reports need not grow, as its documentation says they
do: they grow exactly when the dictionary addresses kept never fall with the length (`MatchDistances.GrowthIsOrder`),
always when there is no room for two words (`LittleRoomGrows`), and for some words they fall as soon as there is
(`MoreRoomFalls`). And `StreamEncoder::finish` never needs
its terminating empty metablock for the greedy qualities: a byte is always pending once a chunk has gone out.

## Model

| member | source | states |
|---|---|---|
| HuffmanSort.SortHuffmanNodes | src/encode/prefix_code.rs:252-278 | The in-place sort (insertion below 13 nodes, shell passes with the table's gaps from there on, starting at the third gap below 57) leaves a permutation of the nodes in order of count, larger symbols first among equals. |
| HuffmanBuilder.TakeSmallestNode | src/encode/prefix_code.rs:227-245 | The node taken is the front of the leaf queue or of the parent queue, the one with the smaller count, a leaf on a tie, and only its cursor moves. |
| HuffmanBuilder.MergeNodes | src/encode/prefix_code.rs:159-187 | The two-queue merge ends in one tree over exactly the given leaves; every merge pays the greedy cost, children are never heavier than later nodes, and no sum leaves 32 bits. |
| HuffmanMerge.StepPaysGreedily | src/encode/prefix_code.rs:171-187 | One merge step takes the two lightest weights of everything pending, so the cost still to pay drops by exactly their sum. |
| HuffmanMerge.StepKeepsReady | src/encode/prefix_code.rs:171-187 | Both queues stay sorted, with a new parent at least as heavy as all parents before it. |
| HuffmanDepths.SetHuffmanDepths | src/encode/prefix_code.rs:192-225 | The depth walk with its explicit stack succeeds exactly when the tree is no taller than the limit, and then every leaf's symbol has its depth as length. |
| HuffmanOptimality.LowerBound | src/encode/prefix_code.rs:159-187 | Any lengths that fit the code space cost at least what greedy merging costs (by exchange, for every list of weights and every limit). |
| HuffmanTree.TallTreesAreHeavy | src/encode/prefix_code.rs:140-190 | A merged tree of height h weighs at least Fib(h+2) times the smallest leaf, which is what bounds the retries. |
| HuffmanLengths.BuildNodes | src/encode/prefix_code.rs:148-187 | One pass over a histogram collects, sorts and merges a tree for exactly the raised counts of the symbols that occur. |
| LengthLimitedCode.TooTallIsEarly | src/encode/prefix_code.rs:140-190 | A tree too tall for the limit means that the counts have been raised little: the raised minimum times the alphabet's slack is at most the total. |
| LengthLimitedCode.HuffmanCodeLengthsWithLimit | src/encode/prefix_code.rs:140-190 | For every histogram of a supported alphabet the retry loop ends, no 32-bit sum overflows, lengths are within the limit, nonzero exactly on the symbols that occur, fill the code space exactly when there are two or more, and are minimal for the counts they were built from; the counts were raised only if the tree before was too tall. |
| Kraft.KraftInequality | src/encode/prefix_code.rs:690-720 | Any prefix code whatsoever takes no more than the whole code space. |
| Kraft.MinimalAmongPrefixCodes | src/encode/prefix_code.rs:690-720 | So minimal lengths cost no more than any prefix code on the symbols that occur, not just any list of lengths: the optimality the repository checks on small histograms, for all of them. |
| Kraft.CanonicalIsPrefixCode | src/encode/prefix_code.rs:604-632 | The canonical codewords are themselves such a prefix code, with exactly the given lengths. |
| CanonicalTables.CanonicalCodes | src/encode/prefix_code.rs:604-632 | The encoder's table has exactly the canonical codeword of every symbol with a length and none for the others, and no code leaves 16 bits. |
| CanonicalCode.PrefixFree | src/encode/prefix_code.rs:604-632 | No canonical codeword starts another. |
| CanonicalCode.EndIsSpace | src/decode/prefix_code.rs:63-132 | The codewords up to a length end exactly where the space used up to that length does. |
| CanonicalTables.FromCodeLengths | src/decode/prefix_code.rs:63-132 | The decoder builds its count, first-code and symbol tables exactly for complete lengths; each of the four errors is returned exactly in its case. |
| CanonicalTables.PrefixSymbolDecoder.Decode | src/decode/prefix_code.rs:134-159 | Bit by bit and across calls: a symbol is returned exactly when pending and new bits start with its codeword, with exactly those bits taken; otherwise fewer bits than the longest length are pending. |
| ComplexPrefixDecoder.MakePrefixCode | src/decode/prefix_code.rs:19-38 | A lone symbol makes a code that needs no bits, more need complete lengths, and nothing else makes a code. |
| PrefixReading.SymbolRoundTrip | src/encode/prefix_code.rs:124-128 | For every set of lengths with a code, reading what the encoder writes for a symbol returns the symbol and leaves exactly the bits behind it. |
| CodeLengthTokens.TokensRoundTrip | src/encode/prefix_code.rs:405-546 | Run tokens (chained base 4 and base 8 digits, either use of runs) read back give exactly the lengths, and the decoder's space reaches zero exactly at the last token. |
| CodeLengthTokens.ChainAdvances | src/decode/complex_prefix_code.rs:166-211 | A chain of repeat tokens of any length extends the decoder's lengths by exactly the run, digit by digit, without ever overstepping space or alphabet. |
| ComplexPrefixEncoder.TokenizeCodeLengths | src/encode/prefix_code.rs:405-469 | The tokenizer's loop, with its decision when runs pay, produces the tokens of the lengths up to the last one used. |
| ComplexPrefixEncoder.WriteRepetitions | src/encode/prefix_code.rs:471-514 | Tokens pushed in reverse and turned around are the run's tokens, including the special case of seven. |
| ComplexPrefixEncoder.WriteZeroRepetitions | src/encode/prefix_code.rs:516-546 | The same for zeros, including the special case of eleven. |
| ComplexPrefixEncoder.MakeCodeLengthCode | src/encode/prefix_code.rs:548-569 | The code for the token symbols has lengths up to five exactly on the tokens used and is a code the format can carry. |
| ComplexPrefixEncoder.WriteComplexPrefixCode | src/encode/prefix_code.rs:376-402 | What is written for a complete code is the skip, the code-length code in its storage order, and the coded tokens that read back as the lengths. |
| ComplexPrefixDecoder.CodeLengthValueDecoder.Decode | src/decode/complex_prefix_code.rs:239-286 | The fixed code of code-length values is decoded across any split of its bits. |
| ComplexPrefixCodeReading.ComplexPrefixCodeDecoder.PushMany | src/decode/complex_prefix_code.rs:166-211 | A repeat token in place does what the token semantics says, with the same errors. |
| ComplexPrefixCodeReading.ComplexPrefixCodeDecoder.Finish | src/decode/complex_prefix_code.rs:228-236 | When the space is used up, the lengths are complete and at least two: the source's errors for too few symbols and an invalid tree cannot occur here. |
| ComplexPrefixCodeReading.ComplexPrefixCodeDecoder.Decode | src/decode/complex_prefix_code.rs:76-151 | For any split of any input: no call fails on what an encoder may write, a call stops only short of bits, and when it finishes the lengths are those written, the code is one for them, and the bits behind are untouched. |
| ComplexPrefixRoundTrip.WriteThenRead | src/encode/prefix_code.rs:376-402 | What is written for any complete code is a complex form of it, and reading that with any bits behind, cut anywhere in two, gives the same lengths and leaves exactly the bits behind. |
| ComplexPrefixRoundTrip.SameLengths | src/encode/prefix_code.rs:376-402 | A complex form can be one of no other lengths of the same alphabet, whatever follows it: every token is determined by the bits, and the tokens by the lengths. |
| SimplePrefixCode.SimpleCodesAreCanonical | src/encode/prefix_code.rs:361-374 | The fixed codewords of listed symbols are the canonical codewords for the lengths the decoder assumes. |
| SimplePrefixCode.SimpleIsCode | src/decode/simple_prefix_code.rs:112-135 | Any two to four distinct symbols with either tree shape make a complete code, so the reader's invalid-tree error cannot occur. |
| SimplePrefixCode.ReadsOn | src/decode/simple_prefix_code.rs:60-110 | Bits that come later are as good as bits that come at once, in every state and for errors too. |
| SimplePrefixCode.SimpleRoundTrip | src/encode/prefix_code.rs:330-350 | Listed symbols are read back in order, and no bit more is taken. |
| SimplePrefixCode.SimplePrefixCodeDecoder.Decode | src/decode/simple_prefix_code.rs:60-110 | The resumable reader does exactly the reading above: same stops, same errors for symbols outside the alphabet or listed twice, and a code for the listed symbols' lengths. |
| PrefixEncodings.FromFrequencies | src/encode/prefix_code.rs:54-93 | A histogram has a code exactly when some symbol occurs; exactly the symbols that occur have codewords, and they are the ones the decoder will read. Up to four symbols are listed as they come; with more, the lengths are minimal for the counts themselves if a tree for them is not too tall, and if it is, for counts raised no more than the first tree that fits needs. |
| PrefixCodeReading.PrefixCodeDecoder.Decode | src/decode/prefix_code_decoder.rs:52-95 | The resumable reader of both forms, called with whatever bits have come: it asks for more only if more are due, never rejects what an encoder may write, and ends with a code for exactly the encoder's lengths, the bits behind untouched. |
| PrefixCodeReading.ReadTree | src/decode/prefix_code_decoder.rs:52-95 | From its first two bits the reader selects the form the code was written in, simple or complex, ends with a code for the encoder's lengths, and leaves exactly the bits behind. |
| PrefixCodeReading.OneTree | src/encode/prefix_code.rs:111-122 | No bits are a form of two codes: if what is written for one code starts what is written for another, with anything behind either, the lengths are the same, and so are the bits. |
| Bytes.MatchLength | src/encode/hash_tree.rs:352-371 | The word-wise comparison (little-endian words, exclusive or, trailing zeros) is the number of equal bytes, up to the limit. |
| SearchTree.RerootInvariant | src/encode/hash_tree.rs:145-225 | Re-rooting by the split keeps the tree a search tree on 128-byte strings and a heap on positions. |
| SearchTree.SplitKeepsPositions | src/encode/hash_tree.rs:145-225 | The split loses no position but one with the same 128 bytes, if nothing is too old and the depth suffices. |
| SearchTree.Sandwich | src/encode/hash_tree.rs:188-196 | What lies between two strings that agree with the key in n bytes agrees with it in n bytes: why skipping them is right. |
| HashTree.SkippedBytesAgree | src/encode/hash_tree.rs:188-196 | At every node of the walk the skipped bytes, the shorter of the best lengths on both sides, are equal in fact. |
| SearchTree.MatchesProgressive | src/encode/hash_tree.rs:145-225 | Every reported match is a true copy over its full length within the limit, and lengths and distances both strictly increase. |
| SearchTree.MatchesCover | src/encode/hash_tree.rs:145-225 | Within the depth, every node is covered by a report at least as long and at least as near. |
| HashTree.WalkSplits | src/encode/hash_tree.rs:145-225 | The in-place rewriting of child slots in the circular array leaves exactly the two trees of the functional split. |
| HashTree.OtherBucketStored | src/encode/hash_tree.rs:145-225 | No other bucket's tree changes, except for nodes that leave the window. |
| HashTree.HashTree.StoreAndFind | src/encode/hash_tree.rs:145-225 | On arrays: the matches are those of the functional walk, appended to what was there; with a whole comparison window the bucket is re-rooted and all buckets stay valid; without one nothing changes. |
| HashTree.OutcomeIsSound | src/encode/hash_tree.rs:145-225 | So each call reports only true copies within the backward limit, in strictly increasing length and distance. |
| HashTree.OutcomeIsComplete | src/encode/hash_tree.rs:145-225 | And misses no node of the bucket while none is too old and the depth suffices. |
| HashTree.StoredIsConservative | src/encode/hash_tree.rs:145-225 | Storing adds the position and loses only one with the same 128 bytes, under the same conditions. |
| HashTree.HashTree.Store | src/encode/hash_tree.rs:306-315 | Storing is finding without keeping the matches. |
| HashTree.HashTree.FindAllMatches | src/encode/hash_tree.rs:232-301 | The short scan, the tree and the dictionary search together: all copies are true and progressive, and behind them come exactly the entries of the dictionary search's table from the first length they may have, each of which the decoder's address split and transform decode to the bytes it covers. |
| MatchDistances.GrowthIsOrder | src/encode/hash_tree.rs:227-301 | All that is reported together grows in distance, as documented, if and only if the addresses of the words kept never fall as their length grows; the copies alone always do, and no word is nearer than a copy. |
| MatchDistances.LittleRoomGrows | src/encode/hash_tree.rs:227-301 | It grows whenever the limit leaves the dictionary at most one distance, or what is left of the input has no room for words of two lengths: what a caller can tell from the arguments. |
| MatchDistances.MoreRoomFalls | src/encode/hash_tree.rs:227-301 | No wider condition of that kind will do: with any more room, at the bytes timex, a dictionary whose second word of four letters is time and whose first of five is timex makes the distances fall. |
| HistoryRing.PeriodicIsCopy | src/decode/history.rs:84-111 | A byte sequence in which every new byte repeats the one a distance before is the byte-by-byte copy, and only that. |
| HistoryRing.DoublingKeepsPeriod | src/decode/history.rs:96-107 | Doubling a prefix that is a multiple of the distance keeps the period. |
| HistoryRing.History.Push | src/decode/history.rs:42-54 | One byte more in the flat history, across growth and wraps, with the two context bytes. |
| HistoryRing.History.PushSlice | src/decode/history.rs:56-82 | Any number of bytes more, across any number of wraps. |
| HistoryRing.History.CopyHistoryPrefix | src/decode/history.rs:113-131 | Reading across the wrap gives the flat history's bytes. |
| HistoryRing.History.CopyInto | src/decode/history.rs:84-111 | The doubling copy is the byte-by-byte overlapping copy, into output and history alike, as far as there is room; an error exactly for a distance of zero or beyond the window and the bytes written. |
| Dictionary.WordInside | src/dictionary.rs:56-72 | Every addressable word lies inside the packed dictionary. |
| Dictionary.KeptLength | src/dictionary.rs:99-137 | A transform drops at most nine bytes of a word, the first one none. |
| Dictionary.EmptyMeansFar | src/dictionary.rs:74-97 | A transform's result can be empty only beyond 1024 past the backward limit: no distance that is read without extra bits gets there. |
| Distances.RingRoundTrip | src/encode/distance.rs:33-58 | A ring code names the distance it was chosen for. |
| Distances.BucketRoundTrip | src/encode/distance.rs:138-171 | Bucket, prefix, postfix and extra bits of any distance are undone by the decoder's formula, for any direct codes and postfix bits. |
| Distances.AlphabetCovers | src/encode/distance.rs:161-164 | The encoder's assertion holds exactly below the distance cap. |
| Distances.DistanceRoundTrip | src/decode/distance.rs:88-160 | For all settings and all distances below the cap, the decoder gets the encoder's distance and pushes it exactly when the encoder does. |
| Distances.NamedRoundTrip | src/decode/distance.rs:36-126 | Whatever ring, direct codes and postfix bits: from any code that names a distance the decoder gets that distance, and pushes it, newest in front, exactly when the code is not zero, which is when the encoder pushes it too. |
| Distances.NearWithoutExtraBits | src/decode/distance.rs:88-126 | A distance read without extra bits is at most a direct code or three past the farthest remembered one. |
| Commands.RangesMeet | src/encode/command.rs:94-109 | The ranges of successive length codes meet without gap or overlap. |
| Commands.SymbolRoundTrip | src/decode/command.rs:99-128 | The decoder recovers both length codes from every joint symbol, and the implicit distance exactly when the encoder could leave it out. |
| Commands.ImplicitBelow128 | src/encode/command.rs:80-82 | The encoder writes a distance exactly when the decoder reads one. |
| BlockMachine.StepKeeps | src/decode/compressed_block.rs:127-325 | Every step keeps copies within reach, lengths within the metablock and the ring within range, and takes bits, writes a byte or lowers a rank: why every call ends, single-symbol trees and empty words included. |
| BlockMachine.Run | src/decode/compressed_block.rs:116-325 | A call as a terminating run of steps over any input and any room. |
| BlockMachine.RunContinues | src/decode/compressed_block.rs:116-325 | With more input and more room at once the machine does the same and goes on from where it would have stopped. |
| BlockMachine.FeedContinues | src/decode/compressed_block.rs:116-325 | Any sequence of calls, however input and output are cut, passes through the states of the one call with everything. |
| BlockMachine.SlicesAgree | src/decode/compressed_block.rs:116-325 | Calls that end the metablock or fail agree with the single call: same bytes, same state, same outcome, same bits left. |
| BlockMachine.RunWrites | src/decode/compressed_block.rs:116-325 | A call only appends, and no more than there is room for. |
| CompressedBlock.CompressedBlock.Process | src/decode/compressed_block.rs:116-325 | The object's loop, with symbol reading in bulk, chunked copies and early returns, does what the run of single steps does: status, state, bits left, bytes in the output and in the history. |
| CompressedBlock.CompressedBlock.StartCopy | src/decode/compressed_block.rs:327-352 | Within reach a copy, beyond it a dictionary word, and the same errors for too many bytes or a bad address. |
| CompressedBlock.CopyRun | src/decode/compressed_block.rs:262-290 | Copying a chunk is copying its bytes one by one. |
| CompressedBlock.WordRun | src/decode/compressed_block.rs:291-318 | Draining a dictionary word in pieces is draining it byte by byte. |
| CompressedBlock.CurrentBlock | src/decode/block_state.rs:27-63 | The resumable block switch does what its single steps do, and stops anywhere. |
| BlockStates.BlockStepProgresses | src/decode/block_state.rs:27-63 | Every step of a switch takes bits or brings it closer to its end. |
| BlockSplitting.GreedyBlockSplitter.AddSymbol | src/encode/greedy/block_split.rs:271-284 | The open block's histogram counts exactly its symbols and all closed types' histograms theirs, whatever the entropies. |
| BlockSplitting.GreedyBlockSplitter.FinishBlock | src/encode/greedy/block_split.rs:308-400 | Closing a block as new, as the last type but one or as part of the last block keeps every histogram exact; there is always a histogram left for the next block. |
| BlockSplitting.GreedyBlockSplitter.FinishPerContext | src/encode/greedy/block_split.rs:286-306 | In the end there is one histogram per type and context that counts exactly the symbols of that context at positions of that type; the blocks cover the stream, the first has type 0, and every length is one a length symbol exists for. |
| BlockSplitting.CloseAs | src/encode/greedy/block_split.rs:353-393 | Merging the open histogram into an earlier type is counting that type's positions. |
| BlockCursors.TypeRoundTrip | src/encode/greedy/block_split.rs:182-202 | The decoder resolves each type symbol to the encoder's type. |
| BlockCursors.OneLengthSymbol | src/encode/greedy/block_split.rs:704-717 | Every block length below the limit is covered by exactly one length symbol. |
| BlockCursors.SwitchReads | src/decode/block_state.rs:27-63 | A switch is read back with its type, its length and exactly its bits. |
| BlockCursors.BlockCursor.BeforeSymbol | src/encode/greedy/block_split.rs:150-180 | The cursor gives each position its type in the split, 0 throughout if there is only one type; any decoder at the same place reads the switch it writes, if it writes one, and is then at the cursor's place. |
| BlockCursors.SymbolFollows | src/decode/block_state.rs:65-77 | After the symbol decoder and cursor are one place further, at the same type; with one type nothing moves on either side. |
| BlockCursors.CountSwitches | src/encode/greedy/block_split.rs:82-107 | Every type and length symbol the cursor will write has been counted. |
| SplitStreams.EverySymbolCounted | src/encode/greedy/block_split.rs:286-306 | Every symbol of the stream is counted in its type's final histogram. |
| SplitStreams.SplitIsWritable | src/encode/greedy.rs:280-320 | So codes made from the histograms have a codeword for every symbol of the stream. |
| SplitStreams.WriteStream | src/encode/greedy/block_split.rs:150-180 | Each symbol's switch and codeword are read back by any decoder at its place, under the same type and context, whatever bits follow, for one type as for several. |
| SplitRoundTrip.EncodeSplit | src/encode/greedy/block_split.rs:82-180 | For every stream of symbols with contexts and any entropies at all: splitting it, building the codes for types, lengths and symbols from what was counted and writing it gives bits from which the decoder reads back each symbol under its type. No condition on the split is left to the caller. |
| ContextMaps.MoveToFrontTransform | src/encode/greedy/block_split.rs:553-569 | The loop computes the move-to-front positions of the entries, with a list up to the largest. |
| ContextMaps.RestoresTransformed | src/decode/context_map.rs:154-167 | Restoring undoes the transform, however much longer the decoder's list is. |
| ContextMaps.InverseMoveToFront | src/decode/context_map.rs:154-167 | The in-place loop restores the whole map. |
| ContextMaps.RunLengthCodeZeros | src/encode/greedy/block_split.rs:571-623 | Zero runs become run symbols of at most six bits; the width is the smallest that covers the longest run, or six: no run is longer than the widest symbol unless it is six, and some run reaches the symbols of that width. |
| ContextMaps.RunLengthRestored | src/decode/context_map.rs:99-146 | The decoder expands them to exactly the zeros and values they stand for. |
| ContextMaps.EncodeThenDecode | src/encode/greedy/block_split.rs:553-623 | Every map's symbols, transformed and run-coded, are symbols that can be written, expand to as many entries as the map has with no run past its end, and these restore to the map; the loop on the decoder's side computes just that. |
| ContextMapWire.ContextMapDecoder.Decode | src/decode/context_map.rs:60-146 | The resumable decoder from the run flag on: width, prefix code, symbols with their extra bits, transform flag. Called with whatever bits have come, in any state, it asks for more only if more are due, rejects nothing an encoder may write, and ends with the entries the symbols expand to, transformed back, the bits behind untouched. |
| ContextMapWire.ReadContinues | src/decode/context_map.rs:60-146 | Reading the entries of a map goes on from where bits ran out, in every state, half a codeword or half a run included. |
| ContextMapWire.MapRoundTrip | src/encode/greedy/block_split.rs:474-510 | Any context map, written whole as flag, width, prefix code, run symbols with extra bits and transform flag, is read back by the decoder from those bits in whatever pieces they come, the code's own bits included, and the bits behind are left. |
| ContextMaps.AnyMapInRange | src/decode/context_map.rs:99-146 | For any symbols of the alphabet, from an encoder or not, every entry of the decoded map is below the number of trees. |
| ContextMaps.TrivialMapRoundTrip | src/encode/greedy/block_split.rs:512-551 | The trivial map is decoded as each type repeated for all its contexts. |
| FragmentParse.MatchIsCopy | src/encode/fragment.rs:398-412 | A match at a candidate and the length counted behind it are one true copy. |
| FragmentParse.Trawl | src/encode/fragment.rs:357-390 | Whatever positions the table holds, the search returns only candidates before the position that match there, and leaves no later position in the table. |
| FragmentParse.StoreInteriorPositions | src/encode/fragment.rs:540-584 | Hashing inside the copy stays within the fragment, and the slot's old entry lies before the position. |
| FragmentParse.ChainMatches | src/encode/fragment.rs:419-451 | Chained copies keep the tiling. |
| FragmentParse.ParseFragment | src/encode/fragment.rs:319-467 | For any table contents older positions could have left, the commands tile the block exactly; every copy is true, at least four bytes, within the cap, and within any window the fragment fits. |
| CommandStream.CopyReproduces | src/decode/compressed_block.rs:262-290 | A true copy is what the decoder's overlapping copy produces. |
| CommandStream.ReadsCopyCommand | src/decode/compressed_block.rs:127-352 | The bits of one command, copy or dictionary word, take the decoder from the encoder's place before it to its place after it, ring included. |
| CommandStream.ReadsBody | src/decode/compressed_block.rs:116-352 | For any codes that have the symbols, the decoder executes the bits of commands that make up a block to exactly that block, ends, takes no bit more, and remembers the encoder's distances. |
| CommandEmission.BodyDecodes | src/encode/greedy.rs:256-277 | So the body conveys its block to any decoder with codes for these lengths, whatever came before and whatever follows. |
| CommandEmission.ExecutesPlaced | src/encode/greedy.rs:80-207 | Commands that make up a block have all their symbols within the alphabets, and no stream of symbols is longer than the block. |
| CommandEmission.CountCommands | src/encode/greedy.rs:113-180 | The loop counts each stream's symbols exactly, and encodes each command as it will be written. |
| CommandEmission.SeedEmptyHistogram | src/encode/greedy.rs:701-705 | No histogram stays empty, so every tree exists. |
| CommandEmission.SingleBodyBits | src/encode/greedy.rs:213-242 | The size computed from the frequency tables, seeded ones included, is the number of bits the loop then writes, on top of header and trees. |
| CommandEmission.HistogramCost | src/encode/greedy.rs:228-232 | Frequency times codeword length, summed over a table, is the length of all the codewords of the stream it counts. |
| CommandEmission.WriteCommands | src/encode/greedy.rs:256-277 | The loop writes exactly the commands' bits. |
| MetablockStart.ReadStart | src/decode/compressed_trees.rs:69-111 | Read from its first bit by the decoder's own readers, whatever the encoder writes as header and three trees for its codes gives trees for the same code lengths and the same distance parameters, and leaves the bits behind. |
| MetablockStart.ReadMetablock | src/encode/greedy.rs:244-277 | A whole compressed metablock behind its length, trees and commands, decodes to the encoder's block with the trees that were read, and what follows is untouched. |
| FragmentEmission.EmitFragmentMetablock | src/encode/fragment.rs:593-723 | The smaller form, by size of the whole metablock: the compressed one, with the codes made from the commands' own counts, if and only if it takes fewer bits than the stored one. Either conveys the block; the ring ends where the decoder's will, and is as before if the bytes are stored. |
| FragmentEmission.NameDistances | src/encode/fragment.rs:633-664 | Each copy gets a code that names its distance for the ring it finds, and the ring ends where the decoder's will. |
| FragmentEmission.TilesExecute | src/encode/fragment.rs:593-672 | Commands that tile a block, with these codes, are executed by the decoder to the block, in any window the fragment allows, and leave the encoder's ring. |
| FragmentEncoder.OnePassTableBits | src/encode/fragment.rs:220-227 | Quality 0 tables have an odd number of bits up to 15, enough for the input below the cap. |
| FragmentEncoder.CompressBlock | src/encode/fragment.rs:203-212 | Parsing and emitting one block conveys it and leaves no later position in the table. |
| FragmentEncoder.OnePassFragment | src/encode/fragment.rs:175-215 | Whatever merges are found profitable, the blocks convey the whole fragment with both rings in step at every boundary, stored ones included. |
| FragmentEncoder.TwoPassFragment | src/encode/fragment.rs:279-300 | The same for quality 1. |
| FragmentRoundTrip.CompressFragments | src/encode/fragment.rs:136-212 | The whole stream at qualities 0 and 1 decompresses to the input: under every limit the input fits, and under no smaller one, for any merge decisions and any parser of trees that understands the encoder's. |
| FragmentRoundTrip.CompressStored | src/encode/mod.rs:197-207 | The loop writes stored metablocks of at most 16 MiB, aligned, and the empty last one. |
| FragmentRoundTrip.StoredRoundTrip | src/encode/mod.rs:197-207 | Every stored stream decompresses to its input, whatever parser the decoder has. |
| DictionaryMatches.CutoffValues | src/encode/static_dictionary.in:8-9 | The packed table of omit-last transforms gives exactly the transform numbers of the format. |
| DictionaryMatches.AddRules | src/encode/static_dictionary.in:448-577 | The rules of a suffix table enter only matches whose transform, as the decoder computes it, spells the input bytes, and never put a dearer match in the place of a cheaper one. |
| DictionaryMatches.BuildLut | src/encode/static_dictionary.in:310-391 | The lookup table holds exactly the words and their upper-case forms, in the buckets of their first bytes: every entry true, and no word missing. |
| DictionaryMatches.FindAll | src/encode/static_dictionary.in:625-864 | Every match returned decodes, through the decoder's address split and transform, to exactly the bytes it covers, lengths strictly increase, distances stay under the limit, and every word of the table that stands there whole is offered. |
| DictionaryMatches.TestItemIsTrue | src/encode/static_dictionary.in:152-193 | A hit of the greedy dictionary search, cut short or whole, decodes to the bytes it covers and lies beyond the window. |
| DictionaryMatches.FindWordIsTrue | src/encode/static_dictionary.in:110-150 | So does whatever the two probes with their counters return. |
| DictionaryMatches.HitsAreLong | src/encode/static_dictionary.in:152-193 | A hit covers at least four bytes, for every table of words. |
| MatchFinder.FoundIsTrue | src/encode/match_finder.rs:313-425 | Whatever the index holds, the match the search returns is a true copy within the window or a dictionary word that decodes to the bytes it covers. |
| GreedyParse.DelayIsTrue | src/encode/match_finder.rs:136-160 | Looking for a better match behind the first one, as often as allowed, ends with a true match at the position it is taken at. |
| GreedyParse.ParseIsTrue | src/encode/match_finder.rs:99-225 | The commands of a chunk, for any index and ring, tile it; the decoder executes them to the chunk, and its ring ends as the finder's. |
| MatchIndex.ParseTidy | src/encode/match_finder.rs:99-225 | A parse leaves an index whose readable slots hold only positions it has passed, with 16-bit counts that wrap. |
| MatchIndex.CandidatesAreEarlier | src/encode/match_finder.rs:366-371 | On such an index a candidate is either the mark for none or earlier than the position, which is what the source's assertion says. |
| MatchCompaction.RemappedShadows | src/encode/match_finder.rs:292-311 | Shifting the slots in use, wrapped counts included, gives an index in which every readable slot is the shifted one, or the mark for none if it has been dropped. |
| MatchCompaction.SameScan | src/encode/match_finder.rs:365-400 | The scan of a bucket finds the same match in the shifted index. |
| MatchCompaction.SameParse | src/encode/match_finder.rs:99-225 | With the window kept, the parse of what is kept has the same commands and ring, and leaves the shifted index. |
| MatchCompaction.CompactionIsInvisible | src/encode/match_finder.rs:88-97 | Compacting changes no parse, provided the window is kept and either 256 bytes more or a skip limit that was not cut off. |
| HashedMatchFinder.QualityFiveHasher.FindLongestMatch | src/encode/match_finder.rs:313-425 | On arrays: the search with its early exits is the functional one. |
| HashedMatchFinder.QualityFiveHasher.RemapPositions | src/encode/match_finder.rs:292-311 | The loops over buckets and slots shift exactly the slots in use. |
| HashedMatchFinder.StreamingMatchFinder.ParseChunk | src/encode/match_finder.rs:99-225 | The loops of the parse do what the functional parse does: commands, index, ring, skip limit. |
| HashedMatchFinder.StreamingMatchFinder.Compact | src/encode/match_finder.rs:88-97 | Dropping bytes leaves the finder the compaction describes. |
| GreedyEmission.CompressChunk | src/encode/greedy.rs:80-277 | A chunk's single-tree form, with the codes made from its own counts, is given if and only if its size is below that of the stored form; it decodes to the chunk, and the decoder's ring goes where the finder's goes. |
| GreedyEmission.EmitChunk | src/encode/greedy.rs:451-499 | For any finder and window: the finder's own parse, then whichever of single-tree and stored form is smaller, with the ring restored if it is the stored one; it conveys the chunk, and decoder and finder end with the same ring. |
| GreedyEmission.EmitStream | src/encode/greedy.rs:507-535 | Chunk after chunk the whole input is conveyed, from the decoder's first ring on, rings equal at every boundary, whichever chunks are stored; and each chunk has the smaller form of the parse its finder makes, each finder being what the chunk before left. |
| GreedyEmission.ConfiguredDistancesFit | src/encode/mod.rs:51-95 | With the configured limits and parameters, fonts included, no distance that can be found is too far to be written, and the header has room for the parameters. |
| GreedyStream.SameChunk | src/encode/stream.rs:159-212 | A chunk is emitted the same by a compacted finder, bit for bit, and the finders stay shifted copies of each other. |
| GreedyStream.EmitChunk | src/encode/greedy.rs:451-499 | On the writer: compressed if smaller, else stored with the ring restored, and the empty last metablock if it was the last. |
| GreedyStream.TryCompressStream | src/encode/greedy.rs:507-535 | In one call, only for inputs above one metablock: the bytes of the stream of all chunks. |
| GreedyStream.StreamEncoder.Process | src/encode/stream.rs:80-109 | All input is taken, at most the given room is filled, and the encoder stays at the place an encoder that forgets nothing would be at. |
| GreedyStream.StreamEncoder.Finish | src/encode/stream.rs:114-153 | When it is done, the bytes handed out are the whole stream, and a finished encoder only hands out. |
| GreedyStream.StreamEncoder.Emit | src/encode/stream.rs:159-188 | One chunk goes out and the window moves on, without any effect on what follows. |
| GreedyStream.StreamingEqualsOneCall | src/encode/stream.rs:14-31 | However the input is fed and the output drained, the incremental encoder gives the bytes of the one call, and above one metablock these are the stream of the chunks' forms; for every feed, every room and every way to compress a chunk. |
| BitPacking.BitWriter.WriteBits | src/encode/bit_writer.rs:9-33 | On 64 pending bits with carries into bytes: exactly the value's low bits are added, least significant first. |
| BitPacking.BitWriter.WritePrefix | src/encode/bit_writer.rs:35-42 | A codeword goes in most significant bit first, by reversing it. |
| BitPacking.BitWriter.AppendWriter | src/encode/bit_writer.rs:49-64 | Another writer's bits go in behind, whatever the alignment of either. |
| BitPacking.BitWriter.DrainBytes | src/encode/bit_writer.rs:66-88 | Completed bytes are handed out, as many as fit, and no bit is lost. |
| BitPacking.BitReader.ReadBits | src/decode/bit_reader.rs:23-49 | Reading takes exactly the next bits and leaves fewer than eight in the buffer; if there are too few, all input is in the buffer and nothing is lost. |
| BitPacking.BitReader.AlignToByteWithZeroFill | src/decode/bit_reader.rs:51-62 | The rest of the byte is dropped, and reported as zero exactly if it is. |
| MetablockHeaders.StoredLength | src/encode/greedy.rs:538-542 | On a byte boundary a stored metablock takes exactly the bits the encoder compares a compressed one with. |
| DecoderMachine.AdvanceKeeps | src/decode/decoder.rs:88-254 | Every step of the decoder keeps it sound, ring and window included, and takes bits or comes closer to its end. |
| DecoderRuns.DecodeContinues | src/decode/decoder.rs:88-254 | With more input and room at once the decoder takes the same steps and goes on from where it would have stopped. |
| DecoderRuns.PiecesAgree | src/decode/decoder.rs:88-254 | Calls that do not end for want of room agree with one call on all the bytes: same output, same outcome, same bits unread, be it the end, a failure, or waiting for more input. |
| DecoderRuns.SlicingsAgree | src/decode/decoder.rs:88-254 | So two slicings of the same bytes agree with each other, at any point of the stream. |
| DecoderRuns.PiecesEnd | src/decode/decoder.rs:88-254 | Pieces that make up a whole stream never leave the decoder waiting for input or failed: what has come out is a prefix of the output, and the last call ends the stream if and only if its room suffices for what the calls before had left over. |
| DecoderRuns.DecodeStops | src/decode/decoder.rs:88-254 | A call leaves the end of its input, raw bytes are copied only on a byte boundary, and it stops only for an error, missing bits or missing room. |
| DecoderRuns.ReadsExactly | src/decode/decoder.rs:88-254 | A stream that ends has been read to the end of its last byte: those bytes alone decode to the same, and no fewer do. |
| DecoderRounds.DataMoves | src/decode/decoder.rs:136-180 | Executing commands in bulk is a run of the decoder's single steps. |
| DecoderRounds.RawMoves | src/decode/decoder.rs:181-219 | Copying a stretch of raw bytes is copying them one by one. |
| StreamDecoder.Decoder.RawMeansEmpty | src/decode/decoder.rs:181-219 | Raw bytes are copied, and the stream ends, with an empty bit buffer. |
| StreamDecoder.Decoder.Round | src/decode/decoder.rs:88-254 | One turn of the loop, in any phase, goes on with the run of single steps or stops exactly where it stops. |
| StreamDecoder.Decoder.Process | src/decode/decoder.rs:80-254 | The object's call does what the machine does: status, bytes consumed, output and what stays buffered; all input has been consumed when it asks for more. |
| StreamDecoder.DecodeInPieces | src/decode/decoder.rs:80-254 | Any sequence of calls whose last one has room has the status and output of one call on all the bytes given, finished or not, and exactly the stream's bytes have been consumed when it ends. |
| Decompression.LimitedDecoder.Advance | src/lib.rs:185-245 | Under a limit: the call decodes with the room that is left of it, each error is returned exactly in its case, and an error stays. |
| Decompression.Decompress | src/lib.rs:450-491 | The loop over a fixed buffer ends, and its result is that of the single run over all bits: the output, trailing bytes, an unexpected end, too much output, or the decoder's error. |
| MetablockReading.ReadsWindow | src/decode/stream_header.rs:39-105 | Every window size the encoder writes is read back from its one, four or seven bits. |
| MetablockReading.ReadsCompressedHeader | src/decode/metablock_header.rs:51-195 | Every length a metablock can have, last or not, is read back nibble by nibble, and is never rejected as not minimal. |
| MetablockReading.ReadsStored | src/decode/metablock_header.rs:51-195 | A stored metablock takes the decoder over its padding and its bytes to the next header, wherever in a byte it starts. |
| StreamRoundTrip.ReadsCompressed | src/decode/decoder.rs:107-180 | A compressed metablock, from its first bit to its last, takes the decoder over the block with the encoder's ring behind it. |
| StreamRoundTrip.LimitDecides | src/lib.rs:450-491 | A stream that leads the decoder to its end decompresses to the bytes it led to exactly under the limits they fit. |
| GreedyRoundTrip.StreamFollows | src/encode/greedy.rs:507-535 | The stream of the chunks an input was emitted as leads the decoder to its end, with all of the input. |
| GreedyRoundTrip.CompressThenDecompress | src/encode/greedy.rs:507-535 | What is returned is the stream of the input's chunks, each in the smaller form of its finder's parse; decompressing it gives the input under every limit it fits and an error under every other, for any window, font parameters or not. |
| GreedyRoundTrip.EncodeThenDecode | src/decode/decoder.rs:80-254 | The stream cut up in any way: once all of it has been given the decoder never fails and never waits for more, a prefix of the input has come out, and it has ended, with all of the input, if the last call had room for it. |
| GreedyRoundTrip.SlicedEnds | src/decode/decoder.rs:80-254 | For every stream that has an end, and any pieces of it: the decoder has ended if and only if the last call's room covers what was still to come out before it. |
| IncrementalRoundTrip.SingleIsHonest | src/encode/greedy.rs:244-277 | The single-tree form of a chunk takes the decoder over the bytes of its commands, wherever it stands and whether or not it is the last. |
| IncrementalRoundTrip.StreamThenDecompress | src/encode/stream.rs:80-212 | What the incremental encoder hands out is the stream of the chunks' forms, and decompresses to what was fed, for inputs above one metablock, every feed, every drain and every limit, provided each compressed form takes the decoder over its chunk. |
| SingleTrees.SinglesAreHonest | src/encode/greedy.rs:244-277 | It does for every encoder whose compressed forms have one tree of each kind, whatever codes it makes and wherever a chunk stands. |
| SingleTrees.EncoderCompresses | src/encode/greedy.rs:451-499 | The encoder that makes its codes from the counts is one of these, and compresses every chunk the one-call encoder compresses, to no more bits. |
| SingleTrees.EncoderRoundTrip | src/encode/stream.rs:80-212 | So its streams decompress to their inputs, exactly under the limits that let them through, with nothing assumed of the forms. |
| CompressedRuns.RunCompresses | src/encode/greedy.rs:80-277 | And it does compress: a run of sixteen bytes or more, up to a metablock, has one-symbol codes that take no bits, and is written in fewer bits than it is stored in. |
| HeaderParser.OneStart | src/encode/greedy.rs:244-255 | Header and trees of a metablock can be those of no other codes, whatever follows them. |
| HeaderParser.ParserExists | src/decode/decoder.rs:107-135 | There is a parser of headers and trees that does all that is asked of one: it takes a bit at a time, decides on nothing but the bits seen, and understands everything the encoder may write. |
| FragmentStream.FragmentStreamEncoder.Process | src/encode/stream.rs:80-109 | At qualities 0 and 1: all input is taken, at most the given room is filled, no more than one fragment is held back, and what has been written and what is still held complete the one stream of the input, whatever comes later. |
| FragmentStream.FragmentStreamEncoder.Finish | src/encode/stream.rs:114-153 | When it is done, the bytes handed out are that stream, whether or not a fragment had gone out before; a finished encoder only hands out, and gets there. |
| FragmentStream.StreamingEqualsOneCall | src/encode/fragment.rs:136-166 | However the input arrives and the output is taken, the bytes are those of the one call: a fragment a window, each from the ring and the place in the byte the one before left. |
| FragmentRoundTrip.StreamedRoundTrip | src/encode/fragment.rs:136-166 | So both decompress to the input, exactly under the limits it fits, if each fragment takes the decoder over its bytes with both rings in step. |
| FragmentRoundTrip.PartsAreHonest | src/encode/fragment.rs:152-215 | Which every fragment does that is a sequence of conveyed metablocks, as both qualities write it. |
| SplitBody.ReadsSplitCopyCommand | src/decode/compressed_block.rs:127-352 | One command of a metablock with several block types: at the cursors' places the decoder reads each switch, symbol and extra bits as they were written in turn, and is at the cursors' next places with the copy made. |
| SplitBody.ReadsSplitBody | src/encode/greedy.rs:279-375 | For any three splits and codes by type and context, the decoder executes the interleaved switches and symbols of commands that make up a block to exactly that block, ends, takes no bit more, and remembers the encoder's distances. |
| SplitMetablock.EncodeThenExecute | src/encode/greedy.rs:279-375 | The three streams of any block's commands, split by the splitter for any entropies, coded from what it counted and written interleaved with three cursors, are executed by the decoder to the block. |

## Left out

- The parser of a compressed metablock's header and trees (`src/decode/compressed_header.rs`,
  `src/decode/compressed_trees.rs`) as a resumable object: it is a given function in `DecoderMachine`. Its parts are
  modelled: prefix codes, context maps, and header and trees of a metablock with one type and tree of each kind.
- StreamDecoder.Decoder.Process: the commands of a metablock take their bits from the sequence the bit reader stands
  for, and the reader is moved on by as many; bit by bit only headers, trees and raw bytes go through it.
- Trees by context: the decoder's literal and distance trees are functions of block type and context, not
  lookups through a context map's flat index.
- GreedyEmission.EmitChunk: the choice between the split and the single-tree form (`write_best`) is not made; what is
  compressed has the single-tree form. The split form's body is executed to its block
  (`SplitMetablock.EncodeThenExecute`), and its context maps are read back (`ContextMapWire.MapRoundTrip`), but its
  header is not put together with them.
- GreedyEmission.CompressChunk: for the same reason, its compressed form is the single-tree form.
- GreedyRoundTrip.CompressThenDecompress: for the same reason, its streams have no split metablocks.
- IncrementalRoundTrip.StreamThenDecompress: the compressed form of a chunk is a given function of what the encoder
  looks at, asked to be decodable; `SingleTrees.EncoderRoundTrip` asks nothing, for single-tree forms.
- GreedyStream.StreamEncoder.Finish: inputs of at most one metablock go to the one-call encoder, which is a given
  function.
- The ladder of special forms for inputs of at most one metablock (periodic and few-symbol inputs), and the choice
  between a finished stream and the stored one.
- Decompression.Decompress: the limit on the window size and the mapping of errors to fewer public ones; byte
  counters do not overflow.
- HashTree.HashTree.StoreAndFind: position arithmetic is exact; the cast to 32 bits is not modelled, because
  positions are below 2^32 by the caller's contract.
- `store_range` of the hash tree, which stores every position or every eighth of a range.
- BlockMachine.Run: the words of the static dictionary are a parameter with the right lengths, because the
  dictionary's bytes are not part of this model.
- Scoring, skipping and merging heuristics beyond their control flow: they choose among correct results.

# Exactness of a production BPE tokenizer

The repository tokenizes text along many fast paths: a heap and three array loops for
merging, overlapped chunks that are spliced or enlarged, forced splits, word units,
document fragments, memo caches over open-addressed tables, worker pools. All of them
must give the ids of one naive rule: *merge the adjacent pair with the lowest (rank,
position) until no pair merges*. Here that rule is the function `Bpe.Greedy`, and every
fast path is a method or function proved against it.

How the modules build on each other:

- `Bpe`, `BpeCuts`: the rule, the bytes a token sequence spells, and three locality
  theorems: a run restricted to a part, independence across a cut no token straddles,
  and splicing of two overlapping runs.
- `MergeLists`, `MergeHeap`, `MergeScan`, `MergeEngine`, `ShortMerge`: the in-place merge
  loops on arrays with linked lists, stale heap entries, cached ranks and packed lanes.
- `FromRanks`, `ForceSplit`, `ByteLevel`: the merge table rebuilt from a ranked token list,
  the byte-pair set that forces cuts, and the byte-level model.
- `Utf8`, `ChunkPlan`, `Overlap`, `Agreements`, `Reconciler`: chunk plans and the
  reconciliation state machine, driven by callbacks or by browser workers, and when it
  needs no enlargement.
- `Marks`, `SentencePiece`, `UnitScanner`, `MarkSplits`, `Fragments`, `SentenceChunks`,
  `UncoveredText`: word units with the crossing-piece guard, the unit cache, the raw path,
  document fragments, and chunking on character edges.
- `Probing`, `Fingerprints`, `LongCache`, `ShortCache`, `PairRanks`, `PairImages`: the hash
  tables, each a finite map under arbitrary deterministic hash functions.
- `Packing`, `MemoEntries`, `MemoEncoder`: the memoising encoder with its unconditional
  four-lane stores.
- `WorkerPool`, `Threaded`, `ChunkStream`: tasks on private encoders under every schedule,
  and the streaming encoder.
- `Varint`, `TokenSections`: canonical varints and the sections of a token file.

What is assumed, as preconditions: merged tokens spell their two parts and tokens are not
empty; ids and ranks are 32-bit numbers, and those of the packed pair table are below
2^21; every text byte has a single-byte token (for chunking and forced splits; valid text
under a vocabulary that loads has them) or every character a piece or fallback bytes
(SentencePiece units); a pretoken is not empty when it is chunked; the token arena and the
long-key arena stay below 2^32 entries, which the source assumes when it narrows offsets
to 32 bits. `Encoder.Room` and `EncoderPool.Ready` say how much room a call may need.

Where a property holds only under a condition, the exact condition is proved:

- Explicit ranks: the short loop reserves rank 2^32 - 1, the heap does not. The routes agree
  if and only if no merge has that rank (`MergeEngine.RoutesAgree`).
- Rebuilding a merge table narrows single-byte ids to eight bits. Every entry encodes to
  itself if and only if the bytes of longer entries have ids below 256
  (`FromRanks.EntriesEncodeToThemselves`); every byte can be the wide one
  (`FromRanks.WideByteLoads`).
- The chunk loop reports an invalid geometry if and only if a reached start stalls
  (`ChunkPlan.ChunkRanges`), which on character edges some text does exactly when the chunk
  size is below the overlap plus 4 (`ChunkPlan.CodepointGeometry`).
- Forced splits are exact on valid text under every vocabulary that loads
  (`ForceSplit.TextSplitsExactly`). On arbitrary bytes they are if and only if the 13 bytes
  that never occur in UTF-8 have tokens too: only these may fall back to the placeholder
  id, which can merge across a forced cut (`ForceSplit.ByteTokensAreNeeded`).
- Unit splitting needs coverage: units are exact on all texts whose characters in a given
  set are covered if and only if the set holds every character
  (`UncoveredText.CoverageIsNeeded`). Single uncovered texts can still agree.
- A comment at src/bpe/sentencepiece.rs:1294-1298 says byte-equal unit keys always encode
  identically. Across the two modes that holds under every vocabulary if and only if the
  key has no space (`UnitScanner.ModesAgree`), so a cache is exact for one mode at a time.
- Switching the whole-word flag rewrites the short cache but not the long one. The encoder
  stays exact if and only if no cached long pretoken notices the flag
  (`MemoEncoder.Encoder.SetIgnoreMerges`, `MemoEntries.FlagIsNoticed`); the source restricts
  the call to loading.
- A long key is found again if and only if its arena offset is not the empty marker
  (`LongCache.MarkerOffsetIsLost`).
- The slot importer accepts exactly the importable images and does not notice a repeated
  pair. The import is a valid table if and only if no pair is repeated
  (`PairImages.FromPrebuiltSlots`); its answers are those of the listed merges if and only
  if, beyond the grid, the nearest entry of each pair carries the id listed last
  (`PairImages.ImageAnswers`, `PairImages.RepeatedPairMisleads`).

One more behaviour is shown as it is: asking a browser session for its ids too early ends it
(`Reconciler.OverlapSession.TakeIds`).

Randomness, clocks and hash functions are parameters: hashes are arbitrary functions, the
slot a locked call lands on and the order of calls are left open.

## Model

| member | source | states |
|---|---|---|
| Bpe.NextIsBest | src/bpe/mod.rs:881-887 | the pair to merge next is the one with the lowest (rank, position); nothing is left exactly when no adjacent pair merges |
| Bpe.GreedyIrreducible | src/bpe/mod.rs:772-876 | the rule runs until no adjacent pair merges |
| BpeCuts.GreedyKeepsBytes | src/bpe/mod.rs:772-876 | merging never changes the bytes a sequence spells, and leaves no empty token: decoding an encoding gives the input back |
| BpeCuts.GreedySize | src/bpe/mod.rs:772-876 | merging never lengthens a sequence and never empties one |
| BpeCuts.GreedyBoundaries | src/load_tokenizer/htk_chunk.rs:361-399 | every token boundary of a merged sequence was a symbol boundary before |
| BpeCuts.CrossingStraddles | src/bpe/tiktoken.rs:2264-2325 | a merge across a cut produces a token that straddles it, bytes on both sides |
| BpeCuts.SplitAtCleanCut | src/bpe/tiktoken.rs:2264-2325 | if no producible token straddles a cut, both sides merge independently, ties included |
| BpeCuts.SplitIntoParts | src/bpe/sentencepiece.rs:461-466 | any number of parts separated by clean cuts merge one by one to the merge of the whole |
| BpeCuts.SplitText | src/bpe/sentencepiece.rs:461-466 | the same for a text given by its cut positions |
| BpeCuts.OverlapSplices | src/load_tokenizer/htk_chunk.rs:323-341 | for x, y, z with y nonempty: if the merge of xy has a boundary at the end of x and the merge of yz one at the end of y, the merge of xyz is the tokens of xy before the cut followed by all tokens of yz |
| MergeLists.UnlinkIsApply | src/bpe/mod.rs:830-840 | unlinking the right node of a pair and overwriting the left one is one step of the rule on the live symbols |
| MergeLists.UnlinkKeepsLinks | src/bpe/mod.rs:830-840 | the doubly linked list stays consistent: links lead to live neighbours, dead positions have no next |
| MergeLists.StillLive | src/bpe/mod.rs:830-840 | every live position but the unlinked one stays in the list |
| MergeHeap.Surgery | src/bpe/mod.rs:832-840 | after the link surgery the list is well linked and only live positions have a next link |
| MergeLists.Compact | src/bpe/mod.rs:862-875 | the survivors are moved to the front in order |
| MergeHeap.PackOrder | src/bpe/mod.rs:734-740 | packed heap entries order by rank, then position |
| MergeHeap.PopMin | src/bpe/mod.rs:815-819 | the popped entry is a minimum, and the others stay |
| MergeHeap.LeastIsNext | src/bpe/mod.rs:820-830 | a popped entry that still passes the rank check is the pair the rule merges next, even if it was pushed for an earlier pair |
| MergeHeap.CoveredAfterMerge | src/bpe/mod.rs:842-857 | after a merge every live mergeable pair still has a heap entry of its rank and position |
| MergeHeap.ProcessEntry | src/bpe/mod.rs:817-858 | one popped entry: dropped when stale, else one step of the rule; heap plus live symbols shrinks either way |
| MergeHeap.HeapMerge | src/bpe/mod.rs:772-876 | the heap loop terminates and leaves exactly the merge of the naive rule, for every symbol sequence and rank function |
| MergeScan.LowestIsNext | src/bpe/mod.rs:916-927 | the leftmost lowest entry of the rank array is the pair the rule merges next |
| MergeScan.RanksAfterMerge | src/bpe/mod.rs:928-946 | refreshing the two touched ranks makes the whole rank array current again |
| MergeScan.MergeSmall | src/bpe/mod.rs:895-957 | the array scan for up to 32 symbols leaves the merge of the naive rule |
| MergeScan.MergeRankedSlice | src/bpe/mod.rs:1344-1409 | the explicit-rank scan, which caches merged ids beside ranks, leaves the merge of the rule on the ranks below the reserved one |
| MergeEngine.MergeByRank | src/bpe/mod.rs:772-800 | the choice between scan and heap at length 32 never changes the result |
| MergeEngine.MergeRanked | src/bpe/mod.rs:1487-1581 | the explicit-rank entry point merges by the rule on the table its route works with |
| MergeEngine.RoutesAgree | src/bpe/mod.rs:1369-1380 | the explicit-rank routes compute the rule on every input if and only if no merge has rank 2^32 - 1, which only the short route reads as "no merge" |
| MergeEngine.ShortIsDone | src/bpe/mod.rs:1494-1497 | fewer than two symbols are final |
| MergeEngine.TableAnswersRanks | src/bpe/mod.rs:586-618 | for ids as ranks, the pair table answers exactly the ranks the loops ask for |
| ShortMerge.MergeShort | src/bpe/mod.rs:978-1055 | the short-pretoken loop, with 16-lane buffers and ranks read from the pair table, leaves the merge of the rule for 2 to 15 symbols |
| ShortMerge.PackLaneExact | src/bpe/mod.rs:1084-1098 | a rank below 2^21 and its position share one 32-bit lane without loss, below every value that stands for "no merge" |
| ShortMerge.LeastLane | src/bpe/mod.rs:1103-1121 | the least of the 16 lanes names the leftmost lowest rank, or shows that no pair merges |
| ShortMerge.MergeShortPacked | src/bpe/mod.rs:1077-1151 | the packed-lane loop leaves the merge of the rule as well |
| FromRanks.LastId | src/bpe/tiktoken.rs:824-828 | the reverse lookup finds the last entry with the given bytes, and only fails when there is none |
| FromRanks.FirstId | src/bpe/mod.rs:129-160 | the byte remapping holds the first entry of each single byte |
| FromRanks.FromByteVocab | src/bpe/mod.rs:129-166 | the byte remapping is refused if and only if a byte that can stand in UTF-8 has no token of its own, absent if and only if it is the identity, and maps each byte to its first id, or to 0 |
| FromRanks.TextIsSpelled | src/bpe/mod.rs:114-128 | under a vocabulary that loads, every valid text is spelled by its bytes' own tokens |
| FromRanks.Rebuild | src/bpe/tiktoken.rs:815-843 | a vocabulary loads if and only if the specified table exists and every byte of text has a token; the loop builds exactly that table and remapping, and each of the three refusals has its cause |
| FromRanks.RecordIsNew | src/bpe/tiktoken.rs:830-841 | each entry of two or more bytes adds one pair that the table did not hold, ranked above everything before |
| FromRanks.NeverOverwritten | src/bpe/tiktoken.rs:830-841 | no merge pair is ever overwritten |
| FromRanks.HigherRanksWait | src/bpe/tiktoken.rs:815-843 | merges ranked above all earlier ones wait until the earlier ones have nothing left to do |
| FromRanks.EntryMergesToItself | src/bpe/tiktoken.rs:815-843 | under the finished table the load symbols of every entry merge to exactly that entry |
| FromRanks.WideByteFails | src/bpe/tiktoken.rs:835-838 | an entry holding a byte whose id is 256 or more does not encode to itself, because ids are narrowed to eight bits while rebuilding |
| FromRanks.WideByteLoads | src/bpe/tiktoken.rs:835-838 | for every byte there is a vocabulary that loads, has distinct entries and gives that byte an id of 256, and its longer entry does not encode to itself |
| FromRanks.EntriesEncodeToThemselves | src/bpe/tiktoken.rs:815-843 | with distinct entries, every entry encodes to its own id if and only if the bytes of the longer entries have ids below 256 |
| FromRanks.TableConsistent | src/bpe/tiktoken.rs:815-843 | the finished table spells: a merged token has the bytes of its two parts |
| ForceSplit.Bigrams.constructor | src/bpe/force_split_bigrams.rs:10-20 | after the build, a byte pair is in the set if and only if some entry holds the two bytes side by side |
| ForceSplit.KeyInjective | src/bpe/force_split_bigrams.rs:22-25 | distinct byte pairs have distinct bits |
| ForceSplit.ForcedCutIsClean | src/bpe/tiktoken.rs:2264-2325 | no token straddles a cut between two bytes that no entry joins |
| ForceSplit.ForcedSplitExact | src/bpe/tiktoken.rs:2264-2325 | merging the forced pieces one by one gives the merge of the whole pretoken |
| ForceSplit.PlaceholderCrossesCut | src/bpe/mod.rs:139-160 | each of the 13 bytes that never occur in UTF-8 may lack a token in a vocabulary that loads; mapped to id 0, it merges across a cut that no entry joins |
| ForceSplit.ByteTokensAreNeeded | src/bpe/tiktoken.rs:2264-2325 | forced cuts are exact on all byte strings over loaded vocabularies with a token for each byte of a set if and only if the set holds the 13 bytes that never occur in UTF-8 |
| ForceSplit.TextSplitsExactly | src/bpe/tiktoken.rs:2264-2325 | on valid text under a vocabulary that loads, every forced cut splits the merge, with nothing else assumed of its bytes |
| ForceSplit.EncodeForceSplit | src/bpe/tiktoken.rs:2264-2325 | the splitting loop returns the merge of the whole pretoken when it cuts at all, and refuses exactly when every two neighbouring bytes stand side by side in some entry |
| ByteLevel.LongTextIsMerged | src/load_tokenizer/htk_chunk.rs:88-134 | on text longer than every entry, neither added tokens nor the whole-word flag apply |
| ByteLevel.UncachedSpells | src/bpe/tiktoken.rs:2335-2420 | an encoding spells its pretoken |
| ByteLevel.ByteJobSound | src/load_tokenizer/htk_chunk.rs:88-134 | a byte-level model meets everything chunking assumes, for every overlap that bounds the entries |
| ChunkPlan.ChunkRanges | src/load_tokenizer/htk_chunk.rs:217-251 | the ranges cover the text, starts and ends strictly advance, neighbours overlap by exactly the overlap on byte edges (at least it on character edges), each range of a longer plan is longer than the overlap; an invalid geometry is reported if and only if some reached start has no later start after it, which needs character edges and less than four bytes before the overlap; on byte edges the room the plan's encodings can take is known from the length |
| ChunkPlan.PlanIsUnique | src/load_tokenizer/htk_chunk.rs:217-251 | the steps the chunk loop guarantees (each range ends at the first edge a chunk size on, the next starts at the last edge an overlap before that end) leave only one plan |
| ChunkPlan.NextRange | src/load_tokenizer/htk_chunk.rs:225-250 | one turn extends the plan by one range and moves the start strictly forward |
| ChunkPlan.StallIsWideCharacter | src/load_tokenizer/htk_chunk.rs:240-248 | a reached start stalls exactly when the character there is wider than what precedes the overlap |
| ChunkPlan.ByteStride | src/load_tokenizer/htk_chunk.rs:225-250 | on byte edges each range starts one chunk size less one overlap after the one before |
| ChunkPlan.OverlapRanges | src/load_tokenizer/htk_chunk.rs:187-215 | each refusal of a configuration has exactly one cause |
| ChunkPlan.CodepointGeometry | src/load_tokenizer/htk_chunk.rs:225-250 | on character edges the loop reports no invalid geometry on any text if and only if the chunk size leaves at least four bytes before the overlap |
| ChunkPlan.WideCharacterStalls | src/load_tokenizer/htk_chunk.rs:225-250 | for every chunk size that leaves less there is one valid text on which the loop reports one |
| Overlap.EncodeChunk | src/load_tokenizer/htk_chunk.rs:361-399 | token lengths are accepted exactly when all ids are known and they cover the range; the boundaries are the byte offsets of the tokens |
| Overlap.SpliceExact | src/load_tokenizer/htk_chunk.rs:410-428 | splicing two exact overlapping chunks at an agreed boundary gives the exact encoding of their union |
| Overlap.TrySplice | src/load_tokenizer/htk_chunk.rs:323-341 | two chunks are spliced if and only if their encodings have the same token boundaries in the overlap, and the result is exact |
| Overlap.ListsAgree | src/load_tokenizer/htk_chunk.rs:401-408 | the boundary lists of two exact chunks are equal in the overlap if and only if their encodings have the same token boundaries there |
| Overlap.OverlapReconciliation.Start | src/load_tokenizer/htk_chunk.rs:269-289 | exact encodings of a plan never fail; the machine comes to rest with the joined part exact, has counted one enlargement if it requests one, and what it will count and report in all is that of the plan |
| Overlap.OverlapReconciliation.Join | src/load_tokenizer/htk_chunk.rs:323-341 | one turn splices the next chunk if and only if its encoding agrees with the part joined so far; otherwise it requests the enlarged range and counts one enlargement; the longest encoded span takes the chunk in |
| Overlap.OverlapReconciliation.Advance | src/load_tokenizer/htk_chunk.rs:323-341 | joining never fails and ends at rest, counting one enlargement exactly when it stops at a disagreement |
| Overlap.OverlapReconciliation.AcceptEnlargement | src/load_tokenizer/htk_chunk.rs:295-308 | the requested encoding is taken, the chunks left get fewer, and one more enlargement is counted exactly when another is requested; out of turn the call is refused and changes nothing |
| Overlap.OverlapReconciliation.Finish | src/load_tokenizer/htk_chunk.rs:310-321 | the result is available exactly when nothing is awaited; it is the encoding of the whole text with the exact number of enlargements and longest encoded span of the run |
| Overlap.EncodeOverlap | src/load_tokenizer/htk_chunk.rs:163-185 | the protocol succeeds if and only if the configuration fits and no reached start stalls; its ids are those of encoding the pretoken in one piece, its enlargements are the requests it served, one for each range of the plan whose encoding disagrees with the part before, and its longest span is the longest range it encoded |
| Agreements.NoEnlargements | src/load_tokenizer/htk_chunk.rs:323-341 | a run asks for no enlargement if and only if every two neighbouring chunks of the plan are encoded with the same token boundaries in their overlap |
| Agreements.JoinedEndsLike | src/load_tokenizer/htk_chunk.rs:410-428 | after a splice the joined part has, from the chunk's start on, exactly the token boundaries of the chunk's own encoding |
| Overlap.RoomyIsConfigured | src/load_tokenizer/htk_chunk.rs:187-250 | every configuration of at least two overlaps, on character edges with at least four bytes before the overlap, is accepted whatever the text |
| Utf8.BoundaryNear | src/load_tokenizer/htk_chunk.rs:217-251 | a character boundary of valid text is at most three bytes back |
| Utf8.ValidSplit | src/bpe/sentencepiece.rs:1352-1356 | cutting valid text at a character boundary leaves valid text on both sides |
| Utf8.ValidConcat | src/bpe/sentencepiece.rs:1352-1356 | joining valid texts gives valid text |
| SentencePiece.InitSpells | src/bpe/sentencepiece.rs:1392-1417 | the initial symbols of covered text spell it |
| SentencePiece.CharSymbols | src/bpe/sentencepiece.rs:1392-1417 | a character with a piece of its own gives exactly that piece's id; any other gives the fallback tokens of its bytes, in order, skipping bytes without one |
| SentencePiece.RawSymbols | src/bpe/sentencepiece.rs:1392-1398 | in raw mode a space gives the symbols of the mark, and every other character its own |
| SentencePiece.SymbolsConcat | src/bpe/sentencepiece.rs:1392-1417 | in both modes the symbols of a text are put together character by character |
| SentencePiece.InitConcat | src/bpe/sentencepiece.rs:1392-1417 | initial symbols are cut by every character boundary |
| SentencePiece.CrossingListed | src/bpe/sentencepiece.rs:502-536 | every interior mark of a UTF-8 piece is listed with the bytes before and after it |
| SentencePiece.PunctuationCutIsClean | src/bpe/sentencepiece.rs:463-490 | no piece straddles a split between two bytes that no piece holds side by side |
| SentencePiece.MarkCutIsClean | src/bpe/sentencepiece.rs:544-553 | a piece straddling a mark that extends no run would be a crossing piece the guard finds there |
| SentencePiece.GuardSees | src/bpe/sentencepiece.rs:544-553 | the byte comparison on raw text sees a crossing piece wherever it occurs in the text with marks for spaces |
| SentencePiece.CutMeans | src/bpe/sentencepiece.rs:1194-1276 | the scanner cuts before a mark that continues no run, unless a piece with an interior mark has its bytes around it, and before one of eight punctuation bytes if no piece holds it right after the byte in front; nowhere else |
| SentencePiece.EveryMarkCuts | src/bpe/sentencepiece.rs:1194-1276 | a tokenizer that splits at every mark cuts before every mark |
| SentencePiece.CutIsClean | src/bpe/sentencepiece.rs:1194-1276 | no producible token straddles any cut of the scanner, with or without the virtual leading space |
| SentencePiece.UnitsMatchWhole | src/bpe/sentencepiece.rs:1194-1276 | on valid covered text, when multi-byte pieces are valid UTF-8, units cut by marks and punctuation encode to the tokens of one merge of the whole text |
| SentenceChunks.SentenceJobSound | src/load_tokenizer/htk_chunk.rs:113-131 | chunking covered normalized text on character edges meets everything the chunk protocol assumes |
| SentenceChunks.MarkJobSound | src/load_tokenizer/htk_chunk.rs:113-131 | the same for the tokenizer that splits at every mark |
| MarkSplits.EveryMarkIsOneMerge | src/bpe/sentencepiece.rs:1158-1170 | splitting at every mark encodes covered text to one merge of the whole text under the table without the merges that put a mark inside a piece |
| UncoveredText.LostCharacterBreaks | src/bpe/sentencepiece.rs:1392-1417 | for every character there is a vocabulary that covers its neighbours but not it, and a text whose units do not encode to the merge of the text |
| UncoveredText.CoverageIsNeeded | src/bpe/sentencepiece.rs:1194-1276 | units encode as one merge on all texts whose characters in a set are covered, in every mode, if and only if the set holds every character |
| UnitScanner.UnitCrossingPieces | src/bpe/sentencepiece.rs:502-536 | returns the crossing pieces exactly when there are at most 32 and none has a mark or a space around its interior mark |
| UnitScanner.CrossPiece | src/bpe/sentencepiece.rs:508-534 | one piece adds its interior marks in order, or makes the list unusable |
| UnitScanner.CrossingsAreText | src/bpe/sentencepiece.rs:502-536 | the bytes around a listed mark are valid text and not empty before it |
| UnitScanner.SplitTables | src/bpe/sentencepiece.rs:463-490 | the tables allow splitting before a punctuation byte after x exactly when no piece holds x before it |
| UnitScanner.FinalizeSpeedPaths | src/bpe/sentencepiece.rs:411-491 | the chosen split mode and the guard tables fit the vocabulary |
| UnitScanner.InitSymbols | src/bpe/sentencepiece.rs:1392-1417 | the character loop computes the initial symbols of the text the raw text stands for |
| UnitScanner.PieceSpansBoundary | src/bpe/sentencepiece.rs:544-553 | the one-load rejection never changes the answer of the comparison |
| UnitScanner.LastMarkEndsHere | src/bpe/sentencepiece.rs:1229-1250 | the scanner variable for the last mark says the same as the bytes before the position |
| UnitScanner.Closes | src/bpe/sentencepiece.rs:1217-1272 | the scanner closes a unit exactly at the specified cuts |
| UnitScanner.EncodeState.EncodeUnit | src/bpe/sentencepiece.rs:1299-1377 | through front cache, short and long map, a unit is encoded as without any cache, every entry stays exact, the unit is cached afterwards, and a cached unit changes nothing |
| UnitScanner.EncodeUnits | src/bpe/sentencepiece.rs:1194-1276 | the scan emits the unit-by-unit encoding of the text, every unit ending on a character boundary |
| UnitScanner.EncodeNormalized | src/bpe/sentencepiece.rs:1158-1170 | unless the tokenizer splits at every mark, normalized text encodes to one merge of the symbols of the whole text, in which nothing merges any more |
| UnitScanner.VirtualPrefixIsNormalizing | src/bpe/sentencepiece.rs:1130-1154 | the virtual leading space stands for exactly what the normalizer and metaspace steps prepend, in every prepend mode |
| UnitScanner.EncodeChunkRaw | src/bpe/sentencepiece.rs:1130-1154 | the raw path emits the units of the section, prefixed as its position and mode demand |
| UnitScanner.RawMatchesNormalized | src/bpe/sentencepiece.rs:1130-1154 | the raw path encodes to one merge of the materialised normalized section, in every prepend mode |
| UnitScanner.ModesAgree | src/bpe/sentencepiece.rs:1294-1298 | the bytes of a unit encode alike in raw and normalized mode under every vocabulary if and only if they hold no space |
| Fragments.FragmentCutMeans | src/bpe/sentencepiece.rs:612-628 | a fragment may be cut before a space or a mark, unless (when not every mark splits) a mark stands before it or a piece with an interior mark has its bytes around it; nowhere else |
| Fragments.CutIsLocalLeft | src/bpe/sentencepiece.rs:596-645 | before a fragment cut the scanner decides as if the text ended there |
| Fragments.CutIsLocalRight | src/bpe/sentencepiece.rs:596-645 | after a fragment cut it decides as if the text began there |
| Fragments.OneCutSplits | src/bpe/sentencepiece.rs:596-645 | cutting at such a place splits the serial token stream, the later part without prefix |
| Fragments.SafeFragmentRanges | src/bpe/sentencepiece.rs:596-645 | the ranges tile the text, all inner cuts are cuts of the serial scanner before a mark, and each range is the shortest of at least the target size |
| Fragments.FragmentsMatchSerial | src/bpe/sentencepiece.rs:596-645 | for every tiling at such cuts the fragments encode to the serial stream |
| Fragments.EncodeFragments | src/bpe/sentencepiece.rs:966-979 | first fragment as first, the others as continuations, each with its own cache: the serial stream, for every target size and prepend mode |
| Probing.FreeMeansAbsent | src/bpe/long_pretoken_cache.rs:53-69 | a free cell met on a key's walk proves the key absent |
| Probing.StoreKeeps | src/bpe/long_pretoken_cache.rs:71-106 | writing a new key where its walk ended keeps the table searchable |
| Fingerprints.PathIsFull | hypertok-hash/src/table.rs:341-370 | from a key's home up to its slot all slots are occupied, each at least as far from its own home |
| Fingerprints.InsertEntry | hypertok-hash/src/table.rs:341-370 | inserting with displacement swaps keeps every stored key findable and adds exactly the new one |
| Fingerprints.EarlyExitIsSafe | hypertok-hash/src/table.rs:151-175 | stopping at an empty slot or a smaller displacement never misses a stored key |
| Fingerprints.FindId | hypertok-hash/src/table.rs:151-175 | the search finds the stored id of the key if there is one, wrap-around included, and always ends |
| Fingerprints.FingerprintTable.Build | hypertok-hash/src/table.rs:122-149 | the finished table holds exactly the given ids in the least number of slots the load allows; an empty key set, a load out of range, a repeated key and a size overflow are each reported if and only if they occur; otherwise a refusal names an id without a successor, or there are more than 65536 keys |
| Fingerprints.SlotCountIsLeast | hypertok-hash/src/table.rs:132-138 | the slot count is the least one that keeps the keys within the load |
| Fingerprints.FingerprintTable.Lookup | hypertok-hash/src/table.rs:151-175 | lookup is the finite map on the stored keys |
| LongCache.LongPretokenCache.Get | src/bpe/long_pretoken_cache.rs:53-69 | get is the map lookup |
| LongCache.LongPretokenCache.Grow | src/bpe/long_pretoken_cache.rs:134-151 | doubling changes nothing stored and restores the load bound |
| LongCache.LongPretokenCache.SwitchToFullHash | src/bpe/long_pretoken_cache.rs:161-174 | rehashing every key in full changes nothing stored; all stored hashes match the new mode |
| LongCache.LongPretokenCache.Insert | src/bpe/long_pretoken_cache.rs:71-106 | insert is the map update and returns the old value, whatever growth or hash switch happens on the way |
| LongCache.MarkerOffsetIsLost | src/bpe/long_pretoken_cache.rs:13-25 | a key stored at the end of the arena is found again if and only if that offset is not the empty marker |
| ShortCache.FirstFreeUnique | src/bpe/pretoken_cache.rs:221-260 | the slot a failed lookup reports and the slot an insert walk finds are the same |
| ShortCache.ShortPretokenCache.GetOrSlot | src/bpe/pretoken_cache.rs:221-243 | the value of a stored key, or the first free slot of its walk |
| ShortCache.ShortPretokenCache.Insert | src/bpe/pretoken_cache.rs:263-276 | inserting an absent key is the map update |
| ShortCache.ShortPretokenCache.InsertAt | src/bpe/pretoken_cache.rs:278-295 | inserting at the reported slot is the map update, also when growth moves it |
| ShortCache.ShortPretokenCache.Replace | src/bpe/pretoken_cache.rs:297-321 | replacing is the map update for stored and absent keys |
| ShortCache.ShortPretokenCache.Grow | src/bpe/pretoken_cache.rs:323-338 | doubling changes nothing stored |
| ShortCache.ShortPretokenCache.ProbePair | src/bpe/pretoken_cache.rs:398-461 | the probe is positive exactly when one of the two home slots has the key, and for a real key gives that key's value, whatever hash it was probed with |
| PairRanks.PackKeyInjective | src/bpe/mod.rs:600-612 | ids below 2^21 give distinct keys that unpack to their pair |
| PairRanks.PackSlotExact | src/bpe/mod.rs:600-612 | a packed slot gives back key and id and is never the empty marker |
| PairRanks.PairRankTable.Rank | src/bpe/mod.rs:586-618 | the lookup answers as specified whatever the slots hold, and by the merge map on a valid table; the probe always ends |
| PairRanks.PairRankTable.Insert | src/bpe/mod.rs:519-554 | a merge is added exactly to the map if and only if its ids fit, the pair is new and a free slot lies within 64 steps of its home; otherwise nothing changes |
| PairRanks.PairRankTable.Build | src/bpe/mod.rs:392-469 | a built table holds exactly the merge map; with ids that fit, a refusal shows slots that leave no room near the home of some merge, and never meets a map of up to 65 merges |
| PairRanks.AnswerIsRank | src/bpe/mod.rs:586-618 | on a valid table the grid or the probe answers every pair by the merge map |
| PairImages.FromPrebuiltSlots | src/bpe/mod.rs:253-321 | exactly the importable images are accepted, and an accepted image becomes a valid table of its merges if and only if no pair is repeated |
| PairImages.ImageAnswers | src/bpe/mod.rs:253-321 | an accepted image answers every pair by its merges if and only if, for each pair beyond the grid, the entry nearest to its home carries the id listed last |
| PairImages.CheckReachable | src/bpe/mod.rs:297-316 | the layout walk accepts a slot exactly when a search for its key gets there within 64 steps |
| PairImages.PrebuiltSlotImage | src/bpe/mod.rs:369-386 | the exported image lists the occupied slots in order |
| PairImages.ImageRestores | src/bpe/mod.rs:253-321 | writing an exported image restores the slots |
| PairImages.ImageIsExact | src/bpe/mod.rs:369-386 | the image of a table is importable and says exactly the table's merges |
| PairImages.ExportImport | src/bpe/mod.rs:253-386 | exporting and importing a built table gives a table with the same merges and slots, when its ids are below the vocabulary length |
| PairImages.RepeatedPairMisleads | src/bpe/mod.rs:253-321 | whatever the hash, the importer accepts an image that lists a pair beyond the grid twice, and the lookup then answers the id listed first |
| Packing.PackBytesInjective | src/pretokenize/mod.rs:94-124 | different short pretokens have different keys, and only the empty one has key 0 |
| Packing.InlineEncodes | src/bpe/tiktoken.rs:145-179 | up to four tokens, the first below 2^24, survive packing into a value and unpacking its lanes |
| Packing.SpillEncodes | src/bpe/tiktoken.rs:802-809 | a spilled value names its tokens in the arena |
| Packing.EncodesAfterGrow | src/bpe/tiktoken.rs:802-809 | appending to the arena changes what no value stands for |
| Packing.PackVal | src/bpe/tiktoken.rs:802-809 | the packed value stands for the tokens, and the arena only grows |
| MemoEntries.ShortStored | src/bpe/tiktoken.rs:2374-2377 | storing a short encoding keeps every cache entry exact |
| MemoEntries.LongStored | src/bpe/tiktoken.rs:2415-2421 | storing a long encoding keeps every cache entry exact |
| MemoEntries.FlagFlip | src/bpe/tiktoken.rs:981-1015 | after the whole-word flag flips, the long entries are exact if and only if every cached long pretoken that is an entry merges to its own id |
| MemoEntries.FlagIsNoticed | src/bpe/tiktoken.rs:981-1015 | for every key of the long cache there is a model under which the flag makes a difference to it |
| MemoEntries.RebuiltIsFlagBlind | src/bpe/tiktoken.rs:981-1015 | under a table rebuilt from distinct entries the flag makes a difference to no nonempty pretoken if and only if the bytes of longer entries have ids below 256 |
| MemoEntries.RebuiltFits | src/bpe/tiktoken.rs:815-843 | such a rebuilt table with narrow byte ids is consistent and id-ranked, as every encoder here asks of its model |
| MemoEntries.OneEncoding | src/bpe/tiktoken.rs:657-676 | a pretoken that is an entry encodes to exactly the id of the last entry with its bytes when the flag is set or a short added token takes it over; every other pretoken encodes to the merge of its byte symbols, in which nothing merges any more |
| MemoEntries.FlagMatters | src/bpe/tiktoken.rs:657-676 | for a pretoken no added token takes over, short or long, both settings of the flag encode alike if and only if it is no entry or merges to its own id |
| MemoEntries.RewriteEnds | src/bpe/tiktoken.rs:1043-1070 | once every short pretoken two models disagree on is rewritten, the short cache is exact for the new one |
| MemoEntries.EncodeEachConcat | src/bpe/tiktoken.rs:1696-1712 | the encoding of a list of pretokens splits at every batch boundary |
| MemoEntries.Output.Append | src/bpe/tiktoken.rs:1823-1870 | appending keeps the committed ids and adds the new ones |
| MemoEncoder.Encoder.constructor | src/bpe/tiktoken.rs:588-648 | seeding leaves every entry exact and every short vocabulary entry cached |
| MemoEncoder.Encoder.SetAddedTokens | src/bpe/tiktoken.rs:1025-1071 | outgoing overwrites are undone and incoming ones applied, no key is added, and every entry is exact for the new set |
| MemoEncoder.Encoder.SetIgnoreMerges | src/bpe/tiktoken.rs:981-1015 | the encoder stays exact if and only if no cached long pretoken notices the flag; over a rebuilt table with narrow byte ids it always does |
| MemoEncoder.Encoder.Fork | src/bpe/tiktoken.rs:863-935 | a fork is an exact encoder of the same model with caches of its own |
| MemoEncoder.Encoder.ComputeMiss | src/bpe/tiktoken.rs:2335-2400 | a miss computes the uncached encoding, by forced pieces or by one merge |
| MemoEncoder.Encoder.EncodeMiss | src/bpe/tiktoken.rs:2335-2420 | a miss emits the uncached encoding, stores it, drops nothing and keeps every cache entry exact |
| MemoEncoder.Encoder.ProbeEmitSlow | src/bpe/tiktoken.rs:1823-1870 | the slow path appends the uncached encoding and restores the slack of the emit loop |
| MemoEncoder.Encoder.FastHit | src/bpe/tiktoken.rs:1773-1791 | a fast hit's lanes, cut to the count, are the pretoken's encoding |
| MemoEncoder.Encoder.EmitOne | src/bpe/tiktoken.rs:1762-1806 | four lanes are stored inside the reserved room whatever the probe said, and the cursor then stands after exactly the pretoken's ids, committed ones untouched |
| MemoEncoder.Encoder.ProbeEmitChunk | src/bpe/tiktoken.rs:1732-1815 | a batch appends the uncached encodings in order; the recorded ends are where each pretoken's ids stop |
| MemoEncoder.Encoder.EncodeFlat | src/bpe/tiktoken.rs:1696-1712 | for any history of calls the output grows by the concatenation of the uncached encodings; afterwards every pretoken is cached, and a call on cached pretokens changes no cache; bytes need tokens of their own only where forced splits are built in |
| MemoEncoder.Encoder.MemoizedEncode | src/bpe/tiktoken.rs:1649-1683 | every delivered slice is its pretoken's uncached encoding |
| WorkerPool.EncoderPool.Encode | src/wasm_threaded.rs:86-93 | whichever slot a call lands on, it returns the uncached encoding and the pool stays exact |
| WorkerPool.BeginTask | src/load_tokenizer/htk_chunk.rs:163-185 | a pretoken is planned as one call if it fits a chunk and as the chunks of its plan otherwise; refused exactly when it is long and the chunk size is below two overlaps or they do not fit the machine word |
| WorkerPool.RoomOfPlan | src/load_tokenizer/htk_chunk.rs:217-251 | before anything is encoded, the room a plan needs is that of its ranges and of one enlargement up to each later end |
| WorkerPool.Step | src/wasm_threaded.rs:222-258 | any unfinished task gets one call closer to its end, on any slot |
| WorkerPool.RunTask | src/load_tokenizer/htk_chunk.rs:163-185 | a task run to its end gives the uncached encoding |
| Threaded.PoolOfForks | src/wasm_threaded.rs:44-51 | forking gives private encoders that share no state and are all exact |
| Threaded.StepTask | src/wasm_threaded.rs:222-258 | a scheduled call advances one task and leaves the others as they were |
| Threaded.Schedule | src/wasm_threaded.rs:222-258 | every schedule ends with all tasks done |
| Threaded.EncodeThreaded | src/wasm_threaded.rs:200-271 | whatever slots and order the calls take, the ids are the in-order concatenation of the uncached encodings; the only refusal is a default chunk size that overflows the machine word |
| Threaded.TextFits | src/bpe/mod.rs:114-128 | nonempty valid pretokens under a vocabulary that loads meet what threaded encoding asks of its input |
| ChunkStream.FlushShort | src/load_tokenizer/htk_chunk_stream.rs:253-267 | flushing emits the waiting short pretokens in order |
| ChunkStream.EncodeLong | src/load_tokenizer/htk_chunk_stream.rs:219-240 | a long pretoken contributes its exact whole encoding |
| ChunkStream.TakePretoken | src/load_tokenizer/htk_chunk_stream.rs:195-241 | the buffer is flushed before a long pretoken, so emitted and waiting pretokens together are always the ones taken so far |
| ChunkStream.EncodeSegment | src/load_tokenizer/htk_chunk_stream.rs:180-251 | a segment appends the unchunked encoding; with an unusable chunk size it stops before the first long pretoken with all earlier ones emitted |
| ChunkStream.PieceGives | src/load_tokenizer/htk_chunk_stream.rs:62-92 | an added token contributes exactly its id, a segment the encodings of its pretokens |
| ChunkStream.PiecesConcat | src/load_tokenizer/htk_chunk_stream.rs:62-92 | the encoding of the stream splits between any two pieces |
| ChunkStream.EncodeChunkedStreaming | src/load_tokenizer/htk_chunk_stream.rs:62-92 | chunked streaming equals the unchunked encoding, every added token's id right after the ids of the pieces before it; it fails if and only if a long pretoken meets an unusable chunk size, and has then emitted exactly what comes before the first long pretoken |
| Reconciler.SplitEncodedResults | src/wasm.rs:1632-1663 | the flat buffer is cut exactly when there is one length per range and they use up the buffer; nothing is lost or reordered |
| Reconciler.CutIsUnique | src/wasm.rs:1632-1663 | two cuts of one buffer at the same lengths are the same |
| Reconciler.OverlapSession.AcceptInitial | src/wasm.rs:1689-1708 | exact worker results start the session exactly once, with the enlargements of the plan ahead |
| Reconciler.OverlapSession.AcceptEnlargement | src/wasm.rs:1711-1721 | an enlargement is taken when one is requested, with fewer chunks left and one more counted exactly when another is requested, and refused otherwise |
| Reconciler.OverlapSession.TakeIds | src/wasm.rs:1724-1730 | the ids are the whole text's encoding when nothing is awaited; asked too early the call is refused and the session is over |
| Varint.EncodeU32 | hypertok-format/src/varint.rs:3-13 | the loop appends the canonical encoding |
| Varint.EncodingShape | hypertok-format/src/varint.rs:3-13 | the encoding carries the value seven bits a byte, low bits first; all bytes but the last continue, and the last is zero only for zero |
| Varint.DecodeU32 | hypertok-format/src/varint.rs:15-34 | a value is accepted exactly when a canonical 32-bit encoding starts the input, with its length; each refusal has exactly one cause |
| Varint.EncodingUnique | hypertok-format/src/varint.rs:3-34 | no encoding is a prefix of another value's |
| Varint.RoundTrip | hypertok-format/src/varint.rs:3-34 | decoding an encoding plus any suffix gives the value and its length |
| TokenSections.Emit | hypertok-converter/src/tiktoken.rs:172-192 | the converter emits every slot's length and bytes, an empty slot as a token without bytes, and refuses only a token too long for 32 bits |
| TokenSections.SlotAdds | hypertok-converter/src/tiktoken.rs:183-192 | an empty slot adds the single byte 0 to the lengths and nothing to the arena; a used one adds its encoded length and its bytes |
| TokenSections.SectionsUnique | hypertok-format/src/reader.rs:543-587 | two token lists of one size with equal sections are equal |
| TokenSections.ValidateLengths | hypertok-format/src/reader.rs:443-513 | the sections are accepted exactly when they are those of some token list with the header's count and longest length, in which every special token has its own bytes, and an arena below 2^32 bytes |
| TokenSections.LengthIter.Next | hypertok-format/src/reader.rs:543-557 | the iterator yields the lengths in order and then stops |
| TokenSections.TokenIter.Next | hypertok-format/src/reader.rs:572-582 | the iterator yields each slot under its id and then stops |
| TokenSections.ReadBack | hypertok-converter/src/tiktoken.rs:183-192 | reading what the converter emitted yields every slot again, the bytes of a used one and none for an empty one |

## Left out

- Pretokenizer scanners: a segment is given as its list of nonempty pretokens.
- SIMD loops, prefetching, profiling twins, raw allocation: performance forms of the modelled loops.
- Concrete hash functions: arbitrary functions here; index masks are remainders by the table size, a power of two.
- Rust's `BinaryHeap` and `HashMap`: the heap is a list from which a minimum is popped, the merge map and the SentencePiece unit maps are finite maps.
- Prefetch hints of the short-pretoken scan (src/bpe/mod.rs:978-1055) and its two undispatched vector forms (src/bpe/mod.rs:1173-1318), which differ from the modelled packed-lane loop in their instructions only.
- The explicit-rank miss path of the memo encoder (src/bpe/tiktoken.rs:2209-2260): same caches around `MergeEngine.MergeRanked`.
- The compact pair table (src/bpe/compact_pair_ranks.rs) is the flat level of `PairRanks.PairRankTable` without the grid.
- The 64-bit words of the bigram set and of the byte-set tables: one boolean per bit here.
- Build variants with a lazily filled short cache or a hash-map long cache; the seeded short cache and the open-addressed long cache are modelled. Also the two-phase form of the streaming loop.
- Adding special tokens that extend the vocabulary after loading: the vocabulary is fixed here.
- Added-token matching, stripping and the cut blocks of fragments: fragments are proved for texts without added tokens.
- The materialised normalizer beyond space replacement and prepending, NFC, charsmaps.
- Splitting at every mark is related to the merge rule for normalized text only (`MarkSplits`); in raw mode it is carried through the scanner and the fragments.
- Table image headers, digests, worker images, resolver provenance, decoding, offsets, JSON telemetry.
- The 32-byte block bit mask of the unit scanner: positions are visited in order, one at a time.
- Lock poisoning and errors raised by the encoder callback of the chunk protocol; overflow of counters and of the reported u32 ranges.
- Rayon's parallel map: modelled as an arbitrary interleaving of locked calls.
- LongCache.LongPretokenCache.Insert: requires the key offset to stay below the empty marker 2^32 - 1, because an offset equal to it would read as an empty slot.
- MemoEncoder.Encoder.EncodeFlat: requires room for one arena token and one key byte per input byte below 2^32, because offsets are narrowed to 32 bits without a check; where forced splits are built in and used it also requires a token for every byte of a pretoken, which valid text under a loaded vocabulary has (`FromRanks.TextIsSpelled`).
- ForceSplit.ForcedSplitExact: requires a token for every byte of the pretoken, which valid text under a loaded vocabulary has (`FromRanks.TextIsSpelled`); on other bytes `ForceSplit.ByteTokensAreNeeded` shows it to be necessary.
- ForceSplit.EncodeForceSplit: the same requirement, for the same reason.
- SentencePiece.UnitsMatchWhole: requires covered text, necessary by `UncoveredText.CoverageIsNeeded`.
- Threaded.EncodeThreaded: requires room for every planned range and for one enlargement up to each later end, the most the protocol can ask for.
- PairRanks.PairRankTable.Rank: requires a free slot, which the planned size guarantees.
- Overlap.OverlapReconciliation.Start: requires the caller's encodings to be exact, as the property it keeps is about such callers.
- UnitScanner.EncodeUnits: requires the unit arena to stay below 2^32 tokens.

# Verified models of data structures, compressors, arithmetic and protocols

A Dafny 4.11 model of the hard cores of a collection of algorithm projects, with proofs of what those projects
promise. `dfyconfig.toml` lists the files.

Each module models one source file or component, in its own form: objects as classes whose methods change their
fields, in-place algorithms on arrays, protocols as state machines over their atomic steps. A method is proved
against a specification function or predicate; the lemmas beside it say what that specification means.

- **Bit streams and compression.** `BitStream` and `BitFields` refine word-level reads and writes at any bit offset to
  lists of bits. `HuffmanTree`, `HuffmanCode`, `Huffman`, `HuffmanCompress`, `HuffmanDecompress`, `HuffmanStream`:
  Huffman coding, with the optimality of the tree, the bound on the output that rests on it, the bound on code
  lengths by Fibonacci numbers, the quick lookup table, and the round trip of whole streams. `Lzw`, `LzwStream`: the
  encoder's dictionary and the decoder's table one entry behind it; `LzwLimits`, `LzwOverflow`: where the size estimate
  fails. `Lz77`, `Lz77Matches`, `Lz77Stream`: matches in a sliding window that is carried from chunk to chunk, and what
  they are good for. `Framing`, `SelfCopy`: what they share.
- **Arithmetic.** `BigDigits`: in-place arithmetic on buffers of 16-bit digits; Karatsuba multiplication and squaring
  as accumulation modulo the size of the target, and long division with a 3-by-2 digit quotient estimate.
  `BigScratch`: their scratch space to the digit. `BigText`: numbers as text in bases 2 to 36, and back.
- **Durability.** `WriteAheadLog`, `LogContents`, `TornTail`, `DictionaryStates`, `PersistentDictionary`: a dictionary with
  a write-ahead log and checkpoints by renaming. `LogContents` says which files load and which fail; `TornTail` is about
  appending behind a failed record. `DictionaryStates` lets the process crash between any two steps and after any number
  of bytes of a write; `PersistentDictionary` is the object itself, whose history is such a run.
- **Concurrency.** `Channel2`: any number of senders and receivers over a mutex, two semaphores and two shared
  pointers, one atomic step at a time.
- **Data structures.** `SkipList` (order statistics by per-level distances), `HashTable` (linear probing with
  re-placing removal), `Buddy` (an allocator over an implicit tree), `AhoCorasick` (both automata).
- **Algorithms.** `MergeSort` (recursive and by an explicit stack of frames), `Rotate` (reversals, block swaps, cycles),
  `ShortestPalindrome` (recursion, memo, rolling rows, with optimality).

`Numerals` holds powers, positional values and the arithmetic facts the others use, `Options` a value that may be
missing.

Places where the code and what is said about it differ:

- The size estimate for LZW output is 10 bits per byte, and the code offers chunks of 16 KiB, 128 KiB and 1 MiB. A single
  code takes more than that exactly if it is a code from 65536 on for two bytes, or one from 2^24 on for two or three
  (`CodeOver10`). With the estimated buffer the stream is proved for every input whose chunks fit it (`StreamRoundTrip` of
  `LzwStream`), and for chunk sizes from 68 to 83911 all do (`AllChunksFit`). For every size from 84920 to 11338239,
  128 KiB and 1 MiB among them, there are chunks that do not fit (`EstimateFails`): they go once through every pair of
  bytes and then repeat pairs that were late in this walk, each in a code of 27 bits, in an order that never lets a
  phrase grow to three bytes.
- Karatsuba multiplication asserts that nothing is carried or borrowed out of the target. `MulHalves` has the exact
  condition for a cleared target: the product of the sums and the top product must fit it together, because the one is
  added before the other is taken from it. With one digit more than both lengths they always do (`SpareDigit`); with
  exactly both lengths, which is what `mul` passes, two numbers of one even length with all digits BASE - 1 break the
  assertion (`AllOnesOverflow`). What leaves the target does not matter for the result: it is right modulo the size of
  the target, and the exact product over a cleared one.
- It also asserts scratch space of twice the shorter length. Given exactly that, the call for the product of the sums
  finds it met exactly if the length is even and neither sum carries (`NestedScratch`). What the recursion needs stays
  within twice the shorter length up to 4128768 digits all the same (`ScratchEnough`). At 4128769 there are two numbers
  whose sums carry so often that they reach two digits further (`FirstTooLittle`); `ScratchExact` tells for every length
  whether there are.
- A persistent dictionary keeps a key only if decoding its encoding gives the key back: if and only if for additions,
  removals and snapshots, and with one more case for updates (`AddSurvives`, `RemoveSurvives`, `SnapshotSurvives`,
  `UpdateSurvives`). A single surrogate is a key that is not kept, and beside U+FFFD it makes the replay fail
  (`LoneSurrogate`). The runs of `DictionaryStates` use keys that are kept.
- After an append that failed and could not be cut back the object still accepts operations; only a debug assertion of
  `Append` stands in the way, that the log is as long as recorded. While it holds at each append nothing completed is
  lost (`EveryRun`); a checkpoint or a restart makes it hold again. Appending all the same keeps every next operation if
  and only if the failed record is there to its last byte and its key was in the dictionary already (`SafeToGoOn`). Behind
  a torn record some update is lost; behind a whole one, adding its key once more makes every replay fail.
- An exception while a finished snapshot takes the place of the log leaves the object in use with its log closed. Every
  operation then throws and changes nothing, but `CheckPoint` can be called again, and its first step deletes the
  temporary file, which is the only copy of the entries if the log was deleted and the move failed. Nothing is lost if
  and only if there is a log file or there are no entries (`ClearsSafely`), or once the new snapshot is whole
  (`PartSaved`); otherwise a crash loses every completed operation (`SecondCheckPointLoses`, and `CompletedThenLost` for
  such a run from the start). `EveryRun` asks callers to look before a checkpoint in that case.
- The checksum covers the kind, the key and the value of a record, not its two sizes. A single changed byte of what it
  covers, or of itself, makes every load fail (`OneByteFails`). A size that has become too large looks like a record torn
  at the end of the file instead, and the load silently leaves out this record and all behind it (`GrownSize`).

## Model

| member | source | states |
|---|---|---|
| BitStream.OutputBitStream.constructor | C++/CompressionAlgo/bitStream.h:88-90 | a new output stream holds no bits and its buffer is cleared |
| BitStream.OutputBitStream.WriteInt | C++/CompressionAlgo/bitStream.h:102-118 | appends the w bits of the number, lowest first, at any bit offset, for widths 8, 16, 32 and 64, whether one word or two are touched |
| BitStream.OutputBitStream.WriteBool | C++/CompressionAlgo/bitStream.h:96-101 | appends one bit |
| BitStream.OutputBitStream.WriteByte | C++/CompressionAlgo/bitStream.h:102-118 | appends eight bits, without touching a byte beyond them |
| BitStream.OutputBitStream.WriteBits | C++/CompressionAlgo/bitStream.h:120-142 | appends the first count bits of the source, the same for an aligned and an unaligned position |
| BitStream.OutputBitStream.WriteUnaligned | C++/CompressionAlgo/bitStream.h:123-133 | the descent through 64, 32, 16, 8 and single bits appends the same bits as one copy would |
| BitStream.OutputBitStream.WriteAligned | C++/CompressionAlgo/bitStream.h:134-141 | the byte copy with a masked last byte appends the same bits |
| BitStream.InputBitStream.FetchBool | C++/CompressionAlgo/bitStream.h:19-22 | the next bit, without moving |
| BitStream.InputBitStream.FetchInt | C++/CompressionAlgo/bitStream.h:23-36 | the number whose bits are the next w bits, from one word or joined from two |
| BitStream.InputBitStream.Advance | C++/CompressionAlgo/bitStream.h:38-41 | moves on by that many bits |
| BitStream.InputBitStream.ReadBool | C++/CompressionAlgo/bitStream.h:43-47 | takes the next bit off what is left |
| BitStream.InputBitStream.ReadInt | C++/CompressionAlgo/bitStream.h:48-53 | takes off the next w bits and returns the one number below 2^w that has them |
| BitStream.InputBitStream.ReadBits | C++/CompressionAlgo/bitStream.h:54-77 | the destination's bits are those taken off, the same for an aligned and an unaligned position |
| BitStream.InputBitStream.ReadUnaligned | C++/CompressionAlgo/bitStream.h:57-68 | the descent through 64, 32, 16, 8 and single bits reads the same bits |
| BitStream.WordsWritten | C++/CompressionAlgo/bitStream.h:109-115 | or-ing a shifted number into one or two clear words adds it, shifted, to the number the whole buffer stands for |
| BitStream.AlignedAppends | C++/CompressionAlgo/bitStream.h:134-141 | copying whole bytes and a masked rest over zeros appends exactly the copied bits |
| BitStream.TwoWords | C++/CompressionAlgo/bitStream.h:29-35 | the high bits of one word and the low bits of the next are the bits at that offset of the buffer |
| BitStream.WholeBytes | C++/CompressionAlgo/huffman.cpp:139-139 | rounding the bit position up to bytes keeps every written bit |
| BitStream.FromToBits | C++/CompressionAlgo/bitStream.h:48-53 | a number below 2^n is determined by its n bits |
| BitStream.ToFromBits | C++/CompressionAlgo/bitStream.h:102-118 | a bit list is determined by the number it stands for and its length |
| BitFields.WriteSplit | C++/CompressionAlgo/lzw.cpp:36-39 | sixteen low bits and eight high bits together append the 24 bits of the number |
| BitFields.ReadSplit | C++/CompressionAlgo/lzw.cpp:17-20 | reads back the number whose 24 bits were written in two parts |
| HuffmanTree.MergeLightest | C++/CompressionAlgo/huffman.cpp:51-60 | from any tree, a tree over the weights with the two lightest merged can be made that costs at least their sum less |
| HuffmanTree.SinkLightest | C++/CompressionAlgo/huffman.cpp:51-60 | any tree can be rearranged, at no higher cost, so that the two lightest weights are siblings |
| HuffmanTree.SwapCost | C++/CompressionAlgo/huffman.cpp:51-60 | exchanging a lighter, higher leaf with a heavier, deeper one does not raise the cost |
| HuffmanTree.CollapseCost | C++/CompressionAlgo/huffman.cpp:57-59 | merging two sibling leaves into one lowers the cost by exactly their sum |
| HuffmanTree.ReducedStep | C++/CompressionAlgo/huffman.cpp:51-60 | each merge of the two lightest weights pays what every tree over the start weights has to pay |
| HuffmanTree.ReducedEnd | C++/CompressionAlgo/huffman.cpp:36-63 | a tree whose cost is what the merges paid has minimum total weighted leaf depth among all binary trees over the same weights |
| HuffmanTree.MergeHeavy | C++/CompressionAlgo/huffman.cpp:51-60 | merging trees whose children are no heavier than the partner keeps the weight at least Fibonacci of the height |
| HuffmanTree.HeightBelow | C++/CompressionAlgo/huffman.cpp:23-26 | a tree at least Fibonacci heavy for its height, of weight below 2^k, is lower than 2k |
| HuffmanTree.Balanced | C++/CompressionAlgo/huffman.cpp:120-124 | over at most 2^k weights there is a tree no deeper than k, whose cost, which a tree of minimum cost must not exceed, is at most k times the total weight |
| HuffmanCode.EncodedCost | C++/CompressionAlgo/huffman.cpp:114-120 | the number of code bits of a text is the weighted leaf depth of its code tree, or one per byte for a tree with one leaf |
| HuffmanCode.WalkPath | C++/CompressionAlgo/huffman.cpp:200-206 | following any bits from the root finds a symbol exactly when they begin with its path, and runs out of bits exactly when they are a shorter part of it |
| HuffmanCode.EncodeLength | C++/CompressionAlgo/huffman.cpp:114-120 | every byte takes at least one bit, so the loop of the fast decoder never runs out of stream |
| HuffmanCode.CountSyms | C++/CompressionAlgo/huffman.cpp:164-168 | the leaf count of a proper tree is the number of its symbols |
| Huffman.PopTop | C++/CompressionAlgo/huffman.cpp:52-53 | the queue yields an entry of least frequency, and keeps the others |
| Huffman.MergeTop | C++/CompressionAlgo/huffman.cpp:51-60 | one turn of the loop keeps: the queue's entries are roots of disjoint code trees in the node array, together over the bytes that occur, and what the merges paid is owed by every tree |
| Huffman.BuildHuffmanTree | C++/CompressionAlgo/huffman.cpp:36-63 | the node array holds, from the returned root on, a proper tree over exactly the bytes that occur, of minimum cost and Fibonacci heavy |
| Huffman.BuildLeaves | C++/CompressionAlgo/huffman.cpp:37-44 | the nodes from 1 on are leaves for exactly the bytes that occur, in order |
| Huffman.RepresentsFrame | C++/CompressionAlgo/huffman.cpp:54-58 | later changes of other nodes leave a tree in the node array as it is |
| HuffmanCompress.CountBytes | C++/CompressionAlgo/huffman.cpp:126-127 | the frequency table of the text |
| HuffmanCompress.GenerateCodeStr | C++/CompressionAlgo/huffman.cpp:65-79 | records for every symbol below the node the path to it behind the current prefix, and leaves the other symbols' strings |
| HuffmanCompress.GenerateCodeBits | C++/CompressionAlgo/huffman.cpp:80-97 | every symbol's bit field holds exactly its code, an absent symbol's none; a code must fit the 96 bits |
| HuffmanCompress.PackCode | C++/CompressionAlgo/huffman.cpp:92-95 | the bit field holds the code's bits and their number |
| HuffmanCompress.SerializeNode | C++/CompressionAlgo/huffman.cpp:99-112 | appends the tree in prefix order: a set flag and the byte for a leaf, a clear flag and both subtrees for a node |
| HuffmanCompress.CompressBuffer | C++/CompressionAlgo/huffman.cpp:114-120 | appends the codes of the text's bytes, one after the other |
| HuffmanCompress.EncodingOptimal | C++/CompressionAlgo/huffman.cpp:36-63 | no other proper tree, over the bytes of the text or over more, encodes the text in fewer bits |
| HuffmanCompress.Prune | C++/CompressionAlgo/huffman.cpp:36-63 | a tree cut down to some of its bytes gives none of them a longer code |
| HuffmanCompress.SizeBound | C++/CompressionAlgo/huffman.cpp:122-124 | the codes take at most 8 bits per byte of the text and the tree at most 2559 bits |
| HuffmanCompress.LongCodeLongText | C++/CompressionAlgo/huffman.cpp:23-26 | a code of d bits forces at least Fibonacci(d + 2) bytes of text |
| HuffmanCompress.ChunkTree | C++/CompressionAlgo/huffman.cpp:23-26 | for a chunk below 2^31 bytes no code is longer than 61 bits, so every code fits its 96-bit field |
| HuffmanCompress.Compress | C++/CompressionAlgo/huffman.cpp:122-140 | the output starts with the serialised tree and the codes of the text, and is at most 320 bytes longer than the text, inside the 512 bytes the caller provides |
| HuffmanDecompress.DeserializeNode | C++/CompressionAlgo/huffman.cpp:145-156 | reads back exactly the serialised tree, into consecutive nodes, and stops at its end |
| HuffmanDecompress.LeafCountOf | C++/CompressionAlgo/huffman.cpp:164-168 | counts the leaves of the tree in the node array |
| HuffmanDecompress.FillLeaf | C++/CompressionAlgo/huffman.cpp:176-180 | fills exactly the entries whose low bits are the code |
| HuffmanDecompress.FillTable | C++/CompressionAlgo/huffman.cpp:171-185 | below a node, fills exactly the entries that begin with the node's code: with symbol and code length where the code fits, else not at all |
| HuffmanDecompress.BuildQuickLookupTable | C++/CompressionAlgo/huffman.cpp:186-189 | each of the 256 entries holds what the walk along its eight bits finds, or nothing when that takes more than eight |
| HuffmanDecompress.Lookup | C++/CompressionAlgo/huffman.cpp:200-206 | the walk from the root returns the symbol whose path comes next and takes exactly the path off |
| HuffmanDecompress.QuickLookup | C++/CompressionAlgo/huffman.cpp:190-199 | the same symbol and the same bits for codes of at most eight bits; for longer ones no symbol, and nothing is taken off |
| HuffmanDecompress.UncompressQuick | C++/CompressionAlgo/huffman.cpp:210-222 | while eight or more bytes are missing, the table with the walk behind it decodes the text and never looks past the end of the stream |
| HuffmanDecompress.UncompressBuffer | C++/CompressionAlgo/huffman.cpp:207-227 | the destination receives the text, also when the tree is a single leaf or has two leaves |
| HuffmanDecompress.Uncompress | C++/CompressionAlgo/huffman.cpp:229-236 | undoes compression whatever bits follow the codes |
| HuffmanDecompress.RoundTrip | C++/CompressionAlgo/huffman.cpp:122-140 | decompressing a compressed chunk gives the chunk |
| Framing.ReadFrame | C++/CompressionAlgo/huffman.cpp:260-267 | reads back size and payload of the frame that comes next and stops at the next frame |
| Framing.FlattenSnoc | C++/CompressionAlgo/huffman.cpp:249-253 | a frame written behind the others |
| Framing.CutCount | C++/CompressionAlgo/huffman.cpp:245-246 | cut into full chunks and one that may be smaller, there are as many frames as the size divided by the chunk size, rounded up |
| Framing.FrameExample | C++/CompressionAlgo/huffman.cpp:249-252 | the bytes of a frame, sizes lowest byte first |
| HuffmanStream.CompressStream | C++/CompressionAlgo/huffman.cpp:242-255 | the output is one frame per chunk of that size, up to the last, which has the rest; their sources together are the input; every frame holds a tree of least cost and the codes of its chunk and nothing more; the output is at most 328 bytes for each chunk longer than the input |
| HuffmanStream.SmallestFrame | C++/CompressionAlgo/huffman.cpp:122-140 | a frame takes ten bits for each byte that occurs in it, less one, and no more for the text than any prefix code |
| HuffmanStream.UncompressStream | C++/CompressionAlgo/huffman.cpp:257-273 | the output is the sources of the frames, in order |
| HuffmanStream.StreamRoundTrip | C++/CompressionAlgo/huffman.cpp:242-273 | for every input and chunk size decompression undoes compression |
| Lzw.WriteCode | C++/CompressionAlgo/lzw.cpp:25-46 | appends the flags for the narrowest width that holds the code, and the code |
| Lzw.ReadCode | C++/CompressionAlgo/lzw.cpp:12-24 | reads back the code that was written and nothing more |
| Lzw.WidthNarrowest | C++/CompressionAlgo/lzw.cpp:25-46 | the width of a code is the least of the four that hold it |
| Lzw.ChunkCompressor.Find | C++/CompressionAlgo/lzw.cpp:71-73 | a reference found names the same text; if none is found, no finished phrase with its next byte is that text |
| Lzw.ChunkCompressor.TakePhrase | C++/CompressionAlgo/lzw.cpp:64-75 | the longest text from here that has a code, and that code |
| Lzw.ChunkCompressor.File | C++/CompressionAlgo/lzw.cpp:77-83 | the dictionary holds the entries of all finished phrases, each in the bucket of its hash |
| Lzw.NextPhrase | C++/CompressionAlgo/lzw.cpp:64-86 | taking the longest phrase with a code keeps the codes a greedy parse of the chunk |
| Lzw.CodeOver10 | C++/CompressionAlgo/lzw.cpp:25-46 | exactly the codes that take more than ten bits for each byte of their phrase: two bytes and a code from 65536 on, or three bytes and a code from 2^24 on |
| Lzw.ParseCost | C++/CompressionAlgo/lzw.cpp:60-92 | the first 65280 phrases take at most 9 bits per byte, later ones at most 27 bits for two bytes while all codes are below 2^24, and none more than 18 bits per byte |
| Lzw.WithinBudget | C++/CompressionAlgo/lzw.cpp:60-92 | a whole parse keeps that budget, so chunks of up to 65280 bytes never need more than 9 bits per byte |
| Lzw.CompleteFrom | C++/CompressionAlgo/lzw.cpp:64-86 | a greedy parse of a beginning goes on to the end of the chunk |
| Lzw.BeginningFits | C++/CompressionAlgo/lzw.cpp:64-86 | so the codes written so far fit wherever the codes of the whole chunk do |
| Lzw.ChunkCompressor.Compress | C++/CompressionAlgo/lzw.cpp:60-92 | in every buffer that has room for the codes of the chunk, and 64 bits: the output holds the codes of a complete greedy parse of the chunk and is as long as they are, and the dictionary is empty again |
| Lzw.ChunkUncompressor.CopyPhrase | C++/CompressionAlgo/lzw.cpp:133-144 | decodes one phrase, also when its code names the entry whose last byte is the first byte now being written |
| Lzw.ChunkUncompressor.AddEntry | C++/CompressionAlgo/lzw.cpp:135-149 | the decoder's table stays one entry behind the encoder's |
| Lzw.ChunkUncompressor.Uncompress | C++/CompressionAlgo/lzw.cpp:124-151 | the destination receives the chunk, for every complete parse of it, and the table is back at the 256 bytes |
| Lzw.RoundTrip | C++/CompressionAlgo/lzw.cpp:60-151 | decompressing a compressed chunk gives the chunk, whatever the hash |
| LzwStream.EstimateEnough | C++/CompressionAlgo/lzw.cpp:8-10 | the source's estimate of ten bits per byte, with room for the word touched last, holds whatever a chunk of up to 83911 bytes needs |
| LzwStream.AllChunksFit | C++/CompressionAlgo/lzw.cpp:8-10 | so for chunk sizes from 68 to 83911 the chunks of every input fit |
| LzwStream.PayloadSize | C++/CompressionAlgo/lzw.cpp:60-92 | a frame's payload takes at most 18 bits per byte of its chunk, and at most ten up to 83911 bytes |
| LzwStream.CompressChunk | C++/CompressionAlgo/lzw.cpp:171-175 | a chunk whose codes fit becomes a frame that holds the codes of a greedy parse of it and nothing more |
| LzwStream.CompressStream | C++/CompressionAlgo/lzw.cpp:166-179 | with the buffer the source provides, for every chunk size and input whose chunks fit it: one frame per chunk of that size, up to the last, which has the rest; the sources are the input; at most 18 bits per byte, ten for chunk sizes up to 83911, and 71 for each chunk |
| LzwStream.UncompressFrame | C++/CompressionAlgo/lzw.cpp:189-194 | one frame undone, whatever greedy parse it holds |
| LzwStream.UncompressStream | C++/CompressionAlgo/lzw.cpp:181-197 | the output is the sources of the frames, in order |
| LzwStream.StreamRoundTrip | C++/CompressionAlgo/lzw.cpp:166-197 | decompression undoes compression, for every chunk size and input whose chunks fit and every hash |
| LzwLimits.BeginningIsEntry | C++/CompressionAlgo/lzw.cpp:64-83 | every beginning of an entry, of two bytes or more, is an entry made no later |
| LzwLimits.UniqueParse | C++/CompressionAlgo/lzw.cpp:60-92 | the phrases and codes of a chunk are determined by the chunk |
| LzwOverflow.WalkPairs | C++/CompressionAlgo/lzw.cpp:64-83 | a closed walk of 65536 bytes in which every pair of bytes follows exactly once, each at a place computed from the pair |
| LzwOverflow.PlaceOf | C++/CompressionAlgo/lzw.cpp:64-83 | at that place of the walk the pair is found |
| LzwOverflow.EntryKey | C++/CompressionAlgo/lzw.cpp:77-83 | the chunks built on it never make an entry twice: each tells its number |
| LzwOverflow.ChunkComplete | C++/CompressionAlgo/lzw.cpp:60-92 | their greedy parse: single bytes, two-byte phrases seen early in the walk, single bytes again, then two-byte phrases seen late in it, and perhaps one last byte |
| LzwOverflow.CodesSize | C++/CompressionAlgo/lzw.cpp:25-46 | the bits of every part of that parse: 9 for a byte, 18 for an early pair, 27 for a late one |
| LzwOverflow.EstimateFails | C++/CompressionAlgo/lzw.cpp:8-10 | for every size from 84920 to 11338239, even or odd, there is a chunk whose codes, however it is compressed, take more than the estimated bytes |
| SelfCopy.CopyForward | C++/CompressionAlgo/lzw.cpp:137-140 | copying byte by byte repeats a text that overlaps its own copy |
| SelfCopy.CopyBlock | C++/CompressionAlgo/lzw.cpp:141-143 | copying a text that does not overlap its copy |
| Lz77.KindHolds | C++/CompressionAlgo/lz77.cpp:24-53 | every distance and size fits the fields of the format chosen for it |
| Lz77.WriteFormat | C++/CompressionAlgo/lz77.cpp:28-51 | appends the flags of the format, the distance and the size |
| Lz77.WriteRef | C++/CompressionAlgo/lz77.cpp:20-54 | writes the matched bytes as one reference, or as literals exactly when these take fewer bits |
| Lz77.WriteLiterals | C++/CompressionAlgo/lz77.cpp:25-26 | writing the match byte by byte stands for the same text |
| Lz77.ReadReference | C++/CompressionAlgo/lz77.cpp:60-74 | the flags lead to the format that was written; distance and size come back in all four formats |
| Lz77.ReadLiteralOrRef | C++/CompressionAlgo/lz77.cpp:55-86 | decodes one token behind what is there, overlapping references included, and takes exactly its bits |
| Lz77.CopyReference | C++/CompressionAlgo/lz77.cpp:77-84 | repeats the referenced bytes, by block or byte by byte when they overlap |
| Lz77.ChunkCompressor.SetupWithInitWindow | C++/CompressionAlgo/lz77.cpp:134-143 | the carried window is filed, except for its last position |
| Lz77.ChunkCompressor.AddRef | C++/CompressionAlgo/lz77.cpp:169-177 | files a position in front of its chain; the chains stay in descending order and complete |
| Lz77.ChunkCompressor.FindFirst | C++/CompressionAlgo/lz77.cpp:147-149 | the first position of the chain that agrees in four bytes, before the chain leaves the window |
| Lz77.ChunkCompressor.SearchChain | C++/CompressionAlgo/lz77.cpp:151-165 | the match returned goes on as far as it can, no candidate among the next 32 of the chain gives a longer one, and none in front of it agrees for as long unless that is to the end |
| Lz77.ChunkCompressor.FindLongestMatch | C++/CompressionAlgo/lz77.cpp:144-168 | a match is found if and only if some filed position of the window agrees in four bytes; of the 32 positions searched it is the longest, and the latest of those unless it goes to the end |
| Lz77.ChunkCompressor.FoundBest | C++/CompressionAlgo/lz77.cpp:147-164 | what is found along the chain is the best match among the 32 filed positions of the window with that hash, going back from the latest that agrees |
| Lz77.ChunkCompressor.EmitNext | C++/CompressionAlgo/lz77.cpp:107-117 | one turn adds a literal if no filed position of the window agrees in four bytes, else the best match, as a reference or as literals, whichever is shorter |
| Lz77.ChunkCompressor.Compress | C++/CompressionAlgo/lz77.cpp:100-127 | the output holds the tokens of such turns from the window to the end, which give the chunk behind the window, and is as long as they are; no reference reaches back further than the window, at most 9 bits per byte |
| Lz77Matches.KindCheapest | C++/CompressionAlgo/lz77.cpp:24-53 | the format of a reference is the cheapest with room for distance and size |
| Lz77Matches.TurnCovers | C++/CompressionAlgo/lz77.cpp:144-168 | a turn covers at least as many bytes as the text at any searched position agrees in |
| Lz77Matches.LatestCovered | C++/CompressionAlgo/lz77.cpp:147-148 | and whatever the hash at least as many as at the latest position that agrees in four |
| Lz77Matches.TurnCost | C++/CompressionAlgo/lz77.cpp:113-117 | a turn takes nine bits for a literal, else the lesser of nine bits a byte and the reference |
| Lz77Matches.EqualBytes | C++/CompressionAlgo/lz77.cpp:100-127 | a chunk of equal bytes takes four literals and one reference |
| Lz77Matches.RepeatedChunk | C++/CompressionAlgo/lz77.cpp:100-127 | a chunk that lies in the window at a searched position becomes one reference, or literals if these are shorter |
| Lz77Matches.RepeatedCost | C++/CompressionAlgo/lz77.cpp:100-127 | which takes at most 67 bits, and 19 if the window is below 256 bytes |
| Lz77.UncompressChunk | C++/CompressionAlgo/lz77.cpp:188-199 | the destination receives the chunk, for all tokens that give it |
| Lz77.CoversConcat | C++/CompressionAlgo/lz77.cpp:107-124 | tokens for one part and tokens for the next are tokens for both |
| Lz77Stream.TailStep | C++/CompressionAlgo/lz77.cpp:221-222 | what is carried over depends only on what was carried over before and the chunk, so both sides carry the same bytes |
| Lz77Stream.CompressFrame | C++/CompressionAlgo/lz77.cpp:211-219 | a chunk becomes a frame with the tokens the search takes behind the window and nothing more, at most nine eighths of its size |
| Lz77Stream.CompressStream | C++/CompressionAlgo/lz77.cpp:205-224 | one frame per chunk of that size, up to the last, which has the rest; every frame is compressed behind the window left by the frames before it; the sources are the input; at most 9 bits per byte and 71 for each chunk |
| Lz77Stream.FrameWindow | C++/CompressionAlgo/lz77.cpp:221-222 | the window of a frame is the last bytes of all sources before it, exactly as many as the window has or as there are |
| Lz77Stream.EqualFrame | C++/CompressionAlgo/lz77.cpp:205-224 | a first chunk of equal bytes makes a payload of 13 bytes at most |
| Lz77Stream.RepeatedFrame | C++/CompressionAlgo/lz77.cpp:205-224 | a chunk that occurs in the window carried over at a searched position makes a payload of 9 bytes at most, and of 3 if the window is below 256 bytes |
| Lz77Stream.UncompressFrame | C++/CompressionAlgo/lz77.cpp:234-239 | one frame undone behind the window |
| Lz77Stream.UncompressStream | C++/CompressionAlgo/lz77.cpp:226-245 | the output is the sources of all frames, with the window carried from frame to frame |
| Lz77Stream.StreamRoundTrip | C++/CompressionAlgo/lz77.cpp:205-245 | for every input, chunk size, window and hash decompression undoes compression |
| BigDigits.Length | C++/BigInteger/bigInteger2.h:19-24 | the number without its leading zeros has the same value, and nothing is cut off a number that has none |
| BigDigits.CompareSame | C++/BigInteger/bigInteger2.h:30-36 | the sign of the result is the order of the two values |
| BigDigits.AddSingleInplace | C++/BigInteger/bigInteger2.h:44-57 | old value plus the digit, with the carry as the next digit |
| BigDigits.SubSingleInplace | C++/BigInteger/bigInteger2.h:58-75 | old value minus the digit, with a borrow of at most one |
| BigDigits.MulSingle | C++/BigInteger/bigInteger2.h:76-91 | value times a digit, with a carry of one digit |
| BigDigits.MulSingleInplace | C++/BigInteger/bigInteger2.h:92-104 | value times a digit in place, with a carry of one digit |
| BigDigits.MulSingleAccumulate | C++/BigInteger/bigInteger2.h:105-123 | old target plus value times a digit, with the carry out |
| BigDigits.Add | C++/BigInteger/bigInteger2.h:144-168 | the sum of two numbers of any lengths, with the carry as the next digit |
| BigDigits.AddInplace | C++/BigInteger/bigInteger2.h:168-187 | old target plus the number, which may be the target itself, with the carry out |
| BigDigits.CarryMeans | C++/BigInteger/bigInteger2.h:307-312 | something is carried out exactly when the sum does not fit, and borrowed exactly when it is negative |
| BigDigits.SubInplace | C++/BigInteger/bigInteger2.h:222-250 | old target minus the number, with a borrow of at most one |
| BigDigits.AddsBoth | C++/BigInteger/bigInteger2.h:305-327 | adding x and then y modulo the size of the target adds x + y |
| BigDigits.AddsShifted | C++/BigInteger/bigInteger2.h:307-309 | adding x from digit k on adds x times BASE^k modulo the size of the target |
| BigDigits.AddsFits | C++/BigInteger/bigInteger2.h:360-369 | a sum that fits a cleared target is the target's value, without modulo |
| BigDigits.MulSmallAccumulate | C++/BigInteger/bigInteger2.h:252-260 | the target grows by the product, modulo its size |
| BigDigits.MulBlock | C++/BigInteger/bigInteger2.h:350-356 | one block of the longer number times the shorter one joins the target |
| BigDigits.MulOrdered | C++/BigInteger/bigInteger2.h:335-358 | schoolbook, halving and block splitting all add the product to the target modulo its size |
| BigDigits.MulAccumulate | C++/BigInteger/bigInteger2.h:330-358 | the target grows by the product of two numbers of any lengths in either order, modulo its size |
| BigDigits.MulSums | C++/BigInteger/bigInteger2.h:280-298 | the product of the sums of the halves joins the target in the middle; the two sums are where the scratch space begins, the product has what is behind them |
| BigDigits.SumsDemand | C++/BigInteger/bigInteger2.h:297-297 | what the product of the sums needs behind the two sums is what the call has been given |
| BigDigits.HalvesDemand | C++/BigInteger/bigInteger2.h:304-318 | and so it is for the two other products |
| BigDigits.AddProduct | C++/BigInteger/bigInteger2.h:299-328 | a product of halves joins the target at its place and leaves it in the middle; a carry leaves the target exactly when the sum does not fit, a borrow exactly when less is there than is taken |
| BigDigits.MoveProduct | C++/BigInteger/bigInteger2.h:307-312 | the same for a product already formed |
| BigDigits.MulHalves | C++/BigInteger/bigInteger2.h:274-328 | the three products of halves together add the whole product; over a cleared target the four assertions that nothing leaves it hold exactly when the product of the sums and the top product fit together |
| BigDigits.SpareDigit | C++/BigInteger/bigInteger2.h:307-309 | with one digit more than both lengths they always fit |
| BigDigits.AllOnesOverflow | C++/BigInteger/bigInteger2.h:307-309 | with exactly both lengths they do not for two numbers of one even length whose digits are all BASE - 1, where the assertion fails |
| BigDigits.MulSameSizeAccumulate | C++/BigInteger/bigInteger2.h:261-329 | Karatsuba: the target grows by the product of two numbers of n digits, modulo its size, with scratch space for these two numbers |
| BigDigits.Karatsuba | C++/BigInteger/bigInteger2.h:280-327 | (x1 + x0)(y1 + y0) in the middle, x1 y1 at the top less the middle, x0 y0 at the bottom less the middle make the product |
| BigDigits.ScratchEnough | C++/BigInteger/bigInteger2.h:264-264 | the scratch digits asked for are at most twice the shorter length, up to 4128768 digits |
| BigScratch.SumsInside | C++/BigInteger/bigInteger2.h:280-298 | for any two numbers of one length the sums of halves, those of the products within included, stay inside the scratch space asked for |
| BigScratch.ReachingEnd | C++/BigInteger/bigInteger2.h:280-298 | for some whose leading digit is 1 they take all of it |
| BigScratch.FurthestEnd | C++/BigInteger/bigInteger2.h:280-298 | for some of every length they take all that any two numbers of that length may ask for |
| BigScratch.ScratchExact | C++/BigInteger/bigInteger2.h:264-264 | twice the length holds the sums of any two numbers of that length if and only if it is not less than a number computed from the length |
| BigScratch.ScratchTooLittle | C++/BigInteger/bigInteger2.h:264-264 | if it is less, two such numbers, a target and scratch space of twice the length are shown |
| BigScratch.FirstTooLittle | C++/BigInteger/bigInteger2.h:264-264 | which is so for 4128769 digits, the first such length, where the sums need two digits more |
| BigDigits.NestedScratch | C++/BigInteger/bigInteger2.h:297-338 | given twice its length of scratch space, a call leaves the product of the sums twice its shorter length, as the assertion there wants, exactly when the length is even and neither sum carries |
| BigDigits.SquareRow | C++/BigInteger/bigInteger2.h:375-391 | one row of the schoolbook square: the square of a digit and twice its products with the later digits |
| BigDigits.SquareSmallAccumulate | C++/BigInteger/bigInteger2.h:371-395 | the target grows by the square, modulo its size |
| BigDigits.SquareParts | C++/BigInteger/bigInteger2.h:406-423 | two squares of halves and twice their product add the whole square; the last sum carries exactly when it does not fit what is there, and not when the whole square fits |
| BigDigits.AddDoubled | C++/BigInteger/bigInteger2.h:415-423 | twice the product of the halves joins the target in the middle; a carry leaves it exactly when the sum does not fit |
| BigDigits.SquareAccumulate | C++/BigInteger/bigInteger2.h:396-424 | the target grows by the square, modulo its size, with any existing content |
| BigDigits.SquareScratchEnough | C++/BigInteger/bigInteger2.h:399-399 | squaring uses at most twice its length of scratch digits, up to 4128768 digits |
| BigDigits.Mul | C++/BigInteger/bigInteger2.h:360-369 | over a cleared target of exactly both lengths the result is the exact product, or the square for the same buffer |
| BigDigits.Estimate | C++/BigInteger/bigInteger2.h:443-455 | the three leading digits over the two leading digits is at most BASE, and capped at BASE - 1 it is the true quotient digit or one more, for every divisor of two or more digits without leading zero |
| BigDigits.EstimateDigit | C++/BigInteger/bigInteger2.h:443-455 | the digit computed from the leading digits is the true quotient digit or one more |
| BigDigits.Corrected | C++/BigInteger/bigInteger2.h:457-462 | if the estimate times the divisor exceeds the dividend, one less is exact; otherwise the estimate is exact |
| BigDigits.TakeOff | C++/BigInteger/bigInteger2.h:463-467 | subtracting the multiple leaves no borrow |
| BigDigits.DivWithSingleQuotient | C++/BigInteger/bigInteger2.h:435-471 | old value is quotient digit times divisor plus the new value, which is below the divisor |
| BigDigits.DivideStep | C++/BigInteger/bigInteger2.h:482-485 | the quotient digit of one window joins the quotient of the digits above; what is left above the window is zero |
| BigDigits.DivideDigit | C++/BigInteger/bigInteger2.h:482-485 | one quotient digit of long division |
| BigDigits.Div | C++/BigInteger/bigInteger2.h:472-486 | the dividend becomes the old value modulo the divisor, and the quotient buffer, if given, the old value divided by it |
| BigText.CharOf | C++/BigInteger/Helper.h:21-24 | digit i is written as character i of the ten figures and the small letters |
| BigText.WorthIs | C++/BigInteger/Helper.h:16-30 | a character counts its place there, a capital letter that of the small letter, and no other character anything |
| BigText.DigitNumber | C++/BigInteger/Helper.h:16-30 | the number of one digit, and of a text with one digit more |
| BigText.LowerUnique | C++/BigInteger/Helper.h:16-30 | text without capital letters is determined by its digits |
| BigText.Blocks | C++/BigInteger/bigInteger2.h:541-542 | as many digits of the base as one digit of the number can count, and no more |
| BigText.FromString | C++/BigInteger/bigInteger2.h:535-577 | the buffer gets the number the characters stand for, letters of either case counted by their place in the alphabet, which must fit it, and no carry leaves it |
| BigText.DivSingleInplace | C++/BigInteger/bigInteger2.h:124-141 | old value is new value times the digit plus the remainder |
| BigText.WriteBlock | C++/BigInteger/bigInteger2.h:591-597 | one block of digits joins the text, and the number left stays without leading zero and gets smaller |
| BigText.ToString | C++/BigInteger/bigInteger2.h:578-610 | the characters stand for the number, have no leading zero, zeros inside kept, and no capital letters |
| BigText.UniqueText | C++/BigInteger/bigInteger2.h:578-610 | a number has one text without leading zeros |
| BigText.NumberRoundTrip | C++/BigInteger/bigInteger2.h:535-610 | reading the text of a number gives the number, in bases 2 to 36 |
| BigText.TextRoundTrip | C++/BigInteger/bigInteger2.h:535-610 | writing the number of a text without leading zeros gives the text in lower case, in bases 2 to 36 |
| WriteAheadLog.Reader.MoveNext | C#/PersistentDictionary2/PersistentDictionary.cs:372-403 | what is found at the position, read field by field; an incomplete record ends the log and moves to the end of the file |
| WriteAheadLog.ReadsRecords | C#/PersistentDictionary2/PersistentDictionary.cs:283-297 | the reader returns a record if and only if exactly its bytes lie there |
| WriteAheadLog.ReadWritten | C#/PersistentDictionary2/PersistentDictionary.cs:372-403 | a record at the end of the file is read back if it is whole and ends the log if it is torn anywhere; it is never taken for a corrupt one |
| WriteAheadLog.LoadSnapshot | C#/PersistentDictionary2/PersistentDictionary.cs:59-89 | the loop over the reader computes the replay of the whole file |
| LogContents.LoadExactly | C#/PersistentDictionary2/PersistentDictionary.cs:59-89 | a file loads if and only if it is the records of entries that can be applied in order and behind them nothing or a beginning of a record that asks for more than there is; what it loads is these entries applied |
| LogContents.WrongChecksum | C#/PersistentDictionary2/PersistentDictionary.cs:388-392 | a record with a wrong checksum behind a log that loads makes the load fail, whatever follows |
| LogContents.NegativeSize | C#/PersistentDictionary2/PersistentDictionary.cs:382-385 | so does a negative size |
| LogContents.ChangedByte | C#/PersistentDictionary2/PersistentDictionary.cs:388-392 | one changed byte of a record outside its sizes: in the checksum it always makes the load fail, elsewhere if the entry then has another checksum; if it has the same the bytes are its record |
| LogContents.MixTells | C#/PersistentDictionary2/PersistentDictionary.cs:248-248 | each step of the checksum tells its two arguments apart, because the multiplier is odd |
| LogContents.OneByteTells | C#/PersistentDictionary2/PersistentDictionary.cs:234-263 | the checksum changes with every single byte of the kind, the key and the value |
| LogContents.OneByteFails | C#/PersistentDictionary2/PersistentDictionary.cs:234-263 | so with that checksum every single changed byte of a record outside its sizes makes the load fail |
| LogContents.GrownSize | C#/PersistentDictionary2/PersistentDictionary.cs:383-387 | a size that has grown beyond the end of the file is taken for a torn tail, and the record and all behind it are lost without an error |
| LogContents.RecordExample | C#/PersistentDictionary2/PersistentDictionary.cs:289-294 | the bytes of one record |
| WriteAheadLog.ReplayAppend | C#/PersistentDictionary2/PersistentDictionary.cs:59-89 | a log that ends with a whole record goes on with whatever is appended |
| WriteAheadLog.LoadAppended | C#/PersistentDictionary2/PersistentDictionary.cs:283-297 | after an append of any beginning of a record the log loads the old dictionary, and the new one exactly when the last byte is there |
| WriteAheadLog.LoadsSnapshot | C#/PersistentDictionary2/PersistentDictionary.cs:112-124 | a snapshot written in any order loads exactly the entries written |
| WriteAheadLog.AddSurvives | C#/PersistentDictionary2/PersistentDictionary.cs:126-133 | after an addition the log gives back the dictionary if and only if the key is what decoding its encoding gives |
| WriteAheadLog.RemoveSurvives | C#/PersistentDictionary2/PersistentDictionary.cs:135-142 | after a removal, likewise |
| WriteAheadLog.UpdateSurvives | C#/PersistentDictionary2/PersistentDictionary.cs:147-151 | after an update, likewise, or if the key and what decoding gives both already hold the value |
| WriteAheadLog.SnapshotSurvives | C#/PersistentDictionary2/PersistentDictionary.cs:112-124 | a snapshot gives back the dictionary if and only if every key is what decoding its encoding gives |
| WriteAheadLog.SameEncodingFails | C#/PersistentDictionary2/PersistentDictionary.cs:74-76 | two keys with one encoding: the second addition is accepted and makes every later replay fail |
| WriteAheadLog.LoneSurrogate | C#/PersistentDictionary2/PersistentDictionary.cs:126-133 | such keys: a single surrogate and U+FFFD |
| TornTail.FirstSizes | C#/PersistentDictionary2/PersistentDictionary.cs:379-386 | the record that begins with a torn one takes the torn one's sizes as far as they are there, and ends behind it |
| TornTail.TornLoses | C#/PersistentDictionary2/PersistentDictionary.cs:299-313 | whatever torn record is left at the end of the log, some value written next is not read back |
| TornTail.WholeTail | C#/PersistentDictionary2/PersistentDictionary.cs:299-313 | behind a record left there whole, the next one is applied to a dictionary with it, and the replay fails if the next one adds its key again |
| TornTail.AppendAfterStrayByte | C#/PersistentDictionary2/PersistentDictionary.cs:299-313 | one stray byte, and an 18-byte record written behind it without a fault is lost |
| DictionaryStates.AlwaysRecoverable | C#/PersistentDictionary2/PersistentDictionary.cs:36-50 | in every phase, also while the log is closed after an exception in its replacement, a restart finds the completed operations, and the one in flight, or left by a failed append, exactly when its last byte is in the log |
| DictionaryStates.ConstructorKeeps | C#/PersistentDictionary2/PersistentDictionary.cs:36-50 | moving a finished snapshot into place, replaying and opening the log keep the invariant |
| DictionaryStates.CheckPointKeeps | C#/PersistentDictionary2/PersistentDictionary.cs:96-110 | each step of a checkpoint keeps the invariant, and so does an exception while it is made or while the log is closed, deleted, replaced or opened again; one that begins with the log closed must find a log file or no entries |
| DictionaryStates.SaveKeeps | C#/PersistentDictionary2/PersistentDictionary.cs:112-124 | any number of further snapshot bytes keep it, and a whole snapshot loads the dictionary |
| DictionaryStates.WriteKeeps | C#/PersistentDictionary2/PersistentDictionary.cs:287-295 | any number of further record bytes keep it |
| DictionaryStates.OperationKeeps | C#/PersistentDictionary2/PersistentDictionary.cs:126-152 | beginning, completing and failing an operation keep it, whether the log can be cut back or not |
| DictionaryStates.StepRefines | C#/PersistentDictionary2/PersistentDictionary.cs:36-152 | every step, its append finding the log at its recorded length and its checkpoint, if the log is closed, a log file or no entries, is to the callers a step of a dictionary whose operations are atomic: checkpoints, refused appends and crashes change nothing, a restart settles the operation in flight as a whole or not at all, and a checkpoint drops one that failed without being cut off |
| DictionaryStates.EveryRun | C#/PersistentDictionary2/PersistentDictionary.cs:36-152 | in every run of operations, checkpoints, exceptions at any point, the replacement of the log included, further calls, crashes and restarts in which each append finds the log as long as recorded and no checkpoint deletes the only copy of the entries, the replay never fails, no completed operation is lost, and a dictionary in use shows exactly the completed operations |
| DictionaryStates.ClearsSafely | C#/PersistentDictionary2/PersistentDictionary.cs:98-99 | a checkpoint that begins with the log closed leaves nothing lost behind its first step if and only if there is a log file or there are no entries |
| DictionaryStates.PartSaved | C#/PersistentDictionary2/PersistentDictionary.cs:101-101 | and it stays so until the new snapshot is there to its last byte |
| DictionaryStates.LoadsPart | C#/PersistentDictionary2/PersistentDictionary.cs:112-124 | where a snapshot breaks off it loads without its last key |
| DictionaryStates.SecondCheckPointLoses | C#/PersistentDictionary2/PersistentDictionary.cs:98-99 | every run with entries, the log closed and no log file goes on, by a checkpoint, a crash and a restart, to an empty dictionary |
| DictionaryStates.FailedReplacement | C#/PersistentDictionary2/PersistentDictionary.cs:104-107 | every dictionary in use gets there when the log is deleted and the move fails |
| DictionaryStates.CompletedThenLost | C#/PersistentDictionary2/PersistentDictionary.cs:96-110 | such a run from the first start, with one addition completed and lost |
| DictionaryStates.GoesOn | C#/PersistentDictionary2/PersistentDictionary.cs:283-314 | nothing but that assertion keeps the code from appending behind what a failed append has left |
| DictionaryStates.SafeToGoOn | C#/PersistentDictionary2/PersistentDictionary.cs:285-313 | doing so keeps every next operation if and only if the failed record is there to its last byte and its key was in the dictionary already |
| DictionaryStates.LoadsWholeTail | C#/PersistentDictionary2/PersistentDictionary.cs:72-76 | behind a whole failed record: adding its key again makes every replay fail, all other operations are kept together with the failed one |
| DictionaryStates.TornNotKept | C#/PersistentDictionary2/PersistentDictionary.cs:299-313 | behind a torn one some update is not kept |
| PersistentDictionary.PersistentDictionary.constructor | C#/PersistentDictionary2/PersistentDictionary.cs:36-50 | started on whatever files a run leaves behind, it holds the completed operations and of the pending one all or nothing |
| PersistentDictionary.PersistentDictionary.MoveSnapshot | C#/PersistentDictionary2/PersistentDictionary.cs:40-41 | the file that will be read is the one a restart recovers from |
| PersistentDictionary.PersistentDictionary.LoadDictionary | C#/PersistentDictionary2/PersistentDictionary.cs:43-43 | the dictionary is the replay of the file, which never fails |
| PersistentDictionary.PersistentDictionary.OpenWriter | C#/PersistentDictionary2/PersistentDictionary.cs:272-281 | the log exists and the recorded length is the file's |
| PersistentDictionary.PersistentDictionary.CheckPoint | C#/PersistentDictionary2/PersistentDictionary.cs:96-110 | the dictionary stays, the file holds one addition per entry in some order, the temporary file is gone, also when the log ended with what a failed append had left or was closed; after an exception in the snapshot the object is in use as before; after one in the replacement it is in use with its log closed, its two files as far as the replacement had come, and the next checkpoint may begin if there is a log file or no entries |
| PersistentDictionary.PersistentDictionary.ReplaceLog | C#/PersistentDictionary2/PersistentDictionary.cs:104-109 | the finished snapshot takes the place of the log, or after an exception before the deletion, before the move or before the log is opened again the object is in use with its log closed |
| PersistentDictionary.PersistentDictionary.MoveIntoPlace | C#/PersistentDictionary2/PersistentDictionary.cs:107-109 | the snapshot is moved and opened, or the exception leaves it beside the place of the log or in it |
| PersistentDictionary.PersistentDictionary.CreateSnapshot | C#/PersistentDictionary2/PersistentDictionary.cs:112-124 | the temporary file holds one addition per entry; after an exception in any entry the object is in use as before |
| PersistentDictionary.PersistentDictionary.Append | C#/PersistentDictionary2/PersistentDictionary.cs:283-314 | the whole record is in the log, or, after an exception at any byte, the last one included, the log is cut back to what it was or holds exactly the bytes written; if the log is closed it throws and nothing changes |
| PersistentDictionary.PersistentDictionary.BreakOffAppend | C#/PersistentDictionary2/PersistentDictionary.cs:299-313 | the bytes written are cut off, or stay with the log longer than recorded |
| PersistentDictionary.PersistentDictionary.Perform | C#/PersistentDictionary2/PersistentDictionary.cs:126-152 | the dictionary changes exactly when there was no exception; if the log is closed there is one |
| PersistentDictionary.PersistentDictionary.Add | C#/PersistentDictionary2/PersistentDictionary.cs:126-133 | a present key is refused; otherwise the entry is added, or the dictionary does not change; if the log is closed nothing does |
| PersistentDictionary.PersistentDictionary.Set | C#/PersistentDictionary2/PersistentDictionary.cs:147-151 | the entry is set, or the dictionary does not change; if the log is closed nothing does |
| PersistentDictionary.PersistentDictionary.Remove | C#/PersistentDictionary2/PersistentDictionary.cs:135-142 | an absent key is refused; otherwise the entry is gone, or the dictionary does not change; if the log is closed nothing does |
| PersistentDictionary.PersistentDictionary.Dispose | C#/PersistentDictionary2/PersistentDictionary.cs:154-161 | whatever has happened to the object before, its files can be opened again |
| AhoCorasick.LongestStep | C++/AlgoAndADT/multiStringMatch.h:126-130 | after one more letter the longest suffix in the trie depends only on the longest suffix before |
| AhoCorasick.LongestWins | C++/AlgoAndADT/multiStringMatch.h:132-137 | every suffix that is in the trie is a suffix of the longest one |
| AhoCorasick.FailureStep | C++/AlgoAndADT/multiStringMatch.h:127-129 | where a node has no child for the letter its longest proper suffix takes over |
| AhoCorasick.OccurrencesExact | C++/AlgoAndADT/multiStringMatch.h:124-139 | the list of occurrences holds exactly the positions where the pattern occurs, in increasing order |
| AhoCorasick.WalkStep | C++/AlgoAndADT/multiStringMatch.h:132-137 | one step along the failure links passes exactly one suffix that is in the trie |
| AhoCorasick.NewNode | C++/AlgoAndADT/multiStringMatch.h:114-118 | a new child keeps the trie: one node per word, a child exactly where the longer word has a node |
| AhoCorasick.ShorterDone | C++/AlgoAndADT/multiStringMatch.h:162-167 | breadth first: whatever is shorter than the words in the queue is finished |
| AhoCorasick.Automaton.SetPattern | C++/AlgoAndADT/multiStringMatch.h:110-123 | a new pattern's beginnings, and nothing else, are added to the trie and its node is marked |
| AhoCorasick.Automaton.Follow | C++/AlgoAndADT/multiStringMatch.h:127-130 | the node for the longest suffix of the word and the letter |
| AhoCorasick.Automaton.VisitLetter | C++/AlgoAndADT/multiStringMatch.h:169-181 | the child joins the queue and its link leads to its longest proper suffix in the trie |
| AhoCorasick.Automaton.BuildPrefix | C++/AlgoAndADT/multiStringMatch.h:162-183 | every failure link leads to the longest proper suffix present in the trie |
| AhoCorasick.Automaton.FillLetter | C++/AlgoAndADT/multiStringMatch.h:226-237 | a missing transition is replaced by where the failure link leads |
| AhoCorasick.Automaton.BuildFilled | C++/AlgoAndADT/multiStringMatch.h:219-240 | every transition leads to the longest suffix of the word and the letter, and all failure links are set |
| AhoCorasick.Automaton.Report | C++/AlgoAndADT/multiStringMatch.h:132-137 | the patterns that end here, and no others, get one more start position each |
| AhoCorasick.Automaton.Find | C++/AlgoAndADT/multiStringMatch.h:124-139 | each pattern's result grows by exactly its occurrences in the text, in increasing order |
| AhoCorasick.Automaton.FindFilled | C++/AlgoAndADT/multiStringMatch.h:207-218 | the same results as the search that walks the failure links |
| SkipList.NextIns | C++/AlgoAndADT/skipList.h:84-90 | how the next node of a level changes when a node comes in |
| SkipList.PtrsIns | C++/AlgoAndADT/skipList.h:84-95 | relinking the node before keeps every link of a level leading to the next node of that height |
| SkipList.DistsIns | C++/AlgoAndADT/skipList.h:98-107 | setting the new distance and correcting the one across keeps every distance of a level the gap in the full list |
| SkipList.PtrsDel | C++/AlgoAndADT/skipList.h:124-144 | unlinking keeps every link of a level leading to the next node of that height |
| SkipList.DistsDel | C++/AlgoAndADT/skipList.h:128-140 | correcting the one distance across keeps every distance of a level the gap in the full list |
| SkipList.DictIns | C++/AlgoAndADT/skipList.h:76-110 | a node in its place adds its entry and keeps the order of keys |
| SkipList.DictDel | C++/AlgoAndADT/skipList.h:121-150 | a node taken out removes its entry and nothing else |
| SkipList.Below | C++/AlgoAndADT/skipList.h:151-164 | the keys below the one at a position are those of the positions before it |
| SkipList.SkipList.Walk | C++/AlgoAndADT/skipList.h:83-96 | the walk along a level ends at the last node before the key, having skipped as many places as it counted |
| SkipList.SkipList.Insert | C++/AlgoAndADT/skipList.h:76-110 | for a fresh key and any height the contents gain the entry, each level stays an ordered sublist of the one below and each distance stays exact |
| SkipList.SkipList.Get | C++/AlgoAndADT/skipList.h:111-120 | the value exactly when the key is in the contents |
| SkipList.SkipList.Remove | C++/AlgoAndADT/skipList.h:121-150 | the entry is gone exactly when it was there, with all levels and distances exact |
| SkipList.SkipList.GetKth | C++/AlgoAndADT/skipList.h:151-166 | the key with exactly k smaller keys in the contents |
| SkipList.SkipList.LinkLevel | C++/AlgoAndADT/skipList.h:82-97 | one level of the descent: the new node is linked exactly if it reaches the level, and what was passed is noted |
| SkipList.SkipList.CountLevel | C++/AlgoAndADT/skipList.h:99-107 | one level of the correction of distances |
| SkipList.SkipList.UnlinkLevel | C++/AlgoAndADT/skipList.h:125-144 | one level of the descent of a removal |
| HashTable.FindBucket | C++/AlgoAndADT/hash.h:241-249 | the search ends at the key or at an empty slot, past occupied slots with other keys |
| HashTable.BucketFinds | C++/AlgoAndADT/hash.h:210-213 | the search finds a key if and only if the table holds it |
| HashTable.EmptySlot | C++/AlgoAndADT/hash.h:168-173 | with more slots than entries there is an empty slot |
| HashTable.PutKeeps | C++/AlgoAndADT/hash.h:182-193 | an entry put where the search ended keeps all ways from home to place occupied |
| HashTable.HoleMade | C++/AlgoAndADT/hash.h:195-199 | right after a removal only the entries up to the next empty slot can be out of place |
| HashTable.GoesBack | C++/AlgoAndADT/hash.h:202-206 | an entry taken out again goes back into the part the hole has gone through, to an empty slot |
| HashTable.Replaced | C++/AlgoAndADT/hash.h:201-207 | placing one more entry anew keeps what the loop relies on |
| HashTable.AllPlaced | C++/AlgoAndADT/hash.h:201-201 | when an empty slot is reached every entry is in its place |
| HashTable.ChooseLargerSize | C++/AlgoAndADT/hash.h:234-240 | the least listed size above the present one |
| HashTable.OpenAddressingHashTable.constructor | C++/AlgoAndADT/hash.h:136-138 | a new table is empty and has the least listed number of slots above the one asked for |
| HashTable.OpenAddressingHashTable.Get | C++/AlgoAndADT/hash.h:210-213 | the value exactly when the key is in the contents |
| HashTable.OpenAddressingHashTable.Insert | C++/AlgoAndADT/hash.h:182-193 | the contents gain the entry; the result tells whether the key is new; the table grows to the next listed size exactly if more than half of the slots were taken, so that at most half and one are; a larger size must be listed only if the table has to grow |
| HashTable.OpenAddressingHashTable.Rehash | C++/AlgoAndADT/hash.h:226-233 | the contents stay, in the least listed number of slots above the present one |
| HashTable.OpenAddressingHashTable.RemoveAt | C++/AlgoAndADT/hash.h:197-208 | the re-placing loop ends and restores the table without the entry |
| HashTable.OpenAddressingHashTable.Remove | C++/AlgoAndADT/hash.h:194-209 | the entry is gone exactly when it was there; the slots stay as many |
| Buddy.LiveAligned | C++/BuddyAllocator/buddy.c:38-41 | live blocks lie inside the area at multiples of their size |
| Buddy.LiveDisjoint | C++/BuddyAllocator/buddy.c:62-79 | different live blocks do not overlap |
| Buddy.TakeLive | C++/BuddyAllocator/buddy.c:62-79 | after an allocation the live blocks are those before and the new one |
| Buddy.TakeWasFree | C++/BuddyAllocator/buddy.c:66-71 | the block handed out is aligned and overlapped by no live block |
| Buddy.TakeLeftmost | C++/BuddyAllocator/buddy.c:66-71 | it is the free aligned block of that size with the least offset |
| Buddy.RefusedExactly | C++/BuddyAllocator/buddy.c:66-66 | the root has room for a size exactly when there is an aligned block of it that no live block overlaps |
| Buddy.GiveLive | C++/BuddyAllocator/buddy.c:80-94 | freeing removes the block and nothing else |
| Buddy.GiveTaken | C++/BuddyAllocator/buddy.c:80-94 | freeing what was just allocated restores the tree |
| Buddy.RepUnique | C++/BuddyAllocator/buddy.c:29-32 | the array entries are determined by the tree |
| Buddy.RestoresEntries | C++/BuddyAllocator/buddy.c:62-94 | freeing right after allocating restores every array entry |
| Buddy.StaleUp | C++/BuddyAllocator/buddy.c:74-77 | correcting one entry on the way up makes the array right one level higher |
| Buddy.LivePath | C++/BuddyAllocator/buddy.c:82-84 | on the way up from a block's first unit every entry is above 0 until the block itself |
| Buddy.ToCeilPowerOf2 | C++/BuddyAllocator/buddy.c:14-27 | the exponent of the least power of two that is at least the request |
| Buddy.Buddy.constructor | C++/BuddyAllocator/buddy.c:43-55 | everything is free |
| Buddy.Buddy.Alloc | C++/BuddyAllocator/buddy.c:62-79 | -1 exactly when the root has no room for the rounded size, with nothing changed; else the offset and the tree of the leftmost descent |
| Buddy.Buddy.Carve | C++/BuddyAllocator/buddy.c:67-78 | the offset returned is that of the block taken, and the array holds the new tree |
| Buddy.Buddy.FindBlock | C++/BuddyAllocator/buddy.c:82-84 | a block's node and height are recovered from its offset alone |
| Buddy.Buddy.Release | C++/BuddyAllocator/buddy.c:80-94 | the block is free again, and free halves are joined on the way up |
| Buddy.Buddy.Size | C++/BuddyAllocator/buddy.c:96-101 | the size of the live block |
| Channel2.SendKeeps | C++/Channel/main.cpp:91-102 | every step of a send keeps the invariant |
| Channel2.ReceiveKeeps | C++/Channel/main.cpp:103-112 | every step of a receive keeps the invariant |
| Channel2.EveryRun | C++/Channel/main.cpp:88-112 | the invariant holds after every interleaving of any number of calls |
| Channel2.FinishedSend | C++/Channel/main.cpp:91-102 | a finished send was taken by exactly one finished receive, which has its bytes up to the smaller size, and both returned that size |
| Channel2.FinishedReceive | C++/Channel/main.cpp:103-112 | a finished receive took from exactly one send and has its bytes up to the smaller size |
| Channel2.CopiesWhileBlocked | C++/Channel/main.cpp:103-112 | a receiver uses the shared pointers only while the sender they lead to is blocked, and no other receiver does |
| Channel2.NeverStuck | C++/Channel/main.cpp:88-112 | while a send and a receive are unfinished some call can go on |
| Rotate.Reverse | C++/AlgoAndADT/rotate.h:5-9 | the range reversed, the rest unchanged |
| Rotate.Rotate1 | C++/AlgoAndADT/rotate.h:11-16 | three reversals make the left rotation |
| Rotate.SwapRange | C++/AlgoAndADT/rotate.h:18-23 | two ranges exchanged, the rest unchanged |
| Rotate.Rotate2 | C++/AlgoAndADT/rotate.h:24-37 | recursive block swapping makes the left rotation |
| Rotate.Gcd | C++/AlgoAndADT/rotate.h:39-47 | a divisor of both numbers that is a sum of multiples of them |
| Rotate.CommonDivisor | C++/AlgoAndADT/rotate.h:39-47 | every common divisor divides it |
| Rotate.WalkCovers | C++/AlgoAndADT/rotate.h:54-64 | the walk from a start comes to every index of its class modulo the divisor |
| Rotate.CycleIsClass | C++/AlgoAndADT/rotate.h:54-64 | a whole cycle visits exactly the indices of its class |
| Rotate.NextIsNew | C++/AlgoAndADT/rotate.h:57-62 | no index is visited twice before the cycle closes |
| Rotate.MoveCycle | C++/AlgoAndADT/rotate.h:55-63 | one cycle moved: each of its indices gets what was a step further on |
| Rotate.Rotate3 | C++/AlgoAndADT/rotate.h:48-65 | the cycles from 0 to the divisor make the left rotation |
| MergeSort.MergeSorted | C++/AlgoAndADT/sort.h:101-109 | the merge of sorted lists is sorted |
| MergeSort.MergeCombine | C++/AlgoAndADT/sort.h:101-109 | the destination gets the merge of the two ranges, the rest stays |
| MergeSort.SortMoveSorts | C++/AlgoAndADT/sort.h:112-123 | the destination gets a sorted permutation of the range; only the two ranges change |
| MergeSort.SortInplaceSorts | C++/AlgoAndADT/sort.h:124-132 | the range becomes a sorted permutation of itself; only it and the scratch space change |
| MergeSort.MergeSortMove | C++/AlgoAndADT/sort.h:112-123 | the recursive form computes the memory the specification says |
| MergeSort.MergeSortInplace | C++/AlgoAndADT/sort.h:124-132 | the recursive form computes the memory the specification says |
| MergeSort.TurnFinishes | C++/AlgoAndADT/sort.h:300-376 | one turn of the loop does part of what the top frame has to do and leaves the rest to the frames that replace it |
| MergeSort.TurnKeeps | C++/AlgoAndADT/sort.h:300-376 | a turn leaves unchanged what the memory will be once all frames are done |
| MergeSort.TurnCounts | C++/AlgoAndADT/sort.h:300-376 | every turn takes one from the number of turns left |
| MergeSort.DepthLog | C++/AlgoAndADT/sort.h:295-296 | n elements need at most one frame more than the binary logarithm of n, rounded up |
| MergeSort.TurnFits | C++/AlgoAndADT/sort.h:295-296 | a turn keeps enough room on the stack for what every frame still needs |
| MergeSort.MakeTurn | C++/AlgoAndADT/sort.h:301-375 | one turn: which frames replace the top one and what is written |
| MergeSort.MergeSortIteration | C++/AlgoAndADT/sort.h:290-377 | the loop ends, sorts, does to the memory what the recursive form does, and the largest number of frames it held, which is returned, is at most the depth for that many elements and 32 for up to 2^31 |
| ShortestPalindrome.ShortestFits | C++/DynamicProgramming/shortestPalindrome.h:5-11 | the result is a palindrome and contains the line as a subsequence |
| ShortestPalindrome.ShortestIsShortest | C++/DynamicProgramming/shortestPalindrome.h:5-11 | no palindrome that contains the line as a subsequence is shorter |
| ShortestPalindrome.Memo.Memoize | C++/DynamicProgramming/shortestPalindrome.h:13-28 | the memo gives the result of the plain recursion; it holds the line afterwards, has lost nothing, gained parts of the line only, and each of them was computed once |
| ShortestPalindrome.FillRow | C++/DynamicProgramming/shortestPalindrome.h:49-58 | one row from the two rows before |
| ShortestPalindrome.Cell | C++/DynamicProgramming/shortestPalindrome.h:50-57 | the string for a part of the line from the strings for its shorter parts |
| ShortestPalindrome.Dp | C++/DynamicProgramming/shortestPalindrome.h:35-62 | three rolling rows give the string of the plain recursion, for every line |

## Left out

- BitStream.OutputBitStream.constructor: the bit count is that of the whole buffer, as in every use of it.
- BitStream.OutputBitStream.WriteBits: at an unaligned position and for 16 or more bits it asks for 64 bits of buffer behind what is written, because whole words are read and written there.
- BitStream.OutputBitStream.WriteUnaligned: the same.
- BitStream.InputBitStream.ReadBits: asks for the same slack, for the same reason.
- BitStream.InputBitStream.ReadUnaligned: the same.
- BitFields.WriteSplit: asks for room up to the word touched last.
- BitFields.ReadSplit: asks for 64 bits of buffer behind the stream, for the word touched last.
- HuffmanCompress.CompressBuffer: asks for 64 spare bits behind the codes, which the 512 bytes the caller adds provide.
- Lzw.WriteCode: asks for 64 bits of slack behind the code.
- Lzw.ReadCode: asks for 64 bits of buffer behind the stream.
- Lzw.ChunkCompressor.Compress: takes room for the codes of the chunk and 64 bits for the word touched last as a precondition; LzwStream derives it from the source's estimate for chunk sizes from 68 to 83911.
- Lzw.ChunkUncompressor.Uncompress: assumes at least eight readable bytes of any content behind the payload, because the last words read may reach there.
- Lzw.RoundTrip: one chunk of any size below 2^31, in a buffer of the proved budget instead of the estimate; with the estimate see LzwStream.StreamRoundTrip.
- LzwStream.StreamRoundTrip: takes as a precondition that the chunks fit the estimated buffer; nothing is said of chunk sizes from 83912 to 84919, where the estimate is neither proved nor disproved, nor of a chunk that does not fit. From 214748365 on the estimate overflows a 32-bit number. Behind a payload at least eight more bytes can be read.
- LzwStream.CompressStream: the same; chunks shorter than 68 bytes fit only if their codes leave room for the word touched last.
- LzwStream.CompressChunk: the chunk fits, and 64 bits behind its codes.
- LzwStream.UncompressFrame: at least eight readable bytes behind the payload.
- LzwStream.UncompressStream: the same.
- Lz77.ChunkCompressor.Compress: takes 9 bits per byte and 64 bits of slack as a precondition; chunks shorter than 68 bytes would not fit the source's size estimate.
- Lz77.ChunkCompressor.EmitNext: the same slack.
- Lz77.WriteFormat: asks for 64 spare bits behind the token.
- Lz77.WriteRef: asks for 64 spare bits behind 9 bits per byte.
- Lz77.ReadReference: asks for 64 bits of buffer behind the stream.
- Lz77.ReadLiteralOrRef: the same.
- Lz77.CopyReference: the same.
- Lz77.ChunkCompressor.FindLongestMatch: compares the byte behind a match only inside the chunk; the source may look one byte further, which can only exchange equally long matches.
- Lz77.UncompressChunk: assumes at least eight readable bytes behind the payload, as for LZW.
- Lz77Stream.CompressFrame: asks for 64 spare bits behind 9 bits per byte.
- Lz77Stream.CompressStream: chunk sizes from 68 on, chunk and window together below 2^31.
- Lz77Stream.UncompressFrame: at least eight readable bytes behind the payload.
- Lz77Stream.UncompressStream: the same.
- Lz77Stream.StreamRoundTrip: the same, and the same chunk sizes.
- HuffmanCompress.Compress: chunks are below 2^31 bytes, the range of the source's sizes.
- BigDigits.MulAccumulate: carries and borrows that leave the target are dropped, and the scratch space must hold what the recursion needs.
- BigDigits.Mul: above 4128768 digits of the shorter number it asks for the scratch digits the recursion may need, where the source's twice the length can be less. Numbers have fewer than 2^31 digits, the range of the source's lengths.
- BigDigits.Add: digits are 16 bits wide; other widths change only the constants. Conversion to and from doubles and the signed classes on top are not modelled.
- BigText.FromString: takes enough digits for the number as a precondition instead of the estimate by logarithms.
- DictionaryStates.EveryRun: the bytes of a write reach the file in order, and none after the exception; deleting, renaming and truncating a file are atomic. Keys are ones their encoding gives back, keys and values shorter than 2^31 bytes. Checksum and encoding are parameters; the checksum of the source is in LogContents.
- DictionaryStates.SafeToGoOn: for an encoding with some key that only its own encoding decodes to, such as every ASCII text.
- WriteAheadLog.LoadsSnapshot: keys their encoding gives back; SnapshotSurvives has both directions.
- WriteAheadLog.SnapshotSurvives: for an encoding that decoding and encoding again does not change, as UTF-8 with replacement characters.
- PersistentDictionary.PersistentDictionary.Append: the exception is given by how many bytes reached the file and whether the log could be cut back. It is called with the log as long as recorded, as its assertion wants.
- PersistentDictionary.PersistentDictionary.constructor: an exception in its own checkpoint is a step of the run and not an outcome of the constructor.
- PersistentDictionary.PersistentDictionary.Add: keys their encoding gives back; AddSurvives tells what happens to others. Not behind what a failed append has left, where the assertion of Append fails; DictionaryStates.GoesOn and SafeToGoOn tell what happens then. Values are copied; the source keeps the caller's array, which must not be changed afterwards.
- PersistentDictionary.PersistentDictionary.Set: the same, with UpdateSurvives.
- PersistentDictionary.PersistentDictionary.Remove: the same, with RemoveSurvives.
- PersistentDictionary.PersistentDictionary.CheckPoint: with the log closed it asks for a log file or no entries; DictionaryStates.SecondCheckPointLoses tells what happens otherwise.
- PersistentDictionary.PersistentDictionary.Dispose: the object is not used afterwards.
- AhoCorasick.Automaton.SetPattern: patterns are set in order, distinct and not empty, as the source asserts; nodes are numbers in a pool instead of pointers.
- SkipList.SkipList.Insert: the height is a parameter instead of a random choice; keys are integers; nodes are numbers in a pool, and the joint of node n on level i is entry n of row i.
- SkipList.SkipList.GetKth: goes down to the last level where the source returns as soon as no places are left, which gives the same node.
- SkipList.SkipList.Remove: the node's memory is not given back.
- HashTable.OpenAddressingHashTable.Insert: the load factor is the default 0.5.
- Buddy.ToCeilPowerOf2: found by doubling; the source smears bits of a 32-bit number.
- Buddy.Buddy.Release: the offset is that of a live block, as for Size.
- Channel2.EveryRun: memory is sequentially consistent and each statement is one step; the channel with condition variables is not modelled.
- Rotate.Rotate3: the element carried around a cycle keeps its type; the source keeps it in an int.
- MergeSort.MergeSortIteration: the stack is a sequence whose length is bounded by the proof instead of an array of 32 frames. The other sorts of that file are not modelled.
- ShortestPalindrome.Dp: the row of length 0 is the empty strings the vectors start with.
- Run-length coding, hashing, single-string matching, chained hash tables and the timeline layout would add easier members only.
- Input and output, user interfaces, graphics, networking, reflection, memory management and benchmarks.

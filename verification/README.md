# hwzip, verified

A Dafny model of the hwzip compression library: the bit streams, the Huffman coder, the LZ77 matcher, the
codecs Shrink, Deflate, Implode and Reduce, and the ZIP container that puts them together.

The library promises one thing above all: what has been compressed is decompressed to what it was. The
fuzzers assert this on samples (`hwzip/shrink_fuzzer.c`, `hwzip/deflate_fuzzer.c`, `hwzip/implode_fuzzer.c`,
`hwzip/reduce_fuzzer.c`, `hwzip/zip_fuzzer.c`). Here it is proved for all inputs, together with what each part
of the library contributes to it and with what the encoders choose among the many ways to write the same data.

## How the model is built

A stream is its bits, least significant first (`Bits`, `Bitstream`). Each codec has a *format* module with
the meaning of its data as functions on bit strings, and modules with the *program*: classes and methods that
update arrays, tables, queues and streams in place as the C code does, proved against those functions.

- Every decompressor is proved on **any** input, well-formed or not: it succeeds exactly when the format says
  so, with exactly that output and that number of bytes read (`HwUnshrink`, `HwInflate`, `HwExplode`,
  `HwExpand`, `ZipRead`, `ZipExtractMember`).
- Every compressor is proved to write the compressed form that its model determines, which the format reads back
  as the source, and to succeed exactly if that fits (`HwShrink`, `HwDeflate`, `HwImplode`, `HwReduce`); what is
  best among the choices that it makes on the way is proved to be so, and where it is not, that is shown.
- The round trips compose the two.
- What a round trip leaves open, namely which numbers the two sides agree on, is settled in the modules named after
  samples: every bit pattern of a format is given its meaning in plain numbers, for all values of its fields, and
  it is proved what streams of the library's tests and of the standards stand for.

| files | contents |
|---|---|
| `bits.dfy`, `bitstream.dfy`, `samples.dfy`, `reversal.dfy`, `copying.dfy`, `outcome.dfy` | bit strings and numbers, streams, bit reversal, word-wise copying, outcomes |
| `lzw.dfy` | Shrink and its inverse as state machines; their simulation and round trip |
| `shrink.dfy`, `codetab.dfy`, `unshrink.dfy`, `shrinkroundtrip.dfy`, `shrinksamples.dfy` | the hash table, code queue, code table and loops of Shrink and Unshrink |
| `lz77.dfy`, `lz77codec.dfy`, `lazyparsing.dfy` | tokens, brute-force matching, hash chains, lazy parsing |
| `huffman.dfy`, `huffmandecoder.dfy`, `huffmanstream.dfy`, `huffmanencoder.dfy`, `huffmansamples.dfy` | canonical codes, table-driven decoding, encoding |
| `optimal.dfy`, `huffmanheap.dfy`, `huffmantree.dfy`, `huffmanlengths.dfy`, `huffmanlengthssamples.dfy` | optimality of prefix codes, the heap and tree in one array, length-limited codes |
| `deflatetables.dfy`, `codelengths.dfy`, `deflateformat.dfy`, `inflate.dfy`, `deflatesamples.dfy`, `dynamicsamples.dfy` | the Deflate format and its decompressor |
| `deflatecost.dfy`, `encodelengths.dfy`, `deflatedynamic.dfy`, `deflateblocks.dfy`, `deflate.dfy`, `deflateroundtrip.dfy` | cost predictions, dynamic headers, blocks, the Deflate compressor |
| `implodeformat.dfy`, `explode.dfy`, `implode.dfy`, `imploderoundtrip.dfy`, `implodesamples.dfy` | Implode |
| `reduceformat.dfy`, `followers.dfy`, `expand.dfy`, `reduce.dfy`, `reduceroundtrip.dfy`, `reducesamples.dfy` | Reduce, and the choice of follower sets |
| `zipformat.dfy`, `ziparchive.dfy`, `ziprestore.dfy`, `zip.dfy`, `ziproundtrip.dfy`, `zipsamples.dfy` | the ZIP container |

The code paths are those of the default build (`NO_LONG_LONG` undefined), with the widths of the C types where
they matter: code lengths and codewords modulo 2^16, the 16-bit weights of the Huffman tree, 32-bit hashes,
64-bit words of the streams and copies.

## Where the code departs from what one would expect

- `huffman_decoder_init()` keeps codewords in 16 bits. When codewords of at most 15 bits already use up the
  code space, the first codeword of 16 bits wraps around to 0, and lengths for which there is no prefix code
  are accepted. `HuffmanDecoder.AcceptedIff` states exactly when lengths are accepted,
  `HuffmanDecoder.AcceptedTooMany` gives an instance, and `HuffmanDecoder.AcceptedExactly` shows that Deflate,
  which has no 16-bit codewords, is not concerned. Implode is not either, because it checks that codes are full
  first (`ExplodeCodec.ReadHuffmanCode`).
- `find_match()` looks at a limited number of positions, so it may miss the longest match of the window:
  `Lz77.FindMatchMisses` is an instance. `Lz77.FindMatchReaches` states on all inputs what it finds, the longest
  match among the positions that it reaches within its budget, and `Lz77.FindMatchIsLongestIff` that this is the
  longest of the window if and only if there is none or it is among those positions.
- `find_eocdr()` takes the signature nearest to the end of the file. With an archive comment that contains one,
  `zip_read()` does not find the record that `zip_write()` wrote. `ZipArchive.ArchiveReads` proves that it is found
  if and only if there is no later signature, which always holds without a comment; `ZipRoundTrip.CommentMisleads`
  gives a family of comments for which it fails.
- `compute_huffman_lengths()` does not always give the best codeword lengths of at most 15 (7, 16) bits: if the
  best code is too long, it caps the frequencies and tries again. `HuffmanLengths.NotAlwaysBest` is an instance
  with codewords of at most 3 bits. `HuffmanLengths.ComputeHuffmanLengths` states what it gives then, and
  `HuffmanLengths.WithoutRetry` exactly when it does not come to that; the assertion "Cannot lower freq_cap!" is
  never reached (`HuffmanLengths.Attempt`).

## Model

| member | source | states |
|---|---|---|
| `Bitstream.OStream.Write` | hwzip/bitstream.h:137-184 | Whether by whole words or near the end of the buffer byte by byte, appends exactly the n bits and keeps all bits written before; fails exactly if they do not fit, and then changes nothing. |
| `Bitstream.OStream.WriteBytesAligned` | hwzip/bitstream.h:188-201 | Pads to a byte boundary and appends the bytes; fails exactly if they do not fit. |
| `Bitstream.MergeBits` | hwzip/bitstream.h:157-181 | The read-modify-write of a word keeps the bits below the shift and puts the new ones above them. |
| `Bitstream.IStream.PeekBits` | hwzip/bitstream.h:43-69 | The number shown by the next 57 bits or more; at the end of the stream, by those that are left. |
| `Bitstream.IStream.Advance` | hwzip/bitstream.h:73-82 | Drops n bits, or fails exactly if there are not as many. |
| `Bitstream.IStream.ByteAlign` | hwzip/bitstream.h:86-97 | Drops the bits up to the next whole byte. |
| `Bitstream.WindowRead` | hwzip/bits.h:97-106 | Masking and shifting what is shown reads and drops the next bits of the stream. |
| `Bits.JoinBits` | hwzip/deflate.c:750-801 | Writing two values as one number joined by shift and OR is writing them one after the other. |
| `Samples.ByteOrder` | hwzip/bitstream.h:37-69 | The bits of a byte are read from the one of weight 1 to the one of weight 128. |
| `Samples.BytesInOrder` | hwzip/bitstream.h:37-69 | The bits of a byte come before those of the bytes after it. |
| `Reversal.MakeReverse8` | hwzip/generate_tables.c:9-24 | The loop that generates the table reverses the 8 bits of a byte. |
| `Reversal.Reverse16Bits` | hwzip/bits.h:14-28 | `reverse16()`, by way of that table, reverses the n low bits. |
| `Copying.SloppyCopy` | hwzip/shrink.c:376-389 | Copying 8 bytes at a time agrees with copying byte by byte on all bytes asked for, even if the ranges overlap in one byte that is already in place; what comes before stays as it is. |
| `Lz77Codec.OutputBackref` | hwzip/lz77.h:32-43 | Byte-by-byte output of a back reference that may overlap what it produces. |
| `Lz77Codec.OutputBackref64` | hwzip/lz77.h:47-74 | The 8-byte form has the same result as the byte-by-byte form. |
| `Lz77.CopyBackOccurrence` | hwzip/lz77.h:32-43 | A reference to an earlier occurrence of a string, overlapping or not, reproduces the string. |
| `LazyParsing.CopyBackAt` | hwzip/reduce.c:191-199 | Each byte of a reference is the one `dist` before it, which may be one of its own, or zero if that is before the beginning. |
| `Lz77Codec.Cmp` | hwzip/lz77.c:20-50 | The length of the common prefix, up to the cap, if it is longer than the previous match, else 0. |
| `Lz77Codec.InsertHash` | hwzip/lz77.c:144-149 | Inserting the next position keeps the index in order: heads are the last positions with each hash, and each slot of the window links its position to the one before with the same hash. |
| `Lz77Codec.IndexedNext` | hwzip/lz77.c:144-149 | Storing a position at the head of its hash and the old head in its slot makes an index of one position more: the slot that is overwritten has just left the window, and all others keep their links. |
| `Lz77Codec.ChainVisits` | hwzip/lz77.c:61-149 | Walking from the head along the links as long as they are in the distance meets exactly the earlier positions of the window with the same hash, each once and the most recent first, and never an overwritten slot. |
| `Lz77Codec.FindMatch` | hwzip/lz77.c:61-133 | Following the chains finds what walking through the earlier positions with the same hash finds in 4096 steps, or 1024 if the previous match has 32 bytes or more (`Lz77.FindMatchIsLongest`). |
| `Lz77.LongestMatchIsLongest` | hwzip/lz77.c:57-60 | What brute-force search through the window finds is the longest match that is longer than the previous one and than 3 bytes, the most recent one of equals, and none exactly if there is none. |
| `LazyParsing.LongestMeans` | hwzip/lz77.c:57-60 | The same for any string in terms of bytes: no string in the window that matches, within the limits for length and overlap, is longer, nor more recent if it is as long; without a match none has more than 3 bytes, or more than the previous match. |
| `LazyParsing.HashIs` | hwzip/lz77.c:135-142 | The hash of four bytes in numbers. |
| `Lz77.FindMatchIsLongest` | hwzip/lz77.c:61-133 | If the window does not hold more than 4096 positions with the same hash, or 1024 if the previous match has 32 bytes or more, the chains find what brute-force search finds. |
| `Lz77.FindMatchReaches` | hwzip/lz77.c:61-133 | On any input, what is found is the longest match among the positions reached within 4096 steps, or 1024 if the previous match has 32 bytes or more. |
| `Lz77.FindMatchIsLongestIff` | hwzip/lz77.c:61-133 | What is found is the longest match of the window if and only if there is no match, or the longest is at a position reached within so many steps. |
| `LazyParsing.ReachIs` | hwzip/lz77.c:92-105 | From the first position reached on there are no more candidates than steps; right before it there is one more, unless the window or the source begins there. |
| `Lz77.FindMatchMisses` | hwzip/lz77.c:61-133 | With the limits of Deflate and 4097 more recent positions with the same hash, a longest match of 5 bytes is missed. |
| `Lz77.ParseCovers` | hwzip/lz77.c:151-241 | From any state of the lazy parser, the tokens still to be output stand for the source from the deferred position on. |
| `Lz77.TokensExpand` | hwzip/lz77.c:151-241 | The tokens of any source expand to it; every reference is within the limits for distance and length, and does not overlap if that is not allowed. |
| `LazyParsing.LazyChoices` | hwzip/lz77.c:151-241 | The law of lazy parsing, for every source: the tokens stand at positions one after the other; at each there is what is found beyond the length of the match that the token before has given up; the token is a literal if and only if nothing is found or something longer at the next position, and else the reference is to what is found. |
| `LazyParsing.LazyLongest` | hwzip/lz77.c:151-241 | If no window holds more than 1024 positions with the same hash: a token is a literal if and only if the window has no match, or the longest one at the next position is longer; else it is a reference to the longest match. |
| `LazyParsing.ShortSource` | hwzip/lz77.c:67 | No window of a source of at most 1028 bytes holds as many. |
| `Lz77Codec.Lz77Compress` | hwzip/lz77.c:151-241 | The callbacks are called with these tokens, which `LazyParsing.LazyChoices` determines, in order, up to the first call that fails; with all of them if none does. |
| `Huffman.PrefixFree` | hwzip/huffman.c:250-279 | Canonical codes whose lengths fit are prefix codes: a bit string begins with one codeword at most. |
| `HuffmanSamples.CanonicalRule` | hwzip/huffman.c:250-279 | The rule of section 3.2.2 of RFC 1951: the first codeword of a length is the first of the length before, plus how many symbols have that one, with a zero appended; others follow in the order of symbols. |
| `HuffmanSamples.CodewordOrder` | hwzip/huffman.c:250-279 | Codewords are written from their most significant bit on. |
| `HuffmanSamples.ExampleCode` | hwzip/huffman.c:250-279 | The eight codewords of the example in that section. |
| `Huffman.DecodeCodeword` | hwzip/huffman.c:250-279 | Decoding inverts encoding, whatever follows. |
| `Huffman.DecodeIs` | hwzip/huffman.h:54-88 | A symbol is decoded if and only if its codeword begins the bits. |
| `HuffmanDecoder.Decoder.Init` | hwzip/huffman.c:28-92 | Succeeds exactly on lengths that pass the check, and then the lookup table, sentinels, offsets and symbol list are those of the canonical code. |
| `HuffmanDecoder.Decoder.TableInsert` | hwzip/huffman.c:6-26 | The symbol gets all slots whose index begins with its codeword, and no others. |
| `HuffmanDecoder.AcceptedIff` | hwzip/huffman.c:52-66 | Lengths are accepted if and only if the Kraft sum is at most 1, or codewords of at most 15 bits use up everything. |
| `HuffmanDecoder.AcceptedExactly` | hwzip/huffman.c:52-66 | Without 16-bit codewords: if and only if the Kraft sum is at most 1. |
| `HuffmanDecoder.AcceptedTooMany` | hwzip/huffman.c:58-64 | The lengths 1, 1, 16 are accepted although there is no such prefix code. |
| `HuffmanDecoder.LookupIs` | hwzip/huffman.h:62-70 | A slot of the lookup table gives the symbol whose codeword begins the bits, or shows that no codeword of at most 8 bits does. |
| `HuffmanDecoder.LongIs` | hwzip/huffman.h:72-87 | The comparison with a sentinel tells whether a codeword of this length begins the bits, and the offset, modulo 2^16, leads to its symbol. |
| `HuffmanDecoder.Decoder.Decode` | hwzip/huffman.h:54-88 | Lookup and sentinel decoding together give the symbol and length that searching all codewords gives, and -1 exactly if no codeword begins the bits. |
| `HuffmanStream.DecodeWindow` | hwzip/huffman.h:54-88 | Decoding from the bits shown by the stream. |
| `HuffmanStream.DecodePadded` | hwzip/deflate.c:61-69 | With zeros after the end of the stream, decoding gives what it gives without them, unless it uses them, which advancing then notices. |
| `HuffmanEncoder.ComputeCanonicalCode` | hwzip/huffman.c:250-279 | The codewords are those of the canonical code, in bit-reversed form; symbols without a codeword keep what was there. |
| `HuffmanEncoder.Encoder.InitFromLengths` | hwzip/huffman.c:291-300 | The encoder is for the code with these lengths. |
| `HuffmanHeap.MinheapDown` | hwzip/huffman.c:105-130 | Restores the heap order from i on, and only rearranges. |
| `HuffmanHeap.MinheapHeapify` | hwzip/huffman.c:133-141 | Makes a heap of any array. |
| `HuffmanTree.JoinTwo` | hwzip/huffman.c:196-219 | Joining the two lightest nodes, in the array that holds both heap and parent links, keeps the invariant of the forest: links, depths, Kraft sums, weights, and a cost that no prefix code can beat. |
| `HuffmanTree.HeavyJoin` | hwzip/huffman.c:196-219 | Joining the two lightest trees keeps every tree with a leaf of depth d at a weight of at least the (d+2)-th Fibonacci number, and every other tree at the (d+1)-th at least. |
| `HuffmanTree.BuildTree` | hwzip/huffman.c:193-220 | The loop makes, of the heap in the array, exactly the tree that comes of joining the two least elements over and over (equal weights are ordered by slot); its depths are the codeword lengths of a full code that no prefix code betters, and no leaf is deeper than a Fibonacci bound on the weights allows. |
| `HuffmanTree.Depth` | hwzip/huffman.c:227-233 | Following the parent links gives the depth of a symbol in the tree. |
| `OptimalCodes.BoundJoin` | hwzip/huffman.c:193-220 | If no prefix code for the joined weights costs less than c, none for the weights costs less than c plus the joined weight. |
| `OptimalCodes.EqualWeightsFlat` | hwzip/huffman.c:235-243 | An optimal full code for equal weights has no codeword longer than the logarithm of their number, rounded up. |
| `HuffmanLengths.Attempt` | hwzip/huffman.c:166-245 | An attempt gives the depths of that tree, which are optimal for the capped frequencies and use up all codewords; it fails exactly if the tree is too deep, and never under a cap of 1. |
| `HuffmanLengths.TreeTooDeep` | hwzip/huffman.c:225-243 | If a leaf of the tree is too deep, an optimal full code has a codeword that is too long, there are more than maxLen + 1 symbols, and the capped frequencies sum up to the (maxLen + 3)-th Fibonacci number at least. |
| `HuffmanLengths.ComputeHuffmanLengths` | hwzip/huffman.c:148-248 | Symbols have codewords exactly if they occur. With two or more of them, the lengths are the depths of the tree under the first cap whose tree is not too deep: no codeword is too long, the Kraft sum is exactly 1, and no prefix code takes fewer bits for the frequencies under that cap. There is no retry if and only if the tree for the frequencies themselves is not too deep, and then no prefix code takes fewer bits for these; this is certain with at most maxLen + 1 symbols, or if frequencies sum up to less than the (maxLen + 3)-th Fibonacci number. |
| `HuffmanLengths.TriedNeeds` | hwzip/huffman.c:235-243 | If the cap has been lowered at all, the first cap was too high, which takes many symbols and high frequencies. |
| `HuffmanLengthsSamples.FirstCap` | hwzip/huffman.c:165-247 | The lengths are the depths of the tree under the first of the caps 65535, 32767, 16383 and so on down to 1 whose tree is not too deep. |
| `HuffmanLengthsSamples.TiesBroken` | hwzip/huffman.c:166-219 | For the frequencies 1, 1, 2 and 2 the lengths are 3, 3, 2 and 1: of equal weights a joined node comes before a symbol, and an earlier symbol before a later one. |
| `HuffmanLengths.WithoutRetry` | hwzip/huffman.c:164-247 | The first cap is the final one if and only if the tree for the frequencies themselves is not too deep; then the lengths are optimal for them. Few symbols or low frequencies are enough for that. |
| `HuffmanLengths.NotAlwaysBest` | hwzip/huffman.c:235-247 | For the frequencies 1, 1, 2, 3, 8 and at most 3 bits, the lengths take 32 bits or more, but 3, 3, 3, 3, 1 would take 29. |
| `HuffmanLengths.GoodUnique` | hwzip/huffman.c:164-247 | Frequencies determine the final cap and the lengths. |
| `HuffmanLengths.UsedBySymbol` | hwzip/huffman.c:52-66 | Counting used codewords by length, as the decoder does, is the Kraft sum over the symbols. |
| `HuffmanLengths.InitFromFrequencies` | hwzip/huffman.c:281-289 | The encoder is for the canonical code with such lengths, optimal for the frequencies themselves under the same conditions. |
| `Lzw.SpellsUnique` | hwzip/shrink.c:395-472 | A code stands for one string at most, also with dangling and self-referential prefixes in the table. |
| `Lzw.SelfPrefixSpellsNothing` | hwzip/shrink.c:425-431 | A code that is its own prefix stands for nothing. |
| `Lzw.ReadMiss` | hwzip/shrink.c:312-346 | The codes and controls that the compressor writes on a miss are read back, with the same growth of the code size and the same partial clearing. |
| `Lzw.Step` | hwzip/shrink.c:510-579 | The simulation: while the decompressor's table lags behind by one code, it outputs the next string of the source and both stay in step, through partial clearings and all cases of codes used before they are added. |
| `Lzw.Run` | hwzip/shrink.c:510-579 | On whatever the compressor still writes from a state in step with the decompressor, the loop of the decompressor gives the rest of the source. What the loop keeps on any other input is stated by `UnshrinkCodec.Decompressor.Iterate`. |
| `Lzw.RoundTrip` | hwzip/shrink_fuzzer.c:26-36 | Unshrink inverts Shrink on every source, and leaves unread only the padding of the last byte. |
| `ShrinkSamples.CodeReads` | hwzip/shrink.c:319-328 | A code other than 256 is read in the present size of 9 to 13 bits. |
| `ShrinkSamples.ControlReads` | hwzip/shrink.c:330-345 | After 256, a 1 makes codes longer by a bit, up to 13, and a 2 is a partial clearing; any other number, or a 1 beyond 13 bits, is an error. |
| `ShrinkSamples.ReadEnds` | hwzip/shrink.c:319-335 | The stream ends where there is no whole code any more, but not between the two parts of a control. |
| `ShrinkSamples.FreshDict` | hwzip/shrink.c:485-489 | At the beginning there are no codes, and those from 257 to 8191 are given out in this order. |
| `ShrinkSamples.ClearedIs` | hwzip/shrink.c:285-307 | A partial clearing keeps a code if and only if some code has it as its prefix; all others become available again, in ascending order. |
| `ShrinkSamples.Emits` | hwzip/shrink.c:510-579 | A code outputs the string that it stands for, also when it is the one about to be added; the next free code is given to the previous string and the first byte of this one. |
| `ShrinkSamples.NoRoom` | hwzip/shrink.c:420-460 | Without room for the string of a code the output is full. |
| `ShrinkSamples.AlreadyFull` | hwzip/shrink.c:510-516 | Without any room left the next code is not looked up; the end of the stream is no error then. |
| `ShrinkSamples.Fails` | hwzip/shrink.c:413-454 | A code that stands for nothing is an error. |
| `ShrinkSamples.Starts` | hwzip/shrink.c:491-509 | The first code must be a byte. |
| `ShrinkSamples.LongerCodes` | hwzip/shrink.c:330-345 | The numbers 65, 256, 1 in 9 bits and 66, 67 in 10 bits are unshrunk to 65, 66, 67. |
| `ShrinkSamples.AddedCodes` | hwzip/shrink_test.c:177-195 | The codes 97, 98, 99, 257, 259 are unshrunk to "abcabca". |
| `ShrinkSamples.UnknownCode` | hwzip/shrink_test.c:197-203 | A code that has not been given out is an error, also as the first one. |
| `ShrinkSamples.PendingCode` | hwzip/shrink_test.c:215-238 | The codes 97, 110, 98, 257, 260 are unshrunk to "anbanana": the last one is used while it is added. |
| `ShrinkSamples.ClearedCodes` | hwzip/shrink_test.c:447-474 | Two partial clearings, the second of which keeps a code that is its own prefix. |
| `ShrinkSamples.WritesLongest` | hwzip/shrink.c:217-254 | What the compressor writes next, in terms of the dictionary of the decompressor: a partial clearing if and only if no code is left, and then the code of the longest string that has one. |
| `ShrinkSamples.CodeWritten` | hwzip/shrink.c:142-157 | A code is written in the present size if it fits, and after a control that raises the size if not. |
| `ShrinkSamples.ShrinkBegins` | hwzip/shrink.c:205-215 | The compressor begins with the first byte in 9 bits and a fresh dictionary, and ends after the last code. |
| `ShrinkCodec.NotAllUsed` | hwzip/shrink.c:53-73 | A table that is not full has an empty slot on every probe sequence, so probing ends. |
| `ShrinkCodec.HashTable.Find` | hwzip/shrink.c:53-73 | Looks up the finite map that the table stands for. |
| `ShrinkCodec.HashTable.Insert` | hwzip/shrink.c:75-100 | Updates that map; all pairs stay reachable. |
| `ShrinkCodec.CodeQueue.Fill` | hwzip/shrink.c:108-120 | The queue holds exactly the codes that are not in use, in ascending order. |
| `ShrinkCodec.CodeQueue.RemoveNext` | hwzip/shrink.c:131-138 | Takes the first code of the queue, if there is one. |
| `ShrinkCodec.KeepPrefixes` | hwzip/shrink.c:159-193 | Partial clearing leaves exactly the pairs whose code is a prefix of another pair. |
| `ShrinkCodec.Compressor.PartialClear` | hwzip/shrink.c:159-193 | The dictionary is that of the model after clearing. |
| `ShrinkCodec.WriteCode` | hwzip/shrink.c:142-157 | Writes a code, after raising the code size with control codes as often as it needs. |
| `ShrinkCodec.HwShrink` | hwzip/shrink.c:195-258 | Writes exactly the bits of the model, and succeeds if and only if they fit. |
| `CodeTable.StringFits` | hwzip/shrink.c:285-307 | Prefix chains are acyclic, so no code stands for a string of more than 7936 bytes, and a length never looks like an unknown one. |
| `CodeTable.SoundCleared` | hwzip/shrink.c:285-307 | After a partial clearing every valid code of known length still stands for the bytes at its last position, and the queue holds the free codes. |
| `CodeTable.PendingFromNothing` | hwzip/shrink.c:518-526 | A code that is about to be added for a prefix that is gone stands for nothing, as the program says. |
| `CodeTable.WalkStep` | hwzip/shrink.c:544-561 | One step of the verification walk. |
| `CodeTable.AfterStep` | hwzip/shrink.c:536-579 | The invariant of the code table is kept by an iteration: every valid, not self-referential code of known length stands for the bytes at its last position. |
| `UnshrinkCodec.CopyFromPrevPos` | hwzip/shrink.c:349-390 | Copies a string from its last position, with or without room to run over. |
| `UnshrinkCodec.Decompressor.PartialClear` | hwzip/shrink.c:285-307 | Clears the table as in the model and keeps the invariant on any input. |
| `UnshrinkCodec.Decompressor.ReadCode` | hwzip/shrink.c:312-346 | Reads a code, obeys control codes and ends or fails exactly as the model does (`ShrinkSamples.ControlReads`). |
| `UnshrinkCodec.Decompressor.OutputCode` | hwzip/shrink.c:395-472 | Outputs the string of a code, of known or unknown length, or fails exactly if it stands for nothing or does not fit. |
| `UnshrinkCodec.Decompressor.Step` | hwzip/shrink.c:510-579 | An iteration of the loop is a step of the model, on any input. |
| `UnshrinkCodec.Decompressor.AddCode` | hwzip/shrink.c:563-573 | The code added after a string is that of the model, whether it has just been used (KwKwK) or not, and the invariant of the code table is kept. |
| `UnshrinkCodec.Decompressor.Iterate` | hwzip/shrink.c:510-579 | On any input: at every loop head each valid, not self-referential code of known length stands for the bytes at its last position, and what is left to do is what the model has left to do; an iteration keeps this and consumes input, or ends as the model ends. |
| `UnshrinkCodec.HwUnshrink` | hwzip/shrink.c:474-585 | On any input, ends as the model does: with the same status, output and number of bytes read; what the model says of each code is in `ShrinkSamples`. |
| `ShrinkRoundTrip.ShrinkThenUnshrink` | hwzip/shrink_fuzzer.c:26-36 | Both programs together give the source back, and read exactly the bytes that were written; they fail only if the compressed form does not fit. |
| `DeflateTables.MakeLen2Litlen` | hwzip/generate_tables.c:116-136 | The generated table gives for every length the code whose range holds it. |
| `DeflateTables.MakeDistance2Dist` | hwzip/generate_tables.c:189-228 | The two generated tables together give for every distance the code whose range holds it. |
| `DeflateTables.LenInRange` | hwzip/generate_tables.c:66-101 | Every length is the base of its code and a number that the extra bits can hold; the bases and bits are those of `DeflateSamples.LengthTable`. |
| `DeflateTables.DistInRange` | hwzip/generate_tables.c:138-174 | Every distance up to 32768 is a base distance plus what its extra bits can hold. |
| `DeflateSamples.LengthTable` | hwzip/generate_tables.c:66-101 | The table of section 3.2.5 of RFC 1951 for lengths in closed form: four codes share each number of extra bits. |
| `DeflateSamples.DistanceTable` | hwzip/generate_tables.c:138-174 | The table for distances in closed form: two codes share each number of extra bits. |
| `DeflateSamples.FixedCode` | hwzip/generate_tables.c:39-52 | The fixed code for literals and lengths as the table of section 3.2.6 lists it. |
| `DeflateSamples.FixedDistCode` | hwzip/generate_tables.c:54-64 | The fixed code for distances: five bits. |
| `CodeLengths.ReadItems` | hwzip/deflate.c:232-295 | The loop that reads codeword lengths inverts run-length coding. |
| `CodeLengths.ReadHeaderBits` | hwzip/deflate.c:179-307 | Reading the header of a dynamic block gives the two codes that were written, also if a run crosses from one to the other. |
| `DynamicSamples.HeaderReads` | hwzip/deflate.c:191-222 | A header begins with 5, 5 and 4 bits for the numbers of lengths above 257, 1 and 4, and 3 bits for each length of the code for lengths. |
| `DynamicSamples.OrderReads` | hwzip/deflate.c:175-177 | These lengths are for the symbols 16, 17, 18, 0, 8, 7, 9, 6, 10, 5, 11, 4, 12, 3, 13, 2, 14, 1, 15 in this order; those that are left out are zero. |
| `DynamicSamples.LengthItem` | hwzip/deflate.c:242-244 | The symbols up to 15 are lengths. |
| `DynamicSamples.RunItem` | hwzip/deflate.c:245-294 | The symbol 16 repeats the last length 3 to 6 times, 17 is 3 to 10 zeros and 18 is 11 to 138 zeros, as 2, 3 and 7 more bits say; an error if there is nothing to repeat or there are too many. |
| `DynamicSamples.CodesRead` | hwzip/deflate.c:226-304 | The lengths of both codes are read together, and accepted if and only if these and the code for lengths are prefix codes. |
| `EncodeLengths.EncodeLens` | hwzip/deflate.c:469-528 | The run-length code of any codeword lengths expands to them; runs are as long as they may be. |
| `EncodeLengths.TrimmedCode` | hwzip/deflate.c:587-622 | Dropping trailing zero lengths does not change the other codewords. |
| `EncodeLengths.EncodeDistLitlenLens` | hwzip/deflate.c:587-622 | Trims both codes as far as the format allows and no further, and encodes them together. |
| `EncodeLengths.CountCodelenLens` | hwzip/deflate.c:625-640 | The number of lengths to be written: the last of them is not zero, and all after it, in the order of the format, are. |
| `EncodeLengths.TweakDistEncoder` | hwzip/deflate.c:535-582 | If fewer than two distances are used, the first two, or the first and the used one, get codewords of one bit; the encoder is that of the canonical code for the new lengths. |
| `DeflateFormat.BodyReads` | hwzip/deflate.c:46-173 | Reading the bits of a block of tokens, in any two codes, expands the tokens, with references into what blocks before have produced. |
| `DeflateFormat.StoredReads` | hwzip/deflate.c:338-370 | Reading a stored block, padding included, gives its data. |
| `DeflateSamples.LengthReads` | hwzip/deflate.c:94-112 | The extra bits of a length, in the closed form. |
| `DeflateSamples.PlainLengthReads` | hwzip/deflate.c:94-112 | The lengths 3 to 6 and 258 have none. |
| `DeflateSamples.DistanceReads` | hwzip/deflate.c:128-148 | The extra bits of a distance, in the closed form. |
| `DeflateSamples.PlainDistanceReads` | hwzip/deflate.c:128-148 | The distances 1 and 2 have none, and the symbols 30 and 31 are errors. |
| `DeflateSamples.SymbolReads` | hwzip/deflate.c:56-172 | Symbols below 256 are bytes, 256 ends the block, 257 to 285 begin a reference, which must not reach back beyond the beginning, and 286 and 287 are errors. |
| `DeflateSamples.KindReads` | hwzip/deflate.c:384-410 | The first bit of a block tells if it is the last one, the next two what is in it: 0 for stored, 1 for the fixed codes, 2 for codes of its own, and 3 is an error. |
| `DeflateSamples.StoredStream` | hwzip/deflate.c:338-370 | A stored block in bytes: 1, the length, its complement, the data; an error exactly if the complement is wrong or data are missing, and full exactly if there is no room. |
| `DeflateSamples.HelloStream` | hwzip/deflate_test.c:334-363 | The bytes 01 05 00 FA FF and "Hello" are inflated to "Hello". |
| `DeflateSamples.FixedStream` | hwzip/deflate.c:56-172 | The bytes 4B 44 02 00 are inflated to 12 times "a". |
| `DynamicSamples.DynamicStream` | hwzip/deflate.c:179-321 | A block with codes of its own, for a byte and the end, is inflated to two bytes. |
| `DeflateDynamic.DynamicReads` | hwzip/deflate.c:179-321 | A dynamic block is read as what its tokens stand for, in the codes of its own header. |
| `InflateCodec.ReadAllLens` | hwzip/deflate.c:232-295 | Reads exactly the codeword lengths that the format says, on any input. |
| `InflateCodec.InitDynDecoders` | hwzip/deflate.c:179-307 | Sets up the decoders for the codes of a header, and fails exactly if there are none. |
| `InflateCodec.Block` | hwzip/deflate.c:46-173 | A block is read as the format says, on any input. |
| `InflateCodec.StoredBlock` | hwzip/deflate.c:338-370 | A stored block is read as the format says, on any input. |
| `InflateCodec.FixedFit` | hwzip/generate_tables.c:39-64 | The lengths of the fixed codes allow codes. |
| `InflateCodec.HwInflate` | hwzip/deflate.c:372-418 | On any input, ends as the format says, with the same output and number of bytes read; what the format says of each bit is in `DeflateSamples` and `DynamicSamples`. |
| `DeflateCost.SumOfFreqs` | hwzip/deflate.c:1002-1047 | Frequencies add up to the number of elements of a block, so they fit in 16 bits. |
| `DeflateCost.BodyCostIsBits` | hwzip/deflate.c:656-680 | The cost computed from frequencies is the number of bits of the block. |
| `DeflateCost.HuffmanBlockBodyLen` | hwzip/deflate.c:656-680 | Computes that cost. |
| `DeflateDynamic.DynBlockLen` | hwzip/deflate.c:683-717 | The predicted number of bits of a dynamic block, header included, is exact. |
| `DeflateDynamic.MakeCodes` | hwzip/deflate.c:949-977 | The three codes of a dynamic block have codewords for all that occurs and a header can be written for them; each is what `huffman_encoder_init()` makes for what occurs, optimal under the first cap that leaves no codeword too long, and nothing is written that can be left out. |
| `DeflateDynamic.MadeUnique` | hwzip/deflate.c:949-977 | A block determines its codes, their run-length code and the numbers in its header. |
| `DeflateCodec.WriteHuffmanBlock` | hwzip/deflate.c:727-805 | Appends exactly the bits of the block, or fails if they do not fit. |
| `DeflateCodec.WriteDynamicBlock` | hwzip/deflate.c:807-877 | The same for a dynamic block with its header. |
| `DeflateCodec.WriteStaticBlock` | hwzip/deflate.c:879-896 | The same for a block in the fixed codes. |
| `DeflateCodec.WriteUncompBlock` | hwzip/deflate.c:898-922 | The same for a stored block; it takes the predicted number of bits and ends at a byte boundary. |
| `DeflateCodec.Deflater.WriteBlock` | hwzip/deflate.c:926-1000 | Writes the cheapest of the three encodings, with the codes made for the block, in exactly the predicted number of bits, and in all three cases what is read back is the part of the source that the block stands for; fails exactly if it does not fit. |
| `DeflateCodec.Deflater.Callback` | hwzip/deflate.c:1002-1047 | Keeps the state in order over whole runs: the blocks so far are of least cost, take in as many tokens as they may, and are read back as the source up to the current block; fails only if they do not fit. |
| `DeflateCodec.BlocksSize` | hwzip/deflate.c:926-1047 | Blocks of least cost take no more than 8 bits for each byte and 42 for each block, and all but the last stand for 65277 bytes or more. |
| `DeflateCodec.NotLonger` | hwzip/deflate.c:926-1047 | The tokens determine the blocks and how many bits each takes, so no beginning of them takes more than all. |
| `DeflateSamples.BlockChosen` | hwzip/deflate.c:977-1047 | A block stands for 65534 bytes at most, and ends before only if the next token would exceed that or there is none; a stored block is preferred to one in the fixed codes and that to one with codes of its own, if they are as short. |
| `DeflateSamples.CompressorLimits` | hwzip/deflate.c:1058-1061 | References go as far as 32768 and are as long as 258. |
| `DynamicSamples.ZeroRuns` | hwzip/deflate.c:477-506 | Runs of zeros are taken up to 138: up to two one by one, up to 10 with the symbol 17, and more with 18. |
| `DynamicSamples.SameRuns` | hwzip/deflate.c:508-524 | Repetitions are taken up to 6: up to two one by one, and three or more with the symbol 16. |
| `DynamicSamples.CodesMade` | hwzip/deflate.c:952-969 | The codes are made for 286 and 30 symbols with codewords of at most 15 bits, and the code for their lengths with at most 7. |
| `DeflateCodec.HwDeflate` | hwzip/deflate.c:1049-1073 | Writes the blocks of least cost for the tokens of the source, which are read back as the source with no byte left over; succeeds if and only if they fit. They take no more room than the source and 6 bytes for each 65277 bytes, begun or complete. |
| `DeflateRoundTrip.DeflateThenInflate` | hwzip/deflate_fuzzer.c:24-34 | Both programs together give the source back, and read exactly the bytes that were written; they cannot fail if there is room for stored blocks. |
| `ImplodeFormat.RunsRound` | hwzip/implode.c:141-156 | The run-length code of any codeword lengths stands for them. |
| `ImplodeFormat.CodeReads` | hwzip/implode.c:342-410 | Reading a full code inverts writing it. |
| `ImplodeFormat.FlippedReads` | hwzip/implode.c:213-218 | Decoding flipped bits inverts encoding with flipped codewords. |
| `ImplodeFormat.TokensRead` | hwzip/implode.c:448-551 | Reading the bits of tokens, in any full codes and any mode, expands the tokens. |
| `ImplodeFormat.ImplodedReads` | hwzip/implode.c:412-555 | Codes and tokens are read back as what the tokens stand for, whatever full codes were chosen. |
| `ImplodeFormat.ReadCodeFull` | hwzip/implode.c:389-403 | Whatever is accepted as a code has a codeword for every symbol and uses up all codewords. |
| `ImplodeSamples.CodeBegins` | hwzip/implode.c:354-359 | A code begins with the number of its bytes less one. |
| `ImplodeSamples.RunReads` | hwzip/implode.c:362-384 | Each byte has a length less one in its low half and how many symbols have it, less one, in its high half; an error if there are too many. |
| `ImplodeSamples.CodeEnds` | hwzip/implode.c:386-403 | There must be a length for every symbol, and the codewords must be used up. |
| `ImplodeSamples.CodesRead` | hwzip/implode.c:424-432 | There is a code for 256 literals if the flag says so, then one for 64 lengths and one for 64 distances. |
| `ImplodeSamples.Opposite` | hwzip/implode.c:213-218 | The bits of codewords are the opposite of those in the canonical code. |
| `ImplodeSamples.LiteralReads` | hwzip/implode.c:444-463 | After a one there is a literal: 8 bits, or its codeword. |
| `ImplodeSamples.ReferenceReads` | hwzip/implode.c:434-551 | After a zero there are 7 or 6 low bits of the distance, the codewords of its high bits and of the length, and after the symbol 63 a byte; the least length is 3 with a code for literals and 2 without, in the second attempt 3 with the large window and 2 with the small one. |
| `ImplodeSamples.StreamReads` | hwzip/implode.c:434-551 | A stream with the large window and without a code for literals is "abab", and "ababa" in the second attempt. |
| `ExplodeCodec.ReadHuffmanCode` | hwzip/implode.c:342-410 | Reads a code, or fails exactly if the format says so; the decoder never rejects what has passed the checks. |
| `ExplodeCodec.DecodeFlippedWindow` | hwzip/implode.c:484-505 | With a full code a symbol is always decoded, also from what is shown beyond the end of the stream. |
| `ExplodeCodec.HwExplode` | hwzip/implode.c:412-555 | On any input, in all modes and with or without compatibility for old versions, ends as the format says; what the format says of each bit is in `ImplodeSamples`. |
| `ImplodeCodec.ScaledFit` | hwzip/implode.c:186-209 | Scaled frequencies are never zero and never exceed 65535 in total. |
| `ImplodeCodec.InitEncoder` | hwzip/implode.c:177-219 | Every symbol has a codeword, all codewords are used, and no prefix code is better for the scaled frequencies under the first cap that leaves no codeword longer than 16 bits; codewords are those of the canonical code, flipped. |
| `ImplodeCodec.WriteHuffmanCode` | hwzip/implode.c:129-175 | Writes the code as it is to be read, or fails if there is no room. |
| `ImplodeCodec.Imploder.WriteBackref` | hwzip/implode.c:84-127 | Writes the bits of a back reference. |
| `ImplodeCodec.Imploder.FlushBuffer` | hwzip/implode.c:221-260 | Makes the codes from the buffered tokens, writes them and the tokens; from then on what has been written and what is to be written in these codes are together the compressed form. |
| `ImplodeCodec.Imploder.Callback` | hwzip/implode.c:262-308 | Collects or writes a token and keeps that invariant, before and after the buffer has been flushed. |
| `ImplodeCodec.HwImplode` | hwzip/implode.c:310-338 | Writes the compressed form in the codes that are made for the first 32768 tokens, and succeeds if and only if it fits. |
| `ImplodeCodec.CodesUnique` | hwzip/implode.c:221-260 | The tokens determine the codes. |
| `ImplodeSamples.CompressorLimits` | hwzip/implode.c:35-41 | References go as far as 8192 or 4096 and are as long as 321 or 320; the codes are made for the first 32768 tokens. |
| `ImplodeSamples.GreatestFactor` | hwzip/implode.c:186-209 | The factor is the greatest with which all frequencies, those that are zero counting as one, add up to 65535 at most. |
| `ImplodeSamples.RunsAreLong` | hwzip/implode.c:141-156 | Runs are of at most 16, and a run of less is followed by another length. |
| `ImplodeSamples.CodeMade` | hwzip/implode.c:211-218 | Codes are made for scaled frequencies with codewords of at most 16 bits. |
| `ImplodeRoundTrip.RoundTrip` | hwzip/implode_fuzzer.c:33-42 | The compressed form of every source is read back as the source, in all four modes. |
| `ImplodeRoundTrip.FitsWhenLarge` | hwzip/implode.c:310-338 | Compression cannot fail if there are 387 bytes and 17 bits for each byte of the source. |
| `ImplodeRoundTrip.ImplodeThenExplode` | hwzip/implode_fuzzer.c:33-42 | Both programs together give the source back, and read exactly the bytes that were written, in all modes; they cannot fail if there is room for 387 bytes and 17 bits for each byte. |
| `ReduceFormat.NextByteReads` | hwzip/reduce.c:62-90 | Reading a byte by its place among the followers inverts writing it. |
| `ReduceFormat.ReadSetsReads` | hwzip/reduce.c:32-57 | Reading the follower sets inverts writing them. |
| `ReduceFormat.TokenReads` | hwzip/reduce.c:138-202 | Reading the bytes of a token does what the token says, for all factors; an escaped byte is never taken for a back reference, nor the other way round. |
| `ReduceFormat.ReducedReads` | hwzip/reduce.c:114-206 | Follower sets and bytes are read back as what the tokens stand for, whatever sets were chosen. |
| `ReduceSamples.IndexWidth` | hwzip/reduce.c:10-22 | The width of an index is the least in which all indices can be written, and 1 if there is just one. |
| `ReduceSamples.PlainByteReads` | hwzip/reduce.c:70-80 | Without followers a byte is in 8 bits; with followers, in 8 bits after a one. |
| `ReduceSamples.FollowerReads` | hwzip/reduce.c:82-89 | After a zero there is the index of a follower, which must be one. |
| `ReduceSamples.SetReads` | hwzip/reduce.c:37-54 | The sets come in descending order of bytes, each with its size in 6 bits, at most 32. |
| `ReduceSamples.LiteralExpands` | hwzip/reduce.c:136-144 | A byte other than 144 stands for itself. |
| `ReduceSamples.EscapeExpands` | hwzip/reduce.c:146-154 | A zero after 144 stands for a byte 144. |
| `ReduceSamples.ReferenceExpands` | hwzip/reduce.c:155-201 | Any other byte after 144 has the length less 3 in its 7, 6, 5 or 4 low bits and the high part of the distance less 1 above them; if the low bits are all ones a byte is added; the low byte of the distance follows. |
| `ReduceSamples.EscapedStream` | hwzip/reduce.c:146-154 | The bytes 144, 0, 65 after empty sets are expanded to 144, 65. |
| `ReduceSamples.OverlappingStream` | hwzip/reduce_test.c:281-320 | "fa-la-l", a reference of length 7 and distance 6, and "!" are expanded to "fa-la-la-la-la!". |
| `ReduceSamples.FollowerStream` | hwzip/reduce.c:32-90 | With the followers 65 to 69 of zero only, the bits 0, 0 0 1 and eight ones are expanded to 69, 255. |
| `Followers.SortSorts` | hwzip/reduce.c:232-247 | The followers are sorted by how often they occur, the most frequent first. |
| `Followers.FollowersCost` | hwzip/reduce.c:250-271 | Computes the cost of a set from frequencies. |
| `Followers.BestSizeIsLeast` | hwzip/reduce.c:302-311 | The chosen size is the smallest of those with the least cost. |
| `Followers.CostConserved` | hwzip/reduce.c:274-353 | The bits written for sets and bytes are 6 for each set and the computed costs. |
| `Followers.ChosenIsBest` | hwzip/reduce.c:250-332 | No set of at most 32 followers, sorted or not, costs less than the chosen one. |
| `Followers.ChosenSetsAreBest` | hwzip/reduce.c:250-353 | With no other follower sets would the sets and the buffered bytes take fewer bits. |
| `ReduceSamples.FollowersInOrder` | hwzip/reduce.c:232-247 | A follower occurs more often than all bytes that do not come before it in the set, or as often and is the lesser byte. |
| `ExpandCodec.ReadNextByte` | hwzip/reduce.c:62-90 | Reads a byte, or fails exactly if the format says so (`ReduceSamples.FollowerReads`). |
| `ExpandCodec.CopyWithZeros` | hwzip/reduce.c:191-199 | A back reference that reaches back beyond the beginning copies zeros. |
| `ExpandCodec.HwExpand` | hwzip/reduce.c:114-206 | On any input, with all factors, ends as the format says; what the format says of each bit is in `ReduceSamples`. |
| `ReduceCodec.CountFollowers` | hwzip/reduce.c:281-287 | Counts how often each byte follows each byte. |
| `ReduceCodec.Reducer.WriteFollowerSets` | hwzip/reduce.c:274-332 | Writes the chosen sets and sets up the tables of follower indices for them. |
| `ReduceCodec.Reducer.WriteByte` | hwzip/reduce.c:355-392 | Buffers or writes a byte; what has been written and what is to be written are together the compressed form, before and after the buffer has been flushed. |
| `ReduceCodec.Reducer.BackrefCallback` | hwzip/reduce.c:414-459 | Writes the escape bytes of a back reference. |
| `ReduceCodec.HwReduce` | hwzip/reduce.c:461-486 | Writes exactly the compressed form, and succeeds if and only if it fits. |
| `ReduceRoundTrip.RoundTrip` | hwzip/reduce_fuzzer.c:35-43 | The compressed form of every source is read back as the source, with all factors. |
| `ReduceRoundTrip.SizeIsLeast` | hwzip/reduce.c:274-353 | If all bytes fit in the buffer, the size is what was computed, and no other sets give a smaller one. |
| `ReduceSamples.CompressorLimits` | hwzip/reduce.c:92-110 | References go as far as 512, 1024, 2048 or 4096, are as long as 385, 321, 289 or 273 and do not overlap; the sets are chosen for the first 65536 bytes. |
| `ReduceRoundTrip.ReduceThenExpand` | hwzip/reduce_fuzzer.c:35-43 | Both programs together give the source back, and read exactly the bytes that were written, with all factors; they fail only if the compressed form does not fit. |
| `ZipFormat.FieldsRead` | hwzip/zip.c:15-21 | Reading fields of 16 and 32 bits inverts writing them. |
| `ZipFormat.LfhReads` | hwzip/zip.c:238-273 | A local header is read back as it was written. |
| `ZipFormat.CfhReads` | hwzip/zip.c:131-174 | A central header is read back as it was written. |
| `ZipSamples.LfhInBytes` | hwzip/zip.c:275-303 | A local header in bytes. |
| `ZipSamples.CfhInBytes` | hwzip/zip.c:176-215 | A central header in bytes. |
| `ZipSamples.EocdrInBytes` | hwzip/zip.c:79-98 | The end of central directory record in bytes. |
| `ZipFormat.FindsIff` | hwzip/zip.c:42-77 | The record at the end is found if and only if no signature follows that leaves room for a record. |
| `ZipSamples.SignatureIs` | hwzip/zip.c:38-55 | The four bytes that the record begins with. |
| `ZipSamples.LastSignature` | hwzip/zip.c:42-77 | In any file, what counts is the last signature that leaves room for 22 bytes, if it is no more than 102400 bytes before the place of a record without a comment. |
| `ZipArchive.IteratorStep` | hwzip/zip.c:423-460 | In any archive that can be read, an iterator that is not at the end is at a member, what is asserted there holds, and iterating takes as many steps as there are members. |
| `ZipArchive.ArchiveReads` | hwzip/zip.c:348-421 | An archive that was written is read with its comment and all its members in order if and only if no signature follows that of the record at the end; without a comment, always. |
| `ZipSamples.OneMember` | hwzip/zip.c:534-674 | The archive of one member, part by part. |
| `ZipSamples.EmptyArchive` | hwzip/zip_test.c:497-511 | The archive without members or comment is 22 bytes, and is read back. |
| `ZipSamples.Accepted` | hwzip/zip.c:348-421 | An archive is accepted if and only if its record is for one volume with all members, and as many central headers as it says stand in a row, each with a member. |
| `ZipSamples.MemberAccepted` | hwzip/zip.c:375-414 | A member is accepted if and only if it is not encrypted, its method is one of 0 to 6 and 8, it has its full size if stored, it is on the first volume, its name has no zero byte, and there is a local header with all of the data after it. |
| `ZipSamples.MemberMeans` | hwzip/zip.c:423-460 | What the numbers of the headers say about a member: where its data are, the flags for Implode, directories, and where the next one is. |
| `ZipRestore.ZipExtractMember` | hwzip/zip.c:462-532 | On any member, succeeds exactly if its data stand for the right number of bytes, which are then in the output. |
| `ZipRestore.Pack` | hwzip/zip.c:560-619 | With every method, the member stands for the file; the method is used if and only if the compressed form is smaller than the file, else the file is stored. |
| `ZipSamples.MethodNumbers` | hwzip/zip.c:462-532 | The methods by number, with the second attempt for Implode. |
| `ZipSamples.MethodMarks` | hwzip/zip.c:560-619 | The flags and the version that are written for each method. |
| `ZipSamples.SmallerOrStored` | hwzip/zip.c:552-619 | With which sizes of the compressed form a method is used. |
| `ZipCodec.WriteLfh` | hwzip/zip.c:275-303 | Writes a local header in place. |
| `ZipCodec.WriteCfh` | hwzip/zip.c:176-215 | Writes a central header in place. |
| `ZipCodec.ZipMaxSize` | hwzip/zip.c:676-711 | The size that always suffices, or 0 exactly if a name, the comment or everything together is too long. |
| `ZipSamples.MaxSize` | hwzip/zip.c:676-711 | It is 22 bytes and the comment, and for each file 76 bytes, its name twice and its data. |
| `ZipCodec.WriteCentral` | hwzip/zip.c:627-654 | The central directory is made from the local headers as they are read back from the output. |
| `ZipCodec.ZipWrite` | hwzip/zip.c:534-674 | The archive holds members that stand for the files, in order, each in the requested method if that makes it smaller and else stored, and takes no more room than `zip_max_size()` says. |
| `ZipCodec.FindEocdr` | hwzip/zip.c:42-77 | Finds the record that the format says, on any input. |
| `ZipCodec.ZipRead` | hwzip/zip.c:348-421 | On any input, accepts exactly what the format says. |
| `ZipRoundTrip.FilesRestored` | hwzip/zip.c:534-674 | All files of an archive are restored, with name, size, time and checksum. |
| `ZipCodec.ListMembers` | hwzip/zip_fuzzer.c:26-46 | In any archive that can be read, iterating from the first member reaches the end after exactly as many steps as there are members. |
| `ZipRoundTrip.CommentMisleads` | hwzip/zip.c:48-72 | With a comment of 22 bytes that begins with the signature, the archive is not read as it was written. |
| `ZipRoundTrip.ZipThenUnzip` | hwzip/zip.c:462-674 | Files are put into an archive and restored with names and data, with every method. |

## Left out

- The variants for `NO_LONG_LONG`: the same logic with narrower words.
- The callbacks of `lz77_compress()` take a state through a pointer; the model gives them as a predicate on the calls so far, and the compressors are run on the calls afterwards, in the same order. That compression stops in the middle when a callback fails is stated by `Lz77Codec.Lz77Compress`; for the compressors it means only that they fail.
- Bit operations are written as arithmetic: shifts and masks as products, quotients and remainders of powers of two, OR of disjoint bits as a sum, complements as differences.
- Tables that the program holds as constants (fixed codes, length and distance codes) are functions; the loops that generate the tables are proved to agree with them. The generated file itself is not part of this model.
- `qsort()` in `write_follower_sets()` is a sorted permutation computed by insertion; the comparison function is a total order on the followers, so the result is the same.
- The fixed-size buffers of Deflate (block, run-length codes) and of Implode (frequencies) are sequences whose sizes are bounded in proofs, not arrays.
- `compute_huffman_lengths()` jumps back to try again with a lower cap; in the model each attempt is a method and the jump is a loop.
- `hwimplode()` and `zip_write()` on a failing write leave part of the output written; what that part is, is not stated.
- In `zip_write()` the compressors write to a buffer of their own that is then copied, and the callback for progress is not called; the output of an extraction has exactly the size of the member.
- `crc32()` and the conversion of times: checksums and times are given as numbers. Conversion depends on the C library's time zone, and the library does not check the CRC-32 when it extracts.
- Archives of more than one volume, encrypted members and directories as such are only rejected or reported as the program does.
- The command line program, folders, self-tests and benchmarks, and everything outside `hwzip/`: input and output, or code that does not take part in compression.

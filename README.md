# huffman-c in Dafny

A model of the core of `huffman-c`, a Huffman compressor for byte buffers,
with proofs about it.

**Encoding** (`encode` in main.c) takes these steps:

1. The input is collapsed into a symbol list. Each run of equal bytes gives one entry.
2. Each entry's occurrences are counted, and a leaf is made for it.
3. The leaves are kept in a singly linked list, sorted by frequency.
4. `build_tree` repeatedly merges the two lightest nodes into one tree.
5. `dfs` assigns each leaf its code: left is 0, right is 1, and `code` holds the path bits.
6. `compress` writes the file.

The compressed file holds, in order:

- the signature `HUFFBOOK`;
- a `uint64_t` entry count;
- the entries (symbol, bit count, and the fewest bytes that hold the code);
- the separator byte 0x29;
- the `uint64_t` original length;
- 0x29;
- the code bits of the input, packed most significant bit first;
- 0x29;
- the `uint64_t` count of code bits.

**Decoding** (`decode` in main.c) runs the other way:

1. Check the signature.
2. Read the code book back (`read_codebook`).
3. Read the separators and the original length.
4. Shift the stream into a register one bit at a time, asking `search_code` after every bit.
5. Stop at the next 0x29 byte or at the end of the file.

**How the model is built:**

- Files and buffers are `seq<uint8>`. The `uint64_t` fields are eight little-endian bytes.
- The node list is a `seq<Node>` of tree values. The `Tree` that `build_tree` updates is a class.
- The code book is a class whose table `dfs` fills.
- The static state of `write_bit` is a `Writer` class.
- A `FILE *` being read is a `Reader` class with a position and an end-of-file flag.
- Each C loop is a method. It is proved equal to a function, and the properties are proved about that function.
- Runs that crash or never end in C are explicit outcomes in `EncodeOutcome` and `DecodeOutcome`. So are runs that store past the end of the decoder's `data` array, of the code-book table whose size wraps, or of a code-book entry's `CodeTable`. The one out-of-bounds store the model does not show is the signature buffer of `decode` (see "## Left out").

**What is proved**, among other things:

- The node list stays sorted, and `add_node` puts a node in front of equal-frequency nodes.
- The counts add up to the input length.
- The tree's root weighs the input length, and the tree holds exactly the input's bytes.
- The codes `dfs` assigns are the root-to-leaf paths. The code book is prefix-free and no code exceeds the tree height.
- Reading back the header that `compress` writes gives the same code book.
- Feeding the stream of an input to the decoder gives that input back.
- Take an input that `encode` writes out, with two or more distinct bytes, whose stream fills whole bytes and holds no 0x29 byte. Decoding the output of encoding returns that input.
- An input made of one repeated byte gets a code of zero bits, and decodes to nothing.
- `decode` rejects exactly the files without the signature. A stored count of 2^61 or more entries, which `compress` writes for such a book, ends in `TableOverrun`. Every file it accepts has a code book within its table and its `CodeTable`s, both header separators, and a stream ending at a separator followed by the full bit count.
- A worked example shows this on `AAAABCCCDDE`, byte by byte.

The C program does not report typed errors, and its file format has no escaping. The model keeps that behaviour:

- Empty input, codes longer than 32 bits, a code book with 256 or more entries, a stored count of 2^61 or more entries, a stored code longer than its `CodeTable` has room for, and a decoder output longer than the recorded length all end badly. C crashes, spins or overruns, and the model says which.
- A 0x29 byte inside the packed stream is not reserved away. It ends the stream early.
- The bit count at the end is never compared with anything. Only whether it can be read decides `BadFormat`.
- The last partial byte of the stream is never written (see `Container.Compress`).

## Model

| member | source | states |
|---|---|---|
| Binary.FromLEOfLE | huffman.c:462 | a `uint64_t` field written as n little-endian bytes reads back as the same value when it fits |
| Binary.FromLETruncates | huffman.c:496 | storing a count in n bytes keeps it modulo 2^(8n), the `uint64_t` wrap-around |
| SortedList.InsertPos | huffman.c:186-196 | the insertion point: every earlier node is strictly lighter, and the node at it is at least as heavy |
| SortedList.Insert | huffman.c:178-202 | the list grows by one, with the new node at the insertion point |
| SortedList.AddNode | huffman.c:178-202 | `add_node` (front insertion when not heavier than the head, else a walk while the next node is strictly lighter) is exactly sorted insertion |
| SortedList.InsertMultiset | huffman.c:178-202 | insertion adds the node and loses none |
| SortedList.InsertBeforeEqual | huffman.c:186-196 | the new node lands before every node of equal frequency |
| SortedList.InsertKeepsSorted | huffman.c:178-202 | a list sorted by frequency stays sorted |
| SortedList.InsertShape | huffman.c:192-199 | nodes before the insertion point stay in place and the rest move one step later |
| SortedList.InsertSumFreqs | huffman.c:178-202 | the list's total frequency grows by the node's |
| Symbols.CollapseRuns | huffman.c:213-218 | the symbol list is no longer than the input, is empty iff the input is, ends with the input's last byte, has no two equal neighbours, and holds exactly the input's bytes |
| Symbols.CollapseSnoc | huffman.c:215-217 | one more input byte is appended unless it repeats the last entry |
| Symbols.InitSymbolList | huffman.c:204-227 | the loop builds the run-collapsed symbol list |
| Symbols.FirstIndex | huffman.c:253-258 | the first entry equal to the byte, or the list length if none |
| Symbols.CountOccurrences | huffman.c:250-259 | the counting loop produces the per-entry counts |
| Symbols.CreditOf | huffman.c:250-259 | an entry's count is the byte's number of occurrences if it is the first entry for that byte, and 0 otherwise |
| Symbols.CreditsSum | huffman.c:250-259 | when every byte has an entry, the counts add up to the input length |
| TreeBuilder.InsertAllFacts | huffman.c:261-271 | inserting the leaves one by one gives a sorted list with the same nodes and the same total |
| TreeBuilder.LeafList | huffman.c:261-271 | the leaf loop yields the sorted insertion of all leaves |
| TreeBuilder.InitialListFacts | huffman.c:229-278 | the initial list is sorted, has one leaf per symbol-list entry, totals the input length, and its nonzero leaves carry exactly the input's bytes |
| TreeBuilder.InsertInFront | huffman.c:186-190 | a node no heavier than the head goes first |
| TreeBuilder.InsertBehind | huffman.c:192-199 | a node heavier than the head is inserted into the rest |
| TreeBuilder.Step | huffman.c:283-311 | one merge shortens the list by one and keeps its total. A nonzero second node gives the merged node inserted into the rest. A zero second node leaves the first node in front of the rest |
| TreeBuilder.StepIs | huffman.c:304-310 | unlinking the second node, inserting the merged node from the head, then moving past the head is one merge step |
| TreeBuilder.StepKeepsSorted | huffman.c:283-311 | a merge step keeps the list sorted |
| TreeBuilder.BuildFreqs | huffman.c:280-315 | the root weighs the list's total |
| TreeBuilder.StepKeepsWellWeighted | huffman.c:288-293 | every internal node weighs the sum of its children, before and after a merge |
| TreeBuilder.StepKeepsSymbols | huffman.c:283-311 | a merge keeps the set of bytes with nonzero frequency |
| TreeBuilder.BuildKeepsSymbols | huffman.c:280-315 | the root carries exactly the list's nonzero-frequency bytes |
| TreeBuilder.TreeOfInput | huffman.c:229-315 | for a non-empty input, the root weighs the input length and holds exactly the input's bytes |
| TreeBuilder.StepLeafCount | huffman.c:283-311 | a merge adds no leaf |
| TreeBuilder.BuildLeafCount | huffman.c:280-315 | the tree has no more leaves than the list |
| TreeBuilder.TreeLeafCount | huffman.c:399-405 | the tree has no more leaves than the symbol list has entries, so `dfs` fits the table `tree2book` allocates |
| TreeBuilder.Tree.constructor | huffman.h:69-73 | a tree with the given node list and symbol count |
| TreeBuilder.Tree.BuildTree | huffman.c:280-315 | the list becomes the single built root, and the symbol count is unchanged |
| TreeBuilder.InitTreeFromBuf | huffman.c:229-278 | a fresh tree whose list is the sorted leaf list of the input, and whose count is the symbol-list length |
| CodeBook.Shl1 | huffman.c:353 | shifting a 32-bit code left doubles it modulo 2^32, leaving an even value |
| CodeBook.Inc8 | huffman.c:352 | the `uint8_t` length wraps at 256 |
| CodeBook.DfsTable | huffman.c:336-358 | one entry per leaf |
| CodeBook.DfsIsPaths | huffman.c:336-358 | within 32 levels, entry i is leaf i from left to right: its symbol, its depth as the bit count, and the value of its path (left 0, right 1) as the code |
| CodeBook.PathsShape | huffman.c:350-357 | every path extends its prefix by at most the subtree height |
| CodeBook.TreePrefixFree | huffman.c:350-357 | no root-to-leaf path is a prefix of another |
| CodeBook.BookOfTree | huffman.c:397-407 | for a tree at most 32 high, the code book is prefix-free, every code fits its bit count, and no code is longer than the tree height |
| CodeBook.ScanEnd | huffman.c:411-414 | the scan ends with the entry it stopped at, with none past the table, or spins when the `uint8_t` index wraps |
| CodeBook.SymbolIndex | huffman.c:411-412 | the first entry with the symbol, or the table length |
| CodeBook.CodeIndex | huffman.c:420-421 | the first entry with both the code and the bit count, or the table length |
| CodeBook.FindSymbolMeaning | huffman.c:409-415 | `search_symbol` finds the first entry for the symbol, returns NULL only when the table is shorter than 256 and has none, and never returns when the first 256 entries have none |
| CodeBook.FindCodeOfEntry | huffman.c:417-424 | in a prefix-free book, searching an entry's code and bit count finds that entry |
| CodeBook.Book.constructor | huffman.c:369-380 | an empty code book |
| CodeBook.Book.Dfs | huffman.c:336-358 | `dfs` appends the depth-first table of the subtree |
| CodeBook.Book.SearchSymbol | huffman.c:409-415 | the loop returns the specified lookup result |
| CodeBook.Book.SearchCode | huffman.c:417-424 | the loop returns the specified lookup result |
| CodeBook.Tree2Book | huffman.c:397-407 | a fresh book holding the depth-first table of the root, sized by the symbol count |
| CodeBook.BitStr | huffman.c:20-29 | a string of `len` characters, each '0' or '1', with the i-th from the right being bit i of the code |
| BitWriter.FullBytes | huffman.c:433-440 | the whole bytes packed from a bit string: all but fewer than eight of its bits |
| BitWriter.UnpackFullBytes | huffman.c:428-441 | unpacking the packed bytes and adding the pending bits gives back the bit string |
| BitWriter.WholeBytes | huffman.c:428-441 | a bit string of whole bytes packs with nothing pending |
| BitWriter.FullBytesAppend | huffman.c:428-441 | packing in two parts, carrying the pending bits over, is packing the whole |
| BitWriter.OrBit | huffman.c:433-434 | or-ing a bit in at the next lower index puts it after the bits already in the byte |
| BitWriter.CodeBit | huffman.c:448 | bit i of a code, counted from its most significant end, is the i-th path bit |
| BitWriter.Writer.constructor | huffman.c:430-431 | no output yet and no pending bits |
| BitWriter.Writer.WriteBytes | huffman.c:459 | `fwrite` appends the bytes |
| BitWriter.Writer.WriteBit | huffman.c:428-441 | emits every completed byte and keeps the rest pending |
| BitWriter.Writer.WriteCode | huffman.c:443-451 | writes the code's bits most significant first, emitting the completed bytes |
| Container.CodeBytes | huffman.c:466 | the fewest bytes that hold the code's bits |
| Container.StreamBitsSnoc | huffman.c:482-490 | the code of the last input byte comes last in the stream |
| Container.Compress | huffman.c:453-504 | the output grows by the whole file layout, and the stream's last partial byte stays pending |
| Container.WriteHeader | huffman.c:458-478 | for codes of at most 32 bits, writes signature, entry count, entries, separator, length and separator |
| Container.WriteEntries | huffman.c:464-470 | for codes of at most 32 bits, writes every entry as symbol, bit count and code bytes |
| Container.WriteStream | huffman.c:481-490 | writes the packed codes of the input and returns the number of code bits |
| Container.ReadAt | huffman.c:532-539 | `fread` takes up to n bytes from the position, stops only at the end of the file, and sets the end-of-file flag on a short read |
| Container.ReadExact | huffman.c:532-539 | reading a field stored at the position gives the field back |
| Container.ParseEntryAt | huffman.c:527-539 | a stored entry whose code fits its bits reads back as itself |
| Container.ParseEntries | huffman.c:525-542 | the loop reads as many entries as the count says |
| Container.ParseBookOfHeader | huffman.c:508-545 | reading the code book of a file that `compress` wrote gives back the table, stores no entry past its `CodeTable`, and stops at the first separator |
| Container.ParseBookAt | huffman.c:508-545 | reading the code book of any file with an entry count at offset 8 and that many stored entries after it gives those entries, with no overrun |
| Container.LengthOverwritten | huffman.c:537-539 | a stored length of 33 to 64 bits is replaced by the fifth code byte, which lands in `num_bits`. The code holds the first four bytes, and the entry stays within its `CodeTable` |
| Container.OverrunsIff | huffman.c:537-539 | with all its bytes present, an entry stores past its 12-byte `CodeTable` exactly when its length is above 64 bits |
| Container.Reader.constructor | main.c:146 | a file at position 0 with the end-of-file flag clear |
| Container.Reader.Read | huffman.c:518 | `fread` returns what is available and moves the position |
| Container.Reader.ReadByte | main.c:192 | one byte, or nothing and the end-of-file flag at the end |
| Container.Reader.Seek | huffman.c:515 | `fseek` sets the position, clamped to the file, and clears the end-of-file flag |
| Container.ReadCodebook | huffman.c:508-545 | the book read is the specified parse of the file, including the lengths that code bytes overwrite. The file position is left where the parse ends, and the results say whether an entry overran its `CodeTable` and whether an entry pointer was stored past the table, whose room is the wrapped `TableSlots` |
| Container.ReadEntries | huffman.c:525-542 | the loop reads the specified n entries, reports whether any of them overran, and whether the first entry past the table's room comes before any overrun |
| Container.TableSlotsWrap | huffman.c:519 | the table's room, `num_symbols * sizeof(CodeTable *)` modulo 2^64, is the count modulo 2^61, short of the count exactly when the count is 2^61 or more |
| Container.TableOverrunsAt | huffman.c:519-526 | a stored book overruns the table exactly when it has 2^61 or more entries |
| Container.HeaderTableIff | huffman.c:519-526 | the header `compress` writes overruns the table exactly when its book has 2^61 or more entries |
| Container.ReadEntry | huffman.c:527-539 | one entry: the symbol, the bit count, and the code bytes. The first four code bytes go into the code and a fifth replaces the bit count. The result says whether more than eight code bytes ran past the `CodeTable` |
| Decoder.FeedBitsGrows | main.c:206-214 | decoding only appends symbols and never writes past the length bound |
| Decoder.FeedBitsAppend | main.c:192-216 | decoding two bit strings one after the other is decoding their concatenation |
| Decoder.ShiftBit | main.c:202-204 | shifting a bit into the register appends it to the bits read |
| Decoder.PrefixMisses | main.c:206 | in a prefix-free book, a proper prefix of a code finds nothing |
| Decoder.FeedPrefix | main.c:197-214 | the first k bits of a code leave those bits in the register and decode nothing |
| Decoder.FeedCode | main.c:197-214 | the bits of a whole code decode its symbol and clear the register |
| Decoder.ReadBack | main.c:192-216 | the stream of an input decodes back to that input |
| Decoder.BitOf | main.c:199-200 | the mask-and-shift extracts bit i of the byte |
| Decoder.ShiftIn | main.c:202-214 | one pass of the inner loop is one decoder step |
| Decoder.FeedByte | main.c:197-215 | the inner loop feeds the byte's eight bits, most significant first |
| Decoder.StreamEnd | main.c:192-195 | the stream ends at the first separator after the position, or at the end of the file |
| Decoder.FeedFromIsBits | main.c:192-216 | reading bytes up to a position is feeding their bits |
| Decoder.ReadStream | main.c:187-216 | the byte loop decodes up to the stream's end and, when it does not crash or hang, stops just after the separator |
| Decoder.Decode | main.c:146-241 | `decode` ends in the specified outcome |
| Decoder.BadSignatureIff | main.c:152-160 | `decode` stops at the signature exactly when the file does not start with `HUFFBOOK` |
| Decoder.TableOverrunStops | main.c:164 | with the right signature, a code book that overruns its table ends in `TableOverrun` |
| Decoder.OverrunStops | main.c:164 | with the right signature and no table overrun first, a code book that overruns a `CodeTable` ends in `BookOverrun` |
| Decoder.MissingSeparator | main.c:167-184 | after the signature and a code book that stays within its table and its `CodeTable`s, a missing separator after the book or after the eight length bytes is a bad header |
| Decoder.HeaderOkShape | main.c:152-185 | an accepted header has the signature, a code book within its table and its `CodeTable`s, a separator after the book and another after the eight length bytes, and the stream starts after it |
| Decoder.BodyDecodedShape | main.c:192-227 | a stream that decodes ends at a separator followed by eight bytes of bit count |
| Decoder.DecodedShape | main.c:146-227 | every file `decode` accepts passes all the header checks, and its stream ends at a separator followed by the full bit count |
| Decoder.HeaderOfContainer | main.c:152-185 | the header that `compress` writes for fewer than 2^61 entries is accepted: its book, its length and the position of the stream |
| Decoder.HugeBookStops | main.c:164 | a header `compress` writes for 2^61 or more entries ends `decode` in `TableOverrun` |
| Decoder.StreamOfContainer | main.c:192-195 | with no separator among the packed bytes, the stream read is exactly those bytes, and the bit count follows it |
| Decoder.BodyOfContainer | main.c:187-227 | after a valid header, a whole-byte stream of an input decodes to that input |
| Decoder.FeedStream | main.c:192-216 | feeding the packed bytes of an input's stream decodes that input |
| Decoder.ContainerRoundTrip | main.c:146-227 | a file laid out by `compress` with a prefix-free book decodes to its input, when the stream fills whole bytes and holds no separator |
| Encoder.PrintLoop | main.c:135-136 | every slot is printed iff the table covers them and there are fewer than 256, and the loop crashes on an empty slot iff one comes before the index wraps |
| Encoder.PrintTables | main.c:135-136 | the listing loop ends as specified |
| Encoder.Encode | main.c:119-144 | `encode` ends in the specified outcome |
| Encoder.EncodeWrites | main.c:134-139 | when the listing completes and no code overflows, the file is the layout of the book and the input |
| Encoder.SearchEnds | huffman.c:411-414 | with fewer than 256 entries, `search_symbol` always returns |
| Encoder.HeightBelowLeaves | huffman.c:350-357 | a tree is lower than its number of leaves |
| Encoder.DfsDepths | huffman.c:350-357 | every bit count is at most the depth of the deepest leaf, and some leaf reaches it |
| Encoder.DfsSymbols | huffman.c:336-358 | every byte in the tree gets an entry |
| Encoder.WrittenBook | main.c:124-139 | when a file is written, its book has one entry per symbol-list entry and fewer than 256 entries, is prefix-free, has codes of at most 32 bits, and covers every input byte |
| Encoder.WrittenCodesNonEmpty | huffman.c:350-357 | with two distinct input bytes, every code has at least one bit |
| Encoder.EncodeDecode | main.c:119-227 | decoding what `encode` writes gives back the input: two or more distinct bytes, and a stream that fills whole bytes with no separator |
| Encoder.OneRun | huffman.c:213-218 | one repeated byte gives a one-entry symbol list |
| Encoder.OneSymbolBook | huffman.c:336-349 | one repeated byte gets a code of zero bits |
| Encoder.NoStreamBits | huffman.c:446 | zero-bit codes write no bits |
| Encoder.OneSymbolFile | huffman.c:453-496 | the file for one repeated byte has an empty stream |
| Encoder.OneSymbolContainer | main.c:134-139 | for one repeated byte the file is the layout of a one-entry book with a zero-bit code |
| Encoder.DecodeEmptyStream | main.c:192-227 | a file with an empty stream decodes to nothing |
| Encoder.OneSymbolLost | main.c:119-227 | one repeated byte is written but decodes to nothing: the data are lost |
| Sample.SampleSymbols | huffman.c:213-218 | `AAAABCCCDDE` gives the symbol list A B C D E |
| Sample.SampleCounts | huffman.c:250-259 | its counts are 4, 1, 3, 2, 1 |
| Sample.SampleList | huffman.c:261-271 | its sorted leaf list is E1 B1 D2 C3 A4 |
| Sample.SampleTree | huffman.c:280-315 | its tree weighs 11, with A alone on the left |
| Sample.SampleBook | huffman.c:397-407 | its code book is A=0, C=10, E=1100, B=1101, D=111 |
| Sample.SampleBits | huffman.c:481-490 | its stream is the 24 code bits in input order |
| Sample.SampleBytes | huffman.c:428-441 | these bits pack as 0x0D 0xAB 0xFC |
| Sample.SampleWritten | main.c:119-144 | `encode` writes the file for that book and input |
| Sample.SampleRoundTrip | main.c:146-227 | `decode` returns `AAAABCCCDDE` from that file |
| Sample.SampleWrappedTable | huffman.c:519 | a count of 2^61 + 1 leaves room for one entry pointer |
| Sample.SampleOverwrite | huffman.c:537-539 | the entry 41 21 01 00 00 00 01 reads back as symbol A with the one-bit code 1, because the fifth code byte replaces the stored length 33 |

## Left out

- Command-line handling (`main`, usage, option parsing, main.c:18-117) and reading files into buffers (`init_buf_from_file`, `init_buf_from_str`, `add_buffer`, `del_buffer`): these are I/O. The model starts from the input bytes.
- Allocation, `mem_check`, and freeing (`del_tree`, `del_codebook`, `new_node`, `new_codetable`): no allocation fails in the model.
- The reset of the `next` pointers of the head's children in `build_tree` (huffman.c:305-308): the tree is a value, so no node has a `next` pointer.
- Printing: the occurrence list, `print_table`, the floating-point statistics of `compress` (huffman.c:498-503), the `__DEBUG__` blocks and the `__TEST__` main (huffman.c:549-567). They are console output. Only the listing loop's termination is modelled (`Encoder.PrintLoop`).
- Writing the decoded data to `out.txt` or the console (main.c:229-238) is output. `Decoded` carries the bytes.
- `decode` allocates one byte for the signature and reads eight into it. The model compares the eight bytes read, and a short read is a mismatch. The overflow of that buffer is not modelled.
- Symbols.InitSymbolList: starts its count at 0. `init_symbol_list` adds to `tree->num_symbols`, which the caller never initialises.
- Decoder.DecodeHeader: the uninitialised `byte` before the first separator read is taken as 0, so an empty read is a missing separator.
- Container.ReadFields: a short `fread` of a code keeps the bytes that were available, taken as the low bytes of a zero-initialised field. A short count read gives the value of the bytes available. The sixth to eighth code bytes fall in the struct padding and change no field. These layout facts assume the usual 12-byte `CodeTable` with a 4-byte-aligned `code`.
- Container.ReadCodebook: after an entry stores past its `CodeTable`, or an entry pointer past the table, the C behaviour is undefined. `Decoder.DecodeSpec` stops there with `BookOverrun` or `TableOverrun` and does not follow what `read_codebook` and `decode` do next. The table's size assumes 8-byte pointers and a 64-bit `size_t`. A `malloc` of 0 bytes, for a count of exactly 2^61, is taken to succeed like every allocation.
- Container.WriteEntries: requires codes of at most 32 bits. For 33 to 64 bits `compress` copies `num_bits` and then the padding bytes of the `CodeTable`, whose values `malloc` leaves unspecified. Above 64 bits it reads past the `CodeTable`. Its only caller, `Container.WriteHeader`, and the caller of that, `Container.Compress`, have the same requirement.
- Container.WriteHeader: requires codes of at most 32 bits, for the reason given for `Container.WriteEntries`.
- Container.Compress: requires codes of at most 32 bits and a search that returns. `Encoder.EncodeSpec` reports the other cases as `CodeOverrun` and `PrintSpins` before `compress` runs.
- BitWriter.Writer.WriteCode: requires at most 32 bits. The C shift of a `uint32_t` by 32 or more is undefined.
- TreeBuilder.Tree.BuildTree: requires a non-empty list. On an empty input `build_tree` dereferences NULL, reported as `EmptyInput` by `Encoder.EncodeSpec`.
- CodeBook.Tree2Book: requires no more leaves than symbol-list entries. `TreeBuilder.TreeLeafCount` proves this for every tree built from an input.
- CodeBook.DfsIsPaths: holds for trees at most 32 levels deep. Deeper codes lose bits to the shift (`CodeBook.Shl1`), and `encode` reports them as `CodeOverrun`.
- Decoder.ReadStream: storing past the `origin_len`-byte array `data` is the `DataOverrun` outcome. What C does after the overrun is not modelled.
- Encoder.EncodeDecode: the round trip is proved only when the stream fills whole bytes and holds no 0x29 byte. Otherwise `compress` drops the last partial byte, and a 0x29 byte in the stream ends decoding early; `DecodeSpec` models both.
- Decoder.ContainerRoundTrip: carries the same two conditions as `Encoder.EncodeDecode`.

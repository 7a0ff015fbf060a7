# Huffman codec of `main.py`, modelled in Dafny

This project models the codec engine of a small Huffman file compressor.

On the compress side:
- `frequency_map` counts the symbols.
- `huffman_coding` sorts the counts and builds the tree by repeatedly merging the two lightest nodes of a list kept sorted by weight.
- `encode_tree` serialises the tree in pre-order: `1` and 8 symbol bits for a leaf, `0` for an internal node.
- `assign_code` derives the code table.
- `encode` lays out the bit string, in this order: a mode bit, the tree, an 8-bit padding count, that many zeros, then the codes.
- `create_output` groups the bits into bytes.

On the decompress side:
- `read_file` expands the bytes back into bits.
- `decompress` drops the mode bit, rebuilds the tree with `decode_tree` over one shared cursor, and skips the padding.
- `decode` greedily matches the accumulated bits against the reversed code table.

Symbols are bytes (`Byte`, 0..255) and bits are `Bit` (0..1). Each Python exception on a malformed or empty input becomes an `Err` of a `Result`, except `RecursionError` (see "## Left out"):
- `EmptyInput` is `nodes[0]` on an empty list.
- `TruncatedHeader` is `data[0]` on an exhausted bit list.
- `EmptyPaddingField` is `int('', 2)`.

Python's dictionaries become:
- an insertion-ordered list of `(symbol, count)` items, because that order decides how ties are broken;
- a Dafny `map` for the code tables.

Where the source works step by step, the model does too. Each of these is a `method` with loop invariants, proved equal to a function that defines its result:
- the counting loop;
- the leaf-building loop, the merge loop and the reinsertion scan;
- `decode_tree`'s shared cursor;
- `decode`'s accumulator;
- the bit concatenation of `encode`;
- the byte loops.

`encode_tree` and `assign_code` are recursive in the source and are functions here.

Main results:
- **Round trip.** Decompressing what `compress` writes gives back the input whenever the input holds two distinct byte values (`Container.RoundTrip`).
- **Huffman tree.** The tree carries every distinct symbol exactly once and its root weighs the input length.
- **Merge step.** Each merge keeps the node list sorted and places the joined node before any node of equal weight.
- **Codes.** The codes are the root-to-leaf paths and are prefix-free.
- **Tree header.** It round-trips, and a header cut short is rejected.
- **Framing.** The padding count is always in 1..8 and the frame is byte aligned.
- **Bytes.** Packing and unpacking are mutually inverse.

The following behaviours of the code as written are reproduced, not corrected:
- **Padding of 1..8 bits.** The padding count `8 - (n % 8)` is never 0: an already aligned stream gets a whole byte of zeros (`Framing.PaddingCount`).
- **One-symbol input decodes to nothing.** A one-symbol input builds a single-leaf tree whose only code is empty, so the payload is empty. Decompression then yields no bytes at all (`Container.SingleSymbolDecompressesEmpty`).
- **Mode bit ignored.** The mode bit is read and never checked (`Container.ModeBitIgnored`).
- **Partial code dropped.** A trailing partial code is dropped silently (`Codes.TrailingPartialCode`).
- **Short padding field.** A padding field with fewer than 8 bits left is read as a shorter number (`int` of the remaining bits). Skipping past the end leaves an empty payload.
- **Ties.** The strict `>` of the reinsertion scan puts a merged node before every node of equal weight (`Huffman.InsertPos`, `Huffman.MergeStep`).

Files:
- `wrappers.dfy`: `Option`, `Result` and `Error`.
- `bits.dfy`: bit strings and the byte conversions.
- `frequency.dfy`: `frequency_map`.
- `tree.dfy`: `Node`.
- `treecodec.dfy`: `encode_tree` and `decode_tree`.
- `codes.dfy`: `assign_code`, `decode` and the code concatenation.
- `huffman.dfy`: `huffman_coding`.
- `framing.dfy`: the layout `encode` produces.
- `container.dfy`: `encode`, `compress`, `decompress` and the end-to-end results.

## Model

| member | source | states |
|---|---|---|
| Bits.FromBits | main.py:254 | `int(s, 2)` of `len(s)` binary digits is below `2^len(s)` |
| Bits.ToBits | main.py:138 | the `08b`-style rendering of a number below `2^w` has exactly `w` digits |
| Bits.FromBitsToBits | main.py:138 | reading back the `08b`-style `w`-digit rendering of `n < 2^w` gives `n` |
| Bits.ToBitsFromBits | main.py:254 | rendering `int(s, 2)` on `len(s)` digits gives back `s` |
| Bits.Pack | main.py:181-183 | the packed byte string has one byte per started group of 8 bits |
| Bits.Unpack | main.py:278-284 | the expansion has exactly 8 bits per byte |
| Bits.UnpackAppend | main.py:278-284 | expanding a concatenation is the concatenation of the expansions |
| Bits.PackStep | main.py:182-183 | each group of up to 8 bits from position `i` becomes one byte, then the rest is packed |
| Bits.UnpackPack | main.py:181-183 | expanding the bytes packed from a bit string of length a multiple of 8 gives back that bit string |
| Bits.PackUnpack | main.py:278-284 | packing the expansion of any byte string gives back the bytes |
| Bits.PackBytes | main.py:181-183 | the byte loop of `create_output` (stepping by 8) computes exactly `Pack` of its input |
| Bits.ReadBits | main.py:278-284 | the read loop of `read_file` computes exactly `Unpack` of the file's bytes |
| Frequency.IndexOf | main.py:60 | the index found holds an item whose key is the looked-up symbol |
| Frequency.SumCountsUpdate | main.py:65 | changing one item's count changes the total by the difference |
| Frequency.LookupEntry | main.py:60-65 | in a table with distinct keys, looking up an item's key finds that item's count |
| Frequency.Bump | main.py:60-65 | one loop pass keeps keys distinct, adds the symbol to the keys, raises its count (and only its count) by one, and raises the total by one |
| Frequency.BumpNew | main.py:60-62 | appending a new key with count 1 has the effect `Bump` promises |
| Frequency.BumpExisting | main.py:63-65 | incrementing an existing key in place has the effect `Bump` promises |
| Frequency.Frequencies | main.py:57-66 | the table has distinct keys, which are exactly the input's symbols. Each count equals the symbol's number of occurrences and the counts sum to `len(data)` |
| Frequency.FrequenciesEntries | main.py:57-66 | every input symbol has an item holding its occurrence count, which is at least 1 |
| Frequency.FrequencyMap | main.py:57-66 | the counting loop returns exactly `Frequencies(data)` |
| Tree.Node | main.py:6-15 | the `Node` class as a datatype: a leaf holds a weight and a symbol, an internal node a weight and both children; `IsLeaf` is `is_leaf`. It has no contract of its own: the shape is stated by `Tree.LeafSyms` and the weights by `Huffman.HuffmanTreeCorrect` |
| Tree.LeafSyms | main.py:88 | a tree has at least one leaf and an internal node at least two, because internal nodes always have both children |
| TreeCodec.Serialised | main.py:133-146 | the serialisation of a tree takes 9 bits per leaf and 1 bit per internal node |
| TreeCodec.EncodeTree | main.py:133-146 | `encode_tree(node, code)` keeps `code` as its prefix and adds 9 bits per leaf and 1 bit per internal node |
| TreeCodec.EncodeTreeAppends | main.py:133-146 | `encode_tree(node, code)` is `code` followed by the serialisation of `node` |
| TreeCodec.EncodeTreeSerialises | main.py:133-146 | the header `encode_tree(root, "")` is the serialisation of the root, of length 9·leaves + internal nodes |
| TreeCodec.DecodeTree | main.py:243-259 | a successful `decode_tree` consumes at least one bit and stays within the data |
| TreeCodec.DecodeLeaf | main.py:247-254 | a `1` followed by 8 bits decodes to a leaf with that symbol and consumes 9 bits |
| TreeCodec.DecodeInternal | main.py:255-259 | a `0` followed by two decodable subtrees decodes to the internal node over them |
| TreeCodec.DecodeSerialised | main.py:243-259 | a serialisation found at any position decodes to the same tree without weights and stops right after its last bit |
| TreeCodec.DecodeSerialisedInternal | main.py:255-259 | the internal-node case of `DecodeSerialised` |
| TreeCodec.TreeRoundTrip | main.py:243-259 | `decode_tree(encode_tree(t) + rest)` rebuilds `t`'s shape and symbols and leaves exactly `rest` |
| TreeCodec.DecodeTruncated | main.py:244 | a serialisation cut short anywhere fails with `TruncatedHeader` (the `IndexError` of `data[0]`) |
| TreeCodec.TruncatedInternal | main.py:255-258 | an internal node cut short fails, whether the cut is in its left or its right subtree |
| TreeCodec.TruncatedInRight | main.py:257-258 | a cut inside the right subtree fails after the left subtree is read whole |
| TreeCodec.DecodeLeftFails | main.py:257 | a failure in the left subtree is the node's failure |
| TreeCodec.DecodeRightFails | main.py:258 | a failure in the right subtree is the node's failure |
| TreeCodec.CutHeaderRejected | main.py:243-259 | every proper prefix of a header is rejected with `TruncatedHeader` |
| TreeCodec.EncodeDecodeTree | main.py:243-259 | whatever `decode_tree` accepts is exactly the serialisation of the tree it returns |
| TreeCodec.DecodeTreeAt | main.py:243-259 | `decode_tree` over one shared cursor (the 8-bit loop and both recursive calls advance it) computes exactly `DecodeTree` |
| Codes.AssignCode | main.py:149-156 | the table's symbols are exactly the tree's leaf symbols. Every code extends the given prefix, and under an internal node every code is strictly longer than the prefix |
| Codes.AssignCodePaths | main.py:149-156 | each code is the prefix followed by the path (left 0, right 1) from the node to a leaf carrying that symbol |
| Codes.AssignCodePrefixFree | main.py:149-156 | no symbol's code is a prefix of another symbol's code |
| Codes.AssignCodeUnweighted | main.py:149-156 | code assignment ignores weights, so a decoded tree gives the same table as the original |
| Codes.ReverseTable | main.py:217 | for distinct codes, the reversed dictionary maps each code back to its symbol and nothing else |
| Codes.DecodeFrom | main.py:262-270 | `decode` as a function of the bits still to read and the accumulated code. It has no contract of its own: `Codes.DecodeFromBounded`, `Codes.DecodeEncodeSymbols` and `Codes.TrailingPartialCode` state what it returns |
| Codes.DecodeFromBounded | main.py:262-270 | `decode` returns at most one symbol per input bit, and each is a value of the reversed table |
| Codes.Decode | main.py:262-270 | the decoding loop with its `code` accumulator computes exactly `DecodeFrom(data, "", table)` |
| Codes.EncodeSymbols | main.py:165-166 | the concatenated codes of the symbols, in order. It has no contract of its own: `Codes.EncodeSymbolsLength`, `Codes.EncodeSymbolsAppend` and `Codes.DecodeEncodeSymbols` (its inverse) state its properties |
| Codes.EncodeSymbolsLength | main.py:165-166 | with no empty code among the symbols, the encoding has at least one bit per symbol |
| Codes.EncodeSymbolsAppend | main.py:165-166 | encoding a concatenation concatenates the encodings |
| Codes.DecodeOneCode | main.py:265-269 | a code none of whose proper prefixes is a key is read as exactly one symbol, then decoding restarts |
| Codes.DecodeFirstCode | main.py:265-269 | with a prefix-free table, a whole code at the front is read as its symbol |
| Codes.DecodeEncodeSymbols | main.py:262-270 | decoding the concatenated codes of a prefix-free table with non-empty codes returns the symbols, then decodes whatever follows |
| Codes.DecodeDropsPartial | main.py:265-270 | bits that never complete a key produce no output |
| Codes.TrailingPartialCode | main.py:262-270 | whole codes followed by a proper prefix of a code decode to just the whole codes' symbols |
| Huffman.InsertPos | main.py:91-93 | the scan stops after every strictly lighter node and at the first node that is not lighter |
| Huffman.InsertPosUnique | main.py:91-93 | any position with only lighter nodes before it and a node that is not lighter at it is where the scan stops |
| Huffman.InsertKeepsSorted | main.py:90-94 | inserting at the scan's position keeps a sorted list sorted |
| Huffman.InsertEntry | main.py:94 | inserting an item adds it to the items, its key to the keys and its count to the total |
| Huffman.SortStep | main.py:71 | inserting the head item into the sorted rest gives a sorted permutation with the same keys and total |
| Huffman.HeadSplit | main.py:71 | a table is its first item plus the rest, in items, keys and total |
| Huffman.SortByCount | main.py:71 | the sorted items are ordered by count and are a permutation of the input, with the same keys, length and total |
| Huffman.MakeLeaves | main.py:75-77 | one leaf per item, weighted by its count. It has no contract of its own: `Huffman.MakeLeavesForest` and `Huffman.LeavesSorted` state its properties |
| Huffman.MakeLeavesForest | main.py:75-77 | the leaves made from the items carry exactly the items' keys and weigh their total |
| Huffman.LeavesSorted | main.py:75-77 | leaves made from items sorted by count are sorted by weight and each has a weight |
| Huffman.Merge | main.py:80-94 | one merge pass shortens the list by exactly one |
| Huffman.MergeStep | main.py:80-94 | a merge joins the first two nodes under a node weighing their sum. It places that node after every lighter node and before any node of equal weight, keeps the list sorted, and keeps the total weight and the leaf symbols |
| Huffman.MergeJoined | main.py:82-94 | the merged list is the rest with the joined node spliced in at the scan position |
| Huffman.MergeSorted | main.py:90-94 | a merge keeps the list sorted by weight |
| Huffman.MergeWellWeighted | main.py:87-88 | the joined node weighs what its two children weigh together |
| Huffman.MergeAt | main.py:84-94 | the loop body's `nodes[2:]` with the joined node inserted at the scan position is one `Merge` |
| Huffman.FirstTwo | main.py:82-84 | the first two trees and the rest together carry the list's leaves and weight |
| Huffman.Reduce | main.py:80 | merging until at most one node is left ends with exactly one node for a non-empty list |
| Huffman.ReduceTree | main.py:80-94 | the single node left is a well-weighted tree carrying the whole weight and every leaf of the list |
| Huffman.HuffmanTree | main.py:69-97 | the root `huffman_coding` builds fails, with `EmptyInput`, exactly when the table is empty |
| Huffman.HuffmanTreeCorrect | main.py:69-97 | for a non-empty table, the root weighs the sum of all counts, each node weighs its children's sum, and the leaf symbols are exactly the table's keys, each once |
| Huffman.InsertionIndex | main.py:91-93 | the reinsertion scan returns exactly the position `InsertPos` characterises |
| Huffman.MergeFirstTwo | main.py:82-94 | one pass of the merge loop computes exactly `Merge(nodes)` |
| Huffman.HuffmanCoding | main.py:69-107 | an empty table fails with `EmptyInput`. Otherwise the method returns the root `HuffmanTree` describes, its code table and its serialised header |
| Framing.PaddingCount | main.py:169 | the padding count is between 1 and 8, brings header, count field, padding and payload to a multiple of 8 bits, and is 8 exactly when header and payload are already aligned |
| Framing.Frame | main.py:159-175 | the frame starts with mode bit 0, is longer than the mode bit, header and count field together, and is a whole number of bytes |
| Container.ConcatCodes | main.py:165-166 | the loop of `encode` that appends each symbol's code computes exactly `EncodeSymbols` |
| Container.Encode | main.py:159-175 | the concatenation loop and the framing produce exactly `Frame`: `0`, header, `num` on 8 bits, `num` zeros, then the codes |
| Container.CodesCoverInput | main.py:37-43 | for a non-empty input the tree exists and every input symbol is one of its leaves, so `language_map[char]` never fails |
| Container.CompressBits | main.py:37-43 | the bit string of `compress` fails (with `EmptyInput`) exactly when the input is empty, and is otherwise byte aligned |
| Container.Compressed | main.py:29-49 | compression fails exactly on empty input and otherwise writes one byte per 8 bits of the frame |
| Container.Compress | main.py:29-49 | the `compress` pipeline of counting, tree building, encoding and byte packing computes exactly `Compressed` |
| Container.PrefixFreeInjective | main.py:216-217 | prefix-free codes are distinct, so reversing the table loses nothing |
| Container.ReversedCodes | main.py:216-217 | the reversed table is prefix-free and maps each leaf symbol's code to that symbol, and each of its codes back to a leaf symbol whose code it is |
| Container.DecompressBits | main.py:206-226 | `decompress` on the bits `read_file` produced: whatever it decodes has fewer symbols than there are bits. The error cases are stated by `Container.TruncatedTreeRejected` and `Container.MissingPaddingRejected`, the success case by `Container.FrameDecodes` |
| Container.Decompressed | main.py:206-226 | what `decompress` recovers from a file has fewer symbols than the file has bits |
| Container.Decompress | main.py:205-226 | the decompress pipeline computes exactly `Decompressed(file)`: the `read_file` loop, removal of the mode bit, `decode_tree` on the shared cursor, padding removal and the `decode` loop |
| Container.ModeBitIgnored | main.py:209-210 | flipping the mode bit never changes the result |
| Container.TruncatedTreeRejected | main.py:209-213 | a file that ends inside the serialised tree is rejected with `TruncatedHeader` |
| Container.MissingPaddingRejected | main.py:220-221 | a file that ends right after the tree is rejected with `EmptyPaddingField` |
| Container.DecompressParts | main.py:213-226 | after a decodable tree, an 8-bit count and that many padding bits, exactly the remaining bits are decoded |
| Container.FrameDecodes | main.py:205-226 | decompressing a frame gives the decoding of exactly its encoded symbols, under the codes of the rebuilt (weightless) tree |
| Container.CompressedFrame | main.py:181-183 | the file `compress` writes expands back to the frame `encode` produced |
| Container.TwoSymbolsInternalRoot | main.py:80-97 | an input with two distinct symbols gets an internal root |
| Container.InternalCodesDecode | main.py:262-270 | under an internal root every code is non-empty, so the encoded data decodes back to exactly the data |
| Container.RoundTrip | main.py:205-226 | for an input holding two distinct byte values, compression succeeds and decompression gives back exactly the input |
| Container.EmptyCodesEncodeNothing | main.py:165-166 | data whose symbols all have the empty code encodes to no bits |
| Container.OneSymbolOneEntry | main.py:57-66 | an input of one repeated byte has a one-item frequency table |
| Container.SingleSymbolDecompressesEmpty | main.py:149-152 | as written, an input of one repeated byte compresses fine but decompresses to no bytes at all |

## Left out

- File I/O is not modelled: opening, reading and writing files, `os.stat`, `os.path`, output names and `exit(-1)`. The model works on the files' byte contents.
- UTF-8 text conversion is not modelled (`str(..., 'utf-8')` at main.py:34 and main.py:240, `bytes(..., 'UTF-8')` at main.py:46). The model's symbols are the file's bytes, 0..255, which equal the code points `compress` sees only for an ASCII file. So `Container.RoundTrip` carries over to the program only for ASCII files. A file that is not UTF-8 already fails at main.py:34. A text with a code point from 128 to 255 compresses, but `decompress` writes each such code point back as a single raw byte, and the `str(b_arr, 'utf-8')` at main.py:240 then raises or yields different text. For example, `café` becomes the symbols 99, 97, 102, 233: the model returns them, but a lone byte 233 is not UTF-8. A code point of 256 or more would overflow the 8-bit symbol field.
- Python's recursion limit (1000 frames by default in CPython) is not modelled. `decode_tree` (main.py:257-258) and `assign_code` (main.py:154-155) recurse once per tree level. A header nested about 1000 levels deep raises `RecursionError` in the source. The model instead returns `Err(TruncatedHeader)` when such a header is cut short (for example a file of 200 zero bytes), and `Ok` when it is complete. The error mapping and `Container.DecompressBits` hold only for headers within that limit. Trees built by `compress` have at most 256 leaves and so at most 255 levels, so `Container.RoundTrip` is unaffected.
- The last step of `decompress` re-renders each decoded symbol on 8 bits and regroups them into bytes. For byte symbols this is the identity, so it is left out, together with the final text write.
- The graphviz rendering (`visualize_tree`), the printing of the code table in `huffman_coding`, the interactive menu, the timing and the compression-rate arithmetic are not modelled.
- Huffman.SortByCount: Python's `sorted` (Timsort) is modelled as a stable insertion sort. The contract states order, permutation, keys and total, but not the full stability property of the result.
- Container.Decompress: a decoded tree whose leaves repeat a symbol (possible only in a hand-made file) gets the code of the rightmost such leaf, as `dict.update` does. No property is proved about such files beyond rejection of a truncated header and of a missing padding field.

# Huffman file compression (util.h), modelled in Dafny

The program compresses a file with a Huffman code and decompresses it again.
All of its algorithmic work is in `util.h`:

- `buildFrequencyMap` counts how often each character occurs, then adds the
  pseudo end-of-file symbol PSEUDO_EOF with count 1.
- `buildEncodingTree` puts one leaf per symbol into a min-priority queue on
  count. It then merges the two cheapest nodes under a new internal node
  until one root is left.
- `_buildEncodingMap`/`buildEncodingMap` walk the tree depth-first. Each
  leaf gets the path that reaches it: '0' for every step to the `zero` child
  and '1' for every step to the `one` child.
- `encode` concatenates the codes of the input characters and the
  PSEUDO_EOF code, and writes one bit per code character.
- `decode` walks the tree bit by bit from the root. It puts out the
  character of each ordinary leaf it reaches and starts again at the root.
  It stops at the first missing child.
- `compress` and `decompress` derive the output file names.

The project has seven modules:

| module | file | what it holds |
|---|---|---|
| `Huffman` | `huffman.dfy` | The node datatype and the constants PSEUDO_EOF = 256 and NOT_A_CHAR = 257. Also paths through the tree. |
| `Frequency` | `frequency.dfy` | The counting loop and its closed form `Tally`, plus what the counts add up to: `SumCounts`, `Occurrences`, `SumOfTally` and `TallyTotal`. |
| `TreeBuilder` | `tree_builder.dfy` | The priority queue and the merge loop, plus what the loop preserves. |
| `CodeTable` | `code_table.dfy` | The depth-first walk and the facts about the code table it builds. |
| `Codec` | `codec.dfy` | The encoder and decoder loops and the decoder's state machine. |
| `RoundTrip` | `round_trip.dfy` | Decompression reverses compression. |
| `FileNames` | `file_names.dfy` | The output file names. |

`HuffmanNode` becomes the datatype `Tree`:

- `Leaf(sym, count)` is a node with two null children.
- `Internal(count, zero, one)` is a node whose character is NOT_A_CHAR.

PSEUDO_EOF is taken as 256 and NOT_A_CHAR as 257: two distinct values outside
the byte range. The header that defines them is not part of this model.

The loops of `buildFrequencyMap`, `buildEncodingTree`, `encode` and `decode`
are methods with loop invariants. Each is proved equal to a function of its
inputs: `Tally`, `HuffmanTree`, `EncodedString` and `Decoded`. The lemmas are
about those functions. `_buildEncodingMap` only recurses and inserts, so it is
modelled as the function `CodeTable.Walk`.

## Modelling choices

**Priority queue.** The queue is a sequence of trees. `std::priority_queue`
with the `compare` functor (util.h:38-45) leaves the order of equal counts
open, so the model fixes one order:

- The leaves are pushed in ascending symbol order.
- Merged nodes are appended at the back.
- `top()` is the leftmost node of least count, so equal counts leave in
  arrival order.

With this order the tree is a function of the frequency map, `HuffmanTree`.
`compress` and `decompress` build it from the same map, so both sides use the
same tree. The header carries the map from one to the other. The code-table
and decoder lemmas hold for any tree, so they do not depend on this choice.
Only the exact tree of `HuffmanTree` does.

**Empty map.** `TreeBuilder.BuildEncodingTree` requires a non-empty map. On
an empty map util.h:136 calls `top()` on an empty queue, which is undefined
behaviour. Two paths can hand it an empty map:

- In `compress`, a file that cannot be opened leaves the map empty
  (util.h:268-270). The model shows this in `Frequency.BuildFrequencyMap`,
  which returns the incoming map unchanged for such a file.
- In `decompress`, the map is whatever `input >> frequencyMap` reads from
  the header (util.h:307), and `buildEncodingTree` is called on it
  (util.h:310). A `.huf` file that cannot be opened (util.h:297), or an empty
  header, can leave that map empty. `hashmap.h` and `bitstream.h` are not
  part of this model, so nothing here says what they read then. The round
  trip below takes the map read back to be the one `compress` wrote, which
  always holds PSEUDO_EOF.

**What util.h does at the edges.** Three behaviours of util.h are worth
stating plainly, because a reader might expect otherwise:

- **Decompressed name.** The decompressed name is the part before the first
  '.' followed by "_unc.txt", whatever the original extension was
  (util.h:301-302). For example, "pic.png.huf" becomes "pic_unc.txt".
  `FileNames.StemKeepsNoExtension` states this for every extension.
- **Single-leaf tree.** A tree that is one leaf gets no code at all
  (util.h:150, 165: `prev` is the leaf itself). The only input whose tree is
  one leaf is the empty input. Its tree is the lone PSEUDO_EOF leaf, its code
  table is empty, and it encodes to no bits
  (`RoundTrip.FrequencyTreeOfEmpty`). Decoding no bits gives the empty input
  back, and `RoundTrip.DecompressReversesCompress` states the round trip for
  every input, the empty one included.
- **Missing child.** The decoder stops without an error at a missing child
  (util.h:238-239). After the PSEUDO_EOF leaf the decoder does not go back
  to the root, so the next bit, if any, reaches a missing child and stops
  the loop.

## Model

| member | source | states |
|---|---|---|
| `Frequency.Counted` | util.h:89-99 | Definition, no contract of its own: the incoming map with every character of the input counted once per occurrence, the closed form of the counting loop. `CountInto` is proved equal to it, and `CountedSnoc` states its containsKey/get/put step. |
| `Frequency.Tally` | util.h:89-101 | Definition, no contract of its own: `Counted` followed by putting PSEUDO_EOF with count 1. `BuildFrequencyMap` is proved to return it, and `TallyFromEmpty`, `SumOfTally` and `TallyTotal` state what it holds. |
| `Frequency.CountedSnoc` | util.h:92-98 | One more character counted is exactly the containsKey/get/put step: an existing key goes up by one and a new key gets 1. |
| `Frequency.CountStep` | util.h:92-98 | The containsKey/get/put step for the character at index i turns the counts of the first i characters into the counts of the first i + 1, key by key. |
| `Frequency.CountInto` | util.h:90-99 | The counting loop leaves every key of the incoming map plus every character of the input. Each gets its old count plus its number of occurrences. |
| `Frequency.BuildFrequencyMap` | util.h:68-102 | From a file that cannot be opened the map comes back unchanged, with no PSEUDO_EOF. From an opened file or from the string, every character is counted into the incoming map and PSEUDO_EOF is then set to 1. |
| `Frequency.TallyFromEmpty` | util.h:89-101 | Counting into an empty map: the keys are exactly the input's characters and PSEUDO_EOF, PSEUDO_EOF has count 1, and every other key's count is its number of occurrences (at least 1). |
| `Frequency.TallyTotal` | util.h:89-101 | Summed over the keys of the frequency map of an input, each listed once, the counts add up to the input length plus one. |
| `TreeBuilder.LeafQueue` | util.h:111-119 | Definition, no contract of its own: the queue after the push loop, one leaf per key in push order carrying the key's count. `LeafQueueFacts` states what it holds, and `BuildEncodingTree`'s push loop is proved to build it. |
| `TreeBuilder.LeafQueueSnoc` | util.h:112-118 | Pushing the leaf of one more key appends exactly that key's leaf, with its count from the map, at the back of the queue. |
| `TreeBuilder.LeafQueueFacts` | util.h:111-119 | The pushed leaves carry exactly the pushed keys, their counts add up to the keys' counts in the map, and each leaf is well weighted with its count taken from the map. |
| `TreeBuilder.SortedKeys` | util.h:111 | The push order of the leaves lists each key of the map, and only those, with no repeats. |
| `TreeBuilder.SortedKeysAscending` | util.h:111 | The push order is strictly ascending (the fixed tie-break). |
| `TreeBuilder.SortedKeysOnce` | util.h:111-119 | Each key is pushed exactly once. |
| `TreeBuilder.MinIndexIsLeast` | util.h:38-45 | `top()` is a node of least count, and every node queued before it has a strictly larger count. |
| `TreeBuilder.MinIndex` | util.h:122-124 | `top()`: the position of the node popped, always inside the queue. `MinIndexIsLeast` states which node it is. |
| `TreeBuilder.RemoveAt` | util.h:123-125 | `pop()`: the queue without the popped node, one node shorter. `RemoveAtFacts` states what is left. |
| `TreeBuilder.RemoveAtFacts` | util.h:123-125 | The popped node together with the nodes left is exactly the old queue, and no node is added. |
| `TreeBuilder.Merge` | util.h:127-131 | Definition, no contract of its own: a new internal node over `first` (zero) and `second` (one) with the sum of their counts. `StepIsGreedy` and `CombinePreserves` state what the merge keeps. |
| `TreeBuilder.Step` | util.h:121-134 | One iteration of the merge loop shrinks the queue by exactly one node. |
| `TreeBuilder.StepIsGreedy` | util.h:121-133 | The pushed node is internal, and its count is the sum of its children's. Its `zero` child is no larger than its `one` child, and the `one` child is no larger than any node still queued. The two children together with the remaining nodes are exactly the old queue. |
| `TreeBuilder.Combine` | util.h:121-136 | Definition, no contract of its own: the root left by the `while (pqueue.size() > 1)` loop, one `Step` per iteration. `CombinePreserves` and `MergeLoopLength` state what it keeps and when the loop stops. |
| `TreeBuilder.HuffmanTree` | util.h:107-137 | Definition, no contract of its own: `Combine` of the leaf queue in push order. `BuildEncodingTree` is proved to return it, and `HuffmanTreeShape`, `HuffmanTreeKeys` and `HuffmanTreeLeafIffOneKey` state its shape. |
| `TreeBuilder.MergeLoopLength` | util.h:121-136 | After n iterations the queue holds n fewer nodes. After one iteration fewer than the number of leaves, it holds only the root that is returned. |
| `TreeBuilder.BuildEncodingTree` | util.h:107-137 | The push loop and the merge loop return exactly `HuffmanTree(m)`, the same tree for the same map. |
| `TreeBuilder.CombinePreserves` | util.h:121-136 | The root's leaf symbols are those of all queued trees and its count is their total. Sound, sum-weighted trees stay so. |
| `TreeBuilder.HuffmanTreeShape` | util.h:111-136 | The tree has exactly one leaf per key of the map, each carrying that key's count. Every internal node's count is the sum of its children's, and the root's count is the sum of all counts. |
| `TreeBuilder.HuffmanTreeLeafIffOneKey` | util.h:111-136 | The root is a lone leaf exactly when the map has one key, and then it is that key's leaf. |
| `TreeBuilder.HuffmanTreeKeys` | util.h:111-119 | A symbol is a leaf of the tree if and only if it is a key of the map. |
| `CodeTable.Walk` | util.h:142-155 | Definition, no contract of its own: the in-order walk that emplaces a symbol's path when the node's character is real and its parent's is NOT_A_CHAR. `WalkKeeps`, `WalkKeys` and `WalkPaths` state what it builds. |
| `CodeTable.WalkKeeps` | util.h:151 | `emplace` never overwrites, so an entry already in the map keeps its code. |
| `CodeTable.WalkKeys` | util.h:142-155 | Below a node whose parent is internal, every leaf symbol other than NOT_A_CHAR gets an entry, and nothing else does. |
| `CodeTable.WalkPaths` | util.h:142-155 | Every entry the walk adds is the accumulated prefix followed by a path from the node to a leaf with that symbol. |
| `CodeTable.BuildEncodingMap` | util.h:160-168 | A lone root leaf gives an empty map. Otherwise the keys are exactly the leaf symbols. Every code is non-empty and is the root-to-leaf path of its symbol ('0' = zero, '1' = one). |
| `CodeTable.EncodingMapPrefixFree` | util.h:142-168 | No symbol's code is a prefix of (or equal to) another symbol's code. |
| `Codec.CodeFor` | util.h:187-188 | Definition, no contract of its own: the code of a character, or nothing when `count` finds no entry. `ConcatSnoc` and `Encode` use it. |
| `Codec.Concat` | util.h:185-190 | Definition, no contract of its own: the codes of the input characters in order, those without a code skipped. `ConcatSnoc` states its loop step and `DecodeEncodedString` what decoding it gives. |
| `Codec.EncodedString` | util.h:185-194 | Definition, no contract of its own: `Concat` followed by the PSEUDO_EOF code when there is one. `Encode` is proved to return it, and `DecodeEncodedString` and `DecompressReversesCompress` show that decoding it gives the input back. |
| `Codec.BitOf` | util.h:197-203 | Definition, no contract of its own: 0 for the character '0' (value 48) and 1 for anything else. `Encode` states that the bits written are exactly these. |
| `Codec.Bits` | util.h:196-205 | Definition, no contract of its own: one `BitOf` per character of the bit string. `Encode` is proved to write it, and `RunAlongCode` reads it back along the tree. |
| `Codec.ConcatSnoc` | util.h:185-190 | Reading one more character appends its code, or nothing when it has none. |
| `Codec.Encode` | util.h:177-208 | With `makeFile` set, the bit string is the codes of the input characters in order, absent ones skipped, followed by the PSEUDO_EOF code when it has one. One bit is written per character, 0 exactly for '0', and `size` grows by the bit string's length. Without `makeFile` the result is "" and nothing is written. |
| `Codec.DecodeFrom` | util.h:221-241 | Definition, no contract of its own: the decoder's state machine from node `curr`, one bit per step, stopping at a null child and going back to the root after a real character. `DecodeFromEmitsLeaves` and `RunAlongCode` state what it puts out. |
| `Codec.Decoded` | util.h:216-244 | Definition: `decode`'s output is the state machine started at the root. `DecodedEmitsLeaves` and `DecodeEncodedString` state what it puts out. |
| `Codec.Decode` | util.h:216-244 | The loop with the `curr` pointer returns exactly `Decoded(root, bits)`: it steps to a child per bit, puts out an ordinary leaf's character and resets to the root, and stops at the first null child. |
| `Codec.DecodeFromEmitsLeaves` | util.h:221-241 | From any node of the tree, the decoder puts out only leaf symbols of the tree, never NOT_A_CHAR or PSEUDO_EOF, and at most one symbol per bit. |
| `Codec.DecodedEmitsLeaves` | util.h:216-244 | The same for a decode started at the root. |
| `Codec.RunAlongCode` | util.h:224-236 | Reading the bits of a root-to-leaf path passes only internal nodes and ends on that leaf's character, or on the PSEUDO_EOF leaf, which puts nothing out. |
| `Codec.DecodeEncodedString` | util.h:177-244 | For any code table whose codes are non-empty paths to their symbols, decoding the encoding of an input, with any padding after it, gives the input back. |
| `RoundTrip.FrequencyTree` | util.h:268-270 | Definition, no contract of its own: the tree `buildEncodingTree` builds from the frequency map of the input, the same steps at util.h:307-310 in `decompress`. `FrequencyTreeLeaves`, `FrequencyTreeOfEmpty`, `RootCountIsLength` and `DecompressReversesCompress` state what it is. |
| `RoundTrip.DecodeEncode` | util.h:216-244 | For a tree with at least two leaves that holds PSEUDO_EOF and every input symbol, decoding with the tree what was encoded with its code table, plus any padding, gives the input back. |
| `RoundTrip.FrequencyTreeLeaves` | util.h:89-136 | For a non-empty input, the tree built from its frequency map is internal, and it holds PSEUDO_EOF and every input character. |
| `RoundTrip.FrequencyTreeOfEmpty` | util.h:100 | For the empty input the tree is the lone PSEUDO_EOF leaf of count 1, its code table is empty, and the input encodes to no bits. |
| `RoundTrip.DecompressReversesCompress` | util.h:293 | `decompress` reverses `compress`: decoding, with the frequency map's tree, the bits encoded with that tree's code table gives back the input, whatever padding bits follow. |
| `Frequency.OccurrencesSnoc` | util.h:89-99 | One more character adds its number of listings to the occurrence total. |
| `Frequency.OccurrencesAll` | util.h:89-99 | When every character is listed once, the occurrences add up to the input length. |
| `Frequency.SumOfTally` | util.h:89-101 | Summed over keys of the frequency map, the counts are the characters' occurrences plus one for each PSEUDO_EOF listed. |
| `RoundTrip.RootCountIsLength` | util.h:100-136 | The root's count is the number of input characters plus one, for PSEUDO_EOF. |
| `FileNames.CompressedName` | util.h:263 | The compressed name is the input name followed by ".huf", four characters longer. |
| `FileNames.DecompressedName` | util.h:301-302 | The decompressed name ends in "_unc.txt". What comes before it is a prefix of the input name with no '.', ending at the input's first '.' when there is one. |
| `FileNames.BaseName` | util.h:301 | The base name is a prefix of the name with no '.'. It ends where the first '.' is, or at the end of the name when there is none. |
| `FileNames.DecompressedNameOfCompressed` | util.h:263-302 | Decompressing the file that `compress` wrote ("name.huf") writes to the name derived from the original name. |
| `FileNames.StemKeepsNoExtension` | util.h:290-302 | "stem.ext" compresses to "stem.ext.huf", which decompresses to "stem_unc.txt" for every extension. |

## Left out

- TreeBuilder.BuildEncodingTree: requires a non-empty map, because on an empty map util.h:136 calls `top()` on an empty queue, which is undefined behaviour. "Empty map" under "## Modelling choices" says how each of `compress` and `decompress` can reach it.

- **File and bit-stream I/O.** This covers opening, `get`, `put`,
  `writeBit`, `readBit` and `eof`. The input file is its byte sequence, or
  None when it cannot be opened. The bits written are a sequence. The bits
  decoded are the sequence `readBit` returns before `eof()`. Any bit other
  than 0 selects the `one` child, as util.h:224-229 does. The exact moment
  at which `eof()` turns true is not modelled.
- **Header serialisation.** The frequency map is written with
  `output << frequencyMap` and read with `input >> frequencyMap`. These
  belong to `hashmap.h` and `bitstream.h`, which are not part of this model.
  The round-trip lemmas take the map as read back to be the one written.
- **Orchestration.** The sequencing in `compress`/`decompress` around file
  I/O is left out, apart from the file names. The round trip is stated over
  the functions the steps are proved equal to.
- **`freeTree`** (util.h:50-61). Trees are values here, so there is no
  memory to release.
- **Container internals.** `std::priority_queue` is a sequence with a fixed
  tie-break (see above). The `hashmap` and `unordered_map` classes are Dafny
  maps.
- **Signed `char` conversion.** `static_cast<int>` of a `char` gives a
  negative value for bytes above 127 on signed-char platforms (util.h:76,
  91, 186). The model takes every byte as 0..255.
- **Narrowing on output.** The decoder puts out `curr->character` as a
  `char` (util.h:233-234). Decoded symbols are kept as integers, and for the
  symbols a frequency map holds they are bytes.
- **Integer width.** Counts and `size` are modelled as unbounded integers.
  The 32-bit `int` overflow of the source is not modelled.
- **Null trees.** A null tree passed to `buildEncodingMap` or `decode` is not
  modelled, because `Tree` has no null value. `buildEncodingTree` never
  returns one for a non-empty map.
- **Uncovered claims.** Optimality of the code (Kraft equality, minimal
  weighted length) is not stated. Determinism is stated only for the fixed
  tie-break.

# FPATree in Dafny

A model of FPATree, a Java library that answers longest-prefix-match
queries for IPv4 routing tables, together with proofs about it.

The library works as a pipeline:

1. Prefixes go into a binary trie, `BitTrie`. The library has two
   generations of it, the `fpa.impl` one and the root one.
2. `compress` merges sibling leaves that carry the same value.
3. A converter turns the trie into a `ForwardingPortArray` (FPA): a
   multi-level array with a 16-bit root level and 8-bit levels below. Each
   slot holds the value of the longest prefix covering it and, where longer
   prefixes exist, a nested array.
4. The FPA is packed into one of four FPATree layouts:
   - the `fpa.impl` tree: dense chunks with change-point code words, and
     sparse chunks of (prefix, mask) entries;
   - the root `FPATree`: compressed groups with per-group defaults, and
     sparse entry lists ending in a default entry;
   - `FPATreeV2`: dense chunks only;
   - `FPATreeV3`: flat `int` arrays, a pre-scan that counts the chunks, and
     sparse chunks of (length, code word, entry) triples.

What is proved:

- The trie search is the longest prefix match.
- `put` reports its errors exactly and writes its value, unless an ancestor
  on the path is a leaf that already holds that value (Tries.PutStopsEarly).
- `compress` keeps every search result under a stated condition, and loses
  results without it.
- Converting and then searching the FPA gives the trie's longest match.
- Each tree's builder produces lookup entries that stand for the FPA slot
  they came from. Each tree's search follows those entries to the FPA's
  answer. End to end, for the `fpa.impl` tree and V3, a 4-byte key gives
  the trie's longest match, as long as every chunk and value index fits
  the 30-bit index field of a lookup entry.
- The integer encodings Java relies on:
  - 2-bit type plus 30-bit index lookup entries;
  - code words holding a cluster bitset and a "before" count;
  - sparse masks and triples;
  - big-endian `int` packing.

Each mutable Java object is a Dafny `class` with `modifies` clauses. Each
builder loop is a `method` with loop invariants. Every method is proved
equal to a ghost specification function, and the properties are lemmas
about those functions. FPAs and lookup results are datatypes.

Java `int` is modelled where it matters:

- `Int32` wraps to 32 bits.
- `Field` is a shifted and masked bit field.
- Entries and code words are naturals with the source's own widths.

Source paths below are relative to the repository root.

## Model

| member | source | states |
|---|---|---|
| Tries.LpmIsLongestMatch | src/main/java/com/github/abjfh/fpa/impl/BitTrie.java:103-137 | The trie search yields None exactly when no prefix of the key carries a value. Otherwise it yields the value of the longest valued prefix. |
| Tries.LpmAtValued | src/main/java/com/github/abjfh/fpa/impl/BitTrie.java:121-124 | A key whose own node carries a value gets that value. |
| Tries.LpmSplit | src/main/java/com/github/abjfh/fpa/impl/BitTrie.java:115-133 | Searching `p + r` is searching `r` in the subtree at `p`, falling back to the match found along `p`. |
| Tries.LpmPastEnd | src/main/java/com/github/abjfh/fpa/impl/BitTrie.java:126-130 | Once the walk reaches a node without children, further key bits do not change the answer. |
| Tries.LpmPrefix | src/main/java/com/github/abjfh/BitTrie.java:99-134 | In a trie no deeper than `n`, only the first `n` key bits matter. This is why the root `get`'s cap at 32 bits is harmless for IPv4 tables. |
| Tries.PutErrors | src/main/java/com/github/abjfh/fpa/impl/BitTrie.java:45-55 | `put` fails exactly when the key is null, the length is negative or longer than the key's bits, or the value is null. Each case gives its own error, in the source's order. |
| Tries.PutStopsEarly | src/main/java/com/github/abjfh/fpa/impl/BitTrie.java:60-66 | When the walk meets a leaf with the same value before the end of the prefix, `put` leaves the trie unchanged. |
| Tries.PutWrites | src/main/java/com/github/abjfh/fpa/impl/BitTrie.java:57-93 | Otherwise `put` stores the value at the prefix and changes no other prefix's value. The nodes are the old ones plus those along the prefix. |
| Tries.PutLastWriteWins | src/main/java/com/github/abjfh/fpa/impl/BitTrie.java:86-93 | After a completed `put`, searching the prefix itself answers the value just written. |
| Tries.PutBounded | src/main/java/com/github/abjfh/fpa/impl/BitTrie.java:57-93 | `put` of a prefix no longer than `n` keeps the trie within depth `n`. |
| Tries.CompressShrinks | src/main/java/com/github/abjfh/fpa/impl/BitTrie.java:149-185 | Compression never adds nodes, and keeps the root present or absent. |
| Tries.CompressBounded | src/main/java/com/github/abjfh/fpa/impl/BitTrie.java:149-185 | Compression keeps a depth bound. |
| Tries.CompressPreservesLpm | src/main/java/com/github/abjfh/fpa/impl/BitTrie.java:149-185 | For keys at least as long as the trie is deep (`Bounded(t, \|q\|)`), compression keeps every search result. This holds in a mode that merges only childless siblings, or when no merged sibling hides a longer prefix. A shorter key can end at a merged node and gain its value. |
| Tries.CompressDropsLongerPrefix | src/main/java/com/github/abjfh/fpa/impl/BitTrie.java:159-170 | Counterexample: the trie 0/1→v, 1/1→v, 00/2→w. Both generations' `compress` make the key 00 answer v instead of w. |
| Tries.CompressCheckedKeepsLongerPrefix | src/main/java/com/github/abjfh/fpa/impl/BitTrie.java:159-170 | The same trie, compressed with the childless check, still answers w for 00. |
| Tries.LeavesExact | src/main/java/com/github/abjfh/fpa/impl/BitTrie.java:188-215 | The traversal lists exactly the (prefix, value) pairs stored in the trie. |
| Tries.LeavesFromSound | src/main/java/com/github/abjfh/fpa/impl/BitTrie.java:188-215 | Every listed pair is a stored value under the given prefix. |
| Tries.LeavesFromComplete | src/main/java/com/github/abjfh/fpa/impl/BitTrie.java:188-215 | Every stored value is listed. |
| BitTries.BitTrie.constructor | src/main/java/com/github/abjfh/fpa/impl/BitTrie.java:34-36 | A new trie holds only an empty root. |
| BitTries.BitTrie.LongestMatch | src/main/java/com/github/abjfh/fpa/impl/BitTrie.java:110-136 | The pointer walk over the node arena returns the longest match of the first `limit` key bits. |
| BitTries.BitTrie.Search | src/main/java/com/github/abjfh/fpa/impl/BitTrie.java:103-137 | A null or empty key gives null. Otherwise the result is the longest match of all the key's bits. |
| BitTries.BitTrie.Get | src/main/java/com/github/abjfh/BitTrie.java:99-134 | The root `get` is the same search, but looks at no more than 32 bits. |
| BitTries.BitTrie.Put | src/main/java/com/github/abjfh/fpa/impl/BitTrie.java:45-94 | On error the nodes are unchanged. Otherwise the new trie is the functional `Put` of the old one. The root `put` (BitTrie.java:42-91) is the same code. |
| BitTries.BitTrie.CompressNode | src/main/java/com/github/abjfh/fpa/impl/BitTrie.java:149-185 | The in-place, bottom-up pass makes the subtree at a node the functional `Compress` of the old subtree. Nodes outside that subtree are unchanged. |
| BitTries.BitTrie.Compress | src/main/java/com/github/abjfh/fpa/impl/BitTrie.java:140-142 | The whole trie becomes `Compress(old, ImplCompress)`: the both-children merge plus the single-leaf-child lift. |
| BitTries.BitTrie.CompressMergeOnly | src/main/java/com/github/abjfh/BitTrie.java:141-173 | The root `compress` makes the trie `Compress(old, RootCompress)`: the both-children merge only. |
| BitTries.BitTrie.PreorderTraversal | src/main/java/com/github/abjfh/fpa/impl/BitTrie.java:188-215 | The stack-driven traversal emits exactly `Leaves(Abs())`: every stored pair, in preorder. |
| Fpas.NewFpa | src/main/java/com/github/abjfh/fpa/impl/ForwardingPortArray.java:16-23 | A new array of depth `d` has `2^d` slots, all equal to the root node. |
| Fpas.ExtractBits | src/main/java/com/github/abjfh/fpa/impl/ForwardingPortArray.java:101-124 | The byte-by-byte shifting loop returns the number spelled by bits `[start, start+count)` of the key, below `2^count`. |
| Fpas.Search | src/main/java/com/github/abjfh/fpa/impl/ForwardingPortArray.java:64-90 | The search loop equals the recursive `Walk`: slot by slot, the last non-null value kept. Running out of key bytes is an error outcome, and an index outside a table never occurs. |
| Fpas.WalkNeverMissesSlot | src/main/java/com/github/abjfh/fpa/impl/ForwardingPortArray.java:70-88 | On a well-formed array, the extracted index is always inside the table. |
| Fpas.FpaEqualsIsEquality | src/main/java/com/github/abjfh/fpa/impl/ForwardingPortArray.java:127-131 | `ForwardingPortArray.equals` holds exactly for equal arrays. So does the root generation's (ForwardingPortArray.java:53-58), whose `bitSet` is always null. |
| Fpas.NodeEqualsIsEquality | src/main/java/com/github/abjfh/fpa/impl/ForwardingPortArray.java:44-49 | `FPANode.equals` holds exactly for equal nodes, in both generations (the root one at ForwardingPortArray.java:40-45). |
| Converters.IpDepths | src/main/java/com/github/abjfh/fpa/impl/TrieToFPAConverter.java:11-24 | The IP type's depths start with 16 and continue with 8s, and each fits a Java shift. |
| Converters.IpDepthsCoverAddress | src/main/java/com/github/abjfh/fpa/impl/TrieToFPAConverter.java:11-24 | IPv4 depths add up to 32 bits and IPv6 depths to 128. |
| Converters.Convert | src/main/java/com/github/abjfh/fpa/impl/TrieToFPAConverter.java:45-54 | The converted array is the specification `FillSpec` of the trie. It has `2^16` slots and is well formed. |
| Converters.ConvertWith | src/main/java/com/github/abjfh/TrieToFPAConverter.java:29-42 | The root converter fails exactly when it is given no depths. Otherwise its result is `FillSpec` of the trie, well formed. |
| Converters.ConvertedSearchIsLpm | src/main/java/com/github/abjfh/fpa/impl/TrieToFPAConverter.java:64-130 | For a trie no deeper than the depths' sum, searching the converted array gives the trie's longest match for every long enough key. |
| Converters.ConvertEmpty | src/main/java/com/github/abjfh/fpa/impl/TrieToFPAConverter.java:45-54 | Converting an empty trie gives 65536 empty slots. |
| Converters.FillLevel | src/main/java/com/github/abjfh/fpa/impl/TrieToFPAConverter.java:64-130 | The breadth-first fill of one level, with its recursive nesting, builds exactly `FillSpec`. |
| Converters.VisitLevel | src/main/java/com/github/abjfh/fpa/impl/TrieToFPAConverter.java:72-128 | One round of the queue loop keeps every slot at its stage of the specification, and queues the next depth's nodes. |
| Converters.Visit | src/main/java/com/github/abjfh/fpa/impl/TrieToFPAConverter.java:78-127 | Handling one queued node queues its children while above the target depth. It paints and nests the node's range. |
| Converters.OfferKids | src/main/java/com/github/abjfh/fpa/impl/TrieToFPAConverter.java:80-95 | The queue grows by the node's children (left half, right half) exactly while above the target depth. |
| Converters.Paint | src/main/java/com/github/abjfh/fpa/impl/TrieToFPAConverter.java:99-105 | Painting sets the slots `[lb, rb]` to the node and leaves the others. |
| Converters.PaintEntry | src/main/java/com/github/abjfh/fpa/impl/TrieToFPAConverter.java:96-106 | A valued node paints its range with its value at that stage. |
| Converters.NestLast | src/main/java/com/github/abjfh/fpa/impl/TrieToFPAConverter.java:108-126 | At the target depth, a node with children gets a nested array filled from the next depth. |
| FillSpecs.FillSpecWellFormed | src/main/java/com/github/abjfh/fpa/impl/TrieToFPAConverter.java:64-130 | Every array the converter builds is well formed: `2^depth` slots, and nested arrays well formed too. |
| FillSpecs.SlotOfBits | src/main/java/com/github/abjfh/fpa/impl/TrieToFPAConverter.java:99-126 | The slot a bit path addresses holds the longest match along the path, or the inherited value. It is nested exactly when the path's subtree has children and depths remain. |
| FillSpecs.WalkFillSpec | src/main/java/com/github/abjfh/fpa/impl/ForwardingPortArray.java:64-90 | Walking a filled array from any position gives the trie's longest match of the remaining bits, falling back to the inherited value. |
| TreeSpecs.ResolveNeverMissing | src/main/java/com/github/abjfh/fpa/impl/FPATree.java:52-72 | Reading an array of 256-slot levels byte by byte never indexes outside a table. |
| TreeSpecs.ResolveWithin | src/main/java/com/github/abjfh/fpa/impl/FPATree.java:52-72 | A slot nested at most `k` times needs no more than `k` further bytes. |
| TreeSpecs.ResolveFillSpec | src/main/java/com/github/abjfh/fpa/impl/TrieToFPAConverter.java:99-126 | Reading a filled slot byte by byte gives the trie's longest match for that path. |
| TreeSpecs.FillSpecShape | src/main/java/com/github/abjfh/fpa/impl/TrieToFPAConverter.java:108-126 | Below a 16-bit root, every level of a converted array has 256 slots, and a slot is nested at most once per remaining depth. |
| TreeSpecs.ConvertedShape | src/main/java/com/github/abjfh/fpa/impl/TrieToFPAConverter.java:11-54 | The IPv4 conversion has the shape every FPATree builder expects: 65536 root slots over 8-bit levels. |
| TreeSpecs.ConvertedResolve | src/main/java/com/github/abjfh/fpa/impl/TrieToFPAConverter.java:45-54 | Resolving a 4-byte key in the converted array gives the trie's longest match. |
| TreeSpecs.ConvertedNesting | src/main/java/com/github/abjfh/fpa/impl/TrieToFPAConverter.java:11-24 | An IPv4 root slot is nested at most twice. |
| LookupEntries.JavaBitOps | src/main/java/com/github/abjfh/fpa/impl/FPATree.java:353-355 | `(type << 30) \| (index & 0x3FFFFFFF)`, `e >>> 30` and `e & 0x3FFFFFFF` equal the arithmetic encoding and its two fields. |
| LookupEntries.DecodeEncode | src/main/java/com/github/abjfh/fpa/impl/FPATree.java:58-61 | Decoding an encoded entry gives back the type and the index modulo `2^30`. |
| LookupEntries.UnmaskedIsJava | src/main/java/com/github/abjfh/FPATree.java:95-97 | The root tree's encoding, with no mask, is `type * 2^30 + index`. |
| LookupEntries.UnmaskedAgrees | src/main/java/com/github/abjfh/FPATree.java:95-97 | Below `2^30` the root tree's encoding agrees with the masked one. |
| LookupEntries.EncodeZero | src/main/java/com/github/abjfh/fpa/impl/FPATree.java:57-59 | An entry is 0, the "no route" entry, exactly when it is a LEAF with index 0 modulo `2^30`. |
| ValueTables.StoredIndexed | src/main/java/com/github/abjfh/fpa/impl/FPATree.java:357-371 | `getValueIndex` keeps the value table consistent: null stays at 0, and the returned index holds the value. |
| ValueTables.LeafIsUnique | src/main/java/com/github/abjfh/fpa/impl/FPATree.java:357-371 | With null at index 0, each value has exactly one index. |
| ValueTables.ValueTable.Seeded | src/main/java/com/github/abjfh/fpa/impl/FPATree.java:205-210 | The `fpa.impl`, root and V3 builders start the result list with null. |
| ValueTables.ValueTable.Unseeded | src/main/java/com/github/abjfh/FPATreeV2.java:28 | V2 starts its result list empty. |
| ValueTables.ValueTable.GetValueIndex | src/main/java/com/github/abjfh/fpa/impl/FPATree.java:357-371 | Null gets 0 and changes nothing. A known value gets its index. A new value is appended and gets the old length. |
| ValueTables.UnseededCollision | src/main/java/com/github/abjfh/FPATreeV2.java:63-77 | In V2, null and the first stored value both get index 0. |
| ValueTables.SeededSeparates | src/main/java/com/github/abjfh/fpa/impl/FPATree.java:205-210 | With null stored first, the first value gets index 1. |
| JavaInts.PackedSign | src/main/java/com/github/abjfh/FPATree.java:537-540 | The big-endian packing loop gives the key's 32-bit two's-complement value. |
| JavaInts.PackedFields | src/main/java/com/github/abjfh/FPATree.java:415-418 | The shifted-and-masked fields of the packed key are bytes 0-1, byte 2 and byte 3. |
| Sorting.SortByKeyFacts | src/main/java/com/github/abjfh/fpa/impl/FPATree.java:328 | The stable sort of sparse entries is a permutation, sorted by the key. |
| ChangeCodes.CloseCluster | src/main/java/com/github/abjfh/fpa/impl/FPATree.java:276-278 | `(bitset << 8) \| before` is the code word: the cluster's change bits and the count of changes before it. |
| ChangeCodes.DecodeRank | src/main/java/com/github/abjfh/fpa/impl/FPATree.java:173-179 | `before + INDEX_TABLE[bitset >>> (7-j)]` counts the change points up to and including slot `j` of the cluster. |
| ChangeCodes.ClusterRank | src/main/java/com/github/abjfh/fpa/impl/FPATree.java:177 | The popcount of the shifted bitset counts the cluster's changes up to slot `j`. |
| ChangeCodes.HeadsAt | src/main/java/com/github/abjfh/fpa/impl/FPATree.java:269-274 | The entry list holds slot `s`'s node at position "changes before `s`", for each change point `s`. |
| ChangeCodes.HeadsCount | src/main/java/com/github/abjfh/fpa/impl/FPATree.java:264-281 | The entry list has one entry per change point. |
| ChangeCodes.HeadsIndex | src/main/java/com/github/abjfh/fpa/impl/FPATree.java:264-281 | Every entry comes from some change point. |
| ChangeCodes.OwnedStep | src/main/java/com/github/abjfh/fpa/impl/FPATree.java:268-275 | Each step of the change-point loop keeps every slot owned by the last listed run head. |
| SparseCodes.FilledFacts | src/main/java/com/github/abjfh/fpa/impl/FPATree.java:299-304 | Putting all 256 one-byte keys into a trie stores each entry at its byte, and nothing shorter. |
| SparseCodes.SparseTrie | src/main/java/com/github/abjfh/fpa/impl/FPATree.java:299-305 | After compression, the 256-key trie still answers each byte with its own entry. |
| SparseCodes.CleanCompress | src/main/java/com/github/abjfh/fpa/impl/BitTrie.java:149-185 | On a trie whose values sit only at leaves, compression is safe in both modes, and the result is of the same kind. |
| SparseCodes.CleanLeavesOnPath | src/main/java/com/github/abjfh/fpa/impl/FPATree.java:191-198 | In such a trie, each leaf on a key's path answers the key, and each answer comes from a leaf on the path. |
| SparseCodes.MaskMatch | src/main/java/com/github/abjfh/fpa/impl/FPATree.java:193 | `prefix == (b & mask)` holds exactly when the entry's prefix is a prefix of byte `b`. |
| SparseCodes.ShiftMatch | src/main/java/com/github/abjfh/FPATreeV3.java:494-496 | Comparing the top `len` bits by shifting holds exactly when the prefix is a prefix of the byte. |
| ImplTrees.SparseSearch | src/main/java/com/github/abjfh/fpa/impl/FPATree.java:191-198 | The scan returns the first entry whose masked prefix matches, or 0. |
| ImplTrees.Search | src/main/java/com/github/abjfh/fpa/impl/FPATree.java:52-72 | The `do … while` loop equals `TreeSearch`: root slot, then DENSE or SPARSE chunks, byte by byte. |
| ImplTrees.MakeEntry | src/main/java/com/github/abjfh/fpa/impl/FPATree.java:313-322 | A (prefix, mask) entry built from a trie path matches byte `b` exactly when the path is a prefix of `b`. |
| ImplTrees.SelectSound | src/main/java/com/github/abjfh/fpa/impl/FPATree.java:308-323 | Every collected sparse entry is non-zero and comes from a traversed leaf. |
| ImplTrees.SelectComplete | src/main/java/com/github/abjfh/fpa/impl/FPATree.java:308-323 | Every traversed leaf with a non-zero entry is collected. |
| ImplTrees.SparseChunkScan | src/main/java/com/github/abjfh/fpa/impl/FPATree.java:296-334 | The sorted sparse chunk answers every byte with that byte's dense entry. |
| ImplTrees.RootMeans | src/main/java/com/github/abjfh/fpa/impl/FPATree.java:52-72 | When every root entry stands for its slot and the rest are 0, the tree search resolves every key as the FPA does. |
| ImplTrees.Builder.constructor | src/main/java/com/github/abjfh/fpa/impl/FPATree.java:204-219 | A new builder has a result list holding only null, no chunks, and K = 3 (`DEFAULT_K`). |
| ImplTrees.Builder.SetK | src/main/java/com/github/abjfh/fpa/impl/FPATree.java:221-224 | `K(k)` sets the threshold and touches nothing else. |
| ImplTrees.Builder.ProcessLookupEntry | src/main/java/com/github/abjfh/fpa/impl/FPATree.java:336-344 | The returned entry stands for the node: a LEAF for its value, or the chunk built for its nested array. Existing chunks are kept. |
| ImplTrees.Builder.ProcessLayer | src/main/java/com/github/abjfh/fpa/impl/FPATree.java:261-294 | The entry returned for a 256-slot array stands for it, whether the chunk is dense or sparse. |
| ImplTrees.Builder.VisitCluster | src/main/java/com/github/abjfh/fpa/impl/FPATree.java:267-279 | One cluster adds its run heads' entries and its finished code word. |
| ImplTrees.Builder.VisitSlot | src/main/java/com/github/abjfh/fpa/impl/FPATree.java:268-275 | One slot adds an entry and sets its bit exactly when it differs from the previous slot. |
| ImplTrees.Builder.AddRun | src/main/java/com/github/abjfh/fpa/impl/FPATree.java:271-273 | Appending a run head's entry keeps all listed entries meaningful. |
| ImplTrees.Builder.StoreChunk | src/main/java/com/github/abjfh/fpa/impl/FPATree.java:283-293 | Trying the sparse form first, else storing the dense chunk, returns an entry standing for the array. |
| ImplTrees.Builder.StoreDense | src/main/java/com/github/abjfh/fpa/impl/FPATree.java:291-293 | The DENSE entry names the appended chunk. |
| ImplTrees.Builder.ProcessSparseLayer | src/main/java/com/github/abjfh/fpa/impl/FPATree.java:296-334 | The result is -1 exactly when there are more than K non-zero sparse entries. Otherwise the sorted entry list is appended and its index returned. |
| ImplTrees.FillTrie | src/main/java/com/github/abjfh/fpa/impl/FPATree.java:299-304 | The trie holds each byte's dense entry at that byte. |
| ImplTrees.CollectEntries | src/main/java/com/github/abjfh/fpa/impl/FPATree.java:308-323 | The traversal callback collects `SelectEntries` of the leaves. |
| ImplTrees.Builder.TransformDenseChunk | src/main/java/com/github/abjfh/fpa/impl/FPATree.java:246-255 | The flat code array and the entry rows are the chunks' code words and entries, concatenated in order. |
| ImplTrees.Builder.ProcessRoot | src/main/java/com/github/abjfh/fpa/impl/FPATree.java:233-236 | Every root slot's entry stands for that slot. |
| ImplTrees.Builder.Build | src/main/java/com/github/abjfh/fpa/impl/FPATree.java:231-243 | When every index the build can hand out fits 30 bits, searching the built tree resolves every key as the FPA does. |
| ImplTrees.BuildTree | src/main/java/com/github/abjfh/fpa/impl/FPATree.java:200-243 | When the root array's weight plus one is at most `2^30`, `Builder().K(k).fpa(root).build()` searches every key like the FPA. The weight counts every slot at every level. |
| ImplTrees.BuildFromTrie | src/main/java/com/github/abjfh/fpa/impl/FPATree.java:52-72 | Trie, then converter, then tree: when the converted array's weight plus one is at most `2^30`, every 4-byte key gets the trie's longest match. |
| V2Trees.HeadsSkipFirst | src/main/java/com/github/abjfh/FPATreeV2.java:95-124 | Starting `firstNode` at the group's first slot lists the same run heads minus the first one. |
| V2Trees.V2WordCounts | src/main/java/com/github/abjfh/FPATreeV2.java:126-129 | V2's code word is the correct one plus 1 when cluster `c > 0` begins with a change point. |
| V2Trees.V2WordOffByOne | src/main/java/com/github/abjfh/FPATreeV2.java:126-129 | Counterexample: with only slot 8 changed, cluster 1's "before" field is 1 instead of 0. |
| V2Trees.GroupCount | src/main/java/com/github/abjfh/FPATreeV2.java:91-136 | A group's entry list has one entry per change point after the first slot. |
| V2Trees.ChildrenFirst | src/main/java/com/github/abjfh/FPATreeV2.java:117-141 | A DENSE entry in chunk `i` names a chunk appended before `i`. |
| V2Trees.Tree.constructor | src/main/java/com/github/abjfh/FPATreeV2.java:25-28 | A new tree has an empty chunk list, an empty result list and a zeroed 1024×64 root chunk. |
| V2Trees.Tree.NodeEntry | src/main/java/com/github/abjfh/FPATreeV2.java:110-119 | The entry for a node stands for it: a LEAF for its value, or a DENSE entry naming its chunk. |
| V2Trees.Tree.ProcessLayer | src/main/java/com/github/abjfh/FPATreeV2.java:87-142 | The group array is appended last, and its index returned. |
| V2Trees.Tree.VisitGroup | src/main/java/com/github/abjfh/FPATreeV2.java:91-136 | One group's code words and entries, as written, including the shifted "before" counts. |
| V2Trees.Tree.VisitSlot | src/main/java/com/github/abjfh/FPATreeV2.java:98-130 | One slot of the group loop keeps the loop invariant. |
| V2Trees.Build | src/main/java/com/github/abjfh/FPATreeV2.java:144-171 | Each root slot's entry stands for that FPA slot, and the unused root entries are 0. |
| V3Trees.Search | src/main/java/com/github/abjfh/FPATreeV3.java:417-428 | A null key, or one not 4 bytes long, gives null. Otherwise: root group `index16 >> 6`, place `index16 & 63`, then the resolving loop. |
| V3Trees.ResolveFast | src/main/java/com/github/abjfh/FPATreeV3.java:430-448 | The loop equals `Lookup`: LEAF answers, DENSE or SPARSE reads the next byte, and after the loop the entry is read as a result index. |
| V3Trees.SearchInDense | src/main/java/com/github/abjfh/FPATreeV3.java:450-477 | The dense read equals `DenseRead`: the packed code word, the bitset test, the popcount rank. |
| V3Trees.SearchInSparse | src/main/java/com/github/abjfh/FPATreeV3.java:479-502 | The sparse read equals `SparseRead`: the first matching triple's entry, else 0. |
| V3Trees.DenseReadBlock | src/main/java/com/github/abjfh/FPATreeV3.java:450-477 | Reading a dense block as `buildDenseChunk` lays it out gives the group's entry for the byte. |
| V3Trees.SparseReadBlock | src/main/java/com/github/abjfh/FPATreeV3.java:479-502 | Reading a sparse block gives the first matching triple's entry. |
| V3Trees.TripleMatchIff | src/main/java/com/github/abjfh/FPATreeV3.java:381-388 | A triple built from a trie path matches byte `b` exactly when the path is a prefix of `b`. |
| V3Trees.MakeTriple | src/main/java/com/github/abjfh/FPATreeV3.java:381-388 | The code word has the path bits in its high byte and the length in its low byte. It matches exactly the bytes under the path. |
| V3Trees.SparseChunkScan | src/main/java/com/github/abjfh/FPATreeV3.java:342-412 | Sorted longest-first, the triples answer every byte with that byte's entry. |
| V3Trees.RootMeans | src/main/java/com/github/abjfh/FPATreeV3.java:417-428 | When the root entries stand for their slots and the rest are 0, the search resolves every 4-byte key whose FPA walk succeeds, as the FPA does. |
| V3Builds.CalculateLookupCount | src/main/java/com/github/abjfh/FPATreeV3.java:168-183 | The count is the number of change points of the group. |
| V3Builds.SparseSizeOf | src/main/java/com/github/abjfh/FPATreeV3.java:155-162 | The size the pre-scan charges a sparse chunk is computed from a trie of 256 zero entries, as the source puts 0 for every byte. |
| V3Builds.CountOne | src/main/java/com/github/abjfh/FPATreeV3.java:128-162 | Counting one array adds it to the dense or the sparse tally by its entry count. |
| V3Builds.CountLayer | src/main/java/com/github/abjfh/FPATreeV3.java:118-165 | The visited set grows by the arrays reachable from `f`, and the tallies count the dense and sparse ones among them. |
| V3Builds.CountChildren | src/main/java/com/github/abjfh/FPATreeV3.java:142-148 | Every child array ends up visited and counted. |
| V3Builds.PreScanAndCount | src/main/java/com/github/abjfh/FPATreeV3.java:103-115 | The chunk counts are those of the dense and sparse arrays reachable from the root. |
| V3Builds.ChunkSizeInfo.constructor | src/main/java/com/github/abjfh/FPATreeV3.java:73-78 | All counts start at 0. |
| V3Layouts.EntriesCount | src/main/java/com/github/abjfh/FPATreeV3.java:253-293 | The groups' entry lists together have as many entries as the pre-scan counts. |
| V3Layouts.TallyAdd | src/main/java/com/github/abjfh/FPATreeV3.java:135-162 | The pre-scan's dense and sparse tallies each grow by one for a new array of their kind. |
| V3Layouts.ChunkMeans | src/main/java/com/github/abjfh/FPATreeV3.java:292-302 | The DENSE or SPARSE entry returned for an array stands for it in the built tree. |
| V3Layouts.DenseChunkMeans | src/main/java/com/github/abjfh/FPATreeV3.java:306-339 | A stored dense block makes its DENSE entry stand for the array. |
| V3Layouts.SparseChunkMeans | src/main/java/com/github/abjfh/FPATreeV3.java:342-412 | A stored sparse block makes its SPARSE entry stand for the array. |
| V3Layouts.BuildReady | src/main/java/com/github/abjfh/FPATreeV3.java:209-220 | Filling the root keeps the layout consistent, and every root entry stands for its slot. |
| V3Layouts.BuildCounts | src/main/java/com/github/abjfh/FPATreeV3.java:191-220 | Building uses no more dense and sparse chunks than the pre-scan allocated. |
| V3Layouts.BuildSearches | src/main/java/com/github/abjfh/FPATreeV3.java:191-236 | With at most `2^30` reachable nested arrays and fewer than `2^30` values (`Fits`), the built tree resolves every 4-byte key whose FPA walk succeeds as the FPA does. |
| V3Builders.Builder.constructor | src/main/java/com/github/abjfh/FPATreeV3.java:196-207 | The offset arrays have the pre-scanned sizes, the result list holds null, and there are no chunks. |
| V3Builders.Builder.NodeEntry | src/main/java/com/github/abjfh/FPATreeV3.java:263-275 | The entry for a node equals the specification `Entry`: a LEAF for its value, or the nested array's chunk. |
| V3Builders.Builder.ProcessLayer | src/main/java/com/github/abjfh/FPATreeV3.java:239-303 | The array's entry equals the specification `Layer`, the cache included. |
| V3Builders.Builder.VisitGroup | src/main/java/com/github/abjfh/FPATreeV3.java:253-286 | One group's code words and entries equal `Clusters`. |
| V3Builders.Builder.VisitCluster | src/main/java/com/github/abjfh/FPATreeV3.java:258-283 | One cluster's bitset and entries equal `Slots`. |
| V3Builders.Builder.BuildDenseChunk | src/main/java/com/github/abjfh/FPATreeV3.java:306-339 | Appends the dense block and records its offset. |
| V3Builders.Builder.BuildSparseChunk | src/main/java/com/github/abjfh/FPATreeV3.java:342-412 | Appends the sparse block of sorted triples, and records its offset and size. |
| V3Builders.DenseWords | src/main/java/com/github/abjfh/FPATreeV3.java:314-336 | The data written is the packed code words, the four counts, then the entries. |
| V3Builders.PackPair | src/main/java/com/github/abjfh/FPATreeV3.java:317 | `(hi & 0xFFFF) << 16 \| (lo & 0xFFFF)` is `hi * 65536 + lo`. |
| V3Builders.SparseEntries | src/main/java/com/github/abjfh/FPATreeV3.java:349-395 | The triples are those of the compressed 256-key trie, sorted longest prefix first. |
| V3Builders.DecodeIntoTrie | src/main/java/com/github/abjfh/FPATreeV3.java:350-376 | Decoding each byte's entry from the code words fills the trie with exactly the group entries. |
| V3Builders.MakeTriples | src/main/java/com/github/abjfh/FPATreeV3.java:378-389 | The traversal callback emits one triple per leaf. |
| V3Builders.SparseWords | src/main/java/com/github/abjfh/FPATreeV3.java:404-409 | The data written is the count, then each triple's three words. |
| V3Builders.FillRoot | src/main/java/com/github/abjfh/FPATreeV3.java:209-220 | The root chunk and the builder's state equal `RootFill`. |
| V3Builders.CopyList | src/main/java/com/github/abjfh/FPATreeV3.java:223-233 | The flat array holds the list's elements. |
| V3Builders.Build | src/main/java/com/github/abjfh/FPATreeV3.java:191-236 | The tree equals the specification layout, and its offset arrays have the pre-scanned sizes. Under `Fits`, every 4-byte key whose FPA walk succeeds searches as the FPA resolves it. |
| V3Builders.BuildFromTrie | src/main/java/com/github/abjfh/FPATreeV3.java:186-188 | Trie, then converter, then V3: under `Fits` for the converted array, every 4-byte key gets the trie's longest match. |
| RootBuild.DenotedEntry | src/main/java/com/github/abjfh/FPATree.java:148-178 | An entry standing for a node is 0 exactly for an empty leaf. It is a LEAF, SPARSE or COMPRESSED entry naming the node's value or chunk. |
| RootBuild.LeafEntryUnique | src/main/java/com/github/abjfh/FPATree.java:116-128 | A leaf node has only one entry standing for it. |
| RootBuild.GroupStart | src/main/java/com/github/abjfh/FPATree.java:202 | `idx == 0 \|\| (groupIdx > 0 && clusterIdx == 0 && bitIdx == 0)` holds exactly at a group's first slot. |
| RootCodes.ChunkDecode | src/main/java/com/github/abjfh/FPATree.java:465-498 | The compressed chunk built from 256 entries gives back each slot's entry. |
| RootCodes.GroupDecode | src/main/java/com/github/abjfh/FPATree.java:474-497 | In a group, a 0 bitset or a 0 bit means the default, and a set bit means `compressedFPA[before + rank]`. Either way the slot's entry comes back. |
| RootCodes.SparseLayout | src/main/java/com/github/abjfh/FPATree.java:315-351 | The sparse list holds one 8-bit entry per slot differing from slot 0, in slot order, then the default entry. |
| RootCodes.SparseListed | src/main/java/com/github/abjfh/FPATree.java:438-450 | A byte whose slot differs from slot 0 finds its own entry in the scan. |
| RootCodes.SparseOnlyMatch | src/main/java/com/github/abjfh/FPATree.java:438-450 | Any entry the scan matches is that byte's own entry. |
| RootCodes.ReadsCompressed | src/main/java/com/github/abjfh/FPATree.java:501-522 | A compressed branch reads the next byte's slot 8 bits further on. |
| RootCodes.ReadsSparse | src/main/java/com/github/abjfh/FPATree.java:434-454 | A sparse branch reads a listed byte 8 bits further on. Otherwise it re-reads slot 0's node at the same offset. |
| RootCodes.ReadsResolve | src/main/java/com/github/abjfh/FPATree.java:501-522 | Where every sparse default is a leaf, the lookup's reading agrees with resolving the FPA. |
| RootCodes.RootReadsResolve | src/main/java/com/github/abjfh/FPATree.java:415-422 | The same from the root chunk, for every 4-byte key. |
| RootCodes.SparseDefaultRereads | src/main/java/com/github/abjfh/FPATree.java:452-453 | Counterexample: a sparse default with a nested array is followed at the same bit offset. Key 0.0.0.64 reads 1 where the FPA answers 2. |
| RootCodes.AdvancingResolves | src/main/java/com/github/abjfh/FPATree.java:434-454 | With the default followed 8 bits further on, the reading agrees with the FPA for every node and key. |
| RootMeaning.EntryKept | src/main/java/com/github/abjfh/FPATree.java:148-178 | `buildLookupEntry` keeps the lists meaningful and only grows them. Its entry stands for the node. |
| RootMeaning.SparseKept | src/main/java/com/github/abjfh/FPATree.java:315-351 | `processSparseBranch` appends a sparse chunk made for the array and returns its index. |
| RootMeaning.SparseSlotsKept | src/main/java/com/github/abjfh/FPATree.java:331-346 | Every slot of the sparse loop gets an entry standing for it. |
| RootMeaning.DenseKept | src/main/java/com/github/abjfh/FPATree.java:354-374 | `processDenseBranch` allocates a chunk for the array and fills it, leaving no chunk open. |
| RootMeaning.CompressedKept | src/main/java/com/github/abjfh/FPATree.java:181-277 | `buildCompressedGroups` fills the open chunk with the compressed form of the slots' entries, and closes it. |
| RootMeaning.PassesKept | src/main/java/com/github/abjfh/FPATree.java:194-276 | The three passes give an entry standing for every slot, and groups that are the compressed chunk of those entries. |
| RootMeaning.DefaultsKept | src/main/java/com/github/abjfh/FPATree.java:194-210 | Pass 1 picks, for each group, a default standing for the group's first slot. |
| RootMeaning.SlotsKept | src/main/java/com/github/abjfh/FPATree.java:213-223 | Pass 2 gives an entry standing for each slot. |
| RootMeaning.LevelKept | src/main/java/com/github/abjfh/FPATree.java:282-312 | `processLevel` gives every root slot an entry standing for it. |
| RootTrees.IsSparse | src/main/java/com/github/abjfh/FPATree.java:100-113 | `isSparse` holds exactly when at most K slots differ from slot 0. |
| RootTrees.Tree.constructor | src/main/java/com/github/abjfh/FPATree.java:56-59 | A new tree has null at result index 0 and a zeroed 1024×64 root chunk. |
| RootTrees.Tree.AllocateCompressedChunk | src/main/java/com/github/abjfh/FPATree.java:131-135 | Appends an open chunk and returns its index. |
| RootTrees.Tree.BuildLookupEntry | src/main/java/com/github/abjfh/FPATree.java:148-178 | Equals the specification `Entry`: the cached entry if there is one, otherwise a new one, which is then cached. |
| RootTrees.Tree.BuildCompressedGroups | src/main/java/com/github/abjfh/FPATree.java:181-277 | Equals the specification `Compressed`. |
| RootTrees.Tree.PickDefaults | src/main/java/com/github/abjfh/FPATree.java:194-210 | Pass 1 equals `Defaults`. |
| RootTrees.Tree.CountNonDefaults | src/main/java/com/github/abjfh/FPATree.java:213-223 | Pass 2 equals `Slots`, caches every slot's entry, and counts each cluster's non-default slots. |
| RootTrees.Tree.FillGroups | src/main/java/com/github/abjfh/FPATree.java:226-276 | Pass 3 builds each group's code words and compressed entries. |
| RootTrees.ClusterOffset | src/main/java/com/github/abjfh/FPATree.java:259-261 | The sum of the earlier clusters' counts is the number of non-default slots before the cluster. |
| RootTrees.SetBefore | src/main/java/com/github/abjfh/FPATree.java:271-275 | Each code word gets its "before" count in the low byte. |
| RootTrees.FinishGroup | src/main/java/com/github/abjfh/FPATree.java:226-276 | The finished group is `GroupFrom(entries, default)`. |
| RootTrees.Tree.ProcessSparseBranch | src/main/java/com/github/abjfh/FPATree.java:315-351 | Equals the specification `Sparse`. |
| RootTrees.Tree.ProcessDenseBranch | src/main/java/com/github/abjfh/FPATree.java:354-374 | Equals `Dense`, and writes the COMPRESSED entry into the parent chunk only. |
| RootTrees.Tree.ProcessLevel | src/main/java/com/github/abjfh/FPATree.java:282-312 | Equals `Level`: slot `s` goes to `rootChunk[s/64][s%64]`, and the other root entries are unchanged. |
| RootTrees.Tree.FollowLookupEntry | src/main/java/com/github/abjfh/FPATree.java:501-522 | Following an entry that stands for a node gives `Reads` of that node: 0 is null, LEAF is the value, otherwise the chunk. |
| RootTrees.Tree.LookupInCompressedGroup | src/main/java/com/github/abjfh/FPATree.java:465-498 | Equals `Reads` of the compressed branch. |
| RootTrees.Tree.LookupInSparse | src/main/java/com/github/abjfh/FPATree.java:434-454 | Equals `Reads` of the sparse branch, the default re-read included. |
| RootTrees.SparseMatch | src/main/java/com/github/abjfh/FPATree.java:438-450 | Returns the first matching entry before the last one, or the last one. |
| RootTrees.Tree.LookupInChunk | src/main/java/com/github/abjfh/FPATree.java:415-422 | Equals `RootReads` of the address. |
| RootTrees.Tree.Lookup | src/main/java/com/github/abjfh/FPATree.java:530-543 | A null key, or one not 4 bytes long, gives null. Otherwise the result is `RootReads` of the packed key, which equals the FPA's answer when every sparse default is a leaf. |
| RootTrees.Tree.LookupInt | src/main/java/com/github/abjfh/FPATree.java:551-553 | Equals `RootReads` of the address. |
| RootTrees.Build | src/main/java/com/github/abjfh/FPATree.java:393-406 | The tree's lists are `Level` of the empty lists. When no root slot is nested more than twice, the tree is fully built and meaningful. |

## Left out

- I/O and printing are not modelled: `printMemoryStats`, `formatBytes`, the `main` methods, and the CSV loading and benchmarks.
- `hashCode` and `Serializable` are not modelled. `equals` is modelled as structural equality, and proved to be it.
- The root `TrieToFPAConverter.fillLevel` ends by calling `fpa.compactTable()`. The root `ForwardingPortArray` does not define it, so the model treats it as doing nothing.
- `FPATreeV3` calls `preorderTraversalIterative` on the root `BitTrie` (FPATreeV3.java:151, :379). The root `BitTrie` does not define that method. The model uses the `fpa.impl` traversal (`Tries.Leaves`), on a trie compressed the root way (`RootCompress`).
- ImplTrees.Builder.StoreChunk: compares the entry count with an unbounded `k * 4`. Java's `lookupEntries.size() <= K * 4` (fpa/impl/FPATree.java:283) is 32-bit `int` arithmetic and wraps for `K >= 2^29`. Then only the choice between a dense and a sparse chunk can differ. Every chunk the model stores stands for its array either way, so search results do not depend on it.
- FPA depths stop at 30. Java's `1 << depth` wraps from 31 on, so deeper arrays are not modelled.
- The root tree caches nodes in an `IdentityHashMap`; the model uses a map keyed by node value. Two equal nodes that are different objects get one entry in the model and two in Java. Both stand for the same slots, so lookup results agree.
- The converters build each nested array before linking it into its slot, where Java links first and fills afterwards. The finished arrays are the same.
- Java exceptions are modelled as outcomes:
  - `put`'s `IllegalArgumentException`s become `PutError` values;
  - an array index out of bounds becomes `Fault.SlotMissing`;
  - reading past the key becomes `Fault.BytesExhausted`.
- RootTrees.Tree.Lookup: requires every list to stay below `2^30` entries (`Small`). The root tree encodes entries without a mask, and the build only asserts this bound at FPATree.java:404.
- RootTrees.Build: states that the tree is fully built only when no root slot is nested more than twice. That holds for IPv4 conversions (TreeSpecs.ConvertedNesting). The reason is in `buildLookupEntry` (FPATree.java:168-171). It takes the COMPRESSED index as `compressedChunkList.size() - 1` after the recursive `buildCompressedGroups`, and the model does the same in RootBuild.Uncached. At three levels of nesting, that recursion allocates deeper chunks first, so the index names a later chunk rather than the node's own. The root lookup takes only 4-byte keys, so the defect is latent.
- ImplTrees.Builder.Build: requires the entries to fit the 30-bit index field (`Used() + TableWeight(root, …) <= 2^30`). Past that, Java's mask at FPATree.java:353-355 makes indices wrap, which is not modelled.
- ImplTrees.BuildTree: requires `1 + TableWeight(root, …) <= 2^30` for the same reason: past that bound the masked encoding wraps.
- ImplTrees.BuildFromTrie: the same 30-bit bound, on the converted array.
- V3Trees.RootMeans: states the search result only for keys whose FPA walk ends without a fault. For converted tries no walk faults (TreeSpecs.ConvertedResolve).
- V3Layouts.BuildSearches: the same restriction as V3Trees.RootMeans. It also assumes `Fits`: at most `2^30` reachable nested arrays and fewer than `2^30` values. Past that, the masked encoding at FPATreeV3.java:81-83 wraps.
- V3Builders.Build: states the search result only under `Fits` and only for keys whose FPA walk succeeds, as V3Layouts.BuildSearches does.
- V3Builders.BuildFromTrie: requires `Fits` for the converted array, for the same reason.
- V2Trees.Build: V2 has no search method. The contract states what each root entry stands for, using V2's code words as written.

## Findings

| source | as written | input that shows it | evidently intended | confidence | as-written member | corrected member |
|---|---|---|---|---|---|---|
| src/main/java/com/github/abjfh/fpa/impl/BitTrie.java:159-170 | `compressNode` merges two leaf children with equal values, even when a child has children of its own, and then drops those children | prefixes 0/1→v, 1/1→v, 00/2→w with v ≠ w: the key 00 answers v after compression | merge only childless leaves, so every search result is kept | not executed | Tries.CompressDropsLongerPrefix | Tries.CompressPreservesLpm |
| src/main/java/com/github/abjfh/FPATreeV2.java:63-77 | `resultList` starts empty, so the first stored value gets index 0, the same as null | any value x stored first: null and x both map to 0 | seed the list with null, as the other builders do, so x gets index 1 | not executed | ValueTables.UnseededCollision | ValueTables.SeededSeparates |
| src/main/java/com/github/abjfh/FPATreeV2.java:126-129 | the "before" count is written after the cluster's first slot is processed, so it includes that slot | flags with only slot 8 set: cluster 1's before field is 1, not 0 | count the change points strictly before the cluster | not executed | V2Trees.V2WordOffByOne | ChangeCodes.DecodeRank |
| src/main/java/com/github/abjfh/FPATree.java:452-453 | no sparse entry matching falls back to the default entry and follows it at the same `bitOffset` | `RereadExample`: the key 0.0.0.64 gives 1 where the FPA answers 2 | follow the default 8 bits further on, like every other entry | not executed | RootCodes.SparseDefaultRereads | RootCodes.AdvancingResolves |

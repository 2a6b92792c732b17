/** FPATreeV3's builder as the source runs it: the lists it appends to, the
    offset arrays the pre-scan sizes, the result list with its index table,
    and the cache. Every method is proved to compute the matching function
    of `V3Layouts` on the builder's state, so that what those functions are
    proved to mean (the search of the finished tree) holds of what the
    methods build. Writing a chunk's offset into its array needs a free
    place: the pre-scan's counts are proved to leave one every time. */
module V3Builders {
  import opened Wrappers
  import opened Bits
  import opened Tries
  import opened Fpas
  import opened LookupEntries
  import opened ValueTables
  import opened TreeSpecs
  import opened ChangeCodes
  import opened SparseCodes
  import opened FillSpecs
  import opened Converters
  import opened V3Trees
  import opened V3Builds
  import opened V3Layouts
  import Sorting
  import BitTries

  /** An offset array of `n` places has room for the chunks of layout `l`. */
  predicate Room<V>(l: Layout<V>, denseRoom: nat, sparseRoom: nat) {
    |l.denseOffsets| <= denseRoom && |l.sparseOffsets| <= sparseRoom
  }

  /** Room for a later layout is room for an earlier one. */
  lemma RoomBack<V>(a: Layout<V>, b: Layout<V>, denseRoom: nat, sparseRoom: nat)
    requires Grows(a, b) && Room(b, denseRoom, sparseRoom)
    ensures Room(a, denseRoom, sparseRoom)
  {
  }

  /** A chunk only adds to the lists. */
  lemma ChunkGrows<V>(l: Layout<V>, cws: seq<seq<nat>>, es: seq<seq<nat>>, k: int)
    requires Shaped(cws, es)
    ensures Grows(l, Chunk(l, cws, es, k).0) && Chunk(l, cws, es, k).0.cache == l.cache
  {
  }

  class Builder<V(==)> {
    const values: ValueTable<V>
    /** `denseChunkOffsets` and the sparse offsets and sizes, allocated
        with the pre-scan's counts. */
    const denseOffsets: array<nat>
    const sparseOffsets: array<nat>
    const sparseSizes: array<nat>
    /** `denseChunkDataList`, `denseChunkCount`, `sparseChunkDataList`,
        `sparseChunkCount`, `fpaCache` and `K`. */
    var denseData: seq<nat>
    var denseCount: nat
    var sparseData: seq<nat>
    var sparseCount: nat
    var cache: map<Fpa<V>, nat>
    var k: int

    ghost predicate Valid()
      reads this, values
    {
      values.Valid() &&
      denseCount <= denseOffsets.Length && sparseCount <= sparseOffsets.Length &&
      sparseSizes.Length == sparseOffsets.Length &&
      denseOffsets != sparseOffsets && denseOffsets != sparseSizes && sparseOffsets != sparseSizes
    }

    /** The builder's state as a layout: the offsets written so far. */
    ghost function State(): Layout<V>
      reads this, values, denseOffsets, sparseOffsets, sparseSizes
      requires Valid()
    {
      Layout(denseData, denseOffsets[..denseCount], sparseData, sparseOffsets[..sparseCount],
             sparseSizes[..sparseCount], values.list, values.index, cache)
    }

    /** The offset arrays have room for the chunks of `l`. */
    ghost predicate Fit(l: Layout<V>) {
      Room(l, denseOffsets.Length, sparseOffsets.Length)
    }

    /** Phase 2 of `build`: `K`, offset arrays of the pre-scanned sizes,
        empty lists and a result list seeded with `null`. */
    constructor (newK: int, denseChunkCount: nat, sparseChunkCount: nat)
      ensures Valid() && State() == V3Layouts.Empty() && k == newK
      ensures denseOffsets.Length == denseChunkCount && sparseOffsets.Length == sparseChunkCount
      ensures fresh(values) && fresh(denseOffsets) && fresh(sparseOffsets) && fresh(sparseSizes)
    {
      k := newK;
      denseOffsets := new nat[denseChunkCount];
      sparseOffsets := new nat[sparseChunkCount];
      sparseSizes := new nat[sparseChunkCount];
      values := new ValueTable<V>.Seeded();
      denseData := [];
      denseCount := 0;
      sparseData := [];
      sparseCount := 0;
      cache := map[];
    }

    /** A run start's entry (the same code in `processLayer` and in the
        root loop of `build`): LEAF of the value's index, or what
        `processLayer` makes of the nested array. */
    method NodeEntry(n: FNode<V>) returns (e: nat)
      requires Valid() && NodeByteLevels(n) && Fit(Entry(State(), n, k).0)
      modifies this, values, denseOffsets, sparseOffsets, sparseSizes
      ensures Valid() && k == old(k)
      ensures (State(), e) == Entry(old(State()), n, k)
      decreases n, 0, 0
    {
      if n.next.None? {
        var idx := values.GetValueIndex(n.value);
        e := Encode(TypeLeaf, idx);
      } else {
        e := ProcessLayer(n.next.value);
      }
    }

    /** `processLayer`: the cached entry of an array seen before; otherwise
        the four groups, then a dense chunk for more than `K` entries and a
        sparse one for the others, and the entry cached. */
    method ProcessLayer(f: Fpa<V>) returns (e: nat)
      requires Valid() && ByteLevel(f) && Fit(Layer(State(), f, k).0)
      modifies this, values, denseOffsets, sparseOffsets, sparseSizes
      ensures Valid() && k == old(k)
      ensures (State(), e) == Layer(old(State()), f, k)
      decreases f, 4, 0
    {
      if f in cache {
        return cache[f];
      }
      ghost var l0 := State();
      var codeWordsArray: seq<seq<nat>> := [];
      var allLookupEntries: seq<seq<nat>> := [];
      ChunkGrows(Groups(l0, f, k, 0, [], []).0, Groups(l0, f, k, 0, [], []).1, Groups(l0, f, k, 0, [], []).2, k);
      for j := 0 to 4
        invariant Valid() && k == old(k)
        invariant |codeWordsArray| == j && |allLookupEntries| == j
        invariant forall i :: 0 <= i < j ==> Words(codeWordsArray[i])
        invariant Groups(l0, f, k, 0, [], []) == Groups(State(), f, k, j, codeWordsArray, allLookupEntries)
        invariant Fit(Groups(State(), f, k, j, codeWordsArray, allLookupEntries).0)
      {
        ghost var l1 := State();
        var r := Clusters(l1, f, k, j, 0, None, 0, [], []);
        GroupsGrows(r.0, f, k, j + 1, codeWordsArray + [r.1], allLookupEntries + [r.2]);
        var codeWords, lookupEntries := VisitGroup(f, j);
        codeWordsArray := codeWordsArray + [codeWords];
        allLookupEntries := allLookupEntries + [lookupEntries];
      }
      var totalEntries := 0;
      for j := 0 to 4
        invariant totalEntries == SumSizes(allLookupEntries, j)
      {
        totalEntries := totalEntries + |allLookupEntries[j]|;
      }
      if totalEntries > k {
        e := BuildDenseChunk(codeWordsArray, allLookupEntries);
      } else {
        e := BuildSparseChunk(f, codeWordsArray, allLookupEntries);
      }
      cache := cache[f := e];
    }

    /** The body of the group loop of `processLayer` for group `j`: the
        cluster loop, each cluster's code word `(short) ((bitset << 8) |
        before)` and `before` moved on to the entries so far. */
    method VisitGroup(f: Fpa<V>, j: nat) returns (codeWords: seq<nat>, lookupEntries: seq<nat>)
      requires Valid() && ByteLevel(f) && j < 4 && Fit(Clusters(State(), f, k, j, 0, None, 0, [], []).0)
      modifies this, values, denseOffsets, sparseOffsets, sparseSizes
      ensures Valid() && k == old(k)
      ensures (State(), codeWords, lookupEntries) == Clusters(old(State()), f, k, j, 0, None, 0, [], [])
      decreases f, 3, 0
    {
      ghost var l0 := State();
      lookupEntries := [];
      codeWords := [];
      var firstNode: Option<FNode<V>> := None;
      var before: nat := 0;
      for cluster := 0 to 8
        invariant Valid() && k == old(k)
        invariant |codeWords| == cluster && forall i :: 0 <= i < cluster ==> codeWords[i] < 65536
        invariant Clusters(l0, f, k, j, 0, None, 0, [], []) ==
                  Clusters(State(), f, k, j, cluster, firstNode, before, codeWords, lookupEntries)
        invariant Fit(Clusters(State(), f, k, j, cluster, firstNode, before, codeWords, lookupEntries).0)
      {
        ghost var l1 := State();
        var r := Slots(l1, f, k, j, cluster, 0, firstNode, 0, lookupEntries);
        var word := Or(Shl(r.2, 8), before) % 65536;
        ClustersGrows(r.0, f, k, j, cluster + 1, r.1, |r.3|, codeWords + [word], r.3);
        var bitset;
        firstNode, bitset, lookupEntries := VisitCluster(f, j, cluster, firstNode, lookupEntries);
        codeWords := codeWords + [Or(Shl(bitset, 8), before) % 65536];
        before := |lookupEntries|;
      }
    }

    /** The bit loop of cluster `cluster` of group `j`: a slot unlike
        `firstNode` sets bit `7 - bit`, gets its entry and becomes
        `firstNode`. */
    method VisitCluster(f: Fpa<V>, j: nat, cluster: nat, firstNode: Option<FNode<V>>, lookupEntries: seq<nat>)
      returns (firstNode': Option<FNode<V>>, bitset: nat, lookupEntries': seq<nat>)
      requires Valid() && ByteLevel(f) && j < 4 && cluster < 8
      requires Fit(Slots(State(), f, k, j, cluster, 0, firstNode, 0, lookupEntries).0)
      modifies this, values, denseOffsets, sparseOffsets, sparseSizes
      ensures Valid() && k == old(k)
      ensures (State(), firstNode', bitset, lookupEntries') ==
              Slots(old(State()), f, k, j, cluster, 0, firstNode, 0, lookupEntries)
      decreases f, 2, 0
    {
      ghost var l0 := State();
      firstNode', bitset, lookupEntries' := firstNode, 0, lookupEntries;
      for bit := 0 to 8
        invariant Valid() && k == old(k)
        invariant Slots(l0, f, k, j, cluster, 0, firstNode, 0, lookupEntries) ==
                  Slots(State(), f, k, j, cluster, bit, firstNode', bitset, lookupEntries')
        invariant Fit(Slots(State(), f, k, j, cluster, bit, firstNode', bitset, lookupEntries').0)
      {
        var node := f.table[j * 64 + cluster * 8 + bit];
        ghost var r := Slot(State(), f, k, j, cluster, bit, firstNode', bitset, lookupEntries');
        SlotsGrows(r.0, f, k, j, cluster, bit + 1, r.1, r.2, r.3);
        if firstNode' != Some(node) {
          bitset := Or(bitset, Shl(1, 7 - bit));
          assert NodeByteLevels(node);
          var entry := NodeEntry(node);
          firstNode' := Some(node);
          lookupEntries' := lookupEntries' + [entry];
        }
      }
    }

    /** `buildDenseChunk`: the chunk's offset written at the next dense
        index, then its 16 packed code words, the 4 entry counts and the
        entries appended. */
    method BuildDenseChunk(codeWordsArray: seq<seq<nat>>, allLookupEntries: seq<seq<nat>>) returns (e: nat)
      requires Valid() && Shaped(codeWordsArray, allLookupEntries)
      requires forall j :: 0 <= j < 4 ==> Words(codeWordsArray[j])
      requires SumSizes(allLookupEntries, 4) > k
      requires Fit(Chunk(State(), codeWordsArray, allLookupEntries, k).0)
      modifies this, denseOffsets
      ensures Valid() && k == old(k)
      ensures (State(), e) == Chunk(old(State()), codeWordsArray, allLookupEntries, k)
    {
      var base := |denseData|;
      var chunkIdx := denseCount;
      var block := DenseWords(codeWordsArray, allLookupEntries);
      denseCount := denseCount + 1;
      denseOffsets[chunkIdx] := base;
      denseData := denseData + block;
      assert denseOffsets[..denseCount] == old(denseOffsets[..denseCount]) + [base];
      e := Encode(TypeDense, chunkIdx);
    }

    /** `buildSparseChunk`: the slots' entries made into sorted triples,
        the offset and size written at the next sparse index and the count
        and triples appended. */
    method BuildSparseChunk(f: Fpa<V>, codeWordsArray: seq<seq<nat>>, allLookupEntries: seq<seq<nat>>)
      returns (e: nat)
      requires Valid() && |f.table| == 256 && Shaped(codeWordsArray, allLookupEntries)
      requires SumSizes(allLookupEntries, 4) <= k
      requires Fit(Chunk(State(), codeWordsArray, allLookupEntries, k).0)
      modifies this, sparseOffsets, sparseSizes
      ensures Valid() && k == old(k)
      ensures (State(), e) == Chunk(old(State()), codeWordsArray, allLookupEntries, k)
    {
      var entries := SparseEntries(codeWordsArray, allLookupEntries);
      var words := SparseWords(entries);
      var base := |sparseData|;
      var chunkIdx := sparseCount;
      sparseCount := sparseCount + 1;
      sparseOffsets[chunkIdx] := base;
      sparseSizes[chunkIdx] := |entries|;
      sparseData := sparseData + words;
      assert sparseOffsets[..sparseCount] == old(sparseOffsets[..sparseCount]) + [base];
      assert sparseSizes[..sparseCount] == old(sparseSizes[..sparseCount]) + [|entries|];
      e := Encode(TypeSparse, chunkIdx);
    }
  }

  /** The three write loops of `buildDenseChunk`: each group's code words
      packed two to an int, `(cw[2m] & 0xFFFF) << 16 | (cw[2m + 1] &
      0xFFFF)`, then the four entry counts, then the entries. */
  method DenseWords(codeWordsArray: seq<seq<nat>>, allLookupEntries: seq<seq<nat>>) returns (data: seq<nat>)
    requires Shaped(codeWordsArray, allLookupEntries)
    requires forall j :: 0 <= j < 4 ==> Words(codeWordsArray[j])
    ensures data == DenseBlock(codeWordsArray, allLookupEntries)
  {
    data := [];
    for j := 0 to 4
      invariant data == PackedWords(codeWordsArray, j)
    {
      var packed := PackGroup(codeWordsArray[j]);
      data := data + packed;
    }
    for j := 0 to 4
      invariant data == PackedWords(codeWordsArray, 4) + Counts(allLookupEntries, j)
    {
      data := data + [|allLookupEntries[j]|];
    }
    for j := 0 to 4
      invariant data == PackedWords(codeWordsArray, 4) + Counts(allLookupEntries, 4) + Joined(allLookupEntries, j)
    {
      data := data + allLookupEntries[j];
    }
  }

  /** One group's four packed ints. */
  method PackGroup(codeWords: seq<nat>) returns (packed: seq<nat>)
    requires Words(codeWords)
    ensures packed == Packed(codeWords)
  {
    var packed0 := PackPair(codeWords[0], codeWords[1]);
    var packed1 := PackPair(codeWords[2], codeWords[3]);
    var packed2 := PackPair(codeWords[4], codeWords[5]);
    var packed3 := PackPair(codeWords[6], codeWords[7]);
    packed := [packed0, packed1, packed2, packed3];
  }

  /** `(hi & 0xFFFF) << 16 | (lo & 0xFFFF)` of two 16-bit code words. */
  method PackPair(hi: nat, lo: nat) returns (packed: nat)
    requires hi < 65536 && lo < 65536
    ensures packed == hi * 65536 + lo
  {
    Pow2Short();
    PackBits(hi, lo);
    packed := Or(Shl(And(hi, 0xFFFF), 16), And(lo, 0xFFFF));
  }

  /** The trie part of `buildSparseChunk`: the 256 puts, the merging
      `compress`, one triple per leaf in traversal order, and the sort
      (longer prefixes first, then smaller code words). */
  method SparseEntries(codeWordsArray: seq<seq<nat>>, allLookupEntries: seq<seq<nat>>) returns (entries: seq<Triple>)
    requires Shaped(codeWordsArray, allLookupEntries)
    ensures entries == Sorting.SortByKey(SparseTriplesOf(Row(codeWordsArray, allLookupEntries)), SortKey)
  {
    ghost var row := Row(codeWordsArray, allLookupEntries);
    var trie := DecodeIntoTrie(codeWordsArray, allLookupEntries);
    trie.CompressMergeOnly();
    var leaves := trie.PreorderTraversal();
    SparseTrie(row, RootCompress);
    LeavesShallow(trie.Abs());
    entries := MakeTriples(leaves);
    entries := Sorting.SortByKey(entries, SortKey);
  }

  /** The write loop of `buildSparseChunk`: the count, then each triple's
      three ints. */
  method SparseWords(entries: seq<Triple>) returns (data: seq<nat>)
    ensures data == SparseBlock(entries)
  {
    data := [|entries|];
    for i := 0 to |entries|
      invariant data == [|entries|] + TripleWords(entries[..i])
    {
      assert entries[..i + 1][..i] == entries[..i];
      var entry := entries[i];
      data := data + [entry.len, entry.codeWord, entry.entry];
    }
    assert entries[..|entries|] == entries;
  }

  /** `build(fpa, K)`: the pre-scan (phase 1), the offset arrays it sizes
      (phase 2), the root loop (phase 3) and the lists copied into arrays
      (phase 4). The tree holds what the layout functions lay out; the
      offset arrays have the pre-scan's lengths and the chunks fit in
      them; and, when no index loses a bit, every 4-byte key searches as
      the root array resolves it. */
  method Build<V(==)>(root: Fpa<V>, k: int) returns (t: Tree<V>)
    requires RootShape(root)
    ensures var (l, es) := RootFill(V3Layouts.Empty(), root, k, 0, []);
            t.rootChunk == RootChunkOf(es) && t.denseData == l.denseData && t.sparseData == l.sparseData &&
            t.denseCount == |l.denseOffsets| && l.denseOffsets <= t.denseOffsets &&
            t.sparseCount == |l.sparseOffsets| && l.sparseOffsets <= t.sparseOffsets &&
            l.sparseSizes <= t.sparseSizes && t.results == l.results
    ensures |t.denseOffsets| == |DenseOf(RootReach(root), k)| && |t.sparseOffsets| == |SparseOf(RootReach(root), k)|
    ensures Fits(RootReach(root), RootValues(root)) ==>
              forall key :: |key| == 4 && RootResolve(root, key).Ok? ==> TreeSearch(t, Some(key)) == RootResolve(root, key)
  {
    var info := PreScanAndCount(root, k);
    var b := new Builder<V>(k, info.denseChunkCount, info.sparseChunkCount);
    BuildCounts(root, k);
    var chunk := FillRoot(b, root);
    var denseData := CopyList(b.denseData);
    var sparseData := CopyList(b.sparseData);
    t := Tree(chunk, denseData[..], b.denseOffsets[..], b.denseCount, sparseData[..], b.sparseOffsets[..],
              b.sparseSizes[..], b.sparseCount, b.values.list);
    if Fits(RootReach(root), RootValues(root)) {
      BuildSearches(root, k, t);
    }
  }

  /** Phase 3 of `build`: every root slot `i` gets its entry, written at
      `rootChunk[i >> 6][i & 63]` of the 1024 groups of 64 zeros. */
  method FillRoot<V(==)>(b: Builder<V>, root: Fpa<V>) returns (chunk: seq<seq<nat>>)
    requires b.Valid() && b.State() == V3Layouts.Empty() && RootShape(root)
    requires b.Fit(RootFill(V3Layouts.Empty(), root, b.k, 0, []).0)
    modifies b, b.values, b.denseOffsets, b.sparseOffsets, b.sparseSizes
    ensures b.Valid() && b.k == old(b.k)
    ensures var (l, es) := RootFill(V3Layouts.Empty(), root, b.k, 0, []);
            b.State() == l && chunk == RootChunkOf(es)
  {
    ghost var done := RootFill(V3Layouts.Empty(), root, b.k, 0, []);
    var rootChunk := new nat[1024, 64]((g, c) => 0);
    ghost var es: seq<nat> := [];
    for i := 0 to |root.table|
      invariant b.Valid() && b.k == old(b.k) && |es| == i
      invariant done == RootFill(b.State(), root, b.k, i, es)
      invariant b.Fit(done.0)
      invariant forall g, c :: 0 <= g < 1024 && 0 <= c < 64 ==>
                  rootChunk[g, c] == if 64 * g + c < i then es[64 * g + c] else 0
    {
      var node := root.table[i];
      ghost var r := Entry(b.State(), node, b.k);
      RootFillGrows(r.0, root, b.k, i + 1, es + [r.1]);
      var e := b.NodeEntry(node);
      var group1, bit1 := i / 64, i % 64;
      rootChunk[group1, bit1] := e;
      es := es + [e];
    }
    chunk := Rows(rootChunk);
    forall g | 0 <= g < 1024 ensures chunk[g] == RootChunkOf(es)[g] {
      assert forall c :: 0 <= c < 64 ==> chunk[g][c] == RootChunkOf(es)[g][c];
    }
  }

  /** The 1024 rows of `rootChunk`. */
  method Rows(rootChunk: array2<nat>) returns (chunk: seq<seq<nat>>)
    requires rootChunk.Length0 == 1024 && rootChunk.Length1 == 64
    ensures |chunk| == 1024 && forall g :: 0 <= g < 1024 ==> |chunk[g]| == 64
    ensures forall g, c :: 0 <= g < 1024 && 0 <= c < 64 ==> chunk[g][c] == rootChunk[g, c]
  {
    chunk := seq(1024, g requires 0 <= g < 1024 reads rootChunk =>
                       seq(64, c requires 0 <= c < 64 reads rootChunk => rootChunk[g, c]));
  }

  /** Phase 4: a list copied into an array of its size. */
  method CopyList(list: seq<nat>) returns (a: array<nat>)
    ensures fresh(a) && a[..] == list
  {
    a := new nat[|list|];
    for i := 0 to |list|
      invariant a[..i] == list[..i]
    {
      a[i] := list[i];
    }
  }

  /** The converter's IPv4 arrays for trie `t`. */
  ghost function ConvertedIpv4<V>(t: Trie<V>): Fpa<V> {
    FillSpec(t, 16, IpDepths(Ipv4), 1, None)
  }

  /** An IPv4 trie converted and then built: when no index loses a bit,
      searching a 4-byte address is the longest prefix match of the trie,
      whatever `K` is. */
  method BuildFromTrie<V(==)>(trie: BitTries.BitTrie<V>, k: int) returns (tree: Tree<V>)
    requires trie.Valid() && Bounded(trie.Abs(), 32)
    requires Fits(RootReach(ConvertedIpv4(trie.Abs())), RootValues(ConvertedIpv4(trie.Abs())))
    ensures forall key: seq<Byte> :: |key| == 4 ==> TreeSearch(tree, Some(key)) == Ok(Lpm(trie.Abs(), BytesToBits(key)))
  {
    var fpa := Convert(trie, Ipv4);
    ConvertedShape(trie.Abs(), IpDepths(Ipv4));
    Pow2Short();
    tree := Build(fpa, k);
    forall key: seq<Byte> | |key| == 4 ensures TreeSearch(tree, Some(key)) == Ok(Lpm(trie.Abs(), BytesToBits(key))) {
      ConvertedResolve(trie.Abs(), IpDepths(Ipv4), key);
    }
  }

  /** The put loop of `buildSparseChunk`: slot `i`'s entry, read through
      its cluster's code word, under the one-byte key `i`. */
  method DecodeIntoTrie(codeWordsArray: seq<seq<nat>>, allLookupEntries: seq<seq<nat>>)
    returns (trie: BitTries.BitTrie<nat>)
    requires Shaped(codeWordsArray, allLookupEntries)
    ensures fresh(trie) && trie.Valid() && trie.Abs() == Filled(Row(codeWordsArray, allLookupEntries), 256)
  {
    trie := new BitTries.BitTrie<nat>();
    ghost var row := Row(codeWordsArray, allLookupEntries);
    for i := 0 to 256
      invariant fresh(trie) && trie.Valid() && trie.Abs() == Filled(row, i)
    {
      var groupIdx, bitIdx := i / 64, i % 64;
      var cluster, bit := bitIdx / 8, bitIdx % 8;
      var codeWord := codeWordsArray[groupIdx][cluster];
      var bitset, before := (codeWord / 256) % 256, codeWord % 256;
      SlotFields(i);
      var shifted := Shr(bitset, 8 - bit - 1);
      var onesInCluster := PopCount(shifted);
      var lookupIdx := (before + onesInCluster) as int - 1;
      var lookupEntry := if 0 <= lookupIdx < |allLookupEntries[groupIdx]| then allLookupEntries[groupIdx][lookupIdx] else 0;
      assert lookupEntry == row[i];
      var key: seq<Byte> := [i];
      assert BytesToBits(key) == NatToBits(i, 8) + BytesToBits([]);
      assert BytesToBits(key)[..8] == NatToBits(i, 8);
      var err := trie.Put(Some(key), 8, Some(lookupEntry));
    }
  }

  /** The traversal callback: a triple per leaf, in traversal order. */
  method MakeTriples(leaves: seq<(seq<bool>, nat)>) returns (ts: seq<Triple>)
    requires forall i :: 0 <= i < |leaves| ==> |leaves[i].0| <= 8
    ensures ts == Triples(leaves)
  {
    ts := [];
    for i := 0 to |leaves|
      invariant ts == Triples(leaves[..i])
    {
      var x := MakeTriple(leaves[i].0, leaves[i].1);
      assert Triples(leaves[..i + 1]) == Triples(leaves[..i]) + [x];
      ts := ts + [x];
    }
    assert leaves[..|leaves|] == leaves;
  }
}

/** FPATreeV2, the builder-only draft of the flattened tree: every nested
    256-slot array becomes a chunk of four groups, each group 8 code words
    and the entries of its runs, appended to `chunkList` after the chunks
    of the arrays below it; the root array becomes `rootChunk`. V2 differs
    from V3 in three ways the model states: a group's first run gets no
    bit and no entry (`firstNode` starts as the group's first slot), the
    low byte of cluster `c >= 1` counts the entries up to and including
    slot `8c`, and `resultList` is not seeded with `null`. */
module V2Trees {
  import opened Wrappers
  import opened Bits
  import opened Fpas
  import opened LookupEntries
  import opened ValueTables
  import opened TreeSpecs
  import opened ChangeCodes
  import opened V3Trees

  /** `ChunkEntry`: a group's 8 code words and its lookup entries. */
  datatype ChunkEntry = ChunkEntry(codeWord: seq<nat>, lookupEntries: seq<nat>)

  // ---------------------------------------------------------------------
  // What a group holds
  // ---------------------------------------------------------------------

  /** V2's run flags leave out exactly the first run: its heads are V3's
      without the first. */
  lemma {:induction false} HeadsSkipFirst<T>(ts: seq<T>, k: nat)
    requires 0 < k <= |ts|
    ensures |Heads(ts, Changes(ts, true), k)| >= 1
    ensures Heads(ts, Changes(ts, false), k) == Heads(ts, Changes(ts, true), k)[1..]
  {
    if k > 1 {
      HeadsSkipFirst(ts, k - 1);
    }
  }

  /** V2's code word for cluster `c`: the run-start byte above, for
      `c >= 1`, the number of run starts up to and including slot `8c`;
      cluster 0's low byte stays 0. */
  function V2Word(flags: seq<bool>, c: nat): nat
    requires 8 * c + 8 <= |flags|
  {
    ClusterBits(flags, c) * 256 + (if c == 0 then 0 else CountTrue(flags[..8 * c + 1]))
  }

  /** V2's low byte is one more than the number of earlier run starts
      exactly when slot `8c` starts a run, for `c >= 1`; otherwise it is
      the code word V3 and the newer tree write. */
  lemma V2WordCounts(flags: seq<bool>, c: nat)
    requires 8 * c + 8 <= |flags|
    ensures V2Word(flags, c) == CodeWord(flags, c) + (if c > 0 && flags[8 * c] then 1 else 0)
  {
    if c > 0 {
      assert flags[..8 * c + 1] == flags[..8 * c] + [flags[8 * c]];
      CountTrueAppend(flags[..8 * c], [flags[8 * c]]);
    }
  }

  /** A row whose slot 8 starts a run: V2's code word for cluster 1 differs
      from the one the decoding rule needs. */
  lemma V2WordOffByOne()
    ensures var flags := seq(64, i => i == 8);
            V2Word(flags, 1) == CodeWord(flags, 1) + 1
  {
    var flags := seq(64, i => i == 8);
    V2WordCounts(flags, 1);
  }

  /** Code word `c` after the group loop has visited its first `k` slots:
      0 before the cluster starts, then the cluster's run flags so far in
      the high byte and, from slot `8c` on, the count in the low byte. */
  function PartWord(flags: seq<bool>, c: nat, k: nat): nat
    requires |flags| == 64 && c < 8 && k <= 64
  {
    if k <= 8 * c then 0
    else
      var hi := if k < 8 * c + 8 then k else 8 * c + 8;
      Msb(flags[8 * c..hi]) * 256 + (if c == 0 then 0 else CountTrue(flags[..8 * c + 1]))
  }

  lemma PartWordDone(flags: seq<bool>, c: nat)
    requires |flags| == 64 && c < 8
    ensures PartWord(flags, c, 64) == V2Word(flags, c)
  {
  }

  /** The flags V2 writes for group `j` of `f`. */
  ghost function V2Flags<V>(f: Fpa<V>, j: nat): (r: seq<bool>)
    requires |f.table| == 256 && j < 4
    ensures |r| == 64
  {
    Changes(Group(f, j), false)
  }

  // ---------------------------------------------------------------------
  // What the entries stand for
  // ---------------------------------------------------------------------

  /** Entry `e` stands for slot `n`: a LEAF entry of the value's index, or a
      DENSE entry of a chunk before `bound` made for the nested array. */
  ghost predicate Denotes<V>(sources: seq<Fpa<V>>, results: seq<Option<V>>, e: nat, n: FNode<V>, bound: nat) {
    if n.next.None? then exists idx: nat :: e == Encode(TypeLeaf, idx) && LeafIs(results, idx, n.value)
    else exists idx: nat :: e == Encode(TypeDense, idx) && idx < bound && idx < |sources| && sources[idx] == n.next.value
  }

  /** Entries `es` stand for slots `ns`, one by one. */
  ghost predicate AllDenote<V>(sources: seq<Fpa<V>>, results: seq<Option<V>>, es: seq<nat>, ns: seq<FNode<V>>, bound: nat) {
    |es| == |ns| && forall r :: 0 <= r < |es| ==> Denotes(sources, results, es[r], ns[r], bound)
  }

  /** Group `j` of `f` as V2 builds it: V2's code words, and one entry per
      set bit standing for the slot that set it, pointing below `bound`. */
  ghost predicate GroupMade<V>(sources: seq<Fpa<V>>, results: seq<Option<V>>, f: Fpa<V>, j: nat, g: ChunkEntry, bound: nat)
    requires |f.table| == 256 && j < 4
  {
    var flags := V2Flags(f, j);
    |g.codeWord| == 8 && (forall c :: 0 <= c < 8 ==> g.codeWord[c] == V2Word(flags, c)) &&
    AllDenote(sources, results, g.lookupEntries, Heads(Group(f, j), flags, 64), bound)
  }

  /** A made group holds one entry per set bit, and the group's first slot
      never sets one. */
  lemma GroupCount<V>(sources: seq<Fpa<V>>, results: seq<Option<V>>, f: Fpa<V>, j: nat, g: ChunkEntry, bound: nat)
    requires |f.table| == 256 && j < 4 && GroupMade(sources, results, f, j, g, bound)
    ensures |g.lookupEntries| == CountTrue(V2Flags(f, j)) && !V2Flags(f, j)[0]
  {
    var flags := V2Flags(f, j);
    HeadsCount(Group(f, j), flags, 64);
    assert flags[..64] == flags;
  }

  /** Chunk `i` is made for its source array, its entries pointing only to
      earlier chunks. */
  ghost predicate Made<V>(chunks: seq<seq<ChunkEntry>>, sources: seq<Fpa<V>>, results: seq<Option<V>>, i: nat)
    requires i < |chunks| == |sources|
  {
    var f := sources[i];
    |f.table| == 256 && |chunks[i]| == 4 &&
    forall j :: 0 <= j < 4 ==> GroupMade(sources, results, f, j, chunks[i][j], i)
  }

  /** Every chunk made for its source array. */
  ghost predicate AllMade<V>(chunks: seq<seq<ChunkEntry>>, sources: seq<Fpa<V>>, results: seq<Option<V>>) {
    |chunks| == |sources| && forall i :: 0 <= i < |chunks| ==> Made(chunks, sources, results, i)
  }

  lemma DenotesMono<V>(s: seq<Fpa<V>>, s': seq<Fpa<V>>, res: seq<Option<V>>, res': seq<Option<V>>,
                       e: nat, n: FNode<V>, bound: nat, bound': nat)
    requires s <= s' && res <= res' && bound <= bound' && Denotes(s, res, e, n, bound)
    ensures Denotes(s', res', e, n, bound')
  {
    if n.next.None? {
      var idx: nat :| e == Encode(TypeLeaf, idx) && LeafIs(res, idx, n.value);
      assert LeafIs(res', idx, n.value);
    } else {
      var idx: nat :| e == Encode(TypeDense, idx) && idx < bound && idx < |s| && s[idx] == n.next.value;
      assert s'[idx] == n.next.value;
    }
  }

  lemma AllDenoteMono<V>(s: seq<Fpa<V>>, s': seq<Fpa<V>>, res: seq<Option<V>>, res': seq<Option<V>>,
                         es: seq<nat>, ns: seq<FNode<V>>, bound: nat, bound': nat)
    requires s <= s' && res <= res' && bound <= bound' && AllDenote(s, res, es, ns, bound)
    ensures AllDenote(s', res', es, ns, bound')
  {
    forall r | 0 <= r < |es| ensures Denotes(s', res', es[r], ns[r], bound') {
      DenotesMono(s, s', res, res', es[r], ns[r], bound, bound');
    }
  }

  /** Appending chunks and results keeps every chunk made. */
  lemma AllMadeMono<V>(c: seq<seq<ChunkEntry>>, c': seq<seq<ChunkEntry>>, s: seq<Fpa<V>>, s': seq<Fpa<V>>,
                       res: seq<Option<V>>, res': seq<Option<V>>)
    requires c <= c' && s <= s' && res <= res' && |c'| == |s'| && AllMade(c, s, res)
    requires forall i :: |c| <= i < |c'| ==> Made(c', s', res', i)
    ensures AllMade(c', s', res')
  {
    forall i | 0 <= i < |c'| ensures Made(c', s', res', i) {
      if i < |c| {
        assert Made(c, s, res, i);
        forall j | 0 <= j < 4 ensures GroupMade(s', res', s[i], j, c'[i][j], i) {
          assert GroupMade(s, res, s[i], j, c[i][j], i);
          AllDenoteMono(s, s', res, res', c[i][j].lookupEntries, Heads(Group(s[i], j), V2Flags(s[i], j), 64), i, i);
        }
      }
    }
  }

  /** What an entry's type says: LEAF for a slot without a nested array,
      DENSE of an index below `bound` for one with. */
  lemma DenotesType<V>(sources: seq<Fpa<V>>, results: seq<Option<V>>, e: nat, n: FNode<V>, bound: nat)
    requires Denotes(sources, results, e, n, bound)
    ensures n.next.None? ==> EntryType(e) == TypeLeaf
    ensures n.next.Some? ==> EntryType(e) == TypeDense && EntryIndex(e) < bound
  {
    if n.next.None? {
      var idx: nat :| e == Encode(TypeLeaf, idx) && LeafIs(results, idx, n.value);
      DecodeEncode(TypeLeaf, idx);
    } else {
      var idx: nat :| e == Encode(TypeDense, idx) && idx < bound && idx < |sources| && sources[idx] == n.next.value;
      DecodeEncode(TypeDense, idx);
      assert idx % IndexSpan <= idx;
    }
  }

  /** In a made chunk a DENSE entry's chunk comes earlier: chunks are
      appended after the chunks of the arrays below them. */
  lemma ChildrenFirst<V>(chunks: seq<seq<ChunkEntry>>, sources: seq<Fpa<V>>, results: seq<Option<V>>,
                         i: nat, j: nat, r: nat)
    requires i < |chunks| == |sources| && Made(chunks, sources, results, i) && j < 4
    requires r < |chunks[i][j].lookupEntries| && EntryType(chunks[i][j].lookupEntries[r]) == TypeDense
    ensures EntryIndex(chunks[i][j].lookupEntries[r]) < i
  {
    var f := sources[i];
    var ns := Heads(Group(f, j), V2Flags(f, j), 64);
    assert GroupMade(sources, results, f, j, chunks[i][j], i);
    DenotesType(sources, results, chunks[i][j].lookupEntries[r], ns[r], i);
  }

  // ---------------------------------------------------------------------
  // The builder
  // ---------------------------------------------------------------------

  /** The tree `build` fills: `rootChunk`, `chunkList` and `resultList`
      with its `idxTable`; `sources` records, for the proofs, which array
      each chunk was made for. */
  class Tree<V(==)> {
    const rootChunk: array2<nat>
    var chunkList: seq<seq<ChunkEntry>>
    ghost var sources: seq<Fpa<V>>
    const values: ValueTable<V>

    ghost predicate Valid()
      reads this, values
    {
      values.Valid() && AllMade(chunkList, sources, values.list)
    }

    /** The field initialisers: 1024 groups of 64 zeros, an empty chunk
        list and an empty result list, which V2 does not seed. */
    constructor ()
      ensures Valid() && chunkList == [] && values.list == [] && values.index == map[]
      ensures rootChunk.Length0 == 1024 && rootChunk.Length1 == 64
      ensures forall g, b :: 0 <= g < 1024 && 0 <= b < 64 ==> rootChunk[g, b] == 0
      ensures fresh(values) && fresh(rootChunk)
    {
      rootChunk := new nat[1024, 64]((g, b) => 0);
      chunkList := [];
      sources := [];
      values := new ValueTable<V>.Unseeded();
    }

    /** A run start's entry, as `processLayer` and `build` make it: LEAF of
        the value's index, or DENSE of the chunk made for the nested
        array. */
    method NodeEntry(n: FNode<V>) returns (e: nat)
      requires Valid() && NodeByteLevels(n)
      modifies this, values
      ensures Valid()
      ensures old(chunkList) <= chunkList && old(sources) <= sources && old(values.list) <= values.list
      ensures Denotes(sources, values.list, e, n, |chunkList|)
      decreases n, 0
    {
      if n.next.None? {
        var valueIdx := values.GetValueIndex(n.value);
        e := Encode(TypeLeaf, valueIdx);
        AllMadeMono(old(chunkList), chunkList, old(sources), sources, old(values.list), values.list);
        assert LeafIs(values.list, valueIdx, n.value);
      } else {
        var chunkIdx := ProcessLayer(n.next.value);
        e := Encode(TypeDense, chunkIdx);
      }
    }

    /** `processLayer`: the four groups, then the chunk appended; its index
        is returned. */
    method ProcessLayer(f: Fpa<V>) returns (chunkIdx: nat)
      requires Valid() && ByteLevel(f)
      modifies this, values
      ensures Valid()
      ensures old(chunkList) <= chunkList && old(sources) <= sources && old(values.list) <= values.list
      ensures chunkIdx == |chunkList| - 1 && sources[chunkIdx] == f
      decreases f, 3
    {
      var group: seq<ChunkEntry> := [];
      for j := 0 to 4
        invariant Valid()
        invariant old(chunkList) <= chunkList && old(sources) <= sources && old(values.list) <= values.list
        invariant |group| == j
        invariant forall i :: 0 <= i < j ==> GroupMade(sources, values.list, f, i, group[i], |chunkList|)
      {
        ghost var s0, r0, b0 := sources, values.list, |chunkList|;
        var entry := VisitGroup(f, j);
        forall i | 0 <= i < j ensures GroupMade(sources, values.list, f, i, group[i], |chunkList|) {
          assert GroupMade(s0, r0, f, i, group[i], b0);
          AllDenoteMono(s0, sources, r0, values.list, group[i].lookupEntries,
                        Heads(Group(f, i), V2Flags(f, i), 64), b0, |chunkList|);
        }
        group := group + [entry];
      }
      chunkIdx := |chunkList|;
      ghost var c0, s0 := chunkList, sources;
      chunkList := chunkList + [group];
      sources := sources + [f];
      forall j | 0 <= j < 4 ensures GroupMade(sources, values.list, f, j, group[j], chunkIdx) {
        AllDenoteMono(s0, sources, values.list, values.list, group[j].lookupEntries,
                      Heads(Group(f, j), V2Flags(f, j), 64), chunkIdx, chunkIdx);
      }
      assert Made(chunkList, sources, values.list, chunkIdx);
      AllMadeMono(c0, chunkList, s0, sources, values.list, values.list);
    }

    /** The body of the group loop: `firstNode` starts as the group's
        first slot, so that slot never starts a run. */
    method VisitGroup(f: Fpa<V>, j: nat) returns (entry: ChunkEntry)
      requires Valid() && ByteLevel(f) && j < 4
      modifies this, values
      ensures Valid()
      ensures old(chunkList) <= chunkList && old(sources) <= sources && old(values.list) <= values.list
      ensures GroupMade(sources, values.list, f, j, entry, |chunkList|)
      decreases f, 2
    {
      var codeWords := new nat[8](_ => 0);
      var lookupEntries: seq<nat> := [];
      var firstNode := f.table[j * 64];
      var count := 0;
      for k := 0 to 64
        invariant Valid()
        invariant old(chunkList) <= chunkList && old(sources) <= sources && old(values.list) <= values.list
        invariant Visited(f, j, k, codeWords[..], firstNode, lookupEntries, count)
      {
        firstNode, lookupEntries, count := VisitSlot(f, j, k, codeWords, firstNode, lookupEntries, count);
      }
      entry := ChunkEntry(codeWords[..], lookupEntries);
    }

    /** The group loop's state after `k` slots: `firstNode` the slot
        before (the first slot at the start), `count` the run starts so far,
        each code word as far as it is written and one entry per run
        start. */
    ghost predicate Visited(f: Fpa<V>, j: nat, k: nat, words: seq<nat>, firstNode: FNode<V>,
                            lookupEntries: seq<nat>, count: nat)
      reads this, values
      requires ByteLevel(f) && j < 4 && k <= 64
    {
      var ts, flags := Group(f, j), V2Flags(f, j);
      firstNode == ts[if k == 0 then 0 else k - 1] && count == CountTrue(flags[..k]) &&
      |words| == 8 && (forall c :: 0 <= c < 8 ==> words[c] == PartWord(flags, c, k)) &&
      AllDenote(sources, values.list, lookupEntries, Heads(ts, flags, k), |chunkList|)
    }

    /** Slot `k` of group `j`: a slot unlike `firstNode` sets its bit,
        appends its entry, is counted and becomes `firstNode`; at slot `8c`,
        `c >= 1`, the count goes into the cluster's low byte. */
    method VisitSlot(f: Fpa<V>, j: nat, k: nat, codeWords: array<nat>, firstNode: FNode<V>,
                     lookupEntries: seq<nat>, count: nat)
      returns (firstNode': FNode<V>, lookupEntries': seq<nat>, count': nat)
      requires Valid() && ByteLevel(f) && j < 4 && k < 64
      requires Visited(f, j, k, codeWords[..], firstNode, lookupEntries, count)
      modifies this, values, codeWords
      ensures Valid()
      ensures old(chunkList) <= chunkList && old(sources) <= sources && old(values.list) <= values.list
      ensures Visited(f, j, k + 1, codeWords[..], firstNode', lookupEntries', count')
      decreases f, 1
    {
      ghost var ts, flags := Group(f, j), V2Flags(f, j);
      ghost var s0, r0, b0 := sources, values.list, |chunkList|;
      ghost var words := codeWords[..];
      var idx := j * 64 + k;
      var cluster, bit := SlotPlace(j, k);
      var nextNode := f.table[idx];
      assert nextNode == ts[k];
      assert flags[..k + 1] == flags[..k] + [flags[k]];
      CountTrueAppend(flags[..k], [flags[k]]);
      HeadsCount(ts, flags, k);
      firstNode', lookupEntries', count' := firstNode, lookupEntries, count;
      if firstNode != nextNode {
        SetRunBit(codeWords, cluster, bit);
        assert NodeByteLevels(nextNode);
        var lookupEntry := NodeEntry(nextNode);
        AllDenoteMono(s0, sources, r0, values.list, lookupEntries, Heads(ts, flags, k), b0, |chunkList|);
        lookupEntries' := lookupEntries + [lookupEntry];
        count' := count + 1;
        firstNode' := nextNode;
      }
      if k > 0 && k % 8 == 0 {
        PutCount(codeWords, cluster, count');
      }
      WordsStep(flags, k, cluster, bit, words, codeWords[..], flags[k], count');
    }
  }

  /** `cluster = (idx >> 3) & 0b111` and `bit = idx & 0b111` for slot
      `idx = j * 64 + k`. */
  method SlotPlace(j: nat, k: nat) returns (cluster: nat, bit: nat)
    requires k < 64
    ensures cluster == k / 8 && bit == k % 8 && k == 8 * cluster + bit
  {
    var idx := j * 64 + k;
    DivModUnique(idx, 8, 8 * j + k / 8, k % 8);
    DivModUnique(8 * j + k / 8, 8, j, k / 8);
    cluster := (idx / 8) % 8;
    bit := idx % 8;
  }

  /** `codeWords[cluster] |= (short) (1 << 8 << (8 - bit - 1))`. */
  method SetRunBit(codeWords: array<nat>, cluster: nat, bit: nat)
    requires cluster < codeWords.Length && bit < 8
    modifies codeWords
    ensures codeWords[cluster] == Or(old(codeWords[cluster]), Pow2(7 - bit) * 256)
    ensures forall c :: 0 <= c < codeWords.Length && c != cluster ==> codeWords[c] == old(codeWords[c])
  {
    RunBit(bit);
    codeWords[cluster] := Or(codeWords[cluster], Shl(Shl(1, 8), 8 - bit - 1));
  }

  /** `codeWords[cluster] |= (short) count`. */
  method PutCount(codeWords: array<nat>, cluster: nat, count: nat)
    requires cluster < codeWords.Length
    modifies codeWords
    ensures codeWords[cluster] == Or(old(codeWords[cluster]), count)
    ensures forall c :: 0 <= c < codeWords.Length && c != cluster ==> codeWords[c] == old(codeWords[c])
  {
    codeWords[cluster] := Or(codeWords[cluster], count);
  }

  /** `1 << 8 << (8 - bit - 1)` is bit `7 - bit` of the high byte. */
  lemma RunBit(bit: nat)
    requires bit < 8
    ensures Shl(Shl(1, 8), 8 - bit - 1) == Pow2(7 - bit) * 256
  {
    Pow2Byte();
  }

  /** The count of the low byte fits it. */
  lemma LowFits(flags: seq<bool>, c: nat)
    requires |flags| == 64 && c < 8
    ensures (if c == 0 then 0 else CountTrue(flags[..8 * c + 1])) < 256
  {
  }

  /** The code words after slot `k`: only its cluster's word changes,
      through its bit and (at a cluster's first slot past slot 0) the
      count. */
  lemma WordsStep(flags: seq<bool>, k: nat, cluster: nat, bit: nat, words: seq<nat>, words': seq<nat>, start: bool, count: nat)
    requires |flags| == 64 && k == 8 * cluster + bit && bit < 8 && cluster < 8
    requires start == flags[k] && count == CountTrue(flags[..k + 1])
    requires |words| == 8 && forall c :: 0 <= c < 8 ==> words[c] == PartWord(flags, c, k)
    requires |words'| == 8 && forall c :: 0 <= c < 8 && c != cluster ==> words'[c] == words[c]
    requires var w := if start then Or(words[cluster], Pow2(7 - bit) * 256) else words[cluster];
             words'[cluster] == if k > 0 && bit == 0 then Or(w, count) else w
    ensures forall c :: 0 <= c < 8 ==> words'[c] == PartWord(flags, c, k + 1)
  {
    forall c | 0 <= c < 8 && c != cluster ensures words'[c] == PartWord(flags, c, k + 1) {
      PartWordOther(flags, c, cluster, bit);
    }
    WordHere(flags, cluster, bit, words[cluster], words'[cluster], count);
  }

  /** The slot's own cluster: its bit and, at the cluster's first slot past
      slot 0, the count. */
  lemma WordHere(flags: seq<bool>, cluster: nat, bit: nat, word: nat, word': nat, count: nat)
    requires |flags| == 64 && bit < 8 && cluster < 8
    requires word == PartWord(flags, cluster, 8 * cluster + bit)
    requires count == CountTrue(flags[..8 * cluster + bit + 1])
    requires var w := if flags[8 * cluster + bit] then Or(word, Pow2(7 - bit) * 256) else word;
             word' == if 8 * cluster + bit > 0 && bit == 0 then Or(w, count) else w
    ensures word' == PartWord(flags, cluster, 8 * cluster + bit + 1)
  {
    if bit == 0 {
      assert word == 0;
      WordStepFirst(flags, cluster);
    } else {
      WordStepLater(flags, cluster, bit);
    }
  }

  /** A slot of another cluster leaves code word `c` as it is. */
  lemma PartWordOther(flags: seq<bool>, c: nat, cluster: nat, bit: nat)
    requires |flags| == 64 && c < 8 && cluster < 8 && bit < 8 && c != cluster
    ensures PartWord(flags, c, 8 * cluster + bit + 1) == PartWord(flags, c, 8 * cluster + bit)
  {
  }

  /** A cluster's first slot: the word was 0; its bit, then (past cluster
      0) the count. */
  lemma WordStepFirst(flags: seq<bool>, c: nat)
    requires |flags| == 64 && c < 8
    ensures var w := if flags[8 * c] then Or(0, Pow2(7) * 256) else 0;
            (if c > 0 then Or(w, CountTrue(flags[..8 * c + 1])) else w) == PartWord(flags, c, 8 * c + 1)
  {
    var k := 8 * c;
    assert flags[k..k + 1] == [] + [flags[k]];
    MsbStep([], flags[k]);
    var m := Msb(flags[k..k + 1]);
    Pow2Byte();
    LowFits(flags, c);
    if c > 0 {
      OrShifted(m, CountTrue(flags[..k + 1]), 8);
    }
  }

  /** A later slot of the cluster: its bit goes above the count. */
  lemma WordStepLater(flags: seq<bool>, c: nat, bit: nat)
    requires |flags| == 64 && c < 8 && 0 < bit < 8
    ensures var w := PartWord(flags, c, 8 * c + bit);
            (if flags[8 * c + bit] then Or(w, Pow2(7 - bit) * 256) else w) == PartWord(flags, c, 8 * c + bit + 1)
  {
    var k := 8 * c + bit;
    var s := flags[8 * c..k];
    assert flags[8 * c..k + 1] == s + [flags[k]];
    MsbStep(s, flags[k]);
    Pow2Byte();
    LowFits(flags, c);
    if flags[k] {
      OrAbove(Msb(s), Pow2(7 - bit), if c == 0 then 0 else CountTrue(flags[..8 * c + 1]), 8);
    }
  }

  /** `build`: every root slot `i` gets, at `rootChunk[i >> 6][i & 63]`,
      LEAF of its value's index or DENSE of the chunk made for its nested
      array; the slots past the root array stay 0. */
  method Build<V(==)>(root: Fpa<V>) returns (tree: Tree<V>)
    requires RootShape(root)
    ensures tree.Valid() && fresh(tree.rootChunk)
    ensures tree.rootChunk.Length0 == 1024 && tree.rootChunk.Length1 == 64
    ensures forall i :: 0 <= i < |root.table| ==>
              Denotes(tree.sources, tree.values.list, tree.rootChunk[i / 64, i % 64], root.table[i], |tree.chunkList|)
    ensures forall i :: |root.table| <= i < 65536 ==> tree.rootChunk[i / 64, i % 64] == 0
  {
    tree := new Tree<V>();
    for i := 0 to |root.table|
      invariant tree.Valid() && fresh(tree.values)
      invariant forall s :: 0 <= s < i ==>
                  Denotes(tree.sources, tree.values.list, tree.rootChunk[s / 64, s % 64], root.table[s], |tree.chunkList|)
      invariant forall s :: i <= s < 65536 ==> tree.rootChunk[s / 64, s % 64] == 0
    {
      ghost var s0, r0, b0 := tree.sources, tree.values.list, |tree.chunkList|;
      var group1, bit1 := i / 64, i % 64;
      var node := root.table[i];
      var e := tree.NodeEntry(node);
      forall s | 0 <= s < i
        ensures Denotes(tree.sources, tree.values.list, tree.rootChunk[s / 64, s % 64], root.table[s], |tree.chunkList|)
      {
        DenotesMono(s0, tree.sources, r0, tree.values.list, tree.rootChunk[s / 64, s % 64], root.table[s], b0, |tree.chunkList|);
      }
      RootPlace(i);
      tree.rootChunk[group1, bit1] := e;
    }
  }
}

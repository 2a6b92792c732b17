/** What the older tree's builder (`com.github.abjfh.FPATree.build`) makes,
    as values: the lists it fills and what their entries stand for
    (`Denotes`, `Holds`), and the builder's calls as functions of the lists
    before the call (`Entry`, `Sparse`, `Dense`, the passes of
    `buildCompressedGroups`, `Level`). The lemmas prove that each call keeps
    the lists meaningful and returns an entry that stands for its slot. */
module RootBuild {
  import opened Wrappers
  import opened Bits
  import opened Fpas
  import opened LookupEntries
  import opened ValueTables
  import opened ChangeCodes
  import opened TreeSpecs
  import opened RootCodes

  // ---------------------------------------------------------------------
  // What the built lists mean
  // ---------------------------------------------------------------------

  /** The lists as values, for the proofs: the array each compressed and
      each sparse chunk was made for, `resultList`, and `K`. */
  datatype Ctx<V> = Ctx(compressed: seq<Fpa<V>>, sparse: seq<Fpa<V>>, results: seq<Option<V>>, k: int)

  /** The lists only grow. */
  ghost predicate Grows<V>(a: Ctx<V>, b: Ctx<V>) {
    a.compressed <= b.compressed && a.sparse <= b.sparse && a.results <= b.results && a.k == b.k
  }

  /** Entry `e` stands for slot `n`: LEAF of the index of its value when it
      has no nested array; else SPARSE of a sparse chunk made for the nested
      array when that array is sparse, COMPRESSED of a compressed chunk made
      for it when not. The type goes above the index unmasked, as
      `encodeLookupEntry` does. */
  ghost predicate Denotes<V>(cx: Ctx<V>, e: nat, n: FNode<V>) {
    if n.next.None? then
      exists idx: nat :: e == EncodeUnmasked(TypeLeaf, idx) && LeafIs(cx.results, idx, n.value)
    else if SparseBranch(n.next.value, cx.k) then
      exists idx: nat :: e == EncodeUnmasked(TypeSparse, idx) && idx < |cx.sparse| && cx.sparse[idx] == n.next.value
    else
      exists idx: nat :: e == EncodeUnmasked(TypeCompressed, idx) && idx < |cx.compressed| && cx.compressed[idx] == n.next.value
  }

  /** Entries `es` stand for slots `ns`, one by one. */
  ghost predicate AllDenote<V>(cx: Ctx<V>, es: seq<nat>, ns: seq<FNode<V>>) {
    |es| == |ns| && forall s :: 0 <= s < |es| ==> Denotes(cx, es[s], ns[s])
  }

  /** A compressed chunk made for array `f` from the entries `es` of its
      slots. */
  ghost predicate CompressedMade<V>(cx: Ctx<V>, chunk: seq<CompressedGroup>, es: seq<nat>, f: Fpa<V>) {
    |f.table| == 256 && |es| == 256 && chunk == CompressedOf(es) && AllDenote(cx, es, f.table)
  }

  /** A sparse chunk made for array `f` from the entries `es` of its slots. */
  ghost predicate SparseMade<V>(cx: Ctx<V>, chunk: seq<SparseEntry>, es: seq<nat>, f: Fpa<V>) {
    |f.table| == 256 && |es| == 256 && chunk == SparseOf(f.table, es) && AllDenote(cx, es, f.table)
  }

  /** The builder's invariant on values: every compressed chunk not `open`
      (allocated, its groups still being built) and every sparse chunk is
      made for its array, and every cached entry stands for its slot. */
  ghost predicate Holds<V>(cx: Ctx<V>, chunks: seq<seq<CompressedGroup>>, entries: seq<seq<nat>>, open: set<nat>,
                               sparseChunks: seq<seq<SparseEntry>>, sparseEntries: seq<seq<nat>>, cache: map<FNode<V>, nat>) {
    |chunks| == |entries| == |cx.compressed| && (forall i :: i in open ==> i < |chunks|) &&
    (forall i :: 0 <= i < |chunks| && i !in open ==> CompressedMade(cx, chunks[i], entries[i], cx.compressed[i])) &&
    |sparseChunks| == |sparseEntries| == |cx.sparse| &&
    (forall i :: 0 <= i < |sparseChunks| ==> SparseMade(cx, sparseChunks[i], sparseEntries[i], cx.sparse[i])) &&
    (forall n :: n in cache ==> Denotes(cx, cache[n], n))
  }

  /** The cache only gains entries. */
  ghost predicate CacheExtends<V>(a: map<FNode<V>, nat>, b: map<FNode<V>, nat>) {
    forall n :: n in a ==> n in b && b[n] == a[n]
  }

  /** Every slot of `f` has no nested array. */
  predicate Leaves<V>(f: Fpa<V>) {
    forall s :: 0 <= s < |f.table| ==> f.table[s].next.None?
  }

  /** Every slot of `f` is nested at most once more. */
  predicate Nested1<V>(f: Fpa<V>) {
    forall s :: 0 <= s < |f.table| ==> NestedWithin(f.table[s], 1)
  }

  /** The lists fit the 30-bit index of an entry. */
  ghost predicate Small<V>(cx: Ctx<V>) {
    |cx.compressed| <= IndexSpan && |cx.sparse| <= IndexSpan && |cx.results| <= IndexSpan
  }

  /** Root slot `s`; past the root array, the empty slot entry 0 stands for. */
  function RootSlot<V>(root: Fpa<V>, s: nat): FNode<V> {
    if s < |root.table| then root.table[s] else FNode(None, None)
  }

  lemma DenotesMono<V>(a: Ctx<V>, b: Ctx<V>, e: nat, n: FNode<V>)
    requires Grows(a, b) && Denotes(a, e, n)
    ensures Denotes(b, e, n)
  {
    if n.next.None? {
      var idx: nat :| e == EncodeUnmasked(TypeLeaf, idx) && LeafIs(a.results, idx, n.value);
      assert LeafIs(b.results, idx, n.value);
    } else if SparseBranch(n.next.value, a.k) {
      var idx: nat :| e == EncodeUnmasked(TypeSparse, idx) && idx < |a.sparse| && a.sparse[idx] == n.next.value;
      assert b.sparse[idx] == n.next.value;
    } else {
      var idx: nat :| e == EncodeUnmasked(TypeCompressed, idx) && idx < |a.compressed| && a.compressed[idx] == n.next.value;
      assert b.compressed[idx] == n.next.value;
    }
  }

  lemma AllDenoteMono<V>(a: Ctx<V>, b: Ctx<V>, es: seq<nat>, ns: seq<FNode<V>>)
    requires Grows(a, b) && AllDenote(a, es, ns)
    ensures AllDenote(b, es, ns)
  {
    forall s | 0 <= s < |es| ensures Denotes(b, es[s], ns[s]) {
      DenotesMono(a, b, es[s], ns[s]);
    }
  }

  /** Growing the lists keeps the invariant, as long as no chunk was added
      to them. */
  lemma HoldsMono<V>(a: Ctx<V>, b: Ctx<V>, chunks: seq<seq<CompressedGroup>>, entries: seq<seq<nat>>, open: set<nat>,
                     sparseChunks: seq<seq<SparseEntry>>, sparseEntries: seq<seq<nat>>, cache: map<FNode<V>, nat>)
    requires Holds(a, chunks, entries, open, sparseChunks, sparseEntries, cache)
    requires Grows(a, b) && |b.compressed| == |a.compressed| && |b.sparse| == |a.sparse|
    ensures Holds(b, chunks, entries, open, sparseChunks, sparseEntries, cache)
  {
    forall i | 0 <= i < |chunks| && i !in open ensures CompressedMade(b, chunks[i], entries[i], b.compressed[i]) {
      AllDenoteMono(a, b, entries[i], a.compressed[i].table);
    }
    forall i | 0 <= i < |sparseChunks| ensures SparseMade(b, sparseChunks[i], sparseEntries[i], b.sparse[i]) {
      AllDenoteMono(a, b, sparseEntries[i], a.sparse[i].table);
    }
    forall n | n in cache ensures Denotes(b, cache[n], n) {
      DenotesMono(a, b, cache[n], n);
    }
  }

  /** Allocating a compressed chunk for `f`: an open placeholder. */
  lemma HoldsAllocate<V>(a: Ctx<V>, f: Fpa<V>, chunks: seq<seq<CompressedGroup>>, entries: seq<seq<nat>>, open: set<nat>,
                             sparseChunks: seq<seq<SparseEntry>>, sparseEntries: seq<seq<nat>>, cache: map<FNode<V>, nat>)
    requires Holds(a, chunks, entries, open, sparseChunks, sparseEntries, cache)
    ensures Holds(a.(compressed := a.compressed + [f]), chunks + [[]], entries + [[]], open + {|chunks|},
                  sparseChunks, sparseEntries, cache)
  {
    var b := a.(compressed := a.compressed + [f]);
    forall i | 0 <= i < |chunks| && i !in open ensures CompressedMade(b, chunks[i], entries[i], b.compressed[i]) {
      AllDenoteMono(a, b, entries[i], a.compressed[i].table);
    }
    forall i | 0 <= i < |sparseChunks| ensures SparseMade(b, sparseChunks[i], sparseEntries[i], b.sparse[i]) {
      AllDenoteMono(a, b, sparseEntries[i], a.sparse[i].table);
    }
    forall n | n in cache ensures Denotes(b, cache[n], n) {
      DenotesMono(a, b, cache[n], n);
    }
  }

  /** Filling an open chunk with groups made for its array closes it. */
  lemma HoldsClose<V>(a: Ctx<V>, i: nat, groups: seq<CompressedGroup>, es: seq<nat>,
                          chunks: seq<seq<CompressedGroup>>, entries: seq<seq<nat>>, open: set<nat>,
                          sparseChunks: seq<seq<SparseEntry>>, sparseEntries: seq<seq<nat>>, cache: map<FNode<V>, nat>)
    requires Holds(a, chunks, entries, open, sparseChunks, sparseEntries, cache)
    requires i in open && CompressedMade(a, groups, es, a.compressed[i])
    ensures Holds(a, chunks[i := groups], entries[i := es], open - {i}, sparseChunks, sparseEntries, cache)
  {
  }

  /** Appending a sparse chunk made for `f`. */
  lemma HoldsSparse<V>(a: Ctx<V>, f: Fpa<V>, chunk: seq<SparseEntry>, es: seq<nat>,
                           chunks: seq<seq<CompressedGroup>>, entries: seq<seq<nat>>, open: set<nat>,
                           sparseChunks: seq<seq<SparseEntry>>, sparseEntries: seq<seq<nat>>, cache: map<FNode<V>, nat>)
    requires Holds(a, chunks, entries, open, sparseChunks, sparseEntries, cache)
    requires SparseMade(a, chunk, es, f)
    ensures Holds(a.(sparse := a.sparse + [f]), chunks, entries, open, sparseChunks + [chunk], sparseEntries + [es], cache)
  {
    var b := a.(sparse := a.sparse + [f]);
    forall i | 0 <= i < |chunks| && i !in open ensures CompressedMade(b, chunks[i], entries[i], b.compressed[i]) {
      AllDenoteMono(a, b, entries[i], a.compressed[i].table);
    }
    forall i | 0 <= i < |sparseChunks| + 1 ensures SparseMade(b, (sparseChunks + [chunk])[i], (sparseEntries + [es])[i], b.sparse[i]) {
      if i < |sparseChunks| {
        AllDenoteMono(a, b, sparseEntries[i], a.sparse[i].table);
      } else {
        AllDenoteMono(a, b, es, f.table);
      }
    }
    forall n | n in cache ensures Denotes(b, cache[n], n) {
      DenotesMono(a, b, cache[n], n);
    }
  }

  /** What a denoting entry gives the lookup: `lookupEntry == 0` exactly for
      a slot without nested array or value; otherwise `getType` names the
      kind of slot and `getIndex` the list position made for it. */
  lemma DenotedEntry<V>(cx: Ctx<V>, e: nat, n: FNode<V>)
    requires Denotes(cx, e, n) && Small(cx) && |cx.results| > 0 && cx.results[0] == None
    ensures e == 0 <==> n.next.None? && n.value.None?
    ensures n.next.None? ==> EntryType(e) == TypeLeaf && LeafIs(cx.results, EntryIndex(e), n.value)
    ensures n.next.Some? && SparseBranch(n.next.value, cx.k) ==>
              EntryType(e) == TypeSparse && EntryIndex(e) < |cx.sparse| && cx.sparse[EntryIndex(e)] == n.next.value
    ensures n.next.Some? && !SparseBranch(n.next.value, cx.k) ==>
              EntryType(e) == TypeCompressed && EntryIndex(e) < |cx.compressed| && cx.compressed[EntryIndex(e)] == n.next.value
  {
    var t := if n.next.None? then TypeLeaf else if SparseBranch(n.next.value, cx.k) then TypeSparse else TypeCompressed;
    var idx: nat :| e == EncodeUnmasked(t, idx) &&
                    (if t == TypeLeaf then LeafIs(cx.results, idx, n.value)
                     else if t == TypeSparse then idx < |cx.sparse| && cx.sparse[idx] == n.next.value
                     else idx < |cx.compressed| && cx.compressed[idx] == n.next.value);
    assert idx < IndexSpan;
    UnmaskedAgrees(t, idx);
    DecodeEncode(t, idx);
    DivModUnique(idx, IndexSpan, 0, idx);
    EncodeZero(t, idx);
  }

  /** A value has one LEAF entry. */
  lemma LeafEntryUnique<V>(cx: Ctx<V>, index: map<V, nat>, e1: nat, e2: nat, n: FNode<V>)
    requires Indexed(cx.results, index) && |cx.results| > 0 && cx.results[0] == None
    requires n.next.None? && Denotes(cx, e1, n) && Denotes(cx, e2, n)
    ensures e1 == e2
  {
    var i: nat :| e1 == EncodeUnmasked(TypeLeaf, i) && LeafIs(cx.results, i, n.value);
    var j: nat :| e2 == EncodeUnmasked(TypeLeaf, j) && LeafIs(cx.results, j, n.value);
    LeafIsUnique(cx.results, index, i, j, n.value);
  }

  /** A slot nested at most once has a nested array, if any, of slots
      without nested arrays, and those are nested at most once too. */
  lemma NestedOnce<V>(n: FNode<V>)
    requires NestedWithin(n, 1) && n.next.Some?
    ensures Leaves(n.next.value) && Nested1(n.next.value)
  {
    var ts := n.next.value.table;
    forall s | 0 <= s < |ts| ensures ts[s].next.None? && NestedWithin(ts[s], 1) {
      assert NestedWithin(ts[s], 0);
    }
  }

  /** Caching an entry that stands for its slot keeps the invariant. */
  lemma HoldsCache<V>(cx: Ctx<V>, chunks: seq<seq<CompressedGroup>>, entries: seq<seq<nat>>, open: set<nat>,
                      sparseChunks: seq<seq<SparseEntry>>, sparseEntries: seq<seq<nat>>, cache: map<FNode<V>, nat>,
                      n: FNode<V>, e: nat)
    requires Holds(cx, chunks, entries, open, sparseChunks, sparseEntries, cache) && Denotes(cx, e, n)
    ensures Holds(cx, chunks, entries, open, sparseChunks, sparseEntries, cache[n := e])
  {
  }

  /** `idx >> 6`, `(idx >> 3) & 7` and `idx & 7` of a slot of a 256-slot
      array: its group, its cluster within the group and its bit. */
  lemma SlotPlace(idx: nat)
    requires idx < 256
    ensures idx / 64 < 4 && (idx / 8) % 8 < 8
    ensures idx == 64 * (idx / 64) + 8 * ((idx / 8) % 8) + idx % 8
  {
    var q, r := idx / 64, idx % 64;
    var c, b := r / 8, r % 8;
    DivModUnique(idx, 8, 8 * q + c, b);
    DivModUnique(8 * q + c, 8, q, c);
  }

  /** Pass 1's test `idx == 0 || (groupIdx > 0 && clusterIdx == 0 &&
      bitIdx == 0)` picks the first slot of each group. */
  lemma GroupStart(idx: nat)
    requires idx < 256
    ensures (idx == 0 || (idx / 64 > 0 && (idx / 8) % 8 == 0 && idx % 8 == 0)) <==> idx == 64 * (idx / 64)
  {
    SlotPlace(idx);
  }

  // ---------------------------------------------------------------------
  // The builder's calls as functions of the lists
  // ---------------------------------------------------------------------

  /** What `build` has made so far: `compressedChunkList`,
      `sparseChunkList`, `resultList` with `idxTable`, and `nodeCache`;
      and, for the proofs, the array each chunk was made for, the entries
      each was made from and the compressed chunks allocated but not yet
      filled. */
  datatype Lists<V> = Lists(chunks: seq<seq<CompressedGroup>>, sparseChunks: seq<seq<SparseEntry>>,
                            results: seq<Option<V>>, index: map<V, nat>, cache: map<FNode<V>, nat>,
                            compressed: seq<Fpa<V>>, entries: seq<seq<nat>>, open: set<nat>,
                            sparse: seq<Fpa<V>>, sparseEntries: seq<seq<nat>>)

  ghost function Cx<V>(st: Lists<V>, k: int): Ctx<V> {
    Ctx(st.compressed, st.sparse, st.results, k)
  }

  /** The lists are meaningful: `resultList` starts with `null` and agrees
      with `idxTable`, and `Holds`. */
  ghost predicate Inv<V>(st: Lists<V>, k: int) {
    Indexed(st.results, st.index) && |st.results| > 0 && st.results[0] == None &&
    Holds(Cx(st, k), st.chunks, st.entries, st.open, st.sparseChunks, st.sparseEntries, st.cache)
  }

  /** Each compressed chunk has its row of entries. */
  ghost predicate Aligned<V>(st: Lists<V>) {
    |st.chunks| == |st.entries|
  }

  /** A call only adds chunks and cached entries. */
  ghost predicate Extends<V>(a: Lists<V>, b: Lists<V>) {
    |a.chunks| <= |b.chunks| && Aligned(b) && CacheExtends(a.cache, b.cache)
  }

  /** The lists grow and the same chunks stay open. */
  ghost predicate Steps<V>(a: Lists<V>, b: Lists<V>, k: int) {
    Grows(Cx(a, k), Cx(b, k)) && b.open == a.open
  }

  /** `encodeLookupEntry(TYPE_LEAF, getValueIndex(value, idxTable))`. */
  ghost function LeafOf<V>(st: Lists<V>, value: Option<V>): (r: (Lists<V>, nat))
    ensures r.0.chunks == st.chunks && r.0.entries == st.entries && r.0.cache == st.cache
  {
    var (results, index, idx) := Stored(st.results, st.index, value);
    (st.(results := results, index := index), EncodeUnmasked(TypeLeaf, idx))
  }

  /** `buildLookupEntry(node, …)`: the cached entry, if any; else the
      entry `Uncached` makes, cached. */
  ghost function Entry<V>(st: Lists<V>, node: FNode<V>, k: int): (r: (Lists<V>, nat))
    requires Aligned(st) && NodeByteLevels(node)
    ensures Extends(st, r.0) && node in r.0.cache && r.0.cache[node] == r.1
    ensures node.next.None? ==> |r.0.chunks| == |st.chunks|
    decreases node, 5
  {
    if node in st.cache then (st, st.cache[node])
    else
      var (st', e) := Uncached(st, node, k);
      (st'.(cache := st'.cache[node := e]), e)
  }

  /** `buildLookupEntry` on a slot not cached: LEAF of the value's index,
      SPARSE of the new sparse chunk, or COMPRESSED of the last compressed
      chunk once a new one is built. */
  ghost function Uncached<V>(st: Lists<V>, node: FNode<V>, k: int): (r: (Lists<V>, nat))
    requires Aligned(st) && NodeByteLevels(node)
    ensures Extends(st, r.0)
    ensures node.next.None? ==> |r.0.chunks| == |st.chunks|
    decreases node, 4
  {
    if node.next.None? then LeafOf(st, node.value)
    else if SparseBranch(node.next.value, k) then
      var (s, i) := Sparse(st, node.next.value, k);
      (s, EncodeUnmasked(TypeSparse, i))
    else
      var s := Dense(st, node.next.value, k);
      (s, EncodeUnmasked(TypeCompressed, |s.chunks| - 1))
  }

  /** `processSparseBranch(f, …)`: slot 0's entry, every other slot's, and
      the sparse chunk of those entries appended; its index. */
  ghost function Sparse<V>(st: Lists<V>, f: Fpa<V>, k: int): (r: (Lists<V>, nat))
    requires Aligned(st) && ByteLevel(f)
    ensures Extends(st, r.0)
    ensures Leaves(f) ==> |r.0.chunks| == |st.chunks|
    decreases f, 3
  {
    var (s0, d) := Entry(st, f.table[0], k);
    var (s1, es) := SparseSlots(s0, f, k, d, 0, []);
    (s1.(sparseChunks := s1.sparseChunks + [SparseOf(f.table, es)], sparseEntries := s1.sparseEntries + [es],
         sparse := s1.sparse + [f]),
     |s1.sparseChunks|)
  }

  /** The loop of `processSparseBranch` from slot `idx` on, with the
      entries `es` of the earlier slots: a slot equal to slot 0 has slot
      0's entry `d`, any other its own. */
  ghost function SparseSlots<V>(st: Lists<V>, f: Fpa<V>, k: int, d: nat, idx: nat, es: seq<nat>): (r: (Lists<V>, seq<nat>))
    requires Aligned(st) && ByteLevel(f) && idx <= 256 && |es| == idx
    ensures Extends(st, r.0) && |r.1| == 256 && es <= r.1
    ensures Leaves(f) ==> |r.0.chunks| == |st.chunks|
    decreases f, 1, 256 - idx
  {
    if idx == 256 then (st, es)
    else if f.table[idx] != f.table[0] then
      var (s, e) := Entry(st, f.table[idx], k);
      SparseSlots(s, f, k, d, idx + 1, es + [e])
    else SparseSlots(st, f, k, d, idx + 1, es + [d])
  }

  /** `allocateCompressedChunk()` for `f`: an empty chunk appended, open. */
  ghost function Allocate<V>(st: Lists<V>, f: Fpa<V>): (r: Lists<V>)
    ensures Aligned(st) ==> Aligned(r)
    ensures |r.chunks| == |st.chunks| + 1 && r.cache == st.cache
  {
    st.(chunks := st.chunks + [[]], entries := st.entries + [[]], compressed := st.compressed + [f],
        open := st.open + {|st.chunks|})
  }

  /** A compressed chunk made for `f`, as pass 3 lays it out: each group
      has the default `defaults[g]` and flags the slots whose entry differs
      from it. */
  function GroupsFrom(es: seq<nat>, defaults: seq<nat>): (r: seq<CompressedGroup>)
    requires |es| == 256 && |defaults| == 4
    ensures |r| == 4
  {
    seq(4, g requires 0 <= g < 4 => GroupFrom(es[64 * g..64 * g + 64], defaults[g]))
  }

  function GroupFrom(es: seq<nat>, d: nat): CompressedGroup
    requires |es| == 64
  {
    var flags := DefaultFlags(es, d);
    CompressedGroup(seq(8, c requires 0 <= c < 8 => CodeWord(flags, c)), d, Heads(es, flags, 64))
  }

  /** Which entries differ from `d`. */
  function DefaultFlags(es: seq<nat>, d: nat): (r: seq<bool>)
    ensures |r| == |es|
  {
    seq(|es|, s requires 0 <= s < |es| => es[s] != d)
  }

  /** `buildCompressedGroups(f, chunk)` on the open chunk `ci`: the
      defaults (pass 1), every slot's entry (pass 2), and the groups put in
      place of the chunk (pass 3), which closes. */
  ghost function Compressed<V>(st: Lists<V>, f: Fpa<V>, k: int, ci: nat): (r: Lists<V>)
    requires Aligned(st) && ByteLevel(f) && ci < |st.chunks|
    ensures Extends(st, r)
    ensures Leaves(f) ==> |r.chunks| == |st.chunks|
    decreases f, 3
  {
    var (s, groups, es) := Passes(st, f, k);
    s.(chunks := s.chunks[ci := groups], entries := s.entries[ci := es], open := s.open - {ci})
  }

  /** The three passes of `buildCompressedGroups`: the lists after them,
      the four groups and the entries of the 256 slots. */
  ghost function Passes<V>(st: Lists<V>, f: Fpa<V>, k: int): (r: (Lists<V>, seq<CompressedGroup>, seq<nat>))
    requires Aligned(st) && ByteLevel(f)
    ensures Extends(st, r.0) && |r.2| == 256
    ensures Leaves(f) ==> |r.0.chunks| == |st.chunks|
    decreases f, 2
  {
    var (s1, d) := Defaults(st, f, k, 0, [0, 0, 0, 0]);
    var (s2, es) := Slots(s1, f, k, 0, []);
    (s2, GroupsFrom(es, d), es)
  }

  /** A compressed chunk allocated for `f` and built. */
  ghost function Dense<V>(st: Lists<V>, f: Fpa<V>, k: int): (r: Lists<V>)
    requires Aligned(st) && ByteLevel(f)
    ensures Extends(st, r) && |r.chunks| > |st.chunks|
    ensures Leaves(f) ==> |r.chunks| == |st.chunks| + 1
    decreases f, 4
  {
    Compressed(Allocate(st, f), f, k, |st.chunks|)
  }

  /** Pass 1 from slot `idx` on: the first slot of each group gives the
      group's default, LEAF of its value's index (not cached) when it has
      no nested array, `buildLookupEntry` otherwise. */
  ghost function Defaults<V>(st: Lists<V>, f: Fpa<V>, k: int, idx: nat, d: seq<nat>): (r: (Lists<V>, seq<nat>))
    requires Aligned(st) && ByteLevel(f) && idx <= 256 && |d| == 4
    ensures Extends(st, r.0) && |r.1| == 4
    ensures Leaves(f) ==> |r.0.chunks| == |st.chunks|
    decreases f, 1, 256 - idx
  {
    if idx == 256 then (st, d)
    else
      var node := f.table[idx];
      if idx == 0 || (idx / 64 > 0 && (idx / 8) % 8 == 0 && idx % 8 == 0) then
        var (s, e) := if node.next.None? then LeafOf(st, node.value) else Entry(st, node, k);
        Defaults(s, f, k, idx + 1, d[idx / 64 := e])
      else Defaults(st, f, k, idx + 1, d)
  }

  /** Pass 2 from slot `idx` on, with the entries `es` of the earlier
      slots: every slot's entry from `buildLookupEntry`. */
  ghost function Slots<V>(st: Lists<V>, f: Fpa<V>, k: int, idx: nat, es: seq<nat>): (r: (Lists<V>, seq<nat>))
    requires Aligned(st) && ByteLevel(f) && idx <= 256 && |es| == idx
    ensures Extends(st, r.0) && |r.1| == 256 && es <= r.1
    ensures Leaves(f) ==> |r.0.chunks| == |st.chunks|
    decreases f, 1, 256 - idx
  {
    if idx == 256 then (st, es)
    else
      var (s, e) := Entry(st, f.table[idx], k);
      Slots(s, f, k, idx + 1, es + [e])
  }

  /** After pass 2 every slot's entry is in the cache. */
  lemma {:induction false} SlotsCached<V>(st: Lists<V>, f: Fpa<V>, k: int, idx: nat, es: seq<nat>)
    requires Aligned(st) && ByteLevel(f) && idx <= 256 && |es| == idx
    requires forall s :: 0 <= s < idx ==> f.table[s] in st.cache && st.cache[f.table[s]] == es[s]
    ensures var r := Slots(st, f, k, idx, es);
      forall s :: 0 <= s < 256 ==> f.table[s] in r.0.cache && r.0.cache[f.table[s]] == r.1[s]
    decreases 256 - idx
  {
    if idx < 256 {
      var (s, e) := Entry(st, f.table[idx], k);
      SlotsCached(s, f, k, idx + 1, es + [e]);
    }
  }

  /** `processLevel(root, rootChunk, …)` from root slot `idx` on, with the
      entries `es` written for the earlier slots: LEAF of the value's
      index, SPARSE of a new sparse chunk or COMPRESSED of the chunk
      `processDenseBranch` allocates; nothing is cached at this level. */
  ghost function Level<V>(st: Lists<V>, root: Fpa<V>, k: int, idx: nat, es: seq<nat>): (r: (Lists<V>, seq<nat>))
    requires Aligned(st) && RootShape(root) && idx <= |root.table| && |es| == idx
    ensures Aligned(r.0) && |r.1| == |root.table| && es <= r.1
    decreases |root.table| - idx
  {
    if idx == |root.table| then (st, es)
    else
      var (s, e) := RootEntry(st, root.table[idx], k);
      Level(s, root, k, idx + 1, es + [e])
  }

  /** One root slot of `processLevel`: LEAF of the value's index, SPARSE
      of a new sparse chunk, or COMPRESSED of the index the chunk
      `processDenseBranch` allocates has when it is allocated. */
  ghost function RootEntry<V>(st: Lists<V>, node: FNode<V>, k: int): (r: (Lists<V>, nat))
    requires Aligned(st) && NodeByteLevels(node)
    ensures Extends(st, r.0)
  {
    if node.next.None? then LeafOf(st, node.value)
    else if SparseBranch(node.next.value, k) then
      var (s, i) := Sparse(st, node.next.value, k);
      (s, EncodeUnmasked(TypeSparse, i))
    else (Dense(st, node.next.value, k), EncodeUnmasked(TypeCompressed, |st.chunks|))
  }
}

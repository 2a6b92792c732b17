/** What the older tree's builder calls achieve, proved on their functional
    form (`RootBuild`): each call keeps the lists meaningful (`Inv`), only
    grows them and leaves the same chunks open, and returns an entry that
    stands for its slot (`Denotes`). The walk the tree is built for has 16
    bits at the root and two 8-bit levels below, so a root slot is nested
    at most twice and a slot below the root at most once. */
module RootMeaning {
  import opened Wrappers
  import opened Bits
  import opened Fpas
  import opened LookupEntries
  import opened ValueTables
  import opened ChangeCodes
  import opened TreeSpecs
  import opened RootCodes
  import opened RootBuild

  /** A call from `a` to `b` kept the lists meaningful, only grew them and
      left the same chunks open. */
  ghost predicate Kept<V>(a: Lists<V>, b: Lists<V>, k: int) {
    Inv(b, k) && Steps(a, b, k)
  }

  lemma KeptTrans<V>(a: Lists<V>, b: Lists<V>, c: Lists<V>, k: int)
    requires Kept(a, b, k) && Kept(b, c, k)
    ensures Kept(a, c, k)
  {
  }

  /** The first `|es|` slots of `ts` have the entries `es`. */
  ghost predicate DenoteUpTo<V>(cx: Ctx<V>, es: seq<nat>, ts: seq<FNode<V>>) {
    |es| <= |ts| && forall s :: 0 <= s < |es| ==> Denotes(cx, es[s], ts[s])
  }

  lemma DenoteUpToMono<V>(a: Ctx<V>, b: Ctx<V>, es: seq<nat>, ts: seq<FNode<V>>)
    requires Grows(a, b) && DenoteUpTo(a, es, ts)
    ensures DenoteUpTo(b, es, ts)
  {
    forall s | 0 <= s < |es| ensures Denotes(b, es[s], ts[s]) {
      DenotesMono(a, b, es[s], ts[s]);
    }
  }

  lemma DenoteUpToSnoc<V>(cx: Ctx<V>, es: seq<nat>, ts: seq<FNode<V>>, e: nat)
    requires DenoteUpTo(cx, es, ts) && |es| < |ts| && Denotes(cx, e, ts[|es|])
    ensures DenoteUpTo(cx, es + [e], ts)
  {
  }

  /** The default of group `g` picked by pass 1 stands for the group's first
      slot, and is that slot's cached entry when the slot has a nested
      array. */
  ghost predicate DefaultAt<V>(st: Lists<V>, f: Fpa<V>, k: int, d: seq<nat>, g: nat)
    requires |f.table| == 256 && |d| == 4 && g < 4
  {
    Denotes(Cx(st, k), d[g], f.table[64 * g]) &&
    (f.table[64 * g].next.Some? ==> f.table[64 * g] in st.cache && st.cache[f.table[64 * g]] == d[g])
  }

  /** The defaults of the groups whose first slot lies before slot `n`. */
  ghost predicate DefaultsUpTo<V>(st: Lists<V>, f: Fpa<V>, k: int, d: seq<nat>, n: nat)
    requires |f.table| == 256 && |d| == 4
  {
    forall g :: 0 <= g < 4 && 64 * g < n ==> DefaultAt(st, f, k, d, g)
  }

  lemma DefaultAtMono<V>(a: Lists<V>, b: Lists<V>, f: Fpa<V>, k: int, d: seq<nat>, g: nat)
    requires |f.table| == 256 && |d| == 4 && g < 4
    requires Grows(Cx(a, k), Cx(b, k)) && CacheExtends(a.cache, b.cache) && DefaultAt(a, f, k, d, g)
    ensures DefaultAt(b, f, k, d, g)
  {
    DenotesMono(Cx(a, k), Cx(b, k), d[g], f.table[64 * g]);
  }

  /** Groups laid out against the defaults of their first slots are the
      compressed chunk of the entries. */
  lemma GroupsFromFirst(es: seq<nat>, d: seq<nat>)
    requires |es| == 256 && |d| == 4
    requires forall g :: 0 <= g < 4 ==> d[g] == es[64 * g]
    ensures GroupsFrom(es, d) == CompressedOf(es)
  {
    forall g | 0 <= g < 4 ensures GroupsFrom(es, d)[g] == CompressedOf(es)[g] {
      var es64 := es[64 * g..64 * g + 64];
      assert DefaultFlags(es64, d[g]) == Flags(es64);
    }
  }

  /** `getValueIndex`: the lists stay meaningful and the LEAF entry stands
      for a slot holding the value. */
  lemma LeafKept<V>(st: Lists<V>, node: FNode<V>, k: int)
    requires Inv(st, k) && node.next.None?
    ensures var r := LeafOf(st, node.value);
            Kept(st, r.0, k) && Denotes(Cx(r.0, k), r.1, node)
  {
    var (results, index, idx) := Stored(st.results, st.index, node.value);
    StoredIndexed(st.results, st.index, node.value);
    var r := LeafOf(st, node.value);
    HoldsMono(Cx(st, k), Cx(r.0, k), st.chunks, st.entries, st.open, st.sparseChunks, st.sparseEntries, st.cache);
    assert LeafIs(r.0.results, idx, node.value);
  }

  /** `buildLookupEntry` on a slot nested at most once. */
  lemma {:induction false} EntryKept<V>(st: Lists<V>, node: FNode<V>, k: int)
    requires Aligned(st) && Inv(st, k) && NodeByteLevels(node) && NestedWithin(node, 1)
    ensures var r := Entry(st, node, k);
            Kept(st, r.0, k) && Denotes(Cx(r.0, k), r.1, node)
    decreases node, 5
  {
    if node !in st.cache {
      var (st', e) := Uncached(st, node, k);
      UncachedKept(st, node, k);
      HoldsCache(Cx(st', k), st'.chunks, st'.entries, st'.open, st'.sparseChunks, st'.sparseEntries, st'.cache, node, e);
    }
  }

  lemma {:induction false} UncachedKept<V>(st: Lists<V>, node: FNode<V>, k: int)
    requires Aligned(st) && Inv(st, k) && NodeByteLevels(node) && NestedWithin(node, 1)
    ensures var r := Uncached(st, node, k);
            Kept(st, r.0, k) && Denotes(Cx(r.0, k), r.1, node)
    decreases node, 4
  {
    if node.next.None? {
      LeafKept(st, node, k);
    } else {
      var f := node.next.value;
      NestedOnce(node);
      if SparseBranch(f, k) {
        var (s, i) := Sparse(st, f, k);
        SparseKept(st, f, k);
        assert EncodeUnmasked(TypeSparse, i) == EncodeUnmasked(TypeSparse, i) && i < |s.sparse| && s.sparse[i] == f;
      } else {
        var s := Dense(st, f, k);
        DenseKept(st, f, k);
        var i := |s.chunks| - 1;
        assert i == |st.chunks|;
        assert EncodeUnmasked(TypeCompressed, i) == EncodeUnmasked(TypeCompressed, i) && i < |s.compressed| && s.compressed[i] == f;
      }
    }
  }

  /** `processSparseBranch`: the new sparse chunk is made for `f` and its
      index returned. */
  lemma {:induction false} SparseKept<V>(st: Lists<V>, f: Fpa<V>, k: int)
    requires Aligned(st) && Inv(st, k) && ByteLevel(f) && Nested1(f)
    ensures var r := Sparse(st, f, k);
            Kept(st, r.0, k) && r.1 < |r.0.sparse| && r.0.sparse[r.1] == f
    decreases f, 3
  {
    var (s0, d) := Entry(st, f.table[0], k);
    EntryKept(st, f.table[0], k);
    var (s1, es) := SparseSlots(s0, f, k, d, 0, []);
    SparseSlotsKept(s0, f, k, d, 0, []);
    var r := Sparse(st, f, k);
    assert r.0 == Appended(s1, f, es);
    AppendedKept(s1, f, es, k);
    KeptTrans(st, s0, s1, k);
    KeptTrans(st, s1, r.0, k);
  }

  /** The lists once the sparse chunk made for `f` from `es` is appended. */
  ghost function Appended<V>(st: Lists<V>, f: Fpa<V>, es: seq<nat>): Lists<V>
    requires |f.table| == |es| > 0
  {
    st.(sparseChunks := st.sparseChunks + [SparseOf(f.table, es)], sparseEntries := st.sparseEntries + [es],
        sparse := st.sparse + [f])
  }

  lemma AppendedKept<V>(st: Lists<V>, f: Fpa<V>, es: seq<nat>, k: int)
    requires Inv(st, k) && |f.table| == 256 && AllDenote(Cx(st, k), es, f.table)
    ensures Kept(st, Appended(st, f, es), k)
    ensures |st.sparseChunks| < |Appended(st, f, es).sparse| && Appended(st, f, es).sparse[|st.sparseChunks|] == f
  {
    var cx := Cx(st, k);
    HoldsSparse(cx, f, SparseOf(f.table, es), es, st.chunks, st.entries, st.open, st.sparseChunks, st.sparseEntries, st.cache);
    assert Cx(Appended(st, f, es), k) == cx.(sparse := cx.sparse + [f]);
  }

  /** The loop of `processSparseBranch`: every slot gets an entry standing
      for it, slot 0's entry `d` for the slots equal to slot 0. */
  lemma {:induction false} SparseSlotsKept<V>(st: Lists<V>, f: Fpa<V>, k: int, d: nat, idx: nat, es: seq<nat>)
    requires Aligned(st) && Inv(st, k) && ByteLevel(f) && Nested1(f) && idx <= 256 && |es| == idx
    requires Denotes(Cx(st, k), d, f.table[0]) && DenoteUpTo(Cx(st, k), es, f.table)
    ensures var r := SparseSlots(st, f, k, d, idx, es);
            Kept(st, r.0, k) && AllDenote(Cx(r.0, k), r.1, f.table)
    decreases f, 1, 256 - idx
  {
    if idx < 256 {
      var s, e := SparseSlotStep(st, f, k, d, idx, es);
      SparseSlotsKept(s, f, k, d, idx + 1, es + [e]);
      KeptTrans(st, s, SparseSlots(st, f, k, d, idx, es).0, k);
    }
  }

  /** One round of the loop of `processSparseBranch`: slot `idx` gets slot
      0's entry when it equals slot 0, its own entry otherwise. */
  lemma {:induction false} SparseSlotStep<V>(st: Lists<V>, f: Fpa<V>, k: int, d: nat, idx: nat, es: seq<nat>)
      returns (s: Lists<V>, e: nat)
    requires Aligned(st) && Inv(st, k) && ByteLevel(f) && Nested1(f) && idx < 256 && |es| == idx
    requires Denotes(Cx(st, k), d, f.table[0]) && DenoteUpTo(Cx(st, k), es, f.table)
    ensures Aligned(s) && Kept(st, s, k)
    ensures SparseSlots(st, f, k, d, idx, es) == SparseSlots(s, f, k, d, idx + 1, es + [e])
    ensures Denotes(Cx(s, k), d, f.table[0]) && DenoteUpTo(Cx(s, k), es + [e], f.table)
    decreases f, 0
  {
    if f.table[idx] != f.table[0] {
      s, e := Entry(st, f.table[idx], k).0, Entry(st, f.table[idx], k).1;
      EntryKept(st, f.table[idx], k);
      DenotesMono(Cx(st, k), Cx(s, k), d, f.table[0]);
      DenoteUpToMono(Cx(st, k), Cx(s, k), es, f.table);
    } else {
      s, e := st, d;
    }
    DenoteUpToSnoc(Cx(s, k), es, f.table, e);
  }

  /** `processDenseBranch` and the dense case of `buildLookupEntry`: the
      chunk allocated at the end of the list is made for `f`, and no chunk
      stays open. */
  lemma {:induction false} DenseKept<V>(st: Lists<V>, f: Fpa<V>, k: int)
    requires Aligned(st) && Inv(st, k) && ByteLevel(f) && Nested1(f)
    ensures var r := Dense(st, f, k);
            Kept(st, r, k) && |st.chunks| < |r.compressed| && r.compressed[|st.chunks|] == f
    decreases f, 4
  {
    var ci := |st.chunks|;
    var a := Allocate(st, f);
    HoldsAllocate(Cx(st, k), f, st.chunks, st.entries, st.open, st.sparseChunks, st.sparseEntries, st.cache);
    assert Cx(a, k) == Cx(st, k).(compressed := st.compressed + [f]);
    assert ci !in st.open;
    CompressedKept(a, f, k, ci);
    assert a.open - {ci} == st.open;
  }

  /** `buildCompressedGroups` into the open chunk `ci` made for `f`: the
      chunk is filled with the compressed chunk of the slots' entries and
      closes. */
  lemma {:induction false} CompressedKept<V>(st: Lists<V>, f: Fpa<V>, k: int, ci: nat)
    requires Aligned(st) && Inv(st, k) && ByteLevel(f) && Nested1(f)
    requires ci < |st.chunks| && ci in st.open && st.compressed[ci] == f
    ensures var r := Compressed(st, f, k, ci);
            Inv(r, k) && Grows(Cx(st, k), Cx(r, k)) && r.open == st.open - {ci}
    decreases f, 3
  {
    var (s, groups, es) := Passes(st, f, k);
    PassesKept(st, f, k);
    HoldsClose(Cx(s, k), ci, groups, es, s.chunks, s.entries, s.open, s.sparseChunks, s.sparseEntries, s.cache);
  }

  /** The three passes: every slot's entry stands for it and the groups are
      the compressed chunk of those entries. */
  lemma {:induction false} PassesKept<V>(st: Lists<V>, f: Fpa<V>, k: int)
    requires Aligned(st) && Inv(st, k) && ByteLevel(f) && Nested1(f)
    ensures var r := Passes(st, f, k);
            Kept(st, r.0, k) && AllDenote(Cx(r.0, k), r.2, f.table) && r.1 == CompressedOf(r.2)
    decreases f, 2
  {
    var (s1, d) := Defaults(st, f, k, 0, [0, 0, 0, 0]);
    DefaultsKept(st, f, k, 0, [0, 0, 0, 0]);
    assert DefaultsUpTo(s1, f, k, d, 256);
    var (s2, es) := Slots(s1, f, k, 0, []);
    SlotsKept(s1, f, k, 0, []);
    SlotsCached(s1, f, k, 0, []);
    forall g | 0 <= g < 4 ensures d[g] == es[64 * g] {
      assert 64 * g < 256;
      DefaultIsFirst(s1, s2, f, k, d, es, g);
    }
    GroupsFromFirst(es, d);
  }

  /** Pass 1's default of a group is the entry pass 2 gives its first
      slot: the cached entry for a slot with a nested array, the one LEAF
      entry of its value otherwise. */
  lemma DefaultIsFirst<V>(s1: Lists<V>, s2: Lists<V>, f: Fpa<V>, k: int, d: seq<nat>, es: seq<nat>, g: nat)
    requires |f.table| == 256 && |d| == 4 && |es| == 256 && g < 4
    requires DefaultAt(s1, f, k, d, g) && Inv(s2, k) && Grows(Cx(s1, k), Cx(s2, k)) && CacheExtends(s1.cache, s2.cache)
    requires AllDenote(Cx(s2, k), es, f.table)
    requires forall s :: 0 <= s < 256 ==> f.table[s] in s2.cache && s2.cache[f.table[s]] == es[s]
    ensures d[g] == es[64 * g]
  {
    var node := f.table[64 * g];
    if node.next.None? {
      DenotesMono(Cx(s1, k), Cx(s2, k), d[g], node);
      LeafEntryUnique(Cx(s2, k), s2.index, d[g], es[64 * g], node);
    }
  }

  /** Pass 1 from slot `idx` on. */
  lemma {:induction false} DefaultsKept<V>(st: Lists<V>, f: Fpa<V>, k: int, idx: nat, d: seq<nat>)
    requires Aligned(st) && Inv(st, k) && ByteLevel(f) && Nested1(f) && idx <= 256 && |d| == 4
    requires DefaultsUpTo(st, f, k, d, idx)
    ensures var r := Defaults(st, f, k, idx, d);
            Kept(st, r.0, k) && CacheExtends(st.cache, r.0.cache) && DefaultsUpTo(r.0, f, k, r.1, 256)
    decreases f, 1, 256 - idx
  {
    if idx < 256 {
      var node := f.table[idx];
      var first := idx == 0 || (idx / 64 > 0 && (idx / 8) % 8 == 0 && idx % 8 == 0);
      GroupStart(idx);
      var (s, e) := if !first then (st, 0) else if node.next.None? then LeafOf(st, node.value) else Entry(st, node, k);
      var d' := if first then d[idx / 64 := e] else d;
      if first && node.next.None? {
        LeafKept(st, node, k);
      } else if first {
        EntryKept(st, node, k);
      }
      DefaultsStep(st, s, f, k, idx, d, d');
      var r := Defaults(st, f, k, idx, d);
      assert r == Defaults(s, f, k, idx + 1, d');
      DefaultsKept(s, f, k, idx + 1, d');
      KeptTrans(st, s, r.0, k);
    }
  }

  /** One round of pass 1 keeps the defaults of the groups whose first
      slot it has passed. */
  lemma DefaultsStep<V>(st: Lists<V>, s: Lists<V>, f: Fpa<V>, k: int, idx: nat, d: seq<nat>, d': seq<nat>)
    requires |f.table| == 256 && idx < 256 && |d| == 4
    requires Grows(Cx(st, k), Cx(s, k)) && CacheExtends(st.cache, s.cache)
    requires DefaultsUpTo(st, f, k, d, idx) && |d'| == 4
    requires idx == 64 * (idx / 64) ==> d' == d[idx / 64 := d'[idx / 64]] && DefaultAt(s, f, k, d', idx / 64)
    requires idx != 64 * (idx / 64) ==> d' == d
    ensures DefaultsUpTo(s, f, k, d', idx + 1)
  {
    forall g | 0 <= g < 4 && 64 * g < idx + 1 ensures DefaultAt(s, f, k, d', g) {
      if g != idx / 64 || idx != 64 * (idx / 64) {
        assert 64 * g < idx;
        DefaultAtMono(st, s, f, k, d, g);
      }
    }
  }

  /** Pass 2 from slot `idx` on. */
  lemma {:induction false} SlotsKept<V>(st: Lists<V>, f: Fpa<V>, k: int, idx: nat, es: seq<nat>)
    requires Aligned(st) && Inv(st, k) && ByteLevel(f) && Nested1(f) && idx <= 256 && |es| == idx
    requires DenoteUpTo(Cx(st, k), es, f.table)
    ensures var r := Slots(st, f, k, idx, es);
            Kept(st, r.0, k) && AllDenote(Cx(r.0, k), r.1, f.table)
    decreases f, 1, 256 - idx
  {
    if idx < 256 {
      var (s, e) := Entry(st, f.table[idx], k);
      EntryKept(st, f.table[idx], k);
      DenoteUpToMono(Cx(st, k), Cx(s, k), es, f.table);
      DenoteUpToSnoc(Cx(s, k), es, f.table, e);
      var r := Slots(st, f, k, idx, es);
      assert r == Slots(s, f, k, idx + 1, es + [e]);
      SlotsKept(s, f, k, idx + 1, es + [e]);
      KeptTrans(st, s, r.0, k);
    }
  }

  /** One root slot, nested at most twice. */
  lemma RootEntryKept<V>(st: Lists<V>, node: FNode<V>, k: int)
    requires Aligned(st) && Inv(st, k) && NodeByteLevels(node) && NestedWithin(node, 2)
    ensures var r := RootEntry(st, node, k);
            Kept(st, r.0, k) && Denotes(Cx(r.0, k), r.1, node)
  {
    if node.next.None? {
      LeafKept(st, node, k);
    } else {
      var f := node.next.value;
      assert Nested1(f);
      if SparseBranch(f, k) {
        var (s, i) := Sparse(st, f, k);
        SparseKept(st, f, k);
        assert EncodeUnmasked(TypeSparse, i) == EncodeUnmasked(TypeSparse, i) && i < |s.sparse| && s.sparse[i] == f;
      } else {
        var s := Dense(st, f, k);
        var i := |st.chunks|;
        DenseKept(st, f, k);
        assert EncodeUnmasked(TypeCompressed, i) == EncodeUnmasked(TypeCompressed, i) && i < |s.compressed| && s.compressed[i] == f;
      }
    }
  }

  /** Root slots nested at most twice: each slot nested at most twice. */
  ghost predicate Nested2<V>(root: Fpa<V>) {
    forall s :: 0 <= s < |root.table| ==> NestedWithin(root.table[s], 2)
  }

  /** `processLevel` from root slot `idx` on: every root slot's entry stands
      for it. */
  lemma {:induction false} LevelKept<V>(st: Lists<V>, root: Fpa<V>, k: int, idx: nat, es: seq<nat>)
    requires Aligned(st) && Inv(st, k) && RootShape(root) && Nested2(root) && idx <= |root.table| && |es| == idx
    requires DenoteUpTo(Cx(st, k), es, root.table)
    ensures var r := Level(st, root, k, idx, es);
            Kept(st, r.0, k) && AllDenote(Cx(r.0, k), r.1, root.table)
    decreases |root.table| - idx
  {
    if idx < |root.table| {
      var (s, e) := RootEntry(st, root.table[idx], k);
      RootEntryKept(st, root.table[idx], k);
      DenoteUpToMono(Cx(st, k), Cx(s, k), es, root.table);
      DenoteUpToSnoc(Cx(s, k), es, root.table, e);
      var r := Level(st, root, k, idx, es);
      assert r == Level(s, root, k, idx + 1, es + [e]);
      LevelKept(s, root, k, idx + 1, es + [e]);
      KeptTrans(st, s, r.0, k);
    }
  }

  // ---------------------------------------------------------------------
  // What a lookup finds in the built lists
  // ---------------------------------------------------------------------

  /** A filled compressed chunk gives, for every slot of the array it was
      made for, the slot's own entry. */
  lemma BuiltCompressed<V>(st: Lists<V>, k: int, i: nat, s: nat)
    requires Inv(st, k) && i < |st.chunks| && i !in st.open && s < 256
    ensures i < |st.compressed| && |st.entries[i]| == 256 && |st.compressed[i].table| == 256
    ensures Pick(st.chunks[i], s) == Some(st.entries[i][s])
    ensures Denotes(Cx(st, k), st.entries[i][s], st.compressed[i].table[s])
  {
    assert CompressedMade(Cx(st, k), st.chunks[i], st.entries[i], st.compressed[i]);
    ChunkDecode(st.entries[i], s);
  }

  /** A sparse chunk lists the slots differing from slot 0 in slot order,
      then the default; its entries stand for the slots of its array. */
  lemma BuiltSparse<V>(st: Lists<V>, k: int, i: nat)
    requires Inv(st, k) && i < |st.sparseChunks|
    ensures i < |st.sparse| && |st.sparseEntries[i]| == 256 && |st.sparse[i].table| == 256
    ensures var es, ts := st.sparseEntries[i], st.sparse[i].table;
            st.sparseChunks[i] == Heads(Candidates(es, 256), Flags(ts), 256) + [DefaultEntry(es[0])] &&
            AllDenote(Cx(st, k), es, ts)
  {
    assert SparseMade(Cx(st, k), st.sparseChunks[i], st.sparseEntries[i], st.sparse[i]);
    SparseLayout(st.sparse[i].table, st.sparseEntries[i]);
  }

  /** A compressed chunk made for array `f` gives, for slot `s`, an entry
      standing for that slot. */
  lemma CompressedFollow<V>(st: Lists<V>, k: int, i: nat, f: Fpa<V>, s: nat)
    requires Inv(st, k) && i < |st.chunks| && i !in st.open && i < |st.compressed| && st.compressed[i] == f && s < 256
    ensures |f.table| == 256 && Pick(st.chunks[i], s).Some? && Denotes(Cx(st, k), Pick(st.chunks[i], s).value, f.table[s])
  {
    BuiltCompressed(st, k, i, s);
  }

  /** The entry `lookupInSparse` stops at, `j`, in a sparse chunk made for
      array `f`, with `s` the slot the next byte names: a listed entry that
      matches has mask 8 and stands for slot `s`; the default, reached when
      none matches, stands for slot 0, which slot `s` then equals. */
  lemma SparseFollow<V>(st: Lists<V>, k: int, i: nat, f: Fpa<V>, ip: int, off: int, j: nat)
    requires Inv(st, k) && i < |st.sparseChunks| && i < |st.sparse| && st.sparse[i] == f
    requires j < |st.sparseChunks[i]|
    requires forall m :: 0 <= m < j && m < |st.sparseChunks[i]| - 1 ==> !Matches(st.sparseChunks[i][m], ip, off)
    requires j < |st.sparseChunks[i]| - 1 ==> Matches(st.sparseChunks[i][j], ip, off)
    ensures |f.table| == 256
    ensures j < |st.sparseChunks[i]| - 1 ==>
              st.sparseChunks[i][j].mask == 8 && f.table[NextByte(ip, off)] != f.table[0] &&
              Denotes(Cx(st, k), st.sparseChunks[i][j].lookupEntry, f.table[NextByte(ip, off)])
    ensures j == |st.sparseChunks[i]| - 1 ==>
              f.table[NextByte(ip, off)] == f.table[0] && Denotes(Cx(st, k), st.sparseChunks[i][j].lookupEntry, f.table[0])
  {
    BuiltSparse(st, k, i);
    var ts, es := f.table, st.sparseEntries[i];
    var s := NextByte(ip, off);
    var listed := Heads(Candidates(es, 256), Flags(ts), 256);
    assert st.sparseChunks[i][..|listed|] == listed;
    if j < |listed| {
      SparseOnlyMatch(ts, es, ip, off, j);
      CandidateMatches(es, s, ip, off);
    } else if Flags(ts)[s] {
      SparseListed(ts, es, ip, off);
      assert false;
    }
  }
}

/** FPATreeV3's build: a pre-scan that counts the distinct nested arrays
    that become dense and sparse chunks (so the offset arrays can be sized),
    then one pass that lays every distinct nested array out once (a cache
    keyed by array equality), fills the root chunk and freezes the lists
    into arrays. The tree built searches every 4-byte key as the root array
    resolves it. */
module V3Builds {
  import opened Wrappers
  import opened Bits
  import opened Tries
  import opened Fpas
  import opened LookupEntries
  import opened ValueTables
  import opened TreeSpecs
  import opened ChangeCodes
  import opened SparseCodes
  import opened FillSpecs
  import opened Converters
  import opened V3Trees
  import Sorting
  import BitTries

  // ---------------------------------------------------------------------
  // The distinct nested arrays
  // ---------------------------------------------------------------------

  /** The arrays nested, at any depth, below the first `i` slots of `f`. */
  ghost function ReachSlots<V>(f: Fpa<V>, i: nat): set<Fpa<V>>
    requires i <= |f.table|
    decreases f, 0, i
  {
    if i == 0 then {}
    else ReachSlots(f, i - 1) + (if f.table[i - 1].next.Some? then Reach(f.table[i - 1].next.value) else {})
  }

  /** `f` and every array nested below it. */
  ghost function Reach<V>(f: Fpa<V>): set<Fpa<V>>
    decreases f, 1
  {
    {f} + ReachSlots(f, |f.table|)
  }

  /** The nested arrays of the root array: what the pre-scan visits and
      what `processLayer` lays out. */
  ghost function RootReach<V>(root: Fpa<V>): set<Fpa<V>> {
    ReachSlots(root, |root.table|)
  }

  /** A set of arrays that holds the nested array of every slot of each of
      its members. */
  ghost predicate Closed<V>(s: set<Fpa<V>>) {
    forall g, i :: g in s && 0 <= i < |g.table| && g.table[i].next.Some? ==> g.table[i].next.value in s
  }

  /** The depth of the deepest chain of nested arrays from `f`. */
  ghost function Height<V>(f: Fpa<V>): nat
    decreases f, 1
  {
    1 + MaxHeight(f, |f.table|)
  }

  ghost function MaxHeight<V>(f: Fpa<V>, i: nat): nat
    requires i <= |f.table|
    decreases f, 0, i
  {
    if i == 0 then 0
    else
      var h := if f.table[i - 1].next.Some? then Height(f.table[i - 1].next.value) else 0;
      var rest := MaxHeight(f, i - 1);
      if h > rest then h else rest
  }

  lemma {:induction false} MaxHeightAt<V>(f: Fpa<V>, i: nat, s: nat)
    requires s < i <= |f.table| && f.table[s].next.Some?
    ensures Height(f.table[s].next.value) <= MaxHeight(f, i)
  {
    if s < i - 1 {
      MaxHeightAt(f, i - 1, s);
    }
  }

  /** Every value stored in a slot of an array of `s` is in `vals`. */
  ghost predicate Stocked<V>(s: set<Fpa<V>>, vals: set<V>) {
    forall g, i :: g in s && 0 <= i < |g.table| && g.table[i].value.Some? ==> g.table[i].value.value in vals
  }

  /** Whatever `after` adds to `before` is lower than `h`. */
  ghost predicate Grown<V>(before: set<Fpa<V>>, after: set<Fpa<V>>, h: nat) {
    before <= after && forall g :: g in after ==> g in before || Height(g) < h
  }

  /** A nested array is lower than the array that holds it. */
  lemma ChildLower<V>(f: Fpa<V>, s: nat)
    requires s < |f.table| && f.table[s].next.Some?
    ensures Height(f.table[s].next.value) < Height(f)
  {
    MaxHeightAt(f, |f.table|, s);
  }

  /** Everything below the first `i` slots of `f` is lower than `f`. */
  lemma {:induction false} ReachSlotsLower<V>(f: Fpa<V>, i: nat)
    requires i <= |f.table|
    ensures forall g :: g in ReachSlots(f, i) ==> Height(g) < Height(f)
    decreases f, 0, i
  {
    if i > 0 {
      ReachSlotsLower(f, i - 1);
      if f.table[i - 1].next.Some? {
        var c := f.table[i - 1].next.value;
        ChildLower(f, i - 1);
        ReachLower(c);
      }
    }
  }

  lemma {:induction false} ReachLower<V>(f: Fpa<V>)
    ensures forall g :: g in Reach(f) ==> Height(g) <= Height(f)
    decreases f, 1
  {
    ReachSlotsLower(f, |f.table|);
  }

  /** The slot's nested array is among the arrays below the slots. */
  lemma {:induction false} ChildInReachSlots<V>(f: Fpa<V>, i: nat, s: nat)
    requires s < i <= |f.table| && f.table[s].next.Some?
    ensures f.table[s].next.value in ReachSlots(f, i)
  {
    if s < i - 1 {
      ChildInReachSlots(f, i - 1, s);
    }
  }

  /** The arrays below the first `i` slots of `f` lie in every closed set
      that holds `f`. */
  lemma {:induction false} ReachSlotsInClosed<V>(s: set<Fpa<V>>, f: Fpa<V>, i: nat)
    requires Closed(s) && f in s && i <= |f.table|
    ensures ReachSlots(f, i) <= s
    decreases f, 0, i
  {
    if i > 0 {
      ReachSlotsInClosed(s, f, i - 1);
      if f.table[i - 1].next.Some? {
        ReachInClosed(s, f.table[i - 1].next.value);
      }
    }
  }

  lemma {:induction false} ReachInClosed<V>(s: set<Fpa<V>>, f: Fpa<V>)
    requires Closed(s) && f in s
    ensures Reach(f) <= s
    decreases f, 1
  {
    ReachSlotsInClosed(s, f, |f.table|);
  }

  /** Everything below an array reached from the first `i` slots of `f` is
      reached from them too. */
  lemma {:induction false} ReachSlotsTrans<V>(f: Fpa<V>, i: nat, g: Fpa<V>)
    requires i <= |f.table| && g in ReachSlots(f, i)
    ensures Reach(g) <= ReachSlots(f, i)
    decreases f, 0, i
  {
    if g in ReachSlots(f, i - 1) {
      ReachSlotsTrans(f, i - 1, g);
    } else {
      ReachTrans(f.table[i - 1].next.value, g);
    }
  }

  lemma {:induction false} ReachTrans<V>(f: Fpa<V>, g: Fpa<V>)
    requires g in Reach(f)
    ensures Reach(g) <= Reach(f)
    decreases f, 1
  {
    if g != f {
      ReachSlotsTrans(f, |f.table|, g);
    }
  }

  /** The arrays below the first `i` slots of `f` form a closed set. */
  lemma ReachSlotsClosed<V>(f: Fpa<V>, i: nat)
    requires i <= |f.table|
    ensures Closed(ReachSlots(f, i))
  {
    forall g, s | g in ReachSlots(f, i) && 0 <= s < |g.table| && g.table[s].next.Some?
      ensures g.table[s].next.value in ReachSlots(f, i)
    {
      ReachSlotsTrans(f, i, g);
      ChildInReachSlots(g, |g.table|, s);
    }
  }

  /** Below an array of 8-bit levels every array is an 8-bit level. */
  lemma {:induction false} ReachSlotsByteLevel<V>(f: Fpa<V>, i: nat)
    requires i <= |f.table| && forall s :: 0 <= s < i ==> NodeByteLevels(f.table[s])
    ensures forall g :: g in ReachSlots(f, i) ==> ByteLevel(g)
    decreases f, 0, i
  {
    if i > 0 {
      ReachSlotsByteLevel(f, i - 1);
      if f.table[i - 1].next.Some? {
        ReachByteLevel(f.table[i - 1].next.value);
      }
    }
  }

  lemma {:induction false} ReachByteLevel<V>(f: Fpa<V>)
    requires ByteLevel(f)
    ensures forall g :: g in Reach(f) ==> ByteLevel(g)
    decreases f, 1
  {
    ReachSlotsByteLevel(f, |f.table|);
  }

  /** A closed set with `f`'s nested arrays stays closed when `f` joins it. */
  lemma CloseOver<V>(s: set<Fpa<V>>, f: Fpa<V>)
    requires Closed(s)
    requires forall i :: 0 <= i < |f.table| && f.table[i].next.Some? ==> f.table[i].next.value in s
    ensures Closed(s + {f})
  {
  }

  /** The same for the keys of a map that `f` joins. */
  lemma CloseOverKeys<V>(m: map<Fpa<V>, nat>, f: Fpa<V>, e: nat)
    requires Closed(m.Keys)
    requires forall i :: 0 <= i < |f.table| && f.table[i].next.Some? ==> f.table[i].next.value in m
    ensures Closed(m[f := e].Keys)
  {
    CloseOver(m.Keys, f);
    assert m[f := e].Keys == m.Keys + {f};
  }

  // ---------------------------------------------------------------------
  // Dense or sparse
  // ---------------------------------------------------------------------

  /** The entries `processLayer` makes for group `j`: one per run. */
  function GroupCount<V(==)>(f: Fpa<V>, j: nat): nat
    requires |f.table| == 256 && j < 4
  {
    CountTrue(Changes(Group(f, j), true))
  }

  /** The entries of the first `n` groups. */
  function GroupsCount<V(==)>(f: Fpa<V>, n: nat): nat
    requires |f.table| == 256 && n <= 4
  {
    if n == 0 then 0 else GroupsCount(f, n - 1) + GroupCount(f, n - 1)
  }

  /** The entries of all four groups. */
  function LookupCount<V(==)>(f: Fpa<V>): nat
    requires |f.table| == 256
  {
    GroupsCount(f, 4)
  }

  /** A level that becomes a dense chunk: more than `K` entries. */
  predicate IsDense<V(==)>(f: Fpa<V>, k: int) {
    |f.table| == 256 && LookupCount(f) > k
  }

  /** The members of `s` that become dense chunks. */
  ghost function DenseOf<V>(s: set<Fpa<V>>, k: int): set<Fpa<V>> {
    set g | g in s && IsDense(g, k)
  }

  /** The members of `s` that become sparse chunks. */
  ghost function SparseOf<V>(s: set<Fpa<V>>, k: int): set<Fpa<V>> {
    set g | g in s && !IsDense(g, k)
  }

  /** Every array is one or the other, and adding a new one counts it once. */
  lemma DenseSparseAdd<V>(s: set<Fpa<V>>, f: Fpa<V>, k: int)
    requires f !in s
    ensures IsDense(f, k) ==> |DenseOf(s + {f}, k)| == |DenseOf(s, k)| + 1 && SparseOf(s + {f}, k) == SparseOf(s, k)
    ensures !IsDense(f, k) ==> |SparseOf(s + {f}, k)| == |SparseOf(s, k)| + 1 && DenseOf(s + {f}, k) == DenseOf(s, k)
  {
    if IsDense(f, k) {
      assert DenseOf(s + {f}, k) == DenseOf(s, k) + {f};
    } else {
      assert SparseOf(s + {f}, k) == SparseOf(s, k) + {f};
    }
  }

  lemma {:induction false} SubsetCard<T>(a: set<T>, b: set<T>)
    requires a <= b
    ensures |a| <= |b|
    decreases |a|
  {
    if a != {} {
      var x :| x in a;
      SubsetCard(a - {x}, b - {x});
    }
  }

  /** An array of `r` not yet counted among the dense ones `ds` or the
      sparse ones `ss` leaves room for it among its kind. */
  lemma RoomFor<V>(ds: map<Fpa<V>, nat>, ss: map<Fpa<V>, nat>, r: set<Fpa<V>>, f: Fpa<V>, k: int)
    requires ds.Keys <= r && ss.Keys <= r && f in r && f !in ds && f !in ss
    requires forall g :: g in ds ==> IsDense(g, k)
    requires forall g :: g in ss ==> !IsDense(g, k)
    ensures IsDense(f, k) ==> |ds| < |DenseOf(r, k)|
    ensures !IsDense(f, k) ==> |ss| < |SparseOf(r, k)|
  {
    if IsDense(f, k) {
      SubsetCard(ds.Keys + {f}, DenseOf(r, k));
    } else {
      SubsetCard(ss.Keys + {f}, SparseOf(r, k));
    }
  }

  // ---------------------------------------------------------------------
  // The pre-scan
  // ---------------------------------------------------------------------

  /** `ChunkSizeInfo`: the chunk counts and sizes the pre-scan finds. */
  class ChunkSizeInfo {
    var denseChunkCount: nat
    var totalDenseSize: nat
    var sparseChunkCount: nat
    var totalSparseSize: nat

    constructor ()
      ensures denseChunkCount == 0 && totalDenseSize == 0 && sparseChunkCount == 0 && totalSparseSize == 0
    {
      denseChunkCount := 0;
      totalDenseSize := 0;
      sparseChunkCount := 0;
      totalSparseSize := 0;
    }
  }

  /** `calculateLookupCount`: the slots of group `groupIdx` unlike their
      left neighbour (`firstNode` is `null` at the start, so the first slot
      counts). */
  method CalculateLookupCount<V(==)>(f: Fpa<V>, groupIdx: nat) returns (count: nat)
    requires |f.table| == 256 && groupIdx < 4
    ensures count == GroupCount(f, groupIdx)
  {
    ghost var group := Group(f, groupIdx);
    ghost var flags := Changes(group, true);
    count := 0;
    var firstNode: Option<FNode<V>> := None;
    for cluster := 0 to 8
      invariant count == CountTrue(flags[..8 * cluster])
      invariant cluster == 0 ==> firstNode.None?
      invariant cluster > 0 ==> firstNode == Some(group[8 * cluster - 1])
    {
      for bit := 0 to 8
        invariant count == CountTrue(flags[..8 * cluster + bit])
        invariant 8 * cluster + bit == 0 ==> firstNode.None?
        invariant 8 * cluster + bit > 0 ==> firstNode == Some(group[8 * cluster + bit - 1])
      {
        var s := cluster * 8 + bit;
        var node := f.table[groupIdx * 64 + s];
        assert node == group[s];
        assert flags[..s + 1][..s] == flags[..s];
        if firstNode != Some(node) {
          firstNode := Some(node);
          count := count + 1;
        }
      }
    }
    assert flags[..64] == flags;
  }

  /** A row of 256 zero entries. */
  function Zeros(): (r: seq<nat>)
    ensures |r| == 256 && forall i :: 0 <= i < 256 ==> r[i] == 0
  {
    seq(256, _ => 0)
  }

  /** What `countLayer` adds to the size of the sparse data for a sparse
      level: the count and a triple per leaf of the trie it builds. Its
      trie holds 0 in every slot (both arms of its choice are entry 0). */
  method SparseSizeOf<V>(f: Fpa<V>) returns (size: nat)
    requires |f.table| == 256
    ensures size == 1 + 3 * |Leaves(Compress(Filled(Zeros(), 256), RootCompress))|
  {
    var trie := new BitTries.BitTrie<nat>();
    ghost var zeros := Zeros();
    for i := 0 to |f.table|
      invariant trie.Valid() && trie.Abs() == Filled(zeros, i)
    {
      var key: seq<Byte> := [i];
      var entry := if f.table[i].next.None? then Encode(TypeLeaf, 0) else 0;
      EncodeZero(TypeLeaf, 0);
      assert BytesToBits(key) == NatToBits(i, 8) + BytesToBits([]);
      assert BytesToBits(key)[..8] == NatToBits(i, 8);
      var err := trie.Put(Some(key), 8, Some(entry));
    }
    trie.CompressMergeOnly();
    var leaves := trie.PreorderTraversal();
    size := 1 + |leaves| * 3;
  }

  /** The counts and sizes of the members of `s`, as the pre-scan records
      them. */
  ghost predicate Counted<V>(info: ChunkSizeInfo, s: set<Fpa<V>>, k: int)
    reads info
  {
    info.denseChunkCount == |DenseOf(s, k)| && info.sparseChunkCount == |SparseOf(s, k)|
  }


  /** The visited arrays: the ones still being scanned (`pending`) are
      among them, and the others hold every array nested below them. */
  ghost predicate Scanned<V>(visited: set<Fpa<V>>, pending: set<Fpa<V>>) {
    pending <= visited && Closed(visited - pending)
  }

  /** `f` is lower than every array still being scanned. */
  ghost predicate Below<V>(f: Fpa<V>, pending: set<Fpa<V>>) {
    forall p :: p in pending ==> Height(f) < Height(p)
  }

  /** A visited array that is not being scanned has all its nested arrays
      visited. */
  lemma SkipVisited<V>(f: Fpa<V>, visited: set<Fpa<V>>, pending: set<Fpa<V>>)
    requires Scanned(visited, pending) && Below(f, pending) && f in visited
    ensures visited + Reach(f) == visited
  {
    assert f !in pending;
    ReachInClosed(visited - pending, f);
  }

  /** The arrays below a nested array of `f` are lower than `f` and than
      what `f` is lower than. */
  lemma BelowChild<V>(f: Fpa<V>, i: nat, pending: set<Fpa<V>>)
    requires Below(f, pending) && i < |f.table| && f.table[i].next.Some?
    ensures Below(f.table[i].next.value, pending + {f})
  {
    ChildLower(f, i);
  }

  /** Once all its nested arrays are visited, `f` is scanned. */
  lemma FinishScan<V>(f: Fpa<V>, visited: set<Fpa<V>>, pending: set<Fpa<V>>)
    requires Scanned(visited, pending + {f}) && Below(f, pending)
    requires forall s :: 0 <= s < |f.table| && f.table[s].next.Some? ==> f.table[s].next.value in visited
    ensures Scanned(visited, pending)
  {
    forall s | 0 <= s < |f.table| && f.table[s].next.Some? ensures f.table[s].next.value !in pending + {f} {
      ChildLower(f, s);
    }
    assert visited - pending == (visited - (pending + {f})) + {f};
    CloseOver(visited - (pending + {f}), f);
  }

  /** `countLayer`: a level already visited is skipped; otherwise it is
      marked, counted as dense or sparse, and its nested arrays are scanned.
      `pending` are the arrays whose scan is under way. */
  method CountLayer<V(==)>(f: Fpa<V>, info: ChunkSizeInfo, visited: set<Fpa<V>>, k: int, ghost pending: set<Fpa<V>>)
    returns (visited': set<Fpa<V>>)
    requires ByteLevel(f) && Scanned(visited, pending) && Below(f, pending) && Counted(info, visited, k)
    modifies info
    ensures visited' == visited + Reach(f) && Scanned(visited', pending) && Counted(info, visited', k)
    decreases f, 1
  {
    if f in visited {
      SkipVisited(f, visited, pending);
      return visited;
    }
    CountOne(f, info, visited, k);
    assert Scanned(visited + {f}, pending + {f}) by {
      assert (visited + {f}) - (pending + {f}) == visited - pending;
    }
    visited' := CountChildren(f, info, visited + {f}, k, pending);
    FinishScan(f, visited', pending);
  }

  /** The counting part of `countLayer`: the four groups' entries decide
      whether `f` adds a dense or a sparse chunk. */
  method CountOne<V(==)>(f: Fpa<V>, info: ChunkSizeInfo, visited: set<Fpa<V>>, k: int)
    requires |f.table| == 256 && f !in visited && Counted(info, visited, k)
    modifies info
    ensures Counted(info, visited + {f}, k)
  {
    var totalEntries := 0;
    for j := 0 to 4
      invariant totalEntries == GroupsCount(f, j) && Counted(info, visited, k)
    {
      var lookupCount := CalculateLookupCount(f, j);
      totalEntries := totalEntries + lookupCount;
    }
    DenseSparseAdd(visited, f, k);
    if totalEntries > k {
      info.denseChunkCount := info.denseChunkCount + 1;
      info.totalDenseSize := info.totalDenseSize + 20 + totalEntries;
    } else {
      var size := SparseSizeOf(f);
      info.sparseChunkCount := info.sparseChunkCount + 1;
      info.totalSparseSize := info.totalSparseSize + size;
    }
  }

  /** The recursion of `countLayer` over `f`'s slots. */
  method CountChildren<V(==)>(f: Fpa<V>, info: ChunkSizeInfo, visited: set<Fpa<V>>, k: int, ghost pending: set<Fpa<V>>)
    returns (visited': set<Fpa<V>>)
    requires ByteLevel(f) && Scanned(visited, pending + {f}) && Below(f, pending) && Counted(info, visited, k)
    modifies info
    ensures visited' == visited + ReachSlots(f, |f.table|) && Scanned(visited', pending + {f})
    ensures Counted(info, visited', k)
    ensures forall s :: 0 <= s < |f.table| && f.table[s].next.Some? ==> f.table[s].next.value in visited'
    decreases f, 0
  {
    visited' := visited;
    for i := 0 to |f.table|
      invariant visited' == visited + ReachSlots(f, i)
      invariant Scanned(visited', pending + {f}) && Counted(info, visited', k)
      invariant forall s :: 0 <= s < i && f.table[s].next.Some? ==> f.table[s].next.value in visited'
    {
      if f.table[i].next.Some? {
        var c := f.table[i].next.value;
        assert NodeByteLevels(f.table[i]);
        BelowChild(f, i, pending);
        visited' := CountLayer(c, info, visited', k, pending + {f});
      }
    }
  }

  /** `preScanAndCount`: `countLayer` on the nested array of every root
      slot not visited yet. The counts are those of the distinct nested
      arrays of each kind. */
  method PreScanAndCount<V(==)>(root: Fpa<V>, k: int) returns (info: ChunkSizeInfo)
    requires RootShape(root)
    ensures Counted(info, RootReach(root), k)
  {
    info := new ChunkSizeInfo();
    var visited: set<Fpa<V>> := {};
    for i := 0 to |root.table|
      invariant visited == ReachSlots(root, i) && Scanned(visited, {})
      invariant Counted(info, visited, k)
    {
      var node := root.table[i];
      if node.next.Some? && node.next.value !in visited {
        assert NodeByteLevels(root.table[i]);
        visited := CountLayer(node.next.value, info, visited, k, {});
      } else if node.next.Some? {
        SkipVisited(node.next.value, visited, {});
      }
    }
  }
}

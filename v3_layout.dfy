/** What FPATreeV3's `processLayer` lays out, stated on values: the lists
    `build` appends to, the result list with its index table and the cache
    are one `Layout`, and each loop of `processLayer` (groups, clusters,
    bits), the choice between a dense and a sparse chunk and the root loop
    of `build` is a function from the layout before to the layout after.
    The builder's methods are proved to compute these functions; what the
    layout then means is proved here, once. */
module V3Layouts {
  import opened Wrappers
  import opened Bits
  import opened Fpas
  import opened LookupEntries
  import opened ValueTables
  import opened TreeSpecs
  import opened ChangeCodes
  import opened V3Trees
  import opened V3Builds
  import Sorting

  /** The dense data with its chunk offsets, the sparse data with its
      chunk offsets and sizes, `resultList` with `idxTable`, and
      `fpaCache`. */
  datatype Layout<V> = Layout(denseData: seq<nat>, denseOffsets: seq<nat>,
                              sparseData: seq<nat>, sparseOffsets: seq<nat>, sparseSizes: seq<nat>,
                              results: seq<Option<V>>, index: map<V, nat>, cache: map<Fpa<V>, nat>)

  /** The tree a layout searches as (the root chunk aside). */
  function TreeOf<V>(l: Layout<V>): Tree<V> {
    Tree([], l.denseData, l.denseOffsets, |l.denseOffsets|,
         l.sparseData, l.sparseOffsets, l.sparseSizes, |l.sparseOffsets|, l.results)
  }

  /** Nothing laid out yet: the result list seeded with `null`. */
  function Empty<V>(): Layout<V> {
    Layout([], [], [], [], [], [None], map[], map[])
  }

  // ---------------------------------------------------------------------
  // processLayer, loop by loop
  // ---------------------------------------------------------------------

  /** A run start's entry: a LEAF entry for the slot's value index when the
      slot has no nested array, else what `processLayer` makes of the
      nested array. The root loop of `build` makes its entries the same
      way. */
  ghost function Entry<V>(l: Layout<V>, n: FNode<V>, k: int): (Layout<V>, nat)
    requires NodeByteLevels(n)
    decreases n, 0, 0, 0
  {
    if n.next.None? then
      var (results, index, idx) := Stored(l.results, l.index, n.value);
      (l.(results := results, index := index), Encode(TypeLeaf, idx))
    else Layer(l, n.next.value, k)
  }

  /** `processLayer`: a cached array gives its cached entry; otherwise the
      four groups are visited, the array becomes a chunk and its entry is
      cached. */
  ghost function Layer<V>(l: Layout<V>, f: Fpa<V>, k: int): (Layout<V>, nat)
    requires ByteLevel(f)
    decreases f, 4, 0, 0
  {
    if f in l.cache then (l, l.cache[f])
    else
      var (l1, cws, es) := Groups(l, f, k, 0, [], []);
      var (l2, e) := Chunk(l1, cws, es, k);
      (l2.(cache := l2.cache[f := e]), e)
  }

  /** The group loop from group `j`, with the code words and entries of the
      groups before it. */
  ghost function Groups<V>(l: Layout<V>, f: Fpa<V>, k: int, j: nat, cws: seq<seq<nat>>, es: seq<seq<nat>>)
    : (r: (Layout<V>, seq<seq<nat>>, seq<seq<nat>>))
    requires ByteLevel(f) && j <= 4 && |cws| == j && |es| == j
    requires forall i :: 0 <= i < j ==> Words(cws[i])
    ensures Shaped(r.1, r.2) && forall i :: 0 <= i < 4 ==> Words(r.1[i])
    decreases f, 3, 4 - j, 0
  {
    if j == 4 then
      assert forall i :: 0 <= i < 4 ==> Words(cws[i]) && |cws[i]| == 8;
      (l, cws, es)
    else
      var (l1, cw, e) := Clusters(l, f, k, j, 0, None, 0, [], []);
      Groups(l1, f, k, j + 1, cws + [cw], es + [e])
  }

  /** Eight 16-bit code words. */
  predicate Words(cw: seq<nat>) {
    |cw| == 8 && forall c :: 0 <= c < 8 ==> cw[c] < 65536
  }

  /** The code words of group `j`'s first `|cw|` clusters, each within
      16 bits. */
  ghost predicate WordsSoFar<V>(f: Fpa<V>, j: nat, cw: seq<nat>)
    requires |f.table| == 256 && j < 4 && |cw| <= 8
  {
    forall i :: 0 <= i < |cw| ==> cw[i] == CodeWord(Changes(Group(f, j), true), i) && cw[i] < 65536
  }

  lemma WordsSoFarStep<V>(f: Fpa<V>, j: nat, cw: seq<nat>, word: nat)
    requires |f.table| == 256 && j < 4 && |cw| < 8 && WordsSoFar(f, j, cw)
    requires word == CodeWord(Changes(Group(f, j), true), |cw|) && word < 65536
    ensures WordsSoFar(f, j, cw + [word])
  {
  }

  /** The cluster loop of group `j` from cluster `c`: `firstNode` is `p1`,
      `before` the entries before the cluster. Closing a cluster stores
      `(short) ((bitset << 8) | before)`, kept as the 16 bits it holds. */
  ghost function Clusters<V>(l: Layout<V>, f: Fpa<V>, k: int, j: nat, c: nat, p1: Option<FNode<V>>, before: nat,
                             cw: seq<nat>, es: seq<nat>): (r: (Layout<V>, seq<nat>, seq<nat>))
    requires ByteLevel(f) && j < 4 && c <= 8 && |cw| == c && forall i :: 0 <= i < c ==> cw[i] < 65536
    ensures Words(r.1)
    decreases f, 2, 8 - c, 0
  {
    if c == 8 then (l, cw, es)
    else
      var (l1, p1', bitset, es') := Slots(l, f, k, j, c, 0, p1, 0, es);
      Clusters(l1, f, k, j, c + 1, p1', |es'|, cw + [Or(Shl(bitset, 8), before) % 65536], es')
  }

  /** The bit loop of cluster `c` of group `j` from slot `bit`. */
  ghost function Slots<V>(l: Layout<V>, f: Fpa<V>, k: int, j: nat, c: nat, bit: nat, p1: Option<FNode<V>>,
                         bitset: nat, es: seq<nat>): (Layout<V>, Option<FNode<V>>, nat, seq<nat>)
    requires ByteLevel(f) && j < 4 && c < 8 && bit <= 8
    decreases f, 1, 8 - bit, 1
  {
    if bit == 8 then (l, p1, bitset, es)
    else
      var (l1, p1', bitset', es') := Slot(l, f, k, j, c, bit, p1, bitset, es);
      Slots(l1, f, k, j, c, bit + 1, p1', bitset', es')
  }

  /** One slot: a node that differs from `firstNode` starts a run, which
      sets bit `7 - bit` of `bitset` and appends the node's entry. */
  ghost function Slot<V>(l: Layout<V>, f: Fpa<V>, k: int, j: nat, c: nat, bit: nat, p1: Option<FNode<V>>,
                         bitset: nat, es: seq<nat>): (Layout<V>, Option<FNode<V>>, nat, seq<nat>)
    requires ByteLevel(f) && j < 4 && c < 8 && bit < 8
    decreases f, 1, 8 - bit, 0
  {
    var node := f.table[64 * j + 8 * c + bit];
    if p1 == Some(node) then (l, p1, bitset, es)
    else
      var (l1, e) := Entry(l, node, k);
      (l1, Some(node), Or(bitset, Shl(1, 7 - bit)), es + [e])
  }

  /** The end of `processLayer`: more than `K` entries make a dense chunk
      (`buildDenseChunk`), the others a sparse one (`buildSparseChunk`);
      the entry names the chunk's index. */
  ghost function Chunk<V>(l: Layout<V>, cws: seq<seq<nat>>, es: seq<seq<nat>>, k: int): (Layout<V>, nat)
    requires Shaped(cws, es)
  {
    if SumSizes(es, 4) > k then
      (l.(denseData := l.denseData + DenseBlock(cws, es), denseOffsets := l.denseOffsets + [|l.denseData|]),
       Encode(TypeDense, |l.denseOffsets|))
    else
      var ts := Sorting.SortByKey(SparseTriplesOf(Row(cws, es)), SortKey);
      (l.(sparseData := l.sparseData + SparseBlock(ts), sparseOffsets := l.sparseOffsets + [|l.sparseData|],
          sparseSizes := l.sparseSizes + [|ts|]),
       Encode(TypeSparse, |l.sparseOffsets|))
  }

  /** Phase 3 of `build` from root slot `i`: every root slot gets its
      entry, in slot order. */
  ghost function RootFill<V>(l: Layout<V>, root: Fpa<V>, k: int, i: nat, es: seq<nat>): (r: (Layout<V>, seq<nat>))
    requires RootShape(root) && i <= |root.table| && |es| == i
    ensures |r.1| == |root.table| && r.1[..i] == es
    decreases |root.table| - i
  {
    if i == |root.table| then (l, es)
    else
      var (l1, e) := Entry(l, root.table[i], k);
      RootFill(l1, root, k, i + 1, es + [e])
  }

  // ---------------------------------------------------------------------
  // The lists only grow
  // ---------------------------------------------------------------------

  /** Everything laid out before stays where it is. */
  ghost predicate Grows<V>(a: Layout<V>, b: Layout<V>) {
    Extends(TreeOf(a), TreeOf(b)) && |a.sparseSizes| <= |b.sparseSizes|
  }

  lemma {:induction false} EntryGrows<V>(l: Layout<V>, n: FNode<V>, k: int)
    requires NodeByteLevels(n)
    ensures Grows(l, Entry(l, n, k).0)
    decreases n, 0, 0, 0
  {
    if n.next.Some? {
      LayerGrows(l, n.next.value, k);
    }
  }

  lemma {:induction false} LayerGrows<V>(l: Layout<V>, f: Fpa<V>, k: int)
    requires ByteLevel(f)
    ensures Grows(l, Layer(l, f, k).0)
    decreases f, 4, 0, 0
  {
    if f !in l.cache {
      GroupsGrows(l, f, k, 0, [], []);
    }
  }

  lemma {:induction false} GroupsGrows<V>(l: Layout<V>, f: Fpa<V>, k: int, j: nat, cws: seq<seq<nat>>, es: seq<seq<nat>>)
    requires ByteLevel(f) && j <= 4 && |cws| == j && |es| == j
    requires forall i :: 0 <= i < j ==> Words(cws[i])
    ensures Grows(l, Groups(l, f, k, j, cws, es).0)
    decreases f, 3, 4 - j, 0
  {
    if j < 4 {
      var (l1, cw, e) := Clusters(l, f, k, j, 0, None, 0, [], []);
      ClustersGrows(l, f, k, j, 0, None, 0, [], []);
      GroupsGrows(l1, f, k, j + 1, cws + [cw], es + [e]);
    }
  }

  lemma {:induction false} ClustersGrows<V>(l: Layout<V>, f: Fpa<V>, k: int, j: nat, c: nat, p1: Option<FNode<V>>,
                                            before: nat, cw: seq<nat>, es: seq<nat>)
    requires ByteLevel(f) && j < 4 && c <= 8 && |cw| == c && forall i :: 0 <= i < c ==> cw[i] < 65536
    ensures Grows(l, Clusters(l, f, k, j, c, p1, before, cw, es).0)
    decreases f, 2, 8 - c, 0
  {
    if c < 8 {
      var (l1, p1', bitset, es') := Slots(l, f, k, j, c, 0, p1, 0, es);
      SlotsGrows(l, f, k, j, c, 0, p1, 0, es);
      ClustersGrows(l1, f, k, j, c + 1, p1', |es'|, cw + [Or(Shl(bitset, 8), before) % 65536], es');
    }
  }

  lemma {:induction false} SlotsGrows<V>(l: Layout<V>, f: Fpa<V>, k: int, j: nat, c: nat, bit: nat, p1: Option<FNode<V>>,
                                        bitset: nat, es: seq<nat>)
    requires ByteLevel(f) && j < 4 && c < 8 && bit <= 8
    ensures Grows(l, Slots(l, f, k, j, c, bit, p1, bitset, es).0)
    decreases f, 1, 8 - bit, 1
  {
    if bit < 8 {
      var (l1, p1', bitset', es') := Slot(l, f, k, j, c, bit, p1, bitset, es);
      SlotGrows(l, f, k, j, c, bit, p1, bitset, es);
      SlotsGrows(l1, f, k, j, c, bit + 1, p1', bitset', es');
    }
  }

  lemma {:induction false} SlotGrows<V>(l: Layout<V>, f: Fpa<V>, k: int, j: nat, c: nat, bit: nat, p1: Option<FNode<V>>,
                                        bitset: nat, es: seq<nat>)
    requires ByteLevel(f) && j < 4 && c < 8 && bit < 8
    ensures Grows(l, Slot(l, f, k, j, c, bit, p1, bitset, es).0)
    decreases f, 1, 8 - bit, 0
  {
    var node := f.table[64 * j + 8 * c + bit];
    if p1 != Some(node) {
      EntryGrows(l, node, k);
    }
  }

  lemma {:induction false} RootFillGrows<V>(l: Layout<V>, root: Fpa<V>, k: int, i: nat, es: seq<nat>)
    requires RootShape(root) && i <= |root.table| && |es| == i
    ensures Grows(l, RootFill(l, root, k, i, es).0)
    decreases |root.table| - i
  {
    if i < |root.table| {
      var (l1, e) := Entry(l, root.table[i], k);
      EntryGrows(l, root.table[i], k);
      RootFillGrows(l1, root, k, i + 1, es + [e]);
    }
  }

  // ---------------------------------------------------------------------
  // Groups as the loops leave them
  // ---------------------------------------------------------------------

  /** Group `j` of `f` visited up to slot `s`: the runs so far have heads
      (`heads[r]` is run `r`'s first slot), one entry each, and `p1` is the
      slot before `s` (`firstNode`, `null` at the group's start). */
  ghost predicate Visited<V>(f: Fpa<V>, j: nat, heads: seq<FNode<V>>, es: seq<nat>, s: nat, p1: Option<FNode<V>>) {
    |f.table| == 256 && j < 4 && s <= 64 && |es| == |heads| &&
    Owned(Group(f, j), Changes(Group(f, j), true), heads, s) &&
    (s == 0 ==> p1.None?) && (s > 0 ==> p1 == Some(Group(f, j)[s - 1]))
  }

  /** Slot `s` starts a run exactly when it differs from `p1`. */
  lemma GroupStep<V>(f: Fpa<V>, j: nat, heads: seq<FNode<V>>, es: seq<nat>, s: nat, p1: Option<FNode<V>>)
    requires Visited(f, j, heads, es, s, p1) && s < 64
    ensures var flags := Changes(Group(f, j), true);
            (flags[s] <==> p1 != Some(Group(f, j)[s])) &&
            Owned(Group(f, j), flags, if flags[s] then heads + [Group(f, j)[s]] else heads, s + 1)
  {
    OwnedStep(Group(f, j), heads, s);
  }

  /** Slot `bit` of cluster `c`: a slot equal to `firstNode` continues its
      run and leaves the byte alone; any other slot starts a run headed by
      itself, with its entry `e`, and sets its bit in the byte. */
  lemma SlotStep<V>(f: Fpa<V>, j: nat, c: nat, bit: nat, p1: Option<FNode<V>>, bitset: nat, es: seq<nat>,
                    heads: seq<FNode<V>>, e: nat)
    requires j < 4 && c < 8 && bit < 8
    requires Visited(f, j, heads, es, 8 * c + bit, p1) && bitset == ClusterByte(f, j, c, bit)
    ensures var node := f.table[64 * j + 8 * c + bit];
            (p1 == Some(node) ==> Visited(f, j, heads, es, 8 * c + bit + 1, p1) && bitset == ClusterByte(f, j, c, bit + 1)) &&
            (p1 != Some(node) ==> Visited(f, j, heads + [node], es + [e], 8 * c + bit + 1, Some(node)) &&
                                  Or(bitset, Shl(1, 7 - bit)) == ClusterByte(f, j, c, bit + 1))
  {
    var node := f.table[64 * j + 8 * c + bit];
    var flags := Changes(Group(f, j), true);
    assert Group(f, j)[8 * c + bit] == node;
    GroupStep(f, j, heads, es, 8 * c + bit, p1);
    ClusterByteStep(f, j, c, bit);
    if p1 == Some(node) {
      assert !flags[8 * c + bit];
    } else {
      assert flags[8 * c + bit];
    }
  }

  /** The cluster byte after `bit` slots of cluster `c` of group `j`. */
  ghost function ClusterByte<V>(f: Fpa<V>, j: nat, c: nat, bit: nat): nat
    requires |f.table| == 256 && j < 4 && c < 8 && bit <= 8
  {
    Msb(Changes(Group(f, j), true)[8 * c..8 * c + bit])
  }

  /** `bitset |= 1 << (7 - bit)` at a run start, nothing otherwise. */
  lemma ClusterByteStep<V>(f: Fpa<V>, j: nat, c: nat, bit: nat)
    requires |f.table| == 256 && j < 4 && c < 8 && bit < 8
    ensures var flags := Changes(Group(f, j), true);
            var b := ClusterByte(f, j, c, bit);
            ClusterByte(f, j, c, bit + 1) == if flags[8 * c + bit] then Or(b, Shl(1, 7 - bit)) else b
  {
    var flags := Changes(Group(f, j), true);
    assert flags[8 * c..8 * c + bit + 1] == flags[8 * c..8 * c + bit] + [flags[8 * c + bit]];
    MsbStep(flags[8 * c..8 * c + bit], flags[8 * c + bit]);
    assert Shl(1, 7 - bit) == Pow2(7 - bit);
  }

  /** `(short) ((bitset << 8) | before)` on a finished cluster byte is the
      cluster's code word, which fits the 16 bits. */
  lemma ClusterWord<V>(f: Fpa<V>, j: nat, c: nat, before: nat)
    requires |f.table| == 256 && j < 4 && c < 8
    requires before == CountTrue(Changes(Group(f, j), true)[..8 * c])
    ensures var cw := CodeWord(Changes(Group(f, j), true), c);
            cw < 65536 && Or(Shl(ClusterByte(f, j, c, 8), 8), before) % 65536 == cw
  {
    var flags := Changes(Group(f, j), true);
    CountTrueBound(flags, 8 * c);
    CloseCluster(flags, c);
    ClusterBitsBound(flags, c);
    DivModUnique(CodeWord(flags, c), 65536, 0, CodeWord(flags, c));
  }

  /** Group `j` as `processLayer` leaves it, what its entries stand for
      aside: 8 code words marking where its runs start above the number of
      earlier run starts, and one entry per run. */
  ghost predicate GroupFormed<V>(f: Fpa<V>, j: nat, cw: seq<nat>, es: seq<nat>, heads: seq<FNode<V>>)
    requires |f.table| == 256 && j < 4
  {
    var flags := Changes(Group(f, j), true);
    |cw| == 8 && (forall c :: 0 <= c < 8 ==> cw[c] == CodeWord(flags, c)) &&
    Owned(Group(f, j), flags, heads, 64) && |es| == |heads|
  }

  /** The first `|cws|` groups of `f` formed. */
  ghost predicate GroupsFormed<V>(f: Fpa<V>, cws: seq<seq<nat>>, es: seq<seq<nat>>, heads: seq<seq<FNode<V>>>) {
    |f.table| == 256 && |cws| <= 4 && |es| == |cws| && |heads| == |cws| &&
    forall j :: 0 <= j < |cws| ==> GroupFormed(f, j, cws[j], es[j], heads[j])
  }

  /** Every group's entries stand for its runs' heads. */
  ghost predicate EntriesMean<V>(t: Tree<V>, es: seq<seq<nat>>, heads: seq<seq<FNode<V>>>) {
    |es| == |heads| && forall j :: 0 <= j < |es| ==> AllMean(t, es[j], heads[j])
  }

  lemma EntriesMeanMono<V>(a: Tree<V>, b: Tree<V>, es: seq<seq<nat>>, heads: seq<seq<FNode<V>>>)
    requires Extends(a, b) && EntriesMean(a, es, heads)
    ensures EntriesMean(b, es, heads)
  {
    forall j | 0 <= j < |es| ensures AllMean(b, es[j], heads[j]) {
      AllMeanMono(a, b, es[j], heads[j]);
    }
  }

  /** Formed groups whose entries stand for their heads are built. */
  lemma FormedBuilt<V>(t: Tree<V>, f: Fpa<V>, cws: seq<seq<nat>>, es: seq<seq<nat>>, heads: seq<seq<FNode<V>>>)
    requires GroupsFormed(f, cws, es, heads) && EntriesMean(t, es, heads)
    ensures GroupsBuilt(t, f, cws, es, heads)
  {
    forall j | 0 <= j < |cws| ensures GroupBuilt(t, f, j, cws[j], es[j], heads[j]) {
      assert GroupFormed(f, j, cws[j], es[j], heads[j]);
      assert AllMean(t, es[j], heads[j]);
    }
  }

  /** The row of entries the groups give the 256 bytes. */
  function Row(cws: seq<seq<nat>>, es: seq<seq<nat>>): (r: seq<nat>)
    requires Shaped(cws, es)
    ensures |r| == 256 && forall b :: 0 <= b < 256 ==> r[b] == GroupEntry(cws, es, b)
  {
    seq(256, b requires 0 <= b < 256 => GroupEntry(cws, es, b))
  }

  /** The entries of the first `n` groups. */
  function SumSizes(es: seq<seq<nat>>, n: nat): nat
    requires n <= |es|
  {
    if n == 0 then 0 else SumSizes(es, n - 1) + |es[n - 1]|
  }

  /** Formed groups hold as many entries as their rows have runs. */
  lemma {:induction false} EntriesCount<V>(f: Fpa<V>, cws: seq<seq<nat>>, es: seq<seq<nat>>,
                                           heads: seq<seq<FNode<V>>>, n: nat)
    requires GroupsFormed(f, cws, es, heads) && n <= |cws|
    ensures SumSizes(es, n) == GroupsCount(f, n)
  {
    if n > 0 {
      EntriesCount(f, cws, es, heads, n - 1);
      assert GroupFormed(f, n - 1, cws[n - 1], es[n - 1], heads[n - 1]);
      assert Changes(Group(f, n - 1), true)[..64] == Changes(Group(f, n - 1), true);
    }
  }

  // ---------------------------------------------------------------------
  // What the layout means
  // ---------------------------------------------------------------------

  /** Every cached entry stands for its array. */
  ghost predicate CacheMeans<V>(t: Tree<V>, cache: map<Fpa<V>, nat>) {
    forall g :: g in cache ==> Means(t, cache[g], FNode(None, Some(g)))
  }

  lemma CacheMono<V>(a: Tree<V>, b: Tree<V>, cache: map<Fpa<V>, nat>)
    requires Extends(a, b) && CacheMeans(a, cache)
    ensures CacheMeans(b, cache)
  {
    forall g | g in cache ensures Means(b, cache[g], FNode(None, Some(g))) {
      MeansMono(a, b, cache[g], FNode(None, Some(g)));
    }
  }

  /** The values stored in the slots of the arrays of `s`. */
  ghost function SlotValues<V>(s: set<Fpa<V>>): set<V> {
    set g, i | g in s && 0 <= i < |g.table| && g.table[i].value.Some? :: g.table[i].value.value
  }

  /** An entry keeps 30 bits of its index: with at most that many nested
      arrays and fewer values, no index loses a bit. */
  ghost predicate Fits<V>(reach: set<Fpa<V>>, vals: set<V>) {
    |reach| <= IndexSpan && |vals| < IndexSpan
  }

  /** The layout between two steps of a build over the nested arrays
      `reach` holding the values `vals`: the result list starts with
      `null`, agrees with its table and holds values of `vals`; the cache
      holds arrays of `reach`; there is one chunk of each kind per cached
      array of that kind; and, when the indices fit, every cached entry
      stands for its array. */
  ghost predicate Ready<V>(l: Layout<V>, reach: set<Fpa<V>>, vals: set<V>, k: int) {
    Indexed(l.results, l.index) && |l.results| > 0 && l.results[0] == None &&
    (forall i :: 0 < i < |l.results| ==> l.results[i].Some? && l.results[i].value in vals) &&
    l.cache.Keys <= reach &&
    |l.denseOffsets| == |DenseOf(l.cache.Keys, k)| && |l.sparseOffsets| == |SparseOf(l.cache.Keys, k)| &&
    |l.sparseSizes| == |l.sparseOffsets| &&
    (Fits(reach, vals) ==> CacheMeans(TreeOf(l), l.cache))
  }

  lemma EmptyReady<V>(reach: set<Fpa<V>>, vals: set<V>, k: int)
    ensures Ready(Empty(), reach, vals, k)
  {
    var l: Layout<V> := Empty();
    assert DenseOf(l.cache.Keys, k) == {};
    assert SparseOf(l.cache.Keys, k) == {};
  }

  /** A slot's entry keeps the layout ready; what it adds is lower than
      the slot's nested array, which it caches; and when the indices fit,
      the entry stands for the slot. */
  lemma {:induction false} EntryReady<V>(l: Layout<V>, n: FNode<V>, k: int, reach: set<Fpa<V>>, vals: set<V>)
    requires Ready(l, reach, vals, k) && Closed(reach) && Stocked(reach, vals) && NodeByteLevels(n)
    requires n.next.Some? ==> n.next.value in reach
    requires n.value.Some? ==> n.value.value in vals
    ensures var (l', e) := Entry(l, n, k);
            Ready(l', reach, vals, k) &&
            Grown(l.cache.Keys, l'.cache.Keys, if n.next.Some? then Height(n.next.value) + 1 else 0) &&
            (n.next.Some? ==> n.next.value in l'.cache) &&
            (Fits(reach, vals) ==> Means(TreeOf(l'), e, n))
    decreases n, 0, 0, 0
  {
    var (l', e) := Entry(l, n, k);
    if n.next.None? {
      var (results, index, idx) := Stored(l.results, l.index, n.value);
      StoredIndexed(l.results, l.index, n.value);
      if Fits(reach, vals) {
        ListBound(results, index, vals);
        CacheMono(TreeOf(l), TreeOf(l'), l.cache);
        LeafMeans(TreeOf(l'), idx, n);
      }
    } else {
      LayerReady(l, n.next.value, k, reach, vals);
      if Fits(reach, vals) {
        NestedMeans(TreeOf(l'), e, n);
      }
    }
  }

  /** `processLayer` keeps the layout ready, caches `f` and adds only
      arrays no higher than `f`; when the indices fit, its entry stands for
      `f`. */
  lemma {:induction false} LayerReady<V>(l: Layout<V>, f: Fpa<V>, k: int, reach: set<Fpa<V>>, vals: set<V>)
    requires Ready(l, reach, vals, k) && Closed(reach) && Stocked(reach, vals) && ByteLevel(f) && f in reach
    ensures var (l', e) := Layer(l, f, k);
            Ready(l', reach, vals, k) && Grown(l.cache.Keys, l'.cache.Keys, Height(f) + 1) && f in l'.cache &&
            (Fits(reach, vals) ==> Means(TreeOf(l'), e, FNode(None, Some(f))))
    decreases f, 4, 0, 0
  {
    if f !in l.cache {
      var (l1, cws, es) := Groups(l, f, k, 0, [], []);
      var heads := GroupsReady(l, f, k, 0, [], [], [], reach, vals);
      ChunkReady(l1, f, k, cws, es, heads, reach, vals);
    }
  }

  /** The group loop from group `j` keeps the layout ready, adds only
      arrays lower than `f`, and forms the remaining groups. */
  lemma {:induction false} GroupsReady<V>(l: Layout<V>, f: Fpa<V>, k: int, j: nat, cws: seq<seq<nat>>, es: seq<seq<nat>>,
                                          heads: seq<seq<FNode<V>>>, reach: set<Fpa<V>>, vals: set<V>)
    returns (heads': seq<seq<FNode<V>>>)
    requires Ready(l, reach, vals, k) && Closed(reach) && Stocked(reach, vals) && ByteLevel(f) && f in reach
    requires j <= 4 && |cws| == j && |es| == j && forall i :: 0 <= i < j ==> Words(cws[i])
    requires GroupsFormed(f, cws, es, heads) && (Fits(reach, vals) ==> EntriesMean(TreeOf(l), es, heads))
    ensures var (l', cws', es') := Groups(l, f, k, j, cws, es);
            Ready(l', reach, vals, k) && Grown(l.cache.Keys, l'.cache.Keys, Height(f)) &&
            GroupsFormed(f, cws', es', heads') && (Fits(reach, vals) ==> EntriesMean(TreeOf(l'), es', heads'))
    decreases f, 3, 4 - j, 1
  {
    if j == 4 {
      heads' := heads;
    } else {
      var l1, cw, e, h := GroupReady(l, f, k, j, cws, es, heads, reach, vals);
      heads' := GroupsReady(l1, f, k, j + 1, cws + [cw], es + [e], heads + [h], reach, vals);
    }
  }

  /** One round of the group loop: group `j` formed from its clusters. */
  lemma {:induction false} GroupReady<V>(l: Layout<V>, f: Fpa<V>, k: int, j: nat, cws: seq<seq<nat>>, es: seq<seq<nat>>,
                                         heads: seq<seq<FNode<V>>>, reach: set<Fpa<V>>, vals: set<V>)
    returns (l1: Layout<V>, cw: seq<nat>, e: seq<nat>, h: seq<FNode<V>>)
    requires Ready(l, reach, vals, k) && Closed(reach) && Stocked(reach, vals) && ByteLevel(f) && f in reach
    requires j < 4 && |cws| == j && |es| == j && forall i :: 0 <= i < j ==> Words(cws[i])
    requires GroupsFormed(f, cws, es, heads) && (Fits(reach, vals) ==> EntriesMean(TreeOf(l), es, heads))
    ensures Words(cw) && |e| == |h|
    ensures Groups(l, f, k, j, cws, es) == Groups(l1, f, k, j + 1, cws + [cw], es + [e])
    ensures Ready(l1, reach, vals, k) && Grown(l.cache.Keys, l1.cache.Keys, Height(f))
    ensures GroupsFormed(f, cws + [cw], es + [e], heads + [h])
    ensures Fits(reach, vals) ==> EntriesMean(TreeOf(l1), es + [e], heads + [h])
    decreases f, 3, 4 - j, 0
  {
    l1, cw, e := Clusters(l, f, k, j, 0, None, 0, [], []).0, Clusters(l, f, k, j, 0, None, 0, [], []).1,
                 Clusters(l, f, k, j, 0, None, 0, [], []).2;
    OwnedStart(Group(f, j), true);
    h := ClustersReady(l, f, k, j, 0, None, 0, [], [], [], reach, vals);
    if Fits(reach, vals) {
      ClustersGrows(l, f, k, j, 0, None, 0, [], []);
      EntriesMeanMono(TreeOf(l), TreeOf(l1), es, heads);
    }
    assert GroupsFormed(f, cws + [cw], es + [e], heads + [h]) by {
      forall i | 0 <= i < j + 1 ensures GroupFormed(f, i, (cws + [cw])[i], (es + [e])[i], (heads + [h])[i]) {
        if i < j {
          assert GroupFormed(f, i, cws[i], es[i], heads[i]);
        }
      }
    }
  }

  /** The cluster loop of group `j` from cluster `c` keeps the layout
      ready, adds only arrays lower than `f`, and forms the group. */
  lemma {:induction false} ClustersReady<V>(l: Layout<V>, f: Fpa<V>, k: int, j: nat, c: nat, p1: Option<FNode<V>>,
                                            before: nat, cw: seq<nat>, es: seq<nat>, heads: seq<FNode<V>>,
                                            reach: set<Fpa<V>>, vals: set<V>)
    returns (heads': seq<FNode<V>>)
    requires Ready(l, reach, vals, k) && Closed(reach) && Stocked(reach, vals) && ByteLevel(f) && f in reach
    requires j < 4 && c <= 8 && |cw| == c
    requires WordsSoFar(f, j, cw)
    requires Visited(f, j, heads, es, 8 * c, p1) && before == |es|
    requires Fits(reach, vals) ==> AllMean(TreeOf(l), es, heads)
    ensures var (l', cw', es') := Clusters(l, f, k, j, c, p1, before, cw, es);
            Ready(l', reach, vals, k) && Grown(l.cache.Keys, l'.cache.Keys, Height(f)) &&
            GroupFormed(f, j, cw', es', heads') && (Fits(reach, vals) ==> AllMean(TreeOf(l'), es', heads'))
    decreases f, 2, 8 - c, 1
  {
    if c == 8 {
      heads' := heads;
      assert Changes(Group(f, j), true)[..64] == Changes(Group(f, j), true);
    } else {
      var (l1, p1', bitset, es') := Slots(l, f, k, j, c, 0, p1, 0, es);
      var h := ClusterReady(l, f, k, j, c, p1, before, es, heads, reach, vals);
      var word := Or(Shl(bitset, 8), before) % 65536;
      WordsSoFarStep(f, j, cw, word);
      assert Clusters(l, f, k, j, c, p1, before, cw, es) == Clusters(l1, f, k, j, c + 1, p1', |es'|, cw + [word], es');
      heads' := ClustersReady(l1, f, k, j, c + 1, p1', |es'|, cw + [word], es', h, reach, vals);
    }
  }

  /** One cluster: its slots visited and its code word closed. */
  lemma ClusterReady<V>(l: Layout<V>, f: Fpa<V>, k: int, j: nat, c: nat, p1: Option<FNode<V>>, before: nat,
                        es: seq<nat>, heads: seq<FNode<V>>, reach: set<Fpa<V>>, vals: set<V>)
    returns (heads': seq<FNode<V>>)
    requires Ready(l, reach, vals, k) && Closed(reach) && Stocked(reach, vals) && ByteLevel(f) && f in reach
    requires j < 4 && c < 8 && Visited(f, j, heads, es, 8 * c, p1) && before == |es|
    requires Fits(reach, vals) ==> AllMean(TreeOf(l), es, heads)
    ensures var (l', p1', bitset, es') := Slots(l, f, k, j, c, 0, p1, 0, es);
            var cw := CodeWord(Changes(Group(f, j), true), c);
            Ready(l', reach, vals, k) && Grown(l.cache.Keys, l'.cache.Keys, Height(f)) &&
            Visited(f, j, heads', es', 8 * c + 8, p1') && (Fits(reach, vals) ==> AllMean(TreeOf(l'), es', heads')) &&
            cw < 65536 && Or(Shl(bitset, 8), before) % 65536 == cw
    decreases f, 2, 8 - c, 0
  {
    assert Changes(Group(f, j), true)[8 * c..8 * c + 0] == [];
    heads' := SlotsReady(l, f, k, j, c, 0, p1, 0, es, heads, reach, vals);
    ClusterWord(f, j, c, before);
  }

  /** The bit loop of cluster `c` from slot `bit` keeps the layout ready,
      adds only arrays lower than `f`, visits the cluster's slots and
      builds its byte. */
  lemma {:induction false} SlotsReady<V>(l: Layout<V>, f: Fpa<V>, k: int, j: nat, c: nat, bit: nat, p1: Option<FNode<V>>,
                                         bitset: nat, es: seq<nat>, heads: seq<FNode<V>>, reach: set<Fpa<V>>, vals: set<V>)
    returns (heads': seq<FNode<V>>)
    requires Ready(l, reach, vals, k) && Closed(reach) && Stocked(reach, vals) && ByteLevel(f) && f in reach
    requires j < 4 && c < 8 && bit <= 8
    requires Visited(f, j, heads, es, 8 * c + bit, p1) && bitset == ClusterByte(f, j, c, bit)
    requires Fits(reach, vals) ==> AllMean(TreeOf(l), es, heads)
    ensures var (l', p1', bitset', es') := Slots(l, f, k, j, c, bit, p1, bitset, es);
            Ready(l', reach, vals, k) && Grown(l.cache.Keys, l'.cache.Keys, Height(f)) &&
            Visited(f, j, heads', es', 8 * c + 8, p1') && bitset' == ClusterByte(f, j, c, 8) &&
            (Fits(reach, vals) ==> AllMean(TreeOf(l'), es', heads'))
    decreases f, 1, 8 - bit, 1
  {
    if bit == 8 {
      heads' := heads;
    } else {
      var (l1, p1', bitset', es') := Slot(l, f, k, j, c, bit, p1, bitset, es);
      var h := SlotReady(l, f, k, j, c, bit, p1, bitset, es, heads, reach, vals);
      heads' := SlotsReady(l1, f, k, j, c, bit + 1, p1', bitset', es', h, reach, vals);
      assert Slots(l, f, k, j, c, bit, p1, bitset, es) == Slots(l1, f, k, j, c, bit + 1, p1', bitset', es');
    }
  }

  /** One slot keeps the layout ready, adds only arrays lower than `f`,
      visits the slot and marks it in the cluster byte when it starts a
      run. */
  lemma {:induction false} SlotReady<V>(l: Layout<V>, f: Fpa<V>, k: int, j: nat, c: nat, bit: nat, p1: Option<FNode<V>>,
                                        bitset: nat, es: seq<nat>, heads: seq<FNode<V>>, reach: set<Fpa<V>>, vals: set<V>)
    returns (heads': seq<FNode<V>>)
    requires Ready(l, reach, vals, k) && Closed(reach) && Stocked(reach, vals) && ByteLevel(f) && f in reach
    requires j < 4 && c < 8 && bit < 8
    requires Visited(f, j, heads, es, 8 * c + bit, p1) && bitset == ClusterByte(f, j, c, bit)
    requires Fits(reach, vals) ==> AllMean(TreeOf(l), es, heads)
    ensures var (l', p1', bitset', es') := Slot(l, f, k, j, c, bit, p1, bitset, es);
            Ready(l', reach, vals, k) && Grown(l.cache.Keys, l'.cache.Keys, Height(f)) &&
            Visited(f, j, heads', es', 8 * c + bit + 1, p1') && bitset' == ClusterByte(f, j, c, bit + 1) &&
            (Fits(reach, vals) ==> AllMean(TreeOf(l'), es', heads'))
    decreases f, 1, 8 - bit, 0
  {
    var s := 64 * j + 8 * c + bit;
    var node := f.table[s];
    if p1 == Some(node) {
      heads' := heads;
      SlotStep(f, j, c, bit, p1, bitset, es, heads, 0);
      assert Slot(l, f, k, j, c, bit, p1, bitset, es) == (l, p1, bitset, es);
    } else {
      heads' := heads + [node];
      var (l', e) := Entry(l, node, k);
      assert Slot(l, f, k, j, c, bit, p1, bitset, es) == (l', Some(node), Or(bitset, Shl(1, 7 - bit)), es + [e]);
      SlotStep(f, j, c, bit, p1, bitset, es, heads, e);
      assert NodeByteLevels(node);
      if node.next.Some? {
        ChildLower(f, s);
      }
      EntryReady(l, node, k, reach, vals);
      if Fits(reach, vals) {
        EntryGrows(l, node, k);
        AllMeanMono(TreeOf(l), TreeOf(l'), es, heads);
        AllMeanSnoc(TreeOf(l'), es, heads, e, node);
      }
    }
  }

  /** The chunk made of `f`'s formed groups, cached, keeps the layout
      ready: it is the one chunk of its kind for `f`, and when the indices
      fit its entry stands for `f`. */
  lemma ChunkReady<V>(l: Layout<V>, f: Fpa<V>, k: int, cws: seq<seq<nat>>, es: seq<seq<nat>>,
                      heads: seq<seq<FNode<V>>>, reach: set<Fpa<V>>, vals: set<V>)
    requires Ready(l, reach, vals, k) && ByteLevel(f) && f in reach && f !in l.cache
    requires Shaped(cws, es) && GroupsFormed(f, cws, es, heads)
    requires Fits(reach, vals) ==> EntriesMean(TreeOf(l), es, heads)
    ensures var (l2, e) := Chunk(l, cws, es, k);
            var l' := l2.(cache := l2.cache[f := e]);
            Ready(l', reach, vals, k) && (Fits(reach, vals) ==> Means(TreeOf(l'), e, FNode(None, Some(f))))
  {
    var (l2, e) := Chunk(l, cws, es, k);
    var l' := l2.(cache := l2.cache[f := e]);
    EntriesCount(f, cws, es, heads, 4);
    TallyAdd(l.cache.Keys, f, k, reach);
    assert l'.cache.Keys == l.cache.Keys + {f};
    if Fits(reach, vals) {
      ChunkMeans(l, f, k, cws, es, heads);
    }
  }

  /** Caching a new array of `reach` counts it once among its kind; while
      `reach` has at most 2^30 arrays, the chunk index it gets fits. */
  lemma TallyAdd<V>(keys: set<Fpa<V>>, f: Fpa<V>, k: int, reach: set<Fpa<V>>)
    requires keys <= reach && f in reach && f !in keys
    ensures IsDense(f, k) ==> |DenseOf(keys + {f}, k)| == |DenseOf(keys, k)| + 1 && SparseOf(keys + {f}, k) == SparseOf(keys, k)
    ensures !IsDense(f, k) ==> |SparseOf(keys + {f}, k)| == |SparseOf(keys, k)| + 1 && DenseOf(keys + {f}, k) == DenseOf(keys, k)
    ensures |reach| <= IndexSpan && IsDense(f, k) ==> |DenseOf(keys, k)| < IndexSpan
    ensures |reach| <= IndexSpan && !IsDense(f, k) ==> |SparseOf(keys, k)| < IndexSpan
  {
    DenseSparseAdd(keys, f, k);
    if IsDense(f, k) {
      SubsetCard(DenseOf(keys, k) + {f}, DenseOf(reach, k));
      SubsetCard(DenseOf(reach, k), reach);
    } else {
      SubsetCard(SparseOf(keys, k) + {f}, SparseOf(reach, k));
      SubsetCard(SparseOf(reach, k), reach);
    }
  }

  /** When the next chunk index fits, the chunk made of `f`'s built groups
      stands for `f`, and what was laid out before keeps its meaning. */
  lemma ChunkMeans<V>(l: Layout<V>, f: Fpa<V>, k: int, cws: seq<seq<nat>>, es: seq<seq<nat>>, heads: seq<seq<FNode<V>>>)
    requires Shaped(cws, es) && GroupsFormed(f, cws, es, heads) && EntriesMean(TreeOf(l), es, heads)
    requires CacheMeans(TreeOf(l), l.cache)
    requires SumSizes(es, 4) > k ==> |l.denseOffsets| < IndexSpan
    requires SumSizes(es, 4) <= k ==> |l.sparseOffsets| < IndexSpan
    ensures var (l2, e) := Chunk(l, cws, es, k);
            CacheMeans(TreeOf(l2), l.cache) && Means(TreeOf(l2), e, FNode(None, Some(f)))
  {
    var (l2, e) := Chunk(l, cws, es, k);
    var t, t2 := TreeOf(l), TreeOf(l2);
    if SumSizes(es, 4) > k {
      assert t2.denseOffsets == t.denseOffsets + [|t.denseData|];
    } else {
      assert t2.sparseOffsets == t.sparseOffsets + [|t.sparseData|];
    }
    assert Extends(t, t2);
    CacheMono(t, t2, l.cache);
    EntriesMeanMono(t, t2, es, heads);
    FormedBuilt(t2, f, cws, es, heads);
    if SumSizes(es, 4) > k {
      var idx := |l.denseOffsets|;
      assert t2.denseData[t2.denseOffsets[idx]..t2.denseOffsets[idx] + |DenseBlock(cws, es)|] == DenseBlock(cws, es);
      DenseChunkMeans(t2, f, cws, es, heads, idx);
    } else {
      var idx := |l.sparseOffsets|;
      var ts := Sorting.SortByKey(SparseTriplesOf(Row(cws, es)), SortKey);
      assert t2.sparseData[t2.sparseOffsets[idx]..t2.sparseOffsets[idx] + |SparseBlock(ts)|] == SparseBlock(ts);
      SparseChunkMeans(t2, f, cws, es, heads, idx, ts);
    }
  }

  /** A dense entry for a dense chunk laid out from four built groups
      stands for the level. */
  lemma DenseChunkMeans<V>(t: Tree<V>, f: Fpa<V>, cws: seq<seq<nat>>, es: seq<seq<nat>>,
                           heads: seq<seq<FNode<V>>>, idx: nat)
    requires GroupsBuilt(t, f, cws, es, heads) && |cws| == 4
    requires idx < |t.denseOffsets| && idx < IndexSpan
    requires Shaped(cws, es)
    requires t.denseOffsets[idx] + |DenseBlock(cws, es)| <= |t.denseData|
    requires t.denseData[t.denseOffsets[idx]..t.denseOffsets[idx] + |DenseBlock(cws, es)|] == DenseBlock(cws, es)
    ensures Means(t, Encode(TypeDense, idx), FNode(None, Some(f)))
  {
    GroupsShaped(t, f, cws, es, heads);
    var e := Encode(TypeDense, idx);
    DecodeEncode(TypeDense, idx);
    DivModUnique(idx, IndexSpan, 0, idx);
    forall b: Byte ensures Step(t, e, b).Ok? && Means(t, Step(t, e, b).value, f.table[b]) {
      GroupSlot(t, f, cws, es, heads, b);
      DenseReadBlock(t.denseData, t.denseOffsets[idx], cws, es, b);
    }
    StepMeans(t, e, f);
  }

  /** A sparse entry for a sparse chunk laid out from four built groups
      stands for the level. */
  lemma SparseChunkMeans<V>(t: Tree<V>, f: Fpa<V>, cws: seq<seq<nat>>, es: seq<seq<nat>>,
                            heads: seq<seq<FNode<V>>>, idx: nat, ts: seq<Triple>)
    requires GroupsBuilt(t, f, cws, es, heads) && |cws| == 4 && Shaped(cws, es)
    requires idx < |t.sparseOffsets| && idx < IndexSpan
    requires ts == Sorting.SortByKey(SparseTriplesOf(Row(cws, es)), SortKey)
    requires t.sparseOffsets[idx] + |SparseBlock(ts)| <= |t.sparseData|
    requires t.sparseData[t.sparseOffsets[idx]..t.sparseOffsets[idx] + |SparseBlock(ts)|] == SparseBlock(ts)
    ensures Means(t, Encode(TypeSparse, idx), FNode(None, Some(f)))
  {
    var e := Encode(TypeSparse, idx);
    DecodeEncode(TypeSparse, idx);
    DivModUnique(idx, IndexSpan, 0, idx);
    SparseChunkScan(Row(cws, es));
    forall b: Byte ensures Step(t, e, b).Ok? && Means(t, Step(t, e, b).value, f.table[b]) {
      SparseReadBlock(t.sparseData, t.sparseOffsets[idx], ts, b);
      GroupSlot(t, f, cws, es, heads, b);
    }
    StepMeans(t, e, f);
  }

  // ---------------------------------------------------------------------
  // The root chunk and the finished tree
  // ---------------------------------------------------------------------

  /** The root loop keeps the layout ready; when the indices fit, every
      root slot's entry stands for the slot. */
  lemma {:induction false} RootFillReady<V>(l: Layout<V>, root: Fpa<V>, k: int, i: nat, es: seq<nat>,
                                            reach: set<Fpa<V>>, vals: set<V>)
    requires Ready(l, reach, vals, k) && Closed(reach) && Stocked(reach, vals) && RootShape(root)
    requires i <= |root.table| && |es| == i
    requires forall s :: 0 <= s < |root.table| && root.table[s].next.Some? ==> root.table[s].next.value in reach
    requires forall s :: 0 <= s < |root.table| && root.table[s].value.Some? ==> root.table[s].value.value in vals
    requires Fits(reach, vals) ==> forall s :: 0 <= s < i ==> Means(TreeOf(l), es[s], root.table[s])
    ensures var (l', es') := RootFill(l, root, k, i, es);
            Ready(l', reach, vals, k) &&
            (Fits(reach, vals) ==> forall s :: 0 <= s < |root.table| ==> Means(TreeOf(l'), es'[s], root.table[s]))
    decreases |root.table| - i
  {
    if i < |root.table| {
      var (l1, e) := Entry(l, root.table[i], k);
      assert NodeByteLevels(root.table[i]);
      EntryReady(l, root.table[i], k, reach, vals);
      if Fits(reach, vals) {
        EntryGrows(l, root.table[i], k);
        forall s | 0 <= s < i ensures Means(TreeOf(l1), es[s], root.table[s]) {
          MeansMono(TreeOf(l), TreeOf(l1), es[s], root.table[s]);
        }
      }
      assert RootFill(l, root, k, i, es) == RootFill(l1, root, k, i + 1, es + [e]);
      RootFillReady(l1, root, k, i + 1, es + [e], reach, vals);
    }
  }

  /** The values stored in the root array and the arrays below it. */
  ghost function RootValues<V>(root: Fpa<V>): set<V> {
    SlotValues(RootReach(root) + {root})
  }

  lemma SlotValuesStocked<V>(s: set<Fpa<V>>, t: set<Fpa<V>>)
    requires s <= t
    ensures Stocked(s, SlotValues(t))
  {
    forall g, i | g in s && 0 <= i < |g.table| && g.table[i].value.Some?
      ensures g.table[i].value.value in SlotValues(t)
    {
    }
  }

  /** `rootChunk`: root slot `s` in group `s >> 6` at place `s & 63`, the
      slots past the root array 0. */
  function RootChunkOf(es: seq<nat>): (r: seq<seq<nat>>)
    ensures |r| == 1024 && forall g :: 0 <= g < 1024 ==> |r[g]| == 64
  {
    seq(1024, g requires 0 <= g < 1024 => seq(64, b requires 0 <= b < 64 => if 64 * g + b < |es| then es[64 * g + b] else 0))
  }

  /** The root loop run from the empty layout over the arrays below the
      root: the layout it leaves is ready. */
  lemma BuildReady<V>(root: Fpa<V>, k: int)
    requires RootShape(root)
    ensures var (l, es) := RootFill(Empty(), root, k, 0, []);
            Ready(l, RootReach(root), RootValues(root), k) &&
            (Fits(RootReach(root), RootValues(root)) ==>
               forall s :: 0 <= s < |root.table| ==> Means(TreeOf(l), es[s], root.table[s]))
  {
    var reach, vals := RootReach(root), RootValues(root);
    EmptyReady(reach, vals, k);
    ReachSlotsClosed(root, |root.table|);
    SlotValuesStocked(reach, reach + {root});
    SlotValuesStocked({root}, reach + {root});
    forall s | 0 <= s < |root.table| && root.table[s].next.Some? ensures root.table[s].next.value in reach {
      ChildInReachSlots(root, |root.table|, s);
    }
    forall s | 0 <= s < |root.table| && root.table[s].value.Some? ensures root.table[s].value.value in vals {
      assert Stocked({root}, vals);
    }
    RootFillReady(Empty(), root, k, 0, [], reach, vals);
  }

  /** The build makes one chunk per distinct nested array of its kind: as
      many as the pre-scan counts, so the offset arrays it sizes are large
      enough. */
  lemma BuildCounts<V>(root: Fpa<V>, k: int)
    requires RootShape(root)
    ensures var (l, es) := RootFill(Empty(), root, k, 0, []);
            |l.denseOffsets| <= |DenseOf(RootReach(root), k)| && |l.sparseOffsets| <= |SparseOf(RootReach(root), k)| &&
            |l.sparseSizes| == |l.sparseOffsets|
  {
    var (l, es) := RootFill(Empty(), root, k, 0, []);
    BuildReady(root, k);
    SubsetCard(DenseOf(l.cache.Keys, k), DenseOf(RootReach(root), k));
    SubsetCard(SparseOf(l.cache.Keys, k), SparseOf(RootReach(root), k));
  }

  /** What `build` promises: when no index loses a bit, the tree searches
      every 4-byte key as the root array resolves it. The tree may hold
      more than the layout (offset arrays longer than the chunks written). */
  lemma BuildSearches<V>(root: Fpa<V>, k: int, t: Tree<V>)
    requires RootShape(root) && Fits(RootReach(root), RootValues(root))
    requires var (l, es) := RootFill(Empty(), root, k, 0, []);
             Extends(TreeOf(l), t) && t.rootChunk == RootChunkOf(es)
    ensures forall key :: |key| == 4 && RootResolve(root, key).Ok? ==> TreeSearch(t, Some(key)) == RootResolve(root, key)
  {
    var (l, es) := RootFill(Empty(), root, k, 0, []);
    BuildReady(root, k);
    forall s | 0 <= s < |root.table| ensures RootEntry(t, s) == Ok(es[s]) && Means(t, es[s], root.table[s]) {
      MeansMono(TreeOf(l), t, es[s], root.table[s]);
    }
    forall s | |root.table| <= s < 65536 ensures RootEntry(t, s) == Ok(0) {
    }
    RootMeans(t, root);
  }
}

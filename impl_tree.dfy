/** The FPATree of the `fpa.impl` package: a 65536-slot root chunk of lookup
    entries, dense chunks flattened into one code-word array and one
    lookup-entry array per chunk, sparse chunks as short lists of
    (prefix, mask, entry), and the result list the LEAF entries index. The
    builder turns a converted array into these lists, one slot at a time,
    and the search walks them a byte at a time. Both are proved to compute
    `TreeSpecs.Resolve`. */
module ImplTrees {
  import opened Wrappers
  import opened Bits
  import opened Tries
  import opened Fpas
  import opened LookupEntries
  import opened ValueTables
  import opened TreeSpecs
  import opened ChangeCodes
  import opened SparseCodes
  import opened Sorting
  import opened FillSpecs
  import opened Converters
  import BitTries

  const DefaultK: int := 3

  /** `DenseChunkEntry` while it is built: 32 code words (16-bit values) and
      the lookup entries of the row's runs. */
  datatype DenseChunk = DenseChunk(codeWords: seq<nat>, lookupEntries: seq<nat>)

  /** `SparseChunkEntry`: prefix and mask as unsigned bytes. Java compares
      the signed bytes, `prefix == (index8 & mask)`; sign extension is
      injective and commutes with `&`, so comparing the unsigned bytes
      decides the same. */
  datatype SparseEntry = SparseEntry(prefix: nat, mask: nat, lookupEntry: nat)

  /** The finished tree. `rootChunk` is the root array, `denseCodes` holds
      chunk `c`'s code words at `32c..32c + 32`, `denseEntries[c]` its
      lookup entries. */
  datatype Tree<V> = Tree(rootChunk: seq<nat>, denseCodes: seq<nat>, denseEntries: seq<seq<nat>>,
                          sparseChunks: seq<seq<SparseEntry>>, results: seq<Option<V>>)

  // ---------------------------------------------------------------------
  // Search
  // ---------------------------------------------------------------------

  /** `search(byte, DenseChunkEntry)`: a missing code word or entry is an
      `ArrayIndexOutOfBoundsException`, here `SlotMissing`. */
  function DenseRead(c: DenseChunk, b: Byte): Result<nat, Fault> {
    if b / 8 >= |c.codeWords| then Err(SlotMissing)
    else
      var lookupIdx := RankIn(c.codeWords[b / 8], b);
      if 0 <= lookupIdx < |c.lookupEntries| then Ok(c.lookupEntries[lookupIdx]) else Err(SlotMissing)
  }

  /** `search(byte, int)`: the same read on the flattened arrays, code word
      `(base << 5) + idx`. */
  function FlatDenseRead<V>(t: Tree<V>, base: nat, b: Byte): Result<nat, Fault> {
    var at := base * 32 + b / 8;
    if at >= |t.denseCodes| || base >= |t.denseEntries| then Err(SlotMissing)
    else
      var lookupIdx := RankIn(t.denseCodes[at], b);
      if 0 <= lookupIdx < |t.denseEntries[base]| then Ok(t.denseEntries[base][lookupIdx]) else Err(SlotMissing)
  }

  /** An entry matches byte `b` when `b`'s masked bits are its prefix. */
  predicate Matches(x: SparseEntry, b: Byte) {
    And(b, x.mask) == x.prefix
  }

  /** `search(byte, SparseChunkEntry[])`: the first entry that matches, or
      the null entry 0. */
  function SparseScan(es: seq<SparseEntry>, b: Byte): nat {
    if |es| == 0 then 0
    else if Matches(es[0], b) then es[0].lookupEntry
    else SparseScan(es[1..], b)
  }

  /** The scan, as the loop of the source. */
  method SparseSearch(b: Byte, es: seq<SparseEntry>) returns (e: nat)
    ensures e == SparseScan(es, b)
  {
    for i := 0 to |es|
      invariant SparseScan(es, b) == SparseScan(es[i..], b)
    {
      assert es[i..][0] == es[i] && es[i..][1..] == es[i + 1..];
      if Matches(es[i], b) {
        return es[i].lookupEntry;
      }
    }
    return 0;
  }

  /** One step of the search loop from a DENSE or SPARSE entry `e`: the
      entry the next byte `b` leads to. */
  function Step<V>(t: Tree<V>, e: nat, b: Byte): Result<nat, Fault> {
    if EntryType(e) == TypeDense then FlatDenseRead(t, EntryIndex(e), b)
    else if EntryIndex(e) < |t.sparseChunks| then Ok(SparseScan(t.sparseChunks[EntryIndex(e)], b))
    else Err(SlotMissing)
  }

  /** What the search loop returns once it holds entry `e` with `bytes`
      left: entry 0 is `null`, a LEAF its value, DENSE and SPARSE go one
      byte down (a key too short is an exception), type 3 is `null`. */
  function Lookup<V>(t: Tree<V>, e: nat, bytes: seq<Byte>): Result<Option<V>, Fault>
    decreases |bytes|
  {
    if e == 0 then Ok(None)
    else if EntryType(e) == TypeLeaf then
      if EntryIndex(e) < |t.results| then Ok(t.results[EntryIndex(e)]) else Err(SlotMissing)
    else if EntryType(e) == TypeDense || EntryType(e) == TypeSparse then
      if |bytes| == 0 then Err(BytesExhausted)
      else match Step(t, e, bytes[0])
        case Err(f) => Err(f)
        case Ok(next) => Lookup(t, next, bytes[1..])
    else Ok(None)
  }

  /** The root slot `(b0 & 0xFF) << 8 | b1 & 0xFF`, then the loop. */
  function TreeSearch<V>(t: Tree<V>, key: seq<Byte>): Result<Option<V>, Fault> {
    if |key| < 2 then Err(BytesExhausted)
    else
      var s: nat := key[0] as nat * 256 + key[1];
      if s < |t.rootChunk| then Lookup(t, t.rootChunk[s], key[2..]) else Err(SlotMissing)
  }

  /** `search(byte[])`: the root read and the do-while loop. */
  method Search<V>(t: Tree<V>, key: seq<Byte>) returns (r: Result<Option<V>, Fault>)
    ensures r == TreeSearch(t, key)
  {
    if |key| < 2 {
      return Err(BytesExhausted);
    }
    var s: nat := key[0] as nat * 256 + key[1];
    if s >= |t.rootChunk| {
      return Err(SlotMissing);
    }
    var e := t.rootChunk[s];
    var byteIdx := 2;
    while true
      invariant 2 <= byteIdx <= |key|
      invariant TreeSearch(t, key) == Lookup(t, e, key[byteIdx..])
      decreases |key| - byteIdx
    {
      if e == 0 {
        return Ok(None);
      }
      var entryType, index := EntryType(e), EntryIndex(e);
      if entryType == TypeLeaf {
        if index < |t.results| {
          return Ok(t.results[index]);
        }
        return Err(SlotMissing);
      } else if entryType == TypeDense || entryType == TypeSparse {
        if byteIdx >= |key| {
          return Err(BytesExhausted);
        }
        var b := key[byteIdx];
        assert key[byteIdx..][0] == b && key[byteIdx..][1..] == key[byteIdx + 1..];
        if entryType == TypeDense {
          var next := FlatDenseRead(t, index, b);
          if next.Err? {
            return Err(next.error);
          }
          e := next.value;
        } else {
          if index >= |t.sparseChunks| {
            return Err(SlotMissing);
          }
          e := SparseSearch(b, t.sparseChunks[index]);
        }
        byteIdx := byteIdx + 1;
      } else {
        return Ok(None);
      }
    }
  }

  // ---------------------------------------------------------------------
  // Meaning of an entry, and growth of the lists
  // ---------------------------------------------------------------------

  /** Entry `e` stands for slot `n`: whatever bytes follow, the search from
      `e` answers what resolving `n` answers. */
  ghost predicate Means<V>(t: Tree<V>, e: nat, n: FNode<V>) {
    forall bytes :: Lookup(t, e, bytes) == Resolve(n, bytes)
  }

  /** Lists only ever grow at their ends. */
  predicate Extends<V(==)>(a: Tree<V>, b: Tree<V>) {
    a.denseCodes <= b.denseCodes && a.denseEntries <= b.denseEntries &&
    a.sparseChunks <= b.sparseChunks && a.results <= b.results
  }

  /** Growing the lists changes no answer that did not fail on a missing
      slot. */
  lemma {:induction false} LookupMono<V>(a: Tree<V>, b: Tree<V>, e: nat, bytes: seq<Byte>)
    requires Extends(a, b) && Lookup(a, e, bytes) != Err(SlotMissing)
    ensures Lookup(b, e, bytes) == Lookup(a, e, bytes)
    decreases |bytes|
  {
    if e != 0 && (EntryType(e) == TypeDense || EntryType(e) == TypeSparse) && |bytes| > 0 {
      var i, x := EntryIndex(e), bytes[0];
      if EntryType(e) == TypeDense {
        var at := i * 32 + x / 8;
        assert at < |a.denseCodes| && i < |a.denseEntries|;
        assert b.denseCodes[at] == a.denseCodes[at] && b.denseEntries[i] == a.denseEntries[i];
      } else {
        assert b.sparseChunks[i] == a.sparseChunks[i];
      }
      assert Step(b, e, x) == Step(a, e, x);
      LookupMono(a, b, Step(a, e, x).value, bytes[1..]);
    }
  }

  lemma MeansMono<V>(a: Tree<V>, b: Tree<V>, e: nat, n: FNode<V>)
    requires Extends(a, b) && Means(a, e, n) && NodeByteLevels(n)
    ensures Means(b, e, n)
  {
    forall bytes ensures Lookup(b, e, bytes) == Resolve(n, bytes) {
      ResolveNeverMissing(n, bytes);
      LookupMono(a, b, e, bytes);
    }
  }

  /** Entries `es` stand for the slots `ns`, one by one. */
  ghost predicate AllMean<V>(t: Tree<V>, es: seq<nat>, ns: seq<FNode<V>>) {
    |es| == |ns| && forall r :: 0 <= r < |es| ==> NodeByteLevels(ns[r]) && Means(t, es[r], ns[r])
  }

  lemma AllMeanMono<V>(a: Tree<V>, b: Tree<V>, es: seq<nat>, ns: seq<FNode<V>>)
    requires Extends(a, b) && AllMean(a, es, ns)
    ensures AllMean(b, es, ns)
  {
    forall r | 0 <= r < |es| ensures Means(b, es[r], ns[r]) {
      MeansMono(a, b, es[r], ns[r]);
    }
  }

  /** A DENSE or SPARSE entry whose step on every byte leads to an entry
      for that byte's slot stands for the whole level. */
  lemma StepMeans<V>(t: Tree<V>, e: nat, root: Fpa<V>)
    requires e != 0 && (EntryType(e) == TypeDense || EntryType(e) == TypeSparse)
    requires |root.table| == 256
    requires forall b: Byte :: Step(t, e, b).Ok? && Means(t, Step(t, e, b).value, root.table[b])
    ensures Means(t, e, FNode(None, Some(root)))
  {
    forall bytes ensures Lookup(t, e, bytes) == Resolve(FNode(None, Some(root)), bytes) {
      if |bytes| > 0 {
        var next := Step(t, e, bytes[0]);
        assert Means(t, next.value, root.table[bytes[0]]);
      }
    }
  }

  /** The value a slot holds does not matter once it has a nested array. */
  lemma NestedMeans<V>(t: Tree<V>, e: nat, n: FNode<V>)
    requires n.next.Some? && Means(t, e, FNode(None, n.next))
    ensures Means(t, e, n)
  {
    forall bytes ensures Lookup(t, e, bytes) == Resolve(n, bytes) {
      assert Lookup(t, e, bytes) == Resolve(FNode(None, n.next), bytes);
    }
  }

  // ---------------------------------------------------------------------
  // Sparse chunks
  // ---------------------------------------------------------------------

  /** The sparse entry the traversal callback makes for leaf `(prefix, v)`. */
  function EntryOf(prefix: seq<bool>, v: nat): SparseEntry
    requires |prefix| <= 8
  {
    SparseEntry(Msb(prefix), MaskOf(|prefix|), v)
  }

  /** The callback's loop: each prefix bit `i` sets bit `7 - i` of the mask
      and, when it is 1, of the prefix; the prefix is masked at the end. */
  method MakeEntry(prefix: seq<bool>, v: nat) returns (entry: SparseEntry)
    requires |prefix| <= 8
    ensures entry == EntryOf(prefix, v)
    ensures forall b: Byte :: Matches(entry, b) <==> prefix <= NatToBits(b, 8)
  {
    var p, m := 0, 0;
    for i := 0 to |prefix|
      invariant p == Msb(prefix[..i]) && m == Msb(Ones(i))
    {
      assert prefix[..i + 1] == prefix[..i] + [prefix[i]];
      assert Ones(i + 1) == Ones(i) + [true];
      MsbStep(prefix[..i], prefix[i]);
      MsbStep(Ones(i), true);
      if prefix[i] {
        p := Or(p, Shl(1, 7 - i));
      }
      m := Or(m, Shl(1, 7 - i));
    }
    assert prefix[..|prefix|] == prefix;
    MaskKeepsPrefix(prefix);
    p := And(p, m);
    entry := SparseEntry(p, m, v);
    forall b: Byte ensures Matches(entry, b) <==> prefix <= NatToBits(b, 8) {
      MaskMatch(prefix, b);
    }
  }

  /** The entries the traversal collects, in traversal order: one per leaf,
      skipping leaves that hold the null entry 0. */
  function SelectEntries(leaves: seq<(seq<bool>, nat)>): seq<SparseEntry>
    requires forall i :: 0 <= i < |leaves| ==> |leaves[i].0| <= 8
  {
    if |leaves| == 0 then []
    else
      var last := leaves[|leaves| - 1];
      SelectEntries(leaves[..|leaves| - 1]) + (if last.1 == 0 then [] else [EntryOf(last.0, last.1)])
  }

  /** Every collected entry comes from a leaf whose entry is not null. */
  lemma {:induction false} SelectSound(leaves: seq<(seq<bool>, nat)>)
    requires forall i :: 0 <= i < |leaves| ==> |leaves[i].0| <= 8
    ensures forall x :: x in SelectEntries(leaves) ==>
              x.lookupEntry != 0 && exists i :: 0 <= i < |leaves| && x == EntryOf(leaves[i].0, leaves[i].1)
  {
    if |leaves| > 0 {
      var init := leaves[..|leaves| - 1];
      SelectSound(init);
      forall x | x in SelectEntries(leaves)
        ensures x.lookupEntry != 0 && exists i :: 0 <= i < |leaves| && x == EntryOf(leaves[i].0, leaves[i].1)
      {
        if x in SelectEntries(init) {
          var i :| 0 <= i < |init| && x == EntryOf(init[i].0, init[i].1);
          assert leaves[i] == init[i];
        } else {
          assert x == EntryOf(leaves[|leaves| - 1].0, leaves[|leaves| - 1].1);
        }
      }
    }
  }

  /** Every leaf whose entry is not null is collected. */
  lemma {:induction false} SelectComplete(leaves: seq<(seq<bool>, nat)>)
    requires forall i :: 0 <= i < |leaves| ==> |leaves[i].0| <= 8
    ensures forall i :: 0 <= i < |leaves| && leaves[i].1 != 0 ==>
              EntryOf(leaves[i].0, leaves[i].1) in SelectEntries(leaves)
  {
    if |leaves| > 0 {
      var init := leaves[..|leaves| - 1];
      SelectComplete(init);
      forall i | 0 <= i < |leaves| && leaves[i].1 != 0
        ensures EntryOf(leaves[i].0, leaves[i].1) in SelectEntries(leaves)
      {
        if i < |init| {
          assert leaves[i] == init[i];
        }
      }
    }
  }

  /** `Collections.sort` on `compareTo`: the number of mask bits. */
  function MaskWidth(x: SparseEntry): nat {
    PopCount(x.mask)
  }

  /** The trie `processSparseLayer` puts the row's 256 entries into, after
      `compress`. */
  ghost function SparseTrieOf(es: seq<nat>): Trie<nat>
    requires |es| == 256
  {
    Compress(Filled(es, 256), ImplCompress)
  }

  /** The entries its traversal collects, before sorting. */
  ghost function SparseEntriesOf(es: seq<nat>): seq<SparseEntry>
    requires |es| == 256
  {
    var c := SparseTrieOf(es);
    SparseTrie(es, ImplCompress);
    LeavesShallow(c);
    SelectEntries(Leaves(c))
  }

  /** A scan whose matching entries all hold `w`, and one of them does when
      `w` is not null, returns `w`. */
  lemma {:induction false} ScanAll(es: seq<SparseEntry>, b: Byte, w: nat)
    requires forall x :: x in es && Matches(x, b) ==> x.lookupEntry == w
    requires w != 0 ==> exists x :: x in es && Matches(x, b)
    ensures SparseScan(es, b) == w
  {
    if |es| > 0 && !Matches(es[0], b) {
      if w != 0 {
        var x :| x in es && Matches(x, b);
        assert x in es[1..] by {
          assert x != es[0] && es == [es[0]] + es[1..];
        }
      }
      ScanAll(es[1..], b, w);
    }
  }

  /** The sparse chunk answers for every byte exactly the entry the dense
      chunk gives it: every matching entry comes from a leaf on the byte's
      path, which in the compressed trie holds the byte's entry, and the
      leaf that holds it is among the entries when it is not null. Sorting
      keeps the same entries. */
  lemma SparseChunkScan(es: seq<nat>)
    requires |es| == 256
    ensures forall b: Byte :: SparseScan(SortByKey(SparseEntriesOf(es), MaskWidth), b) == es[b]
  {
    var sel := SparseEntriesOf(es);
    var sorted := SortByKey(sel, MaskWidth);
    SortByKeyFacts(sel, MaskWidth);
    forall b: Byte ensures SparseScan(sorted, b) == es[b] {
      MatchesHold(es, b);
      forall x | x in sorted && Matches(x, b) ensures x.lookupEntry == es[b] {
        assert x in multiset(sorted);
      }
      if es[b] != 0 {
        var x :| x in sel && Matches(x, b);
        assert x in multiset(sel);
        assert x in sorted;
      }
      ScanAll(sorted, b, es[b]);
    }
  }

  /** Before sorting: the entries matching `b` all hold `es[b]`, and one of
      them does when `es[b]` is not null. */
  lemma MatchesHold(es: seq<nat>, b: Byte)
    requires |es| == 256
    ensures forall x :: x in SparseEntriesOf(es) && Matches(x, b) ==> x.lookupEntry == es[b]
    ensures es[b] != 0 ==> exists x :: x in SparseEntriesOf(es) && Matches(x, b)
  {
    var c := SparseTrieOf(es);
    SparseTrie(es, ImplCompress);
    LeavesShallow(c);
    var leaves := Leaves(c);
    var sel := SelectEntries(leaves);
    assert sel == SparseEntriesOf(es);
    var q := NatToBits(b, 8);
    CleanLeavesOnPath(c, q);
    SelectSound(leaves);
    forall x | x in sel && Matches(x, b) ensures x.lookupEntry == es[b] {
      var i :| 0 <= i < |leaves| && x == EntryOf(leaves[i].0, leaves[i].1);
      MaskMatch(leaves[i].0, b);
      assert leaves[i] in leaves;
    }
    if es[b] != 0 {
      SelectComplete(leaves);
      var e :| e in leaves && e.0 <= q && e.1 == es[b];
      var i :| 0 <= i < |leaves| && leaves[i] == e;
      MaskMatch(e.0, b);
      assert EntryOf(e.0, e.1) in sel;
    }
  }

  // ---------------------------------------------------------------------
  // Dense chunks and their flattening
  // ---------------------------------------------------------------------

  /** Every chunk has its 32 code words. */
  predicate Rows32(cs: seq<DenseChunk>) {
    forall c :: 0 <= c < |cs| ==> |cs[c].codeWords| == 32
  }

  /** The code words of all chunks, one chunk after the other. */
  function FlatCodes(cs: seq<DenseChunk>): seq<nat> {
    if |cs| == 0 then [] else FlatCodes(cs[..|cs| - 1]) + cs[|cs| - 1].codeWords
  }

  function FlatEntries(cs: seq<DenseChunk>): (r: seq<seq<nat>>)
    ensures |r| == |cs| && forall c :: 0 <= c < |cs| ==> r[c] == cs[c].lookupEntries
  {
    seq(|cs|, c requires 0 <= c < |cs| => cs[c].lookupEntries)
  }

  lemma {:induction false} FlatCodesSize(cs: seq<DenseChunk>)
    requires Rows32(cs)
    ensures |FlatCodes(cs)| == 32 * |cs|
  {
    if |cs| > 0 {
      FlatCodesSize(cs[..|cs| - 1]);
    }
  }

  /** An array holding chunk `c`'s code words at `32c..32c + 32` is the
      flattening. */
  lemma {:induction false} FlatCodesEq(a: seq<nat>, cs: seq<DenseChunk>)
    requires Rows32(cs) && |a| == 32 * |cs|
    requires forall c, w :: 0 <= c < |cs| && 0 <= w < 32 ==> a[32 * c + w] == cs[c].codeWords[w]
    ensures a == FlatCodes(cs)
  {
    if |cs| > 0 {
      var n := |cs| - 1;
      var init := cs[..n];
      forall c, w | 0 <= c < n && 0 <= w < 32 ensures a[..32 * n][32 * c + w] == init[c].codeWords[w] {
        assert init[c] == cs[c];
      }
      FlatCodesEq(a[..32 * n], init);
      assert a[32 * n..] == cs[n].codeWords by {
        forall w | 0 <= w < 32 ensures a[32 * n..][w] == cs[n].codeWords[w] {
          assert a[32 * n + w] == cs[n].codeWords[w];
        }
      }
      assert a == a[..32 * n] + a[32 * n..];
    }
  }

  /** Appending a chunk puts its code words right after the others, so the
      flattened read at its index is the chunk's own read. */
  lemma AppendDense<V>(t: Tree<V>, cs: seq<DenseChunk>, c: DenseChunk, b: Byte)
    requires Rows32(cs) && |c.codeWords| == 32
    requires t.denseCodes == FlatCodes(cs + [c]) && t.denseEntries == FlatEntries(cs + [c])
    ensures FlatDenseRead(t, |cs|, b) == DenseRead(c, b)
  {
    var all, n := cs + [c], |cs|;
    assert all[..|all| - 1] == cs && all[|all| - 1] == c;
    FlatCodesSize(cs);
    assert t.denseCodes == FlatCodes(cs) + c.codeWords;
    var w := b / 8;
    assert 0 <= w < 32;
    assert t.denseCodes[n * 32 + w] == c.codeWords[w];
    assert t.denseEntries[n] == c.lookupEntries;
  }

  /** Every byte of slot row `root` reads from `c` an entry that stands for
      the byte's slot. */
  ghost predicate ReadsMean<V>(t: Tree<V>, c: DenseChunk, root: Fpa<V>) {
    |root.table| == 256 &&
    forall b: Byte :: DenseRead(c, b).Ok? && Means(t, DenseRead(c, b).value, root.table[b])
  }

  lemma ReadsMeanMono<V>(a: Tree<V>, b: Tree<V>, c: DenseChunk, root: Fpa<V>)
    requires Extends(a, b) && ReadsMean(a, c, root) && ByteLevel(root)
    ensures ReadsMean(b, c, root)
  {
    forall x: Byte ensures Means(b, DenseRead(c, x).value, root.table[x]) {
      MeansMono(a, b, DenseRead(c, x).value, root.table[x]);
    }
  }

  /** Slot `b = 8c + j` reads entry number `(run starts up to b) - 1`. */
  lemma SlotRank(flags: seq<bool>, cw: seq<nat>, b: Byte, c: nat, j: nat)
    requires |flags| == 256 && |cw| == 32
    requires forall c :: 0 <= c < 32 ==> cw[c] == CodeWord(flags, c)
    requires b == 8 * c + j && j < 8
    ensures b / 8 == c && b % 8 == j && RankIn(cw[c], b) == CountTrue(flags[..b + 1]) - 1
  {
    DivModUnique(b, 8, c, j);
    DecodeRank(flags, c, j);
  }

  /** The chunk the row loop builds: its code words say where the runs
      start, its entries stand for the runs' heads, so every byte reads an
      entry for its own slot. */
  lemma ChunkMeans<V>(t: Tree<V>, root: Fpa<V>, heads: seq<FNode<V>>, cw: seq<nat>, entries: seq<nat>)
    requires ByteLevel(root)
    requires Owned(root.table, Changes(root.table, true), heads, 256) && AllMean(t, entries, heads)
    requires |cw| == 32 && forall c :: 0 <= c < 32 ==> cw[c] == CodeWord(Changes(root.table, true), c)
    ensures ReadsMean(t, DenseChunk(cw, entries), root)
  {
    forall b: Byte
      ensures DenseRead(DenseChunk(cw, entries), b).Ok?
      ensures Means(t, DenseRead(DenseChunk(cw, entries), b).value, root.table[b])
    {
      ChunkSlot(t, root, heads, cw, entries, b);
    }
  }

  lemma ChunkSlot<V>(t: Tree<V>, root: Fpa<V>, heads: seq<FNode<V>>, cw: seq<nat>, entries: seq<nat>, b: Byte)
    requires |root.table| == 256
    requires Owned(root.table, Changes(root.table, true), heads, 256) && AllMean(t, entries, heads)
    requires |cw| == 32 && forall c :: 0 <= c < 32 ==> cw[c] == CodeWord(Changes(root.table, true), c)
    ensures DenseRead(DenseChunk(cw, entries), b).Ok?
    ensures Means(t, DenseRead(DenseChunk(cw, entries), b).value, root.table[b])
  {
    var flags := Changes(root.table, true);
    SlotRank(flags, cw, b, b / 8, b % 8);
    assert RunOwned(root.table, flags, heads, b);
    var r := CountTrue(flags[..b + 1]);
    assert DenseRead(DenseChunk(cw, entries), b) == Ok(entries[r - 1]);
    assert heads[r - 1] == root.table[b];
  }

  /** A leaf entry is its value's index, and index 0 holds `null`. */
  lemma LeafMeans<V>(t: Tree<V>, idx: nat, n: FNode<V>)
    requires n.next.None? && idx < |t.results| && idx < IndexSpan
    requires t.results[idx] == n.value && t.results[0] == None
    ensures Means(t, Encode(TypeLeaf, idx), n)
  {
    LeafIsIndex(idx);
    forall bytes ensures Lookup(t, idx, bytes) == Resolve(n, bytes) {
    }
  }

  /** What the row loop knows after `slot` slots: the heads of the runs so
      far, entries standing for them, and `p1` the last slot visited. */
  ghost predicate RowInvariant<V>(root: Fpa<V>, heads: seq<FNode<V>>, entries: seq<nat>, t: Tree<V>,
                                  slot: nat, p1: Option<FNode<V>>)
  {
    |root.table| == 256 && slot <= 256 &&
    Owned(root.table, Changes(root.table, true), heads, slot) && AllMean(t, entries, heads) &&
    (slot == 0 ==> p1.None?) && (slot > 0 ==> p1 == Some(root.table[slot - 1]))
  }

  /** The byte of cluster `i` after its first `j` slots. */
  ghost function RunByte<V>(root: Fpa<V>, i: nat, j: nat): nat
    requires |root.table| == 256 && i < 32 && j <= 8
  {
    Msb(Changes(root.table, true)[8 * i..8 * i + j])
  }

  /** Visiting slot `slot`: it starts a run exactly when it differs from
      `p1`; a slot that does not keeps the row invariant as it is, one that
      does makes it the next run's head. */
  lemma RowStep<V>(root: Fpa<V>, heads: seq<FNode<V>>, entries: seq<nat>, t: Tree<V>, slot: nat, p1: Option<FNode<V>>)
    requires RowInvariant(root, heads, entries, t, slot, p1) && slot < 256
    ensures (p1 != Some(root.table[slot])) == Changes(root.table, true)[slot]
    ensures p1 == Some(root.table[slot]) ==> RowInvariant(root, heads, entries, t, slot + 1, p1)
    ensures p1 != Some(root.table[slot]) ==>
              Owned(root.table, Changes(root.table, true), heads + [root.table[slot]], slot + 1)
  {
    OwnedStep(root.table, heads, slot);
  }

  /** A run start sets bit `7 - j` of the cluster byte, any other slot
      leaves it. */
  lemma ByteStep<V>(root: Fpa<V>, i: nat, j: nat)
    requires |root.table| == 256 && i < 32 && j < 8
    ensures var flags := Changes(root.table, true);
            if flags[8 * i + j] then Or(RunByte(root, i, j), Shl(1, 7 - j)) == RunByte(root, i, j + 1)
            else RunByte(root, i, j) == RunByte(root, i, j + 1)
  {
    var flags := Changes(root.table, true);
    var run := flags[8 * i..8 * i + j];
    assert flags[8 * i..8 * i + j + 1] == run + [flags[8 * i + j]];
    MsbStep(run, flags[8 * i + j]);
  }

  /** Closing cluster `i` with the number of runs before it gives its code
      word. */
  lemma ClusterClose<V>(root: Fpa<V>, i: nat, before: nat)
    requires |root.table| == 256 && i < 32 && before == CountTrue(Changes(root.table, true)[..8 * i])
    ensures Or(Shl(RunByte(root, i, 8), 8), before) == CodeWord(Changes(root.table, true), i)
  {
    CloseCluster(Changes(root.table, true), i);
  }

  lemma ExtendsTrans<V>(a: Tree<V>, b: Tree<V>, c: Tree<V>)
    requires Extends(a, b) && Extends(b, c)
    ensures Extends(a, c)
  {
  }

  lemma AllMeanSnoc<V>(t: Tree<V>, es: seq<nat>, ns: seq<FNode<V>>, e: nat, n: FNode<V>)
    requires AllMean(t, es, ns) && NodeByteLevels(n) && Means(t, e, n)
    ensures AllMean(t, es + [e], ns + [n])
  {
    forall r | 0 <= r < |es| + 1 ensures NodeByteLevels((ns + [n])[r]) && Means(t, (es + [e])[r], (ns + [n])[r]) {
      if r < |es| {
        assert (es + [e])[r] == es[r] && (ns + [n])[r] == ns[r];
      }
    }
  }

  /** A root chunk whose first slots stand for the root array's slots and
      whose other slots are 0 searches as the root array resolves. */
  lemma RootMeans<V>(t: Tree<V>, root: Fpa<V>)
    requires |root.table| <= 65536 == |t.rootChunk|
    requires AllMean(t, t.rootChunk[..|root.table|], root.table)
    requires forall s :: |root.table| <= s < 65536 ==> t.rootChunk[s] == 0
    ensures forall key :: TreeSearch(t, key) == RootResolve(root, key)
  {
    forall key ensures TreeSearch(t, key) == RootResolve(root, key) {
      if |key| >= 2 {
        RootSlotBound(key[0], key[1]);
        var s: nat := key[0] as nat * 256 + key[1];
        if s < |root.table| {
          assert t.rootChunk[..|root.table|][s] == t.rootChunk[s];
          assert Means(t, t.rootChunk[s], root.table[s]);
        }
      }
    }
  }

  lemma RootSlotBound(b0: Byte, b1: Byte)
    ensures b0 as nat * 256 + b1 < 65536
  {
  }

  // ---------------------------------------------------------------------
  // Builder
  // ---------------------------------------------------------------------

  /** `FPATree.Builder`: the value store, the chunk lists and `K`. The
      builder's `fpa_root` is the argument of `Build`. */
  class Builder<V(==)> {
    const values: ValueTable<V>
    var denseChunks: seq<DenseChunk>
    var sparseChunks: seq<seq<SparseEntry>>
    var k: int

    ghost predicate Valid()
      reads this, values
    {
      values.Valid() && values.NullFirst() && Rows32(denseChunks)
    }

    /** The tree the lists make so far. */
    ghost function Current(): Tree<V>
      reads this, values
    {
      Tree([], FlatCodes(denseChunks), FlatEntries(denseChunks), sparseChunks, values.list)
    }

    /** Entries in all lists: every index handed out is below it. */
    ghost function Used(): nat
      reads this, values
    {
      |values.list| + |denseChunks| + |sparseChunks|
    }

    constructor ()
      ensures Valid() && fresh(values)
      ensures values.list == [None] && denseChunks == [] && sparseChunks == [] && k == DefaultK
    {
      values := new ValueTable<V>.Seeded();
      denseChunks := [];
      sparseChunks := [];
      k := DefaultK;
    }

    /** `K(int)`. */
    method SetK(newK: int)
      modifies this
      ensures k == newK && denseChunks == old(denseChunks) && sparseChunks == old(sparseChunks)
    {
      k := newK;
    }

    /** `processLookupEntry`: a slot without a nested array is a LEAF entry
        for its value's index, one with a nested array is what
        `processLayer` makes of it. */
    method ProcessLookupEntry(n: FNode<V>) returns (e: nat)
      requires Valid() && NodeByteLevels(n) && Used() + NodeWeight(n) <= IndexSpan
      modifies this, values
      ensures Valid() && k == old(k) && Extends(old(Current()), Current())
      ensures Used() <= old(Used()) + NodeWeight(n)
      ensures Means(Current(), e, n)
      decreases n, 3
    {
      if n.next.None? {
        var idx := values.GetValueIndex(n.value);
        e := Encode(TypeLeaf, idx);
        LeafMeans(Current(), idx, n);
      } else {
        e := ProcessLayer(n.next.value);
        NestedMeans(Current(), e, n);
      }
    }

    /** `processLayer`: one entry per run of equal neighbours, code words
        marking the run starts, then a sparse chunk when the row has at
        most `4K` runs and the sparse chunk at most `K` entries, else a
        dense chunk. */
    method ProcessLayer(root: Fpa<V>) returns (e: nat)
      requires Valid() && ByteLevel(root) && Used() + 1 + TableWeight(root, 256) <= IndexSpan
      modifies this, values
      ensures Valid() && k == old(k) && Extends(old(Current()), Current())
      ensures Used() <= old(Used()) + 1 + TableWeight(root, 256)
      ensures Means(Current(), e, FNode(None, Some(root)))
      decreases root, 2
    {
      ghost var flags := Changes(root.table, true);
      ghost var heads: seq<FNode<V>> := [];
      ghost var t0 := Current();
      ghost var used0 := Used();
      var cw := new nat[32](_ => 0);
      var entries: seq<nat> := [];
      var p1: Option<FNode<V>> := None;
      var before := 0;
      OwnedStart(root.table, true);
      TableWeightMonotone(root, 0, 256);
      for i := 0 to 32
        invariant Valid() && k == old(k) && Extends(t0, Current())
        invariant Used() <= used0 + TableWeight(root, 8 * i)
        invariant RowInvariant(root, heads, entries, Current(), 8 * i, p1)
        invariant before == |entries|
        invariant forall c :: 0 <= c < i ==> cw[c] == CodeWord(flags, c)
        invariant forall c :: i <= c < 32 ==> cw[c] == 0
      {
        ghost var t1 := Current();
        TableWeightMonotone(root, 8 * i, 8 * i + 8);
        TableWeightMonotone(root, 8 * i + 8, 256);
        p1, entries, heads := VisitCluster(root, cw, i, before, p1, entries, heads);
        ExtendsTrans(t0, t1, Current());
        before := |entries|;
      }
      var chunk := DenseChunk(cw[..], entries);
      ChunkMeans(Current(), root, heads, cw[..], entries);
      ghost var t1 := Current();
      e := StoreChunk(root, chunk);
      ExtendsTrans(t0, t1, Current());
    }

    /** The end of `processLayer`: a row of at most `4K` runs whose sparse
        chunk has at most `K` entries becomes a SPARSE entry, any other row
        is appended as a dense chunk and becomes a DENSE entry. */
    method StoreChunk(root: Fpa<V>, chunk: DenseChunk) returns (e: nat)
      requires Valid() && ByteLevel(root) && |chunk.codeWords| == 32
      requires ReadsMean(Current(), chunk, root) && Used() < IndexSpan
      modifies this
      ensures Valid() && k == old(k) && Extends(old(Current()), Current())
      ensures Used() <= old(Used()) + 1
      ensures Means(Current(), e, FNode(None, Some(root)))
    {
      ghost var t1 := Current();
      if |chunk.lookupEntries| <= k * 4 {
        var layerIdx := ProcessSparseLayer(root, chunk);
        if layerIdx >= 0 {
          e := Encode(TypeSparse, layerIdx);
          SparseMeans(t1, Current(), chunk, root, layerIdx);
          return;
        }
      }
      e := StoreDense(root, chunk);
    }

    /** The dense branch: the row appended to the dense chunk list, and a
        DENSE entry for its position. */
    method StoreDense(root: Fpa<V>, chunk: DenseChunk) returns (e: nat)
      requires Valid() && ByteLevel(root) && |chunk.codeWords| == 32
      requires ReadsMean(Current(), chunk, root) && Used() < IndexSpan
      modifies this
      ensures Valid() && k == old(k) && Extends(old(Current()), Current())
      ensures denseChunks == old(denseChunks) + [chunk] && sparseChunks == old(sparseChunks)
      ensures Means(Current(), e, FNode(None, Some(root)))
    {
      ghost var t1 := Current();
      e := Encode(TypeDense, |denseChunks|);
      ghost var cs := denseChunks;
      denseChunks := denseChunks + [chunk];
      DenseExtends(t1, Current(), cs, chunk);
      ReadsMeanMono(t1, Current(), chunk, root);
      DenseMeans(Current(), cs, chunk, root);
    }

    /** One pass of the outer loop of `processLayer`, over cluster `i`: a
        slot unlike its left neighbour starts a run, gets an entry and sets
        its bit `7 - j` in the cluster's byte; the byte is then shifted up
        and `before`, the runs of the earlier clusters, put below it. */
    method VisitCluster(root: Fpa<V>, cw: array<nat>, i: nat, before: nat, p1: Option<FNode<V>>,
                        entries: seq<nat>, ghost heads: seq<FNode<V>>)
      returns (p1': Option<FNode<V>>, entries': seq<nat>, ghost heads': seq<FNode<V>>)
      requires Valid() && ByteLevel(root) && i < 32 && cw.Length == 32 && cw[i] == 0
      requires RowInvariant(root, heads, entries, Current(), 8 * i, p1) && before == |entries|
      requires Used() + (TableWeight(root, 8 * i + 8) - TableWeight(root, 8 * i)) <= IndexSpan
      modifies this, values, cw
      ensures Valid() && k == old(k) && Extends(old(Current()), Current())
      ensures Used() <= old(Used()) + (TableWeight(root, 8 * i + 8) - TableWeight(root, 8 * i))
      ensures RowInvariant(root, heads', entries', Current(), 8 * i + 8, p1')
      ensures cw[i] == CodeWord(Changes(root.table, true), i)
      ensures forall c :: 0 <= c < 32 && c != i ==> cw[c] == old(cw[c])
      decreases root, 1
    {
      ghost var t0 := Current();
      ghost var used0 := Used();
      p1', entries', heads' := p1, entries, heads;
      assert Changes(root.table, true)[8 * i..8 * i] == [];
      for j := 0 to 8
        invariant Valid() && k == old(k) && Extends(t0, Current())
        invariant Used() <= used0 + (TableWeight(root, 8 * i + j) - TableWeight(root, 8 * i))
        invariant RowInvariant(root, heads', entries', Current(), 8 * i + j, p1')
        invariant cw[i] == RunByte(root, i, j)
        invariant forall c :: 0 <= c < 32 && c != i ==> cw[c] == old(cw[c])
      {
        TableWeightMonotone(root, 8 * i + j + 1, 8 * i + 8);
        ghost var t1 := Current();
        p1', entries', heads' := VisitSlot(root, cw, i, j, p1', entries', heads');
        ExtendsTrans(t0, t1, Current());
      }
      ClusterClose(root, i, before);
      cw[i] := Or(Shl(cw[i], 8), before);
    }

    /** One slot of the inner loop: `!Objects.equals(p1, p2)` starts a run.
        Datatype equality is Java's `equals` on these nodes
        (`Fpas.FpaEqualsIsEquality`); `p1` is `null` only before slot 0. */
    method VisitSlot(root: Fpa<V>, cw: array<nat>, i: nat, j: nat, p1: Option<FNode<V>>, entries: seq<nat>,
                     ghost heads: seq<FNode<V>>)
      returns (p1': Option<FNode<V>>, entries': seq<nat>, ghost heads': seq<FNode<V>>)
      requires Valid() && ByteLevel(root) && i < 32 && j < 8 && cw.Length == 32
      requires RowInvariant(root, heads, entries, Current(), 8 * i + j, p1)
      requires cw[i] == RunByte(root, i, j)
      requires Used() + NodeWeight(root.table[8 * i + j]) <= IndexSpan
      modifies this, values, cw
      ensures Valid() && k == old(k) && Extends(old(Current()), Current())
      ensures Used() <= old(Used()) + NodeWeight(root.table[8 * i + j])
      ensures RowInvariant(root, heads', entries', Current(), 8 * i + j + 1, p1')
      ensures cw[i] == RunByte(root, i, j + 1)
      ensures forall c :: 0 <= c < 32 && c != i ==> cw[c] == old(cw[c])
      decreases root, 0
    {
      var slot := 8 * i + j;
      var p2 := root.table[slot];
      RowStep(root, heads, entries, Current(), slot, p1);
      ByteStep(root, i, j);
      p1', entries', heads' := p1, entries, heads;
      if p1 != Some(p2) {
        p1' := Some(p2);
        entries' := AddRun(p2, entries, heads);
        heads' := heads + [p2];
        cw[i] := Or(cw[i], Shl(1, 7 - j));
      }
    }

    /** A run start: `lookupEntries.add(processLookupEntry(p1))`. */
    method AddRun(n: FNode<V>, entries: seq<nat>, ghost heads: seq<FNode<V>>) returns (entries': seq<nat>)
      requires Valid() && NodeByteLevels(n) && Used() + NodeWeight(n) <= IndexSpan
      requires AllMean(Current(), entries, heads)
      modifies this, values
      ensures Valid() && k == old(k) && Extends(old(Current()), Current())
      ensures Used() <= old(Used()) + NodeWeight(n)
      ensures |entries'| == |entries| + 1 && entries'[..|entries|] == entries
      ensures AllMean(Current(), entries', heads + [n])
      decreases n, 4
    {
      ghost var t0 := Current();
      var entry := ProcessLookupEntry(n);
      AllMeanMono(t0, Current(), entries, heads);
      entries' := entries + [entry];
      assert entries'[..|entries|] == entries;
    }

    /** `transformDenseChunk`: chunk `i`'s code words copied to
        `32i..32i + 32` of one array (`System.arraycopy`), its lookup
        entries to slot `i` of another. */
    method TransformDenseChunk() returns (codes: array<nat>, lookups: array<seq<nat>>)
      requires Rows32(denseChunks)
      ensures fresh(codes) && fresh(lookups)
      ensures codes[..] == FlatCodes(denseChunks) && lookups[..] == FlatEntries(denseChunks)
    {
      var size := |denseChunks|;
      codes := new nat[size * 32];
      lookups := new seq<nat>[size];
      for i := 0 to size
        invariant forall c, w :: 0 <= c < i && 0 <= w < 32 ==> codes[32 * c + w] == denseChunks[c].codeWords[w]
        invariant forall c :: 0 <= c < i ==> lookups[c] == denseChunks[c].lookupEntries
      {
        var chunk := denseChunks[i];
        forall w | 0 <= w < 32 {
          codes[i * 32 + w] := chunk.codeWords[w];
        }
        lookups[i] := chunk.lookupEntries;
      }
      FlatCodesEq(codes[..], denseChunks);
    }

    /** `build`: a lookup entry for every slot of the root array, zeros
        for the root slots past its end, then the flattening. The tree's
        search answers what resolving the root array answers, for every
        key. */
    method Build(root: Fpa<V>) returns (tree: Tree<V>)
      requires Valid() && RootShape(root) && Used() + TableWeight(root, |root.table|) <= IndexSpan
      modifies this, values
      ensures forall key :: TreeSearch(tree, key) == RootResolve(root, key)
    {
      var slots := ProcessRoot(root);
      var rootChunk := new nat[65536](s requires 0 <= s < 65536 => if s < |slots| then slots[s] else 0);
      var codes, lookups := TransformDenseChunk();
      tree := Tree(rootChunk[..], codes[..], lookups[..], sparseChunks, values.list);
      assert tree.rootChunk[..|slots|] == slots;
      AllMeanMono(Current(), tree, slots, root.table);
      RootMeans(tree, root);
    }

    /** The loop of `build`: an entry for every slot of the root array. */
    method ProcessRoot(root: Fpa<V>) returns (slots: seq<nat>)
      requires Valid() && RootShape(root) && Used() + TableWeight(root, |root.table|) <= IndexSpan
      modifies this, values
      ensures Valid() && AllMean(Current(), slots, root.table)
    {
      ghost var used0 := Used();
      slots := [];
      for i := 0 to |root.table|
        invariant Valid() && Used() <= used0 + TableWeight(root, i)
        invariant |slots| == i && AllMean(Current(), slots, root.table[..i])
      {
        TableWeightMonotone(root, i + 1, |root.table|);
        ghost var t0 := Current();
        var e := ProcessLookupEntry(root.table[i]);
        AllMeanMono(t0, Current(), slots, root.table[..i]);
        assert root.table[..i + 1] == root.table[..i] + [root.table[i]];
        AllMeanSnoc(Current(), slots, root.table[..i], e, root.table[i]);
        slots := slots + [e];
      }
      assert root.table[..|root.table|] == root.table;
    }

    /** `processSparseLayer`: the row's 256 entries (read back from the
        dense chunk) are put into a fresh `BitTrie` under their one-byte
        keys, the trie is compressed, its leaves with non-null entries become
        prefix/mask entries, and more than `K` of them give up (-1).
        Otherwise they are sorted by mask width and appended. */
    method ProcessSparseLayer(root: Fpa<V>, chunk: DenseChunk) returns (layerIdx: int)
      requires |root.table| == 256 && forall b: Byte :: DenseRead(chunk, b).Ok?
      modifies this
      ensures denseChunks == old(denseChunks) && k == old(k)
      ensures layerIdx < 0 <==> |SparseEntriesOf(RowEntries(chunk))| > k
      ensures layerIdx < 0 ==> sparseChunks == old(sparseChunks)
      ensures layerIdx >= 0 ==>
                layerIdx == |old(sparseChunks)| &&
                sparseChunks == old(sparseChunks) + [SortByKey(SparseEntriesOf(RowEntries(chunk)), MaskWidth)]
    {
      var trie := FillTrie(root, chunk);
      trie.Compress();
      var leaves := trie.PreorderTraversal();
      SparseTrie(RowEntries(chunk), ImplCompress);
      LeavesShallow(trie.Abs());
      var list := CollectEntries(leaves);
      if |list| > k {
        return -1;
      }
      list := SortByKey(list, MaskWidth);
      sparseChunks := sparseChunks + [list];
      layerIdx := |sparseChunks| - 1;
    }
  }

  /** The put loop of `processSparseLayer`: entry `i` of the row under the
      one-byte key `i`, 8 bits long. */
  method FillTrie<V>(root: Fpa<V>, chunk: DenseChunk) returns (trie: BitTries.BitTrie<nat>)
    requires |root.table| == 256 && forall b: Byte :: DenseRead(chunk, b).Ok?
    ensures fresh(trie) && trie.Valid() && trie.Abs() == Filled(RowEntries(chunk), 256)
  {
    trie := new BitTries.BitTrie<nat>();
    ghost var es := RowEntries(chunk);
    for i := 0 to |root.table|
      invariant fresh(trie) && trie.Valid() && trie.Abs() == Filled(es, i)
    {
      var key: seq<Byte> := [i];
      var lookupEntry := DenseRead(chunk, i).value;
      assert BytesToBits(key) == NatToBits(i, 8) + BytesToBits([]);
      assert BytesToBits(key)[..8] == NatToBits(i, 8);
      var err := trie.Put(Some(key), 8, Some(lookupEntry));
    }
  }

  /** The traversal callback over the leaves, in order. */
  method CollectEntries(leaves: seq<(seq<bool>, nat)>) returns (list: seq<SparseEntry>)
    requires forall i :: 0 <= i < |leaves| ==> |leaves[i].0| <= 8
    ensures list == SelectEntries(leaves)
  {
    list := [];
    for j := 0 to |leaves|
      invariant list == SelectEntries(leaves[..j])
    {
      assert leaves[..j + 1][..j] == leaves[..j];
      if leaves[j].1 != 0 {
        var entry := MakeEntry(leaves[j].0, leaves[j].1);
        list := list + [entry];
      }
    }
    assert leaves[..|leaves|] == leaves;
  }

  /** The row's 256 entries, as the dense chunk reads them. */
  ghost function RowEntries(c: DenseChunk): (es: seq<nat>)
    requires forall b: Byte :: DenseRead(c, b).Ok?
    ensures |es| == 256 && forall b: Byte :: es[b] == DenseRead(c, b).value
  {
    seq(256, b requires 0 <= b < 256 => DenseRead(c, b).value)
  }

  /** A SPARSE entry for the chunk `processSparseLayer` appended stands for
      the row: the chunk's scan gives every byte its dense entry. */
  lemma SparseMeans<V>(a: Tree<V>, b: Tree<V>, c: DenseChunk, root: Fpa<V>, idx: nat)
    requires ReadsMean(a, c, root) && ByteLevel(root) && Extends(a, b)
    requires idx < |b.sparseChunks| && idx < IndexSpan
    requires b.sparseChunks[idx] == SortByKey(SparseEntriesOf(RowEntries(c)), MaskWidth)
    ensures Means(b, Encode(TypeSparse, idx), FNode(None, Some(root)))
  {
    ReadsMeanMono(a, b, c, root);
    SparseChunkScan(RowEntries(c));
    var e := Encode(TypeSparse, idx);
    DecodeEncode(TypeSparse, idx);
    forall x: Byte ensures Step(b, e, x) == DenseRead(c, x) {
      assert Step(b, e, x) == Ok(SparseScan(b.sparseChunks[idx], x));
    }
    StepMeans(b, e, root);
  }

  /** Appending a dense chunk only grows the lists. */
  lemma DenseExtends<V>(a: Tree<V>, b: Tree<V>, cs: seq<DenseChunk>, c: DenseChunk)
    requires a.denseCodes == FlatCodes(cs) && a.denseEntries == FlatEntries(cs)
    requires b.denseCodes == FlatCodes(cs + [c]) && b.denseEntries == FlatEntries(cs + [c])
    requires a.sparseChunks == b.sparseChunks && a.results == b.results
    ensures Extends(a, b)
  {
    assert (cs + [c])[..|cs|] == cs;
    assert FlatEntries(cs) <= FlatEntries(cs + [c]);
  }

  /** A DENSE entry for the chunk just appended stands for the row. */
  lemma DenseMeans<V>(t: Tree<V>, cs: seq<DenseChunk>, c: DenseChunk, root: Fpa<V>)
    requires ReadsMean(t, c, root)
    requires Rows32(cs) && |c.codeWords| == 32 && |cs| < IndexSpan
    requires t.denseCodes == FlatCodes(cs + [c]) && t.denseEntries == FlatEntries(cs + [c])
    ensures Means(t, Encode(TypeDense, |cs|), FNode(None, Some(root)))
  {
    var e := Encode(TypeDense, |cs|);
    DecodeEncode(TypeDense, |cs|);
    DivModUnique(|cs|, IndexSpan, 0, |cs|);
    assert EntryType(e) == TypeDense && EntryIndex(e) == |cs|;
    forall x: Byte ensures Step(t, e, x) == DenseRead(c, x) {
      assert Step(t, e, x) == FlatDenseRead(t, |cs|, x);
      AppendDense(t, cs, c, x);
    }
    StepMeans(t, e, root);
  }

  /** `FPATree.Builder().K(k).fpa(root).build()`. */
  method BuildTree<V(==)>(root: Fpa<V>, k: int) returns (tree: Tree<V>)
    requires RootShape(root) && 1 + TableWeight(root, |root.table|) <= IndexSpan
    ensures forall key :: TreeSearch(tree, key) == RootResolve(root, key)
  {
    var builder := new Builder<V>();
    builder.SetK(k);
    tree := builder.Build(root);
  }

  /** The converter's IPv4 arrays for trie `t`. */
  ghost function ConvertedIpv4<V>(t: Trie<V>): Fpa<V> {
    FillSpec(t, 16, IpDepths(Ipv4), 1, None)
  }

  /** An IPv4 trie converted and then built: searching a 4-byte address is
      the longest prefix match of the trie, whatever `K` is. */
  method BuildFromTrie<V(==)>(trie: BitTries.BitTrie<V>, k: int) returns (tree: Tree<V>)
    requires trie.Valid() && Bounded(trie.Abs(), 32)
    requires 1 + TableWeight(ConvertedIpv4(trie.Abs()), |ConvertedIpv4(trie.Abs()).table|) <= IndexSpan
    ensures forall key: seq<Byte> :: |key| == 4 ==> TreeSearch(tree, key) == Ok(Lpm(trie.Abs(), BytesToBits(key)))
  {
    var fpa := Convert(trie, Ipv4);
    ConvertedShape(trie.Abs(), IpDepths(Ipv4));
    Pow2Short();
    tree := BuildTree(fpa, k);
    forall key: seq<Byte> | |key| == 4 ensures TreeSearch(tree, key) == Ok(Lpm(trie.Abs(), BytesToBits(key))) {
      ConvertedResolve(trie.Abs(), IpDepths(Ipv4), key);
    }
  }
}

/** FPATreeV3, the flattened generation: the root chunk as 1024 groups of 64
    lookup entries; every dense chunk laid out in one shared int list at its
    offset (16 packed code words, the entry counts of its 4 groups, then the
    groups' entries); every sparse chunk laid out in another, as a count
    followed by (prefix length, code word, entry) triples; and the result
    list. This module states the search and what a chunk laid out this way
    answers; `V3Builds` builds the tree and proves it searches as the
    converted array resolves. */
module V3Trees {
  import opened Wrappers
  import opened Bits
  import opened Tries
  import opened Fpas
  import opened LookupEntries
  import opened TreeSpecs
  import opened ChangeCodes
  import opened SparseCodes
  import Sorting

  const DefaultK: int := 8
  /** `lookupOffset = 20`: 16 packed code words and 4 entry counts. */
  const HeaderSize: nat := 20

  /** The finished `FPATreeV3`: the root chunk, the dense data with each
      dense chunk's offset, the sparse data with each sparse chunk's offset
      and triple count, the two chunk counters, and `resultList`. */
  datatype Tree<V> = Tree(rootChunk: seq<seq<nat>>,
                          denseData: seq<nat>, denseOffsets: seq<nat>, denseCount: nat,
                          sparseData: seq<nat>, sparseOffsets: seq<nat>, sparseSizes: seq<nat>,
                          sparseCount: nat, results: seq<Option<V>>)

  // ---------------------------------------------------------------------
  // Search
  // ---------------------------------------------------------------------

  /** The 16 bits of a cluster's code word in its packed int: the high half
      (`packed >> 16`) for an even cluster, the low half for an odd one. */
  function Unpack(packed: nat, cluster: nat): nat {
    if cluster % 2 == 0 then (packed / 65536) % 65536 else packed % 65536
  }

  /** `s[from] + ... + s[from + n - 1]`. */
  function SumFrom(s: seq<nat>, from: nat, n: nat): nat
    requires from + n <= |s|
  {
    if n == 0 then 0 else SumFrom(s, from, n - 1) + s[from + n - 1]
  }

  /** `searchInDenseChunkFast(base, b)`: group `b >> 6`, cluster
      `(b & 63) >> 3`, the entry numbered by the cluster's code word, found
      after the header and the entries of the earlier groups. An index
      outside the data is an `ArrayIndexOutOfBoundsException`, here
      `SlotMissing`. */
  function DenseRead(data: seq<nat>, base: nat, b: Byte): Result<nat, Fault> {
    var g, cluster := b / 64, b % 64 / 8;
    var at := base + 4 * g + cluster / 2;
    if at >= |data| || base + 16 + g > |data| then Err(SlotMissing)
    else
      var offset := base + HeaderSize + SumFrom(data, base + 16, g) + RankIn(Unpack(data[at], cluster), b);
      if 0 <= offset < |data| then Ok(data[offset]) else Err(SlotMissing)
  }

  /** A triple `(prefixLen, codeWord, entry)` answers byte `b` when its
      prefix is empty or `b` and the code word's high byte agree in their
      top `prefixLen` bits. Java takes a shift distance modulo 32. */
  predicate TripleMatches(len: nat, codeWord: nat, b: Byte) {
    len == 0 || Shr(b, (8 - len as int) % 32) == Shr((codeWord / 256) % 256, (8 - len as int) % 32)
  }

  /** The scan of `searchInSparseChunkFast` from triple `i` of `count`: the
      first triple that answers `b` gives its entry, none gives 0. */
  function ScanFrom(data: seq<nat>, base: nat, i: nat, count: nat, b: Byte): Result<nat, Fault>
    decreases count - i
  {
    if i >= count then Ok(0)
    else
      var at := base + 1 + 3 * i;
      if at + 2 >= |data| then Err(SlotMissing)
      else if TripleMatches(data[at], data[at + 1], b) then Ok(data[at + 2])
      else ScanFrom(data, base, i + 1, count, b)
  }

  /** `searchInSparseChunkFast(base, b)`: the count first, then the scan. */
  function SparseRead(data: seq<nat>, base: nat, b: Byte): Result<nat, Fault> {
    if base >= |data| then Err(SlotMissing) else ScanFrom(data, base, 0, data[base], b)
  }

  /** `resultList.get(i)`. */
  function ResultAt<V>(t: Tree<V>, i: nat): Result<Option<V>, Fault> {
    if i < |t.results| then Ok(t.results[i]) else Err(SlotMissing)
  }

  /** One pass of the loop from a DENSE or SPARSE entry `e`: the entry the
      next byte `b` leads to in the chunk at the entry's offset. */
  function Step<V>(t: Tree<V>, e: nat, b: Byte): Result<nat, Fault> {
    var index := EntryIndex(e);
    if EntryType(e) == TypeDense then
      if index < |t.denseOffsets| then DenseRead(t.denseData, t.denseOffsets[index], b) else Err(SlotMissing)
    else if index < |t.sparseOffsets| then SparseRead(t.sparseData, t.sparseOffsets[index], b)
    else Err(SlotMissing)
  }

  /** `resolveLookupEntryFast` with entry `e` in hand and `bytes` left: a
      LEAF answers its value, DENSE and SPARSE go one byte down, type 3
      skips the byte; once the bytes are used up the entry itself is read
      as a result index. */
  function Lookup<V>(t: Tree<V>, e: nat, bytes: seq<Byte>): Result<Option<V>, Fault>
    decreases |bytes|
  {
    if |bytes| == 0 then ResultAt(t, e)
    else if EntryType(e) == TypeLeaf then ResultAt(t, EntryIndex(e))
    else if EntryType(e) == TypeDense || EntryType(e) == TypeSparse then
      match Step(t, e, bytes[0])
      case Err(f) => Err(f)
      case Ok(next) => Lookup(t, next, bytes[1..])
    else Lookup(t, e, bytes[1..])
  }

  /** Root slot `s` lives in group `s >> 6` at place `s & 63`. */
  function RootEntry<V>(t: Tree<V>, s: nat): Result<nat, Fault> {
    if s / 64 < |t.rootChunk| && s % 64 < |t.rootChunk[s / 64]| then Ok(t.rootChunk[s / 64][s % 64])
    else Err(SlotMissing)
  }

  /** `search(ipBytes)`: `null` or a key that is not 4 bytes long gives
      `null`; otherwise root slot `b0 << 8 | b1`, then the loop over bytes
      2 and 3. */
  function TreeSearch<V>(t: Tree<V>, key: Option<seq<Byte>>): Result<Option<V>, Fault> {
    if key.None? || |key.value| != 4 then Ok(None)
    else
      match RootEntry(t, key.value[0] as nat * 256 + key.value[1])
      case Err(f) => Err(f)
      case Ok(e) => Lookup(t, e, key.value[2..])
  }

  /** `search`, as the source writes it. */
  method Search<V>(t: Tree<V>, key: Option<seq<Byte>>) returns (r: Result<Option<V>, Fault>)
    ensures r == TreeSearch(t, key)
  {
    if key.None? || |key.value| != 4 {
      return Ok(None);
    }
    var ipBytes := key.value;
    var index16: nat := ipBytes[0] as nat * 256 + ipBytes[1];
    var group1, bit1 := index16 / 64, index16 % 64;
    if group1 >= |t.rootChunk| || bit1 >= |t.rootChunk[group1]| {
      return Err(SlotMissing);
    }
    r := ResolveFast(t, t.rootChunk[group1][bit1], ipBytes);
  }

  /** `resolveLookupEntryFast`: the loop over the bytes from 2 on. */
  method ResolveFast<V>(t: Tree<V>, lookupEntry: nat, ipBytes: seq<Byte>) returns (r: Result<Option<V>, Fault>)
    requires |ipBytes| >= 2
    ensures r == Lookup(t, lookupEntry, ipBytes[2..])
  {
    var next := lookupEntry;
    for i := 2 to |ipBytes|
      invariant Lookup(t, lookupEntry, ipBytes[2..]) == Lookup(t, next, ipBytes[i..])
    {
      assert ipBytes[i..][0] == ipBytes[i] && ipBytes[i..][1..] == ipBytes[i + 1..];
      var entryType, index := EntryType(next), EntryIndex(next);
      if entryType == TypeLeaf {
        return ResultAt(t, index);
      } else if entryType == TypeDense {
        if index >= |t.denseOffsets| {
          return Err(SlotMissing);
        }
        var found := SearchInDense(t.denseData, t.denseOffsets[index], ipBytes[i]);
        if found.Err? {
          return Err(found.error);
        }
        next := found.value;
      } else if entryType == TypeSparse {
        if index >= |t.sparseOffsets| {
          return Err(SlotMissing);
        }
        var found := SearchInSparse(t.sparseData, t.sparseOffsets[index], ipBytes[i]);
        if found.Err? {
          return Err(found.error);
        }
        next := found.value;
      }
    }
    r := ResultAt(t, next);
  }

  lemma SlotFields(b: Byte)
    ensures b % 64 % 8 == b % 8
  {
    DivModUnique(b, 8, 8 * (b / 64) + b % 64 / 8, b % 64 % 8);
  }

  /** `searchInDenseChunkFast`: the unpacking and the loop summing the
      entry counts of the earlier groups. */
  method SearchInDense(data: seq<nat>, base: nat, index8: Byte) returns (r: Result<nat, Fault>)
    ensures r == DenseRead(data, base, index8)
  {
    var groupIdx, bitIdx := index8 / 64, index8 % 64;
    var cluster, bit := bitIdx / 8, bitIdx % 8;
    var packedIdx := groupIdx * 4 + cluster / 2;
    if base + packedIdx >= |data| || base + 16 + groupIdx > |data| {
      return Err(SlotMissing);
    }
    var packed := data[base + packedIdx];
    var codeWord := if cluster % 2 == 0 then (packed / 65536) % 65536 else packed % 65536;
    var bitset, before := (codeWord / 256) % 256, codeWord % 256;
    SlotFields(index8);
    var onesInCluster := PopCount(Shr(bitset, 8 - bit - 1));
    var lookupIdx := before as int + onesInCluster - 1;
    var lookupOffset := HeaderSize;
    for i := 0 to groupIdx
      invariant lookupOffset == HeaderSize + SumFrom(data, base + 16, i)
    {
      lookupOffset := lookupOffset + data[base + 16 + i];
    }
    var at := base + lookupOffset + lookupIdx;
    if 0 <= at < |data| {
      return Ok(data[at]);
    }
    return Err(SlotMissing);
  }

  /** `searchInSparseChunkFast`: the loop over the triples. */
  method SearchInSparse(data: seq<nat>, base: nat, ipByte: Byte) returns (r: Result<nat, Fault>)
    ensures r == SparseRead(data, base, ipByte)
  {
    if base >= |data| {
      return Err(SlotMissing);
    }
    var entryCount := data[base];
    for i := 0 to entryCount
      invariant ScanFrom(data, base, 0, entryCount, ipByte) == ScanFrom(data, base, i, entryCount, ipByte)
    {
      var offset := base + 1 + i * 3;
      if offset + 2 >= |data| {
        return Err(SlotMissing);
      }
      var prefixLen, codeWord, lookupEntry := data[offset], data[offset + 1], data[offset + 2];
      if prefixLen == 0 {
        return Ok(lookupEntry);
      }
      var prefixVal := (codeWord / 256) % 256;
      var ipPrefix := Shr(ipByte, (8 - prefixLen as int) % 32);
      var valPrefix := Shr(prefixVal, (8 - prefixLen as int) % 32);
      if ipPrefix == valPrefix {
        return Ok(lookupEntry);
      }
    }
    return Ok(0);
  }

  // ---------------------------------------------------------------------
  // Meaning of an entry, and growth of the lists
  // ---------------------------------------------------------------------

  /** Entry `e` stands for slot `n`: whenever resolving `n` on the bytes
      that follow gives an answer, the search from `e` gives the same. */
  ghost predicate Means<V>(t: Tree<V>, e: nat, n: FNode<V>) {
    forall bytes :: Resolve(n, bytes).Ok? ==> Lookup(t, e, bytes) == Resolve(n, bytes)
  }

  /** The data lists, the offsets filled in and the result list only grow
      at their ends. */
  ghost predicate Extends<V>(a: Tree<V>, b: Tree<V>) {
    a.denseData <= b.denseData && a.denseOffsets <= b.denseOffsets &&
    a.sparseData <= b.sparseData && a.sparseOffsets <= b.sparseOffsets && a.results <= b.results
  }

  lemma ExtendsTrans<V>(a: Tree<V>, b: Tree<V>, c: Tree<V>)
    requires Extends(a, b) && Extends(b, c)
    ensures Extends(a, c)
  {
  }

  lemma {:induction false} SumFromMono(a: seq<nat>, b: seq<nat>, from: nat, n: nat)
    requires a <= b && from + n <= |a|
    ensures SumFrom(b, from, n) == SumFrom(a, from, n)
  {
    if n > 0 {
      SumFromMono(a, b, from, n - 1);
      assert b[from + n - 1] == a[from + n - 1];
    }
  }

  lemma DenseReadMono(a: seq<nat>, b: seq<nat>, base: nat, x: Byte)
    requires a <= b && DenseRead(a, base, x).Ok?
    ensures DenseRead(b, base, x) == DenseRead(a, base, x)
  {
    var g, cluster := x / 64, x % 64 / 8;
    var at := base + 4 * g + cluster / 2;
    SumFromMono(a, b, base + 16, g);
    assert b[at] == a[at];
    var offset := base + HeaderSize + SumFrom(a, base + 16, g) + RankIn(Unpack(a[at], cluster), x);
    assert b[offset] == a[offset];
  }

  lemma {:induction false} ScanFromMono(a: seq<nat>, b: seq<nat>, base: nat, i: nat, count: nat, x: Byte)
    requires a <= b && ScanFrom(a, base, i, count, x).Ok?
    ensures ScanFrom(b, base, i, count, x) == ScanFrom(a, base, i, count, x)
    decreases count - i
  {
    if i < count {
      var at := base + 1 + 3 * i;
      assert a[at] == b[at] && a[at + 1] == b[at + 1] && a[at + 2] == b[at + 2];
      if !TripleMatches(a[at], a[at + 1], x) {
        ScanFromMono(a, b, base, i + 1, count, x);
      }
    }
  }

  lemma StepMono<V>(a: Tree<V>, b: Tree<V>, e: nat, x: Byte)
    requires Extends(a, b) && Step(a, e, x).Ok?
    ensures Step(b, e, x) == Step(a, e, x)
  {
    var index := EntryIndex(e);
    if EntryType(e) == TypeDense {
      assert b.denseOffsets[index] == a.denseOffsets[index];
      DenseReadMono(a.denseData, b.denseData, a.denseOffsets[index], x);
    } else {
      var base := a.sparseOffsets[index];
      assert b.sparseOffsets[index] == base && b.sparseData[base] == a.sparseData[base];
      ScanFromMono(a.sparseData, b.sparseData, base, 0, a.sparseData[base], x);
    }
  }

  /** Growing the lists changes no answer the search already gave. */
  lemma {:induction false} LookupMono<V>(a: Tree<V>, b: Tree<V>, e: nat, bytes: seq<Byte>)
    requires Extends(a, b) && Lookup(a, e, bytes).Ok?
    ensures Lookup(b, e, bytes) == Lookup(a, e, bytes)
    decreases |bytes|
  {
    if |bytes| > 0 && EntryType(e) != TypeLeaf {
      if EntryType(e) == TypeDense || EntryType(e) == TypeSparse {
        StepMono(a, b, e, bytes[0]);
        LookupMono(a, b, Step(a, e, bytes[0]).value, bytes[1..]);
      } else {
        LookupMono(a, b, e, bytes[1..]);
      }
    }
  }

  lemma MeansMono<V>(a: Tree<V>, b: Tree<V>, e: nat, n: FNode<V>)
    requires Extends(a, b) && Means(a, e, n)
    ensures Means(b, e, n)
  {
    forall bytes | Resolve(n, bytes).Ok? ensures Lookup(b, e, bytes) == Resolve(n, bytes) {
      LookupMono(a, b, e, bytes);
    }
  }

  /** Entries `es` stand for the slots `ns`, one by one. */
  ghost predicate AllMean<V>(t: Tree<V>, es: seq<nat>, ns: seq<FNode<V>>) {
    |es| == |ns| && forall r :: 0 <= r < |es| ==> Means(t, es[r], ns[r])
  }

  lemma AllMeanMono<V>(a: Tree<V>, b: Tree<V>, es: seq<nat>, ns: seq<FNode<V>>)
    requires Extends(a, b) && AllMean(a, es, ns)
    ensures AllMean(b, es, ns)
  {
    forall r | 0 <= r < |es| ensures Means(b, es[r], ns[r]) {
      MeansMono(a, b, es[r], ns[r]);
    }
  }

  lemma AllMeanSnoc<V>(t: Tree<V>, es: seq<nat>, ns: seq<FNode<V>>, e: nat, n: FNode<V>)
    requires AllMean(t, es, ns) && Means(t, e, n)
    ensures AllMean(t, es + [e], ns + [n])
  {
    forall r | 0 <= r < |es| + 1 ensures Means(t, (es + [e])[r], (ns + [n])[r]) {
      if r < |es| {
        assert (es + [e])[r] == es[r] && (ns + [n])[r] == ns[r];
      }
    }
  }

  /** A LEAF entry is its value's index, with or without bytes left. */
  lemma LeafMeans<V>(t: Tree<V>, idx: nat, n: FNode<V>)
    requires n.next.None? && idx < |t.results| && idx < IndexSpan && t.results[idx] == n.value
    ensures Means(t, Encode(TypeLeaf, idx), n)
  {
    LeafIsIndex(idx);
    DivModUnique(idx, IndexSpan, 0, idx);
    forall bytes ensures Lookup(t, idx, bytes) == Resolve(n, bytes) {
    }
  }

  /** A DENSE or SPARSE entry whose step on every byte leads to an entry
      for that byte's slot stands for the whole level. */
  lemma StepMeans<V>(t: Tree<V>, e: nat, f: Fpa<V>)
    requires EntryType(e) == TypeDense || EntryType(e) == TypeSparse
    requires |f.table| == 256
    requires forall b: Byte :: Step(t, e, b).Ok? && Means(t, Step(t, e, b).value, f.table[b])
    ensures Means(t, e, FNode(None, Some(f)))
  {
    forall bytes | Resolve(FNode(None, Some(f)), bytes).Ok?
      ensures Lookup(t, e, bytes) == Resolve(FNode(None, Some(f)), bytes)
    {
      var next := Step(t, e, bytes[0]);
      assert Means(t, next.value, f.table[bytes[0]]);
    }
  }

  /** The value a slot holds does not matter once it has a nested array. */
  lemma NestedMeans<V>(t: Tree<V>, e: nat, n: FNode<V>)
    requires n.next.Some? && Means(t, e, FNode(None, n.next))
    ensures Means(t, e, n)
  {
    forall bytes | Resolve(n, bytes).Ok? ensures Lookup(t, e, bytes) == Resolve(n, bytes) {
      assert Resolve(n, bytes) == Resolve(FNode(None, n.next), bytes);
    }
  }

  // ---------------------------------------------------------------------
  // A level as four groups of 64 slots
  // ---------------------------------------------------------------------

  /** Slots `64j..64j + 64` of a 256-slot level: group `j`. */
  function Group<V>(f: Fpa<V>, j: nat): seq<FNode<V>>
    requires |f.table| == 256 && j < 4
  {
    f.table[64 * j..64 * j + 64]
  }

  /** Group `j` as `processLayer` leaves it: its 8 code words mark where
      its runs start (`firstNode` is `null` at the group's start, so its
      first slot always does) above the number of the group's earlier run
      starts, and its entries stand for the runs' first slots. */
  ghost predicate GroupBuilt<V>(t: Tree<V>, f: Fpa<V>, j: nat, cw: seq<nat>, es: seq<nat>, heads: seq<FNode<V>>)
    requires |f.table| == 256 && j < 4
  {
    var flags := Changes(Group(f, j), true);
    |cw| == 8 && (forall c :: 0 <= c < 8 ==> cw[c] == CodeWord(flags, c)) &&
    Owned(Group(f, j), flags, heads, 64) && AllMean(t, es, heads)
  }

  /** The first `|cws|` groups of level `f` built. */
  ghost predicate GroupsBuilt<V>(t: Tree<V>, f: Fpa<V>, cws: seq<seq<nat>>, es: seq<seq<nat>>,
                                 heads: seq<seq<FNode<V>>>)
  {
    |f.table| == 256 && |cws| <= 4 && |es| == |cws| && |heads| == |cws| &&
    forall j :: 0 <= j < |cws| ==> GroupBuilt(t, f, j, cws[j], es[j], heads[j])
  }

  lemma GroupsBuiltMono<V>(a: Tree<V>, b: Tree<V>, f: Fpa<V>, cws: seq<seq<nat>>, es: seq<seq<nat>>,
                           heads: seq<seq<FNode<V>>>)
    requires Extends(a, b) && GroupsBuilt(a, f, cws, es, heads)
    ensures GroupsBuilt(b, f, cws, es, heads)
  {
    forall j | 0 <= j < |cws| ensures GroupBuilt(b, f, j, cws[j], es[j], heads[j]) {
      assert GroupBuilt(a, f, j, cws[j], es[j], heads[j]);
      AllMeanMono(a, b, es[j], heads[j]);
    }
  }

  lemma GroupsBuiltSnoc<V>(t: Tree<V>, f: Fpa<V>, cws: seq<seq<nat>>, es: seq<seq<nat>>, heads: seq<seq<FNode<V>>>,
                           cw: seq<nat>, e: seq<nat>, h: seq<FNode<V>>)
    requires GroupsBuilt(t, f, cws, es, heads) && |cws| < 4 && GroupBuilt(t, f, |cws|, cw, e, h)
    ensures GroupsBuilt(t, f, cws + [cw], es + [e], heads + [h])
  {
    forall j | 0 <= j < |cws| + 1 ensures GroupBuilt(t, f, j, (cws + [cw])[j], (es + [e])[j], (heads + [h])[j]) {
      if j < |cws| {
        assert GroupBuilt(t, f, j, cws[j], es[j], heads[j]);
      }
    }
  }

  /** Four groups of 8 code words each, and their entries. */
  predicate Shaped(cws: seq<seq<nat>>, es: seq<seq<nat>>) {
    |cws| == 4 && |es| == 4 && forall j :: 0 <= j < 4 ==> |cws[j]| == 8
  }

  /** The entry the groups give byte `b`, as `buildSparseChunk` decodes it:
      a rank outside the group's entries gives 0. */
  function GroupEntry(cws: seq<seq<nat>>, es: seq<seq<nat>>, b: Byte): nat
    requires Shaped(cws, es)
  {
    var g, cluster := b / 64, b % 64 / 8;
    var lookupIdx := RankIn(cws[g][cluster], b);
    if 0 <= lookupIdx < |es[g]| then es[g][lookupIdx] else 0
  }

  /** Four built groups have 8 code words each, all of 16 bits. */
  lemma GroupsShaped<V>(t: Tree<V>, f: Fpa<V>, cws: seq<seq<nat>>, es: seq<seq<nat>>, heads: seq<seq<FNode<V>>>)
    requires GroupsBuilt(t, f, cws, es, heads) && |cws| == 4
    ensures Shaped(cws, es)
    ensures forall j, c :: 0 <= j < 4 && 0 <= c < 8 ==> cws[j][c] < 65536
  {
    forall j, c | 0 <= j < 4 && 0 <= c < 8 ensures |cws[j]| == 8 && cws[j][c] < 65536 {
      var flags := Changes(Group(f, j), true);
      assert GroupBuilt(t, f, j, cws[j], es[j], heads[j]);
      ClusterBitsBound(flags, c);
      CountTrueBound(flags, 8 * c);
    }
  }

  /** In a group's code words, byte `b` gets the number of run starts up to
      its slot, less one. */
  lemma GroupRank(flags: seq<bool>, cw: nat, b: Byte)
    requires |flags| == 64 && cw == CodeWord(flags, b % 64 / 8)
    ensures RankIn(cw, b) == CountTrue(flags[..b % 64 + 1]) - 1
  {
    var w := b % 64;
    SlotFields(b);
    CountTrueBound(flags, 8 * (w / 8));
    DecodeRank(flags, w / 8, w % 8);
  }

  /** In four built groups every byte's rank falls inside its group's
      entries, and the entry it finds stands for the byte's slot. */
  lemma GroupSlot<V>(t: Tree<V>, f: Fpa<V>, cws: seq<seq<nat>>, es: seq<seq<nat>>, heads: seq<seq<FNode<V>>>, b: Byte)
    requires GroupsBuilt(t, f, cws, es, heads) && |cws| == 4
    requires Shaped(cws, es)
    ensures 0 <= RankIn(cws[b / 64][b % 64 / 8], b) < |es[b / 64]|
    ensures Means(t, GroupEntry(cws, es, b), f.table[b])
  {
    var g, w := b / 64, b % 64;
    var group := Group(f, g);
    var flags := Changes(group, true);
    assert GroupBuilt(t, f, g, cws[g], es[g], heads[g]);
    GroupRank(flags, cws[g][w / 8], b);
    assert RunOwned(group, flags, heads[g], w);
    assert group[w] == f.table[b];
  }

  lemma CountTrueBound(flags: seq<bool>, n: nat)
    requires n <= |flags| <= 64
    ensures CountTrue(flags[..n]) < 256
  {
  }

  // ---------------------------------------------------------------------
  // Dense chunks in the data list
  // ---------------------------------------------------------------------

  /** The four ints `(cw[2m] & 0xFFFF) << 16 | (cw[2m + 1] & 0xFFFF)` of a
      group's code words. */
  function Packed(cw: seq<nat>): (r: seq<nat>)
    requires |cw| == 8
    ensures |r| == 4
  {
    [cw[0] * 65536 + cw[1], cw[2] * 65536 + cw[3], cw[4] * 65536 + cw[5], cw[6] * 65536 + cw[7]]
  }

  /** On 16-bit code words the bit operations of the packing are this
      arithmetic. */
  lemma PackBits(hi: nat, lo: nat)
    requires hi < 65536 && lo < 65536
    ensures Or(Shl(And(hi, Pow2(16) - 1), 16), And(lo, Pow2(16) - 1)) == hi * 65536 + lo
  {
    Pow2Short();
    AndLowMask(hi, 16);
    AndLowMask(lo, 16);
    DivModUnique(hi, 65536, 0, hi);
    DivModUnique(lo, 65536, 0, lo);
    OrShifted(hi, lo, 16);
  }

  /** The packed code words of the first `n` groups. */
  function PackedWords(cws: seq<seq<nat>>, n: nat): (r: seq<nat>)
    requires n <= |cws| && forall j :: 0 <= j < n ==> |cws[j]| == 8
    ensures |r| == 4 * n
  {
    if n == 0 then [] else PackedWords(cws, n - 1) + Packed(cws[n - 1])
  }

  /** The entry counts of the first `n` groups. */
  function Counts(es: seq<seq<nat>>, n: nat): (r: seq<nat>)
    requires n <= |es|
    ensures |r| == n
  {
    if n == 0 then [] else Counts(es, n - 1) + [|es[n - 1]|]
  }

  /** The entries of the first `n` groups, one group after the other. */
  function Joined(es: seq<seq<nat>>, n: nat): seq<nat>
    requires n <= |es|
  {
    if n == 0 then [] else Joined(es, n - 1) + es[n - 1]
  }

  /** What `buildDenseChunk` appends: the packed code words, the counts and
      the entries. */
  function DenseBlock(cws: seq<seq<nat>>, es: seq<seq<nat>>): seq<nat>
    requires Shaped(cws, es)
  {
    PackedWords(cws, 4) + Counts(es, 4) + Joined(es, 4)
  }

  lemma {:induction false} PackedWordsAt(cws: seq<seq<nat>>, n: nat, g: nat, m: nat)
    requires n <= |cws| && (forall j :: 0 <= j < n ==> |cws[j]| == 8) && g < n && m < 4
    ensures PackedWords(cws, n)[4 * g + m] == cws[g][2 * m] * 65536 + cws[g][2 * m + 1]
  {
    if g < n - 1 {
      PackedWordsAt(cws, n - 1, g, m);
    }
  }

  lemma {:induction false} CountsAt(es: seq<seq<nat>>, n: nat, i: nat)
    requires n <= |es| && i < n
    ensures Counts(es, n)[i] == |es[i]|
  {
    if i < n - 1 {
      CountsAt(es, n - 1, i);
    }
  }

  lemma {:induction false} JoinedAt(es: seq<seq<nat>>, n: nat, g: nat, r: nat)
    requires n <= |es| && g < n && r < |es[g]|
    ensures |Joined(es, g)| + r < |Joined(es, n)|
    ensures Joined(es, n)[|Joined(es, g)| + r] == es[g][r]
  {
    if g < n - 1 {
      JoinedAt(es, n - 1, g, r);
    }
  }

  /** The loop over the counts of the earlier groups sums to the number of
      their entries. */
  lemma {:induction false} SumCounts(data: seq<nat>, from: nat, es: seq<seq<nat>>, g: nat)
    requires g <= |es| && from + g <= |data|
    requires forall i :: 0 <= i < g ==> data[from + i] == |es[i]|
    ensures SumFrom(data, from, g) == |Joined(es, g)|
  {
    if g > 0 {
      SumCounts(data, from, es, g - 1);
    }
  }

  lemma UnpackPacked(hi: nat, lo: nat, cluster: nat)
    requires hi < 65536 && lo < 65536
    ensures Unpack(hi * 65536 + lo, cluster) == if cluster % 2 == 0 then hi else lo
  {
    DivModUnique(hi * 65536 + lo, 65536, hi, lo);
    DivModUnique(hi, 65536, 0, hi);
  }

  /** A dense chunk laid out at `base` reads, for every byte, the entry the
      groups give it. */
  lemma DenseReadBlock(data: seq<nat>, base: nat, cws: seq<seq<nat>>, es: seq<seq<nat>>, b: Byte)
    requires Shaped(cws, es)
    requires base + |DenseBlock(cws, es)| <= |data|
    requires data[base..base + |DenseBlock(cws, es)|] == DenseBlock(cws, es)
    requires forall j, c :: 0 <= j < 4 && 0 <= c < 8 ==> cws[j][c] < 65536
    requires 0 <= RankIn(cws[b / 64][b % 64 / 8], b) < |es[b / 64]|
    ensures DenseRead(data, base, b) == Ok(GroupEntry(cws, es, b))
  {
    var block := DenseBlock(cws, es);
    var g, c := b / 64, b % 64 / 8;
    var m := c / 2;
    var lookupIdx := RankIn(cws[g][c], b);
    PackedWordsAt(cws, 4, g, m);
    assert data[base + 4 * g + m] == block[4 * g + m];
    var hi, lo := cws[g][2 * m], cws[g][2 * m + 1];
    UnpackPacked(hi, lo, c);
    assert Unpack(data[base + 4 * g + m], c) == cws[g][c];
    forall i | 0 <= i < g ensures data[base + 16 + i] == |es[i]| {
      CountsAt(es, 4, i);
      assert data[base + 16 + i] == block[16 + i];
    }
    SumCounts(data, base + 16, es, g);
    JoinedAt(es, 4, g, lookupIdx);
    assert data[base + HeaderSize + |Joined(es, g)| + lookupIdx] == block[HeaderSize + |Joined(es, g)| + lookupIdx];
  }

  // ---------------------------------------------------------------------
  // Sparse chunks in the data list
  // ---------------------------------------------------------------------

  /** One `int[] {prefixLen, codeWord, entry}` of a sparse chunk. */
  datatype Triple = Triple(len: nat, codeWord: nat, entry: nat)

  /** The triples' ints, one triple after the other. */
  function TripleWords(ts: seq<Triple>): (r: seq<nat>)
    ensures |r| == 3 * |ts|
  {
    if |ts| == 0 then []
    else
      var x := ts[|ts| - 1];
      TripleWords(ts[..|ts| - 1]) + [x.len, x.codeWord, x.entry]
  }

  /** What `buildSparseChunk` appends: the count, then the triples. */
  function SparseBlock(ts: seq<Triple>): seq<nat> {
    [|ts|] + TripleWords(ts)
  }

  lemma {:induction false} TripleWordsAt(ts: seq<Triple>, i: nat)
    requires i < |ts|
    ensures TripleWords(ts)[3 * i] == ts[i].len
    ensures TripleWords(ts)[3 * i + 1] == ts[i].codeWord
    ensures TripleWords(ts)[3 * i + 2] == ts[i].entry
  {
    if i < |ts| - 1 {
      TripleWordsAt(ts[..|ts| - 1], i);
    }
  }

  /** The scan on the triples themselves. */
  function ScanTriples(ts: seq<Triple>, b: Byte): nat {
    if |ts| == 0 then 0
    else if TripleMatches(ts[0].len, ts[0].codeWord, b) then ts[0].entry
    else ScanTriples(ts[1..], b)
  }

  lemma {:induction false} ScanFromBlock(data: seq<nat>, base: nat, ts: seq<Triple>, i: nat, b: Byte)
    requires base + |SparseBlock(ts)| <= |data| && data[base..base + |SparseBlock(ts)|] == SparseBlock(ts)
    requires i <= |ts|
    ensures ScanFrom(data, base, i, |ts|, b) == Ok(ScanTriples(ts[i..], b))
    decreases |ts| - i
  {
    if i < |ts| {
      var at := base + 1 + 3 * i;
      TripleWordsAt(ts, i);
      assert data[at] == SparseBlock(ts)[1 + 3 * i];
      assert data[at + 1] == SparseBlock(ts)[2 + 3 * i];
      assert data[at + 2] == SparseBlock(ts)[3 + 3 * i];
      assert ts[i..][0] == ts[i] && ts[i..][1..] == ts[i + 1..];
      ScanFromBlock(data, base, ts, i + 1, b);
    }
  }

  /** A sparse chunk laid out at `base` reads what its triples scan to. */
  lemma SparseReadBlock(data: seq<nat>, base: nat, ts: seq<Triple>, b: Byte)
    requires base + |SparseBlock(ts)| <= |data| && data[base..base + |SparseBlock(ts)|] == SparseBlock(ts)
    ensures SparseRead(data, base, b) == Ok(ScanTriples(ts, b))
  {
    assert data[base] == SparseBlock(ts)[0];
    ScanFromBlock(data, base, ts, 0, b);
    assert ts[0..] == ts;
  }

  /** The triple the traversal callback makes for leaf `(prefix, v)`: the
      prefix bits from bit 15 down, the prefix length in the low byte. */
  function TripleOf(prefix: seq<bool>, v: nat): Triple
    requires |prefix| <= 8
  {
    Triple(|prefix|, Msb(prefix) * 256 + |prefix|, v)
  }

  /** A triple made from a leaf answers exactly the bytes that start with
      the leaf's prefix. */
  lemma TripleMatchIff(prefix: seq<bool>, v: nat, b: Byte)
    requires |prefix| <= 8
    ensures var x := TripleOf(prefix, v);
            TripleMatches(x.len, x.codeWord, b) <==> prefix <= NatToBits(b, 8)
  {
    if |prefix| > 0 {
      MsbBound(prefix);
      CodeWordFields(Msb(prefix), |prefix|);
      ShiftMatch(prefix, b);
    }
  }

  /** The traversal callback's loop: prefix bit `i` sets bit `15 - i`, and
      the prefix length goes into the low byte. */
  method MakeTriple(prefix: seq<bool>, v: nat) returns (x: Triple)
    requires |prefix| <= 8
    ensures x == TripleOf(prefix, v)
    ensures forall b: Byte :: TripleMatches(x.len, x.codeWord, b) <==> prefix <= NatToBits(b, 8)
  {
    var codeWord := 0;
    for i := 0 to |prefix|
      invariant codeWord == Msb(prefix[..i]) * 256
    {
      TripleBitStep(prefix, i);
      if prefix[i] {
        codeWord := Or(codeWord, Shl(1, 7 - i + 8));
      }
    }
    assert prefix[..|prefix|] == prefix;
    TripleLowByte(prefix);
    codeWord := Or(codeWord, And(|prefix|, 255));
    x := Triple(|prefix|, codeWord, v);
    forall b: Byte ensures TripleMatches(x.len, x.codeWord, b) <==> prefix <= NatToBits(b, 8) {
      TripleMatchIff(prefix, v, b);
    }
  }

  /** `codeWord |= 1 << (7 - i + 8)` for a 1 bit, nothing for a 0 bit:
      the prefix so far, MSB first, in the high byte. */
  lemma TripleBitStep(prefix: seq<bool>, i: nat)
    requires i < |prefix| <= 8
    ensures (if prefix[i] then Or(Msb(prefix[..i]) * 256, Shl(1, 7 - i + 8)) else Msb(prefix[..i]) * 256) ==
            Msb(prefix[..i + 1]) * 256
  {
    var m, p := Msb(prefix[..i]), Pow2(7 - i);
    assert prefix[..i + 1] == prefix[..i] + [prefix[i]];
    MsbStep(prefix[..i], prefix[i]);
    if prefix[i] {
      assert Shl(1, 7 - i + 8) == p * Pow2(8) by {
        Pow2Add(7 - i, 8);
      }
      OrScaled(m, p, 8);
      assert Or(m * Pow2(8), p * Pow2(8)) == Msb(prefix[..i + 1]) * Pow2(8);
      Pow2Byte();
    }
  }

  /** `codeWord |= prefix.size() & 0xFF` puts the length below the prefix. */
  lemma TripleLowByte(prefix: seq<bool>)
    requires |prefix| <= 8
    ensures Or(Msb(prefix) * 256, And(|prefix|, 255)) == Msb(prefix) * 256 + |prefix|
  {
    Pow2Byte();
    AndSmall(|prefix|);
    OrShifted(Msb(prefix), |prefix|, 8);
  }

  lemma AndSmall(n: nat)
    requires n < 256
    ensures And(n, 255) == n
  {
    Pow2Byte();
    AndLowMask(n, 8);
    DivModUnique(n, 256, 0, n);
  }

  /** The triples the traversal makes, one per leaf, in traversal order. */
  function Triples(leaves: seq<(seq<bool>, nat)>): (r: seq<Triple>)
    requires forall i :: 0 <= i < |leaves| ==> |leaves[i].0| <= 8
    ensures |r| == |leaves|
  {
    seq(|leaves|, i requires 0 <= i < |leaves| => TripleOf(leaves[i].0, leaves[i].1))
  }

  /** `entries.sort`: longer prefixes first, then smaller code words. For
      the triples made here (length at most 8, code words below 65536) this
      key orders them as the comparator does. */
  function SortKey(x: Triple): nat {
    (if x.len <= 8 then 8 - x.len else 0) * 65536 + x.codeWord
  }

  /** The trie `buildSparseChunk` puts the level's 256 entries into, after
      the older `compress`, which only merges. */
  ghost function SparseTrieOf(row: seq<nat>): Trie<nat>
    requires |row| == 256
  {
    Compress(Filled(row, 256), RootCompress)
  }

  /** The triples of its leaves, before sorting. */
  ghost function SparseTriplesOf(row: seq<nat>): seq<Triple>
    requires |row| == 256
  {
    var c := SparseTrieOf(row);
    SparseTrie(row, RootCompress);
    LeavesShallow(c);
    Triples(Leaves(c))
  }

  /** Before sorting: the triples answering `b` all hold `row[b]`, and one
      of them answers it. Unlike the newer tree, no leaf is skipped, so the
      entry 0 needs a triple too. */
  lemma MatchesHold(row: seq<nat>, b: Byte)
    requires |row| == 256
    ensures forall x :: x in SparseTriplesOf(row) && TripleMatches(x.len, x.codeWord, b) ==> x.entry == row[b]
    ensures exists x :: x in SparseTriplesOf(row) && TripleMatches(x.len, x.codeWord, b)
  {
    var c := SparseTrieOf(row);
    SparseTrie(row, RootCompress);
    LeavesShallow(c);
    var leaves := Leaves(c);
    var ts := Triples(leaves);
    assert ts == SparseTriplesOf(row);
    var q := NatToBits(b, 8);
    CleanLeavesOnPath(c, q);
    forall x | x in ts && TripleMatches(x.len, x.codeWord, b) ensures x.entry == row[b] {
      var i :| 0 <= i < |ts| && ts[i] == x;
      TripleMatchIff(leaves[i].0, leaves[i].1, b);
      assert leaves[i] in leaves;
    }
    var e :| e in leaves && e.0 <= q && e.1 == row[b];
    var i :| 0 <= i < |leaves| && leaves[i] == e;
    TripleMatchIff(e.0, e.1, b);
    assert ts[i] in ts;
  }

  /** A scan whose answering triples all hold `w`, one of which is there,
      returns `w`. */
  lemma {:induction false} ScanAll(ts: seq<Triple>, b: Byte, w: nat)
    requires forall x :: x in ts && TripleMatches(x.len, x.codeWord, b) ==> x.entry == w
    requires exists x :: x in ts && TripleMatches(x.len, x.codeWord, b)
    ensures ScanTriples(ts, b) == w
  {
    if !TripleMatches(ts[0].len, ts[0].codeWord, b) {
      var x :| x in ts && TripleMatches(x.len, x.codeWord, b);
      assert x in ts[1..] by {
        assert x != ts[0] && ts == [ts[0]] + ts[1..];
      }
      ScanAll(ts[1..], b, w);
    }
  }

  /** The sparse chunk answers every byte with the entry of its slot. */
  lemma SparseChunkScan(row: seq<nat>)
    requires |row| == 256
    ensures forall b: Byte :: ScanTriples(Sorting.SortByKey(SparseTriplesOf(row), SortKey), b) == row[b]
  {
    var ts := SparseTriplesOf(row);
    var sorted := Sorting.SortByKey(ts, SortKey);
    Sorting.SortByKeyFacts(ts, SortKey);
    forall b: Byte ensures ScanTriples(sorted, b) == row[b] {
      MatchesHold(row, b);
      forall x | x in sorted && TripleMatches(x.len, x.codeWord, b) ensures x.entry == row[b] {
        assert x in multiset(sorted);
      }
      var x :| x in ts && TripleMatches(x.len, x.codeWord, b);
      assert x in multiset(ts);
      assert x in sorted;
      ScanAll(sorted, b, row[b]);
    }
  }

  // ---------------------------------------------------------------------
  // The root chunk
  // ---------------------------------------------------------------------

  /** A root chunk whose first slots stand for the root array's slots and
      whose other slots are 0 searches, on every 4-byte key the root array
      answers, as the root array resolves. */
  lemma RootMeans<V>(t: Tree<V>, root: Fpa<V>)
    requires |root.table| <= 65536
    requires forall s :: 0 <= s < |root.table| ==> RootEntry(t, s).Ok? && Means(t, RootEntry(t, s).value, root.table[s])
    requires forall s :: |root.table| <= s < 65536 ==> RootEntry(t, s) == Ok(0)
    requires |t.results| > 0 && t.results[0] == None
    ensures forall key :: |key| == 4 && RootResolve(root, key).Ok? ==> TreeSearch(t, Some(key)) == RootResolve(root, key)
  {
    forall key | |key| == 4 && RootResolve(root, key).Ok? ensures TreeSearch(t, Some(key)) == RootResolve(root, key) {
      var s: nat := key[0] as nat * 256 + key[1];
      if s < |root.table| {
        assert Means(t, RootEntry(t, s).value, root.table[s]);
      } else {
        assert s < 65536;
        assert RootEntry(t, s) == Ok(0);
        assert Lookup(t, 0, key[2..]) == ResultAt(t, 0);
      }
    }
  }
}

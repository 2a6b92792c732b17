/** The older tree (`com.github.abjfh.FPATree`) itself: `build` turns a
    converted root array into `rootChunk`, the compressed and sparse chunk
    lists and `resultList`, sharing work through `nodeCache`; the lookups
    walk them. The builder is proved to leave every entry standing for the
    slot it was made for (`Denotes`), and each lookup method to compute
    `RootCodes.Reads` on the arrays the tree was built from. */
module RootTrees {
  import opened Wrappers
  import opened Bits
  import opened Fpas
  import opened LookupEntries
  import opened ValueTables
  import opened ChangeCodes
  import opened TreeSpecs
  import opened JavaInts
  import opened RootCodes
  import opened RootBuild
  import opened RootMeaning
  import Sorting

  // ---------------------------------------------------------------------
  // The passes of buildCompressedGroups, on values
  // ---------------------------------------------------------------------

  lemma PrefixSnoc<T>(s: seq<T>, i: nat)
    requires i < |s|
    ensures s[..i + 1] == s[..i] + [s[i]]
  {
  }

  /** Slot `idx` lies in cluster `c` of group `g` exactly when `idx >> 6`
      is `g` and `(idx >> 3) & 7` is `c`. */
  lemma ClusterOf(idx: nat, g: nat, c: nat)
    requires idx < 256 && g < 4 && c < 8
    ensures 64 * g + 8 * c <= idx < 64 * g + 8 * c + 8 <==> g == idx / 64 && c == (idx / 8) % 8
  {
    SlotPlace(idx);
  }

  /** `nonDefaultCount[g][c]` once the entries `es` of the first `|es|`
      slots are built: how many of the `n` slots from `lo` on have an entry
      other than `d`. */
  function Tally(es: seq<nat>, d: nat, lo: nat, n: nat): nat
  {
    if n == 0 then 0 else Tally(es, d, lo, n - 1) + (if lo + n - 1 < |es| && es[lo + n - 1] != d then 1 else 0)
  }

  /** Before any entry is built, nothing is counted. */
  lemma {:induction false} TallyEmpty(d: nat, lo: nat, n: nat)
    ensures Tally([], d, lo, n) == 0
  {
    if n > 0 {
      TallyEmpty(d, lo, n - 1);
    }
  }

  /** Building one more slot's entry counts it where it lies, if it differs
      from `d`. */
  lemma {:induction false} TallyStep(es: seq<nat>, e: nat, d: nat, lo: nat, n: nat)
    ensures Tally(es + [e], d, lo, n) == Tally(es, d, lo, n) + (if lo <= |es| < lo + n && e != d then 1 else 0)
  {
    if n > 0 {
      TallyStep(es, e, d, lo, n - 1);
    }
  }

  /** With all 256 entries built, a cluster's count against the default
      `d` is the number of its entries flagged as differing from `d`. */
  lemma {:induction false} TallyFlags(es: seq<nat>, d: nat, g: nat, c: nat, n: nat)
    requires |es| == 256 && g < 4 && c < 8 && n <= 8
    ensures Tally(es, d, 64 * g + 8 * c, n) == CountTrue(DefaultFlags(es[64 * g..64 * g + 64], d)[8 * c..8 * c + n])
  {
    if n > 0 {
      TallyFlags(es, d, g, c, n - 1);
      var flags := DefaultFlags(es[64 * g..64 * g + 64], d);
      var cluster := flags[8 * c..8 * c + n];
      assert cluster[..n - 1] == flags[8 * c..8 * c + n - 1];
      assert cluster == cluster[..n - 1] + [cluster[n - 1]];
      CountTrueAppend(cluster[..n - 1], [cluster[n - 1]]);
      assert cluster[n - 1] == (es[64 * g + 8 * c + n - 1] != d);
    }
  }

  /** How many slots of group `g` pass 3 has looked at before slot `idx`. */
  function Visited(g: nat, idx: nat): nat {
    if idx <= 64 * g then 0 else if idx >= 64 * g + 64 then 64 else idx - 64 * g
  }

  /** Pass 3 looks at a slot of group `g` exactly when `idx >> 6` is `g`. */
  lemma VisitedStep(g: nat, idx: nat)
    ensures idx / 64 != g ==> Visited(g, idx + 1) == Visited(g, idx)
    ensures idx / 64 == g ==> 64 * g <= idx < 64 * g + 64 && Visited(g, idx) == idx - 64 * g &&
                              Visited(g, idx + 1) == idx - 64 * g + 1
  {
    DivModDef(idx, 64);
  }

  /** The end of the slots of cluster `c` among the first `j` of a group. */
  function Upto(c: nat, j: nat): nat {
    if j <= 8 * c then 8 * c else if j >= 8 * c + 8 then 8 * c + 8 else j
  }

  /** Pass 3's arrays after the first `j` slots of a group with flags
      `flags` and entries `es`: each code word holds the flags of its
      cluster so far in its high byte, each `filledCount` their number, and
      the entry of each flagged slot sits at its rank in `compressedFPA`,
      whose length is the number of flags. */
  ghost predicate Filled(flags: seq<bool>, es: seq<nat>, j: nat, words: seq<nat>, filled: seq<nat>, fpa: seq<nat>)
    requires |flags| == 64 && |es| == 64 && j <= 64
  {
    |words| == 8 && |filled| == 8 && |fpa| == CountTrue(flags) &&
    (forall c :: 0 <= c < 8 ==> words[c] == Msb(flags[8 * c..Upto(c, j)]) * 256) &&
    (forall c :: 0 <= c < 8 ==> filled[c] == CountTrue(flags[8 * c..Upto(c, j)])) &&
    (forall s :: 0 <= s < j && flags[s] ==> CountTrue(flags[..s]) < |fpa| && fpa[CountTrue(flags[..s])] == es[s])
  }

  /** A flagged slot's rank is below the number of flags up to any later
      point. */
  lemma RankBelow(flags: seq<bool>, s: nat, t: nat)
    requires s < t <= |flags| && flags[s]
    ensures CountTrue(flags[..s]) < CountTrue(flags[..t])
  {
    assert flags[..t] == flags[..s] + flags[s..t];
    assert flags[s..t] == [true] + flags[s + 1..t];
    CountTrueAppend(flags[..s], flags[s..t]);
    CountTrueAppend([true], flags[s + 1..t]);
  }

  /** Nothing is filled before the first slot. */
  lemma FilledStart(flags: seq<bool>, es: seq<nat>, fpa: seq<nat>)
    requires |flags| == 64 && |es| == 64 && |fpa| == CountTrue(flags)
    ensures Filled(flags, es, 0, seq(8, c => 0), seq(8, c => 0), fpa)
  {
    forall c | 0 <= c < 8 ensures flags[8 * c..Upto(c, 0)] == [] {
    }
  }

  /** A slot whose entry is the default changes nothing. */
  lemma FilledSkip(flags: seq<bool>, es: seq<nat>, j: nat, c: nat, words: seq<nat>, filled: seq<nat>, fpa: seq<nat>)
    requires |flags| == 64 && |es| == 64 && j < 64 && c == j / 8 && !flags[j]
    requires Filled(flags, es, j, words, filled, fpa)
    ensures Filled(flags, es, j + 1, words, filled, fpa)
  {
    var cluster := flags[8 * c..j];
    assert flags[8 * c..j + 1] == cluster + [false];
    MsbStep(cluster, false);
    assert CountTrue(cluster + [false]) == CountTrue(cluster) by {
      assert (cluster + [false])[..|cluster|] == cluster;
    }
    forall c' | 0 <= c' < 8 && c' != c ensures Upto(c', j + 1) == Upto(c', j) {
    }
  }

  /** Setting bit `7 - b` of the high byte, `|= (short) ((1 << (7 - b)) << 8)`,
      records a flagged slot `8c + b` in its cluster's code word. */
  lemma PutWord(flags: seq<bool>, j: nat, c: nat, b: nat)
    requires |flags| == 64 && j < 64 && j == 8 * c + b && b < 8 && flags[j]
    ensures Or(Msb(flags[8 * c..j]) * 256, Shl(Shl(1, 7 - b), 8)) == Msb(flags[8 * c..j + 1]) * 256
  {
    var cluster := flags[8 * c..j];
    assert flags[8 * c..j + 1] == cluster + [true];
    Pow2Byte();
    MsbStep(cluster, true);
    OrScaled(Msb(cluster), Pow2(7 - b), 8);
  }

  /** A flagged slot counts once more in its cluster. */
  lemma PutCount(flags: seq<bool>, lo: nat, j: nat)
    requires lo <= j < |flags| && flags[j]
    ensures CountTrue(flags[lo..j + 1]) == CountTrue(flags[lo..j]) + 1
  {
    assert flags[lo..j + 1][..j - lo] == flags[lo..j];
  }

  /** The position pass 3 computes for a flagged slot, the flags of the
      earlier clusters plus those filled in its own, is its rank. */
  lemma PutRank(flags: seq<bool>, j: nat, c: nat)
    requires |flags| == 64 && 8 * c <= j < 64 && flags[j]
    ensures CountTrue(flags[..8 * c]) + CountTrue(flags[8 * c..j]) == CountTrue(flags[..j]) < CountTrue(flags)
  {
    assert flags[..j] == flags[..8 * c] + flags[8 * c..j];
    CountTrueAppend(flags[..8 * c], flags[8 * c..j]);
    RankBelow(flags, j, 64);
    assert flags[..64] == flags;
  }

  /** A slot whose entry differs from the default sets its bit `7 - b` in
      the high byte of its cluster's code word, goes to position `before
      the cluster + filled so far` and counts as filled. */
  lemma FilledPut(flags: seq<bool>, es: seq<nat>, j: nat, c: nat, b: nat, words: seq<nat>, filled: seq<nat>, fpa: seq<nat>)
    requires |flags| == 64 && |es| == 64 && j < 64 && j == 8 * c + b && b < 8 && flags[j]
    requires Filled(flags, es, j, words, filled, fpa)
    ensures CountTrue(flags[..8 * c]) + filled[c] == CountTrue(flags[..j]) < |fpa|
    ensures Filled(flags, es, j + 1, words[c := Or(words[c], Shl(Shl(1, 7 - b), 8))], filled[c := filled[c] + 1],
                   fpa[CountTrue(flags[..j]) := es[j]])
  {
    assert Upto(c, j) == j && Upto(c, j + 1) == j + 1;
    PutRank(flags, j, c);
    var r := CountTrue(flags[..j]);
    var words', filled', fpa' := words[c := Or(words[c], Shl(Shl(1, 7 - b), 8))], filled[c := filled[c] + 1], fpa[r := es[j]];
    forall c' | 0 <= c' < 8 ensures words'[c'] == Msb(flags[8 * c'..Upto(c', j + 1)]) * 256 {
      if c' == c {
        PutWord(flags, j, c, b);
      } else {
        assert Upto(c', j + 1) == Upto(c', j);
      }
    }
    forall c' | 0 <= c' < 8 ensures filled'[c'] == CountTrue(flags[8 * c'..Upto(c', j + 1)]) {
      if c' == c {
        PutCount(flags, 8 * c, j);
      } else {
        assert Upto(c', j + 1) == Upto(c', j);
      }
    }
    forall s | 0 <= s < j + 1 && flags[s] ensures CountTrue(flags[..s]) < |fpa'| && fpa'[CountTrue(flags[..s])] == es[s] {
      if s < j {
        RankBelow(flags, s, j);
      }
    }
  }

  /** All 64 slots done: the high bytes are the clusters' flag bytes and
      `compressedFPA` holds the entries of the flagged slots in order. */
  lemma FilledDone(flags: seq<bool>, es: seq<nat>, words: seq<nat>, filled: seq<nat>, fpa: seq<nat>)
    requires |flags| == 64 && |es| == 64 && Filled(flags, es, 64, words, filled, fpa)
    ensures forall c :: 0 <= c < 8 ==> words[c] == ClusterBits(flags, c) * 256
    ensures fpa == Heads(es, flags, 64)
  {
    HeadsCount(es, flags, 64);
    assert flags[..64] == flags;
    forall p | 0 <= p < |fpa| ensures fpa[p] == Heads(es, flags, 64)[p] {
      HeadsIndex(es, flags, 64, p);
      var s :| 0 <= s < 64 && flags[s] && CountTrue(flags[..s]) == p;
      HeadsAt(es, flags, 64, s);
    }
  }

  /** Filling in `before`: the bitset read back from a code word holding
      only its high byte, the code word or-ed with the flags of the
      earlier clusters, and the running count after the cluster. */
  lemma BeforeStep(flags: seq<bool>, c: nat)
    requires |flags| == 64 && c < 8
    ensures var bits := ClusterBits(flags, c);
            ((bits * 256) / 256) % 256 == bits &&
            Or(bits * 256, CountTrue(flags[..8 * c])) == CodeWord(flags, c) &&
            CountTrue(flags[..8 * c]) + PopCount(bits) == CountTrue(flags[..8 * c + 8])
  {
    var bits := ClusterBits(flags, c);
    ClusterBitsBound(flags, c);
    CodeWordFields(bits, 0);
    Pow2Byte();
    OrShifted(bits, CountTrue(flags[..8 * c]), 8);
    PopCountOfBits(flags[8 * c..8 * c + 8]);
    assert flags[..8 * c + 8] == flags[..8 * c] + flags[8 * c..8 * c + 8];
    CountTrueAppend(flags[..8 * c], flags[8 * c..8 * c + 8]);
  }

  /** One more slot looked at by `processSparseBranch`: its candidate is
      listed when it differs from slot 0. */
  lemma ListedStep<T>(ts: seq<T>, es: seq<nat>, x: nat)
    requires |es| < |ts| == 256
    ensures var i, flags := |es|, Flags(ts);
            Heads(Candidates(es + [x], 256), flags[..i + 1], i + 1) ==
            Heads(Candidates(es, 256), flags[..i], i) + (if flags[i] then [SparseEntry(ToByte(i), MaskOf(256), x)] else [])
  {
    var i, flags := |es|, Flags(ts);
    var cands, cands' := Candidates(es, 256), Candidates(es + [x], 256);
    assert cands'[..i] == cands[..i];
    assert flags[..i + 1][..i] == flags[..i][..i];
    HeadsPrefix(cands', flags[..i + 1], cands, flags[..i], i);
  }

  // ---------------------------------------------------------------------
  // Helpers of the builder that touch no tree state
  // ---------------------------------------------------------------------

  /** `isSparse`: never for `K <= 0`; otherwise count the slots that differ
      from slot 0, giving up as soon as the count passes `K`. */
  method IsSparse<V(==)>(fpa: Fpa<V>, k: int) returns (sparse: bool)
    requires k <= 0 || |fpa.table| > 0
    ensures sparse == SparseBranch(fpa, k)
  {
    if k <= 0 {
      return false;
    }
    var root := fpa.table[0];
    var nonRootCount := 0;
    ghost var flags := Flags(fpa.table);
    for i := 0 to |fpa.table|
      invariant nonRootCount == CountTrue(flags[..i]) && nonRootCount <= k
    {
      var node := fpa.table[i];
      assert flags[..i + 1] == flags[..i] + [flags[i]];
      CountTrueAppend(flags[..i], [flags[i]]);
      if node != root {
        nonRootCount := nonRootCount + 1;
        if nonRootCount > k {
          assert flags == flags[..i + 1] + flags[i + 1..];
          CountTrueAppend(flags[..i + 1], flags[i + 1..]);
          return false;
        }
      }
    }
    assert flags[..|fpa.table|] == flags;
    return true;
  }

  /** The sums of `nonDefaultCount[groupIdx][c]` over `c < n` that pass 3
      takes, for `totalNonDefault` (`n` is 8) and for `clusterOffset`: once
      the counts are the clusters' flag counts, the number of flags before
      cluster `n`. */
  method ClusterOffset(nonDefaultCount: array2<nat>, groupIdx: nat, n: nat, ghost flags: seq<bool>) returns (sum: nat)
    requires nonDefaultCount.Length0 == 4 && nonDefaultCount.Length1 == 8 && groupIdx < 4 && n <= 8 && |flags| == 64
    requires forall c :: 0 <= c < 8 ==> nonDefaultCount[groupIdx, c] == CountTrue(flags[8 * c..8 * c + 8])
    ensures sum == CountTrue(flags[..8 * n])
  {
    sum := 0;
    for c := 0 to n
      invariant sum == CountTrue(flags[..8 * c])
    {
      assert flags[..8 * c + 8] == flags[..8 * c] + flags[8 * c..8 * c + 8];
      CountTrueAppend(flags[..8 * c], flags[8 * c..8 * c + 8]);
      sum := sum + nonDefaultCount[groupIdx, c];
    }
  }

  /** Pass 3's arrays for a group: `codeWords` and `filledCount` all 0,
      and `compressedFPA` as long as the sum of the group's
      `nonDefaultCount`, its number of flagged slots. */
  method NewGroupArrays(nonDefaultCount: array2<nat>, groupIdx: nat, ghost flags: seq<bool>, ghost es: seq<nat>)
    returns (codeWords: array<nat>, filledCount: array<nat>, compressedFPA: array<nat>)
    requires nonDefaultCount.Length0 == 4 && nonDefaultCount.Length1 == 8 && groupIdx < 4
    requires |flags| == 64 && |es| == 64
    requires forall c :: 0 <= c < 8 ==> nonDefaultCount[groupIdx, c] == CountTrue(flags[8 * c..8 * c + 8])
    ensures fresh(codeWords) && fresh(filledCount) && fresh(compressedFPA)
    ensures codeWords != filledCount && codeWords != compressedFPA && filledCount != compressedFPA
    ensures Filled(flags, es, 0, codeWords[..], filledCount[..], compressedFPA[..])
  {
    codeWords := new nat[8](c => 0);
    var totalNonDefault := ClusterOffset(nonDefaultCount, groupIdx, 8, flags);
    assert flags[..64] == flags;
    compressedFPA := new nat[totalNonDefault](i => 0);
    filledCount := new nat[8](c => 0);
    FilledStart(flags, es, compressedFPA[..]);
    assert codeWords[..] == seq(8, c => 0) && filledCount[..] == seq(8, c => 0);
  }

  /** The end of pass 3 on a group: `before` filled in, and the group is
      the one its entries and default call for. */
  method FinishGroup(defaultValue: nat, codeWords: array<nat>, filledCount: array<nat>, compressedFPA: array<nat>,
                     ghost flags: seq<bool>, ghost es: seq<nat>) returns (group: CompressedGroup)
    requires |es| == 64 && flags == DefaultFlags(es, defaultValue)
    requires codeWords != compressedFPA
    requires Filled(flags, es, 64, codeWords[..], filledCount[..], compressedFPA[..])
    modifies codeWords
    ensures group == GroupFrom(es, defaultValue)
  {
    FilledDone(flags, es, codeWords[..], filledCount[..], compressedFPA[..]);
    SetBefore(codeWords, flags);
    group := CompressedGroup(codeWords[..], defaultValue, compressedFPA[..]);
  }

  /** Pass 3 on a slot `8 * clusterIdx + bitIdx` of its group whose entry
      differs from the default: `codeWords[clusterIdx] |= (short) ((1 <<
      (7 - bitIdx)) << 8)`, the entry stored at `clusterOffset +
      filledCount[clusterIdx]`, which is its rank among the flagged slots,
      and `filledCount[clusterIdx]++`. */
  method PutSlot(nonDefaultCount: array2<nat>, groupIdx: nat, clusterIdx: nat, bitIdx: nat, lookupEntry: nat,
                 codeWords: array<nat>, filledCount: array<nat>, compressedFPA: array<nat>,
                 ghost flags: seq<bool>, ghost es: seq<nat>, ghost j: nat)
    requires codeWords != filledCount && codeWords != compressedFPA && filledCount != compressedFPA
    requires nonDefaultCount.Length0 == 4 && nonDefaultCount.Length1 == 8 && groupIdx < 4
    requires |flags| == 64 && |es| == 64
    requires forall c :: 0 <= c < 8 ==> nonDefaultCount[groupIdx, c] == CountTrue(flags[8 * c..8 * c + 8])
    requires j == 8 * clusterIdx + bitIdx && bitIdx < 8 && j < 64 && flags[j] && es[j] == lookupEntry
    requires Filled(flags, es, j, codeWords[..], filledCount[..], compressedFPA[..])
    modifies codeWords, filledCount, compressedFPA
    ensures Filled(flags, es, j + 1, codeWords[..], filledCount[..], compressedFPA[..])
  {
    ghost var words, filled, fpa := codeWords[..], filledCount[..], compressedFPA[..];
    FilledPut(flags, es, j, clusterIdx, bitIdx, words, filled, fpa);
    var mask := Shl(1, 7 - bitIdx);
    codeWords[clusterIdx] := Or(codeWords[clusterIdx], Shl(mask, 8));
    var clusterOffset := ClusterOffset(nonDefaultCount, groupIdx, clusterIdx, flags);
    var fpaIdx := clusterOffset + filledCount[clusterIdx];
    compressedFPA[fpaIdx] := lookupEntry;
    filledCount[clusterIdx] := filledCount[clusterIdx] + 1;
    assert codeWords[..] == words[clusterIdx := Or(words[clusterIdx], Shl(Shl(1, 7 - bitIdx), 8))];
    assert filledCount[..] == filled[clusterIdx := filled[clusterIdx] + 1];
    assert compressedFPA[..] == fpa[CountTrue(flags[..j]) := es[j]];
  }

  /** Pass 3's last loop: `codeWords[c] |= (short) cumulativeOnes`, then
      `cumulativeOnes += INDEX_TABLE[bitset]`, with the bitset read back
      from the high byte first. Each code word ends up the cluster's flag
      byte above the number of flags in the earlier clusters. */
  method SetBefore(codeWords: array<nat>, ghost flags: seq<bool>)
    requires codeWords.Length == 8 && |flags| == 64
    requires forall c :: 0 <= c < 8 ==> codeWords[c] == ClusterBits(flags, c) * 256
    modifies codeWords
    ensures forall c :: 0 <= c < 8 ==> codeWords[c] == CodeWord(flags, c)
  {
    var cumulativeOnes := 0;
    for c := 0 to 8
      invariant cumulativeOnes == CountTrue(flags[..8 * c])
      invariant forall c' :: 0 <= c' < c ==> codeWords[c'] == CodeWord(flags, c')
      invariant forall c' :: c <= c' < 8 ==> codeWords[c'] == ClusterBits(flags, c') * 256
    {
      BeforeStep(flags, c);
      ghost var words := codeWords[..];
      var bitset := (codeWords[c] / 256) % 256;
      assert bitset == ClusterBits(flags, c);
      codeWords[c] := Or(codeWords[c], cumulativeOnes);
      assert codeWords[..] == words[c := CodeWord(flags, c)];
      cumulativeOnes := cumulativeOnes + PopCount(bitset);
    }
  }

  // ---------------------------------------------------------------------
  // The tree
  // ---------------------------------------------------------------------

  /** `FPATree`: `rootChunk` (1024 groups of 64 entries), the compressed and
      sparse chunk lists and `resultList` with the `idxTable` that `build`
      keeps beside it. `build` also hands `K` and `nodeCache` down its
      calls; the model keeps them as fields. The ghost fields record, for
      the proofs, the array each chunk was made for and the entries it was
      made from, the chunks allocated but not yet filled (`open`) and the
      root array the tree was built from. */
  class Tree<V(==)> {
    const rootChunk: array2<nat>
    var compressedChunkList: seq<seq<CompressedGroup>>
    var sparseChunkList: seq<seq<SparseEntry>>
    const values: ValueTable<V>
    var nodeCache: map<FNode<V>, nat>
    ghost const K: int
    ghost const rootSource: Fpa<V>
    ghost var compressedSources: seq<Fpa<V>>
    ghost var compressedEntries: seq<seq<nat>>
    ghost var open: set<nat>
    ghost var sparseSources: seq<Fpa<V>>
    ghost var sparseEntries: seq<seq<nat>>

    /** The lists as a value. */
    ghost function State(): Lists<V>
      reads this, values
    {
      Lists(compressedChunkList, sparseChunkList, values.list, values.index, nodeCache,
            compressedSources, compressedEntries, open, sparseSources, sparseEntries)
    }

    /** What the builder's methods keep: `idxTable` agrees with
        `resultList`, and each compressed chunk has its row of entries. */
    ghost predicate Ready()
      reads this, values
    {
      values.Valid() && Aligned(State())
    }

    /** A built tree: made from a root array of 8-bit levels nested at most
        twice, its lists meaningful, every chunk filled, and the entry of
        every root slot in `rootChunk[s >> 6][s & 63]` standing for it. */
    ghost predicate Built()
      reads this, values, rootChunk
    {
      Inv(State(), K) && open == {} && RootShape(rootSource) && Nested2(rootSource) &&
      rootChunk.Length0 == 1024 && rootChunk.Length1 == 64 &&
      forall s :: 0 <= s < 65536 ==> Denotes(Cx(State(), K), rootChunk[s / 64, s % 64], RootSlot(rootSource, s))
    }

    /** `new FPATree<>()`: `resultList` holds `null`, `rootChunk` is all 0;
        `build` adds an empty `idxTable` and `nodeCache`, and `K`. */
    constructor (ghost root: Fpa<V>, ghost k: int)
      ensures Ready() && Inv(State(), k) && K == k && rootSource == root && open == {}
      ensures State() == Lists([], [], [None], map[], map[], [], [], {}, [], [])
      ensures rootChunk.Length0 == 1024 && rootChunk.Length1 == 64
      ensures forall g, b :: 0 <= g < 1024 && 0 <= b < 64 ==> rootChunk[g, b] == 0
      ensures fresh(values) && fresh(rootChunk)
    {
      K := k;
      rootSource := root;
      values := new ValueTable<V>.Seeded();
      rootChunk := new nat[1024, 64]((g, b) => 0);
      compressedChunkList := [];
      sparseChunkList := [];
      nodeCache := map[];
      compressedSources := [];
      compressedEntries := [];
      open := {};
      sparseSources := [];
      sparseEntries := [];
    }

    /** `allocateCompressedChunk`: a chunk appended to
        `compressedChunkList`, its groups still to be built. */
    method AllocateCompressedChunk(ghost f: Fpa<V>) returns (chunkIdx: nat)
      requires Ready()
      modifies this
      ensures Ready() && chunkIdx == old(|compressedChunkList|) && State() == Allocate(old(State()), f)
    {
      chunkIdx := |compressedChunkList|;
      compressedChunkList := compressedChunkList + [[]];
      compressedEntries := compressedEntries + [[]];
      compressedSources := compressedSources + [f];
      open := open + {chunkIdx};
    }

    /** `buildLookupEntry`: a cached slot gets its cached entry back;
        any other the entry `NewEntry` makes, which is cached. */
    method BuildLookupEntry(node: FNode<V>, k: int) returns (e: nat)
      requires Ready() && k == K && NodeByteLevels(node)
      modifies this, values
      ensures Ready() && (State(), e) == Entry(old(State()), node, k)
      decreases node, 5
    {
      if node in nodeCache {
        return nodeCache[node];
      }
      e := NewEntry(node, k);
      nodeCache := nodeCache[node := e];
    }

    /** `buildLookupEntry` on a slot whose entry is cached, as pass 3
        calls it: the cached entry, and nothing changes. */
    method CachedLookupEntry(node: FNode<V>, k: int) returns (e: nat)
      requires Ready() && k == K && NodeByteLevels(node) && node in nodeCache
      modifies this, values
      ensures Ready() && State() == old(State()) && e == old(nodeCache[node])
      decreases node, 6
    {
      e := BuildLookupEntry(node, k);
    }

    /** The body of `buildLookupEntry` past the cache: a slot without a
        nested array gets LEAF of its value's index, a sparse nested array
        SPARSE of its new sparse chunk, any other COMPRESSED of
        `compressedChunkList.size() - 1` once a chunk has been allocated
        for it and built. */
    method NewEntry(node: FNode<V>, k: int) returns (e: nat)
      requires Ready() && k == K && NodeByteLevels(node)
      modifies this, values
      ensures Ready() && (State(), e) == Uncached(old(State()), node, k)
      decreases node, 4
    {
      if node.next.None? {
        var valueIdx := values.GetValueIndex(node.value);
        e := EncodeUnmasked(TypeLeaf, valueIdx);
      } else {
        var f := node.next.value;
        var sparse := IsSparse(f, k);
        if sparse {
          var sparseIdx := ProcessSparseBranch(f, k);
          e := EncodeUnmasked(TypeSparse, sparseIdx);
        } else {
          e := NewDense(f, k);
        }
      }
    }

    method NewDense(f: Fpa<V>, k: int) returns (e: nat)
      requires Ready() && k == K && ByteLevel(f)
      modifies this, values
      ensures Ready() && State() == Dense(old(State()), f, k)
      ensures e == EncodeUnmasked(TypeCompressed, |compressedChunkList| - 1)
      decreases f, 5
    {
      var chunkIdx := AllocateCompressedChunk(f);
      BuildCompressedGroups(f, k, chunkIdx);
      e := EncodeUnmasked(TypeCompressed, |compressedChunkList| - 1);
    }

    /** `buildCompressedGroups` into the chunk allocated at `chunkIdx`: the
        four groups' defaults (pass 1), every slot's entry counted per
        cluster against its group's default (pass 2), then each group's
        code words and differing entries (pass 3). */
    method BuildCompressedGroups(f: Fpa<V>, k: int, chunkIdx: nat)
      requires Ready() && k == K && ByteLevel(f) && chunkIdx < |compressedChunkList|
      modifies this, values
      ensures Ready() && State() == Compressed(old(State()), f, k, chunkIdx)
      decreases f, 4
    {
      var groups, es := RunPasses(f, k);
      compressedChunkList := compressedChunkList[chunkIdx := groups];
      compressedEntries := compressedEntries[chunkIdx := es];
      open := open - {chunkIdx};
    }

    /** The passes themselves, on arrays of their own: the groups they
        build and the slots' entries. */
    method RunPasses(f: Fpa<V>, k: int) returns (groups: seq<CompressedGroup>, ghost es: seq<nat>)
      requires Ready() && k == K && ByteLevel(f)
      modifies this, values
      ensures Ready() && (State(), groups, es) == Passes(old(State()), f, k)
      decreases f, 3
    {
      var nonDefaultCount := new nat[4, 8]((g, c) => 0);
      var defaultValues := new nat[4](g => 0);
      assert defaultValues[..] == [0, 0, 0, 0];
      PickDefaults(f, k, defaultValues);
      es := CountNonDefaults(f, k, defaultValues, nonDefaultCount);
      groups := FillGroups(f, k, defaultValues, nonDefaultCount, es);
    }

    /** Pass 1: the default of each group is the entry of its first slot,
        LEAF of the value's index for a slot without nested array (not
        cached), `buildLookupEntry` for the others. */
    method PickDefaults(f: Fpa<V>, k: int, defaultValues: array<nat>)
      requires Ready() && k == K && ByteLevel(f) && defaultValues.Length == 4
      modifies this, values, defaultValues
      ensures Ready() && (State(), defaultValues[..]) == Defaults(old(State()), f, k, 0, old(defaultValues[..]))
      decreases f, 1
    {
      for idx := 0 to 256
        invariant Ready()
        invariant Defaults(State(), f, k, idx, defaultValues[..]) == Defaults(old(State()), f, k, 0, old(defaultValues[..]))
      {
        PickDefault(f, k, idx, defaultValues);
      }
    }

    /** One round of pass 1 on slot `idx`. */
    method PickDefault(f: Fpa<V>, k: int, idx: nat, defaultValues: array<nat>)
      requires Ready() && k == K && ByteLevel(f) && idx < 256 && defaultValues.Length == 4
      modifies this, values, defaultValues
      ensures Ready()
      ensures Defaults(State(), f, k, idx + 1, defaultValues[..]) == Defaults(old(State()), f, k, idx, old(defaultValues[..]))
      decreases f, 0
    {
      var groupIdx := idx / 64;
      var clusterIdx := (idx / 8) % 8;
      var bitIdx := idx % 8;
      var node := f.table[idx];
      if idx == 0 || (groupIdx > 0 && clusterIdx == 0 && bitIdx == 0) {
        if node.next.None? {
          var valueIdx := values.GetValueIndex(node.value);
          defaultValues[groupIdx] := EncodeUnmasked(TypeLeaf, valueIdx);
        } else {
          defaultValues[groupIdx] := BuildLookupEntry(node, k);
        }
      }
    }

    /** Pass 2: every slot's entry, from `buildLookupEntry`, and per cluster
        the number of entries that differ from their group's default. */
    method CountNonDefaults(f: Fpa<V>, k: int, defaultValues: array<nat>, nonDefaultCount: array2<nat>)
      returns (ghost es: seq<nat>)
      requires Ready() && k == K && ByteLevel(f) && defaultValues.Length == 4
      requires nonDefaultCount.Length0 == 4 && nonDefaultCount.Length1 == 8
      requires forall g, c :: 0 <= g < 4 && 0 <= c < 8 ==> nonDefaultCount[g, c] == 0
      modifies this, values, nonDefaultCount
      ensures Ready() && (State(), es) == Slots(old(State()), f, k, 0, [])
      ensures forall s :: 0 <= s < 256 ==> f.table[s] in nodeCache && nodeCache[f.table[s]] == es[s]
      ensures forall g, c :: 0 <= g < 4 && 0 <= c < 8 ==>
                nonDefaultCount[g, c] == CountTrue(DefaultFlags(es[64 * g..64 * g + 64], defaultValues[g])[8 * c..8 * c + 8])
      decreases f, 1
    {
      es := [];
      forall g, c | 0 <= g < 4 && 0 <= c < 8 ensures nonDefaultCount[g, c] == Tally(es, defaultValues[g], 64 * g + 8 * c, 8) {
        TallyEmpty(defaultValues[g], 64 * g + 8 * c, 8);
      }
      for idx := 0 to 256
        invariant Ready() && |es| == idx
        invariant Slots(State(), f, k, idx, es) == Slots(old(State()), f, k, 0, [])
        invariant forall g, c :: 0 <= g < 4 && 0 <= c < 8 ==>
                    nonDefaultCount[g, c] == Tally(es, defaultValues[g], 64 * g + 8 * c, 8)
      {
        var lookupEntry := CountSlot(f, k, idx, defaultValues, nonDefaultCount, es);
        es := es + [lookupEntry];
      }
      SlotsCached(old(State()), f, k, 0, []);
      forall g, c | 0 <= g < 4 && 0 <= c < 8
        ensures nonDefaultCount[g, c] == CountTrue(DefaultFlags(es[64 * g..64 * g + 64], defaultValues[g])[8 * c..8 * c + 8])
      {
        TallyFlags(es, defaultValues[g], g, c, 8);
      }
    }

    /** One round of pass 2: slot `idx`'s entry, counted in its cluster
        when it differs from its group's default. */
    method CountSlot(f: Fpa<V>, k: int, idx: nat, defaultValues: array<nat>, nonDefaultCount: array2<nat>,
                     ghost es: seq<nat>) returns (lookupEntry: nat)
      requires Ready() && k == K && ByteLevel(f) && idx < 256 && |es| == idx && defaultValues.Length == 4
      requires nonDefaultCount.Length0 == 4 && nonDefaultCount.Length1 == 8
      requires forall g, c :: 0 <= g < 4 && 0 <= c < 8 ==>
                 nonDefaultCount[g, c] == Tally(es, defaultValues[g], 64 * g + 8 * c, 8)
      modifies this, values, nonDefaultCount
      ensures Ready() && (State(), lookupEntry) == Entry(old(State()), f.table[idx], k)
      ensures forall g, c :: 0 <= g < 4 && 0 <= c < 8 ==>
                nonDefaultCount[g, c] == Tally(es + [lookupEntry], defaultValues[g], 64 * g + 8 * c, 8)
      decreases f, 0
    {
      var groupIdx := idx / 64;
      var clusterIdx := (idx / 8) % 8;
      var node := f.table[idx];
      lookupEntry := BuildLookupEntry(node, k);
      SlotPlace(idx);
      if lookupEntry != defaultValues[groupIdx] {
        nonDefaultCount[groupIdx, clusterIdx] := nonDefaultCount[groupIdx, clusterIdx] + 1;
      }
      forall g, c | 0 <= g < 4 && 0 <= c < 8
        ensures nonDefaultCount[g, c] == Tally(es + [lookupEntry], defaultValues[g], 64 * g + 8 * c, 8)
      {
        TallyStep(es, lookupEntry, defaultValues[g], 64 * g + 8 * c, 8);
        ClusterOf(idx, g, c);
      }
    }

    /** Pass 3, group by group. */
    method FillGroups(f: Fpa<V>, k: int, defaultValues: array<nat>, nonDefaultCount: array2<nat>, ghost es: seq<nat>)
      returns (groups: seq<CompressedGroup>)
      requires Ready() && k == K && ByteLevel(f)
      requires defaultValues.Length == 4 && nonDefaultCount.Length0 == 4 && nonDefaultCount.Length1 == 8 && |es| == 256
      requires forall s :: 0 <= s < 256 ==> f.table[s] in nodeCache && nodeCache[f.table[s]] == es[s]
      requires forall g, c :: 0 <= g < 4 && 0 <= c < 8 ==>
                 nonDefaultCount[g, c] == CountTrue(DefaultFlags(es[64 * g..64 * g + 64], defaultValues[g])[8 * c..8 * c + 8])
      modifies this, values
      ensures Ready() && State() == old(State())
      ensures groups == GroupsFrom(es, defaultValues[..])
      decreases f, 2
    {
      groups := [];
      for groupIdx := 0 to 4
        invariant Ready() && State() == old(State())
        invariant groups == GroupsFrom(es, defaultValues[..])[..groupIdx]
      {
        var group := FillGroup(f, k, groupIdx, defaultValues, nonDefaultCount, es);
        PrefixSnoc(GroupsFrom(es, defaultValues[..]), groupIdx);
        groups := groups + [group];
      }
      assert GroupsFrom(es, defaultValues[..])[..4] == GroupsFrom(es, defaultValues[..]);
    }

    /** Pass 3 on group `groupIdx`: every slot whose entry (from the cache)
        differs from the default sets its bit in its cluster's code word and
        goes to `compressedFPA[clusterOffset + filledCount[clusterIdx]]`;
        then `before` is filled in. */
    method FillGroup(f: Fpa<V>, k: int, groupIdx: nat, defaultValues: array<nat>, nonDefaultCount: array2<nat>,
                     ghost es: seq<nat>) returns (group: CompressedGroup)
      requires Ready() && k == K && ByteLevel(f)
      requires groupIdx < 4 && defaultValues.Length == 4 && nonDefaultCount.Length0 == 4 && nonDefaultCount.Length1 == 8
      requires |es| == 256
      requires forall s :: 0 <= s < 256 ==> f.table[s] in nodeCache && nodeCache[f.table[s]] == es[s]
      requires forall c :: 0 <= c < 8 ==>
                 nonDefaultCount[groupIdx, c] == CountTrue(DefaultFlags(es[64 * groupIdx..64 * groupIdx + 64], defaultValues[groupIdx])[8 * c..8 * c + 8])
      modifies this, values
      ensures Ready() && State() == old(State())
      ensures group == GroupFrom(es[64 * groupIdx..64 * groupIdx + 64], defaultValues[groupIdx])
      decreases f, 1
    {
      ghost var es64 := es[64 * groupIdx..64 * groupIdx + 64];
      ghost var flags := DefaultFlags(es64, defaultValues[groupIdx]);
      var codeWords, filledCount, compressedFPA := NewGroupArrays(nonDefaultCount, groupIdx, flags, es64);
      for idx := 0 to 256
        invariant Ready() && State() == old(State())
        invariant Filled(flags, es64, Visited(groupIdx, idx), codeWords[..], filledCount[..], compressedFPA[..])
      {
        var currentGroup := idx / 64;
        VisitedStep(groupIdx, idx);
        if currentGroup != groupIdx {
          continue;
        }
        FillSlot(f, k, groupIdx, idx, defaultValues[groupIdx], nonDefaultCount, codeWords, filledCount, compressedFPA, flags, es64);
      }
      group := FinishGroup(defaultValues[groupIdx], codeWords, filledCount, compressedFPA, flags, es64);
    }

    /** One round of pass 3's loop on slot `idx` of group `groupIdx`. */
    method FillSlot(f: Fpa<V>, k: int, groupIdx: nat, idx: nat, defaultValue: nat, nonDefaultCount: array2<nat>,
                    codeWords: array<nat>, filledCount: array<nat>, compressedFPA: array<nat>,
                    ghost flags: seq<bool>, ghost es64: seq<nat>)
      requires Ready() && k == K && ByteLevel(f)
      requires groupIdx < 4 && 64 * groupIdx <= idx < 64 * groupIdx + 64
      requires |es64| == 64 && flags == DefaultFlags(es64, defaultValue)
      requires f.table[idx] in nodeCache && nodeCache[f.table[idx]] == es64[idx - 64 * groupIdx]
      requires nonDefaultCount.Length0 == 4 && nonDefaultCount.Length1 == 8
      requires forall c :: 0 <= c < 8 ==> nonDefaultCount[groupIdx, c] == CountTrue(flags[8 * c..8 * c + 8])
      requires codeWords != filledCount && codeWords != compressedFPA && filledCount != compressedFPA
      requires Filled(flags, es64, idx - 64 * groupIdx, codeWords[..], filledCount[..], compressedFPA[..])
      modifies this, values, codeWords, filledCount, compressedFPA
      ensures Ready() && State() == old(State())
      ensures Filled(flags, es64, idx - 64 * groupIdx + 1, codeWords[..], filledCount[..], compressedFPA[..])
      decreases f, 0
    {
      var clusterIdx := (idx / 8) % 8;
      var bitIdx := idx % 8;
      var node := f.table[idx];
      var lookupEntry := CachedLookupEntry(node, k);
      SlotPlace(idx);
      ghost var j := idx - 64 * groupIdx;
      if lookupEntry != defaultValue {
        PutSlot(nonDefaultCount, groupIdx, clusterIdx, bitIdx, lookupEntry, codeWords, filledCount, compressedFPA, flags, es64, j);
      } else {
        FilledSkip(flags, es64, j, clusterIdx, codeWords[..], filledCount[..], compressedFPA[..]);
      }
    }

    /** `processSparseBranch`: the default entry (slot 0's) first, then one
        entry per slot that differs from slot 0, its slot number as an 8-bit
        prefix; sorted by descending mask and appended to
        `sparseChunkList`, whose new index is returned. */
    method ProcessSparseBranch(nextFPA: Fpa<V>, k: int) returns (sparseIdx: nat)
      requires Ready() && k == K && ByteLevel(nextFPA)
      modifies this, values
      ensures Ready() && (State(), sparseIdx) == Sparse(old(State()), nextFPA, k)
      decreases nextFPA, 3
    {
      var root := nextFPA.table[0];
      var sparseEntriesList: seq<SparseEntry> := [];
      var defaultLookup := BuildLookupEntry(root, k);
      var defaultEntry := SparseEntry(-1, -1, defaultLookup);
      sparseEntriesList := sparseEntriesList + [defaultEntry];
      ghost var st0 := State();
      ghost var es: seq<nat> := [];
      ghost var flags := Flags(nextFPA.table);
      for idx := 0 to |nextFPA.table|
        invariant Ready() && |es| == idx && (idx > 0 ==> es[0] == defaultLookup)
        invariant SparseSlots(State(), nextFPA, k, defaultLookup, idx, es) == SparseSlots(st0, nextFPA, k, defaultLookup, 0, [])
        invariant sparseEntriesList == [DefaultEntry(defaultLookup)] + Heads(Candidates(es, 256), flags[..idx], idx)
      {
        ghost var e;
        sparseEntriesList, e := SparseSlot(nextFPA, k, idx, defaultLookup, sparseEntriesList, es);
        es := es + [e];
      }
      assert flags[..256] == flags;
      sparseEntriesList := Sorting.SortByKey(sparseEntriesList, MaskKey);
      sparseIdx := |sparseChunkList|;
      sparseChunkList := sparseChunkList + [sparseEntriesList];
      sparseEntries := sparseEntries + [es];
      sparseSources := sparseSources + [nextFPA];
    }

    /** One round of `processSparseBranch`'s loop: a slot other than slot 0
        has its entry listed, its slot number an 8-bit prefix; `e` is the
        entry the slot stands for, slot 0's for a slot equal to it. */
    method SparseSlot(nextFPA: Fpa<V>, k: int, idx: nat, defaultLookup: nat, sparseEntriesList: seq<SparseEntry>,
                      ghost es: seq<nat>) returns (list: seq<SparseEntry>, ghost e: nat)
      requires Ready() && k == K && ByteLevel(nextFPA) && idx < 256 && |es| == idx
      requires sparseEntriesList == [DefaultEntry(defaultLookup)] + Heads(Candidates(es, 256), Flags(nextFPA.table)[..idx], idx)
      modifies this, values
      ensures Ready()
      ensures SparseSlots(State(), nextFPA, k, defaultLookup, idx + 1, es + [e]) ==
              SparseSlots(old(State()), nextFPA, k, defaultLookup, idx, es)
      ensures nextFPA.table[idx] == nextFPA.table[0] ==> e == defaultLookup
      ensures list == [DefaultEntry(defaultLookup)] + Heads(Candidates(es + [e], 256), Flags(nextFPA.table)[..idx + 1], idx + 1)
      decreases nextFPA, 2
    {
      var node := nextFPA.table[idx];
      list := sparseEntriesList;
      if node != nextFPA.table[0] {
        var lookupEntry := BuildLookupEntry(node, k);
        var entry := SparseEntry(ToByte(idx), ToByte(BitLength(|nextFPA.table| - 1)), lookupEntry);
        list := list + [entry];
        e := lookupEntry;
      } else {
        e := defaultLookup;
      }
      ListedStep(nextFPA.table, es, e);
    }

    /** `processDenseBranch`: a compressed chunk allocated for `nextFPA`,
        its index taken at once, its groups built, and COMPRESSED of that
        index written to `parentChunk[parentChunkIdx][parentInChunkIdx]`. */
    method ProcessDenseBranch(nextFPA: Fpa<V>, parentChunk: array2<nat>, parentChunkIdx: nat, parentInChunkIdx: nat, k: int)
      requires Ready() && k == K && ByteLevel(nextFPA)
      requires parentChunkIdx < parentChunk.Length0 && parentInChunkIdx < parentChunk.Length1
      modifies this, values, parentChunk
      ensures Ready() && State() == Dense(old(State()), nextFPA, k)
      ensures parentChunk[parentChunkIdx, parentInChunkIdx] == EncodeUnmasked(TypeCompressed, old(|compressedChunkList|))
      ensures forall g, b :: 0 <= g < parentChunk.Length0 && 0 <= b < parentChunk.Length1 && (g != parentChunkIdx || b != parentInChunkIdx) ==>
                parentChunk[g, b] == old(parentChunk[g, b])
    {
      var chunkIdx := AllocateCompressedChunk(nextFPA);
      var newChunkIdx := |compressedChunkList| - 1;
      BuildCompressedGroups(nextFPA, k, chunkIdx);
      parentChunk[parentChunkIdx, parentInChunkIdx] := EncodeUnmasked(TypeCompressed, newChunkIdx);
    }

    /** One round of `processLevel`'s loop: the entry of a root slot
        written to `rootChunk[groupIdx][bitIdx]`. */
    method ProcessRootSlot(node: FNode<V>, k: int, groupIdx: nat, bitIdx: nat)
      requires Ready() && k == K && NodeByteLevels(node)
      requires rootChunk.Length0 == 1024 && rootChunk.Length1 == 64 && groupIdx < 1024 && bitIdx < 64
      modifies this, values, rootChunk
      ensures Ready() && (State(), rootChunk[groupIdx, bitIdx]) == RootEntry(old(State()), node, k)
      ensures forall g, b :: 0 <= g < 1024 && 0 <= b < 64 && (g != groupIdx || b != bitIdx) ==>
                rootChunk[g, b] == old(rootChunk[g, b])
    {
      if node.next.None? {
        var valueIdx := values.GetValueIndex(node.value);
        rootChunk[groupIdx, bitIdx] := EncodeUnmasked(TypeLeaf, valueIdx);
      } else {
        var sparse := IsSparse(node.next.value, k);
        if sparse {
          var sparseIdx := ProcessSparseBranch(node.next.value, k);
          rootChunk[groupIdx, bitIdx] := EncodeUnmasked(TypeSparse, sparseIdx);
        } else {
          ProcessDenseBranch(node.next.value, rootChunk, groupIdx, bitIdx, k);
        }
      }
    }

    /** `processLevel(root, rootChunk, …)`: each root slot's entry written
        to `rootChunk[idx >> 6][idx & 63]`: LEAF of its value's index, SPARSE
        of a new sparse chunk, or through `processDenseBranch`. The slots
        past the root array keep their 0. */
    method ProcessLevel(root: Fpa<V>, k: int)
      requires Ready() && k == K && RootShape(root) && rootChunk.Length0 == 1024 && rootChunk.Length1 == 64
      modifies this, values, rootChunk
      ensures Ready() && State() == Level(old(State()), root, k, 0, []).0
      ensures forall s :: 0 <= s < |root.table| ==> rootChunk[s / 64, s % 64] == Level(old(State()), root, k, 0, []).1[s]
      ensures forall g, b :: 0 <= g < 1024 && 0 <= b < 64 && 64 * g + b >= |root.table| ==>
                rootChunk[g, b] == old(rootChunk[g, b])
    {
      ghost var es: seq<nat> := [];
      for idx := 0 to |root.table|
        invariant Ready() && |es| == idx
        invariant Level(State(), root, k, idx, es) == Level(old(State()), root, k, 0, [])
        invariant forall s :: 0 <= s < idx ==> rootChunk[s / 64, s % 64] == es[s]
        invariant forall g, b :: 0 <= g < 1024 && 0 <= b < 64 && 64 * g + b >= idx ==>
                    rootChunk[g, b] == old(rootChunk[g, b])
      {
        var groupIdx := idx / 64;
        var bitIdx := idx % 64;
        RootPlace(idx);
        ProcessRootSlot(root.table[idx], k, groupIdx, bitIdx);
        es := es + [rootChunk[groupIdx, bitIdx]];
      }
    }

    /** `followLookupEntry(lookupEntry, ipAddress, bitOffset)` on an entry
        standing for slot `n`: 0 is `null`; LEAF reads `resultList`;
        COMPRESSED and SPARSE search their chunk; any other type is `null`.
        It reads what `Reads` reads below `n`. */
    method FollowLookupEntry(lookupEntry: nat, ipAddress: int, bitOffset: int, ghost n: FNode<V>) returns (r: Option<V>)
      requires Built() && Small(Cx(State(), K)) && NodeByteLevels(n) && Denotes(Cx(State(), K), lookupEntry, n)
      ensures r == Reads(n, ipAddress, bitOffset, K)
      decreases n, 2
    {
      DenotedEntry(Cx(State(), K), lookupEntry, n);
      if lookupEntry == 0 {
        return None;
      }
      var entryType := EntryType(lookupEntry);
      var index := EntryIndex(lookupEntry);
      if entryType == TypeLeaf {
        return values.list[index];
      }
      if entryType == TypeCompressed {
        var idx := NextByte(ipAddress, bitOffset);
        r := LookupInCompressedGroup(compressedChunkList[index], ipAddress, bitOffset, idx, index, n);
      } else if entryType == TypeSparse {
        r := LookupInSparse(index, ipAddress, bitOffset, n);
      } else {
        r := None;
      }
    }

    /** `lookupInCompressedGroup(compressedChunk, ipAddress, bitOffset,
        localIdx)` on chunk `chunkIdx`, made for the array below `n`: the
        group `localIdx >> 6`, the cluster's code word, and the default or
        the listed entry the slot's bit chooses, followed 8 bits further
        on. */
    method LookupInCompressedGroup(compressedChunk: seq<CompressedGroup>, ipAddress: int, bitOffset: int, localIdx: nat,
                                   ghost chunkIdx: nat, ghost n: FNode<V>) returns (r: Option<V>)
      requires Built() && Small(Cx(State(), K)) && NodeByteLevels(n) && n.next.Some? && !SparseBranch(n.next.value, K)
      requires chunkIdx < |compressedChunkList| && compressedChunk == compressedChunkList[chunkIdx]
      requires chunkIdx < |compressedSources| && compressedSources[chunkIdx] == n.next.value
      requires localIdx == NextByte(ipAddress, bitOffset)
      ensures r == Reads(n, ipAddress, bitOffset, K)
      decreases n, 1
    {
      CompressedFollow(State(), K, chunkIdx, n.next.value, localIdx);
      ReadsCompressed(n, ipAddress, bitOffset, K);
      var groupIdx := localIdx / 64;
      var group := compressedChunk[groupIdx];
      var clusterIdx := (localIdx / 8) % 8;
      var bitIdx := localIdx % 8;
      var lookupEntry := GroupEntry(group, clusterIdx, bitIdx);
      r := FollowLookupEntry(lookupEntry, ipAddress, bitOffset + 8, n.next.value.table[localIdx]);
    }

    /** `lookupInSparse(sparseIdx, ipAddress, bitOffset)` on the sparse
        chunk made for the array below `n`: the first listed entry whose
        prefix matches the bits after `bitOffset` is followed `mask` bits
        further on; with none, the default (the last entry) at `bitOffset`
        itself. */
    method LookupInSparse(sparseIdx: nat, ipAddress: int, bitOffset: int, ghost n: FNode<V>) returns (r: Option<V>)
      requires Built() && Small(Cx(State(), K)) && NodeByteLevels(n) && n.next.Some? && SparseBranch(n.next.value, K)
      requires sparseIdx < |sparseChunkList| && sparseIdx < |sparseSources| && sparseSources[sparseIdx] == n.next.value
      ensures r == Reads(n, ipAddress, bitOffset, K)
      decreases n, 1
    {
      var entries := sparseChunkList[sparseIdx];
      var i := SparseMatch(entries, ipAddress, bitOffset);
      SparseFollow(State(), K, sparseIdx, n.next.value, ipAddress, bitOffset, i);
      ReadsSparse(n, ipAddress, bitOffset, K);
      ghost var ts := n.next.value.table;
      if i < |entries| - 1 {
        r := FollowLookupEntry(entries[i].lookupEntry, ipAddress, bitOffset + entries[i].mask, ts[NextByte(ipAddress, bitOffset)]);
      } else {
        r := FollowLookupEntry(entries[i].lookupEntry, ipAddress, bitOffset, ts[0]);
      }
    }

    /** `lookupInChunk(rootChunk, ipAddress)`: the root slot
        `(ipAddress >> 16) & 0xFFFF`, its entry at `[idx >> 6][idx & 63]`,
        followed from bit 16 on. */
    method LookupInChunk(ipAddress: int) returns (r: Option<V>)
      requires Built() && Small(Cx(State(), K))
      ensures r == RootReads(rootSource, ipAddress, K)
    {
      Pow2Short();
      var idx := Field(ipAddress, 16, 16);
      var groupIdx := idx / 64;
      var bitIdx := idx % 64;
      var lookupEntry := rootChunk[groupIdx, bitIdx];
      r := FollowLookupEntry(lookupEntry, ipAddress, 16, RootSlot(rootSource, idx));
    }

    /** `lookup(byte[])`: `null` for a missing address or one not 4 bytes
        long; else the bytes packed big-endian into an `int`, `ip = (ip <<
        8) | (b & 0xFF)`, and looked up. On a tree whose sparse defaults have
        no nested arrays, that is the value the address resolves to. */
    method Lookup(ipAddress: Option<seq<Byte>>) returns (r: Option<V>)
      requires Built() && Small(Cx(State(), K))
      ensures ipAddress.None? || |ipAddress.value| != 4 ==> r == None
      ensures ipAddress.Some? && |ipAddress.value| == 4 ==> r == RootReads(rootSource, PackedIp(ipAddress.value), K)
      ensures ipAddress.Some? && |ipAddress.value| == 4 && RootDefaultsLeaves(rootSource, K) ==>
                RootResolve(rootSource, ipAddress.value) == Ok(r)
    {
      if ipAddress.None? || |ipAddress.value| != 4 {
        return None;
      }
      var key := ipAddress.value;
      var ip := 0;
      for i := 0 to 4
        invariant ip == Int32(BigEndian(key[..i]))
      {
        BigEndianSnoc(key, i);
        PackStep(BigEndian(key[..i]), key[i]);
        ip := Int32(ip * 256 + key[i]);
      }
      assert key[..4] == key;
      r := LookupInChunk(ip);
      if RootDefaultsLeaves(rootSource, K) {
        RootReadsResolve(rootSource, key, K);
      }
    }

    /** `lookup(int)`: the address already packed. */
    method LookupInt(ipAddress: int) returns (r: Option<V>)
      requires Built() && Small(Cx(State(), K))
      ensures r == RootReads(rootSource, ipAddress, K)
    {
      r := LookupInChunk(ipAddress);
    }
  }

  /** The entry `lookupInCompressedGroup` follows for bit `bitIdx` of
      cluster `clusterIdx`: the default when the cluster's bitset,
      `(codeWord >> 8) & 0xFF`, is 0 or has the slot's bit `7 - bitIdx`
      clear; else `compressedFPA[before + INDEX_TABLE[(bitset >> (8 -
      bitIdx)) & 0xFF]]`, with `before` the code word's low byte. */
  method GroupEntry(group: CompressedGroup, clusterIdx: nat, bitIdx: nat) returns (lookupEntry: nat)
    requires bitIdx < 8 && PickIn(group, clusterIdx, bitIdx).Some?
    ensures Some(lookupEntry) == PickIn(group, clusterIdx, bitIdx)
  {
    var codeWord := group.codeWords[clusterIdx];
    var bitset := (codeWord / 256) % 256;
    var before := codeWord % 256;
    if bitset == 0 {
      return group.defaultValue;
    }
    var mask := Shl(1, 7 - bitIdx);
    if And(bitset, mask) == 0 {
      return group.defaultValue;
    }
    var shifted := Shr(bitset, 8 - bitIdx);
    var onesInCluster := PopCount(shifted % 256);
    var fpaIdx := before + onesInCluster;
    lookupEntry := group.compressedFPA[fpaIdx];
  }

  /** `lookupInSparse`'s scan: the first of the entries before the last
      whose prefix matches the `mask` bits after `bitOffset`,
      `(ipAddress >> (32 - bitOffset - mask)) & ((1 << mask) - 1) ==
      (prefix & 0xFF)`; the last entry, the default, when none does. */
  method SparseMatch(entries: seq<SparseEntry>, ipAddress: int, bitOffset: int) returns (i: nat)
    requires |entries| > 0
    ensures i < |entries|
    ensures forall m :: 0 <= m < i && m < |entries| - 1 ==> !Matches(entries[m], ipAddress, bitOffset)
    ensures i < |entries| - 1 ==> Matches(entries[i], ipAddress, bitOffset)
  {
    i := 0;
    while i < |entries| - 1
      invariant i <= |entries| - 1
      invariant forall m :: 0 <= m < i ==> !Matches(entries[m], ipAddress, bitOffset)
    {
      var entry := entries[i];
      var prefix := entry.prefix % 256;
      var mask := entry.mask;
      var bits := Field(ipAddress, 32 - bitOffset - mask, mask);
      if bits == prefix {
        return;
      }
      i := i + 1;
    }
  }

  /** Every sparse array below a root slot has a slot 0 without nested
      array. */
  predicate RootDefaultsLeaves<V(==)>(root: Fpa<V>, k: int) {
    forall s :: 0 <= s < |root.table| ==> DefaultsLeaves(root.table[s], k)
  }

  /** `build(root, K)`: a new tree whose `processLevel` ran on `root`. Built
      from an array nested at most twice below the root, as the converter
      makes for IPv4, the tree is `Built`. */
  method Build<V(==)>(root: Fpa<V>, k: int) returns (t: Tree<V>)
    requires RootShape(root)
    ensures fresh(t) && fresh(t.values) && fresh(t.rootChunk) && t.rootSource == root && t.K == k
    ensures t.State() == Level(Lists([], [], [None], map[], map[], [], [], {}, [], []), root, k, 0, []).0
    ensures Nested2(root) ==> t.Built()
  {
    t := new Tree<V>(root, k);
    ghost var st0 := t.State();
    t.ProcessLevel(root, k);
    if Nested2(root) {
      BuiltFromLevel(t, st0);
    }
  }

  /** What `processLevel` leaves in a new tree is a built tree. */
  lemma BuiltFromLevel<V>(t: Tree<V>, st0: Lists<V>)
    requires Inv(st0, t.K) && st0.open == {} && RootShape(t.rootSource) && Nested2(t.rootSource)
    requires t.State() == Level(st0, t.rootSource, t.K, 0, []).0
    requires t.rootChunk.Length0 == 1024 && t.rootChunk.Length1 == 64
    requires forall s :: 0 <= s < |t.rootSource.table| ==> t.rootChunk[s / 64, s % 64] == Level(st0, t.rootSource, t.K, 0, []).1[s]
    requires forall g, b :: 0 <= g < 1024 && 0 <= b < 64 && 64 * g + b >= |t.rootSource.table| ==> t.rootChunk[g, b] == 0
    ensures t.Built()
  {
    var root, k := t.rootSource, t.K;
    var r := Level(st0, root, k, 0, []);
    LevelKept(st0, root, k, 0, []);
    var cx := Cx(t.State(), k);
    forall s | 0 <= s < 65536 ensures Denotes(cx, t.rootChunk[s / 64, s % 64], RootSlot(root, s)) {
      if s >= |root.table| {
        DivModDef(s, 64);
        assert t.rootChunk[s / 64, s % 64] == 0;
        assert 0 == EncodeUnmasked(TypeLeaf, 0) && LeafIs(cx.results, 0, None);
      }
    }
  }
}

/** The chunk formats of the older tree (`com.github.abjfh.FPATree`) and
    what its lookup reads from them. A nested 256-slot array becomes either a
    compressed chunk of four 64-slot groups, each keeping a default entry
    (its first slot's) and only the entries that differ from it, or, when
    at most `K` slots differ from slot 0, a sparse chunk listing those slots
    as 8-bit prefixes ahead of a default entry. `Reads` states the lookup on
    the arrays themselves, as the code walks them. */
module RootCodes {
  import opened Wrappers
  import opened Bits
  import opened Fpas
  import opened LookupEntries
  import opened ChangeCodes
  import opened TreeSpecs
  import opened JavaInts
  import Sorting

  /** `TYPE_COMPRESSED`, the older tree's name for entry type 1. */
  const TypeCompressed: nat := TypeDense

  /** `CompressedGroup`: per cluster of 8 slots a code word (the slots whose
      entry differs from the default, MSB first, above the number of such
      slots in earlier clusters), the group's default entry and the
      differing entries in slot order. */
  datatype CompressedGroup = CompressedGroup(codeWords: seq<nat>, defaultValue: nat, compressedFPA: seq<nat>)

  /** Java's `byte`. */
  type JavaByte = x: int | -128 <= x < 128

  /** The `(byte)` cast: the low 8 bits, read as a signed number. */
  function ToByte(x: int): JavaByte {
    (x + 128) % 256 - 128
  }

  /** `SparseEntry`: a prefix and its length in bits, both Java bytes, and
      the entry followed when the prefix matches. */
  datatype SparseEntry = SparseEntry(prefix: JavaByte, mask: JavaByte, lookupEntry: nat)

  /** `32 - Integer.numberOfLeadingZeros(x)` for a non-negative `x`: the
      number of bits `x` needs. */
  function BitLength(x: nat): nat {
    if x == 0 then 0 else 1 + BitLength(x / 2)
  }

  lemma BitLengthByte()
    ensures BitLength(255) == 8
  {
    assert BitLength(1) == 1;
    assert BitLength(3) == 2;
    assert BitLength(7) == 3;
    assert BitLength(15) == 4;
    assert BitLength(31) == 5;
    assert BitLength(63) == 6;
    assert BitLength(127) == 7;
  }

  /** A slot's flag: whether it differs from the row's first slot. */
  function Flags<T(==)>(ts: seq<T>): (r: seq<bool>)
    ensures |r| == |ts|
  {
    seq(|ts|, s requires 0 <= s < |ts| => ts[s] != ts[0])
  }

  /** `isSparse(fpa, K)`: `K` is positive and at most `K` slots differ from
      slot 0. */
  predicate SparseBranch<V(==)>(f: Fpa<V>, k: int) {
    k > 0 && CountTrue(Flags(f.table)) <= k
  }

  // ---------------------------------------------------------------------
  // Compressed chunks
  // ---------------------------------------------------------------------

  /** The group `buildCompressedGroups` makes from 64 slot entries: the
      first entry is the default, a slot's bit is set when its entry
      differs from it, and the differing entries are kept in slot order. */
  function GroupOf(es: seq<nat>): (r: CompressedGroup)
    requires |es| == 64
  {
    var flags := Flags(es);
    CompressedGroup(seq(8, c requires 0 <= c < 8 => CodeWord(flags, c)), es[0], Heads(es, flags, 64))
  }

  /** The compressed chunk of a 256-slot row of entries: its four groups. */
  function CompressedOf(es: seq<nat>): (r: seq<CompressedGroup>)
    requires |es| == 256
    ensures |r| == 4
  {
    seq(4, g requires 0 <= g < 4 => GroupOf(es[64 * g..64 * g + 64]))
  }

  /** `lookupInCompressedGroup`'s choice within a group for bit `bit` of
      cluster `c`: the default when the cluster's bitset is 0 or the slot's
      bit `7 - bit` is clear, else `compressedFPA[before + ones]` with
      `ones` the bits set left of the slot; `None` where an index would
      leave its array. `(cw >> 8) & 0xFF` and `cw & 0xFF` take the 16-bit
      code word apart. */
  function PickIn(group: CompressedGroup, c: nat, bit: nat): Option<nat>
    requires bit < 8
  {
    if c >= |group.codeWords| then None
    else
      var codeWord := group.codeWords[c];
      var bitset, before := (codeWord / 256) % 256, codeWord % 256;
      if bitset == 0 || And(bitset, Shl(1, 7 - bit)) == 0 then Some(group.defaultValue)
      else
        var fpaIdx := before + PopCount(Shr(bitset, 8 - bit) % 256);
        if fpaIdx < |group.compressedFPA| then Some(group.compressedFPA[fpaIdx]) else None
  }

  /** The entry `lookupInCompressedGroup` follows for slot `localIdx`:
      group `localIdx >> 6`, cluster `(localIdx >> 3) & 7`, bit
      `localIdx & 7`. */
  function Pick(chunk: seq<CompressedGroup>, localIdx: nat): Option<nat> {
    var g := localIdx / 64;
    if g < |chunk| then PickIn(chunk[g], (localIdx / 8) % 8, localIdx % 8) else None
  }

  /** `x & (1 << m)` keeps bit `m` of `x`. */
  lemma {:induction false} AndPow2(x: nat, m: nat)
    ensures And(x, Pow2(m)) == if (x / Pow2(m)) % 2 == 1 then Pow2(m) else 0
  {
    if x == 0 {
      assert And(x, Pow2(m)) == 0;
      DivModUnique(0, Pow2(m), 0, 0);
    } else if m == 0 {
      assert Pow2(m) == 1 && x / 1 == x;
      assert And(x, 1) == 2 * And(x / 2, 0) + (if x % 2 == 1 then 1 else 0);
    } else {
      var p := Pow2(m - 1);
      var y := Pow2(m);
      assert y == 2 * p;
      assert y % 2 == 0 && y / 2 == p;
      AndStep(x, y);
      AndPow2(x / 2, m - 1);
      ModDouble(x, p);
      assert x / y == (x / 2) / p;
    }
  }

  lemma AndStep(x: nat, y: nat)
    requires x > 0 && y > 0 && y % 2 == 0
    ensures And(x, y) == 2 * And(x / 2, y / 2)
  {
  }

  /** Bit `7 - b` of a cluster byte is the flag of slot `b`. */
  lemma ClusterBit(cluster: seq<bool>, b: nat)
    requires |cluster| == 8 && b < 8
    ensures And(BitsToNat(cluster), Shl(1, 7 - b)) == if cluster[b] then Pow2(7 - b) else 0
  {
    var x := BitsToNat(cluster);
    assert Shl(1, 7 - b) == Pow2(7 - b);
    AndPow2(x, 7 - b);
    HighBits(cluster, b + 1);
    var head := cluster[..b + 1];
    assert x / Pow2(7 - b) == BitsToNat(head);
    assert head[..|head| - 1] == cluster[..b];
    var low := BitsToNat(cluster[..b]);
    assert BitsToNat(head) == 2 * low + (if cluster[b] then 1 else 0);
    DivModUnique(BitsToNat(head), 2, low, if cluster[b] then 1 else 0);
  }

  /** `INDEX_TABLE[(bitset >> (8 - b)) & 0xFF]` counts the flags of the
      cluster's slots left of slot `b`. */
  lemma ClusterRankBefore(cluster: seq<bool>, b: nat)
    requires |cluster| == 8 && b < 8
    ensures PopCount(Shr(BitsToNat(cluster), 8 - b) % 256) == CountTrue(cluster[..b])
  {
    var x := BitsToNat(cluster);
    ShrIsDiv(x, 8 - b);
    HighBits(cluster, b);
    var y := BitsToNat(cluster[..b]);
    BitsToNatBound(cluster[..b]);
    Pow2Monotone(b, 8);
    Pow2Byte();
    DivModUnique(y, 256, 0, y);
    PopCountOfBits(cluster[..b]);
  }

  /** Decoding slot `8c + b` of a made group gives the slot's own entry. */
  lemma GroupDecode(es: seq<nat>, c: nat, b: nat)
    requires |es| == 64 && c < 8 && b < 8
    ensures PickIn(GroupOf(es), c, b) == Some(es[8 * c + b])
  {
    var flags := Flags(es);
    var j := 8 * c + b;
    var cluster := flags[8 * c..8 * c + 8];
    var group := GroupOf(es);
    GroupWord(es, c);
    var bitset := (group.codeWords[c] / 256) % 256;
    ClusterBit(cluster, b);
    assert cluster[b] == flags[j];
    if flags[j] {
      assert And(bitset, Shl(1, 7 - b)) != 0 && bitset != 0;
      FlaggedRank(flags, c, b);
      HeadsAt(es, flags, 64, j);
    } else {
      assert And(bitset, Shl(1, 7 - b)) == 0;
    }
  }

  /** The two bytes of a made group's code word `c`: the cluster's flags
      and the number of flags before the cluster. */
  lemma GroupWord(es: seq<nat>, c: nat)
    requires |es| == 64 && c < 8
    ensures var flags, codeWord := Flags(es), GroupOf(es).codeWords[c];
      (codeWord / 256) % 256 == BitsToNat(flags[8 * c..8 * c + 8]) && codeWord % 256 == CountTrue(flags[..8 * c])
  {
    var flags := Flags(es);
    ClusterBitsBound(flags, c);
    CodeWordFields(ClusterBits(flags, c), CountTrue(flags[..8 * c]));
  }

  /** The position a flagged slot `8c + b` is read from is its rank among
      the group's flags. */
  lemma FlaggedRank(flags: seq<bool>, c: nat, b: nat)
    requires |flags| == 64 && c < 8 && b < 8
    ensures CountTrue(flags[..8 * c]) + PopCount(Shr(BitsToNat(flags[8 * c..8 * c + 8]), 8 - b) % 256) ==
            CountTrue(flags[..8 * c + b])
  {
    var cluster := flags[8 * c..8 * c + 8];
    ClusterRankBefore(cluster, b);
    assert flags[..8 * c + b] == flags[..8 * c] + cluster[..b];
    CountTrueAppend(flags[..8 * c], cluster[..b]);
  }

  /** `lookupInCompressedGroup` finds, for every slot, the entry built for
      it. */
  lemma ChunkDecode(es: seq<nat>, s: nat)
    requires |es| == 256 && s < 256
    ensures Pick(CompressedOf(es), s) == Some(es[s])
  {
    var g, j := s / 64, s % 64;
    var c, b := j / 8, j % 8;
    DivModUnique(s, 8, 8 * g + c, b);
    DivModUnique(8 * g + c, 8, g, c);
    var es64 := es[64 * g..64 * g + 64];
    GroupDecode(es64, c, b);
    assert es64[8 * c + b] == es[s];
  }

  // ---------------------------------------------------------------------
  // Sparse chunks
  // ---------------------------------------------------------------------

  /** `(byte) (32 - Integer.numberOfLeadingZeros(size - 1))`: the prefix
      length of a slot number of an array of `size` slots. */
  function MaskOf(size: nat): JavaByte
    requires size > 0
  {
    ToByte(BitLength(size - 1))
  }

  /** The entry `processSparseBranch` would make for each slot: the slot
      number as a prefix of the array's mask, and the slot's entry. */
  function Candidates(es: seq<nat>, size: nat): (r: seq<SparseEntry>)
    requires size > 0
    ensures |r| == |es|
  {
    seq(|es|, i requires 0 <= i < |es| => SparseEntry(ToByte(i), MaskOf(size), es[i]))
  }

  /** The default entry of a sparse chunk: prefix and mask -1. */
  function DefaultEntry(e: nat): SparseEntry {
    SparseEntry(-1, -1, e)
  }

  /** `Byte.compare(b.mask, a.mask)` sorts by mask, longest first: the
      ascending order of `127 - mask`. */
  function MaskKey(e: SparseEntry): nat {
    127 - e.mask
  }

  /** The sparse chunk of an array with slots `ts` and slot entries `es`:
      the default (slot 0's entry) and one entry per slot differing from
      slot 0, sorted by descending mask. */
  function SparseOf<T(==)>(ts: seq<T>, es: seq<nat>): seq<SparseEntry>
    requires |ts| == |es| > 0
  {
    Sorting.SortByKey([DefaultEntry(es[0])] + Heads(Candidates(es, |ts|), Flags(ts), |ts|), MaskKey)
  }

  lemma {:induction false} HeadsFrom<T>(ts: seq<T>, flags: seq<bool>, k: nat, x: T)
    requires k <= |ts| == |flags| && x in Heads(ts, flags, k)
    ensures x in ts
  {
    if x !in Heads(ts, flags, k - 1) {
      assert x == ts[k - 1];
    } else {
      HeadsFrom(ts, flags, k - 1, x);
    }
  }

  /** A stable sort leaves a list of equal keys as it is. */
  lemma {:induction false} SortSameKey<T>(s: seq<T>, key: T -> nat, w: nat)
    requires forall x :: x in s ==> key(x) == w
    ensures Sorting.SortByKey(s, key) == s
    decreases |s|
  {
    if |s| > 0 {
      SortSameKey(s[1..], key, w);
      assert s[0] in s;
      assert [s[0]] + s[1..] == s;
    }
  }

  /** An element whose key is above every key of a list goes last. */
  lemma {:induction false} InsertLast<T>(x: T, s: seq<T>, key: T -> nat)
    requires forall y :: y in s ==> key(y) < key(x)
    ensures Sorting.Insert(x, s, key) == s + [x]
    decreases |s|
  {
    if |s| > 0 {
      assert s[0] in s;
      InsertLast(x, s[1..], key);
      assert [s[0]] + (s[1..] + [x]) == s + [x];
    }
  }

  /** On 256-slot arrays every listed entry has mask 8 and the default
      mask -1, so the sort keeps the slot order and puts the default last. */
  lemma SparseLayout<T>(ts: seq<T>, es: seq<nat>)
    requires |ts| == |es| == 256
    ensures SparseOf(ts, es) == Heads(Candidates(es, 256), Flags(ts), 256) + [DefaultEntry(es[0])]
  {
    var cands := Candidates(es, 256);
    var listed := Heads(cands, Flags(ts), 256);
    BitLengthByte();
    forall x | x in listed ensures MaskKey(x) == 119 {
      HeadsFrom(cands, Flags(ts), 256, x);
    }
    SortSameKey(listed, MaskKey, 119);
    var all := [DefaultEntry(es[0])] + listed;
    assert all[1..] == listed;
    InsertLast(DefaultEntry(es[0]), listed, MaskKey);
  }

  /** `lookupInSparse`'s test: `(ip >> (32 - bitOffset - mask)) &
      ((1 << mask) - 1) == (prefix & 0xFF)`. */
  predicate Matches(e: SparseEntry, ip: int, off: int) {
    Field(ip, 32 - off - e.mask, e.mask) == e.prefix % 256
  }

  /** The byte of `ip` after the first `off` bits:
      `(ip >> (32 - off - 8)) & 0xFF`. */
  function NextByte(ip: int, off: int): (r: nat)
    ensures r < 256
  {
    Pow2Byte();
    Field(ip, 24 - off, 8)
  }

  /** `(byte) idx & 0xFF` gives a slot number back. */
  lemma ByteBack(j: nat)
    requires j < 256
    ensures ToByte(j) % 256 == j
  {
    if j < 128 {
      DivModUnique(j + 128, 256, 0, j + 128);
      DivModUnique(j, 256, 0, j);
    } else {
      DivModUnique(j + 128, 256, 1, j - 128);
      DivModUnique(j - 256, 256, -1, j);
    }
  }

  /** The candidate of slot `j` of a 256-slot array has mask 8 and matches
      exactly when the next byte is `j`. */
  lemma CandidateMatches(es: seq<nat>, j: nat, ip: int, off: int)
    requires |es| == 256 && j < 256
    ensures Candidates(es, 256)[j] == SparseEntry(ToByte(j), 8, es[j])
    ensures Matches(Candidates(es, 256)[j], ip, off) <==> j == NextByte(ip, off)
  {
    BitLengthByte();
    ByteBack(j);
  }

  /** Among the listed entries of a 256-slot sparse chunk, only the entry of
      the slot the next byte names can match. */
  lemma SparseOnlyMatch<T>(ts: seq<T>, es: seq<nat>, ip: int, off: int, i: nat)
    requires |ts| == |es| == 256
    requires i < |Heads(Candidates(es, 256), Flags(ts), 256)|
    requires Matches(Heads(Candidates(es, 256), Flags(ts), 256)[i], ip, off)
    ensures var s := NextByte(ip, off);
            Flags(ts)[s] && Heads(Candidates(es, 256), Flags(ts), 256)[i] == Candidates(es, 256)[s]
  {
    var cands, flags := Candidates(es, 256), Flags(ts);
    HeadsIndex(cands, flags, 256, i);
    var j :| 0 <= j < 256 && flags[j] && CountTrue(flags[..j]) == i;
    HeadsAt(cands, flags, 256, j);
    CandidateMatches(es, j, ip, off);
  }

  /** ... and it is listed, and matches, when that slot differs from slot 0. */
  lemma SparseListed<T>(ts: seq<T>, es: seq<nat>, ip: int, off: int)
    requires |ts| == |es| == 256
    requires Flags(ts)[NextByte(ip, off)]
    ensures var s, flags := NextByte(ip, off), Flags(ts);
            var listed := Heads(Candidates(es, 256), flags, 256);
            CountTrue(flags[..s]) < |listed| && listed[CountTrue(flags[..s])] == Candidates(es, 256)[s] &&
            Matches(Candidates(es, 256)[s], ip, off)
  {
    var s := NextByte(ip, off);
    HeadsAt(Candidates(es, 256), Flags(ts), 256, s);
    CandidateMatches(es, s, ip, off);
  }

  // ---------------------------------------------------------------------
  // What the lookup reads
  // ---------------------------------------------------------------------

  /** The lookup below slot `n` once `off` bits of `ip` are used, as the
      code does it: a slot without a nested array answers its value; a
      compressed array (and a sparse one whose slot differs from slot 0)
      follows the slot the next byte names, 8 bits further on; in a sparse
      array whose named slot equals slot 0, the default is followed
      without advancing `off`. */
  function Reads<V(==)>(n: FNode<V>, ip: int, off: int, k: int): Option<V>
    requires NodeByteLevels(n)
    decreases n
  {
    if n.next.None? then n.value
    else
      var ts := n.next.value.table;
      var s := NextByte(ip, off);
      assert ByteLevel(n.next.value) && NodeByteLevels(ts[s]) && NodeByteLevels(ts[0]);
      if SparseBranch(n.next.value, k) && ts[s] == ts[0] then Reads(ts[0], ip, off, k)
      else Reads(ts[s], ip, off + 8, k)
  }

  /** Below a compressed array, reading goes to the slot the next byte
      names, 8 bits further on. */
  lemma ReadsCompressed<V>(n: FNode<V>, ip: int, off: int, k: int)
    requires NodeByteLevels(n) && n.next.Some? && !SparseBranch(n.next.value, k)
    ensures var ts := n.next.value.table;
            |ts| == 256 && NodeByteLevels(ts[NextByte(ip, off)]) &&
            Reads(n, ip, off, k) == Reads(ts[NextByte(ip, off)], ip, off + 8, k)
  {
  }

  /** Below a sparse array, reading goes to the slot the next byte names,
      8 bits further on, when that slot differs from slot 0, and to slot 0
      at the same bit when not. */
  lemma ReadsSparse<V>(n: FNode<V>, ip: int, off: int, k: int)
    requires NodeByteLevels(n) && n.next.Some? && SparseBranch(n.next.value, k)
    ensures var ts, s := n.next.value.table, NextByte(ip, off);
            |ts| == 256 && NodeByteLevels(ts[s]) && NodeByteLevels(ts[0]) &&
            Reads(n, ip, off, k) == if ts[s] == ts[0] then Reads(ts[0], ip, off, k) else Reads(ts[s], ip, off + 8, k)
  {
  }

  /** `lookupInChunk`: the root slot `(ip >> 16) & 0xFFFF`, read from bit 16
      on; a slot past the root array holds entry 0, `null`. */
  function RootReads<V(==)>(root: Fpa<V>, ip: int, k: int): Option<V>
    requires RootShape(root)
  {
    var s := Field(ip, 16, 16);
    if s < |root.table| then Reads(root.table[s], ip, 16, k) else None
  }

  /** Every sparse array below slot `n` has a slot 0 without a nested array:
      then rereading the same bits at the default does no harm. */
  predicate DefaultsLeaves<V(==)>(n: FNode<V>, k: int)
    decreases n
  {
    n.next.Some? ==>
      var f := n.next.value;
      (SparseBranch(f, k) && |f.table| > 0 ==> f.table[0].next.None?) &&
      forall i :: 0 <= i < |f.table| ==> DefaultsLeaves(f.table[i], k)
  }

  /** On a 4-byte address, with `i` bytes used, reading below a slot nested
      at most `4 - i` times is resolving the remaining bytes, as long as no
      sparse default has a nested array. */
  lemma {:induction false} ReadsResolve<V>(n: FNode<V>, key: seq<Byte>, i: nat, k: int)
    requires |key| == 4 && 2 <= i <= 4
    requires NodeByteLevels(n) && NestedWithin(n, 4 - i) && DefaultsLeaves(n, k)
    ensures Resolve(n, key[i..]) == Ok(Reads(n, PackedIp(key), 8 * i, k))
    decreases n
  {
    if n.next.Some? {
      var ts := n.next.value.table;
      var ip := PackedIp(key);
      var s := NextByte(ip, 8 * i);
      PackedFields(key);
      assert s == key[i];
      assert key[i..][1..] == key[i + 1..];
      if SparseBranch(n.next.value, k) && ts[s] == ts[0] {
        assert ts[0].next.None?;
      } else {
        ReadsResolve(ts[s], key, i + 1, k);
      }
    }
  }

  /** The whole lookup on a 4-byte address resolves the address, under the
      same condition. */
  lemma RootReadsResolve<V>(root: Fpa<V>, key: seq<Byte>, k: int)
    requires RootShape(root) && |key| == 4
    requires forall s :: 0 <= s < |root.table| ==> NestedWithin(root.table[s], 2) && DefaultsLeaves(root.table[s], k)
    ensures RootResolve(root, key) == Ok(RootReads(root, PackedIp(key), k))
  {
    PackedFields(key);
    var s := key[0] as nat * 256 + key[1];
    if s < |root.table| {
      ReadsResolve(root.table[s], key, 2, k);
    }
  }

  /** A 256-slot array whose slots all hold one nested array, under a root
      of one slot: its sparse default is a nested array. */
  function RereadExample(): Fpa<int> {
    var low := Fpa(seq(256, i => if i < 64 then FNode(Some(1), None) else FNode(Some(2), None)), 8);
    var mid := Fpa(seq(256, i => FNode(None, Some(low))), 8);
    Fpa([FNode(None, Some(mid))], 16)
  }

  lemma ExampleShape()
    ensures RootShape(RereadExample())
  {
    var mid := RereadExample().table[0].next.value;
    var low := mid.table[0].next.value;
    assert ByteLevel(low);
    assert ByteLevel(mid);
  }

  /** Every slot of the middle array equals its slot 0: it is sparse. */
  lemma ExampleMidSparse(k: int)
    requires k > 0
    ensures SparseBranch(RereadExample().table[0].next.value, k)
  {
    var mid := RereadExample().table[0].next.value;
    assert Flags(mid.table) == seq(256, i => false);
    CountTrueNone(256);
  }

  /** With next byte 0 at bit 16, the middle array's default is followed
      at bit 16 again, and byte 0 picks slot 0 of the lowest array. */
  lemma ExampleReads(ip: int, k: int)
    requires k > 0 && NextByte(ip, 16) == 0
    ensures RootShape(RereadExample())
    ensures Reads(RereadExample().table[0], ip, 16, k) == Some(1)
  {
    ExampleShape();
    ExampleMidSparse(k);
    var mid := RereadExample().table[0].next.value;
    var low := mid.table[0].next.value;
    assert low.table[0] == FNode(Some(1), None);
    assert Reads(mid.table[0], ip, 16, k) == Some(1);
  }

  /** Resolving `0.0.0.64` walks slots 0, 0 and 64. */
  lemma ExampleResolves()
    ensures RootResolve(RereadExample(), [0, 0, 0, 64]) == Ok(Some(2))
  {
    var mid := RereadExample().table[0].next.value;
    var low := mid.table[0].next.value;
    var key: seq<Byte> := [0, 0, 0, 64];
    var root := RereadExample();
    assert key[2..] == [0, 64] && key[2..][1..] == [64];
    assert low.table[64] == FNode(Some(2), None);
    assert Resolve(mid.table[0], [64]) == Ok(Some(2));
    assert Resolve(root.table[0], [0, 64]) == Ok(Some(2));
    assert RootResolve(root, key) == Resolve(root.table[0], [0, 64]);
  }

  /** As written, the lookup of `0.0.0.64` in that tree reads byte `0` at
      the middle level twice and lands on slot 0 of the lowest array,
      which holds 1, where the address resolves to slot 64, which holds 2. */
  lemma SparseDefaultRereads(k: int)
    requires k > 0
    ensures RootShape(RereadExample())
    ensures RootReads(RereadExample(), PackedIp([0, 0, 0, 64]), k) == Some(1)
    ensures RootResolve(RereadExample(), [0, 0, 0, 64]) == Ok(Some(2))
  {
    var key: seq<Byte> := [0, 0, 0, 64];
    PackedFields(key);
    ExampleReads(PackedIp(key), k);
    ExampleResolves();
  }

  lemma {:induction false} CountTrueNone(n: nat)
    ensures CountTrue(seq(n, i => false)) == 0
  {
    if n > 0 {
      assert seq(n, i => false)[..n - 1] == seq(n - 1, i => false);
      CountTrueNone(n - 1);
    }
  }

  /** The evidently intended lookup: the default of a sparse array is
      followed 8 bits further on, like every other entry. */
  function ReadsAdvancing<V(==)>(n: FNode<V>, ip: int, off: int, k: int): Option<V>
    requires NodeByteLevels(n)
    decreases n
  {
    if n.next.None? then n.value
    else
      var ts := n.next.value.table;
      var s := NextByte(ip, off);
      assert ByteLevel(n.next.value) && NodeByteLevels(ts[s]) && NodeByteLevels(ts[0]);
      if SparseBranch(n.next.value, k) && ts[s] == ts[0] then ReadsAdvancing(ts[0], ip, off + 8, k)
      else ReadsAdvancing(ts[s], ip, off + 8, k)
  }

  /** With the default advanced, reading always resolves the address: no
      condition on the defaults is needed. */
  lemma {:induction false} AdvancingResolves<V>(n: FNode<V>, key: seq<Byte>, i: nat, k: int)
    requires |key| == 4 && 2 <= i <= 4
    requires NodeByteLevels(n) && NestedWithin(n, 4 - i)
    ensures Resolve(n, key[i..]) == Ok(ReadsAdvancing(n, PackedIp(key), 8 * i, k))
    decreases n
  {
    if n.next.Some? {
      var ts := n.next.value.table;
      var s := NextByte(PackedIp(key), 8 * i);
      PackedFields(key);
      assert s == key[i];
      assert key[i..][1..] == key[i + 1..];
      AdvancingResolves(ts[s], key, i + 1, k);
    }
  }
}

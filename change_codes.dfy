/** The dense chunk coding the newer trees share: a row of slots is cut into
    runs of equal neighbours, only the first slot of each run gets a lookup
    entry, and one 16-bit code word per cluster of 8 slots says where the
    runs start (high byte, MSB first) and how many entries the row's earlier
    clusters hold (low byte). A slot's entry is then number
    `before + popcount(bits >>> (7 - j)) - 1`: the rank of its run. */
module ChangeCodes {
  import opened Bits

  /** Which slots start a run: slot 0 when `first`, every later slot that
      differs from its left neighbour. */
  function Changes<T(==)>(ts: seq<T>, first: bool): (r: seq<bool>)
    ensures |r| == |ts|
  {
    seq(|ts|, i requires 0 <= i < |ts| => if i == 0 then first else ts[i] != ts[i - 1])
  }

  /** The run flags of a cluster's first `|s|` slots, placed MSB first in a
      byte: the cluster byte while it is being built. */
  function Msb(s: seq<bool>): nat
    requires |s| <= 8
  {
    Doubled(BitsToNat(s), 8 - |s|)
  }

  /** The cluster byte is the flags' number shifted to the top of the byte. */
  lemma MsbIsShl(s: seq<bool>)
    requires |s| <= 8
    ensures Msb(s) == BitsToNat(s) * Pow2(8 - |s|)
  {
    DoubledIsShl(BitsToNat(s), 8 - |s|);
  }

  /** `bits |= 1 << (7 - j)` records a run start at slot `j` of the cluster;
      leaving the byte alone records that slot `j` continues a run. */
  lemma MsbStep(s: seq<bool>, b: bool)
    requires |s| < 8
    ensures b ==> Or(Msb(s), Pow2(7 - |s|)) == Msb(s + [b])
    ensures !b ==> Msb(s) == Msb(s + [b])
  {
    MsbSnoc(s, b);
    MsbIsShl(s);
    if b {
      OrShifted(BitsToNat(s), Pow2(7 - |s|), 8 - |s|);
    }
  }

  /** Appending a flag adds its bit at place `7 - |s|`. */
  lemma MsbSnoc(s: seq<bool>, b: bool)
    requires |s| < 8
    ensures Msb(s + [b]) == Msb(s) + (if b then Pow2(7 - |s|) else 0)
  {
    var x, c, k := BitsToNat(s), if b then 1 else 0, 7 - |s|;
    BitsSnoc(s, b);
    DoubledAdd(2 * x, c, k);
    DoubledTwice(x, k);
    DoubledOne(k);
    DoubledZero(k);
  }

  /** A cluster's run-start byte. */
  function ClusterBits(flags: seq<bool>, c: nat): nat
    requires 8 * c + 8 <= |flags|
  {
    BitsToNat(flags[8 * c..8 * c + 8])
  }

  /** A cluster's code word: the run-start byte above the number of earlier
      run starts in the row. */
  function CodeWord(flags: seq<bool>, c: nat): nat
    requires 8 * c + 8 <= |flags|
  {
    ClusterBits(flags, c) * 256 + CountTrue(flags[..8 * c])
  }

  lemma ClusterBitsBound(flags: seq<bool>, c: nat)
    requires 8 * c + 8 <= |flags|
    ensures ClusterBits(flags, c) < 256
  {
    BitsToNatBound(flags[8 * c..8 * c + 8]);
    Pow2Byte();
  }

  /** Closing a cluster: `codeWord <<= 8; codeWord |= before` on the
      finished byte gives the cluster's code word. */
  lemma CloseCluster(flags: seq<bool>, c: nat)
    requires 8 * c + 8 <= |flags| && CountTrue(flags[..8 * c]) < 256
    ensures Or(Shl(Msb(flags[8 * c..8 * c + 8]), 8), CountTrue(flags[..8 * c])) == CodeWord(flags, c)
  {
    Pow2Byte();
    OrShifted(ClusterBits(flags, c), CountTrue(flags[..8 * c]), 8);
  }

  /** Decoding slot `8c + j`: `before + popcount((cw >>> 8 & 0xFF) >>> (7 - j))`
      is the number of run starts up to and including slot `8c + j`. */
  lemma DecodeRank(flags: seq<bool>, c: nat, j: nat)
    requires j < 8 && 8 * c + 8 <= |flags|
    requires CountTrue(flags[..8 * c]) < 256
    ensures var cw := CodeWord(flags, c);
            cw % 256 + PopCount(Shr((cw / 256) % 256, 7 - j)) == CountTrue(flags[..8 * c + j + 1])
  {
    var b := 8 * c + j;
    var cluster := flags[8 * c..8 * c + 8];
    ClusterBitsBound(flags, c);
    CodeWordFields(ClusterBits(flags, c), CountTrue(flags[..8 * c]));
    ClusterRank(cluster, j);
    assert cluster[..j + 1] == flags[8 * c..b + 1];
    assert flags[..b + 1] == flags[..8 * c] + flags[8 * c..b + 1];
    CountTrueAppend(flags[..8 * c], flags[8 * c..b + 1]);
  }

  /** The entry number a code word gives slot `b` of its row: `before +
      ones - 1`, where `ones` counts the cluster's run starts up to slot `b`.
      Java's shift `7 - (b & 7)` on the signed byte is `7 - b % 8`. */
  function RankIn(codeWord: nat, b: Byte): int {
    codeWord % 256 + PopCount(Shr((codeWord / 256) % 256, 7 - b % 8)) - 1
  }

  /** `cw & 0xFF` and `(cw >>> 8) & 0xFF` take a code word apart. */
  lemma CodeWordFields(bits: nat, before: nat)
    requires bits < 256 && before < 256
    ensures (bits * 256 + before) % 256 == before
    ensures ((bits * 256 + before) / 256) % 256 == bits
  {
    DivModUnique(bits * 256 + before, 256, bits, before);
    DivModUnique(bits, 256, 0, bits);
  }

  /** `popcount(bits >>> (7 - j))` counts the run starts among the cluster's
      slots `0..j`. */
  lemma ClusterRank(cluster: seq<bool>, j: nat)
    requires |cluster| == 8 && j < 8
    ensures PopCount(Shr(BitsToNat(cluster), 7 - j)) == CountTrue(cluster[..j + 1])
  {
    ShrIsDiv(BitsToNat(cluster), 7 - j);
    HighBits(cluster, j + 1);
    PopCountOfBits(cluster[..j + 1]);
  }

  /** `heads[r]` is what run `r` holds, for every run among the first `k`
      slots: the entry made for a run's first slot serves each slot of the
      run. */
  ghost predicate Owned<T>(ts: seq<T>, flags: seq<bool>, heads: seq<T>, k: nat)
    requires k <= |ts| == |flags|
  {
    |heads| == CountTrue(flags[..k]) &&
    forall s :: 0 <= s < k ==> RunOwned(ts, flags, heads, s)
  }

  /** Slot `s` lies in a run that has a head, and the head is what `s` holds. */
  ghost predicate RunOwned<T>(ts: seq<T>, flags: seq<bool>, heads: seq<T>, s: nat)
    requires s < |ts| == |flags|
  {
    var r := CountTrue(flags[..s + 1]);
    1 <= r <= |heads| && heads[r - 1] == ts[s]
  }

  /** Visiting slot `k`: a run start appends its slot as the next run's
      head, any other slot belongs to the run before it. */
  lemma OwnedStep<T>(ts: seq<T>, heads: seq<T>, k: nat)
    requires k < |ts| && Owned(ts, Changes(ts, true), heads, k)
    ensures var flags := Changes(ts, true);
            Owned(ts, flags, if flags[k] then heads + [ts[k]] else heads, k + 1)
  {
    var flags := Changes(ts, true);
    var heads' := if flags[k] then heads + [ts[k]] else heads;
    assert flags[..k + 1][..k] == flags[..k];
    assert CountTrue(flags[..k + 1]) == CountTrue(flags[..k]) + (if flags[k] then 1 else 0);
    forall s | 0 <= s < k + 1 ensures RunOwned(ts, flags, heads', s) {
      if s < k {
        assert RunOwned(ts, flags, heads, s);
      } else if !flags[k] {
        assert k > 0 && ts[k] == ts[k - 1];
        assert RunOwned(ts, flags, heads, k - 1);
      }
    }
  }

  lemma OwnedStart<T>(ts: seq<T>, first: bool)
    requires |ts| > 0
    ensures Owned(ts, Changes(ts, first), [], 0)
  {
    assert Changes(ts, first)[..0] == [];
  }

  /** The elements among the first `k` whose flag is set, in order: the
      entries a chunk keeps for its flagged slots. */
  function Heads<T>(ts: seq<T>, flags: seq<bool>, k: nat): (r: seq<T>)
    requires k <= |ts| == |flags|
  {
    if k == 0 then [] else Heads(ts, flags, k - 1) + (if flags[k - 1] then [ts[k - 1]] else [])
  }

  /** One head per set flag. */
  lemma {:induction false} HeadsCount<T>(ts: seq<T>, flags: seq<bool>, k: nat)
    requires k <= |ts| == |flags|
    ensures |Heads(ts, flags, k)| == CountTrue(flags[..k])
  {
    if k > 0 {
      HeadsCount(ts, flags, k - 1);
      assert flags[..k][..k - 1] == flags[..k - 1];
    }
  }

  /** A flagged element sits at its rank: the number of set flags before it. */
  lemma {:induction false} HeadsAt<T>(ts: seq<T>, flags: seq<bool>, k: nat, s: nat)
    requires k <= |ts| == |flags| && s < k && flags[s]
    ensures CountTrue(flags[..s]) < |Heads(ts, flags, k)|
    ensures Heads(ts, flags, k)[CountTrue(flags[..s])] == ts[s]
  {
    HeadsCount(ts, flags, k);
    HeadsCount(ts, flags, s);
    if s < k - 1 {
      HeadsAt(ts, flags, k - 1, s);
      HeadsCount(ts, flags, k - 1);
      assert flags[..k][..k - 1] == flags[..k - 1];
      assert flags[..k - 1] == flags[..s + 1] + flags[s + 1..k - 1];
      assert flags[..s + 1] == flags[..s] + [flags[s]];
      CountTrueAppend(flags[..s + 1], flags[s + 1..k - 1]);
      CountTrueAppend(flags[..s], [flags[s]]);
    }
  }

  /** Every head is some flagged element at its rank. */
  lemma {:induction false} HeadsIndex<T>(ts: seq<T>, flags: seq<bool>, k: nat, p: nat)
    requires k <= |ts| == |flags| && p < |Heads(ts, flags, k)|
    ensures exists s :: 0 <= s < k && flags[s] && CountTrue(flags[..s]) == p
  {
    HeadsCount(ts, flags, k - 1);
    if p < |Heads(ts, flags, k - 1)| {
      HeadsIndex(ts, flags, k - 1, p);
    } else {
      assert flags[k - 1] && CountTrue(flags[..k - 1]) == p;
    }
  }

  /** The heads of `k` elements depend on the first `k` elements and flags only. */
  lemma {:induction false} HeadsPrefix<T>(ts: seq<T>, flags: seq<bool>, ts': seq<T>, flags': seq<bool>, k: nat)
    requires k <= |ts| == |flags| && k <= |ts'| == |flags'|
    requires ts[..k] == ts'[..k] && flags[..k] == flags'[..k]
    ensures Heads(ts, flags, k) == Heads(ts', flags', k)
  {
    if k > 0 {
      assert ts[k - 1] == ts[..k][k - 1] && ts'[k - 1] == ts'[..k][k - 1];
      assert flags[k - 1] == flags[..k][k - 1] && flags'[k - 1] == flags'[..k][k - 1];
      assert ts[..k - 1] == ts[..k][..k - 1] && ts'[..k - 1] == ts'[..k][..k - 1];
      assert flags[..k - 1] == flags[..k][..k - 1] && flags'[..k - 1] == flags'[..k][..k - 1];
      HeadsPrefix(ts, flags, ts', flags', k - 1);
    }
  }
}

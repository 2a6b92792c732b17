/** The trie behind a sparse chunk. To shrink a 256-slot level, the builders
    put every slot's lookup entry into a fresh `BitTrie` under the slot's
    8-bit number, compress the trie, and keep its stored prefixes as
    (prefix, mask) pairs. This module proves what that relies on: the 256
    puts leave exactly one value on every 8-bit path and none above, so the
    trie is "clean" (a node holds a value exactly when it has no children);
    compression keeps it clean and never merges unsafely; and in a clean trie
    the one stored prefix of a byte is the byte's longest match. It also
    proves that the masks the builders compute test "is a prefix of". */
module SparseCodes {
  import opened Wrappers
  import opened Bits
  import opened Tries
  import opened ChangeCodes

  // ---------------------------------------------------------------------
  // The 256 puts
  // ---------------------------------------------------------------------

  /** The trie after `trie.put({(byte) i}, 8, es[i])` for `i < n`. */
  function Filled<V(==)>(es: seq<V>, n: nat): Trie<V>
    requires n <= |es|
  {
    if n == 0 then Empty() else PutPath(Filled(es, n - 1), NatToBits(n - 1, 8), es[n - 1])
  }

  /** No node strictly above the end of `q` holds a value, so the early
      return of `put` cannot fire. */
  lemma {:induction false} NoEarlyStop<V>(t: Trie<V>, q: seq<bool>, v: V)
    requires forall m :: 0 <= m < |q| ==> ValueAt(t, q[..m]).None?
    ensures !StopsEarly(t, q, v)
    decreases |q|
  {
    if |q| > 0 && t.Node? {
      assert q[..0] == [];
      var c := Child(t, q[0]);
      forall m | 0 <= m < |q[1..]| ensures ValueAt(c, q[1..][..m]).None? {
        assert q[..m + 1] == [q[0]] + q[1..][..m];
        SubtreeStep(t, q[0], q[1..][..m]);
        assert ValueAt(t, q[..m + 1]).None?;
      }
      NoEarlyStop(c, q[1..], v);
    }
  }

  /** What the first `n` puts leave: nothing deeper than 8 bits, no value
      above 8 bits, slot `i`'s entry at the path of `i`, and a node on every
      prefix of an inserted path. */
  lemma {:induction false} FilledFacts<V>(es: seq<V>, n: nat)
    requires n <= |es| && n <= 256
    ensures Bounded(Filled(es, n), 8)
    ensures forall p :: |p| < 8 ==> ValueAt(Filled(es, n), p).None?
    ensures forall i :: 0 <= i < n ==> ValueAt(Filled(es, n), NatToBits(i, 8)) == Some(es[i])
    ensures forall i, p :: 0 <= i < n && p <= NatToBits(i, 8) ==> Subtree(Filled(es, n), p).Node?
  {
    if n == 0 {
      forall p | |p| < 8 ensures ValueAt(Empty<V>(), p).None? {
        if |p| > 0 {
          SubtreeStep(Empty<V>(), p[0], p[1..]);
          SubtreeNil<V>(p[1..]);
        }
      }
    } else {
      var t := Filled(es, n - 1);
      var q := NatToBits(n - 1, 8);
      FilledFacts(es, n - 1);
      NoEarlyStop(t, q, es[n - 1]);
      PutWrites(t, q, es[n - 1]);
      PutBounded(t, q, es[n - 1], 8);
      var t' := Filled(es, n);
      assert t' == PutPath(t, q, es[n - 1]);
      Pow2Byte();
      forall p | |p| < 8 ensures ValueAt(t', p).None? {
        assert p != q;
      }
      forall i | 0 <= i < n ensures ValueAt(t', NatToBits(i, 8)) == Some(es[i]) {
        if i < n - 1 {
          NatToBitsToNat(i, 8);
          NatToBitsToNat(n - 1, 8);
          assert NatToBits(i, 8) != q;
        }
      }
      forall i, p | 0 <= i < n && p <= NatToBits(i, 8) ensures Subtree(t', p).Node? {
        if i < n - 1 {
          assert Subtree(t, p).Node?;
        }
      }
    }
  }

  // ---------------------------------------------------------------------
  // Clean tries
  // ---------------------------------------------------------------------

  /** Every node holds a value exactly when it has no children. */
  predicate Clean<V>(t: Trie<V>) {
    t.Nil? || ((t.value.Some? <==> !HasChild(t)) && Clean(t.left) && Clean(t.right))
  }

  /** The same, stated for every path. */
  ghost predicate CleanPaths<V>(t: Trie<V>) {
    forall p :: Subtree(t, p).Node? ==> (Subtree(t, p).value.Some? <==> !HasChild(Subtree(t, p)))
  }

  lemma {:induction false} CleanFromPaths<V>(t: Trie<V>)
    requires CleanPaths(t)
    ensures Clean(t)
  {
    if t.Node? {
      assert Subtree(t, []) == t;
      forall b: bool ensures CleanPaths(Child(t, b)) {
        forall p | Subtree(Child(t, b), p).Node?
          ensures Subtree(Child(t, b), p).value.Some? <==> !HasChild(Subtree(Child(t, b), p))
        {
          SubtreeStep(t, b, p);
        }
      }
      CleanFromPaths(Child(t, false));
      CleanFromPaths(Child(t, true));
    }
  }

  /** A node deeper than a bound is missing. */
  lemma BoundedDeep<V>(t: Trie<V>, p: seq<bool>, n: nat)
    requires Bounded(t, n) && |p| > n
    ensures Subtree(t, p).Nil?
  {
    var s := Subtree(t, p[..n]);
    BoundedSubtree(t, p[..n], n);
    assert p == p[..n] + p[n..];
    SubtreeAppend(t, p[..n], p[n..]);
    var rest := p[n..];
    assert rest == [rest[0]] + rest[1..];
    SubtreeStep(s, rest[0], rest[1..]);
    SubtreeNil<V>(rest[1..]);
  }

  /** Every path of at most 8 bits is a prefix of some 8-bit slot number. */
  lemma PrefixOfSlot(p: seq<bool>) returns (i: nat)
    requires |p| <= 8
    ensures i < 256 && p <= NatToBits(i, 8)
  {
    var zeros := seq(8 - |p|, _ => false);
    var full := p + zeros;
    i := BitsToNat(full);
    BitsToNatBound(full);
    Pow2Byte();
    BitsToNatToBits(full);
    assert full[..|p|] == p;
  }

  /** After all 256 puts the trie is clean. */
  lemma FilledClean<V>(es: seq<V>)
    requires |es| == 256
    ensures Bounded(Filled(es, 256), 8) && Clean(Filled(es, 256))
    ensures forall i :: 0 <= i < 256 ==> ValueAt(Filled(es, 256), NatToBits(i, 8)) == Some(es[i])
  {
    var t := Filled(es, 256);
    FilledFacts(es, 256);
    forall p | Subtree(t, p).Node? ensures Subtree(t, p).value.Some? <==> !HasChild(Subtree(t, p)) {
      CleanAt(t, es, p);
    }
    CleanFromPaths(t);
  }

  lemma CleanAt<V>(t: Trie<V>, es: seq<V>, p: seq<bool>)
    requires |es| == 256 && t == Filled(es, 256)
    requires Bounded(t, 8)
    requires forall p :: |p| < 8 ==> ValueAt(t, p).None?
    requires forall i :: 0 <= i < 256 ==> ValueAt(t, NatToBits(i, 8)) == Some(es[i])
    requires forall i, p :: 0 <= i < 256 && p <= NatToBits(i, 8) ==> Subtree(t, p).Node?
    requires Subtree(t, p).Node?
    ensures Subtree(t, p).value.Some? <==> !HasChild(Subtree(t, p))
  {
    var s := Subtree(t, p);
    if |p| > 8 {
      BoundedDeep(t, p, 8);
    } else if |p| == 8 {
      BoundedSubtree(t, p, 8);
      var i := BitsToNat(p);
      BitsToNatBound(p);
      Pow2Byte();
      BitsToNatToBits(p);
      assert ValueAt(t, NatToBits(i, 8)) == Some(es[i]);
    } else {
      assert ValueAt(t, p).None?;
      var i := PrefixOfSlot(p + [false]);
      assert Subtree(t, p + [false]).Node?;
      SubtreeAppend(t, p, [false]);
      assert Subtree(s, [false]) == Subtree(Child(s, false), []);
    }
  }

  /** `compress` keeps a clean trie clean, and none of its merges swallows
      a grandchild. */
  lemma {:induction false} CleanCompress<V>(t: Trie<V>, m: CompressMode)
    requires Clean(t)
    ensures Clean(Compress(t, m)) && MergeSafe(t, m)
  {
    if t.Node? {
      CleanCompress(t.left, m);
      CleanCompress(t.right, m);
      CompressShrinks(t.left, m);
      CompressShrinks(t.right, m);
    }
  }

  lemma {:induction false} CleanSubtree<V>(t: Trie<V>, p: seq<bool>)
    requires Clean(t)
    ensures Clean(Subtree(t, p))
    decreases |p|
  {
    if |p| > 0 {
      CleanSubtree(Child(t, p[0]), p[1..]);
    }
  }

  /** In a clean trie a stored prefix of `q` is the longest match of `q`. */
  lemma CleanMatch<V>(t: Trie<V>, p: seq<bool>, q: seq<bool>)
    requires Clean(t) && ValueAt(t, p).Some? && p <= q
    ensures Lpm(t, q) == ValueAt(t, p)
  {
    CleanSubtree(t, p);
    LpmAtValued(t, p);
    assert q == p + q[|p|..];
    LpmPastEnd(t, p, q[|p|..]);
  }

  /** So in a clean trie the stored prefixes of any key are the one its
      longest match comes from, and a key without a match has none. */
  lemma CleanLeavesOnPath<V>(t: Trie<V>, q: seq<bool>)
    requires Clean(t)
    ensures forall e :: e in Leaves(t) && e.0 <= q ==> Lpm(t, q) == Some(e.1)
    ensures Lpm(t, q).Some? ==> exists e :: e in Leaves(t) && e.0 <= q && e.1 == Lpm(t, q).value
  {
    LeavesExact(t);
    forall e | e in Leaves(t) && e.0 <= q ensures Lpm(t, q) == Some(e.1) {
      CleanMatch(t, e.0, q);
    }
    if Lpm(t, q).Some? {
      LpmIsLongestMatch(t, q);
      var n :| 0 <= n <= |q| && ValueAt(t, q[..n]) == Lpm(t, q) &&
               forall m :: n < m <= |q| ==> ValueAt(t, q[..m]).None?;
      assert (q[..n], Lpm(t, q).value) in Leaves(t);
    }
  }

  /** The compressed trie of the 256 puts: clean, at most 8 bits deep, and
      its longest match for every byte is that byte's entry. */
  lemma SparseTrie<V>(es: seq<V>, m: CompressMode)
    requires |es| == 256
    ensures var c := Compress(Filled(es, 256), m);
            Clean(c) && Bounded(c, 8) &&
            forall b :: 0 <= b < 256 ==> Lpm(c, NatToBits(b, 8)) == Some(es[b])
  {
    var t := Filled(es, 256);
    var c := Compress(t, m);
    FilledClean(es);
    CleanCompress(t, m);
    CompressBounded(t, m, 8);
    forall b | 0 <= b < 256 ensures Lpm(c, NatToBits(b, 8)) == Some(es[b]) {
      CompressPreservesLpm(t, m, NatToBits(b, 8));
      LpmAtValued(t, NatToBits(b, 8));
    }
  }

  // ---------------------------------------------------------------------
  // Prefix and mask bytes
  // ---------------------------------------------------------------------

  function Ones(n: nat): (r: seq<bool>)
    ensures |r| == n
  {
    seq(n, _ => true)
  }

  /** The mask byte of an `n`-bit prefix: its top `n` bits set. */
  function MaskOf(n: nat): nat
    requires n <= 8
  {
    Msb(Ones(n))
  }

  lemma {:induction false} OnesValue(n: nat)
    ensures BitsToNat(Ones(n)) == Pow2(n) - 1
  {
    if n > 0 {
      assert Ones(n)[..n - 1] == Ones(n - 1);
      OnesValue(n - 1);
    }
  }

  /** `x & mask` for a mask of `n` bits above `m` zero bits keeps those `n`
      bits of `x` in place. */
  lemma {:induction false} AndHighMask(x: nat, n: nat, m: nat)
    ensures And(x, (Pow2(n) - 1) * Pow2(m)) == ((x / Pow2(m)) % Pow2(n)) * Pow2(m)
    decreases m
  {
    if m == 0 {
      AndLowMask(x, n);
    } else {
      var y' := (Pow2(n) - 1) * Pow2(m - 1);
      MulDouble(Pow2(n) - 1, Pow2(m - 1));
      AndHighMask(x / 2, n, m - 1);
      AndEven(x, y');
      HalfShift(x, m, (x / Pow2(m)) % Pow2(n));
    }
  }

  /** `And` with an even mask `2y` shifts the test one place down. */
  lemma AndEven(x: nat, y: nat)
    ensures And(x, 2 * y) == 2 * And(x / 2, y)
  {
    if x != 0 && y != 0 {
      assert (2 * y) / 2 == y && (2 * y) % 2 == 0;
    }
  }

  lemma HalfShift(x: nat, m: nat, q: nat)
    requires m > 0
    ensures (x / 2) / Pow2(m - 1) == x / Pow2(m)
    ensures 2 * (q * Pow2(m - 1)) == q * Pow2(m)
  {
    ModDouble(x, Pow2(m - 1));
    MulDouble(q, Pow2(m - 1));
  }

  lemma MulZero(a: nat, b: nat)
    requires a * b == 0 && b != 0
    ensures a == 0
  {
  }

  lemma MaskValue(n: nat)
    requires n <= 8
    ensures MaskOf(n) == (Pow2(n) - 1) * Pow2(8 - n)
  {
    OnesValue(n);
    MsbIsShl(Ones(n));
  }

  lemma Cancel(a: nat, b: nat, p: nat)
    requires p > 0
    ensures a * p == b * p <==> a == b
  {
    if a < b {
      MulLe(a + 1, b, p);
    } else if b < a {
      MulLe(b + 1, a, p);
    }
  }

  /** The top `n` bits of byte `b`. */
  lemma TopBits(b: nat, n: nat)
    requires b < 256 && n <= 8
    ensures b / Pow2(8 - n) == BitsToNat(NatToBits(b, 8)[..n])
    ensures b / Pow2(8 - n) < Pow2(n)
  {
    Pow2Byte();
    Pow2Add(n, 8 - n);
    DivBounds(b, Pow2(8 - n), Pow2(n));
    NatToBitsPrefix(b, 8, n);
    NatToBitsToNat(b / Pow2(8 - n), n);
  }

  /** Prefix comparison on bit strings of the same length as numbers. */
  lemma PrefixAsNumber(p: seq<bool>, q: seq<bool>)
    requires |p| <= |q|
    ensures BitsToNat(q[..|p|]) == BitsToNat(p) <==> p <= q
  {
    if BitsToNat(q[..|p|]) == BitsToNat(p) {
      BitsToNatInjective(q[..|p|], p);
    }
    if p <= q {
      assert q[..|p|] == p;
    }
  }

  /** The newer tree's test `prefix == (b & mask)` holds exactly when the
      entry's prefix is a prefix of byte `b`. */
  lemma MaskMatch(p: seq<bool>, b: nat)
    requires |p| <= 8 && b < 256
    ensures And(b, MaskOf(|p|)) == Msb(p) <==> p <= NatToBits(b, 8)
  {
    var n := |p|;
    MaskValue(n);
    MsbIsShl(p);
    AndHighMask(b, n, 8 - n);
    TopBits(b, n);
    DivModUnique(b / Pow2(8 - n), Pow2(n), 0, b / Pow2(8 - n));
    Cancel(b / Pow2(8 - n), BitsToNat(p), Pow2(8 - n));
    PrefixAsNumber(p, NatToBits(b, 8));
  }

  /** The newest tree's test `b >>> (8 - n) == prefixByte >>> (8 - n)`
      holds exactly when the prefix is a prefix of byte `b`. */
  lemma ShiftMatch(p: seq<bool>, b: nat)
    requires |p| <= 8 && b < 256
    ensures Shr(b, 8 - |p|) == Shr(Msb(p), 8 - |p|) <==> p <= NatToBits(b, 8)
  {
    var n := |p|;
    ShrIsDiv(b, 8 - n);
    ShrIsDiv(Msb(p), 8 - n);
    MsbIsShl(p);
    DivModUnique(Msb(p), Pow2(8 - n), BitsToNat(p), 0);
    TopBits(b, n);
    PrefixAsNumber(p, NatToBits(b, 8));
  }

  /** `prefix &= mask` leaves a prefix byte as it is. */
  lemma MaskKeepsPrefix(p: seq<bool>)
    requires |p| <= 8
    ensures And(Msb(p), MaskOf(|p|)) == Msb(p)
  {
    var n := |p|;
    MaskValue(n);
    AndHighMask(Msb(p), n, 8 - n);
    MsbIsShl(p);
    DivModUnique(Msb(p), Pow2(8 - n), BitsToNat(p), 0);
    BitsToNatBound(p);
    DivModUnique(BitsToNat(p), Pow2(n), 0, BitsToNat(p));
  }

  lemma MsbBound(p: seq<bool>)
    requires |p| <= 8
    ensures Msb(p) < 256
  {
    MsbIsShl(p);
    BitsToNatBound(p);
    Pow2Add(|p|, 8 - |p|);
    Pow2Byte();
    MulLe(BitsToNat(p) + 1, Pow2(|p|), Pow2(8 - |p|));
  }

  /** A leaf of a trie at most 8 bits deep has a prefix of at most 8 bits. */
  lemma LeavesShallow<V>(t: Trie<V>)
    requires Bounded(t, 8)
    ensures forall e :: e in Leaves(t) ==> |e.0| <= 8
  {
    LeavesExact(t);
    forall e | e in Leaves(t) ensures |e.0| <= 8 {
      if |e.0| > 8 {
        BoundedDeep(t, e.0, 8);
      }
    }
  }
}

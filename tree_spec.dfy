/** What every FPATree generation is built to answer. The converter leaves a
    root array of 65536 slots whose nested arrays have 256 slots each, and
    every slot already holds the longest match up to its own depth; so a
    lookup only has to walk to the deepest slot the key reaches and return
    that slot's value. `Resolve` states that walk; each tree is proved to
    compute it, and `ConvertedResolve` ties it back to the longest prefix
    match of the trie the arrays came from. */
module TreeSpecs {
  import opened Wrappers
  import opened Bits
  import opened Tries
  import opened Fpas
  import opened FillSpecs

  /** The rest of a lookup once slot `n` is reached: a slot without a nested
      array answers its own value, a slot with one reads the key's next byte
      as a slot number there. */
  function Resolve<V>(n: FNode<V>, bytes: seq<Byte>): Result<Option<V>, Fault>
    decreases n
  {
    if n.next.None? then Ok(n.value)
    else if |bytes| == 0 then Err(BytesExhausted)
    else if bytes[0] >= |n.next.value.table| then Err(SlotMissing)
    else Resolve(n.next.value.table[bytes[0]], bytes[1..])
  }

  /** The first two bytes pick one of the 65536 root slots; a root slot the
      array does not have keeps the entry 0, which means `null`. */
  function RootResolve<V>(root: Fpa<V>, key: seq<Byte>): Result<Option<V>, Fault> {
    if |key| < 2 then Err(BytesExhausted)
    else
      var s: nat := key[0] as nat * 256 + key[1];
      if s < |root.table| then Resolve(root.table[s], key[2..]) else Ok(None)
  }

  /** Every nested array below has the 256 slots of an 8-bit level. */
  predicate ByteLevel<V>(f: Fpa<V>)
    decreases f, 1
  {
    |f.table| == 256 && forall i :: 0 <= i < 256 ==> NodeByteLevels(f.table[i])
  }

  predicate NodeByteLevels<V>(n: FNode<V>)
    decreases n, 0
  {
    n.next.Some? ==> ByteLevel(n.next.value)
  }

  /** The root array the trees accept: at most 65536 slots, 8-bit levels below. */
  predicate RootShape<V>(root: Fpa<V>) {
    |root.table| <= 65536 && forall s :: 0 <= s < |root.table| ==> NodeByteLevels(root.table[s])
  }

  /** At most `k` nested arrays below slot `n`. */
  predicate NestedWithin<V>(n: FNode<V>, k: nat)
    decreases n
  {
    n.next.Some? ==>
      k > 0 && forall i :: 0 <= i < |n.next.value.table| ==> NestedWithin(n.next.value.table[i], k - 1)
  }

  /** On 8-bit levels a byte always names a slot. */
  lemma {:induction false} ResolveNeverMissing<V>(n: FNode<V>, bytes: seq<Byte>)
    requires NodeByteLevels(n)
    ensures Resolve(n, bytes) != Err(SlotMissing)
    decreases n
  {
    if n.next.Some? && |bytes| > 0 {
      ResolveNeverMissing(n.next.value.table[bytes[0]], bytes[1..]);
    }
  }

  /** A key with a byte for every nested level is never too short. */
  lemma {:induction false} ResolveWithin<V>(n: FNode<V>, k: nat, bytes: seq<Byte>)
    requires NestedWithin(n, k) && k <= |bytes|
    ensures Resolve(n, bytes) != Err(BytesExhausted)
    decreases n
  {
    if n.next.Some? && bytes[0] < |n.next.value.table| {
      ResolveWithin(n.next.value.table[bytes[0]], k - 1, bytes[1..]);
    }
  }

  // ---------------------------------------------------------------------
  // Weights: how much a build may add to its lists
  // ---------------------------------------------------------------------

  /** A bound on the list entries building slot `n` can create: one for the
      slot itself, plus what its nested array's slots create. */
  function NodeWeight<V>(n: FNode<V>): nat
    decreases n, 1
  {
    1 + (if n.next.Some? then TableWeight(n.next.value, |n.next.value.table|) else 0)
  }

  /** The weight of the first `k` slots of `f`. */
  function TableWeight<V>(f: Fpa<V>, k: nat): nat
    requires k <= |f.table|
    decreases f, 0, k
  {
    if k == 0 then 0 else TableWeight(f, k - 1) + NodeWeight(f.table[k - 1])
  }

  lemma {:induction false} TableWeightMonotone<V>(f: Fpa<V>, j: nat, k: nat)
    requires j <= k <= |f.table|
    ensures TableWeight(f, j) <= TableWeight(f, k)
    decreases k - j
  {
    if j < k {
      TableWeightMonotone(f, j, k - 1);
    }
  }

  // ---------------------------------------------------------------------
  // What the converter's arrays resolve to
  // ---------------------------------------------------------------------

  /** Resolving the slot a level's bits `path` select, with one byte of key
      left per further 8-bit level, gives the longest match along the whole
      key (or the level's seed). */
  lemma {:induction false} ResolveFillSpec<V>(t: Trie<V>, d: nat, depths: seq<nat>, k: nat, seed: Option<V>,
                                              path: seq<bool>, rest: seq<Byte>)
    requires |path| == d && k <= |depths|
    requires forall j :: k <= j < |depths| ==> depths[j] == 8
    requires |rest| == |depths| - k
    requires Bounded(t, d + 8 * |rest|)
    ensures BitsToNat(path) < |FillSpec(t, d, depths, k, seed).table|
    ensures Resolve(FillSpec(t, d, depths, k, seed).table[BitsToNat(path)], rest) ==
            Ok(OrElse(Lpm(t, path + BytesToBits(rest)), seed))
    decreases |depths| - k
  {
    SlotOfBits(t, d, depths, k, seed, path);
    var n := FillSpec(t, d, depths, k, seed).table[BitsToNat(path)];
    var v := OrElse(Lpm(t, path), seed);
    var sub := Subtree(t, path);
    var r := BytesToBits(rest);
    if HasChild(sub) && k < |depths| {
      var g := FillSpec(sub, 8, depths, k + 1, v);
      assert n == FNode(v, Some(g));
      var b := rest[0];
      var bits := NatToBits(b, 8);
      Pow2Byte();
      NatToBitsToNat(b, 8);
      BoundedSubtree(t, path, d + 8 * |rest|);
      assert Bounded(sub, 8 + 8 * |rest[1..]|);
      ResolveFillSpec(sub, 8, depths, k + 1, v, bits, rest[1..]);
      assert Resolve(n, rest) == Resolve(g.table[b], rest[1..]);
      assert r == bits + BytesToBits(rest[1..]);
      LpmSplit(t, path, r);
      OrElseAssoc(Lpm(sub, r), Lpm(t, path), seed);
    } else if !HasChild(sub) {
      assert n == FNode(v, None);
      LpmPastEnd(t, path, r);
    } else {
      assert n == FNode(v, None);
      assert path + r == path;
    }
  }

  /** The slots of a fill whose later levels are 8 bits wide have 8-bit
      levels below them, nested at most once per later level. */
  lemma {:induction false} FillSpecShape<V>(t: Trie<V>, d: nat, depths: seq<nat>, k: nat, seed: Option<V>, s: nat)
    requires k <= |depths| && forall j :: k <= j < |depths| ==> depths[j] == 8
    requires s < Pow2(d)
    ensures s < |FillSpec(t, d, depths, k, seed).table|
    ensures NodeByteLevels(FillSpec(t, d, depths, k, seed).table[s])
    ensures NestedWithin(FillSpec(t, d, depths, k, seed).table[s], |depths| - k)
    decreases |depths| - k
  {
    var n := FillSpec(t, d, depths, k, seed).table[s];
    assert n == SlotSpec(t, d, depths, k, seed, s);
    var path := NatToBits(s, d);
    var v := OrElse(Lpm(t, path), seed);
    var sub := Subtree(t, path);
    if HasChild(sub) && k < |depths| {
      var g := FillSpec(sub, 8, depths, k + 1, v);
      Pow2Byte();
      forall i | 0 <= i < 256
        ensures NodeByteLevels(g.table[i]) && NestedWithin(g.table[i], |depths| - k - 1)
      {
        FillSpecShape(sub, 8, depths, k + 1, v, i);
      }
    }
  }

  /** A converted table (16 bits, then 8-bit levels) has the shape every
      tree accepts. */
  lemma ConvertedShape<V>(t: Trie<V>, depths: seq<nat>)
    requires |depths| > 0 && depths[0] == 16 && forall j :: 1 <= j < |depths| ==> depths[j] == 8
    ensures RootShape(FillSpec(t, 16, depths, 1, None))
  {
    var f := FillSpec(t, 16, depths, 1, None);
    Pow2Short();
    forall s | 0 <= s < |f.table| ensures NodeByteLevels(f.table[s]) {
      FillSpecShape(t, 16, depths, 1, None, s);
    }
  }

  /** Resolving a key with one byte per level in a converted table is the
      longest prefix match of the trie it was converted from. */
  lemma ConvertedResolve<V>(t: Trie<V>, depths: seq<nat>, key: seq<Byte>)
    requires |depths| > 0 && depths[0] == 16 && forall j :: 1 <= j < |depths| ==> depths[j] == 8
    requires |key| == |depths| + 1 && Bounded(t, 8 * |key|)
    ensures RootResolve(FillSpec(t, 16, depths, 1, None), key) == Ok(Lpm(t, BytesToBits(key)))
  {
    var path := NatToBits(key[0], 8) + NatToBits(key[1], 8);
    RootSlotBits(key);
    TwoBytes(key[0], key[1]);
    ResolveFillSpec(t, 16, depths, 1, None, path, key[2..]);
  }

  /** The root slot `key[0] << 8 | key[1]` is the number the key's first 16
      bits spell. */
  lemma RootSlotBits(key: seq<Byte>)
    requires |key| >= 2
    ensures BytesToBits(key) == NatToBits(key[0], 8) + NatToBits(key[1], 8) + BytesToBits(key[2..])
  {
    var hi, lo := NatToBits(key[0], 8), NatToBits(key[1], 8);
    var rest := key[1..];
    assert rest[0] == key[1] && rest[1..] == key[2..];
    var tail := BytesToBits(key[2..]);
    assert BytesToBits(rest) == lo + tail;
    assert BytesToBits(key) == hi + BytesToBits(rest);
    assert hi + (lo + tail) == (hi + lo) + tail;
  }

  lemma TwoBytes(a: Byte, b: Byte)
    ensures BitsToNat(NatToBits(a, 8) + NatToBits(b, 8)) == a as nat * 256 + b
  {
    Pow2Byte();
    NatToBitsToNat(a, 8);
    NatToBitsToNat(b, 8);
    BitsToNatAppend(NatToBits(a, 8), NatToBits(b, 8));
  }

  /** The IPv4 plan nests at most twice below a root slot: the bound the
      newest tree's unrolled search relies on. */
  lemma ConvertedNesting<V>(t: Trie<V>, depths: seq<nat>, s: nat)
    requires |depths| > 0 && depths[0] == 16 && forall j :: 1 <= j < |depths| ==> depths[j] == 8
    requires s < 65536
    ensures s < |FillSpec(t, 16, depths, 1, None).table|
    ensures NestedWithin(FillSpec(t, 16, depths, 1, None).table[s], |depths| - 1)
  {
    Pow2Short();
    FillSpecShape(t, 16, depths, 1, None, s);
  }

  /** Distinct root slots have distinct places in a root chunk of 64-entry groups. */
  lemma RootPlace(i: nat)
    ensures forall s :: 0 <= s < 65536 && s != i ==> s / 64 != i / 64 || s % 64 != i % 64
  {
    forall s | 0 <= s < 65536 && s != i ensures s / 64 != i / 64 || s % 64 != i % 64 {
      DivModDef(s, 64);
      DivModDef(i, 64);
    }
  }
}

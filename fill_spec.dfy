/** What `TrieToFPAConverter.fillLevel` produces, stated slot by slot, and
    why searching it is the longest prefix match of the trie it came from. */
module FillSpecs {
  import opened Wrappers
  import opened Bits
  import opened Tries
  import opened Fpas

  /** Every level has a table `1 << depth` can size. */
  predicate DepthsFit(depths: seq<nat>) {
    forall i :: 0 <= i < |depths| ==> depths[i] <= MaxDepth
  }

  /** Every level consumes at least one bit of the key. */
  predicate Positive(depths: seq<nat>) {
    forall i :: 0 <= i < |depths| ==> depths[i] > 0
  }

  /** The number of key bits the levels from `k` on consume. */
  function SumFrom(depths: seq<nat>, k: nat): nat
    decreases |depths| - k
  {
    if k >= |depths| then 0 else depths[k] + SumFrom(depths, k + 1)
  }

  // ---------------------------------------------------------------------
  // What a fill produces
  // ---------------------------------------------------------------------

  /** The array `fillLevel` builds for trie `t` at a level of depth `d`, with
      `depths[k]` the depth of the next level and `seed` the value the
      array's slots start with. */
  function FillSpec<V>(t: Trie<V>, d: nat, depths: seq<nat>, k: nat, seed: Option<V>): Fpa<V>
    decreases |depths| - k, 1
  {
    Fpa(seq(Pow2(d), s requires 0 <= s < Pow2(d) => SlotSpec(t, d, depths, k, seed, s)), d)
  }

  /** Slot `s` of that array: the longest match along the slot's `d` bits
      (or the seed when there is none), and a nested array when the node at
      the end of those bits has children and the plan has a next level. */
  function SlotSpec<V>(t: Trie<V>, d: nat, depths: seq<nat>, k: nat, seed: Option<V>, s: nat): FNode<V>
    decreases |depths| - k, 0
  {
    var path := NatToBits(s, d);
    var v := OrElse(Lpm(t, path), seed);
    var sub := Subtree(t, path);
    if HasChild(sub) && k < |depths| then FNode(v, Some(FillSpec(sub, depths[k], depths, k + 1, v)))
    else FNode(v, None)
  }

  /** What the fill builds has the shape the constructor gives every array. */
  lemma {:induction false} FillSpecWellFormed<V>(t: Trie<V>, d: nat, depths: seq<nat>, k: nat, seed: Option<V>)
    requires d <= MaxDepth && DepthsFit(depths)
    ensures WellFormed(FillSpec(t, d, depths, k, seed))
    decreases |depths| - k
  {
    var f := FillSpec(t, d, depths, k, seed);
    forall s | 0 <= s < |f.table| ensures NodeWellFormed(f.table[s]) {
      assert f.table[s] == SlotSpec(t, d, depths, k, seed, s);
      var path := NatToBits(s, d);
      var v := OrElse(Lpm(t, path), seed);
      var sub := Subtree(t, path);
      if HasChild(sub) && k < |depths| {
        FillSpecWellFormed(sub, depths[k], depths, k + 1, v);
      }
    }
  }

  lemma OrElseAssoc<T>(a: Option<T>, b: Option<T>, c: Option<T>)
    ensures OrElse(OrElse(a, b), c) == OrElse(a, OrElse(b, c))
  {
  }

  /** The slot a key's next `d` bits select is the slot spelled by them. */
  lemma SlotOfBits<V>(t: Trie<V>, d: nat, depths: seq<nat>, k: nat, seed: Option<V>, path: seq<bool>)
    requires |path| == d
    ensures BitsToNat(path) < |FillSpec(t, d, depths, k, seed).table|
    ensures FillSpec(t, d, depths, k, seed).table[BitsToNat(path)] ==
            (var v := OrElse(Lpm(t, path), seed);
             var sub := Subtree(t, path);
             if HasChild(sub) && k < |depths| then FNode(v, Some(FillSpec(sub, depths[k], depths, k + 1, v)))
             else FNode(v, None))
  {
    var idx := BitsToNat(path);
    BitsToNatBound(path);
    BitsToNatToBits(path);
    assert FillSpec(t, d, depths, k, seed).table[idx] == SlotSpec(t, d, depths, k, seed, idx);
  }

  /** One level of `search`, at a slot the key's bits select. */
  lemma WalkUnfold<V>(f: Fpa<V>, bits: seq<bool>, pos: nat, last: Option<V>, node: FNode<V>)
    requires pos < |bits| && pos + f.depth <= |bits|
    requires BitsToNat(bits[pos..pos + f.depth]) < |f.table|
    requires f.table[BitsToNat(bits[pos..pos + f.depth])] == node
    ensures Walk(f, bits, pos, last) ==
            if node.next.None? then Ok(OrElse(node.value, last))
            else Walk(node.next.value, bits, pos + f.depth, OrElse(node.value, last))
  {
  }

  /** Searching the arrays is the longest prefix match of the trie (section
      5.1 of RFC 4632): from bit `pos` of a key long enough for every
      remaining level, `search` ends with the value of the longest stored
      prefix of the rest of the key, falling back to the seed and then to
      what was found before. The trie must hold no route longer than the
      levels cover. */
  lemma {:induction false} WalkFillSpec<V>(t: Trie<V>, d: nat, depths: seq<nat>, k: nat, seed: Option<V>,
                                           bits: seq<bool>, pos: nat, last: Option<V>)
    requires d > 0 && Positive(depths)
    requires pos + d + SumFrom(depths, k) <= |bits|
    requires Bounded(t, d + SumFrom(depths, k))
    ensures Walk(FillSpec(t, d, depths, k, seed), bits, pos, last) == Ok(OrElse(Lpm(t, bits[pos..]), OrElse(seed, last)))
    decreases |depths| - k
  {
    var f := FillSpec(t, d, depths, k, seed);
    var path := bits[pos..pos + d];
    var rest := bits[pos + d..];
    assert bits[pos..] == path + rest;
    SlotOfBits(t, d, depths, k, seed, path);
    var v := OrElse(Lpm(t, path), seed);
    var sub := Subtree(t, path);
    BoundedSubtree(t, path, d + SumFrom(depths, k));
    if HasChild(sub) && k < |depths| {
      var g := FillSpec(sub, depths[k], depths, k + 1, v);
      WalkUnfold(f, bits, pos, last, FNode(v, Some(g)));
      WalkFillSpec(sub, depths[k], depths, k + 1, v, bits, pos + d, OrElse(v, last));
      LpmSplit(t, path, rest);
      NestedMatch(Lpm(sub, rest), Lpm(t, path), seed, last);
    } else {
      WalkUnfold(f, bits, pos, last, FNode(v, None));
      LpmPastEnd(t, path, rest);
      OrElseAssoc(Lpm(t, path), seed, last);
    }
  }

  /** The value bookkeeping of one nested level. */
  lemma NestedMatch<T>(deep: Option<T>, here: Option<T>, seed: Option<T>, last: Option<T>)
    ensures var v := OrElse(here, seed);
            OrElse(deep, OrElse(v, OrElse(v, last))) == OrElse(OrElse(deep, here), OrElse(seed, last))
  {
  }
}

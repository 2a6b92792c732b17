/** The binary prefix trie of `BitTrie`, as a value: the reference against
    which the in-place trie, the forwarding port arrays and the compressed
    lookup tables are all proved. A node's `value` is `Some` exactly when the
    Java node has `isLeaf` set (every store of `isLeaf = true` stores a
    non-null value); `Nil` is a null child link. */
module Tries {
  import opened Wrappers
  import opened Bits

  datatype Trie<V> = Nil | Node(value: Option<V>, left: Trie<V>, right: Trie<V>)

  /** `new TrieNode<>()`. */
  function Empty<V>(): Trie<V> {
    Node(None, Nil, Nil)
  }

  /** `TrieNode.hasChild`. */
  predicate HasChild<V>(t: Trie<V>) {
    t.Node? && (t.left.Node? || t.right.Node?)
  }

  /** The child taken on bit `b`: right for 1, left for 0. */
  function Child<V>(t: Trie<V>, b: bool): Trie<V> {
    if t.Nil? then Nil else if b then t.right else t.left
  }

  /** The subtree reached by following path `p`, `Nil` once a link is missing. */
  function Subtree<V>(t: Trie<V>, p: seq<bool>): Trie<V>
    decreases |p|
  {
    if |p| == 0 then t else Subtree(Child(t, p[0]), p[1..])
  }

  /** The value stored for prefix `p`, if the prefix is in the trie. */
  function ValueAt<V>(t: Trie<V>, p: seq<bool>): Option<V> {
    var s := Subtree(t, p);
    if s.Nil? then None else s.value
  }

  /** Number of nodes. */
  function Size<V>(t: Trie<V>): nat {
    if t.Nil? then 0 else 1 + Size(t.left) + Size(t.right)
  }

  /** No node lies deeper than `n` bits below `t`. */
  predicate Bounded<V>(t: Trie<V>, n: nat) {
    t.Nil? || (if n == 0 then !HasChild(t) else Bounded(t.left, n - 1) && Bounded(t.right, n - 1))
  }

  // ---------------------------------------------------------------------
  // Longest prefix match
  // ---------------------------------------------------------------------

  /** The walk of `search`/`get`: follow `q` from the root, remember the value
      of every valued node met (the root included, for a /0 route) and stop at
      the first missing child or when `q` is used up. */
  function Lpm<V>(t: Trie<V>, q: seq<bool>): Option<V>
    decreases |q|
  {
    if t.Nil? then None
    else if |q| == 0 then t.value
    else OrElse(Lpm(Child(t, q[0]), q[1..]), t.value)
  }

  lemma SubtreeNil<V>(p: seq<bool>)
    ensures Subtree<V>(Nil, p) == Nil
    decreases |p|
  {
    if |p| > 0 {
      SubtreeNil<V>(p[1..]);
    }
  }

  lemma SubtreeStep<V>(t: Trie<V>, b: bool, p: seq<bool>)
    ensures Subtree(t, [b] + p) == Subtree(Child(t, b), p)
  {
    assert ([b] + p)[1..] == p;
  }

  lemma SubtreeAppend<V>(t: Trie<V>, p: seq<bool>, r: seq<bool>)
    ensures Subtree(t, p + r) == Subtree(Subtree(t, p), r)
    decreases |p|
  {
    if |p| == 0 {
      assert p + r == r;
    } else {
      assert (p + r)[0] == p[0] && (p + r)[1..] == p[1..] + r;
      SubtreeAppend(Child(t, p[0]), p[1..], r);
    }
  }

  /** Section 5.1 of RFC 4632, stated independently of the walk: the result is
      the value stored at the longest prefix of `q` that carries one, and it
      is absent exactly when no prefix of `q` carries a value. */
  lemma {:induction false} LpmIsLongestMatch<V>(t: Trie<V>, q: seq<bool>)
    ensures Lpm(t, q).None? <==> (forall n :: 0 <= n <= |q| ==> ValueAt(t, q[..n]).None?)
    ensures Lpm(t, q).Some? ==>
              exists n :: 0 <= n <= |q| && ValueAt(t, q[..n]) == Lpm(t, q) &&
                          forall m :: n < m <= |q| ==> ValueAt(t, q[..m]).None?
    decreases |q|
  {
    if t.Nil? {
      forall n | 0 <= n <= |q| ensures ValueAt(t, q[..n]).None? {
        SubtreeNil<V>(q[..n]);
      }
    } else if |q| == 0 {
      assert q[..0] == [];
      if Lpm(t, q).Some? {
        assert ValueAt(t, q[..0]) == Lpm(t, q);
      }
    } else {
      var c, r := Child(t, q[0]), q[1..];
      LpmIsLongestMatch(c, r);
      // every prefix of q but the empty one is a prefix of r behind bit q[0]
      forall m | 0 <= m <= |r| ensures ValueAt(t, q[..m + 1]) == ValueAt(c, r[..m]) {
        assert q[..m + 1] == [q[0]] + r[..m];
        SubtreeStep(t, q[0], r[..m]);
      }
      assert q[..0] == [];
      assert ValueAt(t, q[..0]) == t.value;
      if Lpm(c, r).Some? {
        var n :| 0 <= n <= |r| && ValueAt(c, r[..n]) == Lpm(c, r) &&
                 forall m :: n < m <= |r| ==> ValueAt(c, r[..m]).None?;
        assert ValueAt(t, q[..n + 1]) == Lpm(t, q);
        forall m | n + 1 < m <= |q| ensures ValueAt(t, q[..m]).None? {
          assert ValueAt(t, q[..(m - 1) + 1]) == ValueAt(c, r[..m - 1]);
        }
      } else {
        forall m | 1 <= m <= |q| ensures ValueAt(t, q[..m]).None? {
          assert ValueAt(t, q[..(m - 1) + 1]) == ValueAt(c, r[..m - 1]);
        }
        if t.value.Some? {
          assert ValueAt(t, q[..0]) == Lpm(t, q);
        } else {
          forall n | 0 <= n <= |q| ensures ValueAt(t, q[..n]).None? {
            if n > 0 {
              assert ValueAt(t, q[..(n - 1) + 1]) == ValueAt(c, r[..n - 1]);
            }
          }
        }
      }
    }
  }

  /** A query ending exactly on a valued node gets that node's value. */
  lemma {:induction false} LpmAtValued<V>(t: Trie<V>, q: seq<bool>)
    requires ValueAt(t, q).Some?
    ensures Lpm(t, q) == ValueAt(t, q)
    decreases |q|
  {
    if |q| > 0 {
      if t.Nil? {
        SubtreeNil<V>(q);
      } else {
        LpmAtValued(Child(t, q[0]), q[1..]);
      }
    }
  }

  /** Splitting a query at a prefix whose node exists: the deeper part decides
      when it finds anything, otherwise the shallower part does. */
  lemma {:induction false} LpmSplit<V>(t: Trie<V>, p: seq<bool>, r: seq<bool>)
    requires Subtree(t, p).Node?
    ensures Lpm(t, p + r) == OrElse(Lpm(Subtree(t, p), r), Lpm(t, p))
    decreases |p|
  {
    if |p| == 0 {
      assert p + r == r;
      if |r| > 0 {
        assert Lpm(t, r) == OrElse(Lpm(Child(t, r[0]), r[1..]), t.value);
      }
    } else {
      assert (p + r)[0] == p[0] && (p + r)[1..] == p[1..] + r;
      LpmSplit(Child(t, p[0]), p[1..], r);
    }
  }

  /** Once the path leaves the trie, the rest of the query is irrelevant. */
  lemma {:induction false} LpmPastEnd<V>(t: Trie<V>, p: seq<bool>, r: seq<bool>)
    requires !HasChild(Subtree(t, p))
    ensures Lpm(t, p + r) == Lpm(t, p)
    decreases |p|
  {
    if |p| == 0 {
      assert p + r == r;
      if t.Node? && |r| > 0 {
        assert Child(t, r[0]).Nil?;
      }
    } else {
      assert (p + r)[0] == p[0] && (p + r)[1..] == p[1..] + r;
      if t.Nil? {
      } else {
        LpmPastEnd(Child(t, p[0]), p[1..], r);
      }
    }
  }

  /** One bit longer: the match grows by the node reached, if it exists and
      carries a value. */
  lemma LpmSnoc<V>(t: Trie<V>, p: seq<bool>, b: bool)
    ensures var c := Subtree(t, p + [b]);
            Lpm(t, p + [b]) == if c.Node? then OrElse(c.value, Lpm(t, p)) else Lpm(t, p)
  {
    var s := Subtree(t, p);
    SubtreeAppend(t, p, [b]);
    assert Subtree(s, [b]) == Child(s, b) by {
      assert [b][1..] == [];
    }
    if s.Nil? {
      LpmPastEnd(t, p, [b]);
    } else {
      LpmSplit(t, p, [b]);
      assert [b][1..] == [];
      if s.value.Some? {
        LpmAtValued(t, p);
      }
    }
  }

  /** A query that stops early has the bits it would have reached cut off. */
  lemma {:induction false} LpmPrefix<V>(t: Trie<V>, q: seq<bool>, n: nat)
    requires Bounded(t, n) && n <= |q|
    ensures Lpm(t, q) == Lpm(t, q[..n])
    decreases n
  {
    if t.Node? && |q| > 0 {
      if n == 0 {
        assert Child(t, q[0]).Nil?;
      } else {
        assert q[..n][1..] == q[1..][..n - 1];
        LpmPrefix(Child(t, q[0]), q[1..], n - 1);
      }
    }
  }

  lemma {:induction false} BoundedSubtree<V>(t: Trie<V>, p: seq<bool>, n: nat)
    requires Bounded(t, n) && |p| <= n
    ensures Bounded(Subtree(t, p), n - |p|)
    decreases |p|
  {
    if |p| > 0 {
      if t.Nil? {
        SubtreeNil<V>(p[1..]);
      } else {
        BoundedSubtree(Child(t, p[0]), p[1..], n - 1);
      }
    }
  }

  lemma {:induction false} BoundedMonotone<V>(t: Trie<V>, n: nat, m: nat)
    requires Bounded(t, n) && n <= m
    ensures Bounded(t, m)
    decreases n
  {
    if t.Node? && n > 0 {
      BoundedMonotone(t.left, n - 1, m - 1);
      BoundedMonotone(t.right, n - 1, m - 1);
    }
  }

  /** `t` with the subtree at path `p` replaced by `s` (nothing changes when
      the path leaves the trie before its end). */
  function Replace<V>(t: Trie<V>, p: seq<bool>, s: Trie<V>): Trie<V>
    decreases |p|
  {
    if |p| == 0 then s
    else if t.Nil? then Nil
    else if p[0] then Node(t.value, t.left, Replace(t.right, p[1..], s))
    else Node(t.value, Replace(t.left, p[1..], s), t.right)
  }

  lemma {:induction false} ReplaceSame<V>(t: Trie<V>, p: seq<bool>)
    ensures Replace(t, p, Subtree(t, p)) == t
    decreases |p|
  {
    if |p| > 0 && t.Node? {
      ReplaceSame(Child(t, p[0]), p[1..]);
    }
  }

  lemma {:induction false} ReplaceTwice<V>(t: Trie<V>, p: seq<bool>, x: Trie<V>, y: Trie<V>)
    requires Subtree(t, p).Node?
    ensures Replace(Replace(t, p, x), p, y) == Replace(t, p, y)
    decreases |p|
  {
    if |p| > 0 {
      ReplaceTwice(Child(t, p[0]), p[1..], x, y);
    }
  }

  lemma {:induction false} ReplaceSubtree<V>(t: Trie<V>, p: seq<bool>, x: Trie<V>)
    requires Subtree(t, p).Node?
    ensures Subtree(Replace(t, p, x), p) == x
    decreases |p|
  {
    if |p| > 0 {
      ReplaceSubtree(Child(t, p[0]), p[1..], x);
    }
  }

  lemma {:induction false} ReplaceAppend<V>(t: Trie<V>, p: seq<bool>, q: seq<bool>, y: Trie<V>)
    requires Subtree(t, p).Node?
    ensures Replace(t, p + q, y) == Replace(t, p, Replace(Subtree(t, p), q, y))
    decreases |p|
  {
    if |p| == 0 {
      assert p + q == q;
    } else {
      assert (p + q)[0] == p[0] && (p + q)[1..] == p[1..] + q;
      ReplaceAppend(Child(t, p[0]), p[1..], q, y);
    }
  }

  // ---------------------------------------------------------------------
  // put
  // ---------------------------------------------------------------------

  /** The walk of `put` for the bits `p` of a prefix: missing nodes are
      created empty, a node already holding `v` above the end of the prefix
      ends the insertion with nothing changed (the early return), and the end
      node gets `v`. */
  function PutPath<V(==)>(t: Trie<V>, p: seq<bool>, v: V): Trie<V>
    decreases |p|
  {
    var n := if t.Nil? then Empty() else t;
    if |p| == 0 then Node(Some(v), n.left, n.right)
    else if n.value == Some(v) then n
    else if p[0] then Node(n.value, n.left, PutPath(n.right, p[1..], v))
    else Node(n.value, PutPath(n.left, p[1..], v), n.right)
  }

  /** The early return fires: a node strictly above the end of `p` already
      holds `v`. */
  predicate StopsEarly<V(==)>(t: Trie<V>, p: seq<bool>, v: V)
    decreases |p|
  {
    |p| > 0 && t.Node? && (t.value == Some(v) || StopsEarly(Child(t, p[0]), p[1..], v))
  }

  /** The reasons `put` throws IllegalArgumentException, in the order it
      checks them. */
  datatype PutError = NullKey | BadLength | NullValue

  /** `put(prefixKey, prefixLength, value)` with its argument checks. */
  function Put<V(==)>(t: Trie<V>, key: Option<seq<Byte>>, len: int, value: Option<V>): Result<Trie<V>, PutError>
  {
    if key.None? then Err(NullKey)
    else if len < 0 || len > 8 * |key.value| then Err(BadLength)
    else if value.None? then Err(NullValue)
    else Ok(PutPath(t, BytesToBits(key.value)[..len], value.value))
  }

  /** The argument checks: each bad argument is refused with its own error,
      and every well-formed call succeeds. */
  lemma PutErrors<V>(t: Trie<V>, key: Option<seq<Byte>>, len: int, value: Option<V>)
    ensures Put(t, key, len, value).Err? <==> key.None? || len < 0 || len > 8 * |key.value| || value.None?
    ensures key.None? ==> Put(t, key, len, value) == Err(NullKey)
    ensures key.Some? && (len < 0 || len > 8 * |key.value|) ==> Put(t, key, len, value) == Err(BadLength)
    ensures key.Some? && 0 <= len <= 8 * |key.value| && value.None? ==> Put(t, key, len, value) == Err(NullValue)
  {
  }

  /** The early return leaves the trie exactly as it was. */
  lemma {:induction false} PutStopsEarly<V>(t: Trie<V>, p: seq<bool>, v: V)
    requires t.Node? && StopsEarly(t, p, v)
    ensures PutPath(t, p, v) == t
    decreases |p|
  {
    if t.value != Some(v) {
      PutStopsEarly(Child(t, p[0]), p[1..], v);
    }
  }

  /** Otherwise `put` is a map update of the stored prefixes: `p` now holds
      `v` (last write wins), every other prefix keeps its value, and the only
      nodes added are the ones on the path of `p`. */
  lemma {:induction false} PutWrites<V>(t: Trie<V>, p: seq<bool>, v: V)
    requires !StopsEarly(t, p, v)
    ensures ValueAt(PutPath(t, p, v), p) == Some(v)
    ensures forall p' :: p' != p ==> ValueAt(PutPath(t, p, v), p') == ValueAt(t, p')
    ensures forall p' :: Subtree(PutPath(t, p, v), p').Node? <==> (Subtree(t, p').Node? || p' <= p)
    decreases |p|
  {
    var n := if t.Nil? then Empty() else t;
    var r := PutPath(t, p, v);
    if |p| == 0 {
      forall p' ensures (p' != p ==> ValueAt(r, p') == ValueAt(t, p'))
                     && (Subtree(r, p').Node? <==> (Subtree(t, p').Node? || p' <= p)) {
        if |p'| > 0 {
          assert [p'[0]] + p'[1..] == p';
          SubtreeStep(r, p'[0], p'[1..]);
          SubtreeStep(t, p'[0], p'[1..]);
          assert Child(r, p'[0]) == Child(n, p'[0]);
          if t.Nil? {
            SubtreeNil<V>(p'[1..]);
            assert Subtree(r, p') == Nil;
          } else {
            assert Subtree(r, p') == Subtree(t, p');
          }
        }
      }
    } else {
      if t.Nil? {
        assert !StopsEarly(Empty(), p, v);
      }
      var b := p[0];
      assert !StopsEarly(Child(n, b), p[1..], v);
      PutWrites(Child(n, b), p[1..], v);
      assert [b] + p[1..] == p;
      SubtreeStep(r, b, p[1..]);
      forall p' ensures (p' != p ==> ValueAt(r, p') == ValueAt(t, p'))
                     && (Subtree(r, p').Node? <==> (Subtree(t, p').Node? || p' <= p)) {
        if |p'| > 0 {
          assert [p'[0]] + p'[1..] == p';
          SubtreeStep(r, p'[0], p'[1..]);
          SubtreeStep(t, p'[0], p'[1..]);
          if t.Nil? {
            SubtreeNil<V>(p'[1..]);
          }
          assert Child(t, p'[0]) == Child(n, p'[0]);
          if p'[0] != b {
            assert Child(r, p'[0]) == Child(n, p'[0]);
            assert !(p' <= p);
          } else {
            assert Child(r, b) == PutPath(Child(n, b), p[1..], v);
            assert (p' <= p) <==> (p'[1..] <= p[1..]);
            assert p' != p ==> p'[1..] != p[1..];
            if p' != p {
              assert ValueAt(PutPath(Child(n, b), p[1..], v), p'[1..]) == ValueAt(Child(n, b), p'[1..]);
            }
            assert Subtree(PutPath(Child(n, b), p[1..], v), p'[1..]).Node? <==>
                   (Subtree(Child(n, b), p'[1..]).Node? || p'[1..] <= p[1..]);
          }
        } else {
          assert r.value == n.value;
          assert ValueAt(r, p') == ValueAt(t, p');
        }
      }
    }
  }

  /** Re-putting a prefix makes a lookup of that very prefix return the new
      value, unless the early return fires. */
  lemma PutLastWriteWins<V>(t: Trie<V>, p: seq<bool>, v: V)
    requires !StopsEarly(t, p, v)
    ensures Lpm(PutPath(t, p, v), p) == Some(v)
  {
    PutWrites(t, p, v);
    LpmAtValued(PutPath(t, p, v), p);
  }

  /** `put` of a prefix no longer than `n` keeps the trie within `n` bits. */
  lemma {:induction false} PutBounded<V>(t: Trie<V>, p: seq<bool>, v: V, n: nat)
    requires Bounded(t, n) && |p| <= n
    ensures Bounded(PutPath(t, p, v), n)
    decreases |p|
  {
    if |p| > 0 {
      var c := if t.Nil? then Nil else Child(t, p[0]);
      PutBounded(c, p[1..], v, n - 1);
    }
  }

  // ---------------------------------------------------------------------
  // compress
  // ---------------------------------------------------------------------

  /** Which merges a generation of `compress` performs. The newer trie also
      drops the single childless child of a leaf holding its value
      (`collapseOnlyChild`); the older performs only the sibling merge.
      `requireChildless` adds the check both are missing: the merged
      siblings must have no children of their own. */
  datatype CompressMode = CompressMode(collapseOnlyChild: bool, requireChildless: bool)

  /** `compress` of the newer trie, with both scenarios. */
  const ImplCompress := CompressMode(true, false)
  /** `compress` of the older trie: the sibling merge only. */
  const RootCompress := CompressMode(false, false)

  /** Whether the sibling merge fires on the already compressed children. */
  predicate Merges<V(==)>(l: Trie<V>, r: Trie<V>, m: CompressMode) {
    l.Node? && r.Node? && l.value.Some? && l.value == r.value &&
    (m.requireChildless ==> !HasChild(l) && !HasChild(r))
  }

  /** `compressNode`, post-order: both children are compressed first; two
      present children that are valued alike are folded into their parent;
      otherwise (newer trie only) a valued node drops a single childless
      child holding its own value. */
  function Compress<V(==)>(t: Trie<V>, m: CompressMode): Trie<V> {
    if t.Nil? then Nil
    else
      var l, r := Compress(t.left, m), Compress(t.right, m);
      if l.Node? && r.Node? then
        if Merges(l, r, m) then Node(l.value, Nil, Nil) else Node(t.value, l, r)
      else if m.collapseOnlyChild && t.value.Some? then
        var only := if l.Node? then l else r;
        if only.Node? && only.value == t.value && !HasChild(only) then Node(t.value, Nil, Nil)
        else Node(t.value, l, r)
      else Node(t.value, l, r)
  }

  /** `compress` only drops links and never creates a node. */
  lemma {:induction false} CompressShrinks<V>(t: Trie<V>, m: CompressMode)
    ensures Size(Compress(t, m)) <= Size(t)
    ensures t.Node? <==> Compress(t, m).Node?
  {
    if t.Node? {
      CompressShrinks(t.left, m);
      CompressShrinks(t.right, m);
    }
  }

  lemma {:induction false} CompressBounded<V>(t: Trie<V>, m: CompressMode, n: nat)
    requires Bounded(t, n)
    ensures Bounded(Compress(t, m), n)
  {
    if t.Node? {
      CompressShrinks(t.left, m);
      CompressShrinks(t.right, m);
      if n > 0 {
        CompressBounded(t.left, m, n - 1);
        CompressBounded(t.right, m, n - 1);
      }
    }
  }

  /** Every sibling merge the code performs happens to be on childless
      siblings: the condition under which the unchecked merge is harmless. */
  predicate MergeSafe<V(==)>(t: Trie<V>, m: CompressMode) {
    t.Nil? ||
    (MergeSafe(t.left, m) && MergeSafe(t.right, m) &&
     (Merges(Compress(t.left, m), Compress(t.right, m), m) ==>
        !HasChild(Compress(t.left, m)) && !HasChild(Compress(t.right, m))))
  }

  /** `compress` keeps every lookup whose key reaches past the deepest node
      when no merge swallows grandchildren; with `requireChildless` this
      needs no assumption at all. A key ending on a merged node itself is
      excluded by `Bounded`: the merge hands such a node its children's value. */
  lemma {:induction false} CompressPreservesLpm<V>(t: Trie<V>, m: CompressMode, q: seq<bool>)
    requires Bounded(t, |q|)
    requires m.requireChildless || MergeSafe(t, m)
    ensures Lpm(Compress(t, m), q) == Lpm(t, q)
    decreases |q|
  {
    if t.Node? {
      var l, r := Compress(t.left, m), Compress(t.right, m);
      CompressShrinks(t.left, m);
      CompressShrinks(t.right, m);
      if |q| == 0 {
        assert !HasChild(t);
      } else {
        var c := Child(t, q[0]);
        var cc := Compress(c, m);
        CompressPreservesLpm(c, m, q[1..]);
        if l.Node? && r.Node? && Merges(l, r, m) {
          assert !HasChild(cc) && cc.value.Some?;
          if |q[1..]| > 0 {
            assert Lpm(cc, q[1..]) == OrElse(Lpm(Child(cc, q[1]), q[2..]), cc.value);
          }
        } else if m.collapseOnlyChild && t.value.Some? && !(l.Node? && r.Node?) {
          var only := if l.Node? then l else r;
          if only.Node? && only.value == t.value && !HasChild(only) {
            if cc.Node? {
              assert cc == only;
              if |q[1..]| > 0 {
                assert Lpm(cc, q[1..]) == OrElse(Lpm(Child(cc, q[1]), q[2..]), cc.value);
              }
            }
          }
        }
      }
    }
  }

  /** The sibling merge as written loses a longer route: with 0/1 and 128/1
      holding `v` and 0/2 holding `w`, both generations fold the /1 routes
      into the root and a key starting with bits 00 then gets `v`, not `w`. */
  lemma CompressDropsLongerPrefix<V>(v: V, w: V)
    requires v != w
    ensures var t := Node(None, Node(Some(v), Node(Some(w), Nil, Nil), Nil), Node(Some(v), Nil, Nil));
            Bounded(t, 2) &&
            Lpm(t, [false, false]) == Some(w) &&
            Lpm(Compress(t, ImplCompress), [false, false]) == Some(v) &&
            Lpm(Compress(t, RootCompress), [false, false]) == Some(v)
  {
    var lw := Node(Some(w), Nil, Nil);
    var rv := Node(Some(v), Nil, Nil);
    var lv := Node(Some(v), lw, Nil);
    var t := Node(None, lv, rv);
    assert Bounded(lw, 0) && Bounded(rv, 1) && Bounded(lv, 1);
    forall m: CompressMode ensures Compress(lw, m) == lw && Compress(rv, m) == rv {
      assert Compress<V>(Nil, m) == Nil;
    }
    assert Compress(lv, ImplCompress) == lv;
    assert Compress(lv, RootCompress) == lv;
    assert Compress(t, ImplCompress) == rv;
    assert Compress(t, RootCompress) == rv;
  }

  /** The corrected merge against the same trie keeps `w`. */
  lemma CompressCheckedKeepsLongerPrefix<V>(v: V, w: V)
    requires v != w
    ensures var t := Node(None, Node(Some(v), Node(Some(w), Nil, Nil), Nil), Node(Some(v), Nil, Nil));
            Lpm(Compress(t, CompressMode(true, true)), [false, false]) == Some(w)
  {
    var lw := Node(Some(w), Nil, Nil);
    var rv := Node(Some(v), Nil, Nil);
    var lv := Node(Some(v), lw, Nil);
    var t := Node(None, lv, rv);
    assert Bounded(lw, 0) && Bounded(rv, 1) && Bounded(lv, 1) && Bounded(t, 2);
    CompressPreservesLpm(t, CompressMode(true, true), [false, false]);
  }

  // ---------------------------------------------------------------------
  // Preorder enumeration
  // ---------------------------------------------------------------------

  /** The valued nodes below `t` in preorder (node, then left, then right),
      each with its path from the root, `prefix` being the path to `t`. */
  function LeavesFrom<V>(t: Trie<V>, prefix: seq<bool>): seq<(seq<bool>, V)> {
    if t.Nil? then []
    else
      (if t.value.Some? then [(prefix, t.value.value)] else []) +
      LeavesFrom(t.left, prefix + [false]) + LeavesFrom(t.right, prefix + [true])
  }

  function Leaves<V>(t: Trie<V>): seq<(seq<bool>, V)> {
    LeavesFrom(t, [])
  }

  /** Everything the enumeration reports is a stored prefix with its value. */
  lemma {:induction false} LeavesFromSound<V>(t: Trie<V>, prefix: seq<bool>)
    ensures forall e :: e in LeavesFrom(t, prefix) ==>
              prefix <= e.0 && ValueAt(t, e.0[|prefix|..]) == Some(e.1)
  {
    if t.Node? {
      LeavesFromSound(t.left, prefix + [false]);
      LeavesFromSound(t.right, prefix + [true]);
      var own := if t.value.Some? then [(prefix, t.value.value)] else [];
      var ls, rs := LeavesFrom(t.left, prefix + [false]), LeavesFrom(t.right, prefix + [true]);
      assert LeavesFrom(t, prefix) == own + ls + rs;
      forall e | e in LeavesFrom(t, prefix)
        ensures prefix <= e.0 && ValueAt(t, e.0[|prefix|..]) == Some(e.1)
      {
        if e in own {
          assert e.0[|prefix|..] == [];
        } else {
          var b := e in rs;
          var pb := prefix + [b];
          assert pb <= e.0;
          var rest := e.0[|pb|..];
          assert e.0[|prefix|..] == [b] + rest;
          SubtreeStep(t, b, rest);
        }
      }
    }
  }

  /** Every stored prefix is reported, with its value. */
  lemma {:induction false} LeavesFromComplete<V>(t: Trie<V>, prefix: seq<bool>)
    ensures forall p, v :: ValueAt(t, p) == Some(v) ==> (prefix + p, v) in LeavesFrom(t, prefix)
  {
    if t.Node? {
      LeavesFromComplete(t.left, prefix + [false]);
      LeavesFromComplete(t.right, prefix + [true]);
      var own := if t.value.Some? then [(prefix, t.value.value)] else [];
      var ls, rs := LeavesFrom(t.left, prefix + [false]), LeavesFrom(t.right, prefix + [true]);
      assert LeavesFrom(t, prefix) == own + ls + rs;
      forall p, v | ValueAt(t, p) == Some(v) ensures (prefix + p, v) in LeavesFrom(t, prefix) {
        if |p| == 0 {
          assert prefix + p == prefix;
          assert own == [(prefix, v)];
        } else {
          assert p == [p[0]] + p[1..];
          SubtreeStep(t, p[0], p[1..]);
          assert prefix + p == (prefix + [p[0]]) + p[1..];
          if p[0] {
            assert ValueAt(t.right, p[1..]) == Some(v);
            assert ((prefix + [true]) + p[1..], v) in rs;
          } else {
            assert ValueAt(t.left, p[1..]) == Some(v);
            assert ((prefix + [false]) + p[1..], v) in ls;
          }
        }
      }
    } else {
      forall p ensures ValueAt(t, p).None? {
        SubtreeNil<V>(p);
      }
    }
  }

  lemma LeavesExact<V>(t: Trie<V>)
    ensures forall e :: e in Leaves(t) ==> ValueAt(t, e.0) == Some(e.1)
    ensures forall p, v :: ValueAt(t, p) == Some(v) ==> (p, v) in Leaves(t)
  {
    LeavesFromSound(t, []);
    LeavesFromComplete(t, []);
    forall e | e in Leaves(t) ensures ValueAt(t, e.0) == Some(e.1) {
      assert e.0[0..] == e.0;
    }
    forall p, v | ValueAt(t, p) == Some(v) ensures (p, v) in Leaves(t) {
      assert [] + p == p;
    }
  }
}

/** The breadth-first walk of `fillLevel`, level by level. Before level `c`
    is processed, slot `s` carries the longest match among the nodes on its
    path that lie above depth `c` (`Stage(c, s)`); processing the nodes of
    depth `c`, one queue entry at a time from left to right, moves every slot
    to `Stage(c + 1, s)`, and after the last level the slots are those of
    `FillSpec`. The queue holds, in increasing order, exactly the prefixes of
    the next depth present in the trie, each with the slot range it covers. */
module FillStages {
  import opened Wrappers
  import opened Bits
  import opened Tries
  import opened BitTries
  import opened Fpas
  import opened FillSpecs

  /** `BitTrie.TrieNodeWrapper`: a trie cell with the slot range its prefix
      covers in the table being filled. */
  datatype Wrapper = Wrapper(node: nat, leftBound: nat, rightBound: nat)

  // ---------------------------------------------------------------------
  // Stages of the table
  // ---------------------------------------------------------------------

  /** The value slot `s` of a table of depth `d` holds once every node above
      depth `c` has been painted: the longest match over the first `c - 1`
      bits of the slot, or the seed. */
  ghost function StageValue<V>(t: Trie<V>, d: nat, seed: Option<V>, c: nat, s: nat): Option<V>
    requires c <= d + 1
  {
    OrElse(if c == 0 then None else Lpm(t, NatToBits(s, d)[..c - 1]), seed)
  }

  /** Slot `s` before level `c`: painted, not linked, until the last level
      (`c == d + 1`) has been processed; then the slot `FillSpec` has. */
  ghost function Stage<V>(t: Trie<V>, d: nat, depths: seq<nat>, k: nat, seed: Option<V>, c: nat, s: nat): FNode<V>
    requires c <= d + 1
  {
    if c <= d then FNode(StageValue(t, d, seed, c, s), None) else SlotSpec(t, d, depths, k, seed, s)
  }

  /** The prefix `x` of length `c` is a node of the trie. */
  ghost predicate Present<V>(t: Trie<V>, x: nat, c: nat) {
    Subtree(t, NatToBits(x, c)).Node?
  }

  /** Slots below `lo` are at the next stage, the others at stage `c`. */
  ghost predicate Split<V>(t: Trie<V>, d: nat, depths: seq<nat>, k: nat, seed: Option<V>,
                           table: seq<FNode<V>>, c: nat, lo: nat)
  {
    c <= d && |table| == Pow2(d) &&
    forall s :: 0 <= s < |table| ==>
      table[s] == if s < lo then Stage(t, d, depths, k, seed, c + 1, s) else Stage(t, d, depths, k, seed, c, s)
  }

  // ---------------------------------------------------------------------
  // The queue
  // ---------------------------------------------------------------------

  /** Entry `e` stands for prefix `x` of length `c`: its cell is the one the
      prefix reaches from `root`, and its bounds are the slots under it. */
  ghost predicate EntryAt<V>(ns: seq<Cell<V>>, root: nat, d: nat, c: nat, e: Wrapper, x: nat) {
    c <= d && x < Pow2(c) && e.node < |ns| && WalkIdx(ns, root, NatToBits(x, c)) == Some(e.node) &&
    e.leftBound == x * Pow2(d - c) && e.rightBound == e.leftBound + Pow2(d - c) - 1
  }

  predicate Increasing(xs: seq<nat>) {
    forall a, b :: 0 <= a < b < |xs| ==> xs[a] < xs[b]
  }

  /** The entries stand for the prefixes `xs`, in increasing order. */
  ghost predicate Queued<V>(ns: seq<Cell<V>>, root: nat, d: nat, c: nat, q: seq<Wrapper>, xs: seq<nat>) {
    |q| == |xs| && Increasing(xs) && forall i :: 0 <= i < |q| ==> EntryAt(ns, root, d, c, q[i], xs[i])
  }

  /** Every prefix of length `c` below `bound` that is present is listed. */
  ghost predicate Covers<V>(t: Trie<V>, c: nat, xs: seq<nat>, bound: nat) {
    forall y :: 0 <= y < bound && Present(t, y, c) ==> y in xs
  }

  /** The entries the BFS offers for the children of `e`, left first. */
  ghost function Kids<V>(ns: seq<Cell<V>>, e: Wrapper): seq<Wrapper>
    requires e.node < |ns|
  {
    var mid := (e.leftBound + e.rightBound) / 2;
    (if ns[e.node].left.Some? then [Wrapper(ns[e.node].left.value, e.leftBound, mid)] else []) +
    (if ns[e.node].right.Some? then [Wrapper(ns[e.node].right.value, mid + 1, e.rightBound)] else [])
  }

  /** The prefixes those entries stand for. */
  ghost function KidXs<V>(ns: seq<Cell<V>>, e: Wrapper, x: nat): seq<nat>
    requires e.node < |ns|
  {
    (if ns[e.node].left.Some? then [2 * x] else []) + (if ns[e.node].right.Some? then [2 * x + 1] else [])
  }

  /** The first prefix of the level not yet processed, or the end. */
  function NextX(xs: seq<nat>, i: nat, c: nat): nat {
    if i < |xs| then xs[i] else Pow2(c)
  }

  /** Where the slots of the next stage end after `i` entries. */
  function Done(xs: seq<nat>, i: nat, width: nat): nat
    requires i <= |xs|
  {
    if i == 0 then 0 else (xs[i - 1] + 1) * width
  }

  // ---------------------------------------------------------------------
  // Arithmetic of slot ranges
  // ---------------------------------------------------------------------

  /** Halving the range of prefix `x` gives the ranges of `2x` and `2x + 1`. */
  lemma {:induction false} MidSplit(x: nat, h: nat)
    requires h >= 1
    ensures var lb := x * (2 * h); var rb := lb + 2 * h - 1;
            lb == (2 * x) * h && (lb + rb) / 2 == (2 * x) * h + h - 1 &&
            (2 * x + 1) * h == (lb + rb) / 2 + 1 && rb == (2 * x + 1) * h + h - 1
  {
    var lb := x * (2 * h);
    assert lb == (2 * x) * h == 2 * (x * h);
    assert (2 * x + 1) * h == 2 * (x * h) + h;
    assert lb + (lb + 2 * h - 1) == 2 * ((2 * x) * h + h - 1) + 1;
  }

  /** The slots of prefix `x` lie inside the table. */
  lemma {:induction false} RangeInTable(x: nat, c: nat, d: nat)
    requires c <= d && x < Pow2(c)
    ensures (x + 1) * Pow2(d - c) <= Pow2(d)
  {
    Pow2Add(c, d - c);
    MulLe(x + 1, Pow2(c), Pow2(d - c));
  }

  /** Slot `s` lies under prefix `x` exactly when it is in `x`'s range. */
  lemma {:induction false} SlotOwner(s: nat, x: nat, k: nat)
    requires x * Pow2(k) <= s < x * Pow2(k) + Pow2(k)
    ensures Shr(s, k) == x
  {
    var w := Pow2(k);
    ShrIsDiv(s, k);
    DivBounds(s, w, x);
    assert (x + 1) * w == x * w + w;
    DivBounds(s, w, x + 1);
  }

  /** The prefix of every slot of the table is a prefix of its length. */
  lemma {:induction false} PrefixInRange(s: nat, c: nat, d: nat)
    requires c <= d && s < Pow2(d)
    ensures Shr(s, d - c) < Pow2(c)
  {
    ShrIsDiv(s, d - c);
    Pow2Add(c, d - c);
    DivBounds(s, Pow2(d - c), Pow2(c));
  }

  // ---------------------------------------------------------------------
  // One stage further
  // ---------------------------------------------------------------------

  /** Going from stage `c` to `c + 1` adds the value of the slot's prefix of
      length `c`, if that prefix is a valued node. */
  lemma {:induction false} StageUp<V>(t: Trie<V>, d: nat, seed: Option<V>, c: nat, s: nat)
    requires c <= d
    ensures var n := Subtree(t, NatToBits(Shr(s, d - c), c));
            StageValue(t, d, seed, c + 1, s) ==
              if n.Node? then OrElse(n.value, StageValue(t, d, seed, c, s)) else StageValue(t, d, seed, c, s)
  {
    var p := NatToBits(s, d);
    NatToBitsPrefix(s, d, c);
    ShrIsDiv(s, d - c);
    if c > 0 {
      LpmGrows(t, p, c, seed);
    }
  }

  lemma {:induction false} LpmGrows<V>(t: Trie<V>, p: seq<bool>, c: nat, seed: Option<V>)
    requires 0 < c <= |p|
    ensures var n := Subtree(t, p[..c]);
            OrElse(Lpm(t, p[..c]), seed) ==
              if n.Node? then OrElse(n.value, OrElse(Lpm(t, p[..c - 1]), seed)) else OrElse(Lpm(t, p[..c - 1]), seed)
  {
    var q := p[..c - 1];
    assert p[..c] == q + [p[c - 1]];
    LpmSnoc(t, q, p[c - 1]);
    var n := Subtree(t, p[..c]);
    if n.Node? {
      OrElseAssoc(n.value, Lpm(t, q), seed);
    }
  }

  /** The last stage spelled out: value of stage `d + 1`, nested array when
      the slot's node has children and the plan goes on. */
  lemma {:induction false} LastStage<V>(t: Trie<V>, d: nat, depths: seq<nat>, k: nat, seed: Option<V>, s: nat)
    ensures var n := Subtree(t, NatToBits(s, d));
            var v := StageValue(t, d, seed, d + 1, s);
            Stage(t, d, depths, k, seed, d + 1, s) ==
              if HasChild(n) && k < |depths| then FNode(v, Some(FillSpec(n, depths[k], depths, k + 1, v)))
              else FNode(v, None)
  {
    assert NatToBits(s, d)[..d] == NatToBits(s, d);
  }

  /** A slot whose prefix of length `c` is absent goes to the next stage
      unchanged. */
  lemma {:induction false} AbsentStage<V>(t: Trie<V>, d: nat, depths: seq<nat>, k: nat, seed: Option<V>, c: nat, s: nat)
    requires c <= d && !Present(t, Shr(s, d - c), c)
    ensures Stage(t, d, depths, k, seed, c + 1, s) == Stage(t, d, depths, k, seed, c, s)
  {
    StageUp(t, d, seed, c, s);
    if c == d {
      LastStage(t, d, depths, k, seed, s);
      assert Pow2(0) == 1;
    }
  }

  /** ... and stays so until the end. */
  lemma {:induction false} AbsentFinal<V>(t: Trie<V>, d: nat, depths: seq<nat>, k: nat, seed: Option<V>, c: nat, s: nat)
    requires c <= d && !Present(t, Shr(s, d - c), c)
    ensures Stage(t, d, depths, k, seed, d + 1, s) == Stage(t, d, depths, k, seed, c, s)
  {
    var p := NatToBits(s, d);
    NatToBitsPrefix(s, d, c);
    ShrIsDiv(s, d - c);
    assert p == p[..c] + p[c..];
    SubtreeAppend(t, p[..c], p[c..]);
    SubtreeNil<V>(p[c..]);
    LpmPastEnd(t, p[..c], p[c..]);
    StageUp(t, d, seed, c, s);
    LastStage(t, d, depths, k, seed, s);
  }

  /** The slots of entry `e` at stage `c + 1`: the entry's value where its
      cell has one, the old stage elsewhere. */
  lemma {:induction false} EntryStages<V>(ns: seq<Cell<V>>, root: nat, d: nat, seed: Option<V>, c: nat, e: Wrapper, x: nat, s: nat)
    requires Forward(ns) && EntryAt(ns, root, d, c, e, x)
    requires e.leftBound <= s <= e.rightBound
    ensures StageValue(AbsAt(ns, root), d, seed, c + 1, s) ==
              OrElse(ns[e.node].value, StageValue(AbsAt(ns, root), d, seed, c, s))
  {
    SlotOwner(s, x, d - c);
    StageUp(AbsAt(ns, root), d, seed, c, s);
    WalkAbs(ns, root, NatToBits(x, c));
    CellView(ns, e.node);
  }

  /** No prefix lies strictly between two neighbours of an increasing list. */
  lemma {:induction false} NotListed(xs: seq<nat>, i: nat, y: nat)
    requires Increasing(xs) && i <= |xs|
    requires i > 0 ==> xs[i - 1] < y
    requires i < |xs| ==> y < xs[i]
    ensures y !in xs
  {
    forall j | 0 <= j < |xs| ensures xs[j] != y {
      if j < i {
        assert xs[j] <= xs[i - 1];
      } else {
        assert xs[i] <= xs[j];
      }
    }
  }

  /** The slots between two entries of a level belong to absent prefixes. */
  lemma {:induction false} GapSlot<V>(t: Trie<V>, d: nat, depths: seq<nat>, k: nat, seed: Option<V>, c: nat, xs: seq<nat>, i: nat, s: nat)
    requires c <= d && s < Pow2(d) && i <= |xs|
    requires Increasing(xs) && Covers(t, c, xs, Pow2(c))
    requires Done(xs, i, Pow2(d - c)) <= s
    requires i < |xs| ==> s < xs[i] * Pow2(d - c)
    ensures Stage(t, d, depths, k, seed, c + 1, s) == Stage(t, d, depths, k, seed, c, s)
  {
    var w := Pow2(d - c);
    var y := Shr(s, d - c);
    ShrIsDiv(s, d - c);
    PrefixInRange(s, c, d);
    if i > 0 {
      DivBounds(s, w, xs[i - 1] + 1);
    }
    if i < |xs| {
      DivBounds(s, w, xs[i]);
    }
    NotListed(xs, i, y);
    AbsentStage(t, d, depths, k, seed, c, s);
  }

  /** A child of an absent prefix is absent. */
  lemma {:induction false} AbsentChild<V>(t: Trie<V>, y: nat, c: nat)
    requires !Present(t, y / 2, c)
    ensures !Present(t, y, c + 1)
  {
    var p := NatToBits(y / 2, c);
    assert NatToBits(y, c + 1) == p + [y % 2 == 1];
    SubtreeAppend(t, p, [y % 2 == 1]);
  }

  /** The entry offered for child `b` of entry `e` stands for prefix
      `2x + b`, and the child is present only when the link exists. */
  lemma {:induction false} KidEntry<V>(ns: seq<Cell<V>>, root: nat, d: nat, c: nat, e: Wrapper, x: nat, b: bool)
    requires Forward(ns) && EntryAt(ns, root, d, c, e, x) && c < d
    ensures var mid := (e.leftBound + e.rightBound) / 2;
            var y := 2 * x + (if b then 1 else 0);
            Link(ns, e.node, b).Some? ==>
              EntryAt(ns, root, d, c + 1, if b then Wrapper(Link(ns, e.node, b).value, mid + 1, e.rightBound)
                                          else Wrapper(Link(ns, e.node, b).value, e.leftBound, mid), y)
    ensures Present(AbsAt(ns, root), 2 * x + (if b then 1 else 0), c + 1) ==> Link(ns, e.node, b).Some?
  {
    var h := Pow2(d - c - 1);
    assert Pow2(d - c) == 2 * h;
    MidSplit(x, h);
    var p := NatToBits(x, c);
    NatToBitsChild(x, c, b);
    WalkAbs(ns, root, p + [b]);
    WalkAppend(ns, root, p, b);
  }

  /** The entries offered for the children of entry `e` stand for `e`'s
      present children, and they are the only present children. */
  lemma {:induction false} KidEntries<V>(ns: seq<Cell<V>>, root: nat, d: nat, c: nat, e: Wrapper, x: nat)
    requires Forward(ns) && EntryAt(ns, root, d, c, e, x) && c < d
    ensures Queued(ns, root, d, c + 1, Kids(ns, e), KidXs(ns, e, x))
    ensures forall j :: 0 <= j < |KidXs(ns, e, x)| ==> 2 * x <= KidXs(ns, e, x)[j] < 2 * x + 2
    ensures Present(AbsAt(ns, root), 2 * x, c + 1) ==> 2 * x in KidXs(ns, e, x)
    ensures Present(AbsAt(ns, root), 2 * x + 1, c + 1) ==> 2 * x + 1 in KidXs(ns, e, x)
  {
    KidEntry(ns, root, d, c, e, x, false);
    KidEntry(ns, root, d, c, e, x, true);
    assert Link(ns, e.node, false) == ns[e.node].left && Link(ns, e.node, true) == ns[e.node].right;
  }

  // ---------------------------------------------------------------------
  // One entry, one level, the whole fill
  // ---------------------------------------------------------------------

  /** The first level holds the root alone, and nothing is painted yet. */
  lemma {:induction false} FirstLevel<V>(ns: seq<Cell<V>>, root: nat, d: nat, depths: seq<nat>, k: nat, seed: Option<V>, s: nat)
    requires root < |ns|
    ensures Queued(ns, root, d, 0, [Wrapper(root, 0, Pow2(d) - 1)], [0])
    ensures Covers(AbsAt(ns, root), 0, [0], Pow2(0))
    ensures Stage(AbsAt(ns, root), d, depths, k, seed, 0, s) == FNode(seed, None)
  {
    assert NatToBits(0, 0) == [];
  }

  /** Two ordered runs of entries, the second above the first. */
  lemma {:induction false} QueuedAppend<V>(ns: seq<Cell<V>>, root: nat, d: nat, c: nat, q1: seq<Wrapper>, x1: seq<nat>,
                        q2: seq<Wrapper>, x2: seq<nat>, bound: nat)
    requires Queued(ns, root, d, c, q1, x1) && Queued(ns, root, d, c, q2, x2)
    requires forall j :: 0 <= j < |x1| ==> x1[j] < bound
    requires forall j :: 0 <= j < |x2| ==> bound <= x2[j]
    ensures Queued(ns, root, d, c, q1 + q2, x1 + x2)
  {
    var q, xs := q1 + q2, x1 + x2;
    forall j | 0 <= j < |q| ensures EntryAt(ns, root, d, c, q[j], xs[j]) {
      if j < |q1| {
        assert q[j] == q1[j] && xs[j] == x1[j];
      } else {
        assert q[j] == q2[j - |q1|] && xs[j] == x2[j - |x1|];
      }
    }
  }

  /** A prefix of the next length whose parent lies strictly between two
      neighbouring entries is absent. */
  lemma {:induction false} FarChild<V>(t: Trie<V>, c: nat, xs: seq<nat>, i: nat, y: nat)
    requires Increasing(xs) && Covers(t, c, xs, Pow2(c)) && i < |xs|
    requires 2 * xs[i] + 2 <= y < 2 * NextX(xs, i + 1, c) && NextX(xs, i + 1, c) <= Pow2(c)
    ensures !Present(t, y, c + 1)
  {
    var z := y / 2;
    assert 2 * z <= y < 2 * z + 2;
    NotListed(xs, i + 1, z);
    AbsentChild(t, y, c);
  }

  /** The listing of the next level grows by the children of entry `i`. */
  lemma {:induction false} CoversStep<V>(t: Trie<V>, c: nat, xs: seq<nat>, i: nat, pxs: seq<nat>, kx: seq<nat>)
    requires Increasing(xs) && Covers(t, c, xs, Pow2(c)) && i < |xs|
    requires forall j :: 0 <= j < |xs| ==> xs[j] < Pow2(c)
    requires Covers(t, c + 1, pxs, 2 * xs[i])
    requires Present(t, 2 * xs[i], c + 1) ==> 2 * xs[i] in kx
    requires Present(t, 2 * xs[i] + 1, c + 1) ==> 2 * xs[i] + 1 in kx
    ensures Covers(t, c + 1, pxs + kx, 2 * NextX(xs, i + 1, c))
  {
    var x, nx := xs[i], NextX(xs, i + 1, c);
    if i + 1 < |xs| {
      assert x < xs[i + 1];
    }
    forall y | 0 <= y < 2 * nx && y !in pxs + kx ensures !Present(t, y, c + 1) {
      if y < 2 * x {
        assert y !in pxs;
      } else if y == 2 * x {
        assert y !in kx;
      } else if y == 2 * x + 1 {
        assert y !in kx;
      } else {
        FarChild(t, c, xs, i, y);
      }
    }
  }

  /** Before the first entry of a level nothing of the next length is
      present. */
  lemma {:induction false} NothingBefore<V>(t: Trie<V>, c: nat, xs: seq<nat>)
    requires Increasing(xs) && Covers(t, c, xs, Pow2(c))
    requires |xs| > 0 ==> xs[0] < Pow2(c)
    ensures Covers(t, c + 1, [], 2 * NextX(xs, 0, c))
  {
    var c1 := c + 1;
    forall y | 0 <= y < 2 * NextX(xs, 0, c) ensures !Present(t, y, c1) {
      var z := y / 2;
      assert 2 * z <= y < 2 * z + 2;
      NotListed(xs, 0, z);
      AbsentChild(t, y, c);
    }
  }

  /** Processing entry `i` offers its children: the entries of the next
      level stay ordered, and every present prefix of the next length below
      the next entry's children is listed. */
  lemma {:induction false} PushStep<V>(ns: seq<Cell<V>>, root: nat, d: nat, c: nat, level: seq<Wrapper>, xs: seq<nat>, i: nat,
                    pushed: seq<Wrapper>, pxs: seq<nat>)
    requires Forward(ns) && c < d
    requires Queued(ns, root, d, c, level, xs) && Covers(AbsAt(ns, root), c, xs, Pow2(c)) && i < |xs|
    requires Queued(ns, root, d, c + 1, pushed, pxs)
    requires Covers(AbsAt(ns, root), c + 1, pxs, 2 * NextX(xs, i, c))
    requires forall j :: 0 <= j < |pxs| ==> pxs[j] < 2 * NextX(xs, i, c)
    ensures Queued(ns, root, d, c + 1, pushed + Kids(ns, level[i]), pxs + KidXs(ns, level[i], xs[i]))
    ensures Covers(AbsAt(ns, root), c + 1, pxs + KidXs(ns, level[i], xs[i]), 2 * NextX(xs, i + 1, c))
    ensures forall j :: 0 <= j < |pxs + KidXs(ns, level[i], xs[i])| ==>
              (pxs + KidXs(ns, level[i], xs[i]))[j] < 2 * NextX(xs, i + 1, c)
  {
    var e, x := level[i], xs[i];
    assert EntryAt(ns, root, d, c, e, x);
    KidEntries(ns, root, d, c, e, x);
    NextAbove(ns, root, d, c, level, xs, i);
    QueuedAppend(ns, root, d, c + 1, pushed, pxs, Kids(ns, e), KidXs(ns, e, x), 2 * x);
    CoversStep(AbsAt(ns, root), c, xs, i, pxs, KidXs(ns, e, x));
  }

  /** The entries of a level stand for prefixes of that length, and the next
      one lies above entry `i`. */
  lemma {:induction false} NextAbove<V>(ns: seq<Cell<V>>, root: nat, d: nat, c: nat, level: seq<Wrapper>, xs: seq<nat>, i: nat)
    requires Queued(ns, root, d, c, level, xs) && i < |xs|
    ensures forall j :: 0 <= j < |xs| ==> xs[j] < Pow2(c)
    ensures xs[i] < NextX(xs, i + 1, c)
  {
    forall j | 0 <= j < |xs| ensures xs[j] < Pow2(c) {
      assert EntryAt(ns, root, d, c, level[j], xs[j]);
    }
    if i + 1 < |xs| {
      assert xs[i] < xs[i + 1];
    }
  }

  /** The slots from the end of entry `i - 1` up to `hi` (below entry
      `i`) belong to absent prefixes. */
  lemma {:induction false} GapRange<V>(t: Trie<V>, d: nat, depths: seq<nat>, k: nat, seed: Option<V>, c: nat,
                                       xs: seq<nat>, i: nat, hi: nat)
    requires c <= d && i <= |xs| && hi <= Pow2(d)
    requires Increasing(xs) && Covers(t, c, xs, Pow2(c))
    requires i < |xs| ==> hi <= xs[i] * Pow2(d - c)
    ensures forall s :: Done(xs, i, Pow2(d - c)) <= s < hi ==>
              Stage(t, d, depths, k, seed, c + 1, s) == Stage(t, d, depths, k, seed, c, s)
  {
    forall s | Done(xs, i, Pow2(d - c)) <= s < hi
      ensures Stage(t, d, depths, k, seed, c + 1, s) == Stage(t, d, depths, k, seed, c, s)
    {
      GapSlot(t, d, depths, k, seed, c, xs, i, s);
    }
  }

  /** Where entry `i`'s range lies relative to the slots already done. */
  lemma {:induction false} EntryRange<V>(ns: seq<Cell<V>>, root: nat, d: nat, c: nat, level: seq<Wrapper>, xs: seq<nat>, i: nat)
    requires Queued(ns, root, d, c, level, xs) && i < |xs|
    ensures c <= d
    ensures Done(xs, i, Pow2(d - c)) <= level[i].leftBound <= level[i].rightBound
    ensures Done(xs, i + 1, Pow2(d - c)) == level[i].rightBound + 1
    ensures level[i].rightBound < Pow2(d)
  {
    var w := Pow2(d - c);
    var x := xs[i];
    assert EntryAt(ns, root, d, c, level[i], x);
    if i > 0 {
      assert xs[i - 1] < x;
      MulLe(xs[i - 1] + 1, x, w);
    }
    assert (x + 1) * w == x * w + w;
    RangeInTable(x, c, d);
  }

  /** Entry `i` done: its slots are at the next stage, and so are the
      absent slots between it and the entry before. */
  lemma {:induction false} EntryDone<V>(ns: seq<Cell<V>>, root: nat, d: nat, depths: seq<nat>, k: nat, seed: Option<V>, c: nat,
                     level: seq<Wrapper>, xs: seq<nat>, i: nat, before: seq<FNode<V>>, after: seq<FNode<V>>)
    requires Queued(ns, root, d, c, level, xs) && Covers(AbsAt(ns, root), c, xs, Pow2(c)) && i < |xs|
    requires Split(AbsAt(ns, root), d, depths, k, seed, before, c, Done(xs, i, Pow2(d - c)))
    requires |after| == |before|
    requires forall s :: 0 <= s < |after| ==>
               after[s] == if level[i].leftBound <= s <= level[i].rightBound
                           then Stage(AbsAt(ns, root), d, depths, k, seed, c + 1, s) else before[s]
    ensures Split(AbsAt(ns, root), d, depths, k, seed, after, c, Done(xs, i + 1, Pow2(d - c)))
  {
    EntryRange(ns, root, d, c, level, xs, i);
    assert EntryAt(ns, root, d, c, level[i], xs[i]);
    GapRange(AbsAt(ns, root), d, depths, k, seed, c, xs, i, level[i].leftBound);
  }

  /** Level done: past the last entry every slot is absent too. */
  lemma {:induction false} LevelDone<V>(ns: seq<Cell<V>>, root: nat, d: nat, depths: seq<nat>, k: nat, seed: Option<V>, c: nat,
                     xs: seq<nat>, table: seq<FNode<V>>)
    requires c <= d && Increasing(xs) && Covers(AbsAt(ns, root), c, xs, Pow2(c))
    requires Split(AbsAt(ns, root), d, depths, k, seed, table, c, Done(xs, |xs|, Pow2(d - c)))
    ensures forall s :: 0 <= s < |table| ==> table[s] == Stage(AbsAt(ns, root), d, depths, k, seed, c + 1, s)
  {
    GapRange(AbsAt(ns, root), d, depths, k, seed, c, xs, |xs|, Pow2(d));
  }

  /** The queue ran empty before level `c`: the table is the fill. */
  lemma {:induction false} FillDone<V>(t: Trie<V>, d: nat, depths: seq<nat>, k: nat, seed: Option<V>, c: nat, table: seq<FNode<V>>)
    requires c <= d + 1 && |table| == Pow2(d)
    requires forall s :: 0 <= s < |table| ==> table[s] == Stage(t, d, depths, k, seed, c, s)
    requires c <= d ==> Covers(t, c, [], Pow2(c))
    ensures Fpa(table, d) == FillSpec(t, d, depths, k, seed)
  {
    var f := FillSpec(t, d, depths, k, seed);
    forall s | 0 <= s < |table| ensures table[s] == f.table[s] {
      if c <= d {
        PrefixInRange(s, c, d);
        AbsentFinal(t, d, depths, k, seed, c, s);
      }
    }
  }

  /** Painting entry `i` (when its cell has a value) puts its slots at the
      next stage's value and leaves every other slot alone. */
  lemma {:induction false} PaintedEntry<V>(ns: seq<Cell<V>>, root: nat, d: nat, depths: seq<nat>, k: nat, seed: Option<V>,
                                           c: nat, e: Wrapper, x: nat, before: seq<FNode<V>>, after: seq<FNode<V>>)
    requires Forward(ns) && EntryAt(ns, root, d, c, e, x)
    requires forall s :: e.leftBound <= s <= e.rightBound && s < |before| ==>
               before[s] == Stage(AbsAt(ns, root), d, depths, k, seed, c, s)
    requires |after| == |before|
    requires forall s :: 0 <= s < |after| ==>
               after[s] == if e.leftBound <= s <= e.rightBound && ns[e.node].value.Some?
                           then FNode(ns[e.node].value, None) else before[s]
    ensures forall s :: 0 <= s < |after| ==>
              after[s] == if e.leftBound <= s <= e.rightBound
                          then FNode(StageValue(AbsAt(ns, root), d, seed, c + 1, s), None) else before[s]
    ensures c < d ==> forall s :: 0 <= s < |after| ==>
              after[s] == if e.leftBound <= s <= e.rightBound
                          then Stage(AbsAt(ns, root), d, depths, k, seed, c + 1, s) else before[s]
  {
    forall s | 0 <= s < |after| && e.leftBound <= s <= e.rightBound
      ensures after[s] == FNode(StageValue(AbsAt(ns, root), d, seed, c + 1, s), None)
    {
      EntryStages(ns, root, d, seed, c, e, x, s);
    }
  }

  /** At the last level an entry covers one slot, whose final content is
      its painted value with a nested array when the cell has children and
      the plan goes on. */
  lemma {:induction false} LastEntry<V>(ns: seq<Cell<V>>, root: nat, d: nat, depths: seq<nat>, k: nat, seed: Option<V>,
                                        e: Wrapper, x: nat)
    requires Forward(ns) && EntryAt(ns, root, d, d, e, x)
    ensures e.leftBound == e.rightBound == x
    ensures var v := StageValue(AbsAt(ns, root), d, seed, d + 1, x);
            Stage(AbsAt(ns, root), d, depths, k, seed, d + 1, x) ==
              if (ns[e.node].left.Some? || ns[e.node].right.Some?) && k < |depths|
              then FNode(v, Some(FillSpec(AbsAt(ns, e.node), depths[k], depths, k + 1, v)))
              else FNode(v, None)
  {
    assert Pow2(0) == 1;
    LastStage(AbsAt(ns, root), d, depths, k, seed, x);
    WalkAbs(ns, root, NatToBits(x, d));
    CellView(ns, e.node);
  }

  // ---------------------------------------------------------------------
  // One round of the outer loop
  // ---------------------------------------------------------------------

  /** The state of a round after `i` of the level's entries: the queue holds
      the rest of the level and then the children offered so far, which
      stand, in order, for every present prefix of the next length below the
      children of the next entry; the table is at the next stage up to the
      end of entry `i - 1`. */
  ghost predicate Round<V>(ns: seq<Cell<V>>, root: nat, d: nat, depths: seq<nat>, k: nat, seed: Option<V>, c: nat,
                           level: seq<Wrapper>, xs: seq<nat>, i: nat,
                           table: seq<FNode<V>>, queue: seq<Wrapper>, pushed: seq<Wrapper>, pxs: seq<nat>)
  {
    c <= d && i <= |level| == |xs| && queue == level[i..] + pushed &&
    Split(AbsAt(ns, root), d, depths, k, seed, table, c, Done(xs, i, Pow2(d - c))) &&
    (c < d ==>
       Queued(ns, root, d, c + 1, pushed, pxs) && Covers(AbsAt(ns, root), c + 1, pxs, 2 * NextX(xs, i, c)) &&
       forall j :: 0 <= j < |pxs| ==> pxs[j] < 2 * NextX(xs, i, c)) &&
    (c == d ==> pushed == [])
  }

  lemma {:induction false} RoundStart<V>(ns: seq<Cell<V>>, root: nat, d: nat, depths: seq<nat>, k: nat, seed: Option<V>,
                                         c: nat, level: seq<Wrapper>, xs: seq<nat>, table: seq<FNode<V>>)
    requires c <= d && Queued(ns, root, d, c, level, xs) && Covers(AbsAt(ns, root), c, xs, Pow2(c))
    requires |table| == Pow2(d)
    requires forall s :: 0 <= s < |table| ==> table[s] == Stage(AbsAt(ns, root), d, depths, k, seed, c, s)
    ensures Round(ns, root, d, depths, k, seed, c, level, xs, 0, table, level, [], [])
  {
    assert level[0..] + [] == level;
    if c < d && |xs| > 0 {
      assert EntryAt(ns, root, d, c, level[0], xs[0]);
      NothingBefore(AbsAt(ns, root), c, xs);
    }
    if c < d && |xs| == 0 {
      NothingBefore(AbsAt(ns, root), c, xs);
    }
  }

  /** The next entry to leave the queue is entry `i` of the level, and its
      slots are still at stage `c`. */
  lemma {:induction false} RoundNext<V>(ns: seq<Cell<V>>, root: nat, d: nat, depths: seq<nat>, k: nat, seed: Option<V>,
                                        c: nat, level: seq<Wrapper>, xs: seq<nat>, i: nat,
                                        table: seq<FNode<V>>, queue: seq<Wrapper>, pushed: seq<Wrapper>, pxs: seq<nat>)
    requires Queued(ns, root, d, c, level, xs) && i < |level|
    requires Round(ns, root, d, depths, k, seed, c, level, xs, i, table, queue, pushed, pxs)
    ensures |queue| > 0 && queue[0] == level[i] && queue[1..] == level[i + 1..] + pushed
    ensures EntryAt(ns, root, d, c, level[i], xs[i]) && |table| == Pow2(d)
    ensures forall s :: level[i].leftBound <= s <= level[i].rightBound && s < |table| ==>
              table[s] == Stage(AbsAt(ns, root), d, depths, k, seed, c, s)
  {
    assert queue[1..] == level[i + 1..] + pushed;
    EntryRange(ns, root, d, c, level, xs, i);
  }

  /** Entry `i` processed: the round goes on with `i + 1`. */
  lemma {:induction false} RoundStep<V>(ns: seq<Cell<V>>, root: nat, d: nat, depths: seq<nat>, k: nat, seed: Option<V>,
                                        c: nat, level: seq<Wrapper>, xs: seq<nat>, i: nat,
                                        table: seq<FNode<V>>, queue: seq<Wrapper>, pushed: seq<Wrapper>, pxs: seq<nat>,
                                        table': seq<FNode<V>>, queue': seq<Wrapper>, pushed': seq<Wrapper>, pxs': seq<nat>)
    requires Forward(ns) && Queued(ns, root, d, c, level, xs) && Covers(AbsAt(ns, root), c, xs, Pow2(c)) && i < |level|
    requires pushed' == pushed + (if c < d then Kids(ns, level[i]) else [])
    requires pxs' == pxs + (if c < d then KidXs(ns, level[i], xs[i]) else [])
    requires Round(ns, root, d, depths, k, seed, c, level, xs, i, table, queue, pushed, pxs)
    requires queue' == queue[1..] + if c < d then Kids(ns, level[i]) else []
    requires |table'| == |table|
    requires forall s :: 0 <= s < |table| ==>
               table'[s] == if level[i].leftBound <= s <= level[i].rightBound
                            then Stage(AbsAt(ns, root), d, depths, k, seed, c + 1, s) else table[s]
    ensures Round(ns, root, d, depths, k, seed, c, level, xs, i + 1, table', queue', pushed', pxs')
  {
    assert queue[1..] == level[i + 1..] + pushed;
    if c < d {
      PushStep(ns, root, d, c, level, xs, i, pushed, pxs);
    }
    EntryDone(ns, root, d, depths, k, seed, c, level, xs, i, table, table');
  }

  /** Round over: the table is at the next stage and the queue holds the
      next level. */
  lemma {:induction false} RoundEnd<V>(ns: seq<Cell<V>>, root: nat, d: nat, depths: seq<nat>, k: nat, seed: Option<V>,
                                       c: nat, level: seq<Wrapper>, xs: seq<nat>,
                                       table: seq<FNode<V>>, queue: seq<Wrapper>, pushed: seq<Wrapper>, pxs: seq<nat>)
    requires Queued(ns, root, d, c, level, xs) && Covers(AbsAt(ns, root), c, xs, Pow2(c))
    requires Round(ns, root, d, depths, k, seed, c, level, xs, |level|, table, queue, pushed, pxs)
    ensures |table| == Pow2(d)
    ensures forall s :: 0 <= s < |table| ==> table[s] == Stage(AbsAt(ns, root), d, depths, k, seed, c + 1, s)
    ensures c < d ==> Queued(ns, root, d, c + 1, queue, pxs) && Covers(AbsAt(ns, root), c + 1, pxs, Pow2(c + 1))
    ensures c == d ==> queue == []
  {
    LevelDone(ns, root, d, depths, k, seed, c, xs, table);
    assert level[|level|..] == [];
    assert Pow2(c + 1) == 2 * NextX(xs, |level|, c);
  }
}

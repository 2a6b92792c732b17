/** `TrieToFPAConverter` (both generations): lays a prefix trie out as a
    chain of forwarding port arrays. A level of depth `D` covers the next `D`
    bits of the key with `2^D` slots; the trie's nodes down to depth `D` are
    visited level by level, each valued node painting the slot range its
    prefix covers (deeper nodes overwrite shallower ones), and a node at
    depth `D` that still has children gets a nested array for the following
    level of the depth plan, filled from that node onwards.

    `FillSpec` states, slot by slot, what a fill produces; `WalkFillSpec`
    proves that searching the arrays it describes is the longest prefix
    match of the trie; `FillLevel` is the breadth-first fill proved to build
    exactly `FillSpec`. */
module Converters {
  import opened Wrappers
  import opened Bits
  import opened Tries
  import opened BitTries
  import opened Fpas
  import opened FillSpecs
  import opened FillStages

  // ---------------------------------------------------------------------
  // Depth plans
  // ---------------------------------------------------------------------

  /** `IP_TYPE`: the two depth plans of the newer converter. */
  datatype IpType = Ipv4 | Ipv6

  /** `IP_TYPE.getIpDepths()`: 16 bits, then 8-bit levels. */
  function IpDepths(ipType: IpType): (r: seq<nat>)
    ensures |r| > 0 && Positive(r) && DepthsFit(r)
    ensures r[0] == 16 && forall i :: 1 <= i < |r| ==> r[i] == 8
  {
    match ipType
    case Ipv4 => [16, 8, 8]
    case Ipv6 => [16, 8, 8, 8, 8, 8, 8, 8, 8, 8, 8, 8, 8, 8, 8]
  }

  /** The plans cover exactly an IPv4 and an IPv6 address. */
  lemma IpDepthsCoverAddress()
    ensures SumFrom(IpDepths(Ipv4), 0) == 32
    ensures SumFrom(IpDepths(Ipv6), 0) == 128
  {
    var v4, v6 := IpDepths(Ipv4), IpDepths(Ipv6);
    assert SumFrom(v4, 3) == 0;
    assert SumFrom(v4, 1) == 16;
    assert SumFrom(v6, 15) == 0;
    assert SumFrom(v6, 11) == 32;
    assert SumFrom(v6, 7) == 64;
    assert SumFrom(v6, 3) == 96;
  }

  // ---------------------------------------------------------------------
  // The fill
  // ---------------------------------------------------------------------

  /** `convert` of the newer converter: a first array of `2^depths[0]` slots
      sharing one empty node, filled from the trie's root with the rest of
      the plan. */
  method Convert<V>(trie: BitTries.BitTrie<V>, ipType: IpType) returns (fpa: Fpa<V>)
    requires trie.Valid()
    ensures fpa == FillSpec(trie.Abs(), IpDepths(ipType)[0], IpDepths(ipType), 1, None)
    ensures |fpa.table| == Pow2(16) && WellFormed(fpa)
  {
    var depths := IpDepths(ipType);
    var firstDepth := depths[0];
    var root := FNode(None, None);
    fpa := NewFpa(root, firstDepth);
    fpa := FillLevel(trie.nodes, 0, fpa, firstDepth, depths, 1, None);
    FillSpecWellFormed(trie.Abs(), firstDepth, depths, 1, None);
  }

  /** Why the older converter refuses to run. */
  datatype ConvertError = EmptyDepths

  /** `convert` of the older converter: the same fill over a caller-chosen
      plan, refused when the plan is empty. Its closing `compactTable()` is
      taken to leave the arrays as they are. */
  method ConvertWith<V>(trie: BitTries.BitTrie<V>, depths: seq<nat>) returns (r: Result<Fpa<V>, ConvertError>)
    requires trie.Valid() && DepthsFit(depths)
    ensures |depths| == 0 <==> r.Err?
    ensures r.Err? ==> r.error == EmptyDepths
    ensures r.Ok? ==> r.value == FillSpec(trie.Abs(), depths[0], depths, 1, None) &&
                      |r.value.table| == Pow2(depths[0]) && WellFormed(r.value)
  {
    if |depths| == 0 {
      return Err(EmptyDepths);
    }
    var firstDepth := depths[0];
    var root := FNode(None, None);
    var fpa := NewFpa(root, firstDepth);
    fpa := FillLevel(trie.nodes, 0, fpa, firstDepth, depths, 1, None);
    FillSpecWellFormed(trie.Abs(), firstDepth, depths, 1, None);
    return Ok(fpa);
  }

  /** Converting and then searching gives the trie's longest match, for a
      key that covers every level of the plan and a trie holding no route
      longer than the plan covers. */
  lemma ConvertedSearchIsLpm<V>(t: Trie<V>, depths: seq<nat>, key: seq<Byte>)
    requires |depths| > 0 && Positive(depths)
    requires SumFrom(depths, 0) <= 8 * |key| && Bounded(t, SumFrom(depths, 0))
    ensures Walk(FillSpec(t, depths[0], depths, 1, None), BytesToBits(key), 0, None) == Ok(Lpm(t, BytesToBits(key)))
  {
    var bits := BytesToBits(key);
    WalkFillSpec(t, depths[0], depths, 1, None, bits, 0, None);
    assert bits[0..] == bits;
  }

  /** Converting a trie without routes: every slot of the 65536 is empty. */
  lemma ConvertEmpty<V>(depths: seq<nat>)
    requires |depths| > 0 && depths[0] == 16
    ensures var f := FillSpec(Empty<V>(), depths[0], depths, 1, None);
            |f.table| == 65536 && forall s :: 0 <= s < |f.table| ==> f.table[s] == FNode(None, None)
  {
    var f := FillSpec(Empty<V>(), 16, depths, 1, None);
    assert Pow2(16) == 65536 by {
      Pow2Add(8, 8);
      assert Pow2(8) == 256;
    }
    forall s | 0 <= s < |f.table| ensures f.table[s] == FNode(None, None) {
      assert f.table[s] == SlotSpec(Empty<V>(), 16, depths, 1, None, s);
      var path := NatToBits(s, 16);
      EmptyAlongPath<V>(path);
    }
  }

  /** Below the root of an empty trie there is nothing. */
  lemma EmptyAlongPath<V>(path: seq<bool>)
    requires |path| > 0
    ensures Lpm(Empty<V>(), path) == None && !HasChild(Subtree(Empty<V>(), path))
  {
    SubtreeNil<V>(path[1..]);
    assert Subtree(Empty<V>(), path) == Subtree(Nil, path[1..]);
  }

  /** The paint loop of `fillLevel`: slots `lb..rb` get `node`. */
  method Paint<V>(table: seq<FNode<V>>, lb: nat, rb: nat, node: FNode<V>) returns (painted: seq<FNode<V>>)
    requires rb < |table|
    ensures |painted| == |table|
    ensures forall s :: 0 <= s < |table| ==> painted[s] == if lb <= s <= rb then node else table[s]
  {
    painted := table;
    var j := lb;
    while j <= rb
      invariant lb <= j <= rb + 1 || (j == lb && lb > rb)
      invariant |painted| == |table|
      invariant forall s :: 0 <= s < |table| ==> painted[s] == if lb <= s < j then node else table[s]
    {
      painted := painted[j := node];
      j := j + 1;
    }
  }

  /** `fillLevel`: breadth-first over the trie below cell `trieNode`, down
      to depth `depth`, one level of the trie per round. `seed` is the value
      every slot of `fpa` starts with. */
  method FillLevel<V>(ns: seq<Cell<V>>, trieNode: nat, fpa: Fpa<V>, depth: nat, depths: seq<nat>,
                      nextDepthIndex: nat, ghost seed: Option<V>)
    returns (filled: Fpa<V>)
    requires Forward(ns) && trieNode < |ns|
    requires depth <= MaxDepth && DepthsFit(depths)
    requires fpa.depth == depth && |fpa.table| == Pow2(depth)
    requires forall s :: 0 <= s < |fpa.table| ==> fpa.table[s] == FNode(seed, None)
    ensures filled == FillSpec(AbsAt(ns, trieNode), depth, depths, nextDepthIndex, seed)
    decreases |depths| - nextDepthIndex, 4
  {
    ghost var t := AbsAt(ns, trieNode);
    var table := fpa.table;
    var maxIndex := Pow2(depth) - 1;
    var queue := [Wrapper(trieNode, 0, maxIndex)];
    ghost var xs: seq<nat> := [0];
    var currentDepth := 0;
    forall s | 0 <= s < |table| ensures table[s] == Stage(t, depth, depths, nextDepthIndex, seed, 0, s) {
      FirstLevel(ns, trieNode, depth, depths, nextDepthIndex, seed, s);
    }
    FirstLevel(ns, trieNode, depth, depths, nextDepthIndex, seed, 0);
    while |queue| > 0
      invariant currentDepth <= depth + 1 && |table| == Pow2(depth)
      invariant forall s :: 0 <= s < |table| ==> table[s] == Stage(t, depth, depths, nextDepthIndex, seed, currentDepth, s)
      invariant currentDepth <= depth ==>
                  Queued(ns, trieNode, depth, currentDepth, queue, xs) && Covers(t, currentDepth, xs, Pow2(currentDepth))
      invariant currentDepth == depth + 1 ==> queue == []
      decreases depth + 1 - currentDepth
    {
      table, queue, xs := VisitLevel(ns, trieNode, depth, depths, nextDepthIndex, seed, currentDepth, table, queue, xs);
      currentDepth := currentDepth + 1;
    }
    FillDone(t, depth, depths, nextDepthIndex, seed, currentDepth, table);
    filled := Fpa(table, depth);
  }

  /** One round of `fillLevel`'s outer loop: the `levelSize` entries of the
      current level leave the queue in order, their children join it, and
      the table moves to the next stage. */
  method VisitLevel<V>(ns: seq<Cell<V>>, trieNode: nat, depth: nat, depths: seq<nat>, nextDepthIndex: nat,
                       ghost seed: Option<V>, currentDepth: nat, table: seq<FNode<V>>, queue: seq<Wrapper>,
                       ghost xs: seq<nat>)
    returns (table': seq<FNode<V>>, queue': seq<Wrapper>, ghost xs': seq<nat>)
    requires Forward(ns) && depth <= MaxDepth && DepthsFit(depths) && currentDepth <= depth
    requires Queued(ns, trieNode, depth, currentDepth, queue, xs)
    requires Covers(AbsAt(ns, trieNode), currentDepth, xs, Pow2(currentDepth))
    requires |table| == Pow2(depth)
    requires forall s :: 0 <= s < |table| ==>
               table[s] == Stage(AbsAt(ns, trieNode), depth, depths, nextDepthIndex, seed, currentDepth, s)
    ensures |table'| == |table|
    ensures forall s :: 0 <= s < |table'| ==>
              table'[s] == Stage(AbsAt(ns, trieNode), depth, depths, nextDepthIndex, seed, currentDepth + 1, s)
    ensures currentDepth < depth ==>
              Queued(ns, trieNode, depth, currentDepth + 1, queue', xs') &&
              Covers(AbsAt(ns, trieNode), currentDepth + 1, xs', Pow2(currentDepth + 1))
    ensures currentDepth == depth ==> queue' == []
    decreases |depths| - nextDepthIndex, 3
  {
    table', queue' := table, queue;
    var levelSize := |queue|;
    ghost var pushed: seq<Wrapper> := [];
    xs' := [];
    RoundStart(ns, trieNode, depth, depths, nextDepthIndex, seed, currentDepth, queue, xs, table);
    var i := 0;
    while i < levelSize
      invariant Round(ns, trieNode, depth, depths, nextDepthIndex, seed, currentDepth, queue, xs, i, table', queue', pushed, xs')
    {
      table', queue', pushed, xs' :=
        VisitNext(ns, trieNode, depth, depths, nextDepthIndex, seed, currentDepth, queue, xs, i, table', queue', pushed, xs');
      i := i + 1;
    }
    RoundEnd(ns, trieNode, depth, depths, nextDepthIndex, seed, currentDepth, queue, xs, table', queue', pushed, xs');
  }

  /** One turn of `fillLevel`'s inner loop: poll the `i`-th entry of the
      level and visit it. */
  method VisitNext<V>(ns: seq<Cell<V>>, trieNode: nat, depth: nat, depths: seq<nat>, nextDepthIndex: nat,
                      ghost seed: Option<V>, currentDepth: nat, ghost level: seq<Wrapper>, ghost xs: seq<nat>,
                      ghost i: nat, table: seq<FNode<V>>, queue: seq<Wrapper>,
                      ghost pushed: seq<Wrapper>, ghost pxs: seq<nat>)
    returns (table': seq<FNode<V>>, queue': seq<Wrapper>, ghost pushed': seq<Wrapper>, ghost pxs': seq<nat>)
    requires Forward(ns) && depth <= MaxDepth && DepthsFit(depths)
    requires Queued(ns, trieNode, depth, currentDepth, level, xs)
    requires Covers(AbsAt(ns, trieNode), currentDepth, xs, Pow2(currentDepth)) && i < |level|
    requires Round(ns, trieNode, depth, depths, nextDepthIndex, seed, currentDepth, level, xs, i, table, queue, pushed, pxs)
    ensures Round(ns, trieNode, depth, depths, nextDepthIndex, seed, currentDepth, level, xs, i + 1, table', queue', pushed', pxs')
    decreases |depths| - nextDepthIndex, 2
  {
    RoundNext(ns, trieNode, depth, depths, nextDepthIndex, seed, currentDepth, level, xs, i, table, queue, pushed, pxs);
    var currentNode := queue[0];
    table', queue' := Visit(ns, trieNode, depth, depths, nextDepthIndex, seed, currentDepth, table, queue[1..], currentNode, xs[i]);
    pushed' := pushed + (if currentDepth < depth then Kids(ns, level[i]) else []);
    pxs' := pxs + (if currentDepth < depth then KidXs(ns, level[i], xs[i]) else []);
    RoundStep(ns, trieNode, depth, depths, nextDepthIndex, seed, currentDepth, level, xs, i,
              table, queue, pushed, pxs, table', queue', pushed', pxs');
  }

  /** The body of `fillLevel`'s inner loop for one entry: offer its children
      (above the last level), paint its range when its cell has a value,
      and at the last level give its slot a nested array, filled
      recursively, when its cell has children and the plan has another
      level. The entry's range ends at the next stage; the rest of the table
      is untouched. */
  method Visit<V>(ns: seq<Cell<V>>, trieNode: nat, depth: nat, depths: seq<nat>, nextDepthIndex: nat,
                  ghost seed: Option<V>, currentDepth: nat, table: seq<FNode<V>>, queue: seq<Wrapper>,
                  currentNode: Wrapper, ghost x: nat)
    returns (table': seq<FNode<V>>, queue': seq<Wrapper>)
    requires Forward(ns) && depth <= MaxDepth && DepthsFit(depths)
    requires EntryAt(ns, trieNode, depth, currentDepth, currentNode, x)
    requires |table| == Pow2(depth)
    requires forall s :: currentNode.leftBound <= s <= currentNode.rightBound && s < |table| ==>
               table[s] == Stage(AbsAt(ns, trieNode), depth, depths, nextDepthIndex, seed, currentDepth, s)
    ensures queue' == queue + if currentDepth < depth then Kids(ns, currentNode) else []
    ensures |table'| == |table|
    ensures forall s :: 0 <= s < |table| ==>
              table'[s] == if currentNode.leftBound <= s <= currentNode.rightBound
                           then Stage(AbsAt(ns, trieNode), depth, depths, nextDepthIndex, seed, currentDepth + 1, s)
                           else table[s]
    decreases |depths| - nextDepthIndex, 1
  {
    queue' := OfferKids(ns, currentDepth, depth, queue, currentNode);
    table' := PaintEntry(ns, trieNode, depth, depths, nextDepthIndex, seed, currentDepth, table, currentNode, x);
    if currentDepth == depth {
      table' := NestLast(ns, trieNode, depth, depths, nextDepthIndex, seed, table', currentNode, x);
    }
  }

  /** Above the last level, offer the entry's children, left first. */
  method OfferKids<V>(ns: seq<Cell<V>>, currentDepth: nat, depth: nat, queue: seq<Wrapper>, currentNode: Wrapper)
    returns (queue': seq<Wrapper>)
    requires currentNode.node < |ns|
    ensures queue' == queue + if currentDepth < depth then Kids(ns, currentNode) else []
  {
    queue' := queue;
    var cell := ns[currentNode.node];
    if currentDepth < depth {
      var mid := (currentNode.leftBound + currentNode.rightBound) / 2;
      if cell.left.Some? {
        queue' := queue' + [Wrapper(cell.left.value, currentNode.leftBound, mid)];
      }
      if cell.right.Some? {
        queue' := queue' + [Wrapper(cell.right.value, mid + 1, currentNode.rightBound)];
      }
    }
  }

  /** Paint the entry's range with its cell's value when it has one: the
      range reaches the next stage's value and nothing else changes. */
  method PaintEntry<V>(ns: seq<Cell<V>>, trieNode: nat, depth: nat, depths: seq<nat>, nextDepthIndex: nat,
                       ghost seed: Option<V>, currentDepth: nat, table: seq<FNode<V>>, currentNode: Wrapper, ghost x: nat)
    returns (table': seq<FNode<V>>)
    requires Forward(ns) && EntryAt(ns, trieNode, depth, currentDepth, currentNode, x) && |table| == Pow2(depth)
    requires forall s :: currentNode.leftBound <= s <= currentNode.rightBound && s < |table| ==>
               table[s] == Stage(AbsAt(ns, trieNode), depth, depths, nextDepthIndex, seed, currentDepth, s)
    ensures |table'| == |table|
    ensures forall s :: 0 <= s < |table'| ==>
              table'[s] == if currentNode.leftBound <= s <= currentNode.rightBound
                           then FNode(StageValue(AbsAt(ns, trieNode), depth, seed, currentDepth + 1, s), None) else table[s]
    ensures currentDepth < depth ==> forall s :: 0 <= s < |table'| ==>
              table'[s] == if currentNode.leftBound <= s <= currentNode.rightBound
                           then Stage(AbsAt(ns, trieNode), depth, depths, nextDepthIndex, seed, currentDepth + 1, s)
                           else table[s]
  {
    RangeInTable(x, currentDepth, depth);
    var cell := ns[currentNode.node];
    table' := table;
    if cell.value.Some? {
      table' := Paint(table', currentNode.leftBound, currentNode.rightBound, FNode(cell.value, None));
    }
    PaintedEntry(ns, trieNode, depth, depths, nextDepthIndex, seed, currentDepth, currentNode, x, table, table');
  }

  /** At the last level, give the entry's one slot a nested array, filled
      recursively, when its cell has children and the plan has another
      level. */
  method NestLast<V>(ns: seq<Cell<V>>, trieNode: nat, depth: nat, depths: seq<nat>, nextDepthIndex: nat,
                     ghost seed: Option<V>, table: seq<FNode<V>>, currentNode: Wrapper, ghost x: nat)
    returns (table': seq<FNode<V>>)
    requires Forward(ns) && depth <= MaxDepth && DepthsFit(depths)
    requires EntryAt(ns, trieNode, depth, depth, currentNode, x) && |table| == Pow2(depth)
    requires table[x] == FNode(StageValue(AbsAt(ns, trieNode), depth, seed, depth + 1, x), None)
    ensures |table'| == |table|
    ensures forall s :: 0 <= s < |table| ==>
              table'[s] == if s == x then Stage(AbsAt(ns, trieNode), depth, depths, nextDepthIndex, seed, depth + 1, x)
                           else table[s]
    decreases |depths| - nextDepthIndex, 0
  {
    LastEntry(ns, trieNode, depth, depths, nextDepthIndex, seed, currentNode, x);
    table' := table;
    var cell := ns[currentNode.node];
    if (cell.left.Some? || cell.right.Some?) && nextDepthIndex < |depths| {
      var node := table[currentNode.leftBound];
      var nextDepth := depths[nextDepthIndex];
      var nextFpa := NewFpa(FNode(node.value, None), nextDepth);
      nextFpa := FillLevel(ns, currentNode.node, nextFpa, nextDepth, depths, nextDepthIndex + 1, node.value);
      table' := table[currentNode.leftBound := FNode(node.value, Some(nextFpa))];
    }
  }
}

/** `BitTrie` as the mutable structure it is: the nodes live in an arena
    `nodes` (index 0 is `root`), and a child link is the arena index of the
    child. `put` appends nodes and rewrites links and values in place,
    `compress` nulls links in place. Every method is proved against the value
    model of module `Tries` through the abstraction `Abs()`. */
module BitTries {
  import opened Wrappers
  import opened Bits
  import opened Tries

  /** One `TrieNode`: its value (present iff `isLeaf`) and its child links. */
  datatype Cell<V> = Cell(value: Option<V>, left: Option<nat>, right: Option<nat>)

  function Link<V>(ns: seq<Cell<V>>, i: nat, b: bool): Option<nat>
    requires i < |ns|
  {
    if b then ns[i].right else ns[i].left
  }

  function SetLink<V>(c: Cell<V>, b: bool, k: nat): Cell<V> {
    if b then c.(right := Some(k)) else c.(left := Some(k))
  }

  /** Links point to later cells of the arena. */
  ghost predicate Forward<V>(ns: seq<Cell<V>>) {
    forall i, b :: 0 <= i < |ns| && Link(ns, i, b).Some? ==> i < Link(ns, i, b).value < |ns|
  }

  /** No cell is the child of two links: the linked cells form a tree. */
  ghost predicate UniqueParents<V>(ns: seq<Cell<V>>) {
    forall i, j, b, c :: 0 <= i < |ns| && 0 <= j < |ns| && Link(ns, i, b).Some? && Link(ns, i, b) == Link(ns, j, c) ==>
      i == j && b == c
  }

  ghost predicate WellLinked<V>(ns: seq<Cell<V>>) {
    |ns| > 0 && Forward(ns) && UniqueParents(ns)
  }

  /** The trie hanging from cell `i`. */
  ghost function AbsAt<V>(ns: seq<Cell<V>>, i: nat): Trie<V>
    decreases |ns| - i, 1
  {
    if i >= |ns| then Nil else Node(ns[i].value, AbsKid(ns, i, false), AbsKid(ns, i, true))
  }

  ghost function AbsKid<V>(ns: seq<Cell<V>>, i: nat, b: bool): Trie<V>
    requires i < |ns|
    decreases |ns| - i, 0
  {
    var k := Link(ns, i, b);
    if k.Some? && i < k.value then AbsAt(ns, k.value) else Nil
  }

  /** Cell `j` lies in the trie hanging from cell `i`. */
  ghost predicate Reaches<V>(ns: seq<Cell<V>>, i: nat, j: nat)
    decreases |ns| - i, 1
  {
    i == j || (i < |ns| && (KidReaches(ns, i, false, j) || KidReaches(ns, i, true, j)))
  }

  ghost predicate KidReaches<V>(ns: seq<Cell<V>>, i: nat, b: bool, j: nat)
    requires i < |ns|
    decreases |ns| - i, 0
  {
    var k := Link(ns, i, b);
    k.Some? && i < k.value && Reaches(ns, k.value, j)
  }

  /** The cell reached from `i` along path `p`, if every link exists. */
  ghost function WalkIdx<V>(ns: seq<Cell<V>>, i: nat, p: seq<bool>): Option<nat>
    decreases |p|
  {
    if i >= |ns| then None
    else if |p| == 0 then Some(i)
    else
      var k := Link(ns, i, p[0]);
      if k.Some? then WalkIdx(ns, k.value, p[1..]) else None
  }

  lemma {:induction false} ReachesOrdered<V>(ns: seq<Cell<V>>, i: nat, j: nat)
    requires Forward(ns) && Reaches(ns, i, j)
    ensures i <= j
    decreases |ns| - i
  {
    if i != j {
      if KidReaches(ns, i, false, j) {
        ReachesOrdered(ns, Link(ns, i, false).value, j);
      } else {
        ReachesOrdered(ns, Link(ns, i, true).value, j);
      }
    }
  }

  lemma {:induction false} ReachesParent<V>(ns: seq<Cell<V>>, i: nat, j: nat)
    requires Forward(ns) && Reaches(ns, i, j) && i != j
    ensures exists x: nat, b :: x < |ns| && Link(ns, x, b) == Some(j) && Reaches(ns, i, x)
    decreases |ns| - i
  {
    var b := KidReaches(ns, i, true, j);
    var k := Link(ns, i, b).value;
    if k == j {
      assert Link(ns, i, b) == Some(j) && Reaches(ns, i, i);
    } else {
      ReachesParent(ns, k, j);
      var x: nat, c :| x < |ns| && Link(ns, x, c) == Some(j) && Reaches(ns, k, x);
      ReachesTrans(ns, i, k, x, b);
    }
  }

  lemma ReachesTrans<V>(ns: seq<Cell<V>>, i: nat, k: nat, x: nat, b: bool)
    requires i < |ns| && Link(ns, i, b) == Some(k) && i < k && Reaches(ns, k, x)
    ensures Reaches(ns, i, x)
  {
    assert KidReaches(ns, i, b, x);
  }

  /** Two cells above a common cell lie on one branch. */
  lemma {:induction false} ReachesComparable<V>(ns: seq<Cell<V>>, a: nat, b: nat, c: nat)
    requires WellLinked(ns) && Reaches(ns, a, c) && Reaches(ns, b, c)
    ensures Reaches(ns, a, b) || Reaches(ns, b, a)
    decreases c
  {
    if a != c && b != c {
      ReachesParent(ns, a, c);
      var x: nat, bx :| x < |ns| && Link(ns, x, bx) == Some(c) && Reaches(ns, a, x);
      ReachesParent(ns, b, c);
      var y: nat, dy :| y < |ns| && Link(ns, y, dy) == Some(c) && Reaches(ns, b, y);
      assert x == y;
      assert x < c;
      ReachesComparable(ns, a, b, x);
    }
  }

  /** The two subtrees of a cell share no cell. */
  lemma KidsDisjoint<V>(ns: seq<Cell<V>>, i: nat, j: nat)
    requires WellLinked(ns) && i < |ns|
    ensures !(KidReaches(ns, i, false, j) && KidReaches(ns, i, true, j))
  {
    if KidReaches(ns, i, false, j) && KidReaches(ns, i, true, j) {
      var l, r := Link(ns, i, false).value, Link(ns, i, true).value;
      assert l != r;
      ReachesComparable(ns, l, r, j);
      if Reaches(ns, l, r) {
        ReachesParent(ns, l, r);
        var x: nat, bx :| x < |ns| && Link(ns, x, bx) == Some(r) && Reaches(ns, l, x);
        ReachesOrdered(ns, l, x);
        assert false;
      } else {
        ReachesParent(ns, r, l);
        var x: nat, bx :| x < |ns| && Link(ns, x, bx) == Some(l) && Reaches(ns, r, x);
        ReachesOrdered(ns, r, x);
        assert false;
      }
    }
  }

  /** A trie depends only on the cells it reaches. */
  lemma {:induction false} Locality<V>(ns: seq<Cell<V>>, ns': seq<Cell<V>>, i: nat)
    requires Forward(ns) && i < |ns|
    requires forall j: nat :: Reaches(ns, i, j) ==> j < |ns| && j < |ns'| && ns'[j] == ns[j]
    ensures AbsAt(ns', i) == AbsAt(ns, i)
    ensures forall j: nat :: Reaches(ns', i, j) <==> Reaches(ns, i, j)
    decreases |ns| - i
  {
    assert Reaches(ns, i, i);
    forall b | Link(ns, i, b).Some?
      ensures AbsKid(ns', i, b) == AbsKid(ns, i, b)
      ensures forall j: nat :: KidReaches(ns', i, b, j) <==> KidReaches(ns, i, b, j)
    {
      var k := Link(ns, i, b).value;
      forall j: nat | Reaches(ns, k, j) ensures j < |ns| && j < |ns'| && ns'[j] == ns[j] {
        ReachesTrans(ns, i, k, j, b);
      }
      Locality(ns, ns', k);
    }
  }

  lemma {:induction false} WalkAbs<V>(ns: seq<Cell<V>>, i: nat, p: seq<bool>)
    requires Forward(ns)
    ensures WalkIdx(ns, i, p).Some? ==>
              Subtree(AbsAt(ns, i), p) == AbsAt(ns, WalkIdx(ns, i, p).value) &&
              Reaches(ns, i, WalkIdx(ns, i, p).value) && WalkIdx(ns, i, p).value < |ns|
    ensures WalkIdx(ns, i, p).None? ==> Subtree(AbsAt(ns, i), p) == Nil
    decreases |p|
  {
    if i >= |ns| {
      SubtreeNil<V>(p);
    } else if |p| > 0 {
      var k := Link(ns, i, p[0]);
      if k.Some? {
        WalkAbs(ns, k.value, p[1..]);
        if WalkIdx(ns, i, p).Some? {
          ReachesTrans(ns, i, k.value, WalkIdx(ns, i, p).value, p[0]);
        }
      } else {
        SubtreeNil<V>(p[1..]);
      }
    }
  }

  lemma {:induction false} WalkAppend<V>(ns: seq<Cell<V>>, i: nat, p: seq<bool>, b: bool)
    requires WalkIdx(ns, i, p).Some?
    ensures WalkIdx(ns, i, p).value < |ns|
    ensures WalkIdx(ns, i, p + [b]) ==
              (var c := WalkIdx(ns, i, p).value; if Link(ns, c, b).Some? && Link(ns, c, b).value < |ns| then Link(ns, c, b) else None)
    decreases |p|
  {
    if |p| == 0 {
      assert p + [b] == [b];
    } else {
      assert (p + [b])[0] == p[0] && (p + [b])[1..] == p[1..] + [b];
      WalkAppend(ns, Link(ns, i, p[0]).value, p[1..], b);
    }
  }

  /** Rewriting cell `c` (and appending cells nobody else links to) changes the
      trie hanging from `a` exactly at the path that leads to `c`. */
  lemma {:induction false} UpdateOnPath<V>(ns: seq<Cell<V>>, ns': seq<Cell<V>>, a: nat, p: seq<bool>, c: nat)
    requires WellLinked(ns) && WalkIdx(ns, a, p) == Some(c)
    requires |ns'| >= |ns| && forall j: nat :: 0 <= j < |ns| && j != c ==> ns'[j] == ns[j]
    ensures AbsAt(ns', a) == Replace(AbsAt(ns, a), p, AbsAt(ns', c))
    ensures WalkIdx(ns', a, p) == Some(c)
    decreases |p|
  {
    if |p| > 0 {
      var b := p[0];
      var k := Link(ns, a, b).value;
      WalkAbs(ns, k, p[1..]);
      assert a < k;
      ReachesOrdered(ns, k, c);
      assert ns'[a] == ns[a];
      UpdateOnPath(ns, ns', k, p[1..], c);
      if Link(ns, a, !b).Some? {
        var s := Link(ns, a, !b).value;
        forall j: nat | Reaches(ns, s, j) ensures j < |ns| && j < |ns'| && ns'[j] == ns[j] {
          WalkAbs(ns, s, []);
          ReachesOrdered(ns, s, j);
          if j == c {
            assert KidReaches(ns, a, b, c) && KidReaches(ns, a, !b, c);
            KidsDisjoint(ns, a, c);
          }
          if j >= |ns| {
            ReachesTail(ns, s, j);
          }
        }
        Locality(ns, ns', s);
      }
    }
  }

  lemma {:induction false} ReachesTail<V>(ns: seq<Cell<V>>, i: nat, j: nat)
    requires Forward(ns) && i < |ns| && Reaches(ns, i, j)
    ensures j < |ns|
    decreases |ns| - i
  {
    if i != j {
      var b := KidReaches(ns, i, true, j);
      ReachesTail(ns, Link(ns, i, b).value, j);
    }
  }

  /** The value-level reading of one step of a query at cell `c`, given the
      value recorded so far already accounts for `c`: a query that is used
      up or meets a missing child ends with the recorded value; otherwise the
      child's value is recorded and the query goes on from the child. */
  lemma LpmAtCell<V>(ns: seq<Cell<V>>, c: nat, q: seq<bool>, found: Option<V>)
    requires Forward(ns) && c < |ns|
    ensures OrElse(Lpm(AbsAt(ns, c), q), OrElse(ns[c].value, found)) == OrElse(Lpm(AbsAt(ns, c), q), found)
    ensures found == OrElse(ns[c].value, found) && (|q| == 0 || Link(ns, c, q[0]).None?) ==>
              OrElse(Lpm(AbsAt(ns, c), q), found) == found
    ensures found == OrElse(ns[c].value, found) && |q| > 0 && Link(ns, c, q[0]).Some? ==>
              var k := Link(ns, c, q[0]).value;
              OrElse(Lpm(AbsAt(ns, c), q), found) == OrElse(Lpm(AbsAt(ns, k), q[1..]), OrElse(ns[k].value, found))
  {
    CellView(ns, c);
    if |q| > 0 && Link(ns, c, q[0]).Some? {
      var k := Link(ns, c, q[0]).value;
      CellView(ns, k);
      assert Child(AbsAt(ns, c), q[0]) == AbsAt(ns, k);
      if |q| > 1 {
        assert Lpm(AbsAt(ns, k), q[1..]) == OrElse(Lpm(Child(AbsAt(ns, k), q[1]), q[2..]), ns[k].value);
      }
    } else if |q| > 0 {
      assert Child(AbsAt(ns, c), q[0]).Nil?;
    }
  }

  class BitTrie<V(==)> {
    var nodes: seq<Cell<V>>

    ghost predicate Valid()
      reads this
    {
      WellLinked(nodes)
    }

    /** The trie from `root`. */
    ghost function Abs(): Trie<V>
      reads this
    {
      AbsAt(nodes, 0)
    }

    /** `new BitTrie<>()`: a root without value or children. */
    constructor ()
      ensures Valid() && Abs() == Empty()
    {
      nodes := [Cell(None, None, None)];
    }

    /** The longest-match walk over the first `limit` bits of `key`. */
    method LongestMatch(key: seq<Byte>, limit: nat) returns (found: Option<V>)
      requires Valid() && limit <= 8 * |key|
      ensures found == Lpm(Abs(), BytesToBits(key)[..limit])
    {
      ghost var bits := BytesToBits(key)[..limit];
      var node := 0;
      found := None;
      if nodes[node].value.Some? {
        found := nodes[node].value;
      }
      LpmAtCell(nodes, 0, bits, None);
      var i := 0;
      while i < limit
        invariant 0 <= i <= limit && node < |nodes|
        invariant found == OrElse(nodes[node].value, found)
        invariant Lpm(Abs(), bits) == OrElse(Lpm(AbsAt(nodes, node), bits[i..]), found)
      {
        var bit := BitAt(key, i);
        BitAtIsBit(key, i);
        assert bit == bits[i];
        LpmAtCell(nodes, node, bits[i..], found);
        var next := Link(nodes, node, bit);
        if next.None? {
          return;
        }
        node := next.value;
        if nodes[node].value.Some? {
          found := nodes[node].value;
        }
        assert bits[i..][1..] == bits[i + 1..];
        i := i + 1;
      }
      LpmAtCell(nodes, node, bits[i..], found);
    }

    /** `search` of the newer trie: null for a null or empty key, otherwise
        the longest match over every bit of the key. */
    method Search(key: Option<seq<Byte>>) returns (found: Option<V>)
      requires Valid()
      ensures key.None? || |key.value| == 0 ==> found.None?
      ensures key.Some? && |key.value| > 0 ==> found == Lpm(Abs(), BytesToBits(key.value))
    {
      if key.None? || |key.value| == 0 {
        return None;
      }
      found := LongestMatch(key.value, 8 * |key.value|);
      assert BytesToBits(key.value)[..8 * |key.value|] == BytesToBits(key.value);
    }

    /** `get` of the older trie: the same walk, cut off after 32 bits. */
    method Get(key: Option<seq<Byte>>) returns (found: Option<V>)
      requires Valid()
      ensures key.None? || |key.value| == 0 ==> found.None?
      ensures key.Some? && |key.value| > 0 ==>
                found == Lpm(Abs(), BytesToBits(key.value)[..if 8 * |key.value| < 32 then 8 * |key.value| else 32])
    {
      if key.None? || |key.value| == 0 {
        return None;
      }
      var limit := if 8 * |key.value| < 32 then 8 * |key.value| else 32;
      found := LongestMatch(key.value, limit);
    }

    /** `put`, shared by both generations: argument checks, then the walk
        that creates missing children, the early return on a node already
        holding `value`, and the store at the end node. */
    method Put(key: Option<seq<Byte>>, len: int, value: Option<V>) returns (err: Option<PutError>)
      requires Valid()
      modifies this
      ensures Valid()
      ensures Tries.Put(old(Abs()), key, len, value).Err? ==>
                err == Some(Tries.Put(old(Abs()), key, len, value).error) && nodes == old(nodes)
      ensures Tries.Put(old(Abs()), key, len, value).Ok? ==>
                err.None? && Abs() == Tries.Put(old(Abs()), key, len, value).value
    {
      if key.None? {
        return Some(NullKey);
      }
      if len < 0 || len > 8 * |key.value| {
        return Some(BadLength);
      }
      if value.None? {
        return Some(NullValue);
      }
      err := None;
      var k, v := key.value, value.value;
      ghost var bits := BytesToBits(k)[..len];
      ghost var goal := PutPath(Abs(), bits, v);
      var node := 0;
      var i := 0;
      assert bits[..0] == [];
      ReplaceSame(Abs(), []);
      while i < len
        invariant 0 <= i <= len && node < |nodes|
        invariant WellLinked(nodes)
        invariant WalkIdx(nodes, 0, bits[..i]) == Some(node)
        invariant goal == Replace(Abs(), bits[..i], PutPath(AbsAt(nodes, node), bits[i..], v))
      {
        WalkAbs(nodes, 0, bits[..i]);
        if nodes[node].value == Some(v) {
          ReplaceSame(Abs(), bits[..i]);
          return;
        }
        var bit := BitAt(k, i);
        BitAtIsBit(k, i);
        assert bit == bits[i];
        ghost var before := nodes;
        if Link(nodes, node, bit).None? {
          var added := |nodes|;
          nodes := nodes[node := SetLink(nodes[node], bit, added)] + [Cell(None, None, None)];
          AddChildKeepsShape(before, nodes, node, bit);
        }
        var next := Link(nodes, node, bit).value;
        StepDown(before, nodes, bits, i, node, bit, next, v);
        node := next;
        i := i + 1;
      }
      assert bits[..i] == bits && bits[i..] == [];
      ghost var before := nodes;
      nodes := nodes[node := nodes[node].(value := Some(v))];
      StoreAtEnd(before, nodes, bits, node, v);
    }

    /** `compressNode`, in place: compress both subtrees, then merge as the
        mode says, by nulling links (and storing a value for the merge). */
    method CompressNode(i: nat, m: CompressMode)
      requires WellLinked(nodes) && i < |nodes|
      modifies this
      ensures WellLinked(nodes) && |nodes| == |old(nodes)|
      ensures AbsAt(nodes, i) == Tries.Compress(old(AbsAt(nodes, i)), m)
      ensures forall j: nat :: 0 <= j < |nodes| && !Reaches(old(nodes), i, j) ==> nodes[j] == old(nodes)[j]
      ensures forall j: nat :: Reaches(nodes, i, j) ==> Reaches(old(nodes), i, j)
      decreases |nodes| - i
    {
      ghost var ns0 := nodes;
      var cell := nodes[i];
      assert Link(ns0, i, false) == cell.left && Link(ns0, i, true) == cell.right;
      if cell.left.Some? {
        CompressNode(cell.left.value, m);
      }
      ghost var ns1 := nodes;
      Settle(ns0, ns1, i, false, true);
      assert Link(ns1, i, true) == cell.right;
      if cell.right.Some? {
        CompressNode(cell.right.value, m);
      }
      ghost var ns2 := nodes;
      Settle(ns1, ns2, i, true, false);
      CompressFrame(ns0, ns1, ns2, i, m);
      CellView(ns2, i);
      if cell.left.Some? && cell.right.Some? {
        var l, r := nodes[cell.left.value], nodes[cell.right.value];
        CellView(ns2, cell.left.value);
        CellView(ns2, cell.right.value);
        if l.value.Some? && l.value == r.value &&
           (m.requireChildless ==> l.left.None? && l.right.None? && r.left.None? && r.right.None?) {
          nodes := nodes[i := Cell(l.value, None, None)];
          DropLinks(ns2, nodes, i);
        }
        return;
      }
      if m.collapseOnlyChild && cell.value.Some? {
        var only := if cell.left.Some? then cell.left else cell.right;
        if only.Some? {
          CellView(ns2, only.value);
        }
        if only.Some? && nodes[only.value].value == cell.value &&
           nodes[only.value].left.None? && nodes[only.value].right.None? {
          nodes := nodes[i := Cell(cell.value, None, None)];
          DropLinks(ns2, nodes, i);
        }
      }
    }

    /** `compress` of the newer trie (both scenarios). */
    method Compress()
      requires Valid()
      modifies this
      ensures Valid() && Abs() == Tries.Compress(old(Abs()), ImplCompress)
    {
      CompressNode(0, ImplCompress);
    }

    /** `compress` of the older trie (sibling merge only). */
    method CompressMergeOnly()
      requires Valid()
      modifies this
      ensures Valid() && Abs() == Tries.Compress(old(Abs()), RootCompress)
    {
      CompressNode(0, RootCompress);
    }

    /** `preorderTraversalIterative`: an explicit stack of (node, path),
        popping a node, reporting it when it is a leaf, then pushing its right
        and then its left child so the left one is visited first. The list
        returned is the sequence of consumer calls. */
    method PreorderTraversal() returns (out: seq<(seq<bool>, V)>)
      requires Valid()
      ensures out == Leaves(Abs())
    {
      var stack: seq<(nat, seq<bool>)> := [(0, [])];
      out := [];
      assert stack == [] + [(0, [])];
      StackPush(nodes, [], (0, []));
      while |stack| > 0
        invariant forall k :: 0 <= k < |stack| ==> stack[k].0 < |nodes|
        invariant out + StackLeaves(nodes, stack) == Leaves(Abs())
        decreases StackWeight(nodes, stack)
      {
        var top := stack[|stack| - 1];
        var rest := stack[..|stack| - 1];
        var n, path := top.0, top.1;
        assert stack == rest + [top];
        StackPush(nodes, rest, top);
        ghost var out0 := out;
        stack := rest;
        if nodes[n].value.Some? {
          out := out + [(path, nodes[n].value.value)];
        }
        if nodes[n].right.Some? {
          stack := stack + [(nodes[n].right.value, path + [true])];
        }
        if nodes[n].left.Some? {
          stack := stack + [(nodes[n].left.value, path + [false])];
        }
        PushChildren(nodes, rest, n, path);
        assert stack == Pushed(nodes, rest, n, path);
        assert out == out0 + OwnLeaf(nodes, n, path);
        Assoc3(out0, OwnLeaf(nodes, n, path), StackLeaves(nodes, stack));
      }
    }
  }

  /** What the stack still owes: the leaves of every pending item, top first. */
  ghost function StackLeaves<V>(ns: seq<Cell<V>>, st: seq<(nat, seq<bool>)>): seq<(seq<bool>, V)> {
    if |st| == 0 then []
    else LeavesFrom(AbsAt(ns, st[|st| - 1].0), st[|st| - 1].1) + StackLeaves(ns, st[..|st| - 1])
  }

  ghost function StackWeight<V>(ns: seq<Cell<V>>, st: seq<(nat, seq<bool>)>): nat {
    if |st| == 0 then 0 else Size(AbsAt(ns, st[|st| - 1].0)) + StackWeight(ns, st[..|st| - 1])
  }

  /** Popping a cell and pushing its right then its left child hands the
      cell's own leaf to the output and the rest of its leaves to the stack. */
  lemma PushChildren<V>(ns: seq<Cell<V>>, rest: seq<(nat, seq<bool>)>, n: nat, path: seq<bool>)
    requires Forward(ns) && n < |ns| && forall k :: 0 <= k < |rest| ==> rest[k].0 < |ns|
    ensures forall k :: 0 <= k < |Pushed(ns, rest, n, path)| ==> Pushed(ns, rest, n, path)[k].0 < |ns|
    ensures OwnLeaf(ns, n, path) + StackLeaves(ns, Pushed(ns, rest, n, path)) ==
            LeavesFrom(AbsAt(ns, n), path) + StackLeaves(ns, rest)
    ensures StackWeight(ns, Pushed(ns, rest, n, path)) < Size(AbsAt(ns, n)) + StackWeight(ns, rest)
  {
    PushedBounded(ns, rest, n, path);
    PushedLeaves(ns, rest, n, path);
    PushedWeight(ns, rest, n, path);
  }

  lemma PushedBounded<V>(ns: seq<Cell<V>>, rest: seq<(nat, seq<bool>)>, n: nat, path: seq<bool>)
    requires Forward(ns) && n < |ns| && forall k :: 0 <= k < |rest| ==> rest[k].0 < |ns|
    ensures forall k :: 0 <= k < |Pushed(ns, rest, n, path)| ==> Pushed(ns, rest, n, path)[k].0 < |ns|
  {
    assert Link(ns, n, false) == ns[n].left && Link(ns, n, true) == ns[n].right;
    var r := if ns[n].right.Some? then rest + [(ns[n].right.value, path + [true])] else rest;
    assert forall k :: 0 <= k < |r| ==> r[k].0 < |ns|;
  }

  lemma PushedLeaves<V>(ns: seq<Cell<V>>, rest: seq<(nat, seq<bool>)>, n: nat, path: seq<bool>)
    requires Forward(ns) && n < |ns|
    ensures OwnLeaf(ns, n, path) + StackLeaves(ns, Pushed(ns, rest, n, path)) ==
            LeavesFrom(AbsAt(ns, n), path) + StackLeaves(ns, rest)
  {
    var r := if ns[n].right.Some? then rest + [(ns[n].right.value, path + [true])] else rest;
    var st := Pushed(ns, rest, n, path);
    var t := AbsAt(ns, n);
    CellView(ns, n);
    var own, lf, rt, tail := OwnLeaf(ns, n, path), LeavesFrom(t.left, path + [false]), LeavesFrom(t.right, path + [true]), StackLeaves(ns, rest);
    assert LeavesFrom(t, path) == own + lf + rt;
    if ns[n].right.Some? {
      StackPush(ns, rest, (ns[n].right.value, path + [true]));
    }
    assert StackLeaves(ns, r) == rt + tail;
    if ns[n].left.Some? {
      StackPush(ns, r, (ns[n].left.value, path + [false]));
    }
    assert StackLeaves(ns, st) == lf + (rt + tail);
    Assoc4(own, lf, rt, tail);
  }

  lemma PushedWeight<V>(ns: seq<Cell<V>>, rest: seq<(nat, seq<bool>)>, n: nat, path: seq<bool>)
    requires Forward(ns) && n < |ns|
    ensures StackWeight(ns, Pushed(ns, rest, n, path)) < Size(AbsAt(ns, n)) + StackWeight(ns, rest)
  {
    var r := if ns[n].right.Some? then rest + [(ns[n].right.value, path + [true])] else rest;
    var t := AbsAt(ns, n);
    CellView(ns, n);
    if ns[n].right.Some? {
      StackPush(ns, rest, (ns[n].right.value, path + [true]));
    }
    assert StackWeight(ns, r) == Size(t.right) + StackWeight(ns, rest);
    if ns[n].left.Some? {
      StackPush(ns, r, (ns[n].left.value, path + [false]));
    }
  }

  lemma Assoc4<T>(a: seq<T>, b: seq<T>, c: seq<T>, d: seq<T>)
    ensures a + (b + (c + d)) == a + b + c + d
  {
  }

  lemma Assoc3<T>(a: seq<T>, b: seq<T>, c: seq<T>)
    ensures a + (b + c) == a + b + c
  {
  }

  /** The stack after popping cell `n` and pushing its right, then its left
      child. */
  function Pushed<V>(ns: seq<Cell<V>>, rest: seq<(nat, seq<bool>)>, n: nat, path: seq<bool>): seq<(nat, seq<bool>)>
    requires n < |ns|
  {
    var r := if ns[n].right.Some? then rest + [(ns[n].right.value, path + [true])] else rest;
    if ns[n].left.Some? then r + [(ns[n].left.value, path + [false])] else r
  }

  /** What popping cell `n` reports: its own entry when it is a leaf. */
  function OwnLeaf<V>(ns: seq<Cell<V>>, n: nat, path: seq<bool>): seq<(seq<bool>, V)>
    requires n < |ns|
  {
    if ns[n].value.Some? then [(path, ns[n].value.value)] else []
  }

  lemma StackPush<V>(ns: seq<Cell<V>>, st: seq<(nat, seq<bool>)>, x: (nat, seq<bool>))
    ensures StackLeaves(ns, st + [x]) == LeavesFrom(AbsAt(ns, x.0), x.1) + StackLeaves(ns, st)
    ensures StackWeight(ns, st + [x]) == Size(AbsAt(ns, x.0)) + StackWeight(ns, st)
  {
    assert (st + [x])[..|st|] == st;
  }

  /** The store that ends `put`: the value goes into the end node, the rest of
      the trie is as the walk left it. */
  lemma StoreAtEnd<V>(before: seq<Cell<V>>, ns: seq<Cell<V>>, bits: seq<bool>, c: nat, v: V)
    requires WellLinked(before) && WalkIdx(before, 0, bits) == Some(c) && c < |before|
    requires ns == before[c := before[c].(value := Some(v))]
    ensures WellLinked(ns)
    ensures AbsAt(ns, 0) == Replace(AbsAt(before, 0), bits, PutPath(AbsAt(before, c), [], v))
  {
    assert forall k, d :: 0 <= k < |ns| ==> Link(ns, k, d) == Link(before, k, d);
    UpdateOnPath(before, ns, 0, bits, c);
    KeepKids(before, ns, c);
    CellView(before, c);
    CellView(ns, c);
  }

  /** Adding a fresh child below cell `c` keeps the arena a tree. */
  lemma AddChildKeepsShape<V>(ns: seq<Cell<V>>, ns': seq<Cell<V>>, c: nat, b: bool)
    requires WellLinked(ns) && c < |ns| && Link(ns, c, b).None?
    requires ns' == ns[c := SetLink(ns[c], b, |ns|)] + [Cell(None, None, None)]
    ensures WellLinked(ns') && Link(ns', c, b) == Some(|ns|) && ns'[|ns|] == Cell(None, None, None)
    ensures ns'[c].value == ns[c].value && Link(ns', c, !b) == Link(ns, c, !b)
    ensures forall j: nat :: j < |ns| && j != c ==> ns'[j] == ns[j]
  {
    assert forall i, d :: 0 <= i < |ns| && (i != c || d != b) ==> Link(ns', i, d) == Link(ns, i, d);
  }

  /** One step of the `put` walk, after the child on bit `b` exists. */
  lemma StepDown<V>(before: seq<Cell<V>>, ns: seq<Cell<V>>, bits: seq<bool>, i: nat, c: nat, b: bool, next: nat, v: V)
    requires WellLinked(before) && Forward(ns) && c < |before| && i < |bits| && bits[i] == b
    requires WalkIdx(before, 0, bits[..i]) == Some(c)
    requires before[c].value != Some(v)
    requires |ns| >= |before| && forall j: nat :: j < |before| && j != c ==> ns[j] == before[j]
    requires ns[c].value == before[c].value && Link(ns, c, !b) == Link(before, c, !b)
    requires Link(before, c, b).Some? ==> Link(ns, c, b) == Link(before, c, b)
    requires Link(ns, c, b) == Some(next)
    requires Link(before, c, b).None? ==> next == |before| && next < |ns| && ns[next] == Cell(None, None, None)
    ensures WalkIdx(ns, 0, bits[..i + 1]) == Some(next) && next < |ns|
    ensures Replace(AbsAt(before, 0), bits[..i], PutPath(AbsAt(before, c), bits[i..], v)) ==
            Replace(AbsAt(ns, 0), bits[..i + 1], PutPath(AbsAt(ns, next), bits[i + 1..], v))
  {
    StepDownWalk(before, ns, bits[..i], c, b, next);
    assert bits[..i + 1] == bits[..i] + [b];
    StepDownTree(before, ns, bits, i, c, b, next, v);
  }

  /** The walk to the new cursor cell. */
  lemma StepDownWalk<V>(before: seq<Cell<V>>, ns: seq<Cell<V>>, p: seq<bool>, c: nat, b: bool, next: nat)
    requires WellLinked(before) && Forward(ns) && c < |before|
    requires WalkIdx(before, 0, p) == Some(c)
    requires |ns| >= |before| && forall j: nat :: j < |before| && j != c ==> ns[j] == before[j]
    requires Link(ns, c, b) == Some(next)
    ensures WalkIdx(ns, 0, p + [b]) == Some(next) && next < |ns|
  {
    UpdateOnPath(before, ns, 0, p, c);
    WalkAppend(ns, 0, p, b);
  }

  /** The pending insertion, seen from the new cursor cell. */
  lemma StepDownTree<V>(before: seq<Cell<V>>, ns: seq<Cell<V>>, bits: seq<bool>, i: nat, c: nat, b: bool, next: nat, v: V)
    requires WellLinked(before) && Forward(ns) && c < |before| && i < |bits| && bits[i] == b
    requires WalkIdx(before, 0, bits[..i]) == Some(c)
    requires before[c].value != Some(v)
    requires |ns| >= |before| && forall j: nat :: j < |before| && j != c ==> ns[j] == before[j]
    requires ns[c].value == before[c].value && Link(ns, c, !b) == Link(before, c, !b)
    requires Link(before, c, b).Some? ==> Link(ns, c, b) == Link(before, c, b)
    requires Link(ns, c, b) == Some(next)
    requires Link(before, c, b).None? ==> next == |before| && next < |ns| && ns[next] == Cell(None, None, None)
    ensures Replace(AbsAt(before, 0), bits[..i], PutPath(AbsAt(before, c), bits[i..], v)) ==
            Replace(AbsAt(ns, 0), bits[..i + 1], PutPath(AbsAt(ns, next), bits[i + 1..], v))
  {
    var p, r := bits[..i], bits[i + 1..];
    assert bits[..i + 1] == p + [b];
    assert bits[i..] == [b] + r;
    UpdateOnPath(before, ns, 0, p, c);
    WalkAbs(before, 0, p);
    ChildView(before, ns, c, b, next);
    PutStep(AbsAt(before, 0), p, b, r, AbsAt(before, c), AbsAt(ns, c), v);
  }

  /** How cell `c` looks before and after the step, as the value trie sees it. */
  lemma ChildView<V>(before: seq<Cell<V>>, ns: seq<Cell<V>>, c: nat, b: bool, next: nat)
    requires WellLinked(before) && Forward(ns) && c < |before|
    requires |ns| >= |before| && forall j: nat :: j < |before| && j != c ==> ns[j] == before[j]
    requires ns[c].value == before[c].value && Link(ns, c, !b) == Link(before, c, !b)
    requires Link(before, c, b).Some? ==> Link(ns, c, b) == Link(before, c, b)
    requires Link(ns, c, b) == Some(next)
    requires Link(before, c, b).None? ==> next == |before| && next < |ns| && ns[next] == Cell(None, None, None)
    ensures var oc, nc := AbsAt(before, c), AbsAt(ns, c);
            oc.Node? && nc.Node? && nc.value == oc.value && Child(nc, b) == AbsAt(ns, next) &&
            (b ==> nc.left == oc.left) && (!b ==> nc.right == oc.right) &&
            (Child(oc, b).Node? ==> Child(nc, b) == Child(oc, b)) &&
            (Child(oc, b).Nil? ==> Child(nc, b) == Empty())
  {
    KeepKids(before, ns, c);
    CellView(before, c);
    CellView(ns, c);
    if Link(before, c, b).None? {
      assert AbsAt(ns, next) == Empty();
    }
  }

  /** Rewriting cell `c` and appending cells leaves the subtrees that `c`
      already had alone. */
  lemma KeepKids<V>(before: seq<Cell<V>>, ns: seq<Cell<V>>, c: nat)
    requires WellLinked(before) && c < |before| && |ns| >= |before|
    requires forall j: nat :: j < |before| && j != c ==> ns[j] == before[j]
    ensures forall d :: Link(before, c, d).Some? ==> AbsAt(ns, Link(before, c, d).value) == AbsAt(before, Link(before, c, d).value)
  {
    forall d | Link(before, c, d).Some?
      ensures AbsAt(ns, Link(before, c, d).value) == AbsAt(before, Link(before, c, d).value)
    {
      var k := Link(before, c, d).value;
      forall j: nat | Reaches(before, k, j) ensures j < |before| && j < |ns| && ns[j] == before[j] {
        ReachesTail(before, k, j);
        ReachesOrdered(before, k, j);
      }
      Locality(before, ns, k);
    }
  }

  /** The value-level content of one `put` step: descending into the child on
      bit `b` (created empty when missing) and going on from there is the
      same as the recursive `PutPath` at the current node. */
  lemma PutStep<V>(t0: Trie<V>, p: seq<bool>, b: bool, r: seq<bool>, oc: Trie<V>, nc: Trie<V>, v: V)
    requires Subtree(t0, p) == oc && oc.Node? && oc.value != Some(v)
    requires nc.Node? && nc.value == oc.value && Child(nc, b).Node?
    requires b ==> nc.left == oc.left
    requires !b ==> nc.right == oc.right
    requires Child(oc, b).Node? ==> Child(nc, b) == Child(oc, b)
    requires Child(oc, b).Nil? ==> Child(nc, b) == Empty()
    ensures Replace(t0, p, PutPath(oc, [b] + r, v)) ==
            Replace(Replace(t0, p, nc), p + [b], PutPath(Child(nc, b), r, v))
  {
    assert ([b] + r)[0] == b && ([b] + r)[1..] == r;
    var y := PutPath(Child(nc, b), r, v);
    assert PutPath(oc, [b] + r, v) == Replace(nc, [b], y);
    ReplaceSubtree(t0, p, nc);
    ReplaceAppend(Replace(t0, p, nc), p, [b], y);
    ReplaceTwice(t0, p, nc, Replace(nc, [b], y));
  }

  /** After compressing the subtree on bit `b` of cell `i` (when there is
      one), `i` itself and the other subtree are as before. */
  lemma Settle<V>(ns0: seq<Cell<V>>, ns1: seq<Cell<V>>, i: nat, b: bool, o: bool)
    requires WellLinked(ns0) && i < |ns0| && |ns1| == |ns0| && o != b
    requires Link(ns0, i, b).Some? ==>
               forall j: nat :: j < |ns1| && !Reaches(ns0, Link(ns0, i, b).value, j) ==> ns1[j] == ns0[j]
    requires Link(ns0, i, b).None? ==> ns1 == ns0
    ensures ns1[i] == ns0[i]
    ensures forall j: nat :: j < |ns1| && !KidReaches(ns0, i, b, j) ==> ns1[j] == ns0[j]
    ensures AbsKid(ns1, i, o) == AbsKid(ns0, i, o)
    ensures forall j: nat :: KidReaches(ns1, i, o, j) <==> KidReaches(ns0, i, o, j)
  {
    if Link(ns0, i, b).Some? {
      var k := Link(ns0, i, b).value;
      if Reaches(ns0, k, i) {
        ReachesOrdered(ns0, k, i);
      }
      assert ns1[i] == ns0[i];
      forall j: nat | j < |ns1| && !KidReaches(ns0, i, b, j) ensures ns1[j] == ns0[j] {
      }
      if Link(ns0, i, o).Some? {
        var s := Link(ns0, i, o).value;
        forall j: nat | Reaches(ns0, s, j) ensures j < |ns0| && j < |ns1| && ns1[j] == ns0[j] {
          ReachesTail(ns0, s, j);
          if Reaches(ns0, k, j) {
            assert KidReaches(ns0, i, b, j) && KidReaches(ns0, i, o, j);
            KidsDisjoint(ns0, i, j);
          }
        }
        Locality(ns0, ns1, s);
        assert Link(ns1, i, o) == Link(ns0, i, o);
      }
    }
  }

  /** Gluing the two recursive calls of `compressNode` together: the subtrees
      of `i` are the compressed ones, nothing outside the trie of `i` changed
      and the trie of `i` reaches no new cell. */
  lemma CompressFrame<V>(ns0: seq<Cell<V>>, ns1: seq<Cell<V>>, ns2: seq<Cell<V>>, i: nat, m: CompressMode)
    requires WellLinked(ns0) && WellLinked(ns1) && WellLinked(ns2) && i < |ns0|
    requires |ns1| == |ns0| && |ns2| == |ns0|
    requires ns1[i] == ns0[i] && ns2[i] == ns1[i]
    requires forall j: nat :: j < |ns1| && !KidReaches(ns0, i, false, j) ==> ns1[j] == ns0[j]
    requires forall j: nat :: j < |ns2| && !KidReaches(ns1, i, true, j) ==> ns2[j] == ns1[j]
    requires AbsKid(ns1, i, true) == AbsKid(ns0, i, true)
    requires forall j: nat :: KidReaches(ns1, i, true, j) <==> KidReaches(ns0, i, true, j)
    requires AbsKid(ns2, i, false) == AbsKid(ns1, i, false)
    requires forall j: nat :: KidReaches(ns2, i, false, j) <==> KidReaches(ns1, i, false, j)
    requires ns0[i].left.Some? ==>
               AbsAt(ns1, ns0[i].left.value) == Compress(AbsAt(ns0, ns0[i].left.value), m) &&
               forall j: nat :: Reaches(ns1, ns0[i].left.value, j) ==> Reaches(ns0, ns0[i].left.value, j)
    requires ns0[i].right.Some? ==>
               AbsAt(ns2, ns0[i].right.value) == Compress(AbsAt(ns1, ns0[i].right.value), m) &&
               forall j: nat :: Reaches(ns2, ns0[i].right.value, j) ==> Reaches(ns1, ns0[i].right.value, j)
    ensures AbsKid(ns2, i, false) == Compress(AbsKid(ns0, i, false), m)
    ensures AbsKid(ns2, i, true) == Compress(AbsKid(ns0, i, true), m)
    ensures forall j: nat :: j < |ns2| && !Reaches(ns0, i, j) ==> ns2[j] == ns0[j]
    ensures forall j: nat :: Reaches(ns2, i, j) ==> Reaches(ns0, i, j)
  {
    assert Link(ns0, i, false) == ns0[i].left && Link(ns0, i, true) == ns0[i].right;
    assert Link(ns1, i, false) == ns0[i].left && Link(ns1, i, true) == ns0[i].right;
    assert Link(ns2, i, false) == ns0[i].left && Link(ns2, i, true) == ns0[i].right;
    forall j: nat | j < |ns2| && !Reaches(ns0, i, j) ensures ns2[j] == ns0[j] {
    }
    forall j: nat | Reaches(ns2, i, j) ensures Reaches(ns0, i, j) {
      if j != i {
        if KidReaches(ns2, i, false, j) {
          assert KidReaches(ns1, i, false, j);
          assert KidReaches(ns0, i, false, j);
        } else {
          assert KidReaches(ns2, i, true, j);
          assert KidReaches(ns1, i, true, j);
        }
      }
    }
  }

  /** How the value model sees one cell of a forward-linked arena. */
  lemma CellView<V>(ns: seq<Cell<V>>, k: nat)
    requires Forward(ns) && k < |ns|
    ensures AbsAt(ns, k).Node? && AbsAt(ns, k).value == ns[k].value
    ensures AbsAt(ns, k).left.Node? <==> ns[k].left.Some?
    ensures AbsAt(ns, k).right.Node? <==> ns[k].right.Some?
    ensures ns[k].left.Some? ==> AbsAt(ns, k).left == AbsAt(ns, ns[k].left.value)
    ensures ns[k].right.Some? ==> AbsAt(ns, k).right == AbsAt(ns, ns[k].right.value)
  {
    assert Link(ns, k, false) == ns[k].left && Link(ns, k, true) == ns[k].right;
    if ns[k].left.Some? {
      assert AbsAt(ns, ns[k].left.value).Node?;
    }
    if ns[k].right.Some? {
      assert AbsAt(ns, ns[k].right.value).Node?;
    }
  }

  /** Replacing cell `i` by a childless cell keeps the arena a tree, shrinks
      what `i` reaches to `i` itself and leaves every other cell alone. */
  lemma DropLinks<V>(ns2: seq<Cell<V>>, ns3: seq<Cell<V>>, i: nat)
    requires WellLinked(ns2) && i < |ns2| && |ns3| == |ns2| && ns3 == ns2[i := Cell(ns3[i].value, None, None)]
    ensures WellLinked(ns3)
    ensures AbsAt(ns3, i) == Node(ns3[i].value, Nil, Nil)
    ensures forall j: nat :: Reaches(ns3, i, j) ==> j == i
  {
    assert forall k, d :: 0 <= k < |ns3| && k != i ==> Link(ns3, k, d) == Link(ns2, k, d);
  }
}

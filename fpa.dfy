/** `ForwardingPortArray` (both generations): a level of `2^depth` slots,
    each an `FPANode(value, next)` whose `next` is the array of the following
    level. Nodes are never changed once they sit in a table, and the
    converter writes each nested array before anything reads it, so the
    arrays are modelled as values. The older class keeps no `depth` field;
    the model keeps the depth the table was built with, and the equality of
    both classes ignores it. */
module Fpas {
  import opened Wrappers
  import opened Bits

  /** `FPANode`: `value == null` is `None`, `next == null` is `None`. The four
      Java constructors are this constructor with the missing fields `None`. */
  datatype FNode<V> = FNode(value: Option<V>, next: Option<Fpa<V>>)

  datatype Fpa<V> = Fpa(table: seq<FNode<V>>, depth: nat)

  /** The largest depth `1 << depth` turns into a slot count: from 31 on, the
      Java shift wraps to a negative or a small count. */
  const MaxDepth: nat := 30

  /** What the constructor builds, at every level of the chain. */
  predicate WellFormed<V>(f: Fpa<V>)
    decreases f, 1
  {
    f.depth <= MaxDepth && |f.table| == Pow2(f.depth) &&
    forall i :: 0 <= i < |f.table| ==> NodeWellFormed(f.table[i])
  }

  predicate NodeWellFormed<V>(n: FNode<V>)
    decreases n, 0
  {
    n.next.Some? ==> WellFormed(n.next.value)
  }

  /** `new ForwardingPortArray<>(root, depth)`: `1 << depth` slots, all `root`. */
  method NewFpa<V>(root: FNode<V>, depth: nat) returns (f: Fpa<V>)
    requires depth <= MaxDepth
    ensures f.depth == depth && |f.table| == Pow2(depth)
    ensures forall i :: 0 <= i < |f.table| ==> f.table[i] == root
  {
    var capacity := Pow2(depth);
    var table: seq<FNode<V>> := [];
    var i := 0;
    while i < capacity
      invariant 0 <= i <= capacity && |table| == i
      invariant forall j :: 0 <= j < i ==> table[j] == root
    {
      table := table + [root];
      i := i + 1;
    }
    f := Fpa(table, depth);
  }

  /** Why `search` gives up with an exception instead of a value. */
  datatype Fault = BytesExhausted | SlotMissing

  /** The meaning of `search` from absolute bit `pos` on, with `last` the
      value recorded so far: stop when the bits are used up, read the next
      `depth` bits as a slot number, record the slot's value, and follow its
      `next` array if there is one. */
  function Walk<V>(f: Fpa<V>, bits: seq<bool>, pos: nat, last: Option<V>): Result<Option<V>, Fault>
    decreases f
  {
    if pos >= |bits| then Ok(last)
    else if pos + f.depth > |bits| then Err(BytesExhausted)
    else
      var idx := BitsToNat(bits[pos..pos + f.depth]);
      if idx >= |f.table| then Err(SlotMissing)
      else
        var node := f.table[idx];
        var found := OrElse(node.value, last);
        if node.next.None? then Ok(found) else Walk(node.next.value, bits, pos + f.depth, found)
  }

  /** On arrays the constructor builds, the slot read is always there. */
  lemma WalkNeverMissesSlot<V>(f: Fpa<V>, bits: seq<bool>, pos: nat, last: Option<V>)
    requires WellFormed(f)
    ensures Walk(f, bits, pos, last) != Err(SlotMissing)
    decreases f
  {
    if pos < |bits| && pos + f.depth <= |bits| {
      var idx := BitsToNat(bits[pos..pos + f.depth]);
      BitsToNatBound(bits[pos..pos + f.depth]);
      var node := f.table[idx];
      assert NodeWellFormed(node);
      if node.next.Some? {
        WalkNeverMissesSlot(node.next.value, bits, pos + f.depth, OrElse(node.value, last));
      }
    }
  }

  /** `extractBits`: the `bitCount` bits from absolute bit
      `8 * byteOffset + bitOffset` on, MSB first, one byte at a time.
      `>>>` and `& mask` are written as `/` and `And`, `<<` as a product and
      `|` as `Or`; the callers keep `bitCount` within an `int`. */
  method ExtractBits(bytes: seq<Byte>, byteOffset: nat, bitOffset: nat, bitCount: nat) returns (result: nat)
    requires bitOffset < 8 && bitCount <= 31
    requires 8 * byteOffset + bitOffset + bitCount <= 8 * |bytes|
    ensures result == BitsToNat(BytesToBits(bytes)[8 * byteOffset + bitOffset..8 * byteOffset + bitOffset + bitCount])
    ensures result < Pow2(bitCount)
  {
    ghost var bits := BytesToBits(bytes);
    ghost var start := 8 * byteOffset + bitOffset;
    result := 0;
    var bitsExtracted := 0;
    var byteIdx, bitOff := byteOffset, bitOffset;
    while bitsExtracted < bitCount
      invariant bitsExtracted <= bitCount && bitOff < 8
      invariant bitsExtracted < bitCount ==> 8 * byteIdx + bitOff == start + bitsExtracted
      invariant result == BitsToNat(bits[start..start + bitsExtracted])
    {
      var currentByte: nat := bytes[byteIdx];
      var bitsAvailable: nat := 8 - bitOff;
      var bitsToExtract: nat := if bitsAvailable < bitCount - bitsExtracted then bitsAvailable else bitCount - bitsExtracted;
      var mask: nat := Pow2(bitsToExtract) - 1;
      var shifted := Shr(currentByte, bitsAvailable - bitsToExtract);
      var extracted := And(shifted, mask);
      ExtractRound(bytes, start, bitsExtracted, byteIdx, bitOff, bitsToExtract, result);
      result := Or(Shl(result, bitsToExtract), extracted);
      bitsExtracted := bitsExtracted + bitsToExtract;
      byteIdx := byteIdx + 1;
      bitOff := 0;
    }
    BitsToNatBound(bits[start..start + bitCount]);
  }

  /** One round of `extractBits`: the `n` bits of byte `j` from bit `o` on,
      appended below the value accumulated so far. */
  lemma ExtractRound(bytes: seq<Byte>, start: nat, done: nat, j: nat, o: nat, n: nat, acc: nat)
    requires j < |bytes| && o + n <= 8 && 8 * j + o == start + done
    requires acc == BitsToNat(BytesToBits(bytes)[start..start + done])
    ensures Or(Shl(acc, n), And(Shr(bytes[j], 8 - o - n), Pow2(n) - 1)) == BitsToNat(BytesToBits(bytes)[start..start + done + n])
  {
    var bits := BytesToBits(bytes);
    var lo := 8 * j;
    ByteValue(bytes, j);
    assert BitsToNat(bits[lo..lo + 8]) == bytes[j];
    ExtractStep(bits, start, done, lo, bytes[j], o, n, acc);
  }

  /** The same round on the bit string: the `n` bits cut out of byte `b`, spelled
      at bit `p`, from bit `o` on, appended below the value accumulated so
      far. */
  lemma ExtractStep(bits: seq<bool>, start: nat, done: nat, p: nat, b: nat, o: nat, n: nat, acc: nat)
    requires p + 8 <= |bits| && o + n <= 8 && p + o == start + done
    requires BitsToNat(bits[p..p + 8]) == b
    requires acc == BitsToNat(bits[start..start + done])
    ensures Or(Shl(acc, n), And(Shr(b, 8 - o - n), Pow2(n) - 1)) == BitsToNat(bits[start..start + done + n])
  {
    var shifted := Shr(b, 8 - o - n);
    var piece := And(shifted, Pow2(n) - 1);
    AndLowMask(shifted, n);
    ShrIsDiv(b, 8 - o - n);
    ByteSlice(bits, p, b, o, n);
    assert piece == BitsToNat(bits[p + o..p + o + n]);
    Concat(bits, start, done, n, acc, piece);
  }

  lemma Concat(bits: seq<bool>, start: nat, done: nat, n: nat, acc: nat, piece: nat)
    requires start + done + n <= |bits|
    requires acc == BitsToNat(bits[start..start + done])
    requires piece == BitsToNat(bits[start + done..start + done + n])
    ensures Or(Shl(acc, n), piece) == BitsToNat(bits[start..start + done + n])
  {
    assert bits[start..start + done + n] == bits[start..start + done] + bits[start + done..start + done + n];
    BitsToNatAppend(bits[start..start + done], bits[start + done..start + done + n]);
    BitsToNatBound(bits[start + done..start + done + n]);
    OrShifted(acc, piece, n);
  }

  /** `search`: the longest match along the chain of arrays. Each level's
      slot number is read from the key's bits at the current offset, the
      offset advances by the level's depth, and the walk ends when a slot has
      no `next` or the key's bytes are used up. A level wider than the bits
      left makes `extractBits` read past the key, which Java reports with
      an exception: here `Err(BytesExhausted)`. */
  method Search<V>(f: Fpa<V>, ipBytes: seq<Byte>) returns (r: Result<Option<V>, Fault>)
    requires WellFormed(f)
    ensures r == Walk(f, BytesToBits(ipBytes), 0, None)
    ensures r != Err(SlotMissing)
  {
    ghost var bits := BytesToBits(ipBytes);
    WalkNeverMissesSlot(f, bits, 0, None);
    var lastFoundValue: Option<V> := None;
    var current: Option<Fpa<V>> := Some(f);
    var byteOffset: nat, bitOffset: nat := 0, 0;
    while current.Some? && byteOffset < |ipBytes|
      invariant bitOffset < 8
      invariant current.Some? ==>
                  WellFormed(current.value) &&
                  Walk(f, bits, 0, None) == Walk(current.value, bits, 8 * byteOffset + bitOffset, lastFoundValue)
      invariant current.None? ==> Walk(f, bits, 0, None) == Ok(lastFoundValue)
      decreases current
    {
      var cur := current.value;
      var currentDepth := cur.depth;
      if 8 * byteOffset + bitOffset + currentDepth > 8 * |ipBytes| {
        return Err(BytesExhausted);
      }
      var index := ExtractBits(ipBytes, byteOffset, bitOffset, currentDepth);
      var node := cur.table[index];
      assert NodeWellFormed(node);
      if node.value.Some? {
        lastFoundValue := node.value;
      }
      byteOffset := byteOffset + (bitOffset + currentDepth) / 8;
      bitOffset := (bitOffset + currentDepth) % 8;
      current := node.next;
    }
    if current.Some? {
      assert 8 * byteOffset + bitOffset >= |bits|;
    }
    return Ok(lastFoundValue);
  }

  /** `FPANode.equals`: equal values and equal `next` arrays (both null or
      equal by the array's `equals`). */
  predicate NodeEquals<V(==)>(a: FNode<V>, b: FNode<V>)
    decreases a, 0
  {
    a.value == b.value &&
    (match a.next
     case None => b.next.None?
     case Some(x) => b.next.Some? && FpaEquals(x, b.next.value))
  }

  /** `ForwardingPortArray.equals`: the tables are equal as lists (same size,
      slot by slot `FPANode.equals`); the always-null `bitSet` adds nothing
      and the depth is not compared. */
  predicate FpaEquals<V(==)>(a: Fpa<V>, b: Fpa<V>)
    decreases a, 1
  {
    |a.table| == |b.table| && forall i :: 0 <= i < |a.table| ==> NodeEquals(a.table[i], b.table[i])
  }

  lemma {:induction false} Pow2Injective(a: nat, b: nat)
    requires Pow2(a) == Pow2(b)
    ensures a == b
  {
    if a < b {
      Pow2Monotone(a + 1, b);
    } else if b < a {
      Pow2Monotone(b + 1, a);
    }
  }

  /** On arrays the constructor builds, the Java equality is plain structural
      equality: a table of `2^depth` slots fixes the depth it was built with. */
  lemma {:induction false} FpaEqualsIsEquality<V>(a: Fpa<V>, b: Fpa<V>)
    requires WellFormed(a) && WellFormed(b)
    ensures FpaEquals(a, b) <==> a == b
    decreases a
  {
    if FpaEquals(a, b) {
      forall i | 0 <= i < |a.table| ensures a.table[i] == b.table[i] {
        assert NodeWellFormed(a.table[i]) && NodeWellFormed(b.table[i]);
        NodeEqualsIsEquality(a.table[i], b.table[i]);
      }
      assert a.table == b.table;
      Pow2Injective(a.depth, b.depth);
    }
    if a == b {
      forall i | 0 <= i < |a.table| ensures NodeEquals(a.table[i], b.table[i]) {
        assert NodeWellFormed(a.table[i]);
        NodeEqualsIsEquality(a.table[i], b.table[i]);
      }
    }
  }

  lemma {:induction false} NodeEqualsIsEquality<V>(a: FNode<V>, b: FNode<V>)
    requires NodeWellFormed(a) && NodeWellFormed(b)
    ensures NodeEquals(a, b) <==> a == b
    decreases a
  {
    if a.next.Some? && b.next.Some? {
      FpaEqualsIsEquality(a.next.value, b.next.value);
    }
  }
}

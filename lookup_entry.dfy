/** Lookup entries of every FPATree generation: a 2-bit type above a 30-bit
    index in one 32-bit word. Entries are modelled by their unsigned 32-bit
    value; Java's sign only shows for type 2 and is invisible to `>>>` and
    `&`. The model reads `e >>> 30` as `e / 2^30` and `e & 0x3FFFFFFF` as
    `e % 2^30`; `JavaBitOps` proves the two readings agree. */
module LookupEntries {
  import opened Bits

  const IndexBits: nat := 30
  /** `1 << 30`: one more than the index mask `0x3FFFFFFF`. */
  const IndexSpan: nat := 0x4000_0000
  const TypeLeaf: nat := 0
  /** `TYPE_DENSE`, called `TYPE_COMPRESSED` in the older tree. */
  const TypeDense: nat := 1
  const TypeSparse: nat := 2

  /** `lookupEntry >>> 30`. */
  function EntryType(e: nat): nat {
    e / IndexSpan
  }

  /** `lookupEntry & 0x3FFFFFFF`. */
  function EntryIndex(e: nat): nat {
    e % IndexSpan
  }

  /** `(type << 30) | (index & 0x3FFFFFFF)` of the newer tree, V2 and V3. */
  function Encode(entryType: nat, index: nat): nat
    requires entryType < 4
  {
    entryType * IndexSpan + index % IndexSpan
  }

  /** `(type << INDEX_BITS) | index` of the older tree: no mask, so an
      index of `2^30` or more has its high bits or-ed into the type. The
      low 30 bits are the index's own; `UnmaskedIsJava` shows this is the
      bitwise expression. */
  function EncodeUnmasked(entryType: nat, index: nat): nat
    requires entryType < 4
  {
    Or(entryType, index / IndexSpan) * IndexSpan + index % IndexSpan
  }

  lemma Pow2IndexBits()
    ensures Pow2(IndexBits) == IndexSpan
  {
    assert Pow2(10) == 1024;
    Pow2Add(10, 10);
    Pow2Add(20, 10);
  }

  /** The arithmetic reading is Java's: `>>> 30`, `& 0x3FFFFFFF` and
      `(type << 30) | (index & 0x3FFFFFFF)` on the bits. */
  lemma JavaBitOps(e: nat, entryType: nat, index: nat)
    requires entryType < 4
    ensures Shr(e, IndexBits) == EntryType(e)
    ensures And(e, Pow2(IndexBits) - 1) == EntryIndex(e)
    ensures Or(Shl(entryType, IndexBits), And(index, Pow2(IndexBits) - 1)) == Encode(entryType, index)
  {
    Pow2IndexBits();
    ShrIsDiv(e, IndexBits);
    AndLowMask(e, IndexBits);
    AndLowMask(index, IndexBits);
    OrShifted(entryType, index % IndexSpan, IndexBits);
  }

  /** The type and the masked index come back out of an entry, which fits
      in 32 bits. */
  lemma DecodeEncode(entryType: nat, index: nat)
    requires entryType < 4
    ensures Encode(entryType, index) < 4 * IndexSpan
    ensures EntryType(Encode(entryType, index)) == entryType
    ensures EntryIndex(Encode(entryType, index)) == index % IndexSpan
  {
    DivModUnique(Encode(entryType, index), IndexSpan, entryType, index % IndexSpan);
  }

  /** The unmasked encoding is Java's `(type << 30) | index` on the bits. */
  lemma UnmaskedIsJava(entryType: nat, index: nat)
    requires entryType < 4
    ensures Or(Shl(entryType, IndexBits), index) == EncodeUnmasked(entryType, index)
  {
    Pow2IndexBits();
    var q, r := index / IndexSpan, index % IndexSpan;
    assert index == q * IndexSpan + r;
    OrComm(entryType * IndexSpan, index);
    OrAbove(q, entryType, r, IndexBits);
    OrComm(q, entryType);
  }

  /** Below `2^30` the unmasked encoding is the masked one. */
  lemma UnmaskedAgrees(entryType: nat, index: nat)
    requires entryType < 4 && index < IndexSpan
    ensures EncodeUnmasked(entryType, index) == Encode(entryType, index)
  {
    DivModUnique(index, IndexSpan, 0, index);
  }

  /** The null entry: an entry is 0 exactly when it is a leaf pointing at
      index 0, the slot of `null` in the result list. */
  lemma EncodeZero(entryType: nat, index: nat)
    requires entryType < 4
    ensures Encode(entryType, index) == 0 <==> entryType == TypeLeaf && index % IndexSpan == 0
  {
  }

  /** A leaf entry is its index. */
  lemma LeafIsIndex(index: nat)
    requires index < IndexSpan
    ensures Encode(TypeLeaf, index) == index
  {
  }
}

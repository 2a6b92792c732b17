/** The value store every tree builder shares: `resultList`, the list the
    LEAF entries index, and `idxTable`, the hash table from each stored value
    to its position, which `getValueIndex` keeps in step with it. Java's
    `null` is `None`; a `Hashtable` keyed by `equals` is a map on values. */
module ValueTables {
  import opened Wrappers

  /** The list and the table agree: every indexed value sits at its index,
      and every stored value is indexed at its position, so no value is
      stored twice. */
  ghost predicate Indexed<V>(list: seq<Option<V>>, index: map<V, nat>) {
    (forall v | v in index :: index[v] < |list| && list[index[v]] == Some(v)) &&
    (forall i | 0 <= i < |list| && list[i].Some? :: list[i].value in index && index[list[i].value] == i)
  }

  /** A list whose values after slot 0 are indexed, so pairwise distinct,
      and drawn from `s` is at most one longer than `s` is large. */
  lemma {:induction false} ListBound<V>(list: seq<Option<V>>, index: map<V, nat>, s: set<V>)
    requires Indexed(list, index) && |list| > 0
    requires forall i :: 0 < i < |list| ==> list[i].Some? && list[i].value in s
    ensures |list| <= |s| + 1
    decreases |list|
  {
    if |list| > 1 {
      var n := |list| - 1;
      var v := list[n].value;
      var index' := map w | w in index && w != v :: index[w];
      forall i | 0 < i < n ensures list[i].value in s - {v} {
        assert index[list[i].value] == i;
      }
      ListBound(list[..n], index', s - {v});
    }
  }

  /** `getValueIndex` on the list and the table as values: the new list,
      the new table and the index. The list only ever grows, by at most the
      value asked for. */
  function Stored<V>(list: seq<Option<V>>, index: map<V, nat>, value: Option<V>): (r: (seq<Option<V>>, map<V, nat>, nat))
    ensures list <= r.0 && |r.0| <= |list| + 1
  {
    if value.None? then (list, index, 0)
    else if value.value in index then (list, index, index[value.value])
    else (list + [value], index[value.value := |list|], |list|)
  }

  /** On a list that starts with `null` and agrees with its table, the
      index found holds the value asked for, the list still starts with
      `null` and agrees with the new table, and only the value asked for
      was added. */
  lemma StoredIndexed<V>(list: seq<Option<V>>, index: map<V, nat>, value: Option<V>)
    requires Indexed(list, index) && |list| > 0 && list[0] == None
    ensures var (list', index', idx) := Stored(list, index, value);
            Indexed(list', index') && list'[0] == None && idx < |list'| && list'[idx] == value &&
            forall i :: |list| <= i < |list'| ==> list'[i] == value
  {
  }

  /** A LEAF index for `value`: `null` is 0; a value sits at its index. */
  ghost predicate LeafIs<V>(results: seq<Option<V>>, idx: nat, value: Option<V>) {
    if value.None? then idx == 0 else idx < |results| && results[idx] == value
  }

  /** On a list that starts with `null` and agrees with its table, a value
      has one LEAF index only. */
  lemma LeafIsUnique<V>(list: seq<Option<V>>, index: map<V, nat>, i: nat, j: nat, value: Option<V>)
    requires Indexed(list, index) && |list| > 0 && list[0] == None
    requires LeafIs(list, i, value) && LeafIs(list, j, value)
    ensures i == j
  {
  }

  class ValueTable<V(==)> {
    var list: seq<Option<V>>
    var index: map<V, nat>

    ghost predicate Valid()
      reads this
    {
      Indexed(list, index)
    }

    /** Slot 0 holds `null`, which the LEAF entry 0 stands for. */
    ghost predicate NullFirst()
      reads this
    {
      |list| > 0 && list[0] == None
    }

    /** `new ArrayList<>()` followed by `resultList.add(null)`, as the newer
        tree's builder, the older tree and V3 start. */
    constructor Seeded()
      ensures Valid() && NullFirst()
      ensures list == [None] && index == map[]
    {
      list := [None];
      index := map[];
    }

    /** `new ArrayList<>()` alone, as V2 starts. */
    constructor Unseeded()
      ensures Valid()
      ensures list == [] && index == map[]
    {
      list := [];
      index := map[];
    }

    /** `getValueIndex`: `null` is index 0; a value seen before gets its old
        index; a new value is appended and indexed at its position. When the
        list starts with `null`, the index found always holds the value
        asked for. */
    method GetValueIndex(value: Option<V>) returns (idx: nat)
      requires Valid()
      modifies this
      ensures Valid()
      ensures value.None? ==> idx == 0 && list == old(list) && index == old(index)
      ensures value.Some? && value.value in old(index) ==>
                idx == old(index)[value.value] && list == old(list) && index == old(index)
      ensures value.Some? && value.value !in old(index) ==>
                idx == old(|list|) && list == old(list) + [value] && index == old(index)[value.value := idx]
      ensures old(NullFirst()) ==> NullFirst() && idx < |list| && list[idx] == value
      ensures (list, index, idx) == Stored(old(list), old(index), value)
    {
      if value.None? {
        return 0;
      }
      var v := value.value;
      if v in index {
        idx := index[v];
      } else {
        idx := |list|;
        list := list + [value];
        index := index[v := idx];
      }
    }
  }

  /** What V2's unseeded list does to `null`: `null` and the first value
      stored both get index 0, so a LEAF entry 0 cannot tell them apart. */
  method UnseededCollision<V(==)>(x: V) returns (nullIdx: nat, firstIdx: nat, stored: Option<V>)
    ensures nullIdx == firstIdx == 0
    ensures stored == Some(x)
  {
    var values := new ValueTable<V>.Unseeded();
    nullIdx := values.GetValueIndex(None);
    firstIdx := values.GetValueIndex(Some(x));
    stored := values.list[firstIdx];
  }

  /** With the list seeded, `null` keeps index 0 and the first value gets
      index 1. */
  method SeededSeparates<V(==)>(x: V) returns (nullIdx: nat, firstIdx: nat, stored: Option<V>)
    ensures nullIdx == 0 && firstIdx == 1
    ensures stored == Some(x)
  {
    var values := new ValueTable<V>.Seeded();
    nullIdx := values.GetValueIndex(None);
    firstIdx := values.GetValueIndex(Some(x));
    stored := values.list[firstIdx];
  }
}

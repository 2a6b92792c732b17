/** `Collections.sort` and `List.sort` with a comparator that compares one
    number computed from each element: a stable sort by that key. Insertion
    from the front keeps equal keys in their original order. */
module Sorting {

  function Insert<T>(x: T, s: seq<T>, key: T -> nat): seq<T>
    decreases |s|
  {
    if |s| == 0 || key(x) <= key(s[0]) then [x] + s else [s[0]] + Insert(x, s[1..], key)
  }

  function SortByKey<T>(s: seq<T>, key: T -> nat): seq<T>
    decreases |s|
  {
    if |s| == 0 then [] else Insert(s[0], SortByKey(s[1..], key), key)
  }

  predicate SortedByKey<T>(s: seq<T>, key: T -> nat) {
    forall i, j :: 0 <= i < j < |s| ==> key(s[i]) <= key(s[j])
  }

  lemma {:induction false} InsertKeeps<T>(x: T, s: seq<T>, key: T -> nat)
    ensures multiset(Insert(x, s, key)) == multiset(s) + multiset{x}
    ensures forall y :: y in Insert(x, s, key) ==> y == x || y in s
    decreases |s|
  {
    if |s| > 0 && key(x) > key(s[0]) {
      InsertKeeps(x, s[1..], key);
      assert s == [s[0]] + s[1..];
    }
  }

  /** Putting `a` in front of a sorted sequence whose keys are all at least
      `a`'s keeps it sorted. */
  lemma ConsSorted<T>(a: T, r: seq<T>, key: T -> nat)
    requires SortedByKey(r, key)
    requires forall y :: y in r ==> key(a) <= key(y)
    ensures SortedByKey([a] + r, key)
  {
    var s := [a] + r;
    forall i, j | 0 <= i < j < |s| ensures key(s[i]) <= key(s[j]) {
      if i == 0 {
        assert s[j] == r[j - 1];
      } else {
        assert s[i] == r[i - 1] && s[j] == r[j - 1];
      }
    }
  }

  lemma {:induction false} InsertSorted<T>(x: T, s: seq<T>, key: T -> nat)
    requires SortedByKey(s, key)
    ensures SortedByKey(Insert(x, s, key), key)
    decreases |s|
  {
    if |s| == 0 || key(x) <= key(s[0]) {
      forall y | y in s ensures key(x) <= key(y) {
        var j :| 0 <= j < |s| && s[j] == y;
        if j > 0 {
          assert key(s[0]) <= key(s[j]);
        }
      }
      ConsSorted(x, s, key);
    } else {
      var rest := s[1..];
      assert SortedByKey(rest, key) by {
        forall i, j | 0 <= i < j < |rest| ensures key(rest[i]) <= key(rest[j]) {
          assert rest[i] == s[i + 1] && rest[j] == s[j + 1];
        }
      }
      InsertSorted(x, rest, key);
      InsertKeeps(x, rest, key);
      forall y | y in Insert(x, rest, key) ensures key(s[0]) <= key(y) {
        if y != x {
          var j :| 0 <= j < |rest| && rest[j] == y;
          assert s[j + 1] == y;
        }
      }
      ConsSorted(s[0], Insert(x, rest, key), key);
    }
  }

  /** The sort keeps every element, as often as it occurs, and orders the
      result by key. */
  lemma {:induction false} SortByKeyFacts<T>(s: seq<T>, key: T -> nat)
    ensures multiset(SortByKey(s, key)) == multiset(s)
    ensures SortedByKey(SortByKey(s, key), key)
    decreases |s|
  {
    if |s| > 0 {
      SortByKeyFacts(s[1..], key);
      InsertKeeps(s[0], SortByKey(s[1..], key), key);
      InsertSorted(s[0], SortByKey(s[1..], key), key);
      assert s == [s[0]] + s[1..];
    }
  }
}

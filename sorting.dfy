/** `DataFrame.sort_values("timestamp")` (app.py lines 84 and 97): the rows of a table are put in
    ascending order of an integer key. pandas' default sort is not stable, so nothing is promised
    about the relative order of rows with equal keys: only that the result is sorted and is a
    permutation of the input. */
module Sorting {

  /** `s` is in ascending order of `key`. */
  ghost predicate SortedBy<T>(s: seq<T>, key: T -> int)
  {
    forall i, j :: 0 <= i < j < |s| ==> key(s[i]) <= key(s[j])
  }

  /** Elements of `s` that share a key are equal: the key identifies an element. */
  ghost predicate KeyIdentifies<T>(s: seq<T>, key: T -> int)
  {
    forall x, y :: x in s && y in s && key(x) == key(y) ==> x == y
  }

  /** Sorts `a` in place by `key` (insertion sort): afterwards `a` is in ascending key order and
      holds the same elements as before. */
  method SortByKey<T>(a: array<T>, key: T -> int)
    modifies a
    ensures SortedBy(a[..], key)
    ensures multiset(a[..]) == old(multiset(a[..]))
  {
    for i := 0 to a.Length
      invariant forall p, q :: 0 <= p < q < i ==> key(a[p]) <= key(a[q])
      invariant multiset(a[..]) == old(multiset(a[..]))
    {
      InsertLast(a, i, key);
    }
  }

  /** Moves `a[i]` left into the sorted prefix `a[..i]`, so that `a[..i + 1]` is sorted; the
      elements after position `i` stay where they are. */
  method InsertLast<T>(a: array<T>, i: int, key: T -> int)
    requires 0 <= i < a.Length
    requires forall p, q :: 0 <= p < q < i ==> key(a[p]) <= key(a[q])
    modifies a
    ensures forall p, q :: 0 <= p < q <= i ==> key(a[p]) <= key(a[q])
    ensures forall k :: i < k < a.Length ==> a[k] == old(a[k])
    ensures multiset(a[..]) == old(multiset(a[..]))
  {
    var j := i;
    while j > 0 && key(a[j - 1]) > key(a[j])
      invariant 0 <= j <= i
      invariant forall p, q :: 0 <= p < q <= i && p != j && q != j ==> key(a[p]) <= key(a[q])
      invariant forall q :: j < q <= i ==> key(a[j]) < key(a[q])
      invariant 0 < j < i ==> key(a[j - 1]) <= key(a[j + 1])
      invariant forall k :: i < k < a.Length ==> a[k] == old(a[k])
      invariant multiset(a[..]) == old(multiset(a[..]))
    {
      Swap(a, j - 1, j);
      j := j - 1;
    }
  }

  /** Exchanges `a[i]` and `a[j]` and leaves every other element where it was. */
  method Swap<T>(a: array<T>, i: int, j: int)
    requires 0 <= i < a.Length && 0 <= j < a.Length
    modifies a
    ensures a[i] == old(a[j]) && a[j] == old(a[i])
    ensures forall k :: 0 <= k < a.Length && k != i && k != j ==> a[k] == old(a[k])
    ensures multiset(a[..]) == old(multiset(a[..]))
  {
    a[i], a[j] := a[j], a[i];
  }

  /** A sorted permutation is unique when the key identifies elements: two sequences that are
      both sorted by `key` and hold the same elements, where elements with equal keys are equal,
      are equal. So sorting a
      table gives the same result whatever order its rows arrived in. */
  lemma {:induction false} SortedPermutationUnique<T>(s: seq<T>, t: seq<T>, key: T -> int)
    requires SortedBy(s, key) && SortedBy(t, key)
    requires multiset(s) == multiset(t)
    requires KeyIdentifies(s, key)
    ensures s == t
  {
    assert |s| == |multiset(s)| == |multiset(t)| == |t|;
    if |s| > 0 {
      SortedHeadsEqual(s, t, key);
      SameTailElements(s, t);
      assert KeyIdentifies(s[1..], key) by {
        forall x | x in s[1..] ensures x in s { }
      }
      SortedPermutationUnique(s[1..], t[1..], key);
      assert s == [s[0]] + s[1..] && t == [t[0]] + t[1..];
    }
  }

  /** Two non-empty sorted sequences with the same elements, whose key identifies elements, start alike. */
  lemma SortedHeadsEqual<T>(s: seq<T>, t: seq<T>, key: T -> int)
    requires SortedBy(s, key) && SortedBy(t, key)
    requires multiset(s) == multiset(t)
    requires KeyIdentifies(s, key)
    requires |s| > 0 && |t| > 0
    ensures s[0] == t[0]
  {
    assert t[0] in multiset(s) by { assert t[0] in multiset(t); }
    assert s[0] in multiset(t) by { assert s[0] in multiset(s); }
    var m :| 0 <= m < |s| && s[m] == t[0];
    var k :| 0 <= k < |t| && t[k] == s[0];
    assert key(s[0]) <= key(s[m]) == key(t[0]) <= key(t[k]) == key(s[0]);
  }

  /** Removing the same first element from two sequences with the same elements leaves
      two sequences with the same elements. */
  lemma SameTailElements<T>(s: seq<T>, t: seq<T>)
    requires |s| > 0 && |t| > 0 && s[0] == t[0]
    requires multiset(s) == multiset(t)
    ensures multiset(s[1..]) == multiset(t[1..])
  {
    assert s == [s[0]] + s[1..];
    assert t == [t[0]] + t[1..];
    assert multiset(s[1..]) == multiset(s) - multiset([s[0]]);
    assert multiset(t[1..]) == multiset(t) - multiset([t[0]]);
  }
}

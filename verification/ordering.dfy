/** Ordering a list by an integer key, most recent first: the `getAllNotes` sort of both stores. */
module Ordering {

  /** `s` lists its elements from the largest key to the smallest (ties in any order). */
  ghost predicate SortedDesc<T>(s: seq<T>, key: T -> int) {
    forall i, j :: 0 <= i < j < |s| ==> key(s[i]) >= key(s[j])
  }

  /** Places `x` in front of the first element whose key is not larger than its own. */
  function Insert<T>(x: T, s: seq<T>, key: T -> int): (r: seq<T>)
    requires SortedDesc(s, key)
    ensures SortedDesc(r, key)
    ensures multiset(r) == multiset(s) + multiset{x}
  {
    if |s| == 0 || key(s[0]) <= key(x) then [x] + s
    else
      var rest := Insert(x, s[1..], key);
      assert s == [s[0]] + s[1..];
      assert forall y :: y in rest ==> key(s[0]) >= key(y) by {
        forall y | y in rest ensures key(s[0]) >= key(y) {
          assert y in multiset(rest);
        }
      }
      HeadDominates(s[0], rest, key);
      [s[0]] + rest
  }

  /** An element at least as large as every member of a sorted list may be put in front of it. */
  lemma HeadDominates<T>(h: T, rest: seq<T>, key: T -> int)
    requires SortedDesc(rest, key)
    requires forall y :: y in rest ==> key(h) >= key(y)
    ensures SortedDesc([h] + rest, key)
  {
  }

  /** Two lists with the same multiset have the same length and the same members. */
  lemma PermutationMembers<T>(a: seq<T>, b: seq<T>)
    requires multiset(a) == multiset(b)
    ensures |a| == |b|
    ensures forall x :: x in a <==> x in b
  {
    assert |multiset(a)| == |multiset(b)|;
    forall x ensures x in a <==> x in b {
      assert x in a <==> x in multiset(a);
      assert x in b <==> x in multiset(b);
    }
  }

  /**
   * Sorts `s` by `key`, largest first. Elements with equal keys keep their input order;
   * the source's comparator never answers "equal", so any tie order is as good as this one.
   */
  function SortDesc<T>(s: seq<T>, key: T -> int): (r: seq<T>)
    ensures SortedDesc(r, key)
    ensures multiset(r) == multiset(s)
  {
    if |s| == 0 then []
    else
      assert s == [s[0]] + s[1..];
      Insert(s[0], SortDesc(s[1..], key), key)
  }

  /** A list that is already in order is returned as it is: re-reading a sorted write changes nothing. */
  lemma {:induction false} SortDescSorted<T>(s: seq<T>, key: T -> int)
    requires SortedDesc(s, key)
    ensures SortDesc(s, key) == s
  {
    if |s| > 0 {
      SortDescSorted(s[1..], key);
      assert s == [s[0]] + s[1..];
    }
  }

  /** Sorting twice is sorting once. */
  lemma SortDescIdempotent<T>(s: seq<T>, key: T -> int)
    ensures SortDesc(SortDesc(s, key), key) == SortDesc(s, key)
  {
    SortDescSorted(SortDesc(s, key), key);
  }

  /**
   * When `x` has a strictly larger key than every other element of `s`, every sorted
   * permutation of `s` starts with `x`.
   */
  lemma SortedHeadIsStrictMax<T>(s: seq<T>, r: seq<T>, key: T -> int, x: T)
    requires SortedDesc(r, key)
    requires multiset(r) == multiset(s)
    requires x in s
    requires forall y :: y in s && y != x ==> key(y) < key(x)
    ensures |r| > 0 && r[0] == x
  {
    assert x in multiset(s);
    assert x in r;
    var j :| 0 <= j < |r| && r[j] == x;
    assert r[0] in multiset(s);
    assert j == 0 || key(r[0]) >= key(r[j]);
  }
}

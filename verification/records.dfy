/**
 * Lookups and removals by id over a list of records, as both stores perform them
 * with `Array.prototype.find` and `Array.prototype.filter`.
 */
module Records {
  import opened Wrappers
  import opened Ordering

  /** Some record of `s` carries id `k`. */
  ghost predicate HasId<T>(s: seq<T>, idOf: T -> int, k: int) {
    exists j :: 0 <= j < |s| && idOf(s[j]) == k
  }

  /** No two records of `s` share an id. */
  ghost predicate UniqueIds<T>(s: seq<T>, idOf: T -> int) {
    forall i, j :: 0 <= i < j < |s| ==> idOf(s[i]) != idOf(s[j])
  }

  /** The index of the first record with id `k`, as `find` returns the first match. */
  function FindFirst<T>(s: seq<T>, idOf: T -> int, k: int): (r: Option<nat>)
    ensures r.Some? ==> r.value < |s| && idOf(s[r.value]) == k
    ensures r.Some? ==> forall j :: 0 <= j < r.value ==> idOf(s[j]) != k
    ensures r.None? <==> !HasId(s, idOf, k)
  {
    if |s| == 0 then None
    else if idOf(s[0]) == k then Some(0)
    else
      match FindFirst(s[1..], idOf, k)
      case None => None
      case Some(i) => Some(i + 1)
  }

  /** The records whose id differs from `k`, in their original order (`filter(note => note.id != k)`). */
  function RemoveId<T(!new)>(s: seq<T>, idOf: T -> int, k: int): (r: seq<T>)
    ensures forall j :: 0 <= j < |r| ==> idOf(r[j]) != k && r[j] in s
    ensures forall j :: 0 <= j < |s| && idOf(s[j]) != k ==> s[j] in r
  {
    if |s| == 0 then []
    else
      assert s == [s[0]] + s[1..];
      (if idOf(s[0]) == k then [] else [s[0]]) + RemoveId(s[1..], idOf, k)
  }

  /** Removal keeps every other record exactly as often as it occurred, and drops all with id `k`. */
  lemma {:induction false} RemoveIdMultiset<T(!new)>(s: seq<T>, idOf: T -> int, k: int)
    ensures forall y :: multiset(RemoveId(s, idOf, k))[y] == if idOf(y) == k then 0 else multiset(s)[y]
  {
    if |s| > 0 {
      RemoveIdMultiset(s[1..], idOf, k);
      assert s == [s[0]] + s[1..];
    }
  }

  /** Removing an id nobody carries returns the list unchanged. */
  lemma {:induction false} RemoveAbsentId<T(!new)>(s: seq<T>, idOf: T -> int, k: int)
    requires !HasId(s, idOf, k)
    ensures RemoveId(s, idOf, k) == s
  {
    if |s| > 0 {
      assert idOf(s[0]) != k;
      assert !HasId(s[1..], idOf, k) by {
        forall j | 0 <= j < |s[1..]| ensures idOf(s[1..][j]) != k {
          assert s[1..][j] == s[j + 1];
        }
      }
      RemoveAbsentId(s[1..], idOf, k);
      assert s == [s[0]] + s[1..];
    }
  }

  /** Removal works piecewise, so the kept records stay in their relative order. */
  lemma {:induction false} RemoveIdConcat<T(!new)>(a: seq<T>, b: seq<T>, idOf: T -> int, k: int)
    ensures RemoveId(a + b, idOf, k) == RemoveId(a, idOf, k) + RemoveId(b, idOf, k)
  {
    if |a| > 0 {
      var head := if idOf(a[0]) == k then [] else [a[0]];
      assert (a + b)[0] == a[0];
      assert (a + b)[1..] == a[1..] + b;
      RemoveIdConcat(a[1..], b, idOf, k);
      calc {
        RemoveId(a + b, idOf, k);
        head + RemoveId(a[1..] + b, idOf, k);
        head + (RemoveId(a[1..], idOf, k) + RemoveId(b, idOf, k));
        (head + RemoveId(a[1..], idOf, k)) + RemoveId(b, idOf, k);
        RemoveId(a, idOf, k) + RemoveId(b, idOf, k);
      }
    } else {
      assert a + b == b;
    }
  }

  /** Removal keeps a list ordered by any key. */
  lemma {:induction false} RemoveIdKeepsSorted<T(!new)>(s: seq<T>, idOf: T -> int, k: int, key: T -> int)
    requires SortedDesc(s, key)
    ensures SortedDesc(RemoveId(s, idOf, k), key)
  {
    if |s| > 0 {
      assert SortedDesc(s[1..], key);
      RemoveIdKeepsSorted(s[1..], idOf, k, key);
      var rest := RemoveId(s[1..], idOf, k);
      assert forall y :: y in rest ==> key(s[0]) >= key(y);
      if idOf(s[0]) != k {
        HeadDominates(s[0], rest, key);
      }
    }
  }

  /** Removal never creates a duplicate id. */
  lemma {:induction false} RemoveIdKeepsUniqueIds<T(!new)>(s: seq<T>, idOf: T -> int, k: int)
    requires UniqueIds(s, idOf)
    ensures UniqueIds(RemoveId(s, idOf, k), idOf)
  {
    if |s| > 0 {
      assert UniqueIds(s[1..], idOf);
      RemoveIdKeepsUniqueIds(s[1..], idOf, k);
      var rest := RemoveId(s[1..], idOf, k);
      forall y | y in rest ensures idOf(s[0]) != idOf(y) {
        assert y in multiset(rest);
        assert y in multiset(s[1..]);
      }
    }
  }

  /** Inserting a record whose id is new keeps ids unique. */
  lemma {:induction false} InsertKeepsUniqueIds<T>(x: T, s: seq<T>, key: T -> int, idOf: T -> int)
    requires SortedDesc(s, key)
    requires UniqueIds(s, idOf)
    requires !HasId(s, idOf, idOf(x))
    ensures UniqueIds(Insert(x, s, key), idOf)
  {
    if |s| > 0 && key(s[0]) > key(x) {
      assert UniqueIds(s[1..], idOf);
      assert !HasId(s[1..], idOf, idOf(x)) by {
        forall j | 0 <= j < |s[1..]| ensures idOf(s[1..][j]) != idOf(x) {
          assert s[1..][j] == s[j + 1];
        }
      }
      InsertKeepsUniqueIds(x, s[1..], key, idOf);
      var rest := Insert(x, s[1..], key);
      forall y | y in rest ensures idOf(s[0]) != idOf(y) {
        assert y in multiset(rest);
        assert y in multiset(s[1..]) + multiset{x};
      }
    }
  }

  /** Sorting keeps ids unique. */
  lemma {:induction false} SortKeepsUniqueIds<T>(s: seq<T>, key: T -> int, idOf: T -> int)
    requires UniqueIds(s, idOf)
    ensures UniqueIds(SortDesc(s, key), idOf)
  {
    if |s| > 0 {
      assert s == [s[0]] + s[1..];
      assert UniqueIds(s[1..], idOf);
      SortKeepsUniqueIds(s[1..], key, idOf);
      var sorted := SortDesc(s[1..], key);
      assert !HasId(sorted, idOf, idOf(s[0])) by {
        forall j | 0 <= j < |sorted| ensures idOf(sorted[j]) != idOf(s[0]) {
          assert sorted[j] in multiset(sorted);
          assert sorted[j] in multiset(s[1..]);
        }
      }
      InsertKeepsUniqueIds(s[0], sorted, key, idOf);
    }
  }

  /** Sorting keeps the set of ids carried: `k` is present after sorting exactly when before. */
  lemma SortKeepsIds<T>(s: seq<T>, key: T -> int, idOf: T -> int, k: int)
    ensures HasId(SortDesc(s, key), idOf, k) <==> HasId(s, idOf, k)
  {
    var r := SortDesc(s, key);
    if HasId(s, idOf, k) {
      var j :| 0 <= j < |s| && idOf(s[j]) == k;
      assert s[j] in multiset(r);
    }
    if HasId(r, idOf, k) {
      var j :| 0 <= j < |r| && idOf(r[j]) == k;
      assert r[j] in multiset(s);
    }
  }
}

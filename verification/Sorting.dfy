/** Sorting by a pair of integers, and why the order handed over does not matter when keys differ. */
module Sorting {

  predicate Before(a: (int, int), b: (int, int)) { a.0 < b.0 || (a.0 == b.0 && a.1 < b.1) }

  /** Strictly increasing keys. */
  ghost predicate Sorted<T>(s: seq<T>, key: T -> (int, int)) {
    forall i, j | 0 <= i < j < |s| :: Before(key(s[i]), key(s[j]))
  }

  ghost predicate DistinctKeys<T>(s: seq<T>, key: T -> (int, int)) {
    forall i, j | 0 <= i < j < |s| :: key(s[i]) != key(s[j])
  }

  ghost predicate SameElements<T(!new)>(s: seq<T>, t: seq<T>) { forall x :: x in s <==> x in t }

  function Insert<T>(x: T, s: seq<T>, key: T -> (int, int)): (r: seq<T>)
    ensures |r| == |s| + 1
  {
    if s == [] || Before(key(x), key(s[0])) then [x] + s else [s[0]] + Insert(x, s[1..], key)
  }

  function SortBy<T>(s: seq<T>, key: T -> (int, int)): (r: seq<T>)
    ensures |r| == |s|
  {
    if s == [] then [] else Insert(s[0], SortBy(s[1..], key), key)
  }

  lemma {:induction false} InsertFacts<T(!new)>(x: T, s: seq<T>, key: T -> (int, int))
    requires Sorted(s, key) && forall y | y in s :: key(y) != key(x)
    ensures Sorted(Insert(x, s, key), key)
    ensures forall y :: y in Insert(x, s, key) <==> y == x || y in s
  {
    if s != [] && !Before(key(x), key(s[0])) {
      var t := Insert(x, s[1..], key);
      InsertFacts(x, s[1..], key);
      assert forall y :: y in s <==> y == s[0] || y in s[1..];
      forall j | 0 <= j < |t| ensures Before(key(s[0]), key(t[j])) {
        assert t[j] in t;
        if t[j] in s[1..] { var i :| 0 <= i < |s[1..]| && s[1..][i] == t[j]; assert s[i + 1] == t[j]; }
      }
    }
  }

  lemma {:induction false} SortFacts<T(!new)>(s: seq<T>, key: T -> (int, int))
    requires DistinctKeys(s, key)
    ensures Sorted(SortBy(s, key), key) && SameElements(SortBy(s, key), s)
  {
    if s != [] {
      SortFacts(s[1..], key);
      forall y | y in SortBy(s[1..], key) ensures key(y) != key(s[0]) {
        assert y in s[1..];
        var i :| 0 <= i < |s[1..]| && s[1..][i] == y;
        assert key(s[0]) != key(s[i + 1]);
      }
      InsertFacts(s[0], SortBy(s[1..], key), key);
      assert forall y :: y in s <==> y == s[0] || y in s[1..];
    }
  }

  /** There is only one sorted arrangement of the same elements. */
  lemma {:induction false} SortedUnique<T(!new)>(s: seq<T>, t: seq<T>, key: T -> (int, int))
    requires Sorted(s, key) && Sorted(t, key) && SameElements(s, t)
    ensures s == t
  {
    assert (s != [] ==> s[0] in t) && (t != [] ==> t[0] in s);
    if s != [] && t != [] {
      var i :| 0 <= i < |t| && t[i] == s[0];
      var j :| 0 <= j < |s| && s[j] == t[0];
      assert s[0] == t[0];
      forall x ensures x in s[1..] <==> x in t[1..] {
        assert x in s <==> x in t;
        assert x in s[1..] ==> key(x) != key(s[0]);
        assert x in t[1..] ==> key(x) != key(t[0]);
        assert x in s <==> x == s[0] || x in s[1..];
        assert x in t <==> x == t[0] || x in t[1..];
      }
      SortedUnique(s[1..], t[1..], key);
    }
  }

  /** Sorting gives the same result in whatever order the elements are handed over. */
  lemma SortIgnoresOrder<T(!new)>(s: seq<T>, t: seq<T>, key: T -> (int, int))
    requires DistinctKeys(s, key) && DistinctKeys(t, key) && SameElements(s, t)
    ensures SortBy(s, key) == SortBy(t, key)
  {
    SortFacts(s, key);
    SortFacts(t, key);
    SortedUnique(SortBy(s, key), SortBy(t, key), key);
  }

  /** Sorting keeps every element, and puts first one that no other comes before, repeats or not. */
  lemma {:induction false} SortKeeps<T>(s: seq<T>, key: T -> (int, int))
    ensures multiset(SortBy(s, key)) == multiset(s)
    ensures forall y | y in SortBy(s, key) :: !Before(key(y), key(SortBy(s, key)[0]))
  {
    if s != [] {
      SortKeeps(s[1..], key);
      InsertKeeps(s[0], SortBy(s[1..], key), key);
      assert s == [s[0]] + s[1..];
    }
  }

  lemma {:induction false} InsertKeeps<T>(x: T, s: seq<T>, key: T -> (int, int))
    requires forall y | y in s :: !Before(key(y), key(s[0]))
    ensures multiset(Insert(x, s, key)) == multiset(s) + multiset{x}
    ensures forall y | y in Insert(x, s, key) :: !Before(key(y), key(Insert(x, s, key)[0]))
  {
    InsertIsPermutation(x, s, key);
    forall y | y in Insert(x, s, key) ensures !Before(key(y), key(Insert(x, s, key)[0])) {
      assert y in multiset(Insert(x, s, key));
      assert y in multiset(s) + multiset{x};
    }
  }

  lemma {:induction false} InsertIsPermutation<T>(x: T, s: seq<T>, key: T -> (int, int))
    ensures multiset(Insert(x, s, key)) == multiset(s) + multiset{x}
  {
    if s != [] && !Before(key(x), key(s[0])) {
      InsertIsPermutation(x, s[1..], key);
      assert s == [s[0]] + s[1..];
    }
  }
}

/** Sequences without repeats, and the sets they list. */
module Sequences {

  ghost predicate Distinct<T>(s: seq<T>) { forall i, j | 0 <= i < j < |s| :: s[i] != s[j] }

  ghost function Elements<T>(s: seq<T>): set<T> { set x | x in s }

  lemma DistinctSnoc<T>(s: seq<T>, x: T)
    requires Distinct(s) && x !in Elements(s)
    ensures Distinct(s + [x]) && Elements(s + [x]) == Elements(s) + {x}
  {
  }

  lemma {:induction false} DistinctFits<T>(s: seq<T>, bound: set<T>)
    requires Distinct(s) && Elements(s) <= bound
    ensures |s| <= |bound|
  {
    if s != [] {
      var last := s[|s| - 1];
      var front := s[..|s| - 1];
      assert last in Elements(s);
      forall x | x in front ensures x in bound - {last} { assert x in Elements(s); }
      DistinctFits(front, bound - {last});
    }
  }

  lemma {:induction false} ElementsFit<T>(s: seq<T>)
    ensures |Elements(s)| <= |s|
    ensures Distinct(s) ==> |Elements(s)| == |s|
  {
    if s != [] {
      var front, last := s[..|s| - 1], s[|s| - 1];
      ElementsFit(front);
      assert Elements(s) == Elements(front) + {last};
      if Distinct(s) { assert last !in Elements(front); }
    }
  }
}

// Sequences without duplicates, and how long they can be.
module Sequences {
  predicate Distinct<T(==)>(s: seq<T>) { forall i, j :: 0 <= i < j < |s| ==> s[i] != s[j] }

  lemma {:induction false} DistinctFits<T>(s: seq<T>, u: set<T>)
    requires Distinct(s) && forall x :: x in s ==> x in u
    ensures |s| <= |u|
  {
    if s != [] {
      var s', a := s[..|s| - 1], s[|s| - 1];
      assert forall x :: x in s' ==> x in u - {a};
      DistinctFits(s', u - {a});
    }
  }

  lemma {:induction false} SetFits<T>(s: seq<T>, u: set<T>)
    requires forall x :: x in u ==> x in s
    ensures |u| <= |s|
  {
    if s != [] {
      var s', a := s[..|s| - 1], s[|s| - 1];
      SetFits(s', u - {a});
    }
  }
}

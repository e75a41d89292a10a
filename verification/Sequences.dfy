/** Sequences without repetition, and the sizes of sets. */
module Sequences {

  predicate Distinct<T(==)>(s: seq<T>) {
    forall i, j | 0 <= i < j < |s| :: s[i] != s[j]
  }

  function Elements<T>(s: seq<T>): set<T> {
    set x | x in s
  }

  lemma {:induction false} DistinctSize<T>(s: seq<T>)
    requires Distinct(s)
    ensures |Elements(s)| == |s|
    decreases |s|
  {
    if s != [] {
      var init := s[..|s| - 1];
      DistinctSize(init);
      assert s == init + [s[|s| - 1]];
      assert Elements(s) == Elements(init) + {s[|s| - 1]};
    }
  }

  lemma SubsetSize<T>(small: set<T>, big: set<T>)
    requires small <= big
    ensures |small| <= |big|
  {
    assert big == small + (big - small);
  }

  lemma NoLongerThan<T>(full: seq<T>, path: seq<T>)
    requires Distinct(full) && Distinct(path) && forall v | v in full :: v in path
    ensures |full| <= |path|
  {
    DistinctSize(full);
    DistinctSize(path);
    SubsetSize(Elements(full), Elements(path));
  }

  lemma CoveringPrefix<T>(path: seq<T>, full: seq<T>)
    requires path <= full && Distinct(full) && forall v | v in full :: v in path
    ensures path == full
  {
    DistinctSize(path);
    DistinctSize(full);
    assert Elements(path) == Elements(full);
  }

  lemma DistinctConcat<T>(a: seq<T>, b: seq<T>)
    requires Distinct(a) && Distinct(b) && forall x | x in a :: x !in b
    ensures Distinct(a + b)
  {
    forall i, j | 0 <= i < j < |a + b|
      ensures (a + b)[i] != (a + b)[j]
    {
      if i < |a| <= j {
        assert (a + b)[i] in a && (a + b)[j] in b;
      }
    }
  }
}

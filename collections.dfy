/** Small facts about sequences used as enumerations of sets (a `HashSet` walked by `foreach`). */
module Collections {

  /** The elements of a sequence, as `new HashSet<T>(sequence)` keeps them. */
  function SetOf<T>(s: seq<T>): set<T>
  {
    set x | x in s
  }

  /** No element occurs twice. */
  predicate Distinct<T(==)>(s: seq<T>)
  {
    forall a, b :: 0 <= a < b < |s| ==> s[a] != s[b]
  }

  /** `s` lists every element of `S` exactly once, in some order. */
  predicate Enumerates<T(==)>(s: seq<T>, S: set<T>)
  {
    Distinct(s) && SetOf(s) == S
  }

  lemma {:induction false} DistinctCardinality<T>(s: seq<T>)
    requires Distinct(s)
    ensures |SetOf(s)| == |s|
  {
    if s != [] {
      var init := s[..|s| - 1];
      DistinctCardinality(init);
      assert SetOf(s) == SetOf(init) + {s[|s| - 1]};
      assert s[|s| - 1] !in SetOf(init);
    }
  }

  lemma DistinctAppend<T>(a: seq<T>, b: seq<T>)
    requires Distinct(a) && Distinct(b) && SetOf(a) !! SetOf(b)
    ensures Distinct(a + b)
  {
    forall x, y | 0 <= x < y < |a + b|
      ensures (a + b)[x] != (a + b)[y]
    {
      if x < |a| && |a| <= y {
        assert (a + b)[x] in SetOf(a) && (a + b)[y] in SetOf(b);
      }
    }
  }
}

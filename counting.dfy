/** Cardinality facts about the elements of a sequence. */
module Counting {

  /** No element of `s` occurs twice. */
  predicate Distinct<T(==)>(s: seq<T>) {
    forall i, j :: 0 <= i < j < |s| ==> s[i] != s[j]
  }

  function Elements<T>(s: seq<T>): set<T> {
    set x | x in s
  }

  /** A sequence without repetitions has as many distinct elements as positions. */
  lemma {:induction false} DistinctCard<T>(s: seq<T>)
    requires Distinct(s)
    ensures |Elements(s)| == |s|
  {
    if s != [] {
      var init := s[..|s| - 1];
      var last := s[|s| - 1];
      assert Distinct(init);
      DistinctCard(init);
      assert Elements(s) == Elements(init) + {last} by {
        forall x ensures x in Elements(s) <==> x in Elements(init) + {last} {
          if x in s {
            var k :| 0 <= k < |s| && s[k] == x;
            if k < |s| - 1 { assert init[k] == x; }
          }
        }
      }
      assert last !in Elements(init);
    }
  }

  /** A set that holds every element of a repetition-free sequence is at least as large. */
  lemma SupersetCard<T>(s: seq<T>, big: set<T>)
    requires Distinct(s)
    requires forall i :: 0 <= i < |s| ==> s[i] in big
    ensures |big| >= |s|
  {
    DistinctCard(s);
    var small := Elements(s);
    assert small <= big;
    assert big == small + (big - small);
    assert |big| == |small| + |big - small|;
  }
}

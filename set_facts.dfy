/** Small facts about finite sets used by the worklist proofs. */
module SetFacts {
  /** A proper subset is strictly smaller. */
  lemma ProperSubsetSmaller<T>(a: set<T>, b: set<T>)
    requires a < b
    ensures |a| < |b|
  {
    var x :| x in b && x !in a;
    assert b == a + (b - a) && a * (b - a) == {};
  }

  /** Taking one element out of a set makes it one smaller, and putting it back
    * gives the set again. */
  lemma RemoveOne<T>(s: set<T>, x: T)
    requires x in s
    ensures |s - {x}| == |s| - 1 && (s - {x}) + {x} == s
  {
  }

  /** Moving x from the part still to do to the part done. */
  lemma MoveOne<T>(all: set<T>, todo: set<T>, x: T)
    requires x in todo && todo <= all
    ensures (all - todo) + {x} == all - (todo - {x})
  {
  }
}

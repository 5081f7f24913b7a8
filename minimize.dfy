/**
 * Minimisation (operators/minimize_dfa.py): the quotient of a DFA by the
 * partition partition_dfa_states computes.  Each class becomes a state; a class
 * moves on a symbol to the class of its representative's successor; the start
 * and accept states are the classes of the old ones.  Classes no word reaches
 * are kept, since unreachable states are not dropped.
 */
module Minimize {
  import opened Wrappers
  import opened SetFacts
  import opened Dfas
  import opened PartitionRefinements
  import opened Hopcroft

  /** The states indistinguishable from x: the class minimisation puts x in. */
  ghost function Block<Q(!new), A(!new)>(d: Dfa<Q, A>, x: Q): set<Q>
    requires Valid(d)
  {
    set y | y in d.states && !Distinct(d, x, y)
  }

  /** m is the quotient of d by indistinguishability: its states are the blocks,
    * the alphabet is d's, the block of x moves on a to the block of x's
    * successor, and start and accept states are the blocks of d's. */
  ghost predicate IsQuotient<Q(!new), A(!new)>(d: Dfa<Q, A>, m: Dfa<set<Q>, A>)
  {
    && Valid(d) && Valid(m)
    && m.alphabet == d.alphabet
    && m.states == (set x | x in d.states :: Block(d, x))
    && m.start == Block(d, d.start)
    && m.accept == (set f | f in d.accept :: Block(d, f))
    && (forall x, a {:trigger d.delta[(x, a)]} :: x in d.states && a in d.alphabet ==>
          m.delta[(Block(d, x), a)] == Block(d, d.delta[(x, a)]))
  }

  // ---- indistinguishability -----------------------------------------------------

  /** Two indistinguishable states agree on every word over the alphabet. */
  lemma IndistinctAgree<Q(!new), A(!new)>(d: Dfa<Q, A>, x: Q, y: Q, w: seq<A>)
    requires Valid(d) && !Distinct(d, x, y) && Over(w, d.alphabet)
    ensures AcceptsFrom(d, x, w) == AcceptsFrom(d, y, w)
  {
  }

  /** Indistinguishability is transitive. */
  lemma IndistinctTrans<Q(!new), A(!new)>(d: Dfa<Q, A>, x: Q, y: Q, z: Q)
    requires Valid(d) && !Distinct(d, x, y) && !Distinct(d, y, z)
    ensures !Distinct(d, x, z)
  {
    forall w | Over(w, d.alphabet) ensures AcceptsFrom(d, x, w) == AcceptsFrom(d, z, w) {
      IndistinctAgree(d, x, y, w);
      IndistinctAgree(d, y, z, w);
    }
  }

  /** Each state lies in its own block. */
  lemma InOwnBlock<Q(!new), A(!new)>(d: Dfa<Q, A>, x: Q)
    requires Valid(d) && x in d.states
    ensures x in Block(d, x)
  {
  }

  /** The blocks of two states coincide exactly when the states are indistinguishable. */
  lemma BlocksEqual<Q(!new), A(!new)>(d: Dfa<Q, A>, x: Q, y: Q)
    requires Valid(d) && x in d.states && y in d.states
    ensures Block(d, x) == Block(d, y) <==> !Distinct(d, x, y)
  {
    InOwnBlock(d, y);
    if !Distinct(d, x, y) {
      forall z | z in d.states ensures !Distinct(d, x, z) <==> !Distinct(d, y, z) {
        IndistinctSym(d, x, y);
        if !Distinct(d, x, z) {
          IndistinctTrans(d, y, x, z);
        }
        if !Distinct(d, y, z) {
          IndistinctTrans(d, x, y, z);
        }
      }
    }
  }

  lemma IndistinctSym<Q(!new), A(!new)>(d: Dfa<Q, A>, x: Q, y: Q)
    requires Valid(d) && !Distinct(d, x, y)
    ensures !Distinct(d, y, x)
  {
    forall w | Over(w, d.alphabet) ensures AcceptsFrom(d, y, w) == AcceptsFrom(d, x, w) {
      IndistinctAgree(d, x, y, w);
    }
  }

  /** A state shares its block with an accept state only if it accepts. */
  lemma BlockAccepts<Q(!new), A(!new)>(d: Dfa<Q, A>, q: Q, f: Q)
    requires Valid(d) && q in d.states && f in d.states && Block(d, q) == Block(d, f) && f in d.accept
    ensures q in d.accept
  {
    BlocksEqual(d, q, f);
    if q !in d.accept {
      DistinctByAccept(d, q, f);
    }
  }

  // ---- what the quotient computes ---------------------------------------------------

  /** The quotient runs on the blocks: from the block of x, a word leads to
    * the block of where d leads from x, and fails exactly when d's run fails. */
  lemma {:induction false} QuotientRun<Q(!new), A(!new)>(d: Dfa<Q, A>, m: Dfa<set<Q>, A>, x: Q, w: seq<A>)
    requires IsQuotient(d, m) && x in d.states
    ensures Run(m, Block(d, x), w).Success? <==> Run(d, x, w).Success?
    ensures Run(d, x, w).Success? ==> Run(m, Block(d, x), w).value == Block(d, Run(d, x, w).value)
    ensures Run(d, x, w).Failure? ==> Run(m, Block(d, x), w).error == Run(d, x, w).error
    decreases |w|
  {
    assert Block(d, x) in m.states;
    if w != [] && w[0] in d.alphabet {
      assert m.delta[(Block(d, x), w[0])] == Block(d, d.delta[(x, w[0])]);
      QuotientRun(d, m, d.delta[(x, w[0])], w[1..]);
    }
  }

  /** A block is an accept state of the quotient exactly when its states accept. */
  lemma QuotientAccept<Q(!new), A(!new)>(d: Dfa<Q, A>, m: Dfa<set<Q>, A>, q: Q)
    requires IsQuotient(d, m) && q in d.states
    ensures Block(d, q) in m.accept <==> q in d.accept
  {
    if Block(d, q) in m.accept {
      var f :| f in d.accept && Block(d, f) == Block(d, q);
      BlockAccepts(d, q, f);
    }
  }

  /** From a block, the quotient accepts what d accepts from any of its states. */
  lemma QuotientAcceptsFrom<Q(!new), A(!new)>(d: Dfa<Q, A>, m: Dfa<set<Q>, A>, x: Q, w: seq<A>)
    requires IsQuotient(d, m) && x in d.states
    ensures AcceptsFrom(m, Block(d, x), w) <==> AcceptsFrom(d, x, w)
  {
    QuotientRun(d, m, x, w);
    if Run(d, x, w).Success? {
      RunTotal(d, x, w);
      QuotientAccept(d, m, Run(d, x, w).value);
    }
  }

  /** test gives the same answer, and raises the same error, on the quotient. */
  lemma QuotientTest<Q(!new), A(!new)>(d: Dfa<Q, A>, m: Dfa<set<Q>, A>, w: seq<A>)
    requires IsQuotient(d, m)
    ensures TestResult(m, w) == TestResult(d, w)
  {
    QuotientRun(d, m, d.start, w);
    if Run(d, d.start, w).Success? {
      RunTotal(d, d.start, w);
      QuotientAccept(d, m, Run(d, d.start, w).value);
    }
  }

  /** No two states of the quotient are equivalent: some word tells any two
    * different blocks apart. */
  lemma QuotientReduced<Q(!new), A(!new)>(d: Dfa<Q, A>, m: Dfa<set<Q>, A>, X: set<Q>, Y: set<Q>)
    requires IsQuotient(d, m) && X in m.states && Y in m.states && X != Y
    ensures Distinct(m, X, Y)
  {
    var x :| x in d.states && X == Block(d, x);
    var y :| y in d.states && Y == Block(d, y);
    BlocksEqual(d, x, y);
    var w :| Over(w, d.alphabet) && AcceptsFrom(d, x, w) != AcceptsFrom(d, y, w);
    QuotientAcceptsFrom(d, m, x, w);
    QuotientAcceptsFrom(d, m, y, w);
    assert Over(w, m.alphabet) && AcceptsFrom(m, X, w) != AcceptsFrom(m, Y, w);
  }

  // ---- the construction ---------------------------------------------------------

  /** The loop over the new states: one element of each class as its representative. */
  method Representatives<T(==)>(classes: set<set<T>>) returns (rep: map<set<T>, T>)
    requires forall C :: C in classes ==> C != {}
    ensures rep.Keys == classes
    ensures forall C :: C in rep ==> rep[C] in C
  {
    rep := map[];
    var todo := classes;
    while todo != {}
      invariant todo <= classes && rep.Keys == classes - todo
      invariant forall C :: C in rep ==> rep[C] in C
      decreases |todo|
    {
      var C :| C in todo;
      var r :| r in C;
      rep := rep[C := r];
      RemoveOne(todo, C);
      todo := todo - {C};
    }
  }

  /** The classes of the partition are the blocks. */
  lemma ClassesAreBlocks<Q(!new), A(!new)>(d: Dfa<Q, A>, sets: seq<set<Q>>, P: map<Q, nat>, x: Q)
    requires Valid(d) && Consistent(sets, P) && P.Keys == d.states && x in d.states
    requires forall x, y :: x in d.states && y in d.states ==> (P[x] == P[y] <==> !Distinct(d, x, y))
    ensures sets[P[x]] == Block(d, x)
  {
    forall y ensures y in sets[P[x]] <==> y in Block(d, x) {
      if y in sets[P[x]] {
        assert y in P && P[y] == P[x];
      }
    }
  }

  /** The class list, as a set, is the set of blocks. */
  lemma ClassSetIsBlocks<Q(!new), A(!new)>(d: Dfa<Q, A>, sets: seq<set<Q>>, P: map<Q, nat>)
    requires Valid(d) && Consistent(sets, P) && NonEmpty(sets, P) && P.Keys == d.states
    requires forall x :: x in d.states ==> sets[P[x]] == Block(d, x)
    ensures ClassSet(sets) == (set x | x in d.states :: Block(d, x))
  {
    assert d.start in P.Keys;
    forall X | X in ClassSet(sets) ensures X in (set x | x in d.states :: Block(d, x)) {
      var i :| 0 <= i < |sets| && X == sets[i];
      assert sets[i] != {};
      var z :| z in sets[i];
      assert P[z] == i;
    }
  }

  /** The new transition function: a class moves to the class of its
    * representative's successor, which is the class of any member's successor. */
  lemma RepresentativeMoves<Q(!new), A(!new)>(d: Dfa<Q, A>, sets: seq<set<Q>>, P: map<Q, nat>, r: Q, x: Q, a: A)
    requires Valid(d) && Consistent(sets, P) && P.Keys == d.states && Congruent(d, P)
    requires x in d.states && r in sets[P[x]] && a in d.alphabet
    ensures P[d.delta[(r, a)]] == P[d.delta[(x, a)]]
  {
    assert P[r] == P[x];
  }

  /** The automaton the construction assembles from the partition and the
    * representatives is the quotient by indistinguishability. */
  lemma QuotientOfPartition<Q(!new), A(!new)>(d: Dfa<Q, A>, sets: seq<set<Q>>, P: map<Q, nat>, rep: map<set<Q>, Q>,
                                             m: Dfa<set<Q>, A>)
    requires Valid(d) && Consistent(sets, P) && NonEmpty(sets, P) && P.Keys == d.states && Congruent(d, P)
    requires forall x :: x in d.states ==> sets[P[x]] == Block(d, x)
    requires rep.Keys == ClassSet(sets) && forall C :: C in rep ==> rep[C] in C
    requires m.states == ClassSet(sets) && m.alphabet == d.alphabet
    requires m.start == sets[P[d.start]] && m.accept == (set f | f in d.accept :: sets[P[f]])
    requires forall C, a :: C in ClassSet(sets) && a in d.alphabet ==>
      (C, a) in m.delta && m.delta[(C, a)] == sets[P[d.delta[(rep[C], a)]]]
    ensures IsQuotient(d, m)
  {
    ClassSetIsBlocks(d, sets, P);
    forall C | C in ClassSet(sets) ensures C <= d.states {
      InOwnBlockOf(d, C);
    }
    forall x, a | x in d.states && a in d.alphabet
      ensures m.delta[(Block(d, x), a)] == Block(d, d.delta[(x, a)])
    {
      assert sets[P[x]] in ClassSet(sets);
      RepresentativeMoves(d, sets, P, rep[sets[P[x]]], x, a);
    }
    assert m.accept == (set f | f in d.accept :: Block(d, f));
    assert Valid(m);
  }

  /** Each class's move on each symbol: the class of its representative's target. */
  method ClassMoves<Q(==, !new), A(==, !new)>(d: Dfa<Q, A>, pr: PartitionRefinement<Q>, rep: map<set<Q>, Q>)
    returns (delta: map<(set<Q>, A), set<Q>>)
    requires Valid(d) && pr.Valid() && pr.partitions.Keys == d.states
    requires rep.Keys == ClassSet(pr.sets) && forall C :: C in rep ==> rep[C] in C
    ensures forall C, a :: C in ClassSet(pr.sets) && a in d.alphabet ==>
      (C, a) in delta && delta[(C, a)] == pr.sets[pr.partitions[d.delta[(rep[C], a)]]]
  {
    var newStates := ClassSet(pr.sets);
    RepresentativesKnown(pr.sets, pr.partitions, rep);
    assert forall x :: x in pr.partitions ==> pr.GetPartition(x) == Success(pr.sets[pr.partitions[x]]);
    delta := map C, a | C in newStates && a in d.alphabet :: (C, a) := pr.GetPartition(d.delta[(rep[C], a)]).value;
  }

  /** The classes, with each class's moves, the start class and the accept classes. */
  method Assemble<Q(==, !new), A(==, !new)>(d: Dfa<Q, A>, pr: PartitionRefinement<Q>, rep: map<set<Q>, Q>)
    returns (m: Dfa<set<Q>, A>)
    requires Valid(d) && pr.Valid() && pr.partitions.Keys == d.states
    requires rep.Keys == ClassSet(pr.sets) && forall C :: C in rep ==> rep[C] in C
    ensures m.states == ClassSet(pr.sets) && m.alphabet == d.alphabet
    ensures m.start == pr.sets[pr.partitions[d.start]]
    ensures m.accept == (set f | f in d.accept :: pr.sets[pr.partitions[f]])
    ensures forall C, a :: C in ClassSet(pr.sets) && a in d.alphabet ==>
      (C, a) in m.delta && m.delta[(C, a)] == pr.sets[pr.partitions[d.delta[(rep[C], a)]]]
  {
    var newStates := ClassSet(pr.sets);
    var delta := ClassMoves(d, pr, rep);
    var start := pr.GetPartition(d.start).value;
    var accept := set f | f in d.accept :: pr.GetPartition(f).value;
    m := Dfa(newStates, d.alphabet, delta, start, accept);
  }

  /** Every representative is an element of the partition. */
  lemma RepresentativesKnown<Q(!new)>(sets: seq<set<Q>>, P: map<Q, nat>, rep: map<set<Q>, Q>)
    requires Consistent(sets, P) && rep.Keys == ClassSet(sets) && forall C :: C in rep ==> rep[C] in C
    ensures forall C :: C in ClassSet(sets) ==> rep[C] in P
  {
    forall C | C in ClassSet(sets) ensures rep[C] in P {
      var i :| 0 <= i < |sets| && C == sets[i];
      assert rep[C] in sets[i];
    }
  }

  /** Every class of a partition that matches indistinguishability is a block. */
  lemma AllClassesAreBlocks<Q(!new), A(!new)>(d: Dfa<Q, A>, sets: seq<set<Q>>, P: map<Q, nat>)
    requires Valid(d) && Consistent(sets, P) && P.Keys == d.states
    requires forall x, y :: x in d.states && y in d.states ==> (P[x] == P[y] <==> !Distinct(d, x, y))
    ensures forall x :: x in d.states ==> sets[P[x]] == Block(d, x)
  {
    forall x | x in d.states ensures sets[P[x]] == Block(d, x) {
      ClassesAreBlocks(d, sets, P, x);
    }
  }

  /** minimize_dfa: the quotient of d by the partition into indistinguishable states. */
  method MinimizeDfa<Q(==, !new), A(==, !new)>(d: Dfa<Q, A>) returns (m: Dfa<set<Q>, A>)
    requires Valid(d)
    ensures IsQuotient(d, m)
  {
    var pr := PartitionDfaStates(d);
    AllClassesAreBlocks(d, pr.sets, pr.partitions);
    ClassesNonEmpty(d, pr.sets, pr.partitions);
    var rep := Representatives(ClassSet(pr.sets));
    m := Assemble(d, pr, rep);
    QuotientOfPartition(d, pr.sets, pr.partitions, rep, m);
  }

  /** No class is empty once the DFA has a state. */
  lemma ClassesNonEmpty<Q(!new), A(!new)>(d: Dfa<Q, A>, sets: seq<set<Q>>, P: map<Q, nat>)
    requires Valid(d) && NonEmpty(sets, P) && P.Keys == d.states
    ensures forall C :: C in ClassSet(sets) ==> C != {}
  {
    assert d.start in P.Keys;
  }

  /** Every block holds a state and lies inside the states. */
  lemma InOwnBlockOf<Q(!new), A(!new)>(d: Dfa<Q, A>, C: set<Q>)
    requires Valid(d) && C in (set x | x in d.states :: Block(d, x))
    ensures C != {} && C <= d.states
  {
    var x :| x in d.states && C == Block(d, x);
    InOwnBlock(d, x);
  }
}

/**
 * The partition of a DFA's states into classes of indistinguishable states
 * (operators/helpers/partition_dfa_states.py), in the manner of Hopcroft's
 * algorithm: start from accepting / non-accepting, and keep a queue of splitter
 * sets; refining by the states that move into a splitter on a symbol cuts the
 * classes that the splitter shows to be distinguishable.
 */
module Hopcroft {
  import opened SetFacts
  import opened Dfas
  import opened PartitionRefinements

  // ---- the reverse transition table ---------------------------------------------

  /** The states the table lists as moving to p on a; a missing key is the empty set. */
  function Sources<Q(==, !new), A(==, !new)>(rev: map<(A, Q), set<Q>>, a: A, p: Q): set<Q>
  {
    if (a, p) in rev then rev[(a, p)] else {}
  }

  /** The states that move into X on a. */
  ghost function Pre<Q(!new), A(!new)>(d: Dfa<Q, A>, a: A, X: set<Q>): set<Q>
    requires Valid(d) && a in d.alphabet
  {
    set q | q in d.states && d.delta[(q, a)] in X
  }

  /** The pairs (state, symbol) the table is built from. */
  function Pairs<Q(!new), A(!new)>(d: Dfa<Q, A>): set<(Q, A)>
  {
    set q, a | q in d.states && a in d.alphabet :: (q, a)
  }

  /** rev lists, for the pairs in `done`, the states moving to each state on each symbol. */
  ghost predicate ReverseOn<Q(!new), A(!new)>(d: Dfa<Q, A>, rev: map<(A, Q), set<Q>>, done: set<(Q, A)>)
    requires Valid(d)
  {
    forall a, p, q {:trigger q in Sources(rev, a, p)} ::
      q in Sources(rev, a, p) <==> (q, a) in done && (q, a) in d.delta && d.delta[(q, a)] == p
  }

  /** The first loop: for every state and symbol, the state is recorded as a
    * source of its successor on that symbol. */
  method BuildReverse<Q(==, !new), A(==, !new)>(d: Dfa<Q, A>) returns (rev: map<(A, Q), set<Q>>)
    requires Valid(d)
    ensures ReverseOn(d, rev, Pairs(d))
  {
    rev := map[];
    var todo := Pairs(d);
    ghost var done: set<(Q, A)> := {};
    while todo != {}
      invariant todo !! done && todo + done == Pairs(d)
      invariant ReverseOn(d, rev, done)
      decreases |todo|
    {
      var qa :| qa in todo;
      PairsMember(d, qa);
      var p := d.delta[qa];
      ReverseStep(d, rev, done, qa);
      rev := rev[(qa.1, p) := Sources(rev, qa.1, p) + {qa.0}];
      RemoveOne(todo, qa);
      todo := todo - {qa};
      done := done + {qa};
    }
  }

  lemma PairsMember<Q(!new), A(!new)>(d: Dfa<Q, A>, qa: (Q, A))
    requires qa in Pairs(d)
    ensures qa.0 in d.states && qa.1 in d.alphabet
  {
  }

  /** Recording one more pair in the table. */
  lemma ReverseStep<Q(!new), A(!new)>(d: Dfa<Q, A>, rev: map<(A, Q), set<Q>>, done: set<(Q, A)>, qa: (Q, A))
    requires Valid(d) && ReverseOn(d, rev, done) && qa !in done && qa.0 in d.states && qa.1 in d.alphabet
    ensures ReverseOn(d, rev[(qa.1, d.delta[qa]) := Sources(rev, qa.1, d.delta[qa]) + {qa.0}], done + {qa})
  {
    var p := d.delta[qa];
    var rev' := rev[(qa.1, p) := Sources(rev, qa.1, p) + {qa.0}];
    forall a, p', q
      ensures q in Sources(rev', a, p') <==> (q, a) in done + {qa} && (q, a) in d.delta && d.delta[(q, a)] == p'
    {
      if (a, p') != (qa.1, p) {
        assert Sources(rev', a, p') == Sources(rev, a, p');
      }
    }
  }

  /** The sources of a splitter on one symbol: the union of the table's entries
    * for the splitter's states. */
  method Preimage<Q(==, !new), A(==, !new)>(d: Dfa<Q, A>, rev: map<(A, Q), set<Q>>, a: A, C: set<Q>) returns (S: set<Q>)
    requires Valid(d) && ReverseOn(d, rev, Pairs(d)) && a in d.alphabet
    ensures S == Pre(d, a, C) && S <= d.states
  {
    S := {};
    var todo := C;
    while todo != {}
      invariant todo <= C
      invariant S == Pre(d, a, C - todo)
      decreases |todo|
    {
      var p :| p in todo;
      S := S + Sources(rev, a, p);
      RemoveOne(todo, p);
      todo := todo - {p};
    }
    assert C - todo == C;
  }

  // ---- what the partition means -------------------------------------------------

  /** X is a union of classes: elements of one class are both in X or both out. */
  ghost predicate Saturated<Q(!new)>(P: map<Q, nat>, X: set<Q>)
  {
    forall x, y {:trigger P[x], P[y]} :: x in P && y in P && P[x] == P[y] ==> (x in X <==> y in X)
  }

  /** For every symbol of `syms`, the states moving into X form a union of
    * classes: two states of one class both move into X or both do not. */
  ghost predicate StableOn<Q(!new), A(!new)>(d: Dfa<Q, A>, P: map<Q, nat>, X: set<Q>, syms: set<A>)
    requires Valid(d)
  {
    forall x, y, a {:trigger P[x], P[y], d.delta[(x, a)]} ::
      x in d.states && y in d.states && a in syms && a in d.alphabet && x in P && y in P && P[x] == P[y] ==>
        (d.delta[(x, a)] in X <==> d.delta[(y, a)] in X)
  }

  /** Every splitter of F is stable on the whole alphabet: no splitter of F tells
    * apart the successors of two states of one class. */
  ghost predicate AllStable<Q(!new), A(!new)>(d: Dfa<Q, A>, P: map<Q, nat>, F: set<set<Q>>)
    requires Valid(d)
  {
    forall x, y, a {:trigger P[x], P[y], d.delta[(x, a)]} ::
      x in d.states && y in d.states && a in d.alphabet && x in P && y in P && P[x] == P[y] ==>
        !Separated(d.delta[(x, a)], d.delta[(y, a)], F)
  }

  /** Some word over the alphabet is accepted from one of x, y and not from the other. */
  ghost predicate Distinct<Q(!new), A(!new)>(d: Dfa<Q, A>, x: Q, y: Q)
    requires Valid(d)
  {
    exists w :: Over(w, d.alphabet) && AcceptsFrom(d, x, w) != AcceptsFrom(d, y, w)
  }

  /** One set of `marks` holds exactly one of x, y. */
  ghost predicate Separated<Q(!new)>(x: Q, y: Q, marks: set<set<Q>>)
  {
    exists M :: M in marks && (x in M) != (y in M)
  }

  /** x and y lie in the two halves of one of the pending cuts. */
  ghost predicate CutApart<Q(!new)>(x: Q, y: Q, cuts: seq<(set<Q>, set<Q>)>)
  {
    exists j :: 0 <= j < |cuts| && ((x in cuts[j].0 && y in cuts[j].1) || (x in cuts[j].1 && y in cuts[j].0))
  }

  /** States of one class move into one class on every symbol. */
  ghost predicate Congruent<Q(!new), A(!new)>(d: Dfa<Q, A>, P: map<Q, nat>)
    requires Valid(d) && P.Keys == d.states
  {
    forall x, y, a {:trigger P[x], P[y], d.delta[(x, a)]} ::
      x in P && y in P && a in d.alphabet && P[x] == P[y] ==> P[d.delta[(x, a)]] == P[d.delta[(y, a)]]
  }

  /** What the main loop keeps: the classes cover the states, the accept states
    * and the `pending` splitters are unions of classes, the splitters in F are
    * handled, and two states in different classes are told apart by a pending
    * or handled splitter, or lie in the two halves of a cut not yet queued. */
  ghost predicate Hop<Q(!new), A(!new)>(d: Dfa<Q, A>, sets: seq<set<Q>>, P: map<Q, nat>, pending: set<set<Q>>,
                                        F: set<set<Q>>, cuts: seq<(set<Q>, set<Q>)>)
  {
    && Valid(d)
    && Consistent(sets, P) && NonEmpty(sets, P) && P.Keys == d.states
    && Saturated(P, d.accept)
    && (forall X :: X in pending ==> Saturated(P, X))
    && AllStable(d, P, F)
    && (forall x, y {:trigger P[x], P[y]} :: x in P && y in P && P[x] != P[y] ==>
          Separated(x, y, pending + F) || CutApart(x, y, cuts))
  }

  /** Two states in different classes are distinguishable. */
  ghost predicate Sound<Q(!new), A(!new)>(d: Dfa<Q, A>, P: map<Q, nat>)
  {
    Valid(d) && forall x, y {:trigger Distinct(d, x, y)} :: x in P && y in P && P[x] != P[y] ==> Distinct(d, x, y)
  }

  // ---- distinguishability -------------------------------------------------------

  /** A word telling the successors on a apart tells the states apart. */
  lemma DistinctStep<Q(!new), A(!new)>(d: Dfa<Q, A>, x: Q, y: Q, a: A)
    requires Valid(d) && x in d.states && y in d.states && a in d.alphabet
    requires Distinct(d, d.delta[(x, a)], d.delta[(y, a)])
    ensures Distinct(d, x, y)
  {
    var w :| Over(w, d.alphabet) && AcceptsFrom(d, d.delta[(x, a)], w) != AcceptsFrom(d, d.delta[(y, a)], w);
    var aw := [a] + w;
    assert aw[0] == a && aw[1..] == w;
    OverCons(aw, d.alphabet);
    assert AcceptsFrom(d, x, aw) == AcceptsFrom(d, d.delta[(x, a)], w);
    assert AcceptsFrom(d, y, aw) == AcceptsFrom(d, d.delta[(y, a)], w);
  }

  /** The empty word tells an accept state from a non-accept state. */
  lemma DistinctByAccept<Q(!new), A(!new)>(d: Dfa<Q, A>, x: Q, y: Q)
    requires Valid(d) && (x in d.accept) != (y in d.accept)
    ensures Distinct(d, x, y)
  {
    var w: seq<A> := [];
    assert Over(w, d.alphabet) && AcceptsFrom(d, x, w) != AcceptsFrom(d, y, w);
  }

  /** In a congruent partition that keeps accept states apart, states of one
    * class accept the same words. */
  lemma {:induction false} CongruentAgree<Q(!new), A(!new)>(d: Dfa<Q, A>, P: map<Q, nat>, x: Q, y: Q, w: seq<A>)
    requires Valid(d) && P.Keys == d.states && Congruent(d, P) && Saturated(P, d.accept)
    requires x in P && y in P && P[x] == P[y] && Over(w, d.alphabet)
    ensures AcceptsFrom(d, x, w) == AcceptsFrom(d, y, w)
    decreases |w|
  {
    if w != [] {
      OverCons(w, d.alphabet);
      var a := w[0];
      assert P[d.delta[(x, a)]] == P[d.delta[(y, a)]];
      CongruentAgree(d, P, d.delta[(x, a)], d.delta[(y, a)], w[1..]);
    }
  }

  /** A congruent partition that keeps accept states apart never puts two
    * distinguishable states in one class. */
  lemma CongruentIndistinct<Q(!new), A(!new)>(d: Dfa<Q, A>, P: map<Q, nat>, x: Q, y: Q)
    requires Valid(d) && P.Keys == d.states && Congruent(d, P) && Saturated(P, d.accept)
    requires x in P && y in P && P[x] == P[y]
    ensures !Distinct(d, x, y)
  {
    if Distinct(d, x, y) {
      var w :| Over(w, d.alphabet) && AcceptsFrom(d, x, w) != AcceptsFrom(d, y, w);
      CongruentAgree(d, P, x, y, w);
    }
  }

  // ---- refinement keeps and extends the invariant --------------------------------

  /** A union of classes stays one when the classes are refined. */
  lemma SaturatedRefined<Q(!new)>(s0: seq<set<Q>>, p0: map<Q, nat>, S: set<Q>, ks: seq<nat>, sets: seq<set<Q>>, p: map<Q, nat>, X: set<Q>)
    requires Consistent(s0, p0) && Consistent(sets, p) && p.Keys == p0.Keys && Refined(s0, S, ks, sets)
    requires Saturated(p0, X)
    ensures Saturated(p, X)
  {
    forall x, y | x in p && y in p && p[x] == p[y] ensures x in X <==> y in X {
      RefinedPair(s0, p0, S, ks, sets, p, x, y);
    }
  }

  /** What was a union of classes, or stable, stays so when the classes are refined. */
  lemma SaturatedAllRefined<Q(!new), A(!new)>(d: Dfa<Q, A>, s0: seq<set<Q>>, p0: map<Q, nat>, S: set<Q>, ks: seq<nat>,
                                              sets: seq<set<Q>>, p: map<Q, nat>, pending: set<set<Q>>, F: set<set<Q>>,
                                              C: set<Q>, done: set<A>)
    requires Hop(d, s0, p0, pending, F, []) && StableOn(d, p0, C, done)
    requires Consistent(sets, p) && p.Keys == p0.Keys && Refined(s0, S, ks, sets)
    ensures Saturated(p, d.accept)
    ensures forall X :: X in pending ==> Saturated(p, X)
    ensures AllStable(d, p, F)
    ensures StableOn(d, p, C, done)
  {
    SaturatedRefined(s0, p0, S, ks, sets, p, d.accept);
    forall X | X in pending ensures Saturated(p, X) {
      SaturatedRefined(s0, p0, S, ks, sets, p, X);
    }
    forall x, y | x in p && y in p && p[x] == p[y] ensures p0[x] == p0[y] {
      RefinedPair(s0, p0, S, ks, sets, p, x, y);
    }
  }

  /** Two states of one old class that refine(S) puts in different classes lie
    * in the two halves of one reported cut. */
  lemma RefinedPairCut<Q(!new)>(s0: seq<set<Q>>, p0: map<Q, nat>, S: set<Q>, ks: seq<nat>,
                                sets: seq<set<Q>>, p: map<Q, nat>, out: seq<(set<Q>, set<Q>)>, x: Q, y: Q)
    requires Consistent(s0, p0) && Consistent(sets, p) && p.Keys == p0.Keys && Refined(s0, S, ks, sets)
    requires Reported(s0, ks, sets, out)
    requires x in p && y in p && p0[x] == p0[y] && (x in S) != (y in S)
    ensures CutApart(x, y, out)
  {
    var k := p0[x];
    assert x in s0[k] && y in s0[k];
    assert Splits(s0[k], S) by {
      if x in S { assert x in s0[k] * S && y in s0[k] - S; } else { assert y in s0[k] * S && x in s0[k] - S; }
    }
    var m :| 0 <= m < |ks| && ks[m] == k;
    assert sets[|s0| + m] == s0[k] * S && sets[k] == s0[k] - S;
    if x in S {
      assert x in out[m].0 && y in out[m].1;
    } else {
      assert x in out[m].1 && y in out[m].0;
    }
  }

  /** Two states of one class whose successors on a fall on either side of a
    * union of classes are distinguishable. */
  lemma SplitDistinct<Q(!new), A(!new)>(d: Dfa<Q, A>, p0: map<Q, nat>, C: set<Q>, a: A, x: Q, y: Q)
    requires Sound(d, p0) && p0.Keys == d.states && Saturated(p0, C)
    requires a in d.alphabet && x in d.states && y in d.states
    requires (d.delta[(x, a)] in C) != (d.delta[(y, a)] in C)
    ensures Distinct(d, x, y)
  {
    assert p0[d.delta[(x, a)]] != p0[d.delta[(y, a)]];
    DistinctStep(d, x, y, a);
  }

  /** refine(Pre(a, C)) by a union of classes C keeps the partition sound. */
  lemma SoundRefine<Q(!new), A(!new)>(d: Dfa<Q, A>, s0: seq<set<Q>>, p0: map<Q, nat>, S: set<Q>, ks: seq<nat>,
                                      sets: seq<set<Q>>, p: map<Q, nat>, C: set<Q>, a: A)
    requires Sound(d, p0) && Consistent(s0, p0) && p0.Keys == d.states && Saturated(p0, C)
    requires a in d.alphabet && S == Pre(d, a, C)
    requires Consistent(sets, p) && p.Keys == p0.Keys && Refined(s0, S, ks, sets)
    ensures Sound(d, p)
  {
    forall x, y | x in p && y in p && p[x] != p[y] ensures Distinct(d, x, y) {
      RefinedPair(s0, p0, S, ks, sets, p, x, y);
      if p0[x] == p0[y] {
        SplitDistinct(d, p0, C, a, x, y);
      }
    }
  }

  /** After refine(Pre(a, C)) the invariant holds with the reported cuts pending,
    * and C is stable on the symbols handled so far, a included. */
  lemma HopRefine<Q(!new), A(!new)>(d: Dfa<Q, A>, s0: seq<set<Q>>, p0: map<Q, nat>, pending: set<set<Q>>, F: set<set<Q>>,
                                    C: set<Q>, done: set<A>, a: A, S: set<Q>, ks: seq<nat>,
                                    sets: seq<set<Q>>, p: map<Q, nat>, out: seq<(set<Q>, set<Q>)>)
    requires Hop(d, s0, p0, pending, F, []) && StableOn(d, p0, C, done)
    requires a in d.alphabet && S == Pre(d, a, C)
    requires Consistent(sets, p) && NonEmpty(sets, p) && p.Keys == p0.Keys && Refined(s0, S, ks, sets)
    requires Reported(s0, ks, sets, out)
    ensures Hop(d, sets, p, pending, F, out)
    ensures StableOn(d, p, C, done + {a})
  {
    SaturatedAllRefined(d, s0, p0, S, ks, sets, p, pending, F, C, done);
    StableAfterRefine(d, s0, p0, C, done, a, S, ks, sets, p);
    ApartAfterRefine(s0, p0, pending + F, S, ks, sets, p, out);
  }

  /** After refine(Pre(a, C)), C is stable on a. */
  lemma StableAfterRefine<Q(!new), A(!new)>(d: Dfa<Q, A>, s0: seq<set<Q>>, p0: map<Q, nat>, C: set<Q>, done: set<A>,
                                            a: A, S: set<Q>, ks: seq<nat>, sets: seq<set<Q>>, p: map<Q, nat>)
    requires Valid(d) && Consistent(s0, p0) && StableOn(d, p, C, done)
    requires a in d.alphabet && S == Pre(d, a, C)
    requires Consistent(sets, p) && p.Keys == p0.Keys && Refined(s0, S, ks, sets)
    ensures StableOn(d, p, C, done + {a})
  {
    forall x, y | x in d.states && y in d.states && x in p && y in p && p[x] == p[y]
      ensures d.delta[(x, a)] in C <==> d.delta[(y, a)] in C
    {
      RefinedPair(s0, p0, S, ks, sets, p, x, y);
    }
  }

  /** After refine(S), two states in different classes were told apart before,
    * or lie in the two halves of one reported cut. */
  lemma ApartAfterRefine<Q(!new)>(s0: seq<set<Q>>, p0: map<Q, nat>, marks: set<set<Q>>, S: set<Q>, ks: seq<nat>,
                                  sets: seq<set<Q>>, p: map<Q, nat>, out: seq<(set<Q>, set<Q>)>)
    requires Consistent(s0, p0)
    requires forall x, y {:trigger p0[x], p0[y]} :: x in p0 && y in p0 && p0[x] != p0[y] ==> Separated(x, y, marks) || CutApart(x, y, [])
    requires Consistent(sets, p) && p.Keys == p0.Keys && Refined(s0, S, ks, sets)
    requires Reported(s0, ks, sets, out)
    ensures forall x, y {:trigger p[x], p[y]} :: x in p && y in p && p[x] != p[y] ==> Separated(x, y, marks) || CutApart(x, y, out)
  {
    forall x, y | x in p && y in p && p[x] != p[y]
      ensures Separated(x, y, marks) || CutApart(x, y, out)
    {
      RefinedPair(s0, p0, S, ks, sets, p, x, y);
      if p0[x] == p0[y] {
        RefinedPairCut(s0, p0, S, ks, sets, p, out, x, y);
      }
    }
  }

  /** A union of classes splits no class. */
  lemma SaturatedSplitsNone<Q(!new)>(s0: seq<set<Q>>, p0: map<Q, nat>, S: set<Q>, k: nat)
    requires Consistent(s0, p0) && Saturated(p0, S) && k < |s0|
    ensures !Splits(s0[k], S)
  {
  }

  /** A splitter that is already a union of classes cuts nothing. */
  lemma SaturatedCutsNothing<Q(!new)>(s0: seq<set<Q>>, p0: map<Q, nat>, S: set<Q>, ks: seq<nat>, sets: seq<set<Q>>)
    requires Consistent(s0, p0) && Saturated(p0, S) && Refined(s0, S, ks, sets)
    ensures ks == []
  {
    if ks != [] {
      SaturatedSplitsNone(s0, p0, S, ks[0]);
    }
  }

  /** Once every symbol is handled, the splitter C moves from pending to handled. */
  lemma HopSettle<Q(!new), A(!new)>(d: Dfa<Q, A>, sets: seq<set<Q>>, P: map<Q, nat>, q: set<set<Q>>, C: set<Q>, F: set<set<Q>>)
    requires Hop(d, sets, P, q + {C}, F, []) && StableOn(d, P, C, d.alphabet)
    ensures Hop(d, sets, P, q, F + {C}, [])
  {
    assert q + {C} + F == q + (F + {C});
    forall x, y, a | x in d.states && y in d.states && a in d.alphabet && x in P && y in P && P[x] == P[y]
      ensures !Separated(d.delta[(x, a)], d.delta[(y, a)], F + {C})
    {
      assert !Separated(d.delta[(x, a)], d.delta[(y, a)], F);
    }
  }

  /** The classes of a list, as a set of sets. */
  function ClassSet<Q(!new)>(sets: seq<set<Q>>): set<set<Q>>
  {
    set i | 0 <= i < |sets| :: sets[i]
  }

  /** A class is a union of classes. */
  lemma ClassSaturated<Q(!new)>(sets: seq<set<Q>>, P: map<Q, nat>, X: set<Q>)
    requires Consistent(sets, P) && X in ClassSet(sets)
    ensures Saturated(P, X)
  {
    var i :| 0 <= i < |sets| && X == sets[i];
    forall x, y | x in P && y in P && P[x] == P[y] && x in X ensures y in X {
      assert P[x] == i;
      assert y in sets[P[y]];
    }
  }

  /** The invariant at the start: the queue holds the classes of refine(accept). */
  lemma HopStart<Q(!new), A(!new)>(d: Dfa<Q, A>, p0: map<Q, nat>, ks: seq<nat>, sets: seq<set<Q>>, P: map<Q, nat>)
    requires Valid(d) && p0.Keys == d.states && (forall x :: x in d.states ==> p0[x] == 0)
    requires Consistent(sets, P) && NonEmpty(sets, P) && P.Keys == d.states && Refined([d.states], d.accept, ks, sets)
    ensures Hop(d, sets, P, ClassSet(sets), {}, [])
  {
    assert Consistent([d.states], p0);
    forall x, y | x in P && y in P && P[x] == P[y] ensures x in d.accept <==> y in d.accept {
      RefinedPair([d.states], p0, d.accept, ks, sets, P, x, y);
    }
    forall X | X in ClassSet(sets) ensures Saturated(P, X) {
      ClassSaturated(sets, P, X);
    }
    forall x, y | x in P && y in P && P[x] != P[y] ensures Separated(x, y, ClassSet(sets) + {}) {
      assert sets[P[x]] in ClassSet(sets) + {};
      assert x in sets[P[x]];
      assert y !in sets[P[x]];
    }
  }

  /** refine(accept) separates only accept states from the others: a sound start. */
  lemma SoundStart<Q(!new), A(!new)>(d: Dfa<Q, A>, p0: map<Q, nat>, ks: seq<nat>, sets: seq<set<Q>>, P: map<Q, nat>)
    requires Valid(d) && p0.Keys == d.states && (forall x :: x in d.states ==> p0[x] == 0)
    requires Consistent(sets, P) && P.Keys == d.states && Refined([d.states], d.accept, ks, sets)
    ensures Sound(d, P)
  {
    assert Consistent([d.states], p0);
    forall x, y | x in P && y in P && P[x] != P[y] ensures Distinct(d, x, y) {
      RefinedPair([d.states], p0, d.accept, ks, sets, P, x, y);
      DistinctByAccept(d, x, y);
    }
  }

  /** With no splitter pending, the partition is congruent. */
  lemma HopCongruent<Q(!new), A(!new)>(d: Dfa<Q, A>, sets: seq<set<Q>>, P: map<Q, nat>, F: set<set<Q>>)
    requires Hop(d, sets, P, {}, F, [])
    ensures Congruent(d, P)
  {
    HopNonePending(d, sets, P, F);
    forall x, y, a | x in P && y in P && a in d.alphabet && P[x] == P[y]
      ensures P[d.delta[(x, a)]] == P[d.delta[(y, a)]]
    {
      HopPairCongruent(d, P, F, x, y, a);
    }
  }

  /** With nothing pending and no cuts, the handled splitters tell apart any
    * two states of different classes. */
  lemma HopNonePending<Q(!new), A(!new)>(d: Dfa<Q, A>, sets: seq<set<Q>>, P: map<Q, nat>, F: set<set<Q>>)
    requires Hop(d, sets, P, {}, F, [])
    ensures forall x, y {:trigger P[x], P[y]} :: x in P && y in P && P[x] != P[y] ==> Separated(x, y, F)
  {
    assert {} + F == F;
    forall x, y | x in P && y in P && P[x] != P[y] ensures Separated(x, y, F) {
      assert !CutApart(x, y, []);
    }
  }

  /** One pair of HopCongruent: a handled splitter would tell apart the
    * successors if their classes differed, and none does. */
  lemma HopPairCongruent<Q(!new), A(!new)>(d: Dfa<Q, A>, P: map<Q, nat>, F: set<set<Q>>, x: Q, y: Q, a: A)
    requires Valid(d) && P.Keys == d.states && AllStable(d, P, F)
    requires forall x, y {:trigger P[x], P[y]} :: x in P && y in P && P[x] != P[y] ==> Separated(x, y, F)
    requires x in P && y in P && a in d.alphabet && P[x] == P[y]
    ensures P[d.delta[(x, a)]] == P[d.delta[(y, a)]]
  {
    assert !Separated(d.delta[(x, a)], d.delta[(y, a)], F);
  }

  /** At most one class per state once there is a state. */
  lemma ClassCount<Q(!new)>(sets: seq<set<Q>>, P: map<Q, nat>, U: set<Q>, z: Q)
    requires Consistent(sets, P) && NonEmpty(sets, P) && P.Keys == U && z in U
    ensures |sets| <= |U|
  {
    assert z in P.Keys;
    forall i | 0 <= i < |sets| ensures |sets[i]| > 0 {
      assert sets[i] != {};
    }
    ClassesDisjoint(sets, P);
    UnionCount(sets, P, |sets|);
    var u := UnionUpTo(sets, |sets|);
    assert u <= P.Keys;
    SubsetCount(u, P.Keys);
  }

  /** The union of the first n classes. */
  ghost function UnionUpTo<Q(!new)>(sets: seq<set<Q>>, n: nat): set<Q>
    requires n <= |sets|
  {
    if n == 0 then {} else UnionUpTo(sets, n - 1) + sets[n - 1]
  }

  lemma {:induction false} UnionCount<Q(!new)>(sets: seq<set<Q>>, P: map<Q, nat>, n: nat)
    requires n <= |sets| && (forall i :: 0 <= i < |sets| ==> |sets[i]| > 0)
    requires forall i, j :: 0 <= i < j < |sets| ==> sets[i] !! sets[j]
    requires forall i :: 0 <= i < |sets| ==> sets[i] <= P.Keys
    ensures n <= |UnionUpTo(sets, n)| && UnionUpTo(sets, n) <= P.Keys
  {
    if n > 0 {
      UnionCount(sets, P, n - 1);
      UnionDisjoint(sets, n - 1, n - 1);
      var u := UnionUpTo(sets, n - 1);
      assert |u + sets[n - 1]| == |u| + |sets[n - 1]|;
    }
  }

  lemma {:induction false} UnionDisjoint<Q(!new)>(sets: seq<set<Q>>, n: nat, j: nat)
    requires n <= j < |sets| && forall i, j :: 0 <= i < j < |sets| ==> sets[i] !! sets[j]
    ensures UnionUpTo(sets, n) !! sets[j]
  {
    if n > 0 {
      UnionDisjoint(sets, n - 1, j);
      assert sets[n - 1] !! sets[j];
    }
  }

  lemma SubsetCount<Q(!new)>(a: set<Q>, b: set<Q>)
    requires a <= b
    ensures |a| <= |b|
  {
    if a != b {
      ProperSubsetSmaller(a, b);
    }
  }

  // ---- the algorithm --------------------------------------------------------------

  /** The cuts refine(S) reported, as classes of the new list: cut m is the new
    * class n0 + m, inside S, with what is left of old class ks[m], outside S. */
  ghost predicate CutsReported<Q(!new)>(sets: seq<set<Q>>, S: set<Q>, out: seq<(set<Q>, set<Q>)>, n0: nat, ks: seq<nat>)
  {
    && n0 + |out| == |sets| && |ks| == |out|
    && (forall m :: 0 <= m < |out| ==> ks[m] < n0 && out[m] == (sets[n0 + m], sets[ks[m]]))
    && (forall m :: 0 <= m < |out| ==> out[m].0 != {} && out[m].0 <= S && out[m].1 != {} && out[m].1 !! S)
  }

  /** Queueing the half of cut m inside S cannot make S itself queued while a
    * later cut remains: that cut's half inside S is disjoint from this one. */
  lemma NextStaysOut<Q(!new)>(sets: seq<set<Q>>, P: map<Q, nat>, S: set<Q>, out: seq<(set<Q>, set<Q>)>,
                              n0: nat, ks: seq<nat>, m: nat, x: set<Q>)
    requires Consistent(sets, P) && CutsReported(sets, S, out, n0, ks)
    requires m + 1 < |out| && x == out[m].0
    ensures x != S
  {
    ClassesDisjoint(sets, P);
    assert sets[n0 + m] !! sets[n0 + m + 1];
    var z :| z in out[m + 1].0;
  }

  /** The half of a cut the loop queues: the first unless it is the larger. */
  function Smaller<Q>(c: (set<Q>, set<Q>)): (h: set<Q>)
    ensures h == c.0 || h == c.1
    ensures |h| <= |c.0| && |h| <= |c.1|
  {
    if |c.0| < |c.1| then c.0 else c.1
  }

  /** The queue after the cuts have each added their smaller half. */
  function Queued<Q>(q0: set<set<Q>>, cuts: seq<(set<Q>, set<Q>)>): (q: set<set<Q>>)
    ensures q0 <= q && |q| <= |q0| + |cuts|
    decreases |cuts|
  {
    if cuts == [] then q0
    else
      var q := Queued(q0, cuts[..|cuts| - 1]);
      assert |q + {Smaller(cuts[|cuts| - 1])}| <= |q| + 1;
      q + {Smaller(cuts[|cuts| - 1])}
  }

  /** The preimage S is not queued while cuts of its refine remain: neither
    * half of an earlier cut is S. */
  lemma {:induction false} QueuedOut<Q(!new)>(sets: seq<set<Q>>, P: map<Q, nat>, S: set<Q>, out: seq<(set<Q>, set<Q>)>,
                                              n0: nat, ks: seq<nat>, q0: set<set<Q>>, m: nat)
    requires Consistent(sets, P) && CutsReported(sets, S, out, n0, ks) && S !in q0 && m < |out|
    ensures S !in Queued(q0, out[..m])
    decreases m
  {
    if m > 0 {
      QueuedOut(sets, P, S, out, n0, ks, q0, m - 1);
      assert out[..m][..m - 1] == out[..m - 1];
      var h := Smaller(out[m - 1]);
      if h == out[m - 1].0 {
        NextStaysOut(sets, P, S, out, n0, ks, m - 1, h);
      }
    }
  }

  /** Each cut's smaller half is queued. */
  lemma {:induction false} QueuedHas<Q>(q0: set<set<Q>>, cuts: seq<(set<Q>, set<Q>)>, j: nat)
    requires j < |cuts|
    ensures Smaller(cuts[j]) in Queued(q0, cuts)
    decreases |cuts|
  {
    if j < |cuts| - 1 {
      QueuedHas(q0, cuts[..|cuts| - 1], j);
      assert cuts[..|cuts| - 1][j] == cuts[j];
    }
  }

  /** The queue holds only what was pending and the halves of the cuts. */
  lemma {:induction false} QueuedWithin<Q>(q0: set<set<Q>>, cuts: seq<(set<Q>, set<Q>)>, U: set<set<Q>>)
    requires forall j :: 0 <= j < |cuts| ==> Smaller(cuts[j]) in U
    ensures Queued(q0, cuts) <= q0 + U
    decreases |cuts|
  {
    if cuts != [] {
      var c := cuts[..|cuts| - 1];
      forall j | 0 <= j < |c| ensures Smaller(c[j]) in U {
        assert c[j] == cuts[j];
      }
      QueuedWithin(q0, c, U);
    }
  }

  /** Each cut's smaller half is a class of the list. */
  lemma HalvesAreClasses<Q(!new)>(sets: seq<set<Q>>, S: set<Q>, out: seq<(set<Q>, set<Q>)>, n0: nat, ks: seq<nat>)
    requires CutsReported(sets, S, out, n0, ks)
    ensures forall j :: 0 <= j < |out| ==> Smaller(out[j]) in ClassSet(sets)
  {
    forall j | 0 <= j < |out| ensures Smaller(out[j]) in ClassSet(sets) {
      if Smaller(out[j]) == out[j].0 {
        assert sets[n0 + j] in ClassSet(sets);
      } else {
        assert sets[ks[j]] in ClassSet(sets);
      }
    }
  }

  /** Every queued splitter is a union of classes. */
  lemma QueuedSaturated<Q(!new)>(sets: seq<set<Q>>, P: map<Q, nat>, q0: set<set<Q>>, C: set<Q>, S: set<Q>,
                                 out: seq<(set<Q>, set<Q>)>, n0: nat, ks: seq<nat>)
    requires Consistent(sets, P) && CutsReported(sets, S, out, n0, ks)
    requires forall X :: X in q0 + {C} ==> Saturated(P, X)
    ensures forall X :: X in Queued(q0, out) + {C} ==> Saturated(P, X)
  {
    HalvesAreClasses(sets, S, out, n0, ks);
    QueuedWithin(q0, out, ClassSet(sets));
    forall X | X in Queued(q0, out) + {C} ensures Saturated(P, X) {
      if X !in q0 + {C} {
        ClassSaturated(sets, P, X);
      }
    }
  }

  /** A pair told apart before queueing, or cut apart, is told apart by the queue. */
  lemma QueuedSeparates<Q(!new)>(x: Q, y: Q, q0: set<set<Q>>, C: set<Q>, F: set<set<Q>>, S: set<Q>,
                                 out: seq<(set<Q>, set<Q>)>)
    requires forall j :: 0 <= j < |out| ==> out[j].0 <= S && out[j].1 !! S
    requires Separated(x, y, q0 + {C} + F) || CutApart(x, y, out)
    ensures Separated(x, y, Queued(q0, out) + {C} + F)
  {
    if Separated(x, y, q0 + {C} + F) {
      var M :| M in q0 + {C} + F && (x in M) != (y in M);
      assert M in Queued(q0, out) + {C} + F;
    } else {
      var j :| 0 <= j < |out| && ((x in out[j].0 && y in out[j].1) || (x in out[j].1 && y in out[j].0));
      QueuedHas(q0, out, j);
      var h := Smaller(out[j]);
      assert (x in h) != (y in h);
      assert h in Queued(q0, out) + {C} + F;
    }
  }

  /** All the cuts queued: the invariant holds with no cuts left. */
  lemma QueuedAll<Q(!new), A(!new)>(d: Dfa<Q, A>, sets: seq<set<Q>>, P: map<Q, nat>, q0: set<set<Q>>,
                                    C: set<Q>, F: set<set<Q>>, S: set<Q>, out: seq<(set<Q>, set<Q>)>,
                                    n0: nat, ks: seq<nat>)
    requires Hop(d, sets, P, q0 + {C}, F, out) && CutsReported(sets, S, out, n0, ks)
    ensures Hop(d, sets, P, Queued(q0, out) + {C}, F, [])
  {
    QueuedSaturated(sets, P, q0, C, S, out, n0, ks);
    forall x, y | x in P && y in P && P[x] != P[y] ensures Separated(x, y, Queued(q0, out) + {C} + F) {
      QueuedSeparates(x, y, q0, C, F, S, out);
    }
  }

  /** The cuts of one refine: the splitter's preimage S is never itself in the
    * queue while cuts remain (the source's first branch is dead), so the
    * smaller half of each cut is queued. */
  method QueueCuts<Q(!new)>(ghost sets: seq<set<Q>>, ghost P: map<Q, nat>, q0: set<set<Q>>, S: set<Q>,
                      out: seq<(set<Q>, set<Q>)>, ghost n0: nat, ghost ks: seq<nat>)
    returns (q: set<set<Q>>)
    requires Consistent(sets, P) && CutsReported(sets, S, out, n0, ks)
    requires out != [] ==> S !in q0
    ensures q == Queued(q0, out)
  {
    q := q0;
    var m := 0;
    while m < |out|
      invariant m <= |out| && q == Queued(q0, out[..m])
    {
      var (x, y) := out[m];
      QueuedOut(sets, P, S, out, n0, ks, q0, m);
      if S in q {
        assert false;
        q := q - {S} + {x, y};
      } else if |x| < |y| {
        q := q + {x};
      } else {
        q := q + {y};
      }
      assert out[..m + 1][..m] == out[..m];
      m := m + 1;
    }
    assert out[..m] == out;
  }

  /** One symbol of SplitBy: refine by the preimage S of the splitter C on a and
    * queue the cuts. */
  method SplitOn<Q(==, !new), A(==, !new)>(d: Dfa<Q, A>, rev: map<(A, Q), set<Q>>, pr: PartitionRefinement<Q>, C: set<Q>,
                                           q: set<set<Q>>, ghost F: set<set<Q>>, ghost done: set<A>, a: A)
    returns (q1: set<set<Q>>)
    requires Valid(d) && ReverseOn(d, rev, Pairs(d))
    requires pr.Valid() && Hop(d, pr.sets, pr.partitions, q + {C}, F, []) && Sound(d, pr.partitions)
    requires StableOn(d, pr.partitions, C, done) && a in d.alphabet
    modifies pr
    ensures pr.Valid() && Hop(d, pr.sets, pr.partitions, q1 + {C}, F, []) && Sound(d, pr.partitions)
    ensures StableOn(d, pr.partitions, C, done + {a})
    ensures old(|pr.sets|) <= |pr.sets| && |q1| - |q| <= |pr.sets| - old(|pr.sets|)
  {
    var S := Preimage(d, rev, a, C);
    ghost var s0, p0 := pr.sets, pr.partitions;
    var out, ks := pr.Refine(S);
    RefineReport(d, s0, p0, q, C, F, S, ks, pr.sets, out);
    q1 := QueueCuts(pr.sets, pr.partitions, q, S, out, |s0|, ks);
    RefineStep(d, s0, p0, q, q1, F, C, done, a, S, ks, pr.sets, pr.partitions, out);
  }

  /** One splitter taken from the queue: refine by its preimage on every symbol
    * and queue the cuts. */
  method SplitBy<Q(==, !new), A(==, !new)>(d: Dfa<Q, A>, rev: map<(A, Q), set<Q>>, pr: PartitionRefinement<Q>, C: set<Q>,
                                           q0: set<set<Q>>, ghost F: set<set<Q>>)
    returns (q: set<set<Q>>)
    requires Valid(d) && ReverseOn(d, rev, Pairs(d)) && pr.Valid()
    requires Hop(d, pr.sets, pr.partitions, q0 + {C}, F, []) && Sound(d, pr.partitions)
    modifies pr
    ensures pr.Valid() && Hop(d, pr.sets, pr.partitions, q, F + {C}, []) && Sound(d, pr.partitions)
    ensures old(|pr.sets|) <= |pr.sets| && |q| - |q0| <= |pr.sets| - old(|pr.sets|)
  {
    q := q0;
    var todo := d.alphabet;
    ghost var done: set<A> := {};
    ghost var n0 := |pr.sets|;
    while todo != {}
      invariant todo <= d.alphabet && done == d.alphabet - todo
      invariant pr.Valid() && Hop(d, pr.sets, pr.partitions, q + {C}, F, []) && Sound(d, pr.partitions)
      invariant StableOn(d, pr.partitions, C, done)
      invariant n0 <= |pr.sets| && |q| - |q0| <= |pr.sets| - n0
      decreases |todo|
    {
      var a :| a in todo;
      q := SplitOn(d, rev, pr, C, q, F, done, a);
      MoveOne(d.alphabet, todo, a);
      done := done + {a};
      RemoveOne(todo, a);
      todo := todo - {a};
    }
    HopSettle(d, pr.sets, pr.partitions, q, C, F);
  }

  /** What one refine in SplitBy reports: its cuts, and that the preimage is
    * not queued when there are any. */
  lemma RefineReport<Q(!new), A(!new)>(d: Dfa<Q, A>, s0: seq<set<Q>>, p0: map<Q, nat>, q: set<set<Q>>, C: set<Q>,
                                       F: set<set<Q>>, S: set<Q>, ks: seq<nat>, sets: seq<set<Q>>, out: seq<(set<Q>, set<Q>)>)
    requires Hop(d, s0, p0, q + {C}, F, []) && Refined(s0, S, ks, sets)
    requires Reported(s0, ks, sets, out)
    ensures CutsReported(sets, S, out, |s0|, ks)
    ensures out != [] ==> S !in q
  {
    if S in q {
      assert S in q + {C};
      SaturatedCutsNothing(s0, p0, S, ks, sets);
    }
    forall m | 0 <= m < |out| ensures out[m].0 != {} && out[m].0 <= S && out[m].1 != {} && out[m].1 !! S {
      RefinedHalves(s0, S, ks, sets, m);
    }
  }

  /** What one refine in SplitBy, with its cuts queued, establishes. */
  lemma RefineStep<Q(!new), A(!new)>(d: Dfa<Q, A>, s0: seq<set<Q>>, p0: map<Q, nat>, q: set<set<Q>>, q1: set<set<Q>>,
                                     F: set<set<Q>>, C: set<Q>, done: set<A>, a: A, S: set<Q>, ks: seq<nat>,
                                     sets: seq<set<Q>>, p: map<Q, nat>, out: seq<(set<Q>, set<Q>)>)
    requires Hop(d, s0, p0, q + {C}, F, []) && Sound(d, p0) && StableOn(d, p0, C, done)
    requires a in d.alphabet && S == Pre(d, a, C)
    requires Consistent(sets, p) && NonEmpty(sets, p) && p.Keys == p0.Keys && Refined(s0, S, ks, sets)
    requires Reported(s0, ks, sets, out)
    requires CutsReported(sets, S, out, |s0|, ks) && q1 == Queued(q, out)
    ensures Hop(d, sets, p, q1 + {C}, F, []) && Sound(d, p) && StableOn(d, p, C, done + {a})
  {
    HopRefine(d, s0, p0, q + {C}, F, C, done, a, S, ks, sets, p, out);
    assert Saturated(p0, C);
    SoundRefine(d, s0, p0, S, ks, sets, p, C, a);
    QueuedAll(d, sets, p, q, C, F, S, out, |s0|, ks);
  }

  /** One round of the main loop: pop a splitter C from the queue and split
    * by it on every symbol. */
  method Round<Q(==, !new), A(==, !new)>(d: Dfa<Q, A>, rev: map<(A, Q), set<Q>>, pr: PartitionRefinement<Q>,
                                         q: set<set<Q>>, ghost F: set<set<Q>>)
    returns (q1: set<set<Q>>, ghost F1: set<set<Q>>)
    requires Valid(d) && ReverseOn(d, rev, Pairs(d)) && q != {}
    requires pr.Valid() && Hop(d, pr.sets, pr.partitions, q, F, []) && Sound(d, pr.partitions)
    modifies pr
    ensures pr.Valid() && Hop(d, pr.sets, pr.partitions, q1, F1, []) && Sound(d, pr.partitions)
    ensures old(|pr.sets|) <= |pr.sets| <= |d.states|
    ensures |q1| < |q| + |pr.sets| - old(|pr.sets|)
  {
    var C :| C in q;
    RemoveOne(q, C);
    var rest := q - {C};
    q1 := SplitBy(d, rev, pr, C, rest, F);
    F1 := F + {C};
    ClassCount(pr.sets, pr.partitions, d.states, d.start);
  }

  /** The start of partition_dfa_states: the reverse table, the partition into
    * accepting and other states, and the queue of its classes. */
  method Start<Q(==, !new), A(==, !new)>(d: Dfa<Q, A>)
    returns (rev: map<(A, Q), set<Q>>, pr: PartitionRefinement<Q>, q: set<set<Q>>)
    requires Valid(d)
    ensures ReverseOn(d, rev, Pairs(d)) && fresh(pr)
    ensures pr.Valid() && Hop(d, pr.sets, pr.partitions, q, {}, []) && Sound(d, pr.partitions)
    ensures |pr.sets| <= |d.states|
  {
    rev := BuildReverse(d);
    pr := new PartitionRefinement<Q>.FromSet(d.states);
    ghost var p0 := pr.partitions;
    var cuts, ks := pr.Refine(d.accept);
    q := ClassSet(pr.sets);
    HopStart(d, p0, ks, pr.sets, pr.partitions);
    SoundStart(d, p0, ks, pr.sets, pr.partitions);
    ClassCount(pr.sets, pr.partitions, d.states, d.start);
  }

  /** What the main loop leaves: with the queue empty, the classes are exactly
    * the classes of indistinguishable states. */
  lemma Finish<Q(!new), A(!new)>(d: Dfa<Q, A>, sets: seq<set<Q>>, P: map<Q, nat>, F: set<set<Q>>)
    requires Hop(d, sets, P, {}, F, []) && Sound(d, P)
    ensures P.Keys == d.states && Saturated(P, d.accept) && Congruent(d, P)
    ensures forall x, y :: x in d.states && y in d.states ==> (P[x] == P[y] <==> !Distinct(d, x, y))
  {
    HopCongruent(d, sets, P, F);
    forall x, y | x in d.states && y in d.states
      ensures P[x] == P[y] <==> !Distinct(d, x, y)
    {
      if P[x] == P[y] {
        CongruentIndistinct(d, P, x, y);
      }
    }
  }

  /** The main loop of partition_dfa_states: rounds until the queue is empty. */
  method Rounds<Q(==, !new), A(==, !new)>(d: Dfa<Q, A>, rev: map<(A, Q), set<Q>>, pr: PartitionRefinement<Q>,
                                          q0: set<set<Q>>)
    returns (ghost F: set<set<Q>>)
    requires Valid(d) && ReverseOn(d, rev, Pairs(d))
    requires pr.Valid() && Hop(d, pr.sets, pr.partitions, q0, {}, []) && Sound(d, pr.partitions)
    requires |pr.sets| <= |d.states|
    modifies pr
    ensures pr.Valid() && Hop(d, pr.sets, pr.partitions, {}, F, []) && Sound(d, pr.partitions)
  {
    var q := q0;
    F := {};
    while q != {}
      invariant pr.Valid() && Hop(d, pr.sets, pr.partitions, q, F, []) && Sound(d, pr.partitions)
      invariant |pr.sets| <= |d.states|
      decreases 2 * (|d.states| - |pr.sets|) + |q|
    {
      q, F := Round(d, rev, pr, q, F);
    }
  }

  /** partition_dfa_states: the classes of the result are exactly the classes of
    * indistinguishable states, and the partition is congruent. */
  method PartitionDfaStates<Q(==, !new), A(==, !new)>(d: Dfa<Q, A>) returns (pr: PartitionRefinement<Q>)
    requires Valid(d)
    ensures fresh(pr) && pr.Valid() && pr.partitions.Keys == d.states
    ensures Saturated(pr.partitions, d.accept) && Congruent(d, pr.partitions)
    ensures forall x, y :: x in d.states && y in d.states ==>
      (pr.partitions[x] == pr.partitions[y] <==> !Distinct(d, x, y))
  {
    var rev, q;
    rev, pr, q := Start(d);
    ghost var F := Rounds(d, rev, pr, q);
    pr.Freeze();
    Finish(d, pr.sets, pr.partitions, F);
  }
}

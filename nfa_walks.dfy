/**
 * The path view of an automaton: a walk follows edges k -l-> p one at a time,
 * its ε-edges reading nothing and its symbol edges one symbol each.  An NFA
 * accepts w exactly when a walk from its start to an accept state spells w;
 * AccWalk ties this to the set-by-set acceptance Nfas.Acc that simulate computes.
 */
module NfaWalks {
  import opened Nfas

  /** An edge relation: whether k -l-> p is an edge. */
  type Edges<!Q, !A> = (Q, Label<A>, Q) -> bool

  /** A walk of exactly `steps` edges from q to p whose symbols spell w. */
  ghost predicate Walk<Q(!new), A>(E: Edges<Q, A>, q: Q, w: seq<A>, p: Q, steps: nat)
    decreases steps
  {
    if steps == 0 then q == p && w == []
    else
      (exists r :: E(q, Eps, r) && Walk(E, r, w, p, steps - 1)) ||
      (w != [] && exists r :: E(q, Sym(w[0]), r) && Walk(E, r, w[1..], p, steps - 1))
  }

  /** The edges of an NFA: its moves, a symbol move only on an alphabet symbol. */
  ghost function NfaEdges<Q, A>(n: Nfa<Q, A>): Edges<Q, A>
  {
    (q, l, p) => LabelIn(l, n.alphabet) && p in Move(n, q, l)
  }

  // ---- building walks ------------------------------------------------------

  lemma WalkNil<Q(!new), A>(E: Edges<Q, A>, q: Q)
    ensures Walk(E, q, [], q, 0)
  {
  }

  /** An ε-edge in front of a walk. */
  lemma WalkEps<Q(!new), A>(E: Edges<Q, A>, q: Q, r: Q, w: seq<A>, p: Q, s: nat)
    requires E(q, Eps, r) && Walk(E, r, w, p, s)
    ensures Walk(E, q, w, p, s + 1)
  {
  }

  /** A symbol edge in front of a walk. */
  lemma WalkSym<Q(!new), A>(E: Edges<Q, A>, q: Q, a: A, r: Q, w: seq<A>, p: Q, s: nat)
    requires E(q, Sym(a), r) && Walk(E, r, w, p, s)
    ensures Walk(E, q, [a] + w, p, s + 1)
  {
    assert ([a] + w)[0] == a && ([a] + w)[1..] == w;
  }

  /** The first edge of a walk that has one. */
  lemma FirstEdge<Q(!new), A>(E: Edges<Q, A>, q: Q, w: seq<A>, p: Q, s: nat) returns (l: Label<A>, r: Q)
    requires s > 0 && Walk(E, q, w, p, s)
    ensures E(q, l, r)
    ensures l.Eps? ==> Walk(E, r, w, p, s - 1)
    ensures l.Sym? ==> w != [] && l.symbol == w[0] && Walk(E, r, w[1..], p, s - 1)
  {
    if r0 :| E(q, Eps, r0) && Walk(E, r0, w, p, s - 1) {
      l, r := Eps, r0;
    } else {
      r :| E(q, Sym(w[0]), r) && Walk(E, r, w[1..], p, s - 1);
      l := Sym(w[0]);
    }
  }

  /** Two walks joined end to start. */
  lemma {:induction false} WalkAppend<Q(!new), A>(E: Edges<Q, A>, q: Q, u: seq<A>, x: Q, s1: nat,
                                                  v: seq<A>, p: Q, s2: nat)
    requires Walk(E, q, u, x, s1) && Walk(E, x, v, p, s2)
    ensures Walk(E, q, u + v, p, s1 + s2)
    decreases s1
  {
    if s1 == 0 {
      assert u + v == v;
    } else {
      var l, r := FirstEdge(E, q, u, x, s1);
      if l.Eps? {
        WalkAppend(E, r, u, x, s1 - 1, v, p, s2);
        WalkEps(E, q, r, u + v, p, s1 - 1 + s2);
      } else {
        WalkAppend(E, r, u[1..], x, s1 - 1, v, p, s2);
        WalkSym(E, q, u[0], r, u[1..] + v, p, s1 - 1 + s2);
        assert [u[0]] + (u[1..] + v) == u + v;
      }
    }
  }

  /** An ε-walk in front of a walk. */
  lemma WalkEpsThen<Q(!new), A>(E: Edges<Q, A>, q: Q, x: Q, s1: nat, w: seq<A>, p: Q, s2: nat)
    requires Walk(E, q, [], x, s1) && Walk(E, x, w, p, s2)
    ensures Walk(E, q, w, p, s1 + s2)
  {
    var nil: seq<A> := [];
    WalkAppend(E, q, nil, x, s1, w, p, s2);
    assert nil + w == w;
  }

  /** A walk stays a walk in any relation with more edges. */
  lemma {:induction false} WalkLift<Q(!new), A>(E1: Edges<Q, A>, E2: Edges<Q, A>, q: Q, w: seq<A>, p: Q, s: nat)
    requires forall k, l, r :: E1(k, l, r) ==> E2(k, l, r)
    requires Walk(E1, q, w, p, s)
    ensures Walk(E2, q, w, p, s)
    decreases s
  {
    if s > 0 {
      var l, r := FirstEdge(E1, q, w, p, s);
      if l.Eps? {
        WalkLift(E1, E2, r, w, p, s - 1);
      } else {
        WalkLift(E1, E2, r, w[1..], p, s - 1);
      }
    }
  }

  /** A walk spelling a word over an alphabet needs only the edges whose
    * labels are ε or in that alphabet. */
  lemma {:induction false} WalkOverAlphabet<Q(!new), A>(E1: Edges<Q, A>, E2: Edges<Q, A>, alphabet: set<A>,
                                                        q: Q, w: seq<A>, p: Q, s: nat)
    requires forall k, l, r :: E1(k, l, r) && LabelIn(l, alphabet) ==> E2(k, l, r)
    requires forall i :: 0 <= i < |w| ==> w[i] in alphabet
    requires Walk(E1, q, w, p, s)
    ensures Walk(E2, q, w, p, s)
    decreases s
  {
    if s > 0 {
      var l, r := FirstEdge(E1, q, w, p, s);
      if l.Eps? {
        WalkOverAlphabet(E1, E2, alphabet, r, w, p, s - 1);
      } else {
        assert w[0] in alphabet;
        assert forall i :: 0 <= i < |w[1..]| ==> w[1..][i] == w[i + 1];
        WalkOverAlphabet(E1, E2, alphabet, r, w[1..], p, s - 1);
      }
    }
  }

  /** From a state without edges a walk goes nowhere. */
  lemma Stuck<Q(!new), A>(E: Edges<Q, A>, q: Q, w: seq<A>, p: Q, s: nat)
    requires forall l, r :: !E(q, l, r)
    ensures Walk(E, q, w, p, s) ==> s == 0 && p == q && w == []
  {
  }

  /** A walk reading a non-empty word: ε-edges, then an edge on its first
    * symbol, then a walk reading the rest. */
  lemma {:induction false} FirstSymbol<Q(!new), A>(E: Edges<Q, A>, q: Q, w: seq<A>, p: Q, s: nat)
      returns (x: Q, y: Q, s1: nat, s2: nat)
    requires w != [] && Walk(E, q, w, p, s)
    ensures Walk(E, q, [], x, s1) && E(x, Sym(w[0]), y) && Walk(E, y, w[1..], p, s2)
    decreases s
  {
    var l, r := FirstEdge(E, q, w, p, s);
    if l.Eps? {
      x, y, s1, s2 := FirstSymbol(E, r, w, p, s - 1);
      WalkEps(E, q, r, [], x, s1);
      s1 := s1 + 1;
    } else {
      x, y, s1, s2 := q, r, 0, s - 1;
    }
  }

  /** A non-empty word is its first symbol followed by the rest. */
  lemma HeadTail<A>(w: seq<A>)
    requires w != []
    ensures [w[0]] + w[1..] == w
  {
  }

  /** A word is its first i symbols followed by the rest. */
  lemma TakeDrop<A>(w: seq<A>, i: nat)
    requires i <= |w|
    ensures w[..i] + w[i..] == w
  {
  }

  /** A walk entered by an ε-edge and left by an ε-edge, in a relation
    * holding the walk's own edges. */
  lemma {:induction false} EpsAround<Q(!new), A>(E: Edges<Q, A>, Ec: Edges<Q, A>, q: Q, x: Q, y: Q, p: Q,
                                                 w: seq<A>, s: nat) returns (t: nat)
    requires forall k, l, r :: Ec(k, l, r) ==> E(k, l, r)
    requires E(q, Eps, x) && E(y, Eps, p) && Walk(Ec, x, w, y, s)
    ensures Walk(E, q, w, p, t)
  {
    var nil: seq<A> := [];
    WalkLift(Ec, E, x, w, y, s);
    WalkNil(E, p);
    WalkEps(E, y, p, nil, p, 0);
    WalkAppend(E, x, w, y, s, nil, p, 1);
    assert w + nil == w;
    WalkEps(E, q, x, w, p, s + 1);
    t := s + 2;
  }

  /** A walk entered by an ε-edge, in a relation holding its edges, followed
    * by a walk of the larger relation. */
  lemma {:induction false} EpsThenJoin<Q(!new), A>(E: Edges<Q, A>, Ec: Edges<Q, A>, q: Q, x: Q, y: Q, p: Q,
                                                   u: seq<A>, s1: nat, v: seq<A>, s2: nat) returns (t: nat)
    requires forall k, l, r :: Ec(k, l, r) ==> E(k, l, r)
    requires E(q, Eps, x) && Walk(Ec, x, u, y, s1) && Walk(E, y, v, p, s2)
    ensures Walk(E, q, u + v, p, t)
  {
    WalkLift(Ec, E, x, u, y, s1);
    WalkAppend(E, x, u, y, s1, v, p, s2);
    WalkEps(E, q, x, u + v, p, s1 + s2);
    t := s1 + s2 + 1;
  }

  /** Two walks of smaller relations joined by an ε-edge of the larger one. */
  lemma {:induction false} JoinByEps<Q(!new), A>(E: Edges<Q, A>, E1: Edges<Q, A>, E2: Edges<Q, A>,
                                                 q: Q, x: Q, y: Q, p: Q,
                                                 u: seq<A>, s1: nat, v: seq<A>, s2: nat) returns (t: nat)
    requires forall k, l, r :: E1(k, l, r) ==> E(k, l, r)
    requires forall k, l, r :: E2(k, l, r) ==> E(k, l, r)
    requires Walk(E1, q, u, x, s1) && E(x, Eps, y) && Walk(E2, y, v, p, s2)
    ensures Walk(E, q, u + v, p, t)
  {
    WalkLift(E1, E, q, u, x, s1);
    WalkLift(E2, E, y, v, p, s2);
    WalkEps(E, x, y, v, p, s2);
    WalkAppend(E, q, u, x, s1, v, p, s2 + 1);
    t := s1 + s2 + 1;
  }

  // ---- walks and the set semantics of an NFA --------------------------------

  /** An ε-walk from an ε-closed set stays in it. */
  lemma {:induction false} EpsWalkStays<Q(!new), A>(n: Nfa<Q, A>, X: set<Q>, q: Q, p: Q, s: nat)
    requires EpsClosed(n, X) && q in X && Walk(NfaEdges(n), q, [], p, s)
    ensures p in X
    decreases s
  {
    if s > 0 {
      var l, r := FirstEdge(NfaEdges(n), q, [], p, s);
      EpsWalkStays(n, X, r, p, s - 1);
    }
  }

  /** Every state of the ε-closure of S is reached from S by an ε-walk. */
  lemma {:induction false} ECloseWalk<Q(!new), A>(n: Nfa<Q, A>, S: set<Q>, p: Q) returns (q: Q, s: nat)
    requires Valid(n) && S <= n.states && p in EClose(n, S)
    ensures q in S && Walk(NfaEdges(n), q, [], p, s)
    decreases n.states - S
  {
    var S' := S + EpsPost(n, S);
    if S' <= S {
      q, s := p, 0;
    } else {
      var q', s' := ECloseWalk(n, S', p);
      if q' in S {
        q, s := q', s';
      } else {
        q :| q in S && q' in Move(n, q, Eps);
        WalkEps(NfaEdges(n), q, q', [], p, s');
        s := s' + 1;
      }
    }
  }

  /** An ε-walk from S ends in the ε-closure of S. */
  lemma WalkEClose<Q(!new), A>(n: Nfa<Q, A>, S: set<Q>, q: Q, p: Q, s: nat)
    requires Valid(n) && S <= n.states && q in S && Walk(NfaEdges(n), q, [], p, s)
    ensures p in EClose(n, S)
  {
    EpsWalkStays(n, EClose(n, S), q, p, s);
  }

  /** An ε-walk to x, a symbol edge x -a-> y and a walk from y, joined. */
  lemma EpsSymWalk<Q(!new), A>(E: Edges<Q, A>, q: Q, x: Q, s1: nat, a: A, y: Q, v: seq<A>, p: Q, s2: nat)
    requires Walk(E, q, [], x, s1) && E(x, Sym(a), y) && Walk(E, y, v, p, s2)
    ensures Walk(E, q, [a] + v, p, s1 + s2 + 1)
  {
    WalkSym(E, x, a, y, v, p, s2);
    WalkEpsThen(E, q, x, s1, [a] + v, p, s2 + 1);
  }

  /** A state x of the closure of C and a symbol edge x -a-> y in front of a
    * walk from y: a walk from a state of C. */
  lemma ClosureThenSym<Q(!new), A>(n: Nfa<Q, A>, C: set<Q>, x: Q, a: A, y: Q, v: seq<A>, p: Q, s2: nat)
      returns (q: Q, s: nat)
    requires Valid(n) && C <= n.states && x in EClose(n, C)
    requires a in n.alphabet && y in Move(n, x, Sym(a)) && Walk(NfaEdges(n), y, v, p, s2)
    ensures q in C && Walk(NfaEdges(n), q, [a] + v, p, s)
  {
    var s1;
    q, s1 := ECloseWalk(n, C, x);
    EpsSymWalk(NfaEdges(n), q, x, s1, a, y, v, p, s2);
    s := s1 + s2 + 1;
  }

  /** Acceptance from the closure of C yields a walk from a state of C to an
    * accept state spelling w. */
  lemma {:induction false} AccToWalk<Q(!new), A>(n: Nfa<Q, A>, C: set<Q>, w: seq<A>) returns (q: Q, p: Q, s: nat)
    requires Valid(n) && C <= n.states && Acc(n, EClose(n, C), w)
    ensures q in C && p in n.accept && Walk(NfaEdges(n), q, w, p, s)
    decreases |w|
  {
    var E := NfaEdges(n);
    var X := EClose(n, C);
    if w == [] {
      p :| p in X * n.accept;
      q, s := ECloseWalk(n, C, p);
    } else {
      var a := w[0];
      var Y := Post(n, X, a);
      PostFacts(n, X, {}, a);
      assert Acc(n, EClose(n, Y), w[1..]);
      var y, s2;
      y, p, s2 := AccToWalk(n, Y, w[1..]);
      var x := PostSource(n, X, a, y);
      q, s := ClosureThenSym(n, C, x, a, y, w[1..], p, s2);
      HeadTail(w);
    }
  }

  /** A walk from a state of C to an accept state spelling w makes the closure
    * of C accept w. */
  lemma {:induction false} WalkToAcc<Q(!new), A>(n: Nfa<Q, A>, C: set<Q>, w: seq<A>, q: Q, p: Q, s: nat)
    requires Valid(n) && C <= n.states
    requires q in C && p in n.accept && Walk(NfaEdges(n), q, w, p, s)
    ensures Acc(n, EClose(n, C), w)
    decreases |w|
  {
    var E := NfaEdges(n);
    var X := EClose(n, C);
    if w == [] {
      WalkEClose(n, C, q, p, s);
      assert p in X * n.accept;
    } else {
      var a := w[0];
      var x, y, s1, s2 := FirstSymbol(E, q, w, p, s);
      WalkEClose(n, C, q, x, s1);
      PostIntro(n, X, a, x, y);
      PostFacts(n, X, {}, a);
      WalkToAcc(n, Post(n, X, a), w[1..], y, p, s2);
    }
  }

  /** Acceptance from the closure of C is a walk from a state of C to an
    * accept state spelling w. */
  lemma AccWalk<Q(!new), A>(n: Nfa<Q, A>, C: set<Q>, w: seq<A>)
    requires Valid(n) && C <= n.states
    ensures Acc(n, EClose(n, C), w) <==> exists q, p, s :: q in C && p in n.accept && Walk(NfaEdges(n), q, w, p, s)
  {
    if Acc(n, EClose(n, C), w) {
      var q, p, s := AccToWalk(n, C, w);
      assert q in C && p in n.accept && Walk(NfaEdges(n), q, w, p, s);
      assert exists q, p, s :: q in C && p in n.accept && Walk(NfaEdges(n), q, w, p, s);
    }
    if q, p, s :| q in C && p in n.accept && Walk(NfaEdges(n), q, w, p, s) {
      WalkToAcc(n, C, w, q, p, s);
      assert Acc(n, EClose(n, C), w);
    }
  }

  /** The language of an NFA is the set of words some walk from its start to
    * an accept state spells. */
  lemma LangWalk<Q(!new), A>(n: Nfa<Q, A>, w: seq<A>)
    requires Valid(n)
    ensures Lang(n, w) <==> exists p, s :: p in n.accept && Walk(NfaEdges(n), n.start, w, p, s)
  {
    AccWalk(n, {n.start}, w);
  }
}

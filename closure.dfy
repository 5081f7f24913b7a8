/**
 * Kleene closure of regular expressions and NFAs (operators/closure.py).  The
 * NFA closure tags the automaton's states Internal and puts a fresh accepting
 * Start before them; Start moves on ε to Internal of the old start, and every
 * Internal accept state also moves on ε back to Internal of the old start.
 */
module ClosureOperator {
  import opened Wrappers
  import opened RegexAst
  import opened RegexSemantics
  import opened RegularExpression
  import opened Nfas
  import opened GeneratedStates

  // ---- closure_regex ----------------------------------------------------------

  /** closure_regex: the same alphabet and a Closure node. */
  function ClosureRegex<S(==)>(a: RegexValue<S>): (r: RegexValue<S>)
    ensures r.alphabet == a.alphabet
    ensures Consistent(a) ==> Consistent(r)
    ensures r.ast.Closure? && r.ast.child == a.ast
  {
    RegexValue(a.alphabet, Closure(a.ast))
  }

  // ---- closure_nfa ------------------------------------------------------------

  function ClosureStates<A>(n: Nfa<GState, A>): set<GState>
  {
    {Start} + WrapInternal(n.states)
  }

  /** The transition function of closure_nfa, case by case: an Internal state
    * forwards the automaton's moves, an Internal accept state also moves on ε
    * to Internal of the old start, and Start moves on ε to Internal of the old
    * start. */
  function ClosureMove<A>(n: Nfa<GState, A>, q: GState, l: Label<A>): set<GState>
  {
    if q.Internal? && q.child !in n.accept then WrapInternal(Move(n, q.child, l))
    else if q.Internal? && q.child in n.accept && l.Sym? then WrapInternal(Move(n, q.child, l))
    else if q.Internal? && q.child in n.accept && l.Eps? then WrapInternal(Move(n, q.child, l) + {n.start})
    else if q.Start? && l.Eps? then {Internal(n.start)}
    else {}
  }

  lemma ClosureMoveInside<A>(n: Nfa<GState, A>, q: GState, l: Label<A>)
    requires Valid(n) && q in ClosureStates(n) && LabelIn(l, n.alphabet)
    ensures ClosureMove(n, q, l) <= ClosureStates(n)
  {
    if q.Internal? {
      assert q.child in n.states;
      WrapMonotone(Move(n, q.child, l) + {n.start}, n.states);
      WrapMonotone(Move(n, q.child, l), Move(n, q.child, l) + {n.start});
    }
  }

  /** closure_nfa's transition function tabulated over states × (alphabet ∪ {ε}). */
  function ClosureDelta<A(==)>(n: Nfa<GState, A>): map<(GState, Label<A>), set<GState>>
  {
    map q, l | q in ClosureStates(n) && l in Labels(n.alphabet) :: (q, l) := ClosureMove(n, q, l)
  }

  /** What closure_nfa builds: its states, alphabet, start and accept states, and
    * on every state and label the moves of ClosureMove. */
  ghost predicate IsClosure<A>(k: Nfa<GState, A>, n: Nfa<GState, A>)
  {
    && k.states == ClosureStates(n) && k.alphabet == n.alphabet
    && k.start == Start && k.accept == {Start} + WrapInternal(n.accept)
    && (forall q :: q in k.states ==> Move(k, q, Eps) == ClosureMove(n, q, Eps))
    && (forall q, a :: q in k.states && a in k.alphabet ==> Move(k, q, Sym(a)) == ClosureMove(n, q, Sym(a)))
  }

  /** closure_nfa */
  function ClosureNfa<A(==)>(n: Nfa<GState, A>): (r: Nfa<GState, A>)
    requires Valid(n)
    ensures Valid(r) && IsClosure(r, n)
  {
    var r := Nfa(ClosureStates(n), n.alphabet, ClosureDelta(n), Start, {Start} + WrapInternal(n.accept));
    WrapMonotone(n.accept, n.states);
    assert forall q, l :: q in r.states && l in Labels(r.alphabet) ==> Move(r, q, l) == ClosureMove(n, q, l);
    assert TransitionsInside(r) by {
      forall q | q in r.states
        ensures Move(r, q, Eps) <= r.states && forall a :: a in r.alphabet ==> Move(r, q, Sym(a)) <= r.states
      {
        ClosureMoveInside(n, q, Eps);
        forall a | a in r.alphabet ensures Move(r, q, Sym(a)) <= r.states {
          ClosureMoveInside(n, q, Sym(a));
        }
      }
    }
    r
  }

  /** The closure has one state more than the automaton. */
  lemma ClosureSize<A>(k: Nfa<GState, A>, n: Nfa<GState, A>)
    requires IsClosure(k, n)
    ensures |k.states| == 1 + |n.states|
  {
    WrapSizes(n.states);
    assert Start !in WrapInternal(n.states);
  }

  // ---- the language of the closure ----------------------------------------------

  /** v is a concatenation of zero or more non-empty words of the language. */
  ghost predicate Star<A>(n: Nfa<GState, A>, v: seq<A>)
    requires Valid(n)
    decreases |v|
  {
    v == [] || exists i :: 1 <= i <= |v| && Lang(n, v[..i]) && Star(n, v[i..])
  }

  /** Some prefix of w is accepted from Y and the rest is in Star. */
  ghost predicate StarAcc<A>(n: Nfa<GState, A>, Y: set<GState>, w: seq<A>)
    requires Valid(n) && Y <= n.states
  {
    exists i :: 0 <= i <= |w| && Acc(n, Y, w[..i]) && Star(n, w[i..])
  }

  /** The restart: the old start is re-entered from a set holding an accept state. */
  function Restart<A>(n: Nfa<GState, A>, E: set<GState>): set<GState>
  {
    if E * n.accept != {} then {n.start} else {}
  }

  /** The sets the closure reaches: ε-closed, and holding the old start whenever
    * they hold an accept state. */
  ghost predicate Coherent<A>(n: Nfa<GState, A>, Y: set<GState>)
  {
    Y <= n.states && EpsClosed(n, Y) && Restart(n, Y) <= Y
  }

  // ---- ε-closure in the closure NFA -----------------------------------------------

  lemma ClosureClosed<A>(k: Nfa<GState, A>, n: Nfa<GState, A>, Y: set<GState>)
    requires IsClosure(k, n) && Coherent(n, Y)
    ensures EpsClosed(k, WrapInternal(Y))
  {
    forall q, p | q in WrapInternal(Y) && p in Move(k, q, Eps) ensures p in WrapInternal(Y) {
      if q.child in n.accept {
        assert q.child in Y * n.accept;
        assert p.child in Move(n, q.child, Eps) + {n.start};
      } else {
        assert p.child in Move(n, q.child, Eps);
      }
    }
  }

  /** A set ε-closed in the closure NFA holding Internal(X) holds Internal of X's closure. */
  lemma InternalCovers<A>(k: Nfa<GState, A>, n: Nfa<GState, A>, X: set<GState>, E: set<GState>)
    requires Valid(n) && IsClosure(k, n) && EpsClosed(k, E)
    requires X <= n.states && WrapInternal(X) <= E
    ensures WrapInternal(EClose(n, X)) <= E
  {
    var T := set x | x in n.states && Internal(x) in E;
    forall x, p | x in T && p in Move(n, x, Eps) ensures p in T {
      assert Internal(p) in Move(k, Internal(x), Eps);
    }
    ECloseLeast(n, X, T);
  }

  lemma RestartCovers<A>(k: Nfa<GState, A>, n: Nfa<GState, A>, E1: set<GState>, E: set<GState>)
    requires IsClosure(k, n) && EpsClosed(k, E)
    requires E1 <= n.states && WrapInternal(E1) <= E
    ensures WrapInternal(Restart(n, E1)) <= E
  {
    if E1 * n.accept != {} {
      var x :| x in E1 * n.accept;
      assert Internal(n.start) in Move(k, Internal(x), Eps);
    }
  }

  /** Closing Internal(P) closes P in the automaton, and closes the old start in
    * as well when that closure meets an accept state. */
  lemma ClosureEClose<A>(k: Nfa<GState, A>, n: Nfa<GState, A>, P: set<GState>)
    requires Valid(n) && Valid(k) && IsClosure(k, n) && P <= n.states
    ensures WrapInternal(P) <= k.states
    ensures P + Restart(n, EClose(n, P)) <= n.states
    ensures Coherent(n, EClose(n, P + Restart(n, EClose(n, P))))
    ensures EClose(k, WrapInternal(P)) == WrapInternal(EClose(n, P + Restart(n, EClose(n, P))))
  {
    var Y := EClose(n, P + Restart(n, EClose(n, P)));
    WrapMonotone(P, n.states);
    ECloseCoherent(n, P);
    ClosureECloseInside(k, n, P);
    ClosureECloseCovers(k, n, P, EClose(k, WrapInternal(P)));
  }

  lemma ClosureECloseInside<A>(k: Nfa<GState, A>, n: Nfa<GState, A>, P: set<GState>)
    requires Valid(n) && Valid(k) && IsClosure(k, n) && P <= n.states && WrapInternal(P) <= k.states
    requires P + Restart(n, EClose(n, P)) <= n.states && Coherent(n, EClose(n, P + Restart(n, EClose(n, P))))
    ensures EClose(k, WrapInternal(P)) <= WrapInternal(EClose(n, P + Restart(n, EClose(n, P))))
  {
    var Y := EClose(n, P + Restart(n, EClose(n, P)));
    WrapMonotone(P, Y);
    ClosureClosed(k, n, Y);
    ECloseLeast(k, WrapInternal(P), WrapInternal(Y));
  }

  lemma ClosureECloseCovers<A>(k: Nfa<GState, A>, n: Nfa<GState, A>, P: set<GState>, E: set<GState>)
    requires Valid(n) && IsClosure(k, n) && P <= n.states && EpsClosed(k, E) && WrapInternal(P) <= E
    ensures P + Restart(n, EClose(n, P)) <= n.states
    ensures WrapInternal(EClose(n, P + Restart(n, EClose(n, P)))) <= E
  {
    var E1 := EClose(n, P);
    var P' := P + Restart(n, E1);
    InternalCovers(k, n, P, E);
    RestartCovers(k, n, E1, E);
    WrapMonotone(P, E1);
    assert WrapInternal(P') == WrapInternal(P) + WrapInternal(Restart(n, E1));
    InternalCovers(k, n, P', E);
  }

  lemma ECloseCoherent<A>(n: Nfa<GState, A>, P: set<GState>)
    requires Valid(n) && P <= n.states
    ensures P + Restart(n, EClose(n, P)) <= n.states
    ensures Coherent(n, EClose(n, P + Restart(n, EClose(n, P))))
  {
    var E1 := EClose(n, P);
    if E1 * n.accept == {} {
      assert P + Restart(n, E1) == P;
    }
  }

  // ---- reading a symbol ---------------------------------------------------------

  lemma ClosurePost<A>(k: Nfa<GState, A>, n: Nfa<GState, A>, Y: set<GState>, a: A)
    requires Valid(n) && IsClosure(k, n) && Y <= n.states
    ensures Post(n, Y, a) <= n.states
    ensures Post(k, WrapInternal(Y), a) == WrapInternal(Post(n, Y, a))
  {
    PostFacts(n, Y, {}, a);
    ClosurePostInside(k, n, Y, a);
    ClosurePostCovers(k, n, Y, a);
  }

  lemma ClosurePostInside<A>(k: Nfa<GState, A>, n: Nfa<GState, A>, Y: set<GState>, a: A)
    requires IsClosure(k, n) && Y <= n.states
    ensures Post(k, WrapInternal(Y), a) <= WrapInternal(Post(n, Y, a))
  {
    forall p | p in Post(k, WrapInternal(Y), a) ensures p in WrapInternal(Post(n, Y, a)) {
      var q :| q in WrapInternal(Y) && p in Move(k, q, Sym(a));
      assert p.child in Move(n, q.child, Sym(a));
    }
  }

  lemma ClosurePostCovers<A>(k: Nfa<GState, A>, n: Nfa<GState, A>, Y: set<GState>, a: A)
    requires IsClosure(k, n) && Y <= n.states
    ensures WrapInternal(Post(n, Y, a)) <= Post(k, WrapInternal(Y), a)
  {
    forall p | p in WrapInternal(Post(n, Y, a)) ensures p in Post(k, WrapInternal(Y), a) {
      PostElim(n, Y, a, p.child);
      var x :| x in Y && p.child in Move(n, x, Sym(a));
      assert Move(k, Internal(x), Sym(a)) == WrapInternal(Move(n, x, Sym(a)));
      PostIntro(k, WrapInternal(Y), a, Internal(x), p);
    }
  }

  // ---- splitting words ----------------------------------------------------------

  /** A split of a non-empty word puts its cut at the front or after the first symbol. */
  lemma StarCons<A>(n: Nfa<GState, A>, Y: set<GState>, w: seq<A>)
    requires Valid(n) && Y <= n.states && w != []
    ensures Post(n, Y, w[0]) <= n.states
    ensures StarAcc(n, Y, w) <==> (Y * n.accept != {} && Star(n, w)) || StarAcc(n, EClose(n, Post(n, Y, w[0])), w[1..])
  {
    PostFacts(n, Y, {}, w[0]);
    if StarAcc(n, Y, w) {
      StarConsOut(n, Y, w);
    }
    if Y * n.accept != {} && Star(n, w) {
      StarAtFront(n, Y, w);
    }
    if StarAcc(n, EClose(n, Post(n, Y, w[0])), w[1..]) {
      StarConsIn(n, Y, w);
    }
  }

  lemma StarConsOut<A>(n: Nfa<GState, A>, Y: set<GState>, w: seq<A>)
    requires Valid(n) && Y <= n.states && w != [] && StarAcc(n, Y, w)
    ensures Post(n, Y, w[0]) <= n.states
    ensures (Y * n.accept != {} && Star(n, w)) || StarAcc(n, EClose(n, Post(n, Y, w[0])), w[1..])
  {
    PostFacts(n, Y, {}, w[0]);
    var i :| 0 <= i <= |w| && Acc(n, Y, w[..i]) && Star(n, w[i..]);
    if i == 0 {
      assert w[i..] == w;
    } else {
      AccPrefixStep(n, Y, w, i);
      var E := EClose(n, Post(n, Y, w[0]));
      assert Acc(n, E, w[1..][..i - 1]) && Star(n, w[1..][i - 1..]);
    }
  }

  lemma StarConsIn<A>(n: Nfa<GState, A>, Y: set<GState>, w: seq<A>)
    requires Valid(n) && Y <= n.states && w != []
    requires Post(n, Y, w[0]) <= n.states && StarAcc(n, EClose(n, Post(n, Y, w[0])), w[1..])
    ensures StarAcc(n, Y, w)
  {
    var E := EClose(n, Post(n, Y, w[0]));
    var j :| 0 <= j <= |w[1..]| && Acc(n, E, w[1..][..j]) && Star(n, w[1..][j..]);
    AccPrefixStep(n, Y, w, j + 1);
    assert Acc(n, Y, w[..j + 1]) && Star(n, w[j + 1..]);
  }

  lemma StarAtFront<A>(n: Nfa<GState, A>, Y: set<GState>, w: seq<A>)
    requires Valid(n) && Y <= n.states && Y * n.accept != {} && Star(n, w)
    ensures StarAcc(n, Y, w)
  {
    assert w[..0] == [] && w[0..] == w;
  }

  /** A coherent set holding an accept state holds the old start, so it can
    * skip the cut at the front of a non-empty Star word. */
  lemma StarFrontStep<A>(n: Nfa<GState, A>, Y: set<GState>, w: seq<A>)
    requires Valid(n) && Coherent(n, Y) && Y * n.accept != {} && w != [] && Star(n, w)
    ensures Post(n, Y, w[0]) <= n.states
    ensures StarAcc(n, EClose(n, Post(n, Y, w[0])), w[1..])
  {
    var i :| 1 <= i <= |w| && Lang(n, w[..i]) && Star(n, w[i..]);
    ECloseLeast(n, {n.start}, Y);
    AccMonotone(n, EClose(n, {n.start}), Y, w[..i]);
    AccPrefixStep(n, Y, w, i);
    var E := EClose(n, Post(n, Y, w[0]));
    assert Acc(n, E, w[1..][..i - 1]) && Star(n, w[1..][i - 1..]);
  }

  lemma StarAccUnion<A>(n: Nfa<GState, A>, Y: set<GState>, Z: set<GState>, w: seq<A>)
    requires Valid(n) && Y <= n.states && Z <= n.states
    ensures StarAcc(n, Y + Z, w) <==> StarAcc(n, Y, w) || StarAcc(n, Z, w)
  {
    if StarAcc(n, Y + Z, w) {
      var i :| 0 <= i <= |w| && Acc(n, Y + Z, w[..i]) && Star(n, w[i..]);
      AccUnion(n, Y, Z, w[..i]);
    }
    if StarAcc(n, Y, w) {
      var i :| 0 <= i <= |w| && Acc(n, Y, w[..i]) && Star(n, w[i..]);
      AccUnion(n, Y, Z, w[..i]);
    }
    if StarAcc(n, Z, w) {
      var i :| 0 <= i <= |w| && Acc(n, Z, w[..i]) && Star(n, w[i..]);
      AccUnion(n, Y, Z, w[..i]);
    }
  }

  /** From the start closure, the split words are Star words, and every
    * non-empty Star word splits so. */
  lemma StarFromStart<A>(n: Nfa<GState, A>, w: seq<A>)
    requires Valid(n)
    ensures StarAcc(n, EClose(n, {n.start}), w) ==> Star(n, w)
    ensures w != [] && Star(n, w) ==> StarAcc(n, EClose(n, {n.start}), w)
  {
    if StarAcc(n, EClose(n, {n.start}), w) {
      var i :| 0 <= i <= |w| && Lang(n, w[..i]) && Star(n, w[i..]);
      if i == 0 {
        assert w[i..] == w;
      }
    }
    if Star(n, w) && w != [] {
      var i :| 1 <= i <= |w| && Lang(n, w[..i]) && Star(n, w[i..]);
    }
  }

  /** From the restart's closure only Star words split, and only when the
    * restart is taken. */
  lemma RestartAcc<A>(n: Nfa<GState, A>, E: set<GState>, w: seq<A>)
    requires Valid(n)
    ensures Restart(n, E) <= n.states
    ensures StarAcc(n, EClose(n, Restart(n, E)), w) ==> E * n.accept != {} && Star(n, w)
  {
    if E * n.accept == {} {
      ECloseEmpty(n);
      if StarAcc(n, {}, w) {
        var i :| 0 <= i <= |w| && Acc(n, {}, w[..i]) && Star(n, w[i..]);
        AccEmpty(n, w[..i]);
      }
    } else {
      StarFromStart(n, w);
    }
  }

  /** The automaton half of the induction step. */
  lemma ClosureAccTail<A>(n: Nfa<GState, A>, Y: set<GState>, w: seq<A>)
    requires Valid(n) && Coherent(n, Y) && w != []
    ensures Post(n, Y, w[0]) <= n.states
    ensures Post(n, Y, w[0]) + Restart(n, EClose(n, Post(n, Y, w[0]))) <= n.states
    ensures StarAcc(n, EClose(n, Post(n, Y, w[0]) + Restart(n, EClose(n, Post(n, Y, w[0])))), w[1..]) <==> StarAcc(n, Y, w)
  {
    var a, w' := w[0], w[1..];
    PostFacts(n, Y, {}, a);
    var P := Post(n, Y, a);
    var E := EClose(n, P);
    var R := Restart(n, E);
    ECloseUnion(n, P, R);
    StarAccUnion(n, E, EClose(n, R), w');
    RestartAcc(n, E, w');
    StarCons(n, Y, w);
    if E * n.accept != {} && Star(n, w') {
      StarAtFront(n, E, w');
    }
    if Y * n.accept != {} && Star(n, w) {
      StarFrontStep(n, Y, w);
    }
  }

  lemma ClosureAccEmpty<A>(k: Nfa<GState, A>, n: Nfa<GState, A>, Y: set<GState>)
    requires Valid(n) && Valid(k) && IsClosure(k, n) && Coherent(n, Y)
    ensures WrapInternal(Y) <= k.states
    ensures Acc(k, WrapInternal(Y), []) <==> StarAcc(n, Y, [])
  {
    WrapMonotone(Y, n.states);
    if Y * n.accept != {} {
      var y :| y in Y * n.accept;
      assert Internal(y) in WrapInternal(Y) * k.accept;
    }
    if WrapInternal(Y) * k.accept != {} {
      var g :| g in WrapInternal(Y) * k.accept;
      assert g.child in Y * n.accept;
    }
    var e: seq<A> := [];
    assert e[..0] == e == e[0..];
  }

  /** From Internal of a coherent set, the closure NFA accepts w iff a prefix of
    * w is accepted from the set and the rest is a Star word. */
  lemma {:induction false} ClosureAcc<A>(k: Nfa<GState, A>, n: Nfa<GState, A>, Y: set<GState>, w: seq<A>)
    requires Valid(n) && Valid(k) && IsClosure(k, n) && Coherent(n, Y)
    ensures WrapInternal(Y) <= k.states
    ensures Acc(k, WrapInternal(Y), w) <==> StarAcc(n, Y, w)
    decreases |w|
  {
    WrapMonotone(Y, n.states);
    if w == [] {
      ClosureAccEmpty(k, n, Y);
    } else {
      var a := w[0];
      ClosurePost(k, n, Y, a);
      var P := Post(n, Y, a);
      ClosureEClose(k, n, P);
      ClosureAcc(k, n, EClose(n, P + Restart(n, EClose(n, P))), w[1..]);
      ClosureAccTail(n, Y, w);
    }
  }

  /** closure_nfa recognises the Kleene star of the language. */
  lemma ClosureLang<A>(n: Nfa<GState, A>, w: seq<A>)
    requires Valid(n)
    ensures Lang(ClosureNfa(n), w) <==> Star(n, w)
  {
    ClosureLangOf(ClosureNfa(n), n, w);
  }

  lemma ClosureLangOf<A>(k: Nfa<GState, A>, n: Nfa<GState, A>, w: seq<A>)
    requires Valid(n) && Valid(k) && IsClosure(k, n)
    ensures Lang(k, w) <==> Star(n, w)
  {
    var Y := EClose(n, {n.start});
    ClosureStartClosure(k, n);
    AccUnion(k, {Start}, WrapInternal(Y), w);
    ClosureStartAcc(k, n, w);
    ClosureAcc(k, n, Y, w);
    StarFromStart(n, w);
  }

  /** The closure of Start: Start and Internal of the old start's closure. */
  lemma ClosureStartClosure<A>(k: Nfa<GState, A>, n: Nfa<GState, A>)
    requires Valid(n) && Valid(k) && IsClosure(k, n)
    ensures EClose(n, {n.start}) <= n.states
    ensures EClose(k, {Start}) == {Start} + WrapInternal(EClose(n, {n.start}))
  {
    var Y := EClose(n, {n.start});
    EpsPostSingleton(k, Start);
    assert EpsPost(k, {Start}) == WrapInternal({n.start});
    ClosureEClose(k, n, {n.start});
    assert {n.start} + Restart(n, Y) == {n.start};
    ECloseVia(k, {Start}, WrapInternal({n.start}), WrapInternal(Y));
  }

  /** Start alone accepts the empty word and nothing else. */
  lemma ClosureStartAcc<A>(k: Nfa<GState, A>, n: Nfa<GState, A>, w: seq<A>)
    requires Valid(k) && IsClosure(k, n)
    ensures Acc(k, {Start}, w) <==> w == []
  {
    if w != [] {
      PostSingleton(k, Start, w[0]);
      assert Post(k, {Start}, w[0]) == {} by {
        if w[0] in k.alphabet {
        }
      }
      ECloseEmpty(k);
      AccEmpty(k, w[1..]);
    } else {
      assert Start in {Start} * k.accept;
    }
  }
}

/**
 * Union of regular expressions, DFAs and NFAs (operators/union.py).  The NFA
 * union puts a fresh Start before the two automata, tagged Left and Right; the
 * DFA union runs both automata, each widened to the joint alphabet, in step.
 */
module UnionOperator {
  import opened Wrappers
  import opened RegexAst
  import opened RegexSemantics
  import opened RegularExpression
  import opened Nfas
  import opened GeneratedStates
  import D = Dfas

  // ---- union_regex ------------------------------------------------------------

  /** union_regex: the joint alphabet and a Union node. */
  function UnionRegex<S(==)>(a: RegexValue<S>, b: RegexValue<S>): (r: RegexValue<S>)
    ensures r.alphabet == a.alphabet + b.alphabet
    ensures Consistent(a) && Consistent(b) ==> Consistent(r)
    ensures r.ast.Union? && r.ast.left == a.ast && r.ast.right == b.ast
  {
    RegexValue(a.alphabet + b.alphabet, Union(a.ast, b.ast))
  }

  // ---- union_nfa --------------------------------------------------------------

  function UnionStates<A>(n1: Nfa<GState, A>, n2: Nfa<GState, A>): set<GState>
  {
    {Start} + WrapLeft(n1.states) + WrapRight(n2.states)
  }

  /** The transition function of union_nfa, case by case: a wrapped state forwards
    * its component's moves on that component's labels, and Start moves on ε
    * to both component starts. */
  function UnionMove<A>(n1: Nfa<GState, A>, n2: Nfa<GState, A>, q: GState, l: Label<A>): set<GState>
  {
    if q.Left? && LabelIn(l, n1.alphabet) then WrapLeft(Move(n1, q.child, l))
    else if q.Right? && LabelIn(l, n2.alphabet) then WrapRight(Move(n2, q.child, l))
    else if q.Start? && l.Eps? then {Left(n1.start), Right(n2.start)}
    else {}
  }

  lemma UnionMoveInside<A>(n1: Nfa<GState, A>, n2: Nfa<GState, A>, q: GState, l: Label<A>)
    requires Valid(n1) && Valid(n2) && q in UnionStates(n1, n2)
    ensures UnionMove(n1, n2, q, l) <= UnionStates(n1, n2)
  {
    if q.Left? && LabelIn(l, n1.alphabet) {
      assert q.child in n1.states;
      WrapMonotone(Move(n1, q.child, l), n1.states);
    } else if q.Right? && LabelIn(l, n2.alphabet) {
      assert q.child in n2.states;
      WrapMonotone(Move(n2, q.child, l), n2.states);
    }
  }

  /** union_nfa's transition function tabulated over states × (alphabet ∪ {ε}). */
  function UnionDelta<A(==)>(n1: Nfa<GState, A>, n2: Nfa<GState, A>): map<(GState, Label<A>), set<GState>>
  {
    map q, l | q in UnionStates(n1, n2) && l in Labels(n1.alphabet + n2.alphabet) :: (q, l) := UnionMove(n1, n2, q, l)
  }

  /** What union_nfa builds: its states, alphabet, start and accept states, and
    * on every state and label the moves of UnionMove. */
  ghost predicate IsUnion<A>(u: Nfa<GState, A>, n1: Nfa<GState, A>, n2: Nfa<GState, A>)
  {
    && u.states == UnionStates(n1, n2) && u.alphabet == n1.alphabet + n2.alphabet
    && u.start == Start && u.accept == WrapLeft(n1.accept) + WrapRight(n2.accept)
    && (forall q :: q in u.states ==> Move(u, q, Eps) == UnionMove(n1, n2, q, Eps))
    && (forall q, a :: q in u.states && a in u.alphabet ==> Move(u, q, Sym(a)) == UnionMove(n1, n2, q, Sym(a)))
  }

  /** union_nfa */
  function UnionNfa<A(==)>(n1: Nfa<GState, A>, n2: Nfa<GState, A>): (r: Nfa<GState, A>)
    requires Valid(n1) && Valid(n2)
    ensures Valid(r) && IsUnion(r, n1, n2)
  {
    var r := Nfa(UnionStates(n1, n2), n1.alphabet + n2.alphabet, UnionDelta(n1, n2), Start, WrapLeft(n1.accept) + WrapRight(n2.accept));
    WrapMonotone(n1.accept, n1.states);
    WrapMonotone(n2.accept, n2.states);
    assert forall q, l :: q in r.states && l in Labels(r.alphabet) ==> Move(r, q, l) == UnionMove(n1, n2, q, l);
    assert TransitionsInside(r) by {
      forall q | q in r.states
        ensures Move(r, q, Eps) <= r.states && forall a :: a in r.alphabet ==> Move(r, q, Sym(a)) <= r.states
      {
        UnionMoveInside(n1, n2, q, Eps);
        forall a | a in r.alphabet ensures Move(r, q, Sym(a)) <= r.states {
          UnionMoveInside(n1, n2, q, Sym(a));
        }
      }
    }
    r
  }

  /** The union has one state more than its two parts together. */
  lemma UnionSize<A>(u: Nfa<GState, A>, n1: Nfa<GState, A>, n2: Nfa<GState, A>)
    requires IsUnion(u, n1, n2)
    ensures |u.states| == 1 + |n1.states| + |n2.states|
  {
    WrapSizes(n1.states);
    WrapSizes(n2.states);
    var L, R := WrapLeft(n1.states), WrapRight(n2.states);
    assert L * R == {};
    assert {Start} * (L + R) == {};
  }

  /** A Left/Right set that the two sides' closures make ε-closed in the union. */
  lemma UnionClosedPair<A>(u: Nfa<GState, A>, n1: Nfa<GState, A>, n2: Nfa<GState, A>, E1: set<GState>, E2: set<GState>)
    requires IsUnion(u, n1, n2)
    requires E1 <= n1.states && E2 <= n2.states && EpsClosed(n1, E1) && EpsClosed(n2, E2)
    ensures EpsClosed(u, WrapLeft(E1) + WrapRight(E2))
  {
    var R := WrapLeft(E1) + WrapRight(E2);
    forall q, p | q in R && p in Move(u, q, Eps) ensures p in R {
      if q.Left? {
        assert p.child in Move(n1, q.child, Eps);
      } else {
        assert p.child in Move(n2, q.child, Eps);
      }
    }
  }

  /** A set ε-closed in the union holding Left(X1) holds Left of X1's closure. */
  lemma UnionLeftCovers<A>(u: Nfa<GState, A>, n1: Nfa<GState, A>, n2: Nfa<GState, A>, X1: set<GState>, E: set<GState>)
    requires Valid(n1) && IsUnion(u, n1, n2) && EpsClosed(u, E)
    requires X1 <= n1.states && WrapLeft(X1) <= E
    ensures WrapLeft(EClose(n1, X1)) <= E
  {
    var T := set c | c in n1.states && Left(c) in E;
    forall c, p | c in T && p in Move(n1, c, Eps) ensures p in T {
      assert Left(p) in Move(u, Left(c), Eps);
    }
    ECloseLeast(n1, X1, T);
  }

  lemma UnionRightCovers<A>(u: Nfa<GState, A>, n1: Nfa<GState, A>, n2: Nfa<GState, A>, X2: set<GState>, E: set<GState>)
    requires Valid(n2) && IsUnion(u, n1, n2) && EpsClosed(u, E)
    requires X2 <= n2.states && WrapRight(X2) <= E
    ensures WrapRight(EClose(n2, X2)) <= E
  {
    var T := set c | c in n2.states && Right(c) in E;
    forall c, p | c in T && p in Move(n2, c, Eps) ensures p in T {
      assert Right(p) in Move(u, Right(c), Eps);
    }
    ECloseLeast(n2, X2, T);
  }

  /** Closing a Left/Right set in the union closes each side in its own automaton. */
  lemma UnionEClose<A>(u: Nfa<GState, A>, n1: Nfa<GState, A>, n2: Nfa<GState, A>, X1: set<GState>, X2: set<GState>)
    requires Valid(n1) && Valid(n2) && Valid(u) && IsUnion(u, n1, n2) && X1 <= n1.states && X2 <= n2.states
    ensures WrapLeft(X1) + WrapRight(X2) <= u.states
    ensures EClose(u, WrapLeft(X1) + WrapRight(X2)) == WrapLeft(EClose(n1, X1)) + WrapRight(EClose(n2, X2))
  {
    var X := WrapLeft(X1) + WrapRight(X2);
    var E1, E2 := EClose(n1, X1), EClose(n2, X2);
    WrapMonotone(X1, n1.states);
    WrapMonotone(X2, n2.states);
    WrapMonotone(X1, E1);
    WrapMonotone(X2, E2);
    UnionClosedPair(u, n1, n2, E1, E2);
    ECloseLeast(u, X, WrapLeft(E1) + WrapRight(E2));
    UnionLeftCovers(u, n1, n2, X1, EClose(u, X));
    UnionRightCovers(u, n1, n2, X2, EClose(u, X));
  }

  /** Reading a symbol in the union reads it on each side; a side whose alphabet
    * lacks the symbol gets nothing. */
  lemma UnionPost<A>(u: Nfa<GState, A>, n1: Nfa<GState, A>, n2: Nfa<GState, A>, X1: set<GState>, X2: set<GState>, a: A)
    requires Valid(n1) && Valid(n2) && IsUnion(u, n1, n2) && X1 <= n1.states && X2 <= n2.states
    ensures Post(n1, X1, a) <= n1.states && Post(n2, X2, a) <= n2.states
    ensures Post(u, WrapLeft(X1) + WrapRight(X2), a) == WrapLeft(Post(n1, X1, a)) + WrapRight(Post(n2, X2, a))
  {
    PostFacts(n1, X1, {}, a);
    PostFacts(n2, X2, {}, a);
    UnionPostInside(u, n1, n2, X1, X2, a);
    UnionPostCovers(u, n1, n2, X1, X2, a);
  }

  lemma UnionPostInside<A>(u: Nfa<GState, A>, n1: Nfa<GState, A>, n2: Nfa<GState, A>, X1: set<GState>, X2: set<GState>, a: A)
    requires IsUnion(u, n1, n2) && X1 <= n1.states && X2 <= n2.states
    ensures Post(u, WrapLeft(X1) + WrapRight(X2), a) <= WrapLeft(Post(n1, X1, a)) + WrapRight(Post(n2, X2, a))
  {
    var P := Post(u, WrapLeft(X1) + WrapRight(X2), a);
    var R := WrapLeft(Post(n1, X1, a)) + WrapRight(Post(n2, X2, a));
    forall p | p in P ensures p in R {
      var q :| q in WrapLeft(X1) + WrapRight(X2) && p in Move(u, q, Sym(a));
      if q.Left? {
        assert p.child in Move(n1, q.child, Sym(a));
      } else {
        assert p.child in Move(n2, q.child, Sym(a));
      }
    }
  }

  lemma UnionPostCovers<A>(u: Nfa<GState, A>, n1: Nfa<GState, A>, n2: Nfa<GState, A>, X1: set<GState>, X2: set<GState>, a: A)
    requires Valid(n1) && Valid(n2) && IsUnion(u, n1, n2) && X1 <= n1.states && X2 <= n2.states
    ensures WrapLeft(Post(n1, X1, a)) + WrapRight(Post(n2, X2, a)) <= Post(u, WrapLeft(X1) + WrapRight(X2), a)
  {
    UnionPostCoversLeft(u, n1, n2, X1, X2, a);
    UnionPostCoversRight(u, n1, n2, X1, X2, a);
  }

  lemma UnionPostCoversLeft<A>(u: Nfa<GState, A>, n1: Nfa<GState, A>, n2: Nfa<GState, A>, X1: set<GState>, X2: set<GState>, a: A)
    requires IsUnion(u, n1, n2) && X1 <= n1.states
    ensures WrapLeft(Post(n1, X1, a)) <= Post(u, WrapLeft(X1) + WrapRight(X2), a)
  {
    forall p | p in WrapLeft(Post(n1, X1, a)) ensures p in Post(u, WrapLeft(X1) + WrapRight(X2), a) {
      PostElim(n1, X1, a, p.child);
      var c :| c in X1 && p.child in Move(n1, c, Sym(a));
      assert Move(u, Left(c), Sym(a)) == WrapLeft(Move(n1, c, Sym(a)));
      PostIntro(u, WrapLeft(X1) + WrapRight(X2), a, Left(c), p);
    }
  }

  lemma UnionPostCoversRight<A>(u: Nfa<GState, A>, n1: Nfa<GState, A>, n2: Nfa<GState, A>, X1: set<GState>, X2: set<GState>, a: A)
    requires IsUnion(u, n1, n2) && X2 <= n2.states
    ensures WrapRight(Post(n2, X2, a)) <= Post(u, WrapLeft(X1) + WrapRight(X2), a)
  {
    forall p | p in WrapRight(Post(n2, X2, a)) ensures p in Post(u, WrapLeft(X1) + WrapRight(X2), a) {
      PostElim(n2, X2, a, p.child);
      var c :| c in X2 && p.child in Move(n2, c, Sym(a));
      assert Move(u, Right(c), Sym(a)) == WrapRight(Move(n2, c, Sym(a)));
      PostIntro(u, WrapLeft(X1) + WrapRight(X2), a, Right(c), p);
    }
  }

  /** From a Left/Right set, the union accepts w iff one of its sides does. */
  lemma {:induction false} UnionAcc<A>(u: Nfa<GState, A>, n1: Nfa<GState, A>, n2: Nfa<GState, A>, X1: set<GState>, X2: set<GState>, w: seq<A>)
    requires Valid(n1) && Valid(n2) && Valid(u) && IsUnion(u, n1, n2) && X1 <= n1.states && X2 <= n2.states
    ensures WrapLeft(X1) + WrapRight(X2) <= u.states
    ensures Acc(u, WrapLeft(X1) + WrapRight(X2), w) <==> Acc(n1, X1, w) || Acc(n2, X2, w)
    decreases |w|
  {
    WrapMonotone(X1, n1.states);
    WrapMonotone(X2, n2.states);
    if w == [] {
      UnionAcceptMeets(u, n1, n2, X1, X2);
    } else {
      var a := w[0];
      UnionPost(u, n1, n2, X1, X2, a);
      UnionEClose(u, n1, n2, Post(n1, X1, a), Post(n2, X2, a));
      UnionAcc(u, n1, n2, EClose(n1, Post(n1, X1, a)), EClose(n2, Post(n2, X2, a)), w[1..]);
    }
  }

  lemma UnionAcceptMeets<A>(u: Nfa<GState, A>, n1: Nfa<GState, A>, n2: Nfa<GState, A>, X1: set<GState>, X2: set<GState>)
    requires IsUnion(u, n1, n2)
    ensures (WrapLeft(X1) + WrapRight(X2)) * u.accept != {} <==> X1 * n1.accept != {} || X2 * n2.accept != {}
  {
    var C := WrapLeft(X1) + WrapRight(X2);
    if X1 * n1.accept != {} {
      var x :| x in X1 * n1.accept;
      assert Left(x) in C * u.accept;
    }
    if X2 * n2.accept != {} {
      var x :| x in X2 * n2.accept;
      assert Right(x) in C * u.accept;
    }
    if C * u.accept != {} {
      var g :| g in C * u.accept;
      assert g.child in (if g.Left? then X1 * n1.accept else X2 * n2.accept);
    }
  }

  /** union_nfa recognises the union of the two languages. */
  lemma UnionLang<A>(n1: Nfa<GState, A>, n2: Nfa<GState, A>, w: seq<A>)
    requires Valid(n1) && Valid(n2)
    ensures Lang(UnionNfa(n1, n2), w) <==> Lang(n1, w) || Lang(n2, w)
  {
    UnionLangOf(UnionNfa(n1, n2), n1, n2, w);
  }

  lemma UnionLangOf<A>(u: Nfa<GState, A>, n1: Nfa<GState, A>, n2: Nfa<GState, A>, w: seq<A>)
    requires Valid(n1) && Valid(n2) && Valid(u) && IsUnion(u, n1, n2)
    ensures Lang(u, w) <==> Lang(n1, w) || Lang(n2, w)
  {
    UnionStartClosure(u, n1, n2);
    var C := EClose(n1, {n1.start});
    var D := EClose(n2, {n2.start});
    assert {Start} + WrapLeft(C) + WrapRight(D) == {Start} + (WrapLeft(C) + WrapRight(D));
    AccUnion(u, {Start}, WrapLeft(C) + WrapRight(D), w);
    UnionStartRejects(u, n1, n2, w);
    UnionAcc(u, n1, n2, C, D, w);
  }

  /** Start alone accepts nothing: it is not accepting and reads no symbol. */
  lemma UnionStartRejects<A>(u: Nfa<GState, A>, n1: Nfa<GState, A>, n2: Nfa<GState, A>, w: seq<A>)
    requires Valid(n1) && Valid(n2) && Valid(u) && IsUnion(u, n1, n2)
    ensures !Acc(u, {Start}, w)
  {
    if w != [] {
      PostSingleton(u, Start, w[0]);
      assert Post(u, {Start}, w[0]) == {} by {
        if w[0] in u.alphabet {
        }
      }
      ECloseEmpty(u);
      AccEmpty(u, w[1..]);
    }
  }

  /** The closure of Start in the union: Start and both sides' start closures. */
  lemma UnionStartClosure<A>(u: Nfa<GState, A>, n1: Nfa<GState, A>, n2: Nfa<GState, A>)
    requires Valid(n1) && Valid(n2) && Valid(u) && IsUnion(u, n1, n2)
    ensures EClose(u, {Start}) == {Start} + WrapLeft(EClose(n1, {n1.start})) + WrapRight(EClose(n2, {n2.start}))
  {
    var X := WrapLeft({n1.start}) + WrapRight({n2.start});
    UnionStartMove(u, n1, n2);
    UnionEClose(u, n1, n2, {n1.start}, {n2.start});
    ECloseVia(u, {Start}, X, WrapLeft(EClose(n1, {n1.start})) + WrapRight(EClose(n2, {n2.start})));
  }

  lemma UnionStartMove<A>(u: Nfa<GState, A>, n1: Nfa<GState, A>, n2: Nfa<GState, A>)
    requires IsUnion(u, n1, n2)
    ensures {Start} <= u.states
    ensures EpsPost(u, {Start}) == WrapLeft({n1.start}) + WrapRight({n2.start})
  {
    EpsPostSingleton(u, Start);
  }

  // ---- augment_dfa and union_dfa ------------------------------------------------

  /** The dead sentinel, where present, is the non-accepting sink that
    * from_transition_map makes of it. */
  predicate DeadIsSink<T(==), A>(d: D.Dfa<D.DState<T>, A>)
    requires D.Valid(d)
  {
    D.Dead !in d.accept && (D.Dead in d.states ==> forall a :: a in d.alphabet ==> d.delta[(D.Dead, a)] == D.Dead)
  }

  /** The transition function of augment_dfa: Dead absorbs, a symbol outside the
    * old alphabet leads to Dead, and old symbols keep their old moves. */
  function AugmentMove<T(==), A>(d: D.Dfa<D.DState<T>, A>, q: D.DState<T>, a: A): D.DState<T>
    requires D.Valid(d) && q in d.states + {D.Dead}
  {
    if q.Dead? then D.Dead
    else if a !in d.alphabet then D.Dead
    else d.delta[(q, a)]
  }

  /** augment_dfa: the same automaton with Dead added, over a new alphabet; the
    * construction fails only for an empty alphabet. */
  function AugmentDfa<T(==), A(==)>(d: D.Dfa<D.DState<T>, A>, alphabet: set<A>): (r: Result<D.Dfa<D.DState<T>, A>, D.DfaError>)
    requires D.Valid(d)
    ensures r.Success? <==> alphabet != {}
    ensures r.Failure? ==> r.error == D.EmptyAlphabet
    ensures r.Success? ==> D.Valid(r.value) && r.value.states == d.states + {D.Dead} && r.value.alphabet == alphabet
    ensures r.Success? ==> r.value.start == d.start && r.value.accept == d.accept
    ensures r.Success? ==> forall q, a :: q in r.value.states && a in alphabet ==> r.value.delta[(q, a)] == AugmentMove(d, q, a)
  {
    var states := d.states + {D.Dead};
    var delta := map q, a | q in states && a in alphabet :: (q, a) := AugmentMove(d, q, a);
    D.New(states, alphabet, delta, d.start, d.accept)
  }

  /** A sink stays put on every word over its alphabet. */
  lemma {:induction false} SinkRun<T, A>(d: D.Dfa<D.DState<T>, A>, w: seq<A>)
    requires D.Valid(d) && DeadIsSink(d) && D.Dead in d.states && D.Over(w, d.alphabet)
    ensures D.Run(d, D.Dead, w) == Success(D.Dead)
    decreases |w|
  {
    if w != [] {
      D.OverCons(w, d.alphabet);
      SinkRun(d, w[1..]);
    }
  }

  /** From an old state, the widened automaton follows the old one while the
    * word stays in the old alphabet, and is in Dead once it leaves it. */
  lemma {:induction false} AugmentRun<T, A>(d: D.Dfa<D.DState<T>, A>, alphabet: set<A>, q: D.DState<T>, w: seq<A>)
    requires D.Valid(d) && DeadIsSink(d) && d.alphabet <= alphabet && q in d.states + {D.Dead}
    requires D.Over(w, alphabet)
    ensures AugmentDfa(d, alphabet).Success?
    ensures D.Run(AugmentDfa(d, alphabet).value, q, w)
         == if q in d.states && D.Over(w, d.alphabet) then D.Run(d, q, w) else Success(D.Dead)
    decreases |w|
  {
    var g := AugmentDfa(d, alphabet).value;
    if w != [] {
      var a := w[0];
      D.OverCons(w, alphabet);
      D.OverCons(w, d.alphabet);
      var q' := AugmentMove(d, q, a);
      assert D.Step(g, q, a) == Success(q');
      AugmentRun(d, alphabet, q', w[1..]);
      if q in d.states && a in d.alphabet {
        assert D.Step(d, q, a) == Success(q');
      }
      if q'.Dead? && q' in d.states && D.Over(w[1..], d.alphabet) {
        SinkRun(d, w[1..]);
      }
    }
  }

  /** On words over the new alphabet, augment_dfa accepts exactly what the old
    * automaton accepts. */
  lemma AugmentTest<T, A>(d: D.Dfa<D.DState<T>, A>, alphabet: set<A>, w: seq<A>)
    requires D.Valid(d) && DeadIsSink(d) && d.alphabet <= alphabet && D.Over(w, alphabet)
    ensures AugmentDfa(d, alphabet).Success?
    ensures D.TestResult(AugmentDfa(d, alphabet).value, w) == Success(D.Accepts(d, w))
  {
    AugmentRun(d, alphabet, d.start, w);
    D.TestTotal(d, w);
  }

  /** The pairs of the two widened automata's states. */
  function ProductStates<T(==), U(==)>(s1: set<D.DState<T>>, s2: set<D.DState<U>>): set<(D.DState<T>, D.DState<U>)>
  {
    set p, q | p in s1 && q in s2 :: (p, q)
  }

  /** union_dfa: the product of both automata, widened to the joint alphabet;
    * a pair accepts when either component does. */
  function UnionDfa<T(==), U(==), A(==)>(d1: D.Dfa<D.DState<T>, A>, d2: D.Dfa<D.DState<U>, A>)
    : (r: D.Dfa<(D.DState<T>, D.DState<U>), A>)
    requires D.Valid(d1) && D.Valid(d2)
    ensures D.Valid(r) && r.alphabet == d1.alphabet + d2.alphabet && r.start == (d1.start, d2.start)
    ensures r.states == ProductStates(d1.states + {D.Dead}, d2.states + {D.Dead})
    ensures r.accept <= r.states && forall p :: p in r.states ==> (p in r.accept <==> p.0 in d1.accept || p.1 in d2.accept)
  {
    var alphabet := d1.alphabet + d2.alphabet;
    var g1 := AugmentDfa(d1, alphabet).value;
    var g2 := AugmentDfa(d2, alphabet).value;
    var states := ProductStates(g1.states, g2.states);
    var delta := map p, a | p in states && a in alphabet :: (p, a) := (g1.delta[(p.0, a)], g2.delta[(p.1, a)]);
    var accept := set p | p in states && (p.0 in d1.accept || p.1 in d2.accept);
    D.Dfa(states, alphabet, delta, (d1.start, d2.start), accept)
  }

  /** The product runs both widened automata in step. */
  lemma {:induction false} UnionDfaRun<T, U, A>(d1: D.Dfa<D.DState<T>, A>, d2: D.Dfa<D.DState<U>, A>,
                                                          p: D.DState<T>, q: D.DState<U>, w: seq<A>)
    requires D.Valid(d1) && D.Valid(d2) && p in d1.states + {D.Dead} && q in d2.states + {D.Dead}
    requires D.Over(w, d1.alphabet + d2.alphabet)
    ensures AugmentDfa(d1, d1.alphabet + d2.alphabet).Success? && AugmentDfa(d2, d1.alphabet + d2.alphabet).Success?
    ensures D.Run(AugmentDfa(d1, d1.alphabet + d2.alphabet).value, p, w).Success?
    ensures D.Run(AugmentDfa(d2, d1.alphabet + d2.alphabet).value, q, w).Success?
    ensures D.Run(UnionDfa(d1, d2), (p, q), w)
         == Success((D.Run(AugmentDfa(d1, d1.alphabet + d2.alphabet).value, p, w).value,
                     D.Run(AugmentDfa(d2, d1.alphabet + d2.alphabet).value, q, w).value))
    decreases |w|
  {
    var alphabet := d1.alphabet + d2.alphabet;
    var g1 := AugmentDfa(d1, alphabet).value;
    var g2 := AugmentDfa(d2, alphabet).value;
    var u := UnionDfa(d1, d2);
    if w != [] {
      var a := w[0];
      D.OverCons(w, alphabet);
      assert (p, q) in u.states;
      var p', q' := g1.delta[(p, a)], g2.delta[(q, a)];
      assert D.Step(u, (p, q), a) == Success((p', q'));
      assert D.Step(g1, p, a) == Success(p');
      assert D.Step(g2, q, a) == Success(q');
      UnionDfaRun(d1, d2, p', q', w[1..]);
    } else {
      assert D.Run(g1, p, w) == Success(p);
      assert D.Run(g2, q, w) == Success(q);
    }
  }

  /** union_dfa accepts a word over the joint alphabet iff either automaton
    * accepts it, and raises on any other word. */
  lemma UnionDfaTest<T, U, A>(d1: D.Dfa<D.DState<T>, A>, d2: D.Dfa<D.DState<U>, A>, w: seq<A>)
    requires D.Valid(d1) && D.Valid(d2) && DeadIsSink(d1) && DeadIsSink(d2)
    ensures D.TestResult(UnionDfa(d1, d2), w).Success? <==> D.Over(w, d1.alphabet + d2.alphabet)
    ensures D.Over(w, d1.alphabet + d2.alphabet) ==>
              D.TestResult(UnionDfa(d1, d2), w) == Success(D.Accepts(d1, w) || D.Accepts(d2, w))
  {
    var alphabet := d1.alphabet + d2.alphabet;
    var u := UnionDfa(d1, d2);
    D.TestTotal(u, w);
    if D.Over(w, alphabet) {
      var g1 := AugmentDfa(d1, alphabet).value;
      var g2 := AugmentDfa(d2, alphabet).value;
      UnionDfaRun(d1, d2, d1.start, d2.start, w);
      var r1 := D.Run(g1, d1.start, w).value;
      var r2 := D.Run(g2, d2.start, w).value;
      D.RunTotal(g1, d1.start, w);
      D.RunTotal(g2, d2.start, w);
      assert (r1, r2) in u.states;
      AugmentTest(d1, alphabet, w);
      AugmentTest(d2, alphabet, w);
      assert D.Accepts(d1, w) <==> r1 in d1.accept;
      assert D.Accepts(d2, w) <==> r2 in d2.accept;
    }
  }
}

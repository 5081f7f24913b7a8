/**
 * Concatenation of regular expressions and NFAs (operators/concatenation.py).
 * The NFA concatenation tags the first automaton's states Left and the
 * second's Right, starts at Left of the first start, accepts at Right of the
 * second's accept states, and adds an ε-move from every Left accept state to
 * Right of the second start.
 */
module ConcatenationOperator {
  import opened Wrappers
  import opened RegexAst
  import opened RegexSemantics
  import opened RegularExpression
  import opened Nfas
  import opened GeneratedStates

  // ---- concat_regex -----------------------------------------------------------

  /** concat_regex: the joint alphabet and a Concat node. */
  function ConcatRegex<S(==)>(a: RegexValue<S>, b: RegexValue<S>): (r: RegexValue<S>)
    ensures r.alphabet == a.alphabet + b.alphabet
    ensures Consistent(a) && Consistent(b) ==> Consistent(r)
    ensures r.ast.Concat? && r.ast.left == a.ast && r.ast.right == b.ast
  {
    RegexValue(a.alphabet + b.alphabet, Concat(a.ast, b.ast))
  }

  // ---- concat_nfa -------------------------------------------------------------

  function ConcatStates<A>(n1: Nfa<GState, A>, n2: Nfa<GState, A>): set<GState>
  {
    WrapLeft(n1.states) + WrapRight(n2.states)
  }

  /** The transition function of concat_nfa, case by case: a Left state forwards
    * the first automaton's moves on its labels, and a Left accept state also
    * moves on ε to Right of the second start; a Right state forwards the second
    * automaton's moves. */
  function ConcatMove<A>(n1: Nfa<GState, A>, n2: Nfa<GState, A>, q: GState, l: Label<A>): set<GState>
  {
    if q.Left? && q.child !in n1.accept && LabelIn(l, n1.alphabet) then WrapLeft(Move(n1, q.child, l))
    else if q.Left? && q.child in n1.accept && l.Sym? && l.symbol in n1.alphabet then WrapLeft(Move(n1, q.child, l))
    else if q.Left? && q.child in n1.accept && l.Eps? then WrapLeft(Move(n1, q.child, l)) + {Right(n2.start)}
    else if q.Right? && LabelIn(l, n2.alphabet) then WrapRight(Move(n2, q.child, l))
    else {}
  }

  lemma ConcatMoveInside<A>(n1: Nfa<GState, A>, n2: Nfa<GState, A>, q: GState, l: Label<A>)
    requires Valid(n1) && Valid(n2) && q in ConcatStates(n1, n2)
    ensures ConcatMove(n1, n2, q, l) <= ConcatStates(n1, n2)
  {
    if q.Left? && LabelIn(l, n1.alphabet) {
      assert q.child in n1.states;
      WrapMonotone(Move(n1, q.child, l), n1.states);
    } else if q.Right? && LabelIn(l, n2.alphabet) {
      assert q.child in n2.states;
      WrapMonotone(Move(n2, q.child, l), n2.states);
    }
  }

  /** concat_nfa's transition function tabulated over states × (alphabet ∪ {ε}). */
  function ConcatDelta<A(==)>(n1: Nfa<GState, A>, n2: Nfa<GState, A>): map<(GState, Label<A>), set<GState>>
  {
    map q, l | q in ConcatStates(n1, n2) && l in Labels(n1.alphabet + n2.alphabet) :: (q, l) := ConcatMove(n1, n2, q, l)
  }

  /** What concat_nfa builds: its states, alphabet, start and accept states, and
    * on every state and label the moves of ConcatMove. */
  ghost predicate IsConcat<A>(c: Nfa<GState, A>, n1: Nfa<GState, A>, n2: Nfa<GState, A>)
  {
    && c.states == ConcatStates(n1, n2) && c.alphabet == n1.alphabet + n2.alphabet
    && c.start == Left(n1.start) && c.accept == WrapRight(n2.accept)
    && (forall q :: q in c.states ==> Move(c, q, Eps) == ConcatMove(n1, n2, q, Eps))
    && (forall q, a :: q in c.states && a in c.alphabet ==> Move(c, q, Sym(a)) == ConcatMove(n1, n2, q, Sym(a)))
  }

  /** concat_nfa */
  function ConcatNfa<A(==)>(n1: Nfa<GState, A>, n2: Nfa<GState, A>): (r: Nfa<GState, A>)
    requires Valid(n1) && Valid(n2)
    ensures Valid(r) && IsConcat(r, n1, n2)
  {
    var r := Nfa(ConcatStates(n1, n2), n1.alphabet + n2.alphabet, ConcatDelta(n1, n2), Left(n1.start), WrapRight(n2.accept));
    WrapMonotone(n2.accept, n2.states);
    assert forall q, l :: q in r.states && l in Labels(r.alphabet) ==> Move(r, q, l) == ConcatMove(n1, n2, q, l);
    assert TransitionsInside(r) by {
      forall q | q in r.states
        ensures Move(r, q, Eps) <= r.states && forall a :: a in r.alphabet ==> Move(r, q, Sym(a)) <= r.states
      {
        ConcatMoveInside(n1, n2, q, Eps);
        forall a | a in r.alphabet ensures Move(r, q, Sym(a)) <= r.states {
          ConcatMoveInside(n1, n2, q, Sym(a));
        }
      }
    }
    r
  }

  /** The concatenation has exactly the states of its two parts. */
  lemma ConcatSize<A>(c: Nfa<GState, A>, n1: Nfa<GState, A>, n2: Nfa<GState, A>)
    requires IsConcat(c, n1, n2)
    ensures |c.states| == |n1.states| + |n2.states|
  {
    WrapSizes(n1.states);
    WrapSizes(n2.states);
    assert WrapLeft(n1.states) * WrapRight(n2.states) == {};
  }

  // ---- ε-closure in the concatenation --------------------------------------------

  /** The ε-bridge: Right of the second start is reached from a set holding a
    * first-automaton accept state. */
  function Bridge<A>(n1: Nfa<GState, A>, n2: Nfa<GState, A>, E: set<GState>): set<GState>
  {
    if E * n1.accept != {} then {n2.start} else {}
  }

  /** A Left/Right set is ε-closed when both sides are and the bridge is taken. */
  lemma ConcatClosedPair<A>(c: Nfa<GState, A>, n1: Nfa<GState, A>, n2: Nfa<GState, A>, E1: set<GState>, E2: set<GState>)
    requires IsConcat(c, n1, n2)
    requires E1 <= n1.states && E2 <= n2.states && EpsClosed(n1, E1) && EpsClosed(n2, E2) && Bridge(n1, n2, E1) <= E2
    ensures EpsClosed(c, WrapLeft(E1) + WrapRight(E2))
  {
    var R := WrapLeft(E1) + WrapRight(E2);
    forall q, p | q in R && p in Move(c, q, Eps) ensures p in R {
      if q.Left? {
        if p.Right? {
          assert q.child in E1 * n1.accept;
        } else {
          assert p.child in Move(n1, q.child, Eps);
        }
      } else {
        assert p.child in Move(n2, q.child, Eps);
      }
    }
  }

  /** A set ε-closed in the concatenation holding Left(X1) holds Left of X1's closure. */
  lemma ConcatLeftCovers<A>(c: Nfa<GState, A>, n1: Nfa<GState, A>, n2: Nfa<GState, A>, X1: set<GState>, E: set<GState>)
    requires Valid(n1) && IsConcat(c, n1, n2) && EpsClosed(c, E)
    requires X1 <= n1.states && WrapLeft(X1) <= E
    ensures WrapLeft(EClose(n1, X1)) <= E
  {
    var T := set x | x in n1.states && Left(x) in E;
    forall x, p | x in T && p in Move(n1, x, Eps) ensures p in T {
      assert Left(p) in Move(c, Left(x), Eps);
    }
    ECloseLeast(n1, X1, T);
  }

  lemma ConcatRightCovers<A>(c: Nfa<GState, A>, n1: Nfa<GState, A>, n2: Nfa<GState, A>, X2: set<GState>, E: set<GState>)
    requires Valid(n2) && IsConcat(c, n1, n2) && EpsClosed(c, E)
    requires X2 <= n2.states && WrapRight(X2) <= E
    ensures WrapRight(EClose(n2, X2)) <= E
  {
    var T := set y | y in n2.states && Right(y) in E;
    forall y, p | y in T && p in Move(n2, y, Eps) ensures p in T {
      ConcatRightEps(c, n1, n2, y, p);
    }
    ECloseLeast(n2, X2, T);
  }

  /** An ε-move of the second automaton is an ε-move of its Right copy. */
  lemma ConcatRightEps<A>(c: Nfa<GState, A>, n1: Nfa<GState, A>, n2: Nfa<GState, A>, y: GState, p: GState)
    requires IsConcat(c, n1, n2) && y in n2.states && p in Move(n2, y, Eps)
    ensures Right(p) in Move(c, Right(y), Eps)
  {
  }

  /** A set ε-closed in the concatenation that holds a Left accept state holds
    * Right of the second start. */
  lemma ConcatBridgeCovers<A>(c: Nfa<GState, A>, n1: Nfa<GState, A>, n2: Nfa<GState, A>, E1: set<GState>, E: set<GState>)
    requires IsConcat(c, n1, n2) && EpsClosed(c, E)
    requires E1 <= n1.states && WrapLeft(E1) <= E
    ensures WrapRight(Bridge(n1, n2, E1)) <= E
  {
    if E1 * n1.accept != {} {
      var x :| x in E1 * n1.accept;
      assert Right(n2.start) in Move(c, Left(x), Eps);
    }
  }

  /** Closing a Left/Right set closes the Left part in the first automaton and
    * the Right part, plus the bridge when the Left closure meets an accept
    * state, in the second. */
  lemma ConcatEClose<A>(c: Nfa<GState, A>, n1: Nfa<GState, A>, n2: Nfa<GState, A>, X1: set<GState>, X2: set<GState>)
    requires Valid(n1) && Valid(n2) && Valid(c) && IsConcat(c, n1, n2) && X1 <= n1.states && X2 <= n2.states
    ensures WrapLeft(X1) + WrapRight(X2) <= c.states
    ensures X2 + Bridge(n1, n2, EClose(n1, X1)) <= n2.states
    ensures EClose(c, WrapLeft(X1) + WrapRight(X2))
         == WrapLeft(EClose(n1, X1)) + WrapRight(EClose(n2, X2 + Bridge(n1, n2, EClose(n1, X1))))
  {
    var X := WrapLeft(X1) + WrapRight(X2);
    var E1 := EClose(n1, X1);
    var Y2 := X2 + Bridge(n1, n2, E1);
    var E2 := EClose(n2, Y2);
    WrapMonotone(X1, n1.states);
    WrapMonotone(X2, n2.states);
    WrapMonotone(X1, E1);
    WrapMonotone(X2, E2);
    ConcatClosedPair(c, n1, n2, E1, E2);
    ECloseLeast(c, X, WrapLeft(E1) + WrapRight(E2));
    var E := EClose(c, X);
    ConcatLeftCovers(c, n1, n2, X1, E);
    ConcatBridgeCovers(c, n1, n2, E1, E);
    assert WrapRight(Y2) == WrapRight(X2) + WrapRight(Bridge(n1, n2, E1));
    ConcatRightCovers(c, n1, n2, Y2, E);
  }

  // ---- reading a symbol ---------------------------------------------------------

  lemma ConcatPost<A>(c: Nfa<GState, A>, n1: Nfa<GState, A>, n2: Nfa<GState, A>, X1: set<GState>, X2: set<GState>, a: A)
    requires Valid(n1) && Valid(n2) && IsConcat(c, n1, n2) && X1 <= n1.states && X2 <= n2.states
    ensures Post(n1, X1, a) <= n1.states && Post(n2, X2, a) <= n2.states
    ensures Post(c, WrapLeft(X1) + WrapRight(X2), a) == WrapLeft(Post(n1, X1, a)) + WrapRight(Post(n2, X2, a))
  {
    PostFacts(n1, X1, {}, a);
    PostFacts(n2, X2, {}, a);
    ConcatPostInside(c, n1, n2, X1, X2, a);
    ConcatPostCoversLeft(c, n1, n2, X1, X2, a);
    ConcatPostCoversRight(c, n1, n2, X1, X2, a);
  }

  lemma ConcatPostInside<A>(c: Nfa<GState, A>, n1: Nfa<GState, A>, n2: Nfa<GState, A>, X1: set<GState>, X2: set<GState>, a: A)
    requires IsConcat(c, n1, n2) && X1 <= n1.states && X2 <= n2.states
    ensures Post(c, WrapLeft(X1) + WrapRight(X2), a) <= WrapLeft(Post(n1, X1, a)) + WrapRight(Post(n2, X2, a))
  {
    var P := Post(c, WrapLeft(X1) + WrapRight(X2), a);
    var R := WrapLeft(Post(n1, X1, a)) + WrapRight(Post(n2, X2, a));
    forall p | p in P ensures p in R {
      var q :| q in WrapLeft(X1) + WrapRight(X2) && p in Move(c, q, Sym(a));
      if q.Left? {
        assert p.child in Move(n1, q.child, Sym(a));
      } else {
        assert p.child in Move(n2, q.child, Sym(a));
      }
    }
  }

  lemma ConcatPostCoversLeft<A>(c: Nfa<GState, A>, n1: Nfa<GState, A>, n2: Nfa<GState, A>, X1: set<GState>, X2: set<GState>, a: A)
    requires IsConcat(c, n1, n2) && X1 <= n1.states
    ensures WrapLeft(Post(n1, X1, a)) <= Post(c, WrapLeft(X1) + WrapRight(X2), a)
  {
    forall p | p in WrapLeft(Post(n1, X1, a)) ensures p in Post(c, WrapLeft(X1) + WrapRight(X2), a) {
      PostElim(n1, X1, a, p.child);
      var x :| x in X1 && p.child in Move(n1, x, Sym(a));
      assert Move(c, Left(x), Sym(a)) == WrapLeft(Move(n1, x, Sym(a)));
      PostIntro(c, WrapLeft(X1) + WrapRight(X2), a, Left(x), p);
    }
  }

  lemma ConcatPostCoversRight<A>(c: Nfa<GState, A>, n1: Nfa<GState, A>, n2: Nfa<GState, A>, X1: set<GState>, X2: set<GState>, a: A)
    requires IsConcat(c, n1, n2) && X2 <= n2.states
    ensures WrapRight(Post(n2, X2, a)) <= Post(c, WrapLeft(X1) + WrapRight(X2), a)
  {
    forall p | p in WrapRight(Post(n2, X2, a)) ensures p in Post(c, WrapLeft(X1) + WrapRight(X2), a) {
      PostElim(n2, X2, a, p.child);
      var y :| y in X2 && p.child in Move(n2, y, Sym(a));
      assert Move(c, Right(y), Sym(a)) == WrapRight(Move(n2, y, Sym(a)));
      PostIntro(c, WrapLeft(X1) + WrapRight(X2), a, Right(y), p);
    }
  }

  // ---- acceptance -------------------------------------------------------------

  /** Some prefix of w is accepted by the first automaton from X1 and the rest
    * is in the second automaton's language. */
  ghost predicate SplitAcc<A>(n1: Nfa<GState, A>, n2: Nfa<GState, A>, X1: set<GState>, w: seq<A>)
    requires Valid(n1) && Valid(n2) && X1 <= n1.states
  {
    exists i :: 0 <= i <= |w| && Acc(n1, X1, w[..i]) && Lang(n2, w[i..])
  }

  /** A split of a non-empty word puts its cut either at the front or after the
    * first symbol, in which case it is a split of the rest. */
  lemma SplitCons<A>(n1: Nfa<GState, A>, n2: Nfa<GState, A>, X1: set<GState>, w: seq<A>)
    requires Valid(n1) && Valid(n2) && X1 <= n1.states && w != []
    ensures Post(n1, X1, w[0]) <= n1.states
    ensures SplitAcc(n1, n2, X1, w)
        <==> (X1 * n1.accept != {} && Lang(n2, w)) || SplitAcc(n1, n2, EClose(n1, Post(n1, X1, w[0])), w[1..])
  {
    PostFacts(n1, X1, {}, w[0]);
    if SplitAcc(n1, n2, X1, w) {
      SplitConsOut(n1, n2, X1, w);
    }
    if X1 * n1.accept != {} && Lang(n2, w) {
      SplitAtFront(n1, n2, X1, w);
    }
    if SplitAcc(n1, n2, EClose(n1, Post(n1, X1, w[0])), w[1..]) {
      SplitConsIn(n1, n2, X1, w);
    }
  }

  lemma SplitConsOut<A>(n1: Nfa<GState, A>, n2: Nfa<GState, A>, X1: set<GState>, w: seq<A>)
    requires Valid(n1) && Valid(n2) && X1 <= n1.states && w != [] && SplitAcc(n1, n2, X1, w)
    ensures Post(n1, X1, w[0]) <= n1.states
    ensures (X1 * n1.accept != {} && Lang(n2, w)) || SplitAcc(n1, n2, EClose(n1, Post(n1, X1, w[0])), w[1..])
  {
    PostFacts(n1, X1, {}, w[0]);
    var i :| 0 <= i <= |w| && Acc(n1, X1, w[..i]) && Lang(n2, w[i..]);
    if i == 0 {
      assert w[i..] == w;
    } else {
      AccPrefixStep(n1, X1, w, i);
      var X1' := EClose(n1, Post(n1, X1, w[0]));
      assert Acc(n1, X1', w[1..][..i - 1]) && Lang(n2, w[1..][i - 1..]);
    }
  }

  lemma SplitConsIn<A>(n1: Nfa<GState, A>, n2: Nfa<GState, A>, X1: set<GState>, w: seq<A>)
    requires Valid(n1) && Valid(n2) && X1 <= n1.states && w != []
    requires Post(n1, X1, w[0]) <= n1.states && SplitAcc(n1, n2, EClose(n1, Post(n1, X1, w[0])), w[1..])
    ensures SplitAcc(n1, n2, X1, w)
  {
    var X1' := EClose(n1, Post(n1, X1, w[0]));
    var j :| 0 <= j <= |w[1..]| && Acc(n1, X1', w[1..][..j]) && Lang(n2, w[1..][j..]);
    AccPrefixStep(n1, X1, w, j + 1);
    assert Acc(n1, X1, w[..j + 1]) && Lang(n2, w[j + 1..]);
  }

  /** The cut at the front. */
  lemma SplitAtFront<A>(n1: Nfa<GState, A>, n2: Nfa<GState, A>, X1: set<GState>, w: seq<A>)
    requires Valid(n1) && Valid(n2) && X1 <= n1.states
    requires X1 * n1.accept != {} && Lang(n2, w)
    ensures SplitAcc(n1, n2, X1, w)
  {
    assert w[..0] == [] && w[0..] == w;
  }

  /** From the closure of the bridge the second automaton accepts exactly its
    * language, and only when the bridge is taken. */
  lemma BridgeAcc<A>(n1: Nfa<GState, A>, n2: Nfa<GState, A>, E: set<GState>, w: seq<A>)
    requires Valid(n2)
    ensures Bridge(n1, n2, E) <= n2.states
    ensures Acc(n2, EClose(n2, Bridge(n1, n2, E)), w) <==> E * n1.accept != {} && Lang(n2, w)
  {
    if E * n1.accept == {} {
      ECloseEmpty(n2);
      AccEmpty(n2, w);
    }
  }

  /** A closed set of the second automaton holding its start accepts its whole language. */
  lemma StartSubsumed<A>(n2: Nfa<GState, A>, X2: set<GState>, w: seq<A>)
    requires Valid(n2) && X2 <= n2.states && EpsClosed(n2, X2) && n2.start in X2 && Lang(n2, w)
    ensures Acc(n2, X2, w)
  {
    ECloseLeast(n2, {n2.start}, X2);
    AccMonotone(n2, EClose(n2, {n2.start}), X2, w);
  }

  /** The sets the concatenation reaches: the Right part is ε-closed and holds
    * the second start whenever the Left part holds a first accept state. */
  ghost predicate Coherent<A>(n1: Nfa<GState, A>, n2: Nfa<GState, A>, X1: set<GState>, X2: set<GState>)
  {
    X2 <= n2.states && EpsClosed(n2, X2) && Bridge(n1, n2, X1) <= X2
  }

  lemma ConcatAccEmpty<A>(c: Nfa<GState, A>, n1: Nfa<GState, A>, n2: Nfa<GState, A>, X1: set<GState>, X2: set<GState>)
    requires Valid(n1) && Valid(n2) && Valid(c) && IsConcat(c, n1, n2) && X1 <= n1.states && Coherent(n1, n2, X1, X2)
    ensures WrapLeft(X1) + WrapRight(X2) <= c.states
    ensures Acc(c, WrapLeft(X1) + WrapRight(X2), []) <==> Acc(n2, X2, []) || SplitAcc(n1, n2, X1, [])
  {
    WrapMonotone(X1, n1.states);
    WrapMonotone(X2, n2.states);
    var C := WrapLeft(X1) + WrapRight(X2);
    if X2 * n2.accept != {} {
      var y :| y in X2 * n2.accept;
      assert Right(y) in C * c.accept;
    }
    if C * c.accept != {} {
      var g :| g in C * c.accept;
      assert g.child in X2 * n2.accept;
    }
    if SplitAcc(n1, n2, X1, []) {
      var i :| 0 <= i <= 0 && Acc(n1, X1, [][..i]) && Lang(n2, [][i..]);
      assert X1 * n1.accept != {};
      StartSubsumed(n2, X2, []);
    }
  }

  /** From a coherent Left/Right set, the concatenation accepts w iff the Right
    * part accepts it or w splits between the Left part and the second language. */
  lemma {:induction false} ConcatAcc<A>(c: Nfa<GState, A>, n1: Nfa<GState, A>, n2: Nfa<GState, A>, X1: set<GState>, X2: set<GState>, w: seq<A>)
    requires Valid(n1) && Valid(n2) && Valid(c) && IsConcat(c, n1, n2) && X1 <= n1.states && Coherent(n1, n2, X1, X2)
    ensures WrapLeft(X1) + WrapRight(X2) <= c.states
    ensures Acc(c, WrapLeft(X1) + WrapRight(X2), w) <==> Acc(n2, X2, w) || SplitAcc(n1, n2, X1, w)
    decreases |w|
  {
    WrapMonotone(X1, n1.states);
    WrapMonotone(X2, n2.states);
    if w == [] {
      ConcatAccEmpty(c, n1, n2, X1, X2);
    } else {
      var a, w' := w[0], w[1..];
      ConcatPost(c, n1, n2, X1, X2, a);
      var P1, P2 := Post(n1, X1, a), Post(n2, X2, a);
      ConcatEClose(c, n1, n2, P1, P2);
      var X1' := EClose(n1, P1);
      var B := Bridge(n1, n2, X1');
      var X2' := EClose(n2, P2 + B);
      ConcatAcc(c, n1, n2, X1', X2', w');
      ConcatAccTail(n1, n2, X1, X2, w);
    }
  }

  /** The second-automaton half of the induction step: the Right part after one
    * symbol accepts the rest iff the old Right part accepts w or the rest
    * starts right after the bridge. */
  lemma ConcatAccTail<A>(n1: Nfa<GState, A>, n2: Nfa<GState, A>, X1: set<GState>, X2: set<GState>, w: seq<A>)
    requires Valid(n1) && Valid(n2) && X1 <= n1.states && Coherent(n1, n2, X1, X2) && w != []
    ensures Post(n1, X1, w[0]) <= n1.states && Post(n2, X2, w[0]) <= n2.states
    ensures Post(n2, X2, w[0]) + Bridge(n1, n2, EClose(n1, Post(n1, X1, w[0]))) <= n2.states
    ensures Acc(n2, EClose(n2, Post(n2, X2, w[0]) + Bridge(n1, n2, EClose(n1, Post(n1, X1, w[0])))), w[1..])
            || SplitAcc(n1, n2, EClose(n1, Post(n1, X1, w[0])), w[1..])
        <==> Acc(n2, X2, w) || SplitAcc(n1, n2, X1, w)
  {
    var a, w' := w[0], w[1..];
    PostFacts(n1, X1, {}, a);
    PostFacts(n2, X2, {}, a);
    var P2 := Post(n2, X2, a);
    var X1' := EClose(n1, Post(n1, X1, a));
    var B := Bridge(n1, n2, X1');
    ECloseUnion(n2, P2, B);
    AccUnion(n2, EClose(n2, P2), EClose(n2, B), w');
    BridgeAcc(n1, n2, X1', w');
    SplitCons(n1, n2, X1, w);
    if X1' * n1.accept != {} && Lang(n2, w') {
      SplitAtFront(n1, n2, X1', w');
    }
    if X1 * n1.accept != {} && Lang(n2, w) {
      StartSubsumed(n2, X2, w);
    }
  }

  /** concat_nfa recognises the concatenation of the two languages. */
  lemma ConcatLang<A>(n1: Nfa<GState, A>, n2: Nfa<GState, A>, w: seq<A>)
    requires Valid(n1) && Valid(n2)
    ensures Lang(ConcatNfa(n1, n2), w) <==> exists i :: 0 <= i <= |w| && Lang(n1, w[..i]) && Lang(n2, w[i..])
  {
    ConcatLangOf(ConcatNfa(n1, n2), n1, n2, w);
  }

  lemma ConcatLangOf<A>(c: Nfa<GState, A>, n1: Nfa<GState, A>, n2: Nfa<GState, A>, w: seq<A>)
    requires Valid(n1) && Valid(n2) && Valid(c) && IsConcat(c, n1, n2)
    ensures Lang(c, w) <==> exists i :: 0 <= i <= |w| && Lang(n1, w[..i]) && Lang(n2, w[i..])
  {
    var E1 := EClose(n1, {n1.start});
    var B := Bridge(n1, n2, E1);
    assert {Left(n1.start)} == WrapLeft({n1.start}) + WrapRight({});
    assert {} + B == B;
    ConcatEClose(c, n1, n2, {n1.start}, {});
    var X2 := EClose(n2, B);
    ConcatAcc(c, n1, n2, E1, X2, w);
    BridgeAcc(n1, n2, E1, w);
    if E1 * n1.accept != {} && Lang(n2, w) {
      SplitAtFront(n1, n2, E1, w);
    }
    assert SplitAcc(n1, n2, E1, w) <==> exists i :: 0 <= i <= |w| && Lang(n1, w[..i]) && Lang(n2, w[i..]);
  }
}

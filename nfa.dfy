/**
 * Non-deterministic finite automata with ε-moves (NFAs/nfa.py).  Transitions
 * are a finite map from (state, label) to a set of states; a pair missing from
 * the map has no successors.  Step is the source's safe wrapper.
 */
module Nfas {
  import opened Wrappers
  import opened SetFacts

  /** A transition label: the empty string or a symbol of the alphabet. */
  datatype Label<A> = Eps | Sym(symbol: A)

  datatype Nfa<Q, A> = Nfa(states: set<Q>, alphabet: set<A>, delta: map<(Q, Label<A>), set<Q>>, start: Q, accept: set<Q>)

  datatype NfaError =
    | StartNotInStates
    | AcceptNotSubset
    | TransitionOutsideStates
    | StateNotInStates
    | SymbolNotInAlphabet
    | EmptyUnion

  /** ε together with every symbol of the alphabet. */
  function Labels<A>(alphabet: set<A>): (ls: set<Label<A>>)
    ensures Eps in ls && (forall a :: a in alphabet ==> Sym(a) in ls)
    ensures forall l :: l in ls ==> LabelIn(l, alphabet)
  {
    {Eps} + set a | a in alphabet :: Sym(a)
  }

  predicate LabelIn<A>(l: Label<A>, alphabet: set<A>)
  {
    l.Eps? || l.symbol in alphabet
  }

  /** The successors of q on l; none when the map has no entry. */
  function Move<Q, A>(n: Nfa<Q, A>, q: Q, l: Label<A>): set<Q>
  {
    if (q, l) in n.delta then n.delta[(q, l)] else {}
  }

  predicate TransitionsInside<Q, A>(n: Nfa<Q, A>)
  {
    forall q :: q in n.states ==>
      Move(n, q, Eps) <= n.states && forall a :: a in n.alphabet ==> Move(n, q, Sym(a)) <= n.states
  }

  /** What construction checks (__post_init__). */
  predicate Valid<Q, A>(n: Nfa<Q, A>)
  {
    n.start in n.states && n.accept <= n.states && TransitionsInside(n)
  }

  /** Construction: the three checks in source order. */
  function New<Q, A>(n: Nfa<Q, A>): (r: Result<Nfa<Q, A>, NfaError>)
    ensures r.Success? <==> Valid(n)
    ensures r.Success? ==> r.value == n
    ensures r.Failure? ==> r.error == (if n.start !in n.states then StartNotInStates
                                      else if !(n.accept <= n.states) then AcceptNotSubset
                                      else TransitionOutsideStates)
  {
    if n.start !in n.states then Failure(StartNotInStates)
    else if !(n.accept <= n.states) then Failure(AcceptNotSubset)
    else if !TransitionsInside(n) then Failure(TransitionOutsideStates)
    else Success(n)
  }

  /** The safe transition function. */
  function Step<Q, A>(n: Nfa<Q, A>, q: Q, l: Label<A>): (r: Result<set<Q>, NfaError>)
    requires Valid(n)
    ensures r.Failure? <==> q !in n.states || !LabelIn(l, n.alphabet)
    ensures r.Failure? ==> r.error == (if q !in n.states then StateNotInStates else SymbolNotInAlphabet)
    ensures r.Success? ==> r.value == Move(n, q, l) && r.value <= n.states
  {
    if q !in n.states then Failure(StateNotInStates)
    else if !LabelIn(l, n.alphabet) then Failure(SymbolNotInAlphabet)
    else
      assert l == Eps || l == Sym(l.symbol);
      Success(Move(n, q, l))
  }

  // ---- ε-closure ------------------------------------------------------------

  /** The states one ε-move away from S. */
  function EpsPost<Q, A>(n: Nfa<Q, A>, S: set<Q>): set<Q>
  {
    set q, p | q in S && p in Move(n, q, Eps) :: p
  }

  /** No ε-move leaves S. */
  ghost predicate EpsClosed<Q, A>(n: Nfa<Q, A>, S: set<Q>)
  {
    forall q, p :: q in S && p in Move(n, q, Eps) ==> p in S
  }

  /** The ε-closure, as the limit of adding one round of ε-moves at a time. */
  function EClose<Q, A>(n: Nfa<Q, A>, S: set<Q>): (r: set<Q>)
    requires Valid(n) && S <= n.states
    ensures S <= r <= n.states && EpsClosed(n, r)
    decreases n.states - S
  {
    var S' := S + EpsPost(n, S);
    if S' <= S then S else EClose(n, S')
  }

  /** The ε-closure lies inside every ε-closed superset: it is the least one. */
  lemma {:induction false} ECloseLeast<Q, A>(n: Nfa<Q, A>, S: set<Q>, T: set<Q>)
    requires Valid(n) && S <= n.states && S <= T && EpsClosed(n, T)
    ensures EClose(n, S) <= T
    decreases |n.states - S|
  {
    var S' := S + EpsPost(n, S);
    if !(S' <= S) {
      ProperSubsetSmaller(n.states - S', n.states - S);
      ECloseLeast(n, S', T);
    }
  }

  /** Closing an ε-closed set changes nothing; in particular closure is idempotent. */
  lemma ECloseOfClosed<Q, A>(n: Nfa<Q, A>, S: set<Q>)
    requires Valid(n) && S <= n.states && EpsClosed(n, S)
    ensures EClose(n, S) == S
  {
    ECloseLeast(n, S, S);
  }

  lemma ECloseIdempotent<Q, A>(n: Nfa<Q, A>, S: set<Q>)
    requires Valid(n) && S <= n.states
    ensures EClose(n, EClose(n, S)) == EClose(n, S)
  {
    ECloseOfClosed(n, EClose(n, S));
  }

  lemma ECloseMonotone<Q, A>(n: Nfa<Q, A>, S: set<Q>, T: set<Q>)
    requires Valid(n) && S <= T <= n.states
    ensures EClose(n, S) <= EClose(n, T)
  {
    ECloseLeast(n, S, EClose(n, T));
  }

  /** ε-closure distributes over union. */
  lemma ECloseUnion<Q, A>(n: Nfa<Q, A>, S: set<Q>, T: set<Q>)
    requires Valid(n) && S <= n.states && T <= n.states
    ensures EClose(n, S + T) == EClose(n, S) + EClose(n, T)
  {
    ECloseMonotone(n, S, S + T);
    ECloseMonotone(n, T, S + T);
    ECloseLeast(n, S + T, EClose(n, S) + EClose(n, T));
  }

  lemma ECloseEmpty<Q, A>(n: Nfa<Q, A>)
    requires Valid(n)
    ensures EClose(n, {}) == {}
  {
    ECloseOfClosed(n, {});
  }

  lemma EpsPostSingleton<Q, A>(n: Nfa<Q, A>, q: Q)
    ensures EpsPost(n, {q}) == Move(n, q, Eps)
  {
  }

  /** The closure of S is S together with the closure of its ε-successors. */
  lemma ECloseUnfold<Q, A>(n: Nfa<Q, A>, S: set<Q>)
    requires Valid(n) && S <= n.states
    ensures EpsPost(n, S) <= n.states
    ensures EClose(n, S) == S + EClose(n, EpsPost(n, S))
  {
    var E := EClose(n, EpsPost(n, S));
    assert EpsClosed(n, S + E);
    ECloseLeast(n, S, S + E);
    ECloseLeast(n, EpsPost(n, S), EClose(n, S));
  }

  /** ECloseUnfold with the ε-successors and their closure already known. */
  lemma ECloseVia<Q, A>(n: Nfa<Q, A>, S: set<Q>, X: set<Q>, E: set<Q>)
    requires Valid(n) && S <= n.states && EpsPost(n, S) == X && X <= n.states && EClose(n, X) == E
    ensures EClose(n, S) == S + E
  {
    ECloseUnfold(n, S);
  }

  // ---- Reading symbols ------------------------------------------------------

  /** The union of the moves on symbol a from C; nothing when a is not in the alphabet. */
  function Post<Q, A>(n: Nfa<Q, A>, C: set<Q>, a: A): set<Q>
  {
    if a in n.alphabet then set q, p | q in C && p in Move(n, q, Sym(a)) :: p else {}
  }

  lemma PostFacts<Q, A>(n: Nfa<Q, A>, C: set<Q>, D: set<Q>, a: A)
    requires Valid(n) && C <= n.states && D <= n.states
    ensures Post(n, C, a) <= n.states
    ensures Post(n, C + D, a) == Post(n, C, a) + Post(n, D, a)
    ensures Post(n, {}, a) == {}
  {
  }

  lemma PostSingleton<Q, A>(n: Nfa<Q, A>, q: Q, a: A)
    ensures Post(n, {q}, a) == if a in n.alphabet then Move(n, q, Sym(a)) else {}
  {
  }

  lemma PostIntro<Q, A>(n: Nfa<Q, A>, C: set<Q>, a: A, q: Q, p: Q)
    requires a in n.alphabet && q in C && p in Move(n, q, Sym(a))
    ensures p in Post(n, C, a)
  {
  }

  lemma PostElim<Q, A>(n: Nfa<Q, A>, C: set<Q>, a: A, p: Q)
    requires p in Post(n, C, a)
    ensures a in n.alphabet && exists q :: q in C && p in Move(n, q, Sym(a))
  {
  }

  /** A state of C from which a move on a reaches p. */
  lemma PostSource<Q, A>(n: Nfa<Q, A>, C: set<Q>, a: A, p: Q) returns (q: Q)
    requires p in Post(n, C, a)
    ensures a in n.alphabet && q in C && p in Move(n, q, Sym(a))
  {
    PostElim(n, C, a, p);
    q :| q in C && p in Move(n, q, Sym(a));
  }

  /** Reading w from the ε-closed set C ends in an accept state. */
  predicate Acc<Q, A>(n: Nfa<Q, A>, C: set<Q>, w: seq<A>)
    requires Valid(n) && C <= n.states
    decreases |w|
  {
    if w == [] then C * n.accept != {}
    else
      PostFacts(n, C, {}, w[0]);
      Acc(n, EClose(n, Post(n, C, w[0])), w[1..])
  }

  /** The language of the automaton. */
  predicate Lang<Q, A>(n: Nfa<Q, A>, w: seq<A>)
    requires Valid(n)
  {
    Acc(n, EClose(n, {n.start}), w)
  }

  /** Accepting a non-empty prefix is accepting its tail after one step. */
  lemma AccPrefixStep<Q, A>(n: Nfa<Q, A>, X: set<Q>, w: seq<A>, i: int)
    requires Valid(n) && X <= n.states && 1 <= i <= |w|
    ensures Post(n, X, w[0]) <= n.states
    ensures Acc(n, X, w[..i]) == Acc(n, EClose(n, Post(n, X, w[0])), w[1..][..i - 1])
    ensures w[i..] == w[1..][i - 1..]
  {
    PostFacts(n, X, {}, w[0]);
    assert w[..i][0] == w[0] && w[..i][1..] == w[1..][..i - 1];
  }

  lemma {:induction false} AccEmpty<Q, A>(n: Nfa<Q, A>, w: seq<A>)
    requires Valid(n)
    ensures !Acc(n, {}, w)
    decreases |w|
  {
    if w != [] {
      PostFacts(n, {}, {}, w[0]);
      ECloseEmpty(n);
      AccEmpty(n, w[1..]);
    }
  }

  /** Acceptance from a union is acceptance from one of the parts. */
  lemma {:induction false} AccUnion<Q, A>(n: Nfa<Q, A>, C: set<Q>, D: set<Q>, w: seq<A>)
    requires Valid(n) && C <= n.states && D <= n.states
    ensures Acc(n, C + D, w) <==> Acc(n, C, w) || Acc(n, D, w)
    decreases |w|
  {
    if w != [] {
      var a := w[0];
      PostFacts(n, C, D, a);
      ECloseUnion(n, Post(n, C, a), Post(n, D, a));
      AccUnion(n, EClose(n, Post(n, C, a)), EClose(n, Post(n, D, a)), w[1..]);
    }
  }

  lemma AccMonotone<Q, A>(n: Nfa<Q, A>, C: set<Q>, D: set<Q>, w: seq<A>)
    requires Valid(n) && C <= D <= n.states && Acc(n, C, w)
    ensures Acc(n, D, w)
  {
    assert C + (D - C) == D;
    AccUnion(n, C, D - C, w);
  }

  /** Only words over the alphabet are accepted. */
  lemma {:induction false} AccOver<Q, A>(n: Nfa<Q, A>, C: set<Q>, w: seq<A>)
    requires Valid(n) && C <= n.states && Acc(n, C, w)
    ensures forall k :: 0 <= k < |w| ==> w[k] in n.alphabet
    decreases |w|
  {
    if w != [] {
      PostFacts(n, C, {}, w[0]);
      if w[0] !in n.alphabet {
        ECloseEmpty(n);
        AccEmpty(n, w[1..]);
      }
      AccOver(n, EClose(n, Post(n, C, w[0])), w[1..]);
      assert forall k :: 1 <= k < |w| ==> w[k] == w[1..][k - 1];
    }
  }

  // ---- simulate and test ----------------------------------------------------

  /** One iteration of simulate, with the empty union of no successor sets
    * taken to be the empty set. */
  function SimStep<Q, A>(n: Nfa<Q, A>, C: set<Q>, a: A): (r: Result<set<Q>, NfaError>)
    requires Valid(n) && C <= n.states
    ensures r.Success? ==> r.value <= n.states
  {
    if C == {} then Success({})
    else if a !in n.alphabet then Failure(SymbolNotInAlphabet)
    else
      PostFacts(n, C, {}, a);
      Success(EClose(n, Post(n, C, a)))
  }

  /** One iteration of simulate as written: set.union() of no sets raises. */
  function SimStepAsWritten<Q, A>(n: Nfa<Q, A>, C: set<Q>, a: A): (r: Result<set<Q>, NfaError>)
    requires Valid(n) && C <= n.states
    ensures r.Success? ==> r.value <= n.states
  {
    if C == {} then Failure(EmptyUnion) else SimStep(n, C, a)
  }

  /** The loop of simulate from the set C. */
  function RunFrom<Q, A>(n: Nfa<Q, A>, C: set<Q>, w: seq<A>): (r: Result<set<Q>, NfaError>)
    requires Valid(n) && C <= n.states
    ensures r.Success? ==> r.value <= n.states
    decreases |w|
  {
    if w == [] then Success(C)
    else
      var C' :- SimStep(n, C, w[0]);
      RunFrom(n, C', w[1..])
  }

  function RunFromAsWritten<Q, A>(n: Nfa<Q, A>, C: set<Q>, w: seq<A>): (r: Result<set<Q>, NfaError>)
    requires Valid(n) && C <= n.states
    decreases |w|
  {
    if w == [] then Success(C)
    else
      var C' :- SimStepAsWritten(n, C, w[0]);
      RunFromAsWritten(n, C', w[1..])
  }

  /** epsilon_closure as a value: it raises on a state outside the automaton. */
  function ECloseChecked<Q, A>(n: Nfa<Q, A>, S: set<Q>): (r: Result<set<Q>, NfaError>)
    requires Valid(n)
    ensures r.Success? ==> r.value <= n.states
  {
    if S <= n.states then Success(EClose(n, S)) else Failure(StateNotInStates)
  }

  /** simulate, corrected, from {start} or from the given start states. */
  function SimulateResult<Q, A>(n: Nfa<Q, A>, w: seq<A>, from: Option<set<Q>>): Result<set<Q>, NfaError>
    requires Valid(n)
  {
    var C :- ECloseChecked(n, if from.Some? then from.value else {n.start});
    RunFrom(n, C, w)
  }

  /** test, corrected: some final state accepts. */
  function TestResult<Q, A>(n: Nfa<Q, A>, w: seq<A>): Result<bool, NfaError>
    requires Valid(n)
  {
    var C :- SimulateResult(n, w, None);
    Success(C * n.accept != {})
  }

  /** The simulation loop accepts exactly where the reference semantics does,
    * and fails only on a symbol outside the alphabet. */
  lemma {:induction false} RunFromAcc<Q, A>(n: Nfa<Q, A>, C: set<Q>, w: seq<A>)
    requires Valid(n) && C <= n.states
    ensures (RunFrom(n, C, w).Success? && RunFrom(n, C, w).value * n.accept != {}) <==> Acc(n, C, w)
    ensures (forall k :: 0 <= k < |w| ==> w[k] in n.alphabet) ==> RunFrom(n, C, w).Success?
    decreases |w|
  {
    if w != [] {
      var a := w[0];
      PostFacts(n, C, {}, a);
      ECloseEmpty(n);
      if C == {} {
        RunFromAcc(n, {}, w[1..]);
      } else if a !in n.alphabet {
        AccEmpty(n, w[1..]);
      } else {
        RunFromAcc(n, EClose(n, Post(n, C, a)), w[1..]);
      }
      if forall k :: 0 <= k < |w| ==> w[k] in n.alphabet {
        assert forall k :: 0 <= k < |w[1..]| ==> w[1..][k] == w[k + 1];
      }
    }
  }

  /** test holds exactly on the language; it never raises on a word over the alphabet. */
  lemma TestIsLang<Q, A>(n: Nfa<Q, A>, w: seq<A>)
    requires Valid(n)
    ensures TestResult(n, w) == Success(true) <==> Lang(n, w)
    ensures (forall k :: 0 <= k < |w| ==> w[k] in n.alphabet) ==> TestResult(n, w).Success?
  {
    RunFromAcc(n, EClose(n, {n.start}), w);
  }

  /** Where the source's loop does not fail it computes the corrected result. */
  lemma {:induction false} AsWrittenAgrees<Q, A>(n: Nfa<Q, A>, C: set<Q>, w: seq<A>)
    requires Valid(n) && C <= n.states
    ensures RunFromAsWritten(n, C, w).Success? ==> RunFromAsWritten(n, C, w) == RunFrom(n, C, w)
    decreases |w|
  {
    if w != [] && C != {} && SimStep(n, C, w[0]).Success? {
      AsWrittenAgrees(n, SimStep(n, C, w[0]).value, w[1..]);
    }
  }

  /** A one-state automaton without transitions: reading 0 empties the state
    * set, and reading 0 again makes the source evaluate set.union() of no sets
    * and raise, while the corrected test rejects the word. */
  lemma AsWrittenRaisesOnEmptySet()
    ensures Valid(Nfa({0}, {0}, map[], 0, {0}))
    ensures RunFromAsWritten(Nfa({0}, {0}, map[], 0, {0}), {0}, [0, 0]) == Failure(EmptyUnion)
    ensures TestResult(Nfa({0}, {0}, map[], 0, {0}), [0, 0]) == Success(false)
  {
    var n: Nfa<int, int> := Nfa({0}, {0}, map[], 0, {0});
    ECloseOfClosed(n, {0});
    ECloseEmpty(n);
    assert Post(n, {0}, 0) == {};
    var w: seq<int> := [0, 0];
    assert w[1..] == [0] && w[1..][1..] == [];
    assert SimStepAsWritten(n, {0}, 0) == Success({});
    assert RunFrom(n, {}, [0]) == Success({});
  }

  // ---- The imperative procedures ----------------------------------------------

  /** list(S): the elements of a set in some order. */
  method SetToSeq<T>(S: set<T>) returns (s: seq<T>)
    ensures forall x :: x in s <==> x in S
  {
    s := [];
    var rest := S;
    while rest != {}
      invariant forall x :: x in s <==> x in S - rest
      invariant rest <= S
      decreases rest
    {
      var x :| x in rest;
      rest := rest - {x};
      s := s + [x];
    }
  }

  /** The inner loop of the flood fill: mark and queue the unseen ε-successors of `state`. */
  method VisitEpsSuccessors<Q, A>(n: Nfa<Q, A>, state: Q, visited: set<Q>, queue: seq<Q>)
    returns (visited': set<Q>, queue': seq<Q>)
    requires Valid(n) && state in n.states
    ensures visited' == visited + Move(n, state, Eps)
    ensures forall q :: q in queue' <==> q in queue || q in visited' - visited
    ensures visited' == visited ==> queue' == queue
  {
    visited', queue' := visited, queue;
    var rest := Move(n, state, Eps);
    while rest != {}
      invariant rest <= Move(n, state, Eps)
      invariant visited' == visited + (Move(n, state, Eps) - rest)
      invariant forall q :: q in queue' <==> q in queue || q in visited' - visited
      invariant visited' == visited ==> queue' == queue
      decreases rest
    {
      var p :| p in rest;
      rest := rest - {p};
      if p !in visited' {
        visited' := visited' + {p};
        queue' := queue' + [p];
      }
    }
  }

  /** The ε-successors of a state of the closure stay in the closure. */
  lemma FloodStaysInClosure<Q, A>(n: Nfa<Q, A>, S: set<Q>, visited: set<Q>, state: Q)
    requires Valid(n) && S <= n.states && state in EClose(n, S) && visited <= EClose(n, S)
    ensures visited + Move(n, state, Eps) <= EClose(n, S)
  {
  }

  /** What the flood fill keeps: every visited state not waiting in the queue has
    * had its ε-successors visited, and nothing outside the closure is visited. */
  ghost predicate Flood<Q, A>(n: Nfa<Q, A>, S: set<Q>, visited: set<Q>, queue: seq<Q>)
    requires Valid(n)
  {
    && S <= visited && visited - S <= n.states
    && (forall q :: q in queue ==> q in visited)
    && (forall q :: q in visited && q !in queue ==> q in n.states && Move(n, q, Eps) <= visited)
    && (S <= n.states ==> visited <= EClose(n, S))
  }

  /** An empty queue leaves exactly the ε-closure visited. */
  lemma FloodDone<Q, A>(n: Nfa<Q, A>, S: set<Q>, visited: set<Q>)
    requires Valid(n) && Flood(n, S, visited, [])
    ensures S <= n.states && visited == EClose(n, S)
  {
    assert EpsClosed(n, visited) by {
      forall q, p | q in visited && p in Move(n, q, Eps) ensures p in visited {
        assert q !in [];
      }
    }
    ECloseLeast(n, S, visited);
  }

  /** Pop the last queued state and visit its unseen ε-successors. */
  method FloodPop<Q, A>(n: Nfa<Q, A>, S: set<Q>, visited: set<Q>, queue: seq<Q>)
    returns (visited': set<Q>, queue': seq<Q>)
    requires Valid(n) && Flood(n, S, visited, queue)
    requires |queue| > 0 && queue[|queue| - 1] in n.states
    ensures Flood(n, S, visited', queue')
    ensures visited <= visited' && visited' - S <= n.states
    ensures visited' == visited ==> |queue'| == |queue| - 1
  {
    var state := queue[|queue| - 1];
    var rest := queue[..|queue| - 1];
    if S <= n.states {
      FloodStaysInClosure(n, S, visited, state);
    }
    visited', queue' := VisitEpsSuccessors(n, state, visited, rest);
    forall q | q in visited' && q !in queue'
      ensures q in n.states && Move(n, q, Eps) <= visited'
    {
      assert q in visited && q !in rest;
      if q != state {
        assert q !in queue;
      }
    }
  }

  /** epsilon_closure: a flood fill along ε-moves from S. */
  method EpsilonClosure<Q, A>(n: Nfa<Q, A>, S: set<Q>) returns (r: Result<set<Q>, NfaError>)
    requires Valid(n)
    ensures r == ECloseChecked(n, S)
  {
    var visited := S;
    var queue := SetToSeq(S);
    if S <= n.states {
      assert S <= EClose(n, S);
    }
    while |queue| > 0
      invariant Flood(n, S, visited, queue)
      decreases |(S + n.states) - visited|, |queue|
    {
      if queue[|queue| - 1] !in n.states {
        return Failure(StateNotInStates);
      }
      ghost var before := visited;
      visited, queue := FloodPop(n, S, visited, queue);
      if visited != before {
        ProperSubsetSmaller((S + n.states) - visited, (S + n.states) - before);
      }
    }
    FloodDone(n, S, visited);
    return Success(visited);
  }

  /** The set.union over the moves on symbol a from every state of C; the
    * union of no sets is taken to be empty. */
  method UnionOfMoves<Q, A>(n: Nfa<Q, A>, C: set<Q>, a: A) returns (r: Result<set<Q>, NfaError>)
    requires Valid(n) && C <= n.states
    ensures r == (if C == {} then Success({}) else if a !in n.alphabet then Failure(SymbolNotInAlphabet)
                  else Success(Post(n, C, a)))
  {
    var next := {};
    var rest := C;
    while rest != {}
      invariant rest <= C
      invariant a in n.alphabet ==> next == Post(n, C - rest, a)
      invariant a !in n.alphabet ==> rest == C
      decreases rest
    {
      var q :| q in rest;
      rest := rest - {q};
      var moves := Step(n, q, Sym(a));
      if moves.Failure? {
        return Failure(moves.error);
      }
      next := next + moves.value;
    }
    assert C - rest == C;
    if C == {} { return Success({}); }
    return Success(next);
  }

  /** One pass of the loop of simulate: the union of the moves, then its ε-closure. */
  method SimulateStep<Q, A>(n: Nfa<Q, A>, C: set<Q>, a: A) returns (r: Result<set<Q>, NfaError>)
    requires Valid(n) && C <= n.states
    ensures r == SimStep(n, C, a)
  {
    var next := UnionOfMoves(n, C, a);
    if next.Failure? {
      return Failure(next.error);
    }
    PostFacts(n, C, {}, a);
    var closed := EpsilonClosure(n, next.value);
    if C == {} {
      ECloseEmpty(n);
    }
    return closed;
  }

  /** simulate, with the empty union corrected. */
  method Simulate<Q, A>(n: Nfa<Q, A>, w: seq<A>, from: Option<set<Q>>) returns (r: Result<set<Q>, NfaError>)
    requires Valid(n)
    ensures r == SimulateResult(n, w, from)
  {
    var first := EpsilonClosure(n, if from.Some? then from.value else {n.start});
    if first.Failure? {
      return Failure(first.error);
    }
    var curr := first.value;
    ghost var C0 := curr;
    var i := 0;
    while i < |w|
      invariant 0 <= i <= |w| && curr <= n.states
      invariant RunFrom(n, C0, w) == RunFrom(n, curr, w[i..])
    {
      assert w[i..][0] == w[i] && w[i..][1..] == w[i + 1..];
      var next := SimulateStep(n, curr, w[i]);
      if next.Failure? {
        return Failure(next.error);
      }
      curr := next.value;
      i := i + 1;
    }
    return Success(curr);
  }

  /** test */
  method Test<Q, A>(n: Nfa<Q, A>, w: seq<A>) returns (r: Result<bool, NfaError>)
    requires Valid(n)
    ensures r == TestResult(n, w)
  {
    var final := Simulate(n, w, None);
    if final.Failure? {
      return Failure(final.error);
    }
    return Success(final.value * n.accept != {});
  }

  // ---- Map constructors -------------------------------------------------------

  /** Keys and every target of a transition map. */
  function MapStates<T, A(==)>(tm: map<T, map<Label<A>, set<T>>>): set<T>
  {
    tm.Keys + set k, l, p | k in tm && l in tm[k] && p in tm[k][l] :: p
  }

  /** The symbols labelling some entry; ε is not part of the alphabet. */
  function MapAlphabet<T, A(==)>(tm: map<T, map<Label<A>, set<T>>>): set<A>
  {
    set k, l | k in tm && l in tm[k] && l.Sym? :: l.symbol
  }

  function MapDelta<T, A(==)>(tm: map<T, map<Label<A>, set<T>>>): map<(T, Label<A>), set<T>>
  {
    map k, l | k in tm && l in tm[k] :: (k, l) := tm[k][l]
  }

  /** from_transition_map: missing rows and entries have no successors. */
  function FromTransitionMap<T, A(==)>(tm: map<T, map<Label<A>, set<T>>>, start: T, accept: set<T>)
    : (r: Result<Nfa<T, A>, NfaError>)
    ensures r.Success? <==> start in MapStates(tm) && accept <= MapStates(tm)
    ensures r.Success? ==> Valid(r.value) && r.value == Nfa(MapStates(tm), MapAlphabet(tm), MapDelta(tm), start, accept)
  {
    var n := Nfa(MapStates(tm), MapAlphabet(tm), MapDelta(tm), start, accept);
    assert TransitionsInside(n) by {
      forall q, l | q in n.states && (q, l) in n.delta ensures n.delta[(q, l)] <= n.states {
        assert n.delta[(q, l)] == tm[q][l];
      }
    }
    New(n)
  }

  /** An entry of the map is the move of its pair, and a missing one has no successors. */
  lemma MapMoves<T, A>(tm: map<T, map<Label<A>, set<T>>>, q: T, l: Label<A>)
    ensures Move(Nfa(MapStates(tm), MapAlphabet(tm), MapDelta(tm), q, {}), q, l)
         == (if q in tm && l in tm[q] then tm[q][l] else {})
  {
  }

  /** from_transition_list: list positions are the states and 0 is the start. */
  function FromTransitionList<A(==)>(tl: seq<map<Label<A>, set<nat>>>, accept: set<nat>)
    : (r: Result<Nfa<nat, A>, NfaError>)
    ensures r.Success? ==> Valid(r.value) && r.value.start == 0
    ensures r.Success? ==> forall i, l :: 0 <= i < |tl| && l in tl[i] ==> Move(r.value, i, l) == tl[i][l]
  {
    var tm := map i | 0 <= i < |tl| :: tl[i];
    assert forall i, l :: 0 <= i < |tl| && l in tl[i] ==> (i, l) in MapDelta(tm) && MapDelta(tm)[(i, l)] == tl[i][l];
    FromTransitionMap(tm, 0, accept)
  }
}

/**
 * Deterministic finite automata (DFAs/dfa.py).  The transition function is a
 * finite map over states × alphabet; the source's safe wrapper, which raises for
 * a state or symbol outside that domain, is Step.
 */
module Dfas {
  import opened Wrappers
  import opened SetFacts

  datatype Dfa<Q, A> = Dfa(states: set<Q>, alphabet: set<A>, delta: map<(Q, A), Q>, start: Q, accept: set<Q>)

  /** Failures raised while building or running a DFA, in the order they are checked. */
  datatype DfaError =
    | StartNotInStates
    | AcceptNotSubset
    | EmptyAlphabet
    | TransitionOutsideStates
    | StateNotInStates
    | SymbolNotInAlphabet

  /** The dead state added by the map constructors, beside the named states. */
  datatype DState<T> = Named(name: T) | Dead

  /** Every transition from the domain is defined and stays inside `states`. */
  predicate TransitionsInside<Q, A>(states: set<Q>, alphabet: set<A>, delta: map<(Q, A), Q>)
  {
    forall q, a {:trigger (q, a) in delta} {:trigger delta[(q, a)]} :: q in states && a in alphabet ==> (q, a) in delta && delta[(q, a)] in states
  }

  /** What construction checks (__post_init__). */
  predicate Valid<Q, A>(d: Dfa<Q, A>)
  {
    d.start in d.states && d.accept <= d.states && |d.alphabet| > 0
    && TransitionsInside(d.states, d.alphabet, d.delta)
  }

  /** Construction: the four checks in source order, the first failing one reported. */
  function New<Q, A>(states: set<Q>, alphabet: set<A>, delta: map<(Q, A), Q>, start: Q, accept: set<Q>)
    : (r: Result<Dfa<Q, A>, DfaError>)
    ensures r.Success? <==> Valid(Dfa(states, alphabet, delta, start, accept))
    ensures r.Success? ==> r.value == Dfa(states, alphabet, delta, start, accept)
    ensures r.Failure? && start !in states ==> r.error == StartNotInStates
    ensures r.Failure? && start in states && !(accept <= states) ==> r.error == AcceptNotSubset
    ensures r.Failure? && start in states && accept <= states && |alphabet| == 0 ==> r.error == EmptyAlphabet
  {
    if start !in states then Failure(StartNotInStates)
    else if !(accept <= states) then Failure(AcceptNotSubset)
    else if |alphabet| == 0 then Failure(EmptyAlphabet)
    else if !TransitionsInside(states, alphabet, delta) then Failure(TransitionOutsideStates)
    else Success(Dfa(states, alphabet, delta, start, accept))
  }

  /** The safe transition function. */
  function Step<Q, A>(d: Dfa<Q, A>, q: Q, a: A): (r: Result<Q, DfaError>)
    requires Valid(d)
    ensures r.Failure? <==> q !in d.states || a !in d.alphabet
    ensures r.Failure? ==> r.error == (if q !in d.states then StateNotInStates else SymbolNotInAlphabet)
    ensures r.Success? ==> r.value in d.states && r.value == d.delta[(q, a)]
  {
    if q !in d.states then Failure(StateNotInStates)
    else if a !in d.alphabet then Failure(SymbolNotInAlphabet)
    else Success(d.delta[(q, a)])
  }

  /** The extended transition function: a left fold of Step over the word. */
  function Run<Q, A>(d: Dfa<Q, A>, q: Q, w: seq<A>): Result<Q, DfaError>
    requires Valid(d)
    decreases |w|
  {
    if w == [] then Success(q)
    else
      var q' :- Step(d, q, w[0]);
      Run(d, q', w[1..])
  }

  /** Every symbol of w is in the alphabet. */
  predicate Over<A>(w: seq<A>, alphabet: set<A>)
  {
    forall k :: 0 <= k < |w| ==> w[k] in alphabet
  }

  /** A non-empty word is over an alphabet iff its head and its tail are. */
  lemma OverCons<A>(w: seq<A>, alphabet: set<A>)
    requires w != []
    ensures Over(w, alphabet) <==> w[0] in alphabet && Over(w[1..], alphabet)
  {
    if w[0] in alphabet && Over(w[1..], alphabet) {
      forall k | 0 <= k < |w| ensures w[k] in alphabet {
        if k > 0 { assert w[k] == w[1..][k - 1]; }
      }
    }
  }

  /** test(w), as a value: Failure when the run raises. */
  function TestResult<Q, A>(d: Dfa<Q, A>, w: seq<A>): Result<bool, DfaError>
    requires Valid(d)
  {
    var q :- Run(d, d.start, w);
    Success(q in d.accept)
  }

  /** The DFA accepts w. */
  predicate Accepts<Q, A>(d: Dfa<Q, A>, w: seq<A>)
    requires Valid(d)
  {
    TestResult(d, w) == Success(true)
  }

  /** The run from p succeeds and ends in an accept state. */
  predicate AcceptsFrom<Q, A>(d: Dfa<Q, A>, p: Q, w: seq<A>)
    requires Valid(d)
  {
    Run(d, p, w).Success? && Run(d, p, w).value in d.accept
  }

  /** simulate(u + v) continues simulate(u) with v. */
  lemma {:induction false} RunAppend<Q, A>(d: Dfa<Q, A>, q: Q, u: seq<A>, v: seq<A>)
    requires Valid(d)
    ensures Run(d, q, u + v) == (match Run(d, q, u) case Success(p) => Run(d, p, v) case Failure(e) => Failure(e))
    decreases |u|
  {
    if u != [] {
      assert (u + v)[0] == u[0] && (u + v)[1..] == u[1..] + v;
      if Step(d, q, u[0]).Success? {
        RunAppend(d, Step(d, q, u[0]).value, u[1..], v);
      }
    } else {
      assert u + v == v;
    }
  }

  /** From a state of the DFA, the run fails exactly when the word leaves the
    * alphabet, and otherwise ends in a state. */
  lemma {:induction false} RunTotal<Q, A>(d: Dfa<Q, A>, q: Q, w: seq<A>)
    requires Valid(d) && q in d.states
    ensures Run(d, q, w).Success? <==> Over(w, d.alphabet)
    ensures Run(d, q, w).Success? ==> Run(d, q, w).value in d.states
    ensures Run(d, q, w).Failure? ==> Run(d, q, w).error == SymbolNotInAlphabet
    decreases |w|
  {
    if w != [] {
      if w[0] in d.alphabet {
        RunTotal(d, d.delta[(q, w[0])], w[1..]);
        if !Over(w[1..], d.alphabet) {
          var k :| 0 <= k < |w[1..]| && w[1..][k] !in d.alphabet;
          assert w[k + 1] !in d.alphabet;
        }
      }
    }
  }

  /** A word over the alphabet is accepted or rejected; test never raises on it. */
  lemma TestTotal<Q, A>(d: Dfa<Q, A>, w: seq<A>)
    requires Valid(d)
    ensures TestResult(d, w).Success? <==> Over(w, d.alphabet)
    ensures Over(w, d.alphabet) ==> (Accepts(d, w) <==> Run(d, d.start, w).value in d.accept)
  {
    RunTotal(d, d.start, w);
  }

  /** simulate, with the source's optional start state. */
  method Simulate<Q, A>(d: Dfa<Q, A>, w: seq<A>, from: Option<Q>) returns (r: Result<Q, DfaError>)
    requires Valid(d)
    ensures r == Run(d, if from.Some? then from.value else d.start, w)
  {
    var q := if from.Some? then from.value else d.start;
    ghost var q0 := q;
    var i := 0;
    while i < |w|
      invariant 0 <= i <= |w|
      invariant Run(d, q0, w) == Run(d, q, w[i..])
    {
      assert w[i..][0] == w[i] && w[i..][1..] == w[i + 1..];
      var step := Step(d, q, w[i]);
      if step.Failure? {
        return Failure(step.error);
      }
      q := step.value;
      i := i + 1;
    }
    return Success(q);
  }

  /** test */
  method Test<Q, A>(d: Dfa<Q, A>, w: seq<A>) returns (r: Result<bool, DfaError>)
    requires Valid(d)
    ensures r == TestResult(d, w)
  {
    var q := Simulate(d, w, None);
    if q.Failure? {
      return Failure(q.error);
    }
    return Success(q.value in d.accept);
  }

  // ---- Map constructors ----------------------------------------------------

  /** The named states a transition map mentions, as keys or as targets. */
  function MapStates<T, A>(tm: map<T, map<A, T>>): set<DState<T>>
  {
    (set k | k in tm :: Named(k)) + (set k, a | k in tm && a in tm[k] :: Named(tm[k][a]))
  }

  /** The symbols a transition map mentions. */
  function MapAlphabet<T, A>(tm: map<T, map<A, T>>): set<A>
  {
    set k, a | k in tm && a in tm[k] :: a
  }

  /** Missing rows and missing entries lead to Dead, and Dead loops on every symbol. */
  function MapMove<T, A>(tm: map<T, map<A, T>>, q: DState<T>, a: A): DState<T>
  {
    match q
    case Dead => Dead
    case Named(t) => if t !in tm || a !in tm[t] then Dead else Named(tm[t][a])
  }

  function MapDelta<T, A>(tm: map<T, map<A, T>>, states: set<DState<T>>, alphabet: set<A>)
    : (delta: map<(DState<T>, A), DState<T>>)
    ensures forall q, a {:trigger (q, a) in delta} {:trigger delta[(q, a)]} :: q in states && a in alphabet ==> (q, a) in delta && delta[(q, a)] == MapMove(tm, q, a)
  {
    map q, a | q in states && a in alphabet :: (q, a) := MapMove(tm, q, a)
  }

  /** from_transition_map */
  function FromTransitionMap<T(!new), A>(tm: map<T, map<A, T>>, start: T, accept: set<T>)
    : (r: Result<Dfa<DState<T>, A>, DfaError>)
    ensures r.Success? <==> Named(start) in MapStates(tm) && (forall f :: f in accept ==> Named(f) in MapStates(tm))
                            && |MapAlphabet(tm)| > 0
    ensures Named(start) !in MapStates(tm) ==> r == Failure(StartNotInStates)
    ensures r.Success? ==> Valid(r.value) && r.value.states == MapStates(tm) + {Dead}
                           && r.value.alphabet == MapAlphabet(tm) && Dead !in r.value.accept
    ensures r.Success? ==> r.value.start == Named(start) && forall f :: Named(f) in r.value.accept <==> f in accept
    ensures r.Success? ==> forall q, a :: q in r.value.states && a in r.value.alphabet ==>
                             Step(r.value, q, a) == Success(MapMove(tm, q, a))
  {
    var states := MapStates(tm) + {Dead};
    var alphabet := MapAlphabet(tm);
    var delta := MapDelta(tm, states, alphabet);
    var acc := set f | f in accept :: Named(f);
    assert forall q, a :: q in states && a in alphabet ==> MapMove(tm, q, a) in states by {
      forall q, a | q in states && a in alphabet ensures MapMove(tm, q, a) in states {
        if q.Named? && q.name in tm && a in tm[q.name] {
          assert Named(tm[q.name][a]) in MapStates(tm);
        }
      }
    }
    assert (forall f :: f in accept ==> Named(f) in MapStates(tm)) <==> acc <= states;
    New(states, alphabet, delta, Named(start), acc)
  }

  /** A row entry of the map is the move of its named state. */
  lemma MapStepAt<T(!new), A>(tm: map<T, map<A, T>>, start: T, accept: set<T>, k: T, a: A)
    requires FromTransitionMap(tm, start, accept).Success? && k in tm && a in tm[k]
    ensures Step(FromTransitionMap(tm, start, accept).value, Named(k), a) == Success(Named(tm[k][a]))
  {
    assert Named(k) in MapStates(tm) && a in MapAlphabet(tm);
  }

  /** The transition map whose keys are the positions of the list. */
  function ListMap<A>(tl: seq<map<A, nat>>): (tm: map<nat, map<A, nat>>)
    ensures forall i :: 0 <= i < |tl| <==> i in tm
    ensures forall i :: 0 <= i < |tl| ==> tm[i] == tl[i]
  {
    map i | 0 <= i < |tl| :: tl[i]
  }

  /** from_transition_list: list positions are the states and 0 is the start. */
  function FromTransitionList<A>(tl: seq<map<A, nat>>, accept: set<nat>): Result<Dfa<DState<nat>, A>, DfaError>
  {
    FromTransitionMap(ListMap(tl), 0, accept)
  }

  /** Position i of the list is the row of state i, and the start state is 0. */
  lemma FromTransitionListRows<A>(tl: seq<map<A, nat>>, accept: set<nat>, i: nat, a: A)
    requires FromTransitionList(tl, accept).Success? && i < |tl| && a in tl[i]
    ensures FromTransitionList(tl, accept).value.start == Named(0)
    ensures Step(FromTransitionList(tl, accept).value, Named(i), a) == Success(Named(tl[i][a]))
  {
    MapStepAt(ListMap(tl), 0, accept, i, a);
  }

  // ---- Reachability ------------------------------------------------------

  /** S contains every successor of its own members. */
  predicate Closed<Q, A>(d: Dfa<Q, A>, S: set<Q>)
  {
    forall q, a :: q in S && a in d.alphabet && (q, a) in d.delta ==> d.delta[(q, a)] in S
  }

  /** A closed set of states containing q contains every state a run from q reaches. */
  lemma {:induction false} ClosedContainsRuns<Q, A>(d: Dfa<Q, A>, S: set<Q>, q: Q, w: seq<A>)
    requires Valid(d) && S <= d.states && Closed(d, S) && q in S
    ensures Run(d, q, w).Success? ==> Run(d, q, w).value in S
    decreases |w|
  {
    if w != [] && w[0] in d.alphabet {
      ClosedContainsRuns(d, S, d.delta[(q, w[0])], w[1..]);
    }
  }

  /** Restricting to a closed set containing the start state changes no run. */
  lemma {:induction false} RestrictedRuns<Q, A>(d: Dfa<Q, A>, S: set<Q>, q: Q, w: seq<A>)
    requires Valid(d) && S <= d.states && Closed(d, S) && q in S
    requires Valid(d.(states := S, start := q, accept := d.accept * S))
    ensures Run(d.(states := S, start := q, accept := d.accept * S), q, w) == Run(d, q, w)
    decreases |w|
  {
    var e := d.(states := S, start := q, accept := d.accept * S);
    if w != [] && w[0] in d.alphabet {
      var p := d.delta[(q, w[0])];
      var e' := d.(states := S, start := p, accept := d.accept * S);
      RestrictedRuns(d, S, p, w[1..]);
      RunsIgnoreStartAndAccept(e, e', p, w[1..]);
    }
  }

  /** Runs depend only on states, alphabet and transitions. */
  lemma {:induction false} RunsIgnoreStartAndAccept<Q, A>(d: Dfa<Q, A>, e: Dfa<Q, A>, q: Q, w: seq<A>)
    requires Valid(d) && Valid(e)
    requires d.states == e.states && d.alphabet == e.alphabet && d.delta == e.delta
    ensures Run(d, q, w) == Run(e, q, w)
    decreases |w|
  {
    if w != [] && q in d.states && w[0] in d.alphabet {
      RunsIgnoreStartAndAccept(d, e, d.delta[(q, w[0])], w[1..]);
    }
  }

  /** u is a word over the alphabet whose run from the start state ends in q. */
  ghost predicate Reaches<Q, A>(d: Dfa<Q, A>, u: seq<A>, q: Q)
    requires Valid(d)
  {
    Over(u, d.alphabet) && Run(d, d.start, u) == Success(q)
  }

  /** Every state of S has a recorded word that reaches it. */
  ghost predicate Witnessed<Q, A>(d: Dfa<Q, A>, S: set<Q>, paths: map<Q, seq<A>>)
    requires Valid(d)
  {
    forall q :: q in S ==> q in paths && Reaches(d, paths[q], q)
  }

  lemma ReachesStep<Q, A>(d: Dfa<Q, A>, u: seq<A>, q: Q, a: A)
    requires Valid(d) && Reaches(d, u, q) && q in d.states && a in d.alphabet
    ensures Reaches(d, u + [a], d.delta[(q, a)])
  {
    RunAppend(d, d.start, u, [a]);
    assert Run(d, d.delta[(q, a)], []) == Success(d.delta[(q, a)]);
    assert Run(d, q, [a]) == Success(d.delta[(q, a)]);
  }

  /** The inner loop of drop_disconnected: every successor of `state` not yet
    * seen is marked reachable and queued. */
  method VisitSuccessors<Q, A>(d: Dfa<Q, A>, state: Q, reachable: set<Q>, queue: seq<Q>, ghost paths: map<Q, seq<A>>)
    returns (reachable': set<Q>, queue': seq<Q>, ghost paths': map<Q, seq<A>>)
    requires Valid(d) && state in reachable && reachable <= d.states && Witnessed(d, reachable, paths)
    ensures reachable <= reachable' <= d.states && Witnessed(d, reachable', paths')
    ensures forall a :: a in d.alphabet ==> d.delta[(state, a)] in reachable'
    ensures forall q :: q in queue' <==> q in queue || q in reachable' - reachable
    ensures reachable' == reachable ==> queue' == queue
  {
    reachable', queue', paths' := reachable, queue, paths;
    var symbols := d.alphabet;
    while symbols != {}
      invariant symbols <= d.alphabet
      invariant reachable <= reachable' <= d.states && Witnessed(d, reachable', paths')
      invariant forall a :: a in d.alphabet - symbols ==> d.delta[(state, a)] in reachable'
      invariant forall q :: q in queue' <==> q in queue || q in reachable' - reachable
      invariant reachable' == reachable ==> queue' == queue
      decreases symbols
    {
      var a :| a in symbols;
      symbols := symbols - {a};
      var next := d.delta[(state, a)];
      if next !in reachable' {
        ReachesStep(d, paths'[state], state, a);
        paths' := paths'[next := paths'[state] + [a]];
        reachable' := reachable' + {next};
        queue' := queue' + [next];
      }
    }
  }

  /** The worklist facts of drop_disconnected: everything queued or recorded is
    * reached, and a reached state off the queue has all its successors reached. */
  ghost predicate Searching<Q, A>(d: Dfa<Q, A>, reachable: set<Q>, queue: seq<Q>, paths: map<Q, seq<A>>)
    requires Valid(d)
  {
    && reachable <= d.states && d.start in reachable
    && (forall q :: q in queue ==> q in reachable)
    && Witnessed(d, reachable, paths)
    && (forall q, a :: q in reachable && q !in queue && a in d.alphabet ==> d.delta[(q, a)] in reachable)
  }

  /** One pass of drop_disconnected's loop: pop the last state and visit its
    * successors; either a state is newly reached or the queue shrinks. */
  method SearchStep<Q, A>(d: Dfa<Q, A>, reachable: set<Q>, queue: seq<Q>, ghost paths: map<Q, seq<A>>)
    returns (reachable': set<Q>, queue': seq<Q>, ghost paths': map<Q, seq<A>>)
    requires Valid(d) && Searching(d, reachable, queue, paths) && |queue| > 0
    ensures Searching(d, reachable', queue', paths') && reachable <= reachable'
    ensures reachable' == reachable ==> |queue'| < |queue|
    ensures reachable' != reachable ==> |d.states - reachable'| < |d.states - reachable|
  {
    var state := queue[|queue| - 1];
    var rest := queue[..|queue| - 1];
    reachable', queue', paths' := VisitSuccessors(d, state, reachable, rest, paths);
    if reachable' != reachable {
      ProperSubsetSmaller(d.states - reachable', d.states - reachable);
    }
  }

  /** drop_disconnected: a worklist search from the start state.  The result keeps
    * exactly the reachable states, the same transitions, and accept ∩ reachable. */
  method DropDisconnected<Q, A>(d: Dfa<Q, A>) returns (r: Dfa<Q, A>)
    requires Valid(d)
    ensures Valid(r) && r.alphabet == d.alphabet && r.delta == d.delta && r.start == d.start
    ensures r.states <= d.states && r.accept == d.accept * r.states && Closed(d, r.states)
    ensures forall q :: q in r.states ==> exists u :: Reaches(d, u, q)
    ensures forall w :: Run(r, r.start, w) == Run(d, d.start, w)
    ensures forall w :: TestResult(r, w) == TestResult(d, w)
  {
    var reachable := {d.start};
    var queue := [d.start];
    ghost var paths: map<Q, seq<A>> := map[d.start := []];
    assert Reaches(d, [], d.start);
    while |queue| > 0
      invariant Searching(d, reachable, queue, paths)
      decreases |d.states - reachable|, |queue|
    {
      reachable, queue, paths := SearchStep(d, reachable, queue, paths);
    }
    r := Dfa(reachable, d.alphabet, d.delta, d.start, d.accept * reachable);
    forall q | q in r.states ensures exists u :: Reaches(d, u, q) {
      assert Reaches(d, paths[q], q);
    }
    RestrictToClosed(d, reachable);
  }

  /** Keeping only a closed set of states that contains the start changes no
    * run from the start and no test result. */
  lemma RestrictToClosed<Q, A>(d: Dfa<Q, A>, S: set<Q>)
    requires Valid(d) && S <= d.states && Closed(d, S) && d.start in S
    ensures Valid(d.(states := S, accept := d.accept * S))
    ensures forall w :: Run(d.(states := S, accept := d.accept * S), d.start, w) == Run(d, d.start, w)
    ensures forall w :: TestResult(d.(states := S, accept := d.accept * S), w) == TestResult(d, w)
  {
    var r := d.(states := S, accept := d.accept * S);
    forall w ensures Run(r, d.start, w) == Run(d, d.start, w) && TestResult(r, w) == TestResult(d, w) {
      RestrictedRuns(d, S, d.start, w);
      ClosedContainsRuns(d, S, d.start, w);
    }
  }

  // ---- complement (operators/complement.py) --------------------------------

  /** The same automaton with accept replaced by states \ accept. */
  function Complement<Q, A>(d: Dfa<Q, A>): (c: Dfa<Q, A>)
    requires Valid(d)
    ensures Valid(c)
  {
    d.(accept := d.states - d.accept)
  }

  /** test is negated on every word; a word that makes one raise makes both raise. */
  lemma ComplementNegates<Q, A>(d: Dfa<Q, A>, w: seq<A>)
    requires Valid(d)
    ensures TestResult(Complement(d), w).Success? <==> TestResult(d, w).Success?
    ensures Over(w, d.alphabet) ==> (Accepts(Complement(d), w) <==> !Accepts(d, w))
  {
    RunsIgnoreStartAndAccept(d, Complement(d), d.start, w);
    RunTotal(d, d.start, w);
  }

  /** Complementing twice gives back the original automaton. */
  lemma ComplementInvolutive<Q, A>(d: Dfa<Q, A>)
    requires Valid(d)
    ensures Complement(Complement(d)) == d
  {
    assert d.states - (d.states - d.accept) == d.accept;
  }
}

/**
 * Subset construction (Converters/NFA_to_DFA.py).  The states of the DFA are
 * sets of NFA states; the start is the ε-closure of the NFA's start state, and
 * the move from a set C on a symbol is simulate([a], C), the ε-closure of the
 * moves on a.  NfaToDfa discovers the reachable sets by a worklist flood fill;
 * CompleteOver tabulates the moves of a given family of sets at once.
 */
module NfaToDfa {
  import opened Wrappers
  import opened SetFacts
  import opened Nfas
  import Dfas

  type SubsetDfa<Q, A> = Dfas.Dfa<Dfas.DState<set<Q>>, A>

  /** The DFA move from C on a.  The empty set is a sink. */
  function Succ<Q(!new), A(!new)>(n: Nfa<Q, A>, C: set<Q>, a: A): (r: set<Q>)
    requires Valid(n) && C <= n.states
    ensures r <= n.states && EpsClosed(n, r)
  {
    PostFacts(n, C, {}, a);
    EClose(n, Post(n, C, a))
  }

  /** The empty set is a sink. */
  lemma SuccEmpty<Q(!new), A(!new)>(n: Nfa<Q, A>, a: A)
    requires Valid(n)
    ensures Succ(n, {}, a) == {}
  {
    PostFacts(n, {}, {}, a);
    ECloseEmpty(n);
  }

  /** simulate([a], C), run from an ε-closed set with a symbol of the alphabet,
    * never raises and yields Succ. */
  lemma SimulateOneSymbol<Q(!new), A(!new)>(n: Nfa<Q, A>, C: set<Q>, a: A)
    requires Valid(n) && C <= n.states && EpsClosed(n, C) && a in n.alphabet
    ensures SimulateResult(n, [a], Some(C)) == Success(Succ(n, C, a))
  {
    ECloseOfClosed(n, C);
    SuccEmpty(n, a);
    assert ECloseChecked(n, C) == Success(C);
    assert SimStep(n, C, a) == Success(Succ(n, C, a));
    assert [a][1..] == [];
    assert RunFrom(n, C, [a]) == RunFrom(n, Succ(n, C, a), []);
  }

  /** The DFA start state. */
  function StartSet<Q(!new), A(!new)>(n: Nfa<Q, A>): (s: set<Q>)
    requires Valid(n)
    ensures n.start in s && s <= n.states && EpsClosed(n, s)
  {
    EClose(n, {n.start})
  }

  /** The set reached from C by reading w. */
  function Reach<Q(!new), A(!new)>(n: Nfa<Q, A>, C: set<Q>, w: seq<A>): (r: set<Q>)
    requires Valid(n) && C <= n.states
    ensures r <= n.states
    decreases |w|
  {
    if w == [] then C else Reach(n, Succ(n, C, w[0]), w[1..])
  }

  /** Reading w + [a] is reading w and then moving on a. */
  lemma {:induction false} ReachSnoc<Q(!new), A(!new)>(n: Nfa<Q, A>, C: set<Q>, w: seq<A>, a: A)
    requires Valid(n) && C <= n.states
    ensures Reach(n, C, w + [a]) == Succ(n, Reach(n, C, w), a)
    decreases |w|
  {
    if w == [] {
      assert [a][1..] == [];
    } else {
      assert (w + [a])[0] == w[0] && (w + [a])[1..] == w[1..] + [a];
      ReachSnoc(n, Succ(n, C, w[0]), w[1..], a);
    }
  }

  /** The NFA accepts w from an ε-closed set C exactly when the set reached
    * from C meets its accept states. */
  lemma {:induction false} ReachAcc<Q(!new), A(!new)>(n: Nfa<Q, A>, C: set<Q>, w: seq<A>)
    requires Valid(n) && C <= n.states
    ensures Acc(n, C, w) <==> Reach(n, C, w) * n.accept != {}
    decreases |w|
  {
    if w != [] {
      ReachAcc(n, Succ(n, C, w[0]), w[1..]);
    }
  }

  /** S is the set reached from the start by some word over the alphabet. */
  ghost predicate Reachable<Q(!new), A(!new)>(n: Nfa<Q, A>, S: set<Q>)
    requires Valid(n)
  {
    exists w :: Dfas.Over(w, n.alphabet) && Reach(n, StartSet(n), w) == S
  }

  /** Every member of X is an ε-closed set of states. */
  ghost predicate Inside<Q(!new), A(!new)>(n: Nfa<Q, A>, X: set<set<Q>>)
  {
    forall S :: S in X ==> S <= n.states && EpsClosed(n, S)
  }

  /** X holds every move of its own members. */
  ghost predicate SuccClosed<Q(!new), A(!new)>(n: Nfa<Q, A>, X: set<set<Q>>)
    requires Valid(n) && Inside(n, X)
  {
    forall S, a {:trigger Succ(n, S, a)} :: S in X && a in n.alphabet ==> Succ(n, S, a) in X
  }

  /** A family closed under the moves holds every set reachable from its members. */
  lemma {:induction false} ReachStaysIn<Q(!new), A(!new)>(n: Nfa<Q, A>, X: set<set<Q>>, C: set<Q>, w: seq<A>)
    requires Valid(n) && Inside(n, X) && SuccClosed(n, X) && C in X && Dfas.Over(w, n.alphabet)
    ensures Reach(n, C, w) in X
    decreases |w|
  {
    if w != [] {
      Dfas.OverCons(w, n.alphabet);
      ReachStaysIn(n, X, Succ(n, C, w[0]), w[1..]);
    }
  }

  /** Every row of tm is the complete row of moves of its key. */
  ghost predicate RowsCorrect<Q(!new), A(!new)>(n: Nfa<Q, A>, tm: map<set<Q>, map<A, set<Q>>>)
    requires Valid(n)
  {
    forall S :: S in tm ==> S <= n.states && (forall a {:trigger a in tm[S]} :: a in tm[S] <==> a in n.alphabet)
                            && forall a {:trigger tm[S][a]} :: a in tm[S] ==> tm[S][a] == Succ(n, S, a)
  }

  predicate Distinct<T(==)>(s: seq<T>)
  {
    forall i, j :: 0 <= i < j < |s| ==> s[i] != s[j]
  }

  /** A word over the alphabet extended by a symbol of the alphabet. */
  lemma OverSnoc<A>(w: seq<A>, alphabet: set<A>, a: A)
    requires Dfas.Over(w, alphabet) && a in alphabet
    ensures Dfas.Over(w + [a], alphabet)
  {
  }

  // ---- NFA_to_DFA ------------------------------------------------------------

  /** Every member of X has a recorded word over the alphabet that reaches it. */
  ghost predicate Witnessed<Q(!new), A(!new)>(n: Nfa<Q, A>, X: set<set<Q>>, paths: map<set<Q>, seq<A>>)
    requires Valid(n)
  {
    (forall S :: S in X ==> S in paths)
    && forall S {:trigger paths[S]} :: S in X ==> Dfas.Over(paths[S], n.alphabet) && Reach(n, StartSet(n), paths[S]) == S
  }

  /** Growth of the marked sets and the queue from (`states0`, `queue0`): every
    * marked set is a witnessed subset of the NFA's states, and the queue gained
    * exactly the newly marked sets, without repetition. */
  ghost predicate Grown<Q(!new), A(!new)>(n: Nfa<Q, A>, states0: set<set<Q>>, queue0: seq<set<Q>>,
                                         states: set<set<Q>>, queue: seq<set<Q>>, paths: map<set<Q>, seq<A>>)
    requires Valid(n)
  {
    && states0 <= states && Inside(n, states) && Witnessed(n, states, paths)
    && (forall S :: S in queue <==> S in queue0 || S in states - states0)
    && Distinct(queue) && (forall S :: S in queue ==> S in states) && (states == states0 ==> queue == queue0)
  }

  /** The inner loop over the alphabet (lines 25-33): the row of `state`
    * holds its move on every symbol, and every target not seen before is
    * marked and queued. */
  method RecordMoves<Q(!new), A(!new)>(n: Nfa<Q, A>, state: set<Q>, states: set<set<Q>>, queue: seq<set<Q>>,
                                       ghost paths: map<set<Q>, seq<A>>)
    returns (states': set<set<Q>>, queue': seq<set<Q>>, row: map<A, set<Q>>, ghost paths': map<set<Q>, seq<A>>)
    requires Valid(n) && state in states && Inside(n, states) && Witnessed(n, states, paths)
    requires Distinct(queue) && forall S :: S in queue ==> S in states
    ensures Grown(n, states, queue, states', queue', paths')
    ensures forall a :: a in n.alphabet ==> Succ(n, state, a) in states'
    ensures forall a :: a in row <==> a in n.alphabet
    ensures forall a :: a in row ==> row[a] == Succ(n, state, a)
  {
    states', queue', paths' := states, queue, paths;
    row := map[];
    var symbols := n.alphabet;
    while symbols != {}
      invariant symbols <= n.alphabet
      invariant Grown(n, states, queue, states', queue', paths')
      invariant forall a :: a in row <==> a in n.alphabet - symbols
      invariant forall a :: a in row ==> row[a] == Succ(n, state, a)
      invariant forall a :: a in row ==> row[a] in states'
      decreases symbols
    {
      var a :| a in symbols;
      symbols := symbols - {a};
      var next;
      next, states', queue', paths' := MarkTarget(n, state, a, states, queue, states', queue', paths');
      row := row[a := next];
    }
  }

  /** One symbol of the inner loop (lines 26-33): simulate the NFA on that
    * symbol from `state`, and mark and queue the target if it is new. */
  method MarkTarget<Q(!new), A(!new)>(n: Nfa<Q, A>, state: set<Q>, a: A, ghost states0: set<set<Q>>, ghost queue0: seq<set<Q>>,
                                      states: set<set<Q>>, queue: seq<set<Q>>, ghost paths: map<set<Q>, seq<A>>)
    returns (next: set<Q>, states': set<set<Q>>, queue': seq<set<Q>>, ghost paths': map<set<Q>, seq<A>>)
    requires Valid(n) && state in states0 && a in n.alphabet && Grown(n, states0, queue0, states, queue, paths)
    ensures next == Succ(n, state, a) && next in states' && states <= states'
    ensures Grown(n, states0, queue0, states', queue', paths')
  {
    var sim := Simulate(n, [a], Some(state));
    SimulateOneSymbol(n, state, a);
    next := sim.value;
    paths' := paths;
    if next !in states {
      WitnessNext(n, states, paths, state, a);
      paths' := paths[next := paths[state] + [a]];
    }
    states', queue' := Discover(states0, queue0, states, queue, next);
  }

  /** Lines 31-33: a target not seen before is marked and queued.  The
    * contract also carries the relation to the sets and queue (`states0`,
    * `queue0`) the symbol loop started from. */
  method Discover<T(==)>(ghost states0: set<T>, ghost queue0: seq<T>, states: set<T>, queue: seq<T>, next: T)
    returns (states': set<T>, queue': seq<T>)
    requires states0 <= states && forall S :: S in queue <==> S in queue0 || S in states - states0
    requires Distinct(queue) && (forall S :: S in queue ==> S in states) && (states == states0 ==> queue == queue0)
    ensures states' == states + {next}
    ensures queue' == if next in states then queue else queue + [next]
    ensures states0 <= states' && forall S :: S in queue' <==> S in queue0 || S in states' - states0
    ensures Distinct(queue') && (forall S :: S in queue' ==> S in states') && (states' == states0 ==> queue' == queue0)
  {
    states', queue' := states, queue;
    if next !in states {
      states' := states + {next};
      queue' := queue + [next];
    }
  }

  lemma WitnessNext<Q(!new), A(!new)>(n: Nfa<Q, A>, X: set<set<Q>>, paths: map<set<Q>, seq<A>>, state: set<Q>, a: A)
    requires Valid(n) && state in X && a in n.alphabet && Inside(n, X) && Witnessed(n, X, paths)
    ensures Witnessed(n, X + {Succ(n, state, a)}, paths[Succ(n, state, a) := paths[state] + [a]])
  {
    ReachSnoc(n, StartSet(n), paths[state], a);
    OverSnoc(paths[state], n.alphabet, a);
  }

  /** The invariant of the worklist loop: the marked sets are witnessed
    * ε-closed subsets, the queue holds marked sets without repetition, every
    * marked set off the queue has all its moves marked, and the table holds a
    * correct row for exactly the marked sets off the queue. */
  ghost predicate Frontier<Q(!new), A(!new)>(n: Nfa<Q, A>, states: set<set<Q>>, queue: seq<set<Q>>,
                                            tm: map<set<Q>, map<A, set<Q>>>, paths: map<set<Q>, seq<A>>)
    requires Valid(n)
  {
    && Inside(n, states) && Witnessed(n, states, paths)
    && Distinct(queue) && (forall S :: S in queue ==> S in states)
    && (forall S, a {:trigger Succ(n, S, a)} :: S in states && S !in queue && a in n.alphabet ==> Succ(n, S, a) in states)
    && RowsCorrect(n, tm) && forall S :: S in tm <==> S in states && S !in queue && n.alphabet != {}
  }

  /** The flood fill of lines 18-33, from the frozen start set. */
  method Explore<Q(!new), A(!new)>(n: Nfa<Q, A>, start: set<Q>) returns (states: set<set<Q>>, tm: map<set<Q>, map<A, set<Q>>>)
    requires Valid(n) && start == StartSet(n)
    ensures start in states && Inside(n, states) && SuccClosed(n, states)
    ensures forall S :: S in states <==> Reachable(n, S)
    ensures RowsCorrect(n, tm) && forall S :: S in tm <==> S in states && n.alphabet != {}
  {
    states := {start};
    var queue := [start];
    tm := map[];
    ghost var paths: map<set<Q>, seq<A>> := map[start := []];
    ghost var all := Subsets(n.states);
    FrontierInit(n);
    while |queue| > 0
      invariant start in states && states <= all && Frontier(n, states, queue, tm, paths)
      decreases |all - states|, |queue|
    {
      ghost var states0 := states;
      states, queue, tm, paths := ExploreStep(n, states, queue, tm, paths);
      if states != states0 {
        ProperSubsetSmaller(all - states, all - states0);
      }
    }
    FrontierDone(n, states, tm, paths);
  }

  /** The loop starts with the start set marked and queued. */
  lemma FrontierInit<Q(!new), A(!new)>(n: Nfa<Q, A>)
    requires Valid(n)
    ensures Frontier(n, {StartSet(n)}, [StartSet(n)], map[], map[StartSet(n) := []])
  {
    assert Reach(n, StartSet(n), []) == StartSet(n);
  }

  /** Once the queue is empty, the marked sets are the reachable ones and the
    * table holds a correct row for each. */
  lemma FrontierDone<Q(!new), A(!new)>(n: Nfa<Q, A>, states: set<set<Q>>, tm: map<set<Q>, map<A, set<Q>>>,
                                       paths: map<set<Q>, seq<A>>)
    requires Valid(n) && StartSet(n) in states && Frontier(n, states, [], tm, paths)
    ensures Inside(n, states) && SuccClosed(n, states)
    ensures forall S :: S in states <==> Reachable(n, S)
    ensures RowsCorrect(n, tm) && forall S :: S in tm <==> S in states && n.alphabet != {}
  {
    ExploredReachable(n, states, paths);
  }

  /** One round of the worklist loop (lines 23-33): pop a marked set, record
    * its row and mark its new targets. */
  method ExploreStep<Q(!new), A(!new)>(n: Nfa<Q, A>, states: set<set<Q>>, queue: seq<set<Q>>,
                                       tm: map<set<Q>, map<A, set<Q>>>, ghost paths: map<set<Q>, seq<A>>)
    returns (states': set<set<Q>>, queue': seq<set<Q>>, tm': map<set<Q>, map<A, set<Q>>>, ghost paths': map<set<Q>, seq<A>>)
    requires Valid(n) && |queue| > 0 && Frontier(n, states, queue, tm, paths)
    ensures Frontier(n, states', queue', tm', paths') && states <= states' && states' <= Subsets(n.states)
    ensures states' == states ==> |queue'| < |queue|
  {
    var state := queue[|queue| - 1];
    var rest := queue[..|queue| - 1];
    assert queue == rest + [state];
    var row;
    states', queue', row, paths' := RecordMoves(n, state, states, rest, paths);
    tm' := tm;
    if n.alphabet != {} {
      tm' := tm[state := row];
      RowsStep(n, tm, state, row);
    }
    KeysStep(tm, tm', states, states', rest, queue', state, n.alphabet != {});
    DoneStep(n, states, states', rest, queue', state);
  }

  /** Popping `state` and storing its row keeps the table's keys the marked,
    * dequeued sets. */
  lemma KeysStep<K(!new), V>(tm: map<K, V>, tm': map<K, V>, states: set<K>, states': set<K>,
                             queue: seq<K>, queue': seq<K>, state: K, b: bool)
    requires Distinct(queue + [state]) && state in states
    requires forall S :: S in tm <==> S in states && S !in queue + [state] && b
    requires states <= states' && forall S :: S in queue' <==> S in queue || S in states' - states
    requires forall S :: S in tm' <==> S in tm || (S == state && b)
    ensures forall S :: S in tm' <==> S in states' && S !in queue' && b
  {
    forall i | 0 <= i < |queue| ensures queue[i] != state {
      assert (queue + [state])[i] == queue[i] && (queue + [state])[|queue|] == state;
    }
  }

  /** After the row of `state` is recorded, every marked set off the queue has
    * all its moves marked. */
  lemma DoneStep<Q(!new), A(!new)>(n: Nfa<Q, A>, states: set<set<Q>>, states': set<set<Q>>,
                                   queue: seq<set<Q>>, queue': seq<set<Q>>, state: set<Q>)
    requires Valid(n) && Inside(n, states) && Inside(n, states') && states <= states' && state in states
    requires forall S, a {:trigger Succ(n, S, a)} :: S in states && S !in queue + [state] && a in n.alphabet ==> Succ(n, S, a) in states
    requires forall a :: a in n.alphabet ==> Succ(n, state, a) in states'
    requires forall S :: S in queue' <==> S in queue || S in states' - states
    ensures forall S, a {:trigger Succ(n, S, a)} :: S in states' && S !in queue' && a in n.alphabet ==> Succ(n, S, a) in states'
  {
  }

  /** Storing a correct row keeps every stored row correct. */
  lemma RowsStep<Q(!new), A(!new)>(n: Nfa<Q, A>, tm: map<set<Q>, map<A, set<Q>>>, state: set<Q>, row: map<A, set<Q>>)
    requires Valid(n) && RowsCorrect(n, tm) && state <= n.states
    requires forall a :: a in row <==> a in n.alphabet
    requires forall a :: a in row ==> row[a] == Succ(n, state, a)
    ensures RowsCorrect(n, tm[state := row])
  {
  }

  lemma ExploredReachable<Q(!new), A(!new)>(n: Nfa<Q, A>, X: set<set<Q>>, paths: map<set<Q>, seq<A>>)
    requires Valid(n) && StartSet(n) in X && Inside(n, X) && SuccClosed(n, X) && Witnessed(n, X, paths)
    ensures forall S :: S in X <==> Reachable(n, S)
  {
    forall S | S in X ensures Reachable(n, S) {
      assert Dfas.Over(paths[S], n.alphabet) && Reach(n, StartSet(n), paths[S]) == S;
    }
    forall S | Reachable(n, S) ensures S in X {
      var w :| Dfas.Over(w, n.alphabet) && Reach(n, StartSet(n), w) == S;
      ReachStaysIn(n, X, StartSet(n), w);
    }
  }

  /** Every subset of s. */
  function Subsets<Q(!new)>(s: set<Q>): (r: set<set<Q>>)
    ensures forall t {:trigger t in r} :: t in r <==> t <= s
  {
    set t: set<Q> | t <= s
  }

  /** The sets of a family that meet the NFA's accept states (line 35,58). */
  function AcceptSets<Q(!new), A(!new)>(n: Nfa<Q, A>, X: set<set<Q>>): (acc: set<set<Q>>)
    ensures forall S :: S in acc <==> S in X && S * n.accept != {}
  {
    set S | S in X && S * n.accept != {}
  }

  /** NFA_to_DFA: the discovered sets become the named states of the DFA, the
    * recorded moves its transitions, and the sets meeting the NFA's accept
    * states its accept states.  The DFA's test agrees with the NFA's on every
    * word over the alphabet; an NFA with an empty alphabet records no row, so
    * the start set is missing from the transition map. */
  method NfaToDfa<Q(!new), A(!new)>(n: Nfa<Q, A>) returns (r: Result<SubsetDfa<Q, A>, Dfas.DfaError>)
    requires Valid(n)
    ensures r.Success? <==> n.alphabet != {}
    ensures r.Failure? ==> r.error == Dfas.StartNotInStates
    ensures r.Success? ==> Dfas.Valid(r.value) && r.value.alphabet == n.alphabet
                           && r.value.start == Dfas.Named(StartSet(n))
    ensures r.Success? ==> forall S {:trigger Dfas.Named(S) in r.value.states} :: Dfas.Named(S) in r.value.states <==> Reachable(n, S)
    ensures r.Success? ==> forall S {:trigger Dfas.Named(S) in r.value.accept} :: Dfas.Named(S) in r.value.accept <==> Reachable(n, S) && S * n.accept != {}
    ensures r.Success? ==> forall w :: Dfas.Over(w, n.alphabet) ==> Dfas.TestResult(r.value, w) == Success(Lang(n, w))
  {
    var closure := EpsilonClosure(n, {n.start});
    var start := closure.value;
    var states, tm := Explore(n, start);
    var acc := AcceptSets(n, states);
    r := Dfas.FromTransitionMap(tm, start, acc);
    if n.alphabet == {} {
      EmptyTableFails(tm, start, acc);
    } else {
      SubsetDfaShape(n, states, tm, acc);
      forall w | Dfas.Over(w, n.alphabet) ensures Dfas.TestResult(r.value, w) == Success(Lang(n, w)) {
        SubsetDfaTest(n, states, tm, acc, w);
      }
    }
  }

  // ---- Transition maps closed over their keys ---------------------------------

  /** Every row of tm holds exactly the alphabet and leads to a key of tm. */
  ghost predicate TableClosed<K(!new), A(!new)>(tm: map<K, map<A, K>>, alphabet: set<A>)
  {
    forall S :: S in tm ==> (forall a {:trigger a in tm[S]} :: a in tm[S] <==> a in alphabet)
                            && forall a {:trigger tm[S][a]} :: a in tm[S] ==> tm[S][a] in tm
  }

  /** The key reached from S by following the rows of tm along w. */
  function TRun<K(!new), A(!new)>(tm: map<K, map<A, K>>, alphabet: set<A>, S: K, w: seq<A>): (r: K)
    requires TableClosed(tm, alphabet) && S in tm && Dfas.Over(w, alphabet)
    ensures r in tm
    decreases |w|
  {
    if w == [] then S
    else
      Dfas.OverCons(w, alphabet);
      TRun(tm, alphabet, tm[S][w[0]], w[1..])
  }

  /** The DFA that from_transition_map builds from a closed table: its named
    * states are the keys, Dead is its only other state, and from each key it
    * follows the rows. */
  lemma TableDfa<K(!new), A(!new)>(tm: map<K, map<A, K>>, alphabet: set<A>, start: K, acc: set<K>)
    requires TableClosed(tm, alphabet) && alphabet != {} && start in tm && forall f :: f in acc ==> f in tm
    ensures Dfas.FromTransitionMap(tm, start, acc).Success?
    ensures var d := Dfas.FromTransitionMap(tm, start, acc).value;
            Dfas.Valid(d) && d.alphabet == alphabet && d.start == Dfas.Named(start) && Dfas.Dead in d.states
  {
    TableMaps(tm, alphabet, start);
    TableSucceeds(tm, alphabet, start, acc);
  }

  /** The named states of that DFA are the keys, and its accepting states the
    * accepting keys. */
  lemma TableDfaNamed<K(!new), A(!new)>(tm: map<K, map<A, K>>, alphabet: set<A>, start: K, acc: set<K>)
    requires TableClosed(tm, alphabet) && alphabet != {} && start in tm && forall f :: f in acc ==> f in tm
    ensures Dfas.FromTransitionMap(tm, start, acc).Success?
    ensures forall S {:trigger Dfas.Named(S) in Dfas.FromTransitionMap(tm, start, acc).value.states} ::
              Dfas.Named(S) in Dfas.FromTransitionMap(tm, start, acc).value.states <==> S in tm
    ensures forall S {:trigger Dfas.Named(S) in Dfas.FromTransitionMap(tm, start, acc).value.accept} ::
              Dfas.Named(S) in Dfas.FromTransitionMap(tm, start, acc).value.accept <==> S in acc
  {
    TableMaps(tm, alphabet, start);
    TableSucceeds(tm, alphabet, start, acc);
    TableStates(tm, alphabet, start, acc);
  }

  /** The named states of that DFA are the keys. */
  lemma TableStates<K(!new), A(!new)>(tm: map<K, map<A, K>>, alphabet: set<A>, start: K, acc: set<K>)
    requires forall S {:trigger Dfas.Named(S) in Dfas.MapStates(tm)} :: Dfas.Named(S) in Dfas.MapStates(tm) <==> S in tm
    requires Dfas.FromTransitionMap(tm, start, acc).Success?
    ensures forall S {:trigger Dfas.Named(S) in Dfas.FromTransitionMap(tm, start, acc).value.states} ::
              Dfas.Named(S) in Dfas.FromTransitionMap(tm, start, acc).value.states <==> S in tm
  {
  }

  /** from_transition_map accepts a closed table with a key. */
  lemma TableSucceeds<K(!new), A(!new)>(tm: map<K, map<A, K>>, alphabet: set<A>, start: K, acc: set<K>)
    requires Dfas.MapAlphabet(tm) == alphabet && alphabet != {}
    requires forall S {:trigger Dfas.Named(S) in Dfas.MapStates(tm)} :: Dfas.Named(S) in Dfas.MapStates(tm) <==> S in tm
    requires start in tm && forall f :: f in acc ==> f in tm
    ensures Dfas.FromTransitionMap(tm, start, acc).Success?
  {
  }

  /** From each key the DFA of a closed table follows the rows. */
  lemma TableDfaRuns<K(!new), A(!new)>(tm: map<K, map<A, K>>, alphabet: set<A>, start: K, acc: set<K>, S: K, w: seq<A>)
    requires TableClosed(tm, alphabet) && alphabet != {} && start in tm && forall f :: f in acc ==> f in tm
    requires S in tm && Dfas.Over(w, alphabet)
    ensures Dfas.FromTransitionMap(tm, start, acc).Success?
    ensures Dfas.Run(Dfas.FromTransitionMap(tm, start, acc).value, Dfas.Named(S), w) == Success(Dfas.Named(TRun(tm, alphabet, S, w)))
  {
    TableDfa(tm, alphabet, start, acc);
    TableDfaNamed(tm, alphabet, start, acc);
    TableRuns(tm, Dfas.FromTransitionMap(tm, start, acc).value, S, w);
  }

  /** The named states and the symbols of a closed table with a key. */
  lemma TableMaps<K(!new), A(!new)>(tm: map<K, map<A, K>>, alphabet: set<A>, start: K)
    requires TableClosed(tm, alphabet) && start in tm
    ensures Dfas.MapAlphabet(tm) == alphabet
    ensures forall S {:trigger Dfas.Named(S) in Dfas.MapStates(tm)} :: Dfas.Named(S) in Dfas.MapStates(tm) <==> S in tm
    ensures Dfas.Dead !in Dfas.MapStates(tm)
  {
    forall a | a in alphabet ensures a in Dfas.MapAlphabet(tm) {
      assert a in tm[start];
    }
    forall k, a | k in tm && a in tm[k] ensures tm[k][a] in tm {
    }
  }

  lemma {:induction false} TableRuns<K(!new), A(!new)>(tm: map<K, map<A, K>>, d: Dfas.Dfa<Dfas.DState<K>, A>, S: K, w: seq<A>)
    requires Dfas.Valid(d) && TableClosed(tm, d.alphabet)
    requires forall T :: T in tm ==> Dfas.Named(T) in d.states
    requires forall q, a :: q in d.states && a in d.alphabet ==> Dfas.Step(d, q, a) == Success(Dfas.MapMove(tm, q, a))
    requires S in tm && Dfas.Over(w, d.alphabet)
    ensures Dfas.Run(d, Dfas.Named(S), w) == Success(Dfas.Named(TRun(tm, d.alphabet, S, w)))
    decreases |w|
  {
    if w != [] {
      Dfas.OverCons(w, d.alphabet);
      TableRuns(tm, d, tm[S][w[0]], w[1..]);
    }
  }

  // ---- The DFA built from the explored sets ------------------------------------

  /** Rows of moves over a family closed under the moves form a closed table. */
  lemma RowsClosed<Q(!new), A(!new)>(n: Nfa<Q, A>, X: set<set<Q>>, tm: map<set<Q>, map<A, set<Q>>>)
    requires Valid(n) && Inside(n, X) && SuccClosed(n, X) && RowsCorrect(n, tm) && forall S :: S in tm <==> S in X
    ensures TableClosed(tm, n.alphabet)
  {
    forall S, a | S in tm && a in tm[S] ensures tm[S][a] in tm {
      assert Succ(n, S, a) in X;
    }
  }

  /** Following rows of moves is reading the word with the NFA. */
  lemma {:induction false} TRunReach<Q(!new), A(!new)>(n: Nfa<Q, A>, tm: map<set<Q>, map<A, set<Q>>>, S: set<Q>, w: seq<A>)
    requires Valid(n) && TableClosed(tm, n.alphabet) && RowsCorrect(n, tm) && S in tm && Dfas.Over(w, n.alphabet)
    ensures TRun(tm, n.alphabet, S, w) == Reach(n, S, w)
    decreases |w|
  {
    if w != [] {
      Dfas.OverCons(w, n.alphabet);
      TRunReach(n, tm, tm[S][w[0]], w[1..]);
    }
  }

  /** A table without rows names no state, so the start is missing. */
  lemma EmptyTableFails<K(!new), A(!new)>(tm: map<K, map<A, K>>, start: K, acc: set<K>)
    requires forall S :: S !in tm
    ensures Dfas.FromTransitionMap(tm, start, acc) == Failure(Dfas.StartNotInStates)
  {
    assert tm == map[];
  }

  /** The states, symbols, start and accept states of the DFA built from the
    * rows of the explored family X. */
  lemma SubsetDfaShape<Q(!new), A(!new)>(n: Nfa<Q, A>, X: set<set<Q>>, tm: map<set<Q>, map<A, set<Q>>>, acc: set<set<Q>>)
    requires Valid(n) && n.alphabet != {} && StartSet(n) in X && Inside(n, X) && SuccClosed(n, X)
    requires forall S :: S in X <==> Reachable(n, S)
    requires RowsCorrect(n, tm) && (forall S :: S in tm <==> S in X)
    requires acc == AcceptSets(n, X)
    ensures Dfas.FromTransitionMap(tm, StartSet(n), acc).Success?
    ensures var d := Dfas.FromTransitionMap(tm, StartSet(n), acc).value;
            Dfas.Valid(d) && d.alphabet == n.alphabet && d.start == Dfas.Named(StartSet(n))
            && (forall S {:trigger Dfas.Named(S) in d.states} :: Dfas.Named(S) in d.states <==> Reachable(n, S))
            && (forall S {:trigger Dfas.Named(S) in d.accept} :: Dfas.Named(S) in d.accept <==> Reachable(n, S) && S * n.accept != {})
  {
    RowsClosed(n, X, tm);
    TableDfa(tm, n.alphabet, StartSet(n), acc);
    TableDfaNamed(tm, n.alphabet, StartSet(n), acc);
  }

  /** The DFA built from the rows of the explored family agrees with the NFA
    * on every word over the alphabet. */
  lemma SubsetDfaTest<Q(!new), A(!new)>(n: Nfa<Q, A>, X: set<set<Q>>, tm: map<set<Q>, map<A, set<Q>>>,
                                        acc: set<set<Q>>, w: seq<A>)
    requires Valid(n) && n.alphabet != {} && StartSet(n) in X && Inside(n, X) && SuccClosed(n, X)
    requires RowsCorrect(n, tm) && (forall S :: S in tm <==> S in X)
    requires acc == AcceptSets(n, X) && Dfas.Over(w, n.alphabet)
    ensures Dfas.FromTransitionMap(tm, StartSet(n), acc).Success?
    ensures Dfas.TestResult(Dfas.FromTransitionMap(tm, StartSet(n), acc).value, w) == Success(Lang(n, w))
  {
    RowsClosed(n, X, tm);
    TableDfa(tm, n.alphabet, StartSet(n), acc);
    TableDfaNamed(tm, n.alphabet, StartSet(n), acc);
    TableDfaRuns(tm, n.alphabet, StartSet(n), acc, StartSet(n), w);
    TRunReach(n, tm, StartSet(n), w);
    ReachAcc(n, StartSet(n), w);
  }

  // ---- NFA_to_DFA_complete ---------------------------------------------------

  /** The move of simulate([a], S) from any set S: S is closed first. */
  function SubsetMove<Q(!new), A(!new)>(n: Nfa<Q, A>, S: set<Q>, a: A): (r: set<Q>)
    requires Valid(n) && S <= n.states
    ensures r <= n.states && EpsClosed(n, r)
  {
    Succ(n, EClose(n, S), a)
  }

  /** From an ε-closed set the move is Succ. */
  lemma SubsetMoveOfClosed<Q(!new), A(!new)>(n: Nfa<Q, A>, S: set<Q>, a: A)
    requires Valid(n) && S <= n.states && EpsClosed(n, S)
    ensures SubsetMove(n, S, a) == Succ(n, S, a)
  {
    ECloseOfClosed(n, S);
  }

  /** The transition map of lines 52-56 over the family P. */
  function CompleteMap<Q(!new), A(!new)>(n: Nfa<Q, A>, P: set<set<Q>>): (tm: map<set<Q>, map<A, set<Q>>>)
    requires Valid(n) && forall S :: S in P ==> S <= n.states
    ensures forall S :: S in tm <==> S in P
    ensures RowsWithin(n, tm)
  {
    map S | S in P :: map a | a in n.alphabet :: SubsetMove(n, S, a)
  }

  /** Every row of tm holds exactly the alphabet and leads to subsets of the
    * NFA's states. */
  ghost predicate RowsWithin<Q(!new), A(!new)>(n: Nfa<Q, A>, tm: map<set<Q>, map<A, set<Q>>>)
  {
    forall S :: S in tm ==> (forall a {:trigger a in tm[S]} :: a in tm[S] <==> a in n.alphabet)
                            && forall a {:trigger tm[S][a]} :: a in tm[S] ==> tm[S][a] <= n.states
  }

  /** Each entry of the complete map is the move of its row's set. */
  lemma CompleteMapAt<Q(!new), A(!new)>(n: Nfa<Q, A>, P: set<set<Q>>, S: set<Q>, a: A)
    requires Valid(n) && (forall S :: S in P ==> S <= n.states) && S in P && a in n.alphabet
    ensures S in CompleteMap(n, P) && a in CompleteMap(n, P)[S]
    ensures CompleteMap(n, P)[S][a] == SubsetMove(n, S, a)
  {
  }

  /** NFA_to_DFA_complete over the family P of sets. */
  function CompleteOver<Q(!new), A(!new)>(n: Nfa<Q, A>, P: set<set<Q>>): Result<SubsetDfa<Q, A>, Dfas.DfaError>
    requires Valid(n) && forall S :: S in P ==> S <= n.states
  {
    Dfas.FromTransitionMap(CompleteMap(n, P), StartSet(n), AcceptSets(n, P))
  }

  /** The states of the complete construction: every subset of the NFA's states. */
  function Complete<Q(!new), A(!new)>(n: Nfa<Q, A>): Result<SubsetDfa<Q, A>, Dfas.DfaError>
    requires Valid(n)
  {
    CompleteOver(n, Subsets(n.states))
  }

  /** The complete map over all subsets is a closed table. */
  lemma CompleteClosed<Q(!new), A(!new)>(n: Nfa<Q, A>)
    requires Valid(n)
    ensures TableClosed(CompleteMap(n, Subsets(n.states)), n.alphabet)
  {
  }

  /** Following the complete map from an ε-closed set is reading the word with the NFA. */
  lemma {:induction false} CompleteReach<Q(!new), A(!new)>(n: Nfa<Q, A>, S: set<Q>, w: seq<A>)
    requires Valid(n) && S <= n.states && EpsClosed(n, S) && Dfas.Over(w, n.alphabet)
    requires TableClosed(CompleteMap(n, Subsets(n.states)), n.alphabet)
    ensures TRun(CompleteMap(n, Subsets(n.states)), n.alphabet, S, w) == Reach(n, S, w)
    decreases |w|
  {
    if w != [] {
      var tm := CompleteMap(n, Subsets(n.states));
      Dfas.OverCons(w, n.alphabet);
      CompleteMapAt(n, Subsets(n.states), S, w[0]);
      SubsetMoveOfClosed(n, S, w[0]);
      CompleteReach(n, Succ(n, S, w[0]), w[1..]);
    }
  }

  /** Over an empty alphabet the rows are empty and the construction fails. */
  lemma CompleteEmptyAlphabet<Q(!new), A(!new)>(n: Nfa<Q, A>)
    requires Valid(n) && n.alphabet == {}
    ensures Complete(n) == Failure(Dfas.EmptyAlphabet)
  {
    var tm := CompleteMap(n, Subsets(n.states));
    assert Dfas.MapAlphabet(tm) == {};
    assert Dfas.Named(StartSet(n)) in Dfas.MapStates(tm);
  }

  /** Over a non-empty alphabet the complete construction succeeds, over the
    * NFA's alphabet and from the start set. */
  lemma CompleteShape<Q(!new), A(!new)>(n: Nfa<Q, A>)
    requires Valid(n) && n.alphabet != {}
    ensures Complete(n).Success?
    ensures var d := Complete(n).value;
            Dfas.Valid(d) && d.alphabet == n.alphabet && d.start == Dfas.Named(StartSet(n))
  {
    var P := Subsets(n.states);
    var tm := CompleteMap(n, P);
    CompleteTableShape(n, P, tm);
    assert Complete(n) == Dfas.FromTransitionMap(tm, StartSet(n), AcceptSets(n, P));
  }

  lemma CompleteTableShape<Q(!new), A(!new)>(n: Nfa<Q, A>, P: set<set<Q>>, tm: map<set<Q>, map<A, set<Q>>>)
    requires Valid(n) && n.alphabet != {}
    requires RowsWithin(n, tm)
    requires (forall S :: S in P <==> S <= n.states) && forall S :: S in tm <==> S in P
    ensures Dfas.FromTransitionMap(tm, StartSet(n), AcceptSets(n, P)).Success?
    ensures var d := Dfas.FromTransitionMap(tm, StartSet(n), AcceptSets(n, P)).value;
            Dfas.Valid(d) && d.alphabet == n.alphabet && d.start == Dfas.Named(StartSet(n))
            && (forall S {:trigger Dfas.Named(S) in d.states} :: Dfas.Named(S) in d.states <==> S <= n.states)
            && (forall S {:trigger Dfas.Named(S) in d.accept} :: Dfas.Named(S) in d.accept <==> S <= n.states && S * n.accept != {})
  {
    assert TableClosed(tm, n.alphabet);
    TableDfa(tm, n.alphabet, StartSet(n), AcceptSets(n, P));
    TableDfaNamed(tm, n.alphabet, StartSet(n), AcceptSets(n, P));
  }

  /** From every ε-closed subset the complete DFA reads a word over the
    * alphabet into the named set the NFA reaches. */
  lemma CompleteRuns<Q(!new), A(!new)>(n: Nfa<Q, A>, S: set<Q>, w: seq<A>)
    requires Valid(n) && n.alphabet != {} && S <= n.states && EpsClosed(n, S) && Dfas.Over(w, n.alphabet)
    ensures Complete(n).Success?
    ensures Dfas.Run(Complete(n).value, Dfas.Named(S), w) == Success(Dfas.Named(Reach(n, S, w)))
  {
    CompleteClosed(n);
    TableDfaRuns(CompleteMap(n, Subsets(n.states)), n.alphabet, StartSet(n), AcceptSets(n, Subsets(n.states)), S, w);
    CompleteReach(n, S, w);
  }

  /** The complete DFA agrees with the NFA on every word over the alphabet. */
  lemma CompleteTest<Q(!new), A(!new)>(n: Nfa<Q, A>, w: seq<A>)
    requires Valid(n) && n.alphabet != {} && Dfas.Over(w, n.alphabet)
    ensures Complete(n).Success?
    ensures Dfas.TestResult(Complete(n).value, w) == Success(Lang(n, w))
  {
    CompleteShape(n);
    CompleteRuns(n, StartSet(n), w);
    ReachAcc(n, StartSet(n), w);
  }

  // ---- The two defects ---------------------------------------------------------

  /** The powerset as written: r ranges over 0 .. |states| - 1, so the full set
    * of states is left out. */
  function SubsetsAsWritten<Q(!new)>(s: set<Q>): (r: set<set<Q>>)
    ensures forall t {:trigger t in r} :: t in r <==> t <= s && |t| < |s|
  {
    set t: set<Q> | t <= s && |t| < |s|
  }

  /** The construction with only the simulate defect repaired: the powerset as
    * written, each entry the intended move. */
  function CompleteOverPowersetAsWritten<Q(!new), A(!new)>(n: Nfa<Q, A>): Result<SubsetDfa<Q, A>, Dfas.DfaError>
    requires Valid(n)
  {
    CompleteOver(n, SubsetsAsWritten(n.states))
  }

  /** Why NFA_to_DFA_complete raises as written: simulate raises while the map
    * is built, or from_transition_map rejects the finished map. */
  datatype CompleteError = SimulateRaised(nfaError: NfaError) | BuildRaised(dfaError: Dfas.DfaError)

  /** The map of lines 52-56 as written: each entry is simulate([a], S) as
    * written, and the comprehension raises at the first entry that raises;
    * which one the iteration over the sets reaches first is left open. */
  ghost function CompleteMapAsWritten<Q(!new), A(!new)>(n: Nfa<Q, A>, P: set<set<Q>>)
    : Result<map<set<Q>, map<A, set<Q>>>, NfaError>
    requires Valid(n) && forall S :: S in P ==> S <= n.states
  {
    if exists S, a :: S in P && a in n.alphabet && MoveAsWritten(n, S, a).Failure? then
      var S, a :| S in P && a in n.alphabet && MoveAsWritten(n, S, a).Failure?;
      Failure(MoveAsWritten(n, S, a).error)
    else Success(CompleteMap(n, P))
  }

  /** NFA_to_DFA_complete as written (lines 41-60): the powerset without the
    * full set, and simulate as written for every entry. */
  ghost function CompleteAsWritten<Q(!new), A(!new)>(n: Nfa<Q, A>): Result<SubsetDfa<Q, A>, CompleteError>
    requires Valid(n)
  {
    var P := SubsetsAsWritten(n.states);
    match CompleteMapAsWritten(n, P)
    case Failure(e) => Failure(SimulateRaised(e))
    case Success(tm) =>
      match Dfas.FromTransitionMap(tm, StartSet(n), AcceptSets(n, P))
      case Failure(e) => Failure(BuildRaised(e))
      case Success(d) => Success(d)
  }

  /** simulate([a], S) as written, for a symbol of the alphabet, raises exactly
    * on the empty set and otherwise gives the intended move. */
  lemma MoveAsWrittenExact<Q(!new), A(!new)>(n: Nfa<Q, A>, S: set<Q>, a: A)
    requires Valid(n) && S <= n.states && a in n.alphabet
    ensures MoveAsWritten(n, S, a) == if S == {} then Failure(EmptyUnion) else Success(SubsetMove(n, S, a))
  {
    var C := EClose(n, S);
    if S == {} {
      ECloseEmpty(n);
    } else {
      assert C != {};
      assert SimStepAsWritten(n, C, a) == Success(SubsetMove(n, S, a));
      assert [a][1..] == [];
      assert RunFromAsWritten(n, C, [a]) == RunFromAsWritten(n, SubsetMove(n, S, a), []);
    }
  }

  /** As written, NFA_to_DFA_complete raises on every automaton with a symbol:
    * the powerset always holds the empty set, on which simulate raises. */
  lemma CompleteAsWrittenRaises<Q(!new), A(!new)>(n: Nfa<Q, A>)
    requires Valid(n) && n.alphabet != {}
    ensures CompleteAsWritten(n) == Failure(SimulateRaised(EmptyUnion))
  {
    var P := SubsetsAsWritten(n.states);
    assert n.start in n.states;
    assert {} in P;
    var a :| a in n.alphabet;
    MoveAsWrittenExact(n, {}, a);
    forall S, b | S in P && b in n.alphabet && MoveAsWritten(n, S, b).Failure?
      ensures MoveAsWritten(n, S, b).error == EmptyUnion
    {
      MoveAsWrittenExact(n, S, b);
    }
  }

  /** The one-state automaton looping on 0.  As written the construction
    * raises at the empty set; with that repaired it still fails, since the
    * start set {0} is the full set, which the powerset as written leaves out:
    * the map has no row or target for it.  The complete construction succeeds. */
  lemma PowersetAsWrittenMissesStart()
    ensures Valid(Nfa({0}, {0}, map[(0, Sym(0)) := {0}], 0, {0}))
    ensures CompleteAsWritten(Nfa({0}, {0}, map[(0, Sym(0)) := {0}], 0, {0})) == Failure(SimulateRaised(EmptyUnion))
    ensures StartSet(Nfa({0}, {0}, map[(0, Sym(0)) := {0}], 0, {0}))
        !in SubsetsAsWritten(Nfa({0}, {0}, map[(0, Sym(0)) := {0}], 0, {0}).states)
    ensures CompleteOverPowersetAsWritten(Nfa({0}, {0}, map[(0, Sym(0)) := {0}], 0, {0})) == Failure(Dfas.StartNotInStates)
  {
    var n: Nfa<int, int> := Nfa({0}, {0}, map[(0, Sym(0)) := {0}], 0, {0});
    CompleteAsWrittenRaises(n);
    OverPowersetMissesStart(n);
  }

  /** The repaired half of the example above: over the powerset as written,
    * which here holds only the empty set, the start set {0} has no row. */
  lemma OverPowersetMissesStart(n: Nfa<int, int>)
    requires n == Nfa({0}, {0}, map[(0, Sym(0)) := {0}], 0, {0})
    ensures Valid(n) && StartSet(n) !in SubsetsAsWritten(n.states)
    ensures CompleteOverPowersetAsWritten(n) == Failure(Dfas.StartNotInStates)
  {
    assert EpsClosed(n, {0});
    ECloseOfClosed(n, {0});
    var P := SubsetsAsWritten(n.states);
    forall t | t in P ensures t == {} {
      assert |t| == 0;
    }
    var tm := CompleteMap(n, P);
    CompleteMapAt(n, P, {}, 0);
    assert EpsClosed(n, {});
    SubsetMoveOfClosed(n, {}, 0);
    SuccEmpty(n, 0);
    NotInMapStates(tm, {0});
    MissingStartFails(tm, StartSet(n), AcceptSets(n, P));
  }

  /** A set that is neither a key nor a target of tm is not among its states. */
  lemma NotInMapStates<K, A>(tm: map<K, map<A, K>>, x: K)
    requires x !in tm && forall k, a :: k in tm && a in tm[k] ==> tm[k][a] != x
    ensures Dfas.Named(x) !in Dfas.MapStates(tm)
  {
  }

  /** from_transition_map raises when the start state is missing. */
  lemma MissingStartFails<K(!new), A>(tm: map<K, map<A, K>>, start: K, acc: set<K>)
    requires Dfas.Named(start) !in Dfas.MapStates(tm)
    ensures Dfas.FromTransitionMap(tm, start, acc) == Failure(Dfas.StartNotInStates)
  {
  }

  /** On the same automaton the complete construction succeeds. */
  lemma PowersetCompleteSucceeds()
    ensures Valid(Nfa({0}, {0}, map[(0, Sym(0)) := {0}], 0, {0}))
    ensures Complete(Nfa({0}, {0}, map[(0, Sym(0)) := {0}], 0, {0})).Success?
  {
    CompleteShape(Nfa({0}, {0}, map[(0, Sym(0)) := {0}], 0, {0}));
  }

  /** simulate([a], C) as written. */
  function MoveAsWritten<Q(!new), A(!new)>(n: Nfa<Q, A>, C: set<Q>, a: A): Result<set<Q>, NfaError>
    requires Valid(n) && C <= n.states
  {
    RunFromAsWritten(n, EClose(n, C), [a])
  }

  /** An automaton without moves: the flood fill reaches the empty set, and as
    * written simulate raises on it, whereas the empty set is meant to be a
    * non-accepting sink. */
  lemma EmptySubsetRaises()
    ensures Valid(Nfa({0}, {0}, map[], 0, {0}))
    ensures Reachable(Nfa({0}, {0}, map[], 0, {0}), {})
    ensures MoveAsWritten(Nfa({0}, {0}, map[], 0, {0}), {}, 0) == Failure(EmptyUnion)
    ensures Succ(Nfa({0}, {0}, map[], 0, {0}), {}, 0) == {}
  {
    var n: Nfa<int, int> := Nfa({0}, {0}, map[], 0, {0});
    assert EpsClosed(n, {0});
    ECloseOfClosed(n, {0});
    ECloseEmpty(n);
    assert Post(n, {0}, 0) == {};
    var w: seq<int> := [0];
    assert w[1..] == [];
    assert Reach(n, StartSet(n), w) == {};
  }
}

/**
 * The older DFA class (src/DFA/dfa.py).  Unlike the newer one it stores the
 * transition function as an explicit nested map, state to symbol to state,
 * and, because the class body defines __post_init__ twice, only the second
 * definition runs: construction checks that the start state is a state and
 * that the accept states are states, and nothing about the map.
 */
module LegacyDfas {
  import opened Wrappers
  import Dfas

  type DState<T> = Dfas.DState<T>

  datatype LegacyDfa<Q, A> = LegacyDfa(states: set<Q>, alphabet: set<A>, transitionMap: map<Q, map<A, Q>>,
                                        start: Q, accept: set<Q>)

  datatype LegacyError =
    | StartNotInStates     // the first assertion of __post_init__
    | AcceptNotInStates    // the second assertion of __post_init__
    | StateNotInStates     // transition_function on an unknown state
    | SymbolNotInAlphabet  // transition_function on an unknown symbol
    | MissingEntry         // the map has no entry for a known state and symbol

  /** The dataclass constructor followed by the __post_init__ that runs. */
  function New<Q, A>(states: set<Q>, alphabet: set<A>, tm: map<Q, map<A, Q>>, start: Q, accept: set<Q>)
    : (r: Result<LegacyDfa<Q, A>, LegacyError>)
    ensures r.Success? <==> start in states && accept <= states
    ensures start !in states ==> r == Failure(StartNotInStates)
    ensures start in states && !(accept <= states) ==> r == Failure(AcceptNotInStates)
    ensures r.Success? ==> r.value == LegacyDfa(states, alphabet, tm, start, accept)
  {
    if start !in states then Failure(StartNotInStates)
    else if !(accept <= states) then Failure(AcceptNotInStates)
    else Success(LegacyDfa(states, alphabet, tm, start, accept))
  }

  /** transition_function: the map's entry, once state and symbol are known. */
  function TransitionFunction<Q, A>(d: LegacyDfa<Q, A>, q: Q, a: A): (r: Result<Q, LegacyError>)
    ensures r.Success? <==> q in d.states && a in d.alphabet && q in d.transitionMap && a in d.transitionMap[q]
    ensures r.Success? ==> r.value == d.transitionMap[q][a]
    ensures q !in d.states ==> r == Failure(StateNotInStates)
    ensures q in d.states && a !in d.alphabet ==> r == Failure(SymbolNotInAlphabet)
  {
    if q !in d.states then Failure(StateNotInStates)
    else if a !in d.alphabet then Failure(SymbolNotInAlphabet)
    else if q !in d.transitionMap || a !in d.transitionMap[q] then Failure(MissingEntry)
    else Success(d.transitionMap[q][a])
  }

  /** The extended transition function: a left fold of transition_function. */
  function Run<Q, A>(d: LegacyDfa<Q, A>, q: Q, w: seq<A>): Result<Q, LegacyError>
    decreases |w|
  {
    if w == [] then Success(q)
    else
      var q' :- TransitionFunction(d, q, w[0]);
      Run(d, q', w[1..])
  }

  /** simulate, from the start state or from a given one. */
  method Simulate<Q, A>(d: LegacyDfa<Q, A>, w: seq<A>, from: Option<Q>) returns (r: Result<Q, LegacyError>)
    ensures r == Run(d, if from.Some? then from.value else d.start, w)
  {
    var q := if from.Some? then from.value else d.start;
    ghost var q0 := q;
    var i := 0;
    while i < |w|
      invariant 0 <= i <= |w|
      invariant Run(d, q0, w) == Run(d, q, w[i..])
    {
      assert w[i..][0] == w[i] && w[i..][1..] == w[i + 1..];
      var step := TransitionFunction(d, q, w[i]);
      if step.Failure? {
        return Failure(step.error);
      }
      q := step.value;
      i := i + 1;
    }
    return Success(q);
  }

  /** test: whether simulation from the start state ends in an accept state. */
  method Test<Q, A>(d: LegacyDfa<Q, A>, w: seq<A>) returns (r: Result<bool, LegacyError>)
    ensures Run(d, d.start, w).Success? ==> r == Success(Run(d, d.start, w).value in d.accept)
    ensures Run(d, d.start, w).Failure? ==> r == Failure(Run(d, d.start, w).error)
  {
    var q := Simulate(d, w, None);
    if q.Failure? {
      return Failure(q.error);
    }
    return Success(q.value in d.accept);
  }

  /** Simulating u + v continues the simulation of u with v. */
  lemma {:induction false} RunAppend<Q, A>(d: LegacyDfa<Q, A>, q: Q, u: seq<A>, v: seq<A>)
    ensures Run(d, q, u + v) == (match Run(d, q, u) case Success(p) => Run(d, p, v) case Failure(e) => Failure(e))
    decreases |u|
  {
    if u != [] {
      assert (u + v)[0] == u[0] && (u + v)[1..] == u[1..] + v;
      if TransitionFunction(d, q, u[0]).Success? {
        RunAppend(d, TransitionFunction(d, q, u[0]).value, u[1..], v);
      }
    } else {
      assert u + v == v;
    }
  }

  /** Every state has an entry for every symbol, and every entry is a state:
    * the property the shadowed first __post_init__ would have checked. */
  ghost predicate Complete<Q, A>(d: LegacyDfa<Q, A>)
  {
    forall q, a | q in d.states && a in d.alphabet ::
      q in d.transitionMap && a in d.transitionMap[q] && d.transitionMap[q][a] in d.states
  }

  /** In a complete DFA the simulation from a state fails exactly when the word
    * leaves the alphabet, and otherwise ends in a state. */
  lemma {:induction false} CompleteRunTotal<Q, A>(d: LegacyDfa<Q, A>, q: Q, w: seq<A>)
    requires Complete(d) && q in d.states
    ensures Run(d, q, w).Success? <==> Dfas.Over(w, d.alphabet)
    ensures Run(d, q, w).Success? ==> Run(d, q, w).value in d.states
    ensures Run(d, q, w).Failure? ==> Run(d, q, w).error == SymbolNotInAlphabet
    decreases |w|
  {
    if w != [] {
      Dfas.OverCons(w, d.alphabet);
      var a := w[0];
      if a in d.alphabet {
        var p := d.transitionMap[q][a];
        assert TransitionFunction(d, q, a) == Success(p);
        assert Run(d, q, w) == Run(d, p, w[1..]);
        CompleteRunTotal(d, p, w[1..]);
      } else {
        assert Run(d, q, w) == Failure(SymbolNotInAlphabet);
      }
    }
  }

  // ---- from_transition_function -------------------------------------------------------

  /** The table from_transition_function builds: every state and symbol, each
    * mapped to the function's value.  A state's row only comes into being when
    * a symbol is written to it, so with an empty alphabet the table is empty. */
  ghost predicate Tabulates<Q, A>(tm: map<Q, map<A, Q>>, states: set<Q>, alphabet: set<A>, f: (Q, A) -> Q)
  {
    tm.Keys == (if alphabet == {} then {} else states)
    && forall q | q in tm :: tm[q].Keys == alphabet && forall a | a in alphabet :: tm[q][a] == f(q, a)
  }

  /** The inner loop: one state's row. */
  method TabulateRow<Q, A>(q: Q, alphabet: set<A>, f: (Q, A) -> Q) returns (row: map<A, Q>)
    ensures row.Keys == alphabet && forall a | a in alphabet :: row[a] == f(q, a)
  {
    row := map[];
    var todo := alphabet;
    while todo != {}
      invariant todo <= alphabet
      invariant row.Keys == alphabet - todo && forall a | a in row :: row[a] == f(q, a)
      decreases todo
    {
      var a :| a in todo;
      row := row[a := f(q, a)];
      todo := todo - {a};
    }
  }

  /** from_transition_function: the function tabulated on states and alphabet,
    * then the constructor's checks. */
  method FromTransitionFunction<Q, A>(states: set<Q>, alphabet: set<A>, f: (Q, A) -> Q, start: Q, accept: set<Q>)
    returns (r: Result<LegacyDfa<Q, A>, LegacyError>)
    ensures r.Success? <==> start in states && accept <= states
    ensures r.Failure? ==> r == New(states, alphabet, map[], start, accept)
    ensures r.Success? ==> r.value.states == states && r.value.alphabet == alphabet && r.value.start == start
                           && r.value.accept == accept && Tabulates(r.value.transitionMap, states, alphabet, f)
  {
    var tm: map<Q, map<A, Q>> := map[];
    var todo := states;
    while todo != {}
      invariant todo <= states
      invariant Tabulates(tm, states - todo, alphabet, f)
      decreases todo
    {
      var q :| q in todo;
      var row := TabulateRow(q, alphabet, f);
      if row != map[] {
        tm := tm[q := row];
      }
      todo := todo - {q};
    }
    r := New(states, alphabet, tm, start, accept);
  }

  /** The tabulated DFA steps exactly as the function does, on every state and
    * symbol it knows, and it is complete when the function stays in the states. */
  lemma TabulatedSteps<Q, A>(d: LegacyDfa<Q, A>, f: (Q, A) -> Q, q: Q, a: A)
    requires Tabulates(d.transitionMap, d.states, d.alphabet, f)
    ensures q in d.states && a in d.alphabet ==> TransitionFunction(d, q, a) == Success(f(q, a))
    ensures (forall p, b :: p in d.states && b in d.alphabet ==> f(p, b) in d.states) ==> Complete(d)
  {
  }

  // ---- from_transition_map ------------------------------------------------------------

  /** Where the map sends a state of the built DFA: the dead state loops; a
    * state with a non-empty row follows it, and goes to the dead state on the
    * symbols the row lacks; every other state (one that appears only as a
    * target, or whose row is empty) loops on itself. */
  function LegacyMove<T, A>(tm: map<T, map<A, T>>, q: DState<T>, a: A): DState<T>
  {
    match q
    case Dead => Dfas.Dead
    case Named(t) =>
      if t in tm && tm[t] != map[] then (if a in tm[t] then Dfas.Named(tm[t][a]) else Dfas.Dead) else q
  }

  /** A row exactly as the first pass copied it from the map. */
  ghost predicate CopiedRow<T, A>(tm: map<T, map<A, T>>, q: DState<T>, row: map<A, DState<T>>)
  {
    q.Named? && q.name in tm && row.Keys == tm[q.name].Keys
    && forall a | a in row :: row[a] == Dfas.Named(tm[q.name][a])
  }

  /** A row as the built DFA holds it: every symbol, each to its LegacyMove. */
  ghost predicate FinalRow<T, A>(tm: map<T, map<A, T>>, alphabet: set<A>, q: DState<T>, row: map<A, DState<T>>)
  {
    row.Keys == alphabet && forall a | a in alphabet :: row[a] == LegacyMove(tm, q, a)
  }

  /** The rows the first pass has copied from the keys in done. */
  ghost predicate Copied<T, A>(tm: map<T, map<A, T>>, done: set<T>, fm: map<DState<T>, map<A, DState<T>>>)
  {
    fm.Keys == (set k | k in done && k in tm && tm[k] != map[] :: Dfas.Named(k))
    && forall q | q in fm :: CopiedRow(tm, q, fm[q])
  }

  /** The first pass's inner loop: the row lifted to the built DFA's states,
    * with its symbols added to the alphabet and its targets to the states. */
  method CopyRow<T(==), A>(row: map<A, T>, states: set<DState<T>>, alphabet: set<A>)
    returns (lifted: map<A, DState<T>>, states': set<DState<T>>, alphabet': set<A>)
    ensures lifted.Keys == row.Keys && forall a | a in row :: lifted[a] == Dfas.Named(row[a])
    ensures states' == states + (set a | a in row :: Dfas.Named(row[a]))
    ensures alphabet' == alphabet + row.Keys
  {
    lifted, states', alphabet' := map[], states, alphabet;
    var todo := row.Keys;
    while todo != {}
      invariant todo <= row.Keys
      invariant lifted.Keys == row.Keys - todo && forall a | a in lifted :: lifted[a] == Dfas.Named(row[a])
      invariant states' == states + (set a | a in row.Keys - todo :: Dfas.Named(row[a]))
      invariant alphabet' == alphabet + (row.Keys - todo)
      decreases todo
    {
      var a :| a in todo;
      alphabet' := alphabet' + {a};
      var next := row[a];
      lifted := lifted[a := Dfas.Named(next)];
      states' := states' + {Dfas.Named(next)};
      todo := todo - {a};
    }
  }

  /** The named states and symbols the keys in done contribute. */
  function StatesOf<T, A>(tm: map<T, map<A, T>>, done: set<T>): set<DState<T>>
    requires done <= tm.Keys
  {
    (set k | k in done :: Dfas.Named(k)) + (set k, a | k in done && a in tm[k] :: Dfas.Named(tm[k][a]))
  }

  function SymbolsOf<T, A>(tm: map<T, map<A, T>>, done: set<T>): set<A>
    requires done <= tm.Keys
  {
    set k, a | k in done && a in tm[k] :: a
  }

  /** One more key adds its name, its row's targets and its row's symbols. */
  lemma AddKey<T, A>(tm: map<T, map<A, T>>, done: set<T>, k: T)
    requires done <= tm.Keys && k in tm
    ensures StatesOf(tm, done + {k}) == StatesOf(tm, done) + {Dfas.Named(k)} + (set a | a in tm[k] :: Dfas.Named(tm[k][a]))
    ensures SymbolsOf(tm, done + {k}) == SymbolsOf(tm, done) + tm[k].Keys
  {
  }

  /** Copying one more key's row keeps the first pass's invariant. */
  lemma CopiedAdd<T, A>(tm: map<T, map<A, T>>, done: set<T>, fm: map<DState<T>, map<A, DState<T>>>, k: T,
                        lifted: map<A, DState<T>>)
    requires Copied(tm, done, fm) && k in tm && k !in done
    requires lifted.Keys == tm[k].Keys && forall a | a in tm[k] :: lifted[a] == Dfas.Named(tm[k][a])
    ensures Copied(tm, done + {k}, if lifted != map[] then fm[Dfas.Named(k) := lifted] else fm)
  {
    var fm' := if lifted != map[] then fm[Dfas.Named(k) := lifted] else fm;
    assert lifted == map[] <==> tm[k] == map[];
    assert Dfas.Named(k) !in fm;
    assert forall q | q in fm' :: CopiedRow(tm, q, fm'[q]);
  }

  /** The first pass: rows copied, states and alphabet collected. */
  method CopyRows<T(==), A>(tm: map<T, map<A, T>>)
    returns (states: set<DState<T>>, alphabet: set<A>, fm: map<DState<T>, map<A, DState<T>>>)
    ensures states == {Dfas.Dead} + Dfas.MapStates(tm) && alphabet == Dfas.MapAlphabet(tm)
    ensures Copied(tm, tm.Keys, fm)
  {
    states, alphabet, fm := {Dfas.Dead}, {}, map[];
    var todo := tm.Keys;
    ghost var done: set<T> := {};
    while todo != {}
      invariant done !! todo && done + todo == tm.Keys
      invariant states == {Dfas.Dead} + StatesOf(tm, done) && alphabet == SymbolsOf(tm, done)
      invariant Copied(tm, done, fm)
      decreases todo
    {
      var k :| k in todo;
      AddKey(tm, done, k);
      states := states + {Dfas.Named(k)};
      var lifted;
      lifted, states, alphabet := CopyRow(tm[k], states, alphabet);
      CopiedAdd(tm, done, fm, k, lifted);
      if lifted != map[] {
        fm := fm[Dfas.Named(k) := lifted];
      }
      todo := todo - {k};
      done := done + {k};
    }
    assert done == tm.Keys;
  }

  /** The second pass's inner loop: the symbols a copied row lacks go to the
    * dead state. */
  method FillRow<T(==), A>(row: map<A, DState<T>>, alphabet: set<A>) returns (row': map<A, DState<T>>)
    ensures row'.Keys == row.Keys + alphabet
    ensures forall a | a in row' :: row'[a] == if a in row then row[a] else Dfas.Dead
  {
    row' := row;
    var todo := alphabet;
    while todo != {}
      invariant todo <= alphabet
      invariant row'.Keys == row.Keys + (alphabet - todo)
      invariant forall a | a in row :: row'[a] == row[a]
      invariant forall a | a in row' && a !in row :: row'[a] == Dfas.Dead
      decreases todo
    {
      var a :| a in todo;
      if a !in row' {
        row' := row'[a := Dfas.Dead];
      }
      todo := todo - {a};
    }
  }

  /** The second pass so far: the states done have their final rows, the dead
    * state has its row, and the other states hold what the first pass left. */
  ghost predicate Filling<T, A>(tm: map<T, map<A, T>>, states: set<DState<T>>, alphabet: set<A>, todo: set<DState<T>>,
                                fm: map<DState<T>, map<A, DState<T>>>)
  {
    todo <= states
    && (forall q :: q in fm ==> q in states)
    && (forall q | q in states - todo :: q in fm && FinalRow(tm, alphabet, q, fm[q]))
    && Dfas.Dead in fm && FinalRow(tm, alphabet, Dfas.Dead, fm[Dfas.Dead])
    && forall q | q in todo && q != Dfas.Dead ::
         (q in fm <==> q.name in tm && tm[q.name] != map[]) && (q in fm ==> CopiedRow(tm, q, fm[q]))
  }

  /** One state of the second pass: a state without a row loops on itself, and
    * a copied row is filled. */
  method FillState<T(==), A>(tm: map<T, map<A, T>>, states: set<DState<T>>, alphabet: set<A>, todo: set<DState<T>>,
                         fm: map<DState<T>, map<A, DState<T>>>, q: DState<T>)
    returns (fm': map<DState<T>, map<A, DState<T>>>)
    requires Filling(tm, states, alphabet, todo, fm) && q in todo && Dfas.MapAlphabet(tm) == alphabet
    ensures Filling(tm, states, alphabet, todo - {q}, fm')
  {
    if q !in fm {
      fm' := fm[q := map a | a in alphabet :: q];
    } else {
      var row := FillRow(fm[q], alphabet);
      if q.Named? {
        forall a | a in tm[q.name] ensures a in alphabet {
          assert a in Dfas.MapAlphabet(tm);
        }
      }
      fm' := fm[q := row];
    }
  }

  /** from_transition_map: the state set is the dead state, the keys and the
    * targets; the alphabet is every symbol of every row; each state's row is
    * its LegacyMove on every symbol; then the constructor's checks. */
  method FromTransitionMap<T(==), A>(tm: map<T, map<A, T>>, start: T, accept: set<T>)
    returns (r: Result<LegacyDfa<DState<T>, A>, LegacyError>)
    ensures var states := {Dfas.Dead} + Dfas.MapStates(tm);
            var acc := set f | f in accept :: Dfas.Named(f);
            r.Success? <==> Dfas.Named(start) in states && acc <= states
    ensures r.Success? ==> var d := r.value;
              d.states == {Dfas.Dead} + Dfas.MapStates(tm) && d.alphabet == Dfas.MapAlphabet(tm)
              && d.start == Dfas.Named(start) && d.accept == (set f | f in accept :: Dfas.Named(f))
              && d.transitionMap.Keys == d.states
              && forall q | q in d.states :: FinalRow(tm, d.alphabet, q, d.transitionMap[q])
  {
    var states, alphabet, fm := CopyRows(tm);
    fm := fm[Dfas.Dead := map a | a in alphabet :: Dfas.Dead];
    var todo := states;
    while todo != {}
      invariant Filling(tm, states, alphabet, todo, fm)
      decreases todo
    {
      var q :| q in todo;
      fm := FillState(tm, states, alphabet, todo, fm, q);
      todo := todo - {q};
    }
    r := New(states, alphabet, fm, Dfas.Named(start), set f | f in accept :: Dfas.Named(f));
  }

  // ---- properties of the built DFA ------------------------------------------------------

  /** A DFA holding the final rows of every state is complete, and each step is
    * its LegacyMove. */
  lemma BuiltComplete<T, A>(tm: map<T, map<A, T>>, d: LegacyDfa<DState<T>, A>)
    requires d.states == {Dfas.Dead} + Dfas.MapStates(tm) && d.alphabet == Dfas.MapAlphabet(tm)
    requires d.transitionMap.Keys == d.states && forall q | q in d.states :: FinalRow(tm, d.alphabet, q, d.transitionMap[q])
    ensures Complete(d)
    ensures forall q, a :: q in d.states && a in d.alphabet ==> TransitionFunction(d, q, a) == Success(LegacyMove(tm, q, a))
  {
    forall q, a | q in d.states && a in d.alphabet
      ensures LegacyMove(tm, q, a) in d.states
    {
      if q.Named? && q.name in tm && a in tm[q.name] {
        assert Dfas.Named(tm[q.name][a]) in Dfas.MapStates(tm);
      }
    }
  }

  /** The two from_transition_map constructions agree except on a named state
    * without a non-empty row, which loops here and goes to the dead state in
    * the newer class. */
  lemma LegacyVersusNewer<T, A>(tm: map<T, map<A, T>>, q: DState<T>, a: A)
    ensures LegacyMove(tm, q, a) == (if q.Named? && (q.name !in tm || tm[q.name] == map[]) then q else Dfas.MapMove(tm, q, a))
  {
  }

  /** The map {1: {a: 2}}: state 2 has no row, so it loops on a here, while
    * the newer construction sends it to the dead state. */
  lemma TargetOnlyStateLoops()
    ensures var tm := map[1 := map['a' := 2]];
      LegacyMove(tm, Dfas.Named(2), 'a') == Dfas.Named(2) && Dfas.MapMove(tm, Dfas.Named(2), 'a') == Dfas.Dead
  {
  }
}

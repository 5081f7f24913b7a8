/**
 * The GNFA object (GNFAs/gnfa.py): a set of states, an alphabet and an
 * adjacency list of syntax-tree labels, checked on construction, built from a
 * DFA, and reduced one state at a time (rip_state) until the label from SOURCE
 * to SINK is a regular expression for the automaton's language.
 */
module Gnfas {
  import opened Wrappers
  import opened RegexAst
  import opened ExtractAlphabet
  import opened RegexSemantics
  import opened Simplify
  import opened Dfas
  import opened GnfaLanguage
  import opened GnfaOfDfa
  import SetFacts

  // ---- __post_init__ ----------------------------------------------------------------

  /** Why construction raises: a pair has no label, or a label uses a symbol
    * outside the alphabet.  AlphabetIsNone is only raised as written (below). */
  datatype GnfaError<Q> =
    | MissingLabel(from: GNode<Q>, to: GNode<Q>)
    | LabelOutsideAlphabet(from: GNode<Q>, to: GNode<Q>)
    | AlphabetIsNone

  /** states ∪ {SOURCE}. */
  function Froms<Q(!new)>(states: set<Q>): (r: set<GNode<Q>>)
    ensures forall p :: p in r <==> IsFrom(states, p)
  {
    {Source} + set s | s in states :: Node(s)
  }

  /** states ∪ {SINK}. */
  function Tos<Q(!new)>(states: set<Q>): (r: set<GNode<Q>>)
    ensures forall q :: q in r <==> IsTo(states, q)
  {
    {Sink} + set s | s in states :: Node(s)
  }

  /** The pairs the validation visits. */
  predicate IsPair<Q>(states: set<Q>, pq: (GNode<Q>, GNode<Q>))
  {
    IsFrom(states, pq.0) && IsTo(states, pq.1)
  }

  /** `order` is the sequence in which the nested loops over the two sets visit
    * the pairs: each element is a pair, and every pair occurs. */
  ghost predicate Enumerates<Q(!new)>(states: set<Q>, order: seq<(GNode<Q>, GNode<Q>)>)
  {
    && (forall i :: 0 <= i < |order| ==> IsPair(states, order[i]))
    && (forall pq :: IsPair(states, pq) ==> pq in order)
  }

  /** The pair has a label, and the label's symbols are in the alphabet. */
  predicate PairOk<Q, A>(alphabet: set<A>, adj: Adj<Q, A>, pq: (GNode<Q>, GNode<Q>))
  {
    pq.0 in adj && pq.1 in adj[pq.0] && Alphabet(adj[pq.0][pq.1]) <= alphabet
  }

  /** The validation loop: the pairs in order, the first failure raised. */
  function CheckPairs<Q, A>(order: seq<(GNode<Q>, GNode<Q>)>, alphabet: set<A>, adj: Adj<Q, A>)
    : Result<(), GnfaError<Q>>
  {
    if order == [] then Success(())
    else
      var (p, q) := order[0];
      if p !in adj || q !in adj[p] then Failure(MissingLabel(p, q))
      else if !(Alphabet(adj[p][q]) <= alphabet) then Failure(LabelOutsideAlphabet(p, q))
      else CheckPairs(order[1..], alphabet, adj)
  }

  /** The validation succeeds exactly when every pair is fine; when it fails, it
    * reports the first pair that is not, with the reason. */
  lemma {:induction false} CheckPairsFirst<Q, A>(order: seq<(GNode<Q>, GNode<Q>)>, alphabet: set<A>, adj: Adj<Q, A>)
    returns (i: nat)
    ensures CheckPairs(order, alphabet, adj).Success? <==> forall j :: 0 <= j < |order| ==> PairOk(alphabet, adj, order[j])
    ensures CheckPairs(order, alphabet, adj).Failure? ==>
      && i < |order| && !PairOk(alphabet, adj, order[i])
      && (forall j :: 0 <= j < i ==> PairOk(alphabet, adj, order[j]))
      && var (p, q) := order[i];
         CheckPairs(order, alphabet, adj).error
           == if p !in adj || q !in adj[p] then MissingLabel(p, q) else LabelOutsideAlphabet(p, q)
  {
    if order == [] {
      i := 0;
    } else if !PairOk(alphabet, adj, order[0]) {
      i := 0;
    } else {
      var i' := CheckPairsFirst(order[1..], alphabet, adj);
      i := i' + 1;
      forall j | 0 <= j < |order| && !PairOk(alphabet, adj, order[j])
        ensures exists j' :: 0 <= j' < |order[1..]| && !PairOk(alphabet, adj, order[1..][j'])
      {
        assert order[j] == order[1..][j - 1];
      }
      if CheckPairs(order[1..], alphabet, adj).Failure? {
        assert order[i] == order[1..][i'];
        forall j | 0 <= j < i ensures PairOk(alphabet, adj, order[j]) {
          if j > 0 { assert order[j] == order[1..][j - 1]; }
        }
      }
    }
  }

  /** Visiting every pair, the validation succeeds exactly when every pair has
    * a label and every label stays inside the alphabet. */
  lemma CheckPairsValid<Q(!new), A>(states: set<Q>, alphabet: set<A>, adj: Adj<Q, A>, order: seq<(GNode<Q>, GNode<Q>)>)
    requires Enumerates(states, order)
    ensures CheckPairs(order, alphabet, adj).Success? <==> Total(states, adj) && LabelsWithin(states, alphabet, adj)
  {
    var _ := CheckPairsFirst(order, alphabet, adj);
    if CheckPairs(order, alphabet, adj).Success? {
      forall pq | IsPair(states, pq) ensures PairOk(alphabet, adj, pq) {
        var j :| 0 <= j < |order| && order[j] == pq;
      }
      forall p | IsFrom(states, p) ensures p in adj {
        assert PairOk(alphabet, adj, (p, Sink));
      }
      forall p, q | IsFrom(states, p) && IsTo(states, q) ensures q in adj[p] {
        assert PairOk(alphabet, adj, (p, q));
      }
      forall p, q | IsFrom(states, p) && IsTo(states, q) ensures Alphabet(adj[p][q]) <= alphabet {
        assert PairOk(alphabet, adj, (p, q));
      }
    }
  }

  /** The check as written: the extract_alphabet the file imports returns None,
    * so the first pair that has a label raises when its alphabet is compared. */
  function CheckPairsAsWritten<Q, A>(order: seq<(GNode<Q>, GNode<Q>)>, adj: Adj<Q, A>): Result<(), GnfaError<Q>>
  {
    if order == [] then Success(())
    else
      var (p, q) := order[0];
      if p !in adj || q !in adj[p] then Failure(MissingLabel(p, q)) else Failure(AlphabetIsNone)
  }

  /** As written, the constructor raises on every adjacency list it is given,
    * even the graph of the corrected from_DFA, which the corrected check accepts. */
  lemma CheckPairsAsWrittenRaises<Q(!new), A>(d: Dfa<Q, A>, adj: Adj<Q, A>, order: seq<(GNode<Q>, GNode<Q>)>)
    requires Enumerates(d.states, order) && DfaGraph(d, adj)
    ensures CheckPairsAsWritten(order, adj) == Failure(AlphabetIsNone)
    ensures CheckPairs(order, d.alphabet, adj).Success?
  {
    assert IsPair(d.states, (Source, Sink));
    assert order != [];
    assert IsPair(d.states, order[0]);
    DfaGraphLabels(d, adj);
    CheckPairsValid(d.states, d.alphabet, adj, order);
  }

  // ---- from_DFA -------------------------------------------------------------------

  /** Whether from_DFA as written gets past its label loop (lines 57-66).  The
    * loop updates one label per state and symbol, and both branches of the
    * update call SymbolNode(symbol), which takes no argument (see
    * RegexAst.SymbolNodeError), so the first update raises; the loop completes
    * only when there is no state or no symbol. */
  function FromDfaLoopAsWritten<Q, A>(d: Dfa<Q, A>): Result<(), SymbolNodeError>
  {
    if d.states != {} && d.alphabet != {} then Failure(ConstructorArgument) else Success(())
  }

  /** As written, from_DFA raises on every DFA, so no graph is ever built,
    * while the graph of the corrected from_DFA passes the constructor's check. */
  lemma FromDfaAsWrittenRaises<Q(!new), A>(d: Dfa<Q, A>, adj: Adj<Q, A>)
    requires DfaGraph(d, adj)
    ensures FromDfaLoopAsWritten(d) == Failure(ConstructorArgument)
    ensures Total(d.states, adj) && LabelsWithin(d.states, d.alphabet, adj)
  {
    assert d.start in d.states;
    DfaGraphLabels(d, adj);
  }

  /** The defaultdict of EmptyLang labels, every pair present. */
  function Blank<Q(!new), A>(states: set<Q>): (adj: Adj<Q, A>)
  {
    map p | p in Froms(states) :: map q | q in Tos(states) :: EmptyLang
  }

  /** The symbols already added to the labels of p's row. */
  function DoneSyms<Q, A>(d: Dfa<Q, A>, done: set<Q>, p: Q): set<A>
  {
    if p in done then d.alphabet else {}
  }

  /** from_DFA part way: accept→SINK set for the states of acc, rows of the
    * states of done filled in. */
  ghost predicate Built<Q(!new), A>(d: Dfa<Q, A>, adj: Adj<Q, A>, acc: set<Q>, done: set<Q>)
  {
    && Valid(d) && Total(d.states, adj)
    && adj[Source][Sink] == EmptyLang
    && (forall q {:trigger adj[Source][Node(q)]} :: q in d.states ==>
          adj[Source][Node(q)] == if q == d.start then EmptyStr else EmptyLang)
    && (forall p {:trigger adj[Node(p)][Sink]} :: p in d.states ==>
          adj[Node(p)][Sink] == if p in acc then EmptyStr else EmptyLang)
    && (forall p, q {:trigger adj[Node(p)][Node(q)]} :: p in d.states && q in d.states ==>
          SymLabel(adj[Node(p)][Node(q)], HitsIn(d, p, q, DoneSyms(d, done, p))))
  }

  lemma HitsNone<Q, A>(d: Dfa<Q, A>, p: Q, q: Q)
    ensures HitsIn(d, p, q, {}) == {}
  {
  }

  /** After SOURCE→start: nothing else set yet. */
  lemma BuiltStart<Q(!new), A>(d: Dfa<Q, A>, adj: Adj<Q, A>)
    requires Valid(d)
    requires adj == var b := Blank(d.states); b[Source := b[Source][Node(d.start) := EmptyStr]]
    ensures Built(d, adj, {}, {})
  {
    forall p, q | p in d.states && q in d.states
      ensures SymLabel(adj[Node(p)][Node(q)], HitsIn(d, p, q, DoneSyms(d, {}, p)))
    {
      HitsNone(d, p, q);
    }
  }

  /** Once every accept state and every row is done, the graph is from_DFA's. */
  lemma BuiltDone<Q(!new), A>(d: Dfa<Q, A>, adj: Adj<Q, A>)
    requires Built(d, adj, d.accept, d.states)
    ensures DfaGraph(d, adj)
  {
    forall p, q | p in d.states && q in d.states
      ensures SymLabel(adj[Node(p)][Node(q)], HitsIn(d, p, q, d.alphabet))
    {
      assert DoneSyms(d, d.states, p) == d.alphabet;
    }
  }

  /** The symbol a moves p to exactly one state. */
  lemma HitsAdd<Q, A>(d: Dfa<Q, A>, p: Q, q: Q, D: set<A>, a: A)
    requires (p, a) in d.delta
    ensures HitsIn(d, p, q, D + {a}) == HitsIn(d, p, q, D) + (if d.delta[(p, a)] == q then {a} else {})
  {
  }

  /** The loop over the alphabet part way: the symbols outside `todo` are added. */
  ghost predicate RowFilling<Q(!new), A(!new)>(d: Dfa<Q, A>, p: Q, row0: map<GNode<Q>, Regex<A>>,
                                         todo: set<A>, row: map<GNode<Q>, Regex<A>>)
  {
    && Valid(d) && p in d.states && todo <= d.alphabet && row.Keys == row0.Keys
    && (forall x {:trigger row[x]} :: x in row0 && !(x.Node? && x.state in d.states) ==> row[x] == row0[x])
    && (forall q :: q in d.states ==> Node(q) in row)
    && (forall q {:trigger row[Node(q)]} :: q in d.states ==>
          Node(q) in row && SymLabel(row[Node(q)], HitsIn(d, p, q, d.alphabet - todo)))
  }

  /** Before any symbol, every label between states is EmptyLang. */
  lemma RowFillingStart<Q(!new), A(!new)>(d: Dfa<Q, A>, p: Q, row0: map<GNode<Q>, Regex<A>>)
    requires Valid(d) && p in d.states
    requires forall q :: q in d.states ==> Node(q) in row0 && row0[Node(q)] == EmptyLang
    ensures RowFilling(d, p, row0, d.alphabet, row0)
  {
    forall q | q in d.states ensures SymLabel(row0[Node(q)], HitsIn(d, p, q, d.alphabet - d.alphabet)) {
      assert d.alphabet - d.alphabet == {};
      HitsNone(d, p, q);
    }
  }

  /** One symbol a: the label towards δ(p, a) gains a. */
  lemma RowFillingStep<Q(!new), A(!new)>(d: Dfa<Q, A>, p: Q, row0: map<GNode<Q>, Regex<A>>,
                                   todo: set<A>, row: map<GNode<Q>, Regex<A>>, a: A)
    requires RowFilling(d, p, row0, todo, row) && a in todo
    ensures d.delta[(p, a)] in d.states && Node(d.delta[(p, a)]) in row
    ensures RowFilling(d, p, row0, todo - {a}, row[Node(d.delta[(p, a)]) := AddSymbol(row[Node(d.delta[(p, a)])], a)])
  {
    var q := d.delta[(p, a)];
    assert q in d.states;
    var D := d.alphabet - todo;
    AddSymbolLabel(row[Node(q)], HitsIn(d, p, q, D), a);
    var row' := row[Node(q) := AddSymbol(row[Node(q)], a)];
    assert d.alphabet - (todo - {a}) == D + {a};
    forall q' | q' in d.states ensures SymLabel(row'[Node(q')], HitsIn(d, p, q', D + {a})) {
      HitsAdd(d, p, q', D, a);
    }
  }

  /** The loop over the alphabet for one state p, on a private copy of p's row:
    * each symbol is added to the label towards its target. */
  method FillRow<Q(!new), A(!new)>(d: Dfa<Q, A>, p: Q, row0: map<GNode<Q>, Regex<A>>)
    returns (row: map<GNode<Q>, Regex<A>>)
    requires Valid(d) && p in d.states
    requires forall q :: q in d.states ==> Node(q) in row0 && row0[Node(q)] == EmptyLang
    ensures row.Keys == row0.Keys
    ensures forall x :: x in row0 && !(x.Node? && x.state in d.states) ==> row[x] == row0[x]
    ensures forall q :: q in d.states ==> SymLabel(row[Node(q)], HitsIn(d, p, q, d.alphabet))
  {
    row := row0;
    var todo := d.alphabet;
    RowFillingStart(d, p, row0);
    while todo != {}
      invariant RowFilling(d, p, row0, todo, row)
      decreases |todo|
    {
      var a :| a in todo;
      RowFillingStep(d, p, row0, todo, row, a);
      var q := d.delta[(p, a)];
      row := row[Node(q) := AddSymbol(row[Node(q)], a)];
      todo := todo - {a};
    }
    assert d.alphabet - todo == d.alphabet;
  }

  /** One accept state's edge to SINK. */
  lemma BuiltAccept<Q(!new), A>(d: Dfa<Q, A>, adj: Adj<Q, A>, acc: set<Q>, a: Q)
    requires Built(d, adj, acc, {}) && a in d.accept
    ensures Built(d, adj[Node(a) := adj[Node(a)][Sink := EmptyStr]], acc + {a}, {})
  {
    var adj' := adj[Node(a) := adj[Node(a)][Sink := EmptyStr]];
    forall p, q | p in d.states && q in d.states
      ensures SymLabel(adj'[Node(p)][Node(q)], HitsIn(d, p, q, DoneSyms(d, {}, p)))
    {
      assert adj'[Node(p)][Node(q)] == adj[Node(p)][Node(q)];
    }
  }

  /** One filled row. */
  lemma BuiltRow<Q(!new), A>(d: Dfa<Q, A>, adj: Adj<Q, A>, done: set<Q>, p: Q, row: map<GNode<Q>, Regex<A>>)
    requires Built(d, adj, d.accept, done) && p in d.states
    requires row.Keys == adj[Node(p)].Keys
    requires forall x :: x in adj[Node(p)] && !(x.Node? && x.state in d.states) ==> row[x] == adj[Node(p)][x]
    requires forall q :: q in d.states ==> SymLabel(row[Node(q)], HitsIn(d, p, q, d.alphabet))
    ensures Built(d, adj[Node(p) := row], d.accept, done + {p})
  {
    var adj' := adj[Node(p) := row];
    forall p', q | p' in d.states && q in d.states
      ensures SymLabel(adj'[Node(p')][Node(q)], HitsIn(d, p', q, DoneSyms(d, done + {p}, p')))
    {
      if p' != p {
        assert DoneSyms(d, done + {p}, p') == DoneSyms(d, done, p');
      }
    }
    assert adj'[Node(p)][Sink] == adj[Node(p)][Sink];
  }

  /** A row not yet filled still holds only EmptyLang between states. */
  lemma BuiltPending<Q(!new), A>(d: Dfa<Q, A>, adj: Adj<Q, A>, done: set<Q>, p: Q)
    requires Built(d, adj, d.accept, done) && p in d.states && p !in done
    ensures forall q :: q in d.states ==> Node(q) in adj[Node(p)] && adj[Node(p)][Node(q)] == EmptyLang
  {
    forall q | q in d.states ensures Node(q) in adj[Node(p)] && adj[Node(p)][Node(q)] == EmptyLang {
      HitsNone(d, p, q);
      assert SymLabel(adj[Node(p)][Node(q)], HitsIn(d, p, q, DoneSyms(d, done, p)));
    }
  }

  /** The loop over the accept states: each one's edge to SINK becomes EmptyStr. */
  method SetAccepts<Q(!new), A>(d: Dfa<Q, A>, adj0: Adj<Q, A>) returns (adj: Adj<Q, A>)
    requires Built(d, adj0, {}, {})
    ensures Built(d, adj, d.accept, {})
  {
    adj := adj0;
    var acc := d.accept;
    while acc != {}
      invariant acc <= d.accept && Built(d, adj, d.accept - acc, {})
      decreases |acc|
    {
      var a :| a in acc;
      BuiltAccept(d, adj, d.accept - acc, a);
      adj := adj[Node(a) := adj[Node(a)][Sink := EmptyStr]];
      assert d.accept - (acc - {a}) == d.accept - acc + {a};
      acc := acc - {a};
    }
    assert d.accept - acc == d.accept;
  }

  /** The loop over the states: each row gets the DFA's transitions. */
  method FillRows<Q(!new), A(!new)>(d: Dfa<Q, A>, adj0: Adj<Q, A>) returns (adj: Adj<Q, A>)
    requires Built(d, adj0, d.accept, {})
    ensures Built(d, adj, d.accept, d.states)
  {
    adj := adj0;
    var todo := d.states;
    assert d.states - todo == {};
    while todo != {}
      invariant todo <= d.states && Built(d, adj, d.accept, d.states - todo)
      decreases |todo|
    {
      var p :| p in todo;
      BuiltPending(d, adj, d.states - todo, p);
      var row := FillRow(d, p, adj[Node(p)]);
      BuiltRow(d, adj, d.states - todo, p, row);
      adj := adj[Node(p) := row];
      SetFacts.MoveOne(d.states, todo, p);
      todo := todo - {p};
    }
    assert d.states - todo == d.states;
  }

  /** from_DFA's adjacency list: SOURCE→start, the accept states to SINK, then
    * the DFA's transitions row by row; pairs never assigned are EmptyLang. */
  method BuildAdj<Q(!new), A(!new)>(d: Dfa<Q, A>) returns (adj: Adj<Q, A>)
    requires Valid(d)
    ensures DfaGraph(d, adj)
  {
    var b := Blank(d.states);
    adj := b[Source := b[Source][Node(d.start) := EmptyStr]];
    BuiltStart(d, adj);
    adj := SetAccepts(d, adj);
    adj := FillRows(d, adj);
    BuiltDone(d, adj);
  }

  // ---- rip_state ------------------------------------------------------------------

  /** The label rip_state gives a pair when R is ripped, from the pair's old
    * label, the label into R, R's loop and the label out of R: their union of
    * paths, passed through the simplifier. */
  function RipLabel<A(==)>(orig: Regex<A>, r1: Regex<A>, r2: Regex<A>, r3: Regex<A>): Regex<A>
  {
    Simplify.Simplify(RipRaw(orig, r1, r2, r3))
  }

  /** The simplified label has the words of the unsimplified union. */
  lemma RipLabelSound<A(!new)>(orig: Regex<A>, r1: Regex<A>, r2: Regex<A>, r3: Regex<A>)
    ensures Equiv(RipLabel(orig, r1, r2, r3), RipRaw(orig, r1, r2, r3))
  {
    SimplifySound(RipRaw(orig, r1, r2, r3));
  }

  /** The simplified label is no larger than the unsimplified union and uses
    * only the symbols of the four labels it combines. */
  lemma RipLabelBounds<A>(orig: Regex<A>, r1: Regex<A>, r2: Regex<A>, r3: Regex<A>)
    ensures Size(RipLabel(orig, r1, r2, r3)) <= Size(RipRaw(orig, r1, r2, r3))
    ensures Alphabet(RipLabel(orig, r1, r2, r3)) <= Alphabet(orig) + Alphabet(r1) + Alphabet(r2) + Alphabet(r3)
  {
    RipRawAlphabet(orig, r1, r2, r3);
  }

  /** As written, rip_state stores the unsimplified union: when every label is
    * EmptyLang the new label has eight nodes, where the simplified one is
    * EmptyLang itself. */
  lemma RipAsWrittenUnsimplified<A>()
    ensures Size(RipRaw<A>(EmptyLang, EmptyLang, EmptyLang, EmptyLang)) == 8
    ensures RipLabel<A>(EmptyLang, EmptyLang, EmptyLang, EmptyLang) == EmptyLang
  {
  }

  /** Row p of the list after ripping R, from the old row p and the old row of
    * R: each target other than R gets its RipLabel; the entry for R and any
    * entry outside the pairs stay. */
  ghost function RippedRow<Q(!new), A>(states: set<Q>, R: Q, row: map<GNode<Q>, Regex<A>>, rrow: map<GNode<Q>, Regex<A>>)
    : map<GNode<Q>, Regex<A>>
    requires Node(R) in row && Node(R) in rrow
    requires forall q :: IsTo(states, q) ==> q in rrow
  {
    map q | q in row :: if IsTo(states, q) && q != Node(R) then RipLabel(row[q], row[Node(R)], rrow[Node(R)], rrow[q]) else row[q]
  }

  /** (states', adj') is the whole state after rip_state(R): R has left the
    * states, its row is gone, every source row is its ripped row, and every
    * other row is untouched. */
  ghost predicate RipResult<Q(!new), A(!new)>(states: set<Q>, adj: Adj<Q, A>, R: Q, states': set<Q>, adj': Adj<Q, A>)
    requires Total(states, adj) && R in states
  {
    && states' == states - {R}
    && adj'.Keys == adj.Keys - {Node(R)}
    && (forall p {:trigger adj'[p]} :: p in adj' ==>
          adj'[p] == if IsFrom(states', p) then RippedRow(states, R, adj[p], adj[Node(R)]) else adj[p])
  }

  /** One ripped pair: its new label has the words of the RipRaw union. */
  lemma RipResultPair<Q(!new), A(!new)>(states: set<Q>, adj: Adj<Q, A>, R: Q, states': set<Q>, adj': Adj<Q, A>,
                                  p: GNode<Q>, q: GNode<Q>)
    requires Total(states, adj) && R in states && RipResult(states, adj, R, states', adj')
    requires IsFrom(states', p) && IsTo(states', q)
    ensures p in adj' && q in adj'[p]
    ensures adj'[p][q] == RipLabel(adj[p][q], adj[p][Node(R)], adj[Node(R)][Node(R)], adj[Node(R)][q])
  {
    assert p in adj;
  }

  /** What rip_state leaves is a rip in the sense of the language proof. */
  lemma RipResultIsRip<Q(!new), A(!new)>(states: set<Q>, adj: Adj<Q, A>, R: Q, states': set<Q>, adj': Adj<Q, A>)
    requires Total(states, adj) && R in states && RipResult(states, adj, R, states', adj')
    ensures IsRip(states, adj, R, states', adj')
  {
    forall p | IsFrom(states', p) ensures p in adj' {
      RipResultPair(states, adj, R, states', adj', p, Sink);
    }
    forall p, q | IsFrom(states', p) && IsTo(states', q) ensures q in adj'[p] {
      RipResultPair(states, adj, R, states', adj', p, q);
    }
    forall p, q | IsFrom(states', p) && IsTo(states', q)
      ensures Equiv(adj'[p][q], RipRaw(adj[p][q], adj[p][Node(R)], adj[Node(R)][Node(R)], adj[Node(R)][q]))
    {
      RipResultPair(states, adj, R, states', adj', p, q);
      RipLabelSound(adj[p][q], adj[p][Node(R)], adj[Node(R)][Node(R)], adj[Node(R)][q]);
    }
  }

  /** rip_state keeps every label inside the alphabet. */
  lemma RipResultLabels<Q(!new), A(!new)>(states: set<Q>, alphabet: set<A>, adj: Adj<Q, A>, R: Q, states': set<Q>, adj': Adj<Q, A>)
    requires Total(states, adj) && R in states && RipResult(states, adj, R, states', adj')
    requires LabelsWithin(states, alphabet, adj)
    ensures Total(states', adj') && LabelsWithin(states', alphabet, adj')
  {
    RipResultIsRip(states, adj, R, states', adj');
    forall p, q | IsFrom(states', p) && IsTo(states', q) ensures Alphabet(adj'[p][q]) <= alphabet {
      RipResultPair(states, adj, R, states', adj', p, q);
      RipLabelBounds(adj[p][q], adj[p][Node(R)], adj[Node(R)][Node(R)], adj[Node(R)][q]);
      assert Alphabet(adj[p][q]) <= alphabet && Alphabet(adj[p][Node(R)]) <= alphabet;
      assert Alphabet(adj[Node(R)][Node(R)]) <= alphabet && Alphabet(adj[Node(R)][q]) <= alphabet;
    }
  }

  /** A map part way through an entry-by-entry update: the keys of `news`
    * outside `todo` hold their new values, every other key its old one. */
  ghost predicate Updating<K(!new), V>(m0: map<K, V>, news: map<K, V>, todo: set<K>, m: map<K, V>)
  {
    && todo <= news.Keys && news.Keys <= m0.Keys && m.Keys == m0.Keys
    && forall k {:trigger m[k]} :: k in m ==> m[k] == if k in news && k !in todo then news[k] else m0[k]
  }

  lemma UpdatingStart<K(!new), V>(m0: map<K, V>, news: map<K, V>)
    requires news.Keys <= m0.Keys
    ensures Updating(m0, news, news.Keys, m0)
  {
  }

  /** Updating one more key; until then it held its old value. */
  lemma UpdatingStep<K(!new), V>(m0: map<K, V>, news: map<K, V>, todo: set<K>, m: map<K, V>, k: K)
    requires Updating(m0, news, todo, m) && k in todo
    ensures k in m && m[k] == m0[k]
    ensures Updating(m0, news, todo - {k}, m[k := news[k]])
  {
  }

  /** The new labels of one source row: RipLabel for every target other than R. */
  ghost function RipNews<Q(!new), A>(states: set<Q>, R: Q, row0: map<GNode<Q>, Regex<A>>, rrow: map<GNode<Q>, Regex<A>>)
    : map<GNode<Q>, Regex<A>>
    requires Node(R) in row0 && Node(R) in rrow
    requires forall q :: IsTo(states, q) ==> q in row0 && q in rrow
    ensures forall q :: q in RipNews(states, R, row0, rrow) <==> IsTo(states, q) && q != Node(R)
  {
    map q | q in Tos(states) - {Node(R)} :: RipLabel(row0[q], row0[Node(R)], rrow[Node(R)], rrow[q])
  }

  /** Once every new label is in place, the row is the ripped row. */
  lemma RipNewsDone<Q(!new), A>(states: set<Q>, R: Q, row0: map<GNode<Q>, Regex<A>>, rrow: map<GNode<Q>, Regex<A>>,
                                row: map<GNode<Q>, Regex<A>>)
    requires Node(R) in row0 && Node(R) in rrow
    requires forall q :: IsTo(states, q) ==> q in row0 && q in rrow
    requires Updating(row0, RipNews(states, R, row0, rrow), {}, row)
    ensures row == RippedRow(states, R, row0, rrow)
  {
    var news := RipNews(states, R, row0, rrow);
    forall q | q in row ensures row[q] == RippedRow(states, R, row0, rrow)[q] {
      assert q in news <==> IsTo(states, q) && q != Node(R);
    }
  }

  /** The inner loop of rip_state for one source, on its row: each target
    * q ≠ R gets the union of its label and the paths through R, reading the
    * labels into R from the row itself and the rest from R's row. */
  method RipRow<Q(!new), A(==, !new)>(states: set<Q>, R: Q, row0: map<GNode<Q>, Regex<A>>, rrow: map<GNode<Q>, Regex<A>>)
    returns (row: map<GNode<Q>, Regex<A>>)
    requires R in states && Node(R) in row0 && Node(R) in rrow
    requires forall q :: IsTo(states, q) ==> q in row0 && q in rrow
    ensures row == RippedRow(states, R, row0, rrow)
  {
    ghost var news := RipNews(states, R, row0, rrow);
    row := row0;
    var todo := Tos(states) - {Node(R)};
    UpdatingStart(row0, news);
    while todo != {}
      invariant Updating(row0, news, todo, row)
      decreases |todo|
    {
      var q :| q in todo;
      UpdatingStep(row0, news, todo, row, q);
      var orig, r1, r2, r3 := row[q], row[Node(R)], rrow[Node(R)], rrow[q];
      row := row[q := RipLabel(orig, r1, r2, r3)];
      todo := todo - {q};
    }
    RipNewsDone(states, R, row0, rrow, row);
  }

  /** The new rows of rip_state(R): the ripped row for every source other than R. */
  ghost function RipRows<Q(!new), A>(states: set<Q>, adj0: Adj<Q, A>, R: Q): Adj<Q, A>
    requires Total(states, adj0) && R in states
    ensures forall p :: p in RipRows(states, adj0, R) <==> IsFrom(states - {R}, p)
  {
    map p | p in Froms(states) - {Node(R)} :: RippedRow(states, R, adj0[p], adj0[Node(R)])
  }

  /** With every source row ripped, removing R's row gives the result. */
  lemma RippingDone<Q(!new), A(!new)>(states: set<Q>, adj0: Adj<Q, A>, R: Q, adj: Adj<Q, A>)
    requires Total(states, adj0) && R in states
    requires Updating(adj0, RipRows(states, adj0, R), {}, adj)
    ensures RipResult(states, adj0, R, states - {R}, adj - {Node(R)})
  {
    var adj' := adj - {Node(R)};
    var rows := RipRows(states, adj0, R);
    forall p | p in adj'
      ensures adj'[p] == if IsFrom(states - {R}, p) then RippedRow(states, R, adj0[p], adj0[Node(R)]) else adj0[p]
    {
      assert p in rows <==> IsFrom(states - {R}, p);
    }
  }

  /** What rip_state leaves is a valid list over the remaining states and
    * accepts the same words. */
  lemma RipResultValid<Q(!new), A(!new)>(states: set<Q>, alphabet: set<A>, adj: Adj<Q, A>, R: Q, states': set<Q>, adj': Adj<Q, A>)
    requires Total(states, adj) && R in states && RipResult(states, adj, R, states', adj')
    requires LabelsWithin(states, alphabet, adj)
    ensures Total(states', adj') && LabelsWithin(states', alphabet, adj')
    ensures forall w :: Accepted(states', adj', w) <==> Accepted(states, adj, w)
  {
    RipResultLabels(states, alphabet, adj, R, states', adj');
    RipResultIsRip(states, adj, R, states', adj');
    forall w ensures Accepted(states', adj', w) <==> Accepted(states, adj, w) {
      RipPreserves(states, adj, R, states', adj', w);
    }
  }

  // ---- The GNFA object ------------------------------------------------------------

  class Gnfa<Q(==, !new), A(==, !new)> {
    var states: set<Q>
    var alphabet: set<A>
    var adj: Adj<Q, A>

    /** What __post_init__ checks: every pair has a label, inside the alphabet. */
    ghost predicate Valid()
      reads this
    {
      Total(states, adj) && LabelsWithin(states, alphabet, adj)
    }

    /** The dataclass constructor, for a list that passes the check. */
    constructor(states: set<Q>, alphabet: set<A>, adj: Adj<Q, A>)
      requires Total(states, adj) && LabelsWithin(states, alphabet, adj)
      ensures this.states == states && this.alphabet == alphabet && this.adj == adj && Valid()
    {
      this.states := states;
      this.alphabet := alphabet;
      this.adj := adj;
    }

    /** GNFA(states, alphabet, adj_list): the check visits the pairs in `order`
      * and raises for the first bad one; otherwise the object is built. */
    static method Make(states: set<Q>, alphabet: set<A>, adj: Adj<Q, A>, order: seq<(GNode<Q>, GNode<Q>)>)
      returns (r: Result<Gnfa<Q, A>, GnfaError<Q>>)
      requires Enumerates(states, order)
      ensures r.Success? <==> Total(states, adj) && LabelsWithin(states, alphabet, adj)
      ensures r.Failure? ==> CheckPairs(order, alphabet, adj) == Failure(r.error)
      ensures r.Success? ==>
        fresh(r.value) && r.value.states == states && r.value.alphabet == alphabet && r.value.adj == adj && r.value.Valid()
    {
      CheckPairsValid(states, alphabet, adj, order);
      var check := CheckPairs(order, alphabet, adj);
      if check.Failure? {
        return Failure(check.error);
      }
      var g := new Gnfa(states, alphabet, adj);
      return Success(g);
    }

    /** from_DFA: the graph of the DFA's transitions between SOURCE and SINK. */
    constructor FromDfa(d: Dfa<Q, A>)
      requires Dfas.Valid(d)
      ensures states == d.states && alphabet == d.alphabet && DfaGraph(d, adj) && Valid()
    {
      var a := BuildAdj(d);
      DfaGraphLabels(d, a);
      states := d.states;
      alphabet := d.alphabet;
      adj := a;
    }

    /** rip_state(R): every pair between the other nodes gets the union of its
      * label and the paths through R; then R and its row are removed. */
    method RipState(R: Q)
      requires Valid() && R in states
      modifies this
      ensures alphabet == old(alphabet)
      ensures RipResult(old(states), old(adj), R, states, adj)
      ensures Valid()
      ensures forall w :: Accepted(states, adj, w) <==> Accepted(old(states), old(adj), w)
    {
      ghost var adj0 := adj;
      ghost var rows := RipRows(states, adj0, R);
      var todo := Froms(states) - {Node(R)};
      UpdatingStart(adj, rows);
      while todo != {}
        invariant states == old(states) && alphabet == old(alphabet)
        invariant Updating(adj0, rows, todo, adj)
        decreases |todo|
      {
        var p :| p in todo;
        UpdatingStep(adj0, rows, todo, adj, p);
        var row := RipRow(states, R, adj[p], adj[Node(R)]);
        adj := adj[p := row];
        todo := todo - {p};
      }
      RippingDone(states, adj0, R, adj);
      states := states - {R};
      adj := adj - {Node(R)};
      RipResultValid(old(states), alphabet, adj0, R, states, adj);
    }

    /** to_regexAST: rip every state, in whatever order the set yields them,
      * and return the simplified SOURCE→SINK label; it matches exactly the
      * words the GNFA accepted. */
    method ToRegex() returns (r: Regex<A>)
      requires Valid()
      modifies this
      ensures states == {} && alphabet == old(alphabet) && Valid()
      ensures forall w :: Matches(r, w) <==> Accepted(old(states), old(adj), w)
    {
      var orig := states;
      while orig != {}
        invariant Valid() && states == orig && alphabet == old(alphabet)
        invariant forall w :: Accepted(states, adj, w) <==> Accepted(old(states), old(adj), w)
        decreases |orig|
      {
        var s :| s in orig;
        RipState(s);
        orig := orig - {s};
      }
      var last := adj[Source][Sink];
      r := Simplify.Simplify(last);
      forall w ensures Matches(r, w) <==> Accepted(old(states), old(adj), w) {
        NoStatesLeft(adj, w);
        SimplifyMatches(last, w);
      }
    }
  }

  /** DFA to regular expression through the GNFA: build from_DFA's graph, rip
    * every state; the expression matches exactly the words the DFA accepts. */
  method RegexOfDfa<Q(==, !new), A(==, !new)>(d: Dfa<Q, A>) returns (r: Regex<A>)
    requires Valid(d)
    ensures forall w :: Matches(r, w) <==> Accepts(d, w)
  {
    var g := new Gnfa.FromDfa(d);
    ghost var adj0 := g.adj;
    r := g.ToRegex();
    forall w ensures Matches(r, w) <==> Accepts(d, w) {
      DfaGraphAccepted(d, adj0, w);
    }
  }
}

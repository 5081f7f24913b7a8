/**
 * The graph GNFA.from_DFA builds (GNFAs/gnfa.py:44-68), described by the labels
 * it holds, and the proof that it accepts exactly the words the DFA accepts.
 */
module GnfaOfDfa {
  import opened RegexAst
  import opened ExtractAlphabet
  import opened RegexSemantics
  import opened Dfas
  import opened GnfaLanguage

  /** The symbols of `syms` on which the DFA moves from p to q. */
  function HitsIn<Q, A>(d: Dfa<Q, A>, p: Q, q: Q, syms: set<A>): set<A>
  {
    set a | a in syms && (p, a) in d.delta && d.delta[(p, a)] == q
  }

  /** A left-nested union of symbols, the first one bare: a | b | c is ((a | b) | c). */
  predicate SymbolUnion<A>(t: Regex<A>)
  {
    match t
    case Symbol(_) => true
    case Union(l, r) => r.Symbol? && SymbolUnion(l)
    case _ => false
  }

  /** The label for the symbol set S: EmptyLang when S is empty, and otherwise a
    * union of exactly the symbols of S. */
  predicate SymLabel<A>(t: Regex<A>, S: set<A>)
  {
    if S == {} then t == EmptyLang else SymbolUnion(t) && Alphabet(t) == S
  }

  /** A union of symbols matches the one-symbol words over its symbols. */
  lemma {:induction false} SymbolUnionMatches<A>(t: Regex<A>, w: seq<A>)
    requires SymbolUnion(t)
    ensures Matches(t, w) <==> |w| == 1 && w[0] in Alphabet(t)
  {
    match t
    case Symbol(_) =>
    case Union(l, r) => SymbolUnionMatches(l, w);
  }

  lemma SymLabelMatches<A>(t: Regex<A>, S: set<A>, w: seq<A>)
    requires SymLabel(t, S)
    ensures Matches(t, w) <==> |w| == 1 && w[0] in S
  {
    if S != {} {
      SymbolUnionMatches(t, w);
    }
  }

  /** Adding the symbol a to a label for S, as the loop over the alphabet does:
    * an EmptyLang label becomes Symbol(a), any other becomes Union(label, Symbol(a)). */
  function AddSymbol<A>(t: Regex<A>, a: A): Regex<A>
  {
    if t.EmptyLang? then Symbol(a) else Union(t, Symbol(a))
  }

  lemma AddSymbolLabel<A>(t: Regex<A>, S: set<A>, a: A)
    requires SymLabel(t, S)
    ensures SymLabel(AddSymbol(t, a), S + {a})
  {
  }

  /** adj is the graph from_DFA builds from d: SOURCE→start and accept→SINK are
    * EmptyStr, every other edge to SINK or out of SOURCE is EmptyLang, and p→q
    * carries the symbols on which d moves from p to q. */
  ghost predicate DfaGraph<Q(!new), A>(d: Dfa<Q, A>, adj: Adj<Q, A>)
  {
    && Valid(d) && Total(d.states, adj)
    && adj[Source][Sink] == EmptyLang
    && (forall q {:trigger adj[Source][Node(q)]} :: q in d.states ==>
          adj[Source][Node(q)] == if q == d.start then EmptyStr else EmptyLang)
    && (forall p {:trigger adj[Node(p)][Sink]} :: p in d.states ==>
          adj[Node(p)][Sink] == if p in d.accept then EmptyStr else EmptyLang)
    && (forall p, q {:trigger adj[Node(p)][Node(q)]} :: p in d.states && q in d.states ==>
          SymLabel(adj[Node(p)][Node(q)], HitsIn(d, p, q, d.alphabet)))
  }

  /** Every label of the graph uses only symbols of the DFA's alphabet. */
  lemma DfaGraphLabels<Q(!new), A>(d: Dfa<Q, A>, adj: Adj<Q, A>)
    requires DfaGraph(d, adj)
    ensures LabelsWithin(d.states, d.alphabet, adj)
  {
    forall p, q | IsFrom(d.states, p) && IsTo(d.states, q)
      ensures Alphabet(adj[p][q]) <= d.alphabet
    {
      if p.Node? && q.Node? {
        assert SymLabel(adj[p][q], HitsIn(d, p.state, q.state, d.alphabet));
      }
    }
  }

  /** One DFA step from p on a: a label p→s matches [a] exactly when d moves
    * from p to s on a. */
  lemma EdgeStep<Q(!new), A>(d: Dfa<Q, A>, adj: Adj<Q, A>, p: Q, s: Q, x: seq<A>)
    requires DfaGraph(d, adj) && p in d.states && s in d.states
    ensures Matches(adj[Node(p)][Node(s)], x)
        <==> |x| == 1 && x[0] in d.alphabet && d.delta[(p, x[0])] == s
  {
    SymLabelMatches(adj[Node(p)][Node(s)], HitsIn(d, p, s, d.alphabet), x);
  }

  /** What the graph reads from a state's node, the DFA accepts from that state. */
  lemma {:induction false} NodeReadsAccepted<Q(!new), A(!new)>(d: Dfa<Q, A>, adj: Adj<Q, A>, p: Q, w: seq<A>, k: nat)
    requires DfaGraph(d, adj) && p in d.states && Reads(d.states, adj, Node(p), w, k)
    ensures AcceptsFrom(d, p, w)
    decreases k
  {
    if !Matches(adj[Node(p)][Sink], w) {
      var u, z, s := FirstStep(d.states, adj, Node(p), w, k);
      EdgeStep(d, adj, p, s, u);
      NodeReadsAccepted(d, adj, s, z, k - 1);
      assert w[0] == u[0] && w[1..] == z;
    }
  }

  /** An accepting run from p on a non-empty word moves on its first symbol. */
  lemma AcceptsFromStep<Q, A>(d: Dfa<Q, A>, p: Q, w: seq<A>) returns (s: Q)
    requires Valid(d) && p in d.states && w != [] && AcceptsFrom(d, p, w)
    ensures w[0] in d.alphabet && s == d.delta[(p, w[0])] && s in d.states && AcceptsFrom(d, s, w[1..])
  {
    s := d.delta[(p, w[0])];
  }

  /** What the DFA accepts from a state, the graph reads from that state's node. */
  lemma {:induction false} AcceptedNodeReads<Q(!new), A(!new)>(d: Dfa<Q, A>, adj: Adj<Q, A>, p: Q, w: seq<A>)
    requires DfaGraph(d, adj) && p in d.states && AcceptsFrom(d, p, w)
    ensures Reads(d.states, adj, Node(p), w, |w|)
    decreases |w|
  {
    if w == [] {
      assert Matches(adj[Node(p)][Sink], w);
    } else {
      var s := AcceptsFromStep(d, p, w);
      AcceptedNodeReads(d, adj, s, w[1..]);
      EdgeStep(d, adj, p, s, w[..1]);
      EnterAt(d.states, adj, Node(p), s, w, 1, |w| - 1);
    }
  }

  /** test(w) is true exactly when the run from the start state accepts. */
  lemma AcceptsIsFromStart<Q, A>(d: Dfa<Q, A>, w: seq<A>)
    requires Valid(d)
    ensures Accepts(d, w) <==> AcceptsFrom(d, d.start, w)
  {
  }

  /** Reading from SOURCE is reading from the start state's node. */
  lemma SourceReads<Q(!new), A(!new)>(d: Dfa<Q, A>, adj: Adj<Q, A>, w: seq<A>, k: nat)
    requires DfaGraph(d, adj) && Reads(d.states, adj, Source, w, k)
    ensures k > 0 && Reads(d.states, adj, Node(d.start), w, k - 1)
  {
    var u, z, s := FirstStep(d.states, adj, Source, w, k);
    assert s == d.start && u == [];
    assert z == w;
  }

  /** The graph from_DFA builds accepts exactly the words the DFA accepts. */
  lemma DfaGraphAccepted<Q(!new), A(!new)>(d: Dfa<Q, A>, adj: Adj<Q, A>, w: seq<A>)
    requires DfaGraph(d, adj)
    ensures Accepted(d.states, adj, w) <==> Accepts(d, w)
  {
    AcceptsIsFromStart(d, w);
    if Accepted(d.states, adj, w) {
      var k: nat :| Reads(d.states, adj, Source, w, k);
      SourceReads(d, adj, w, k);
      NodeReadsAccepted(d, adj, d.start, w, k - 1);
    }
    if AcceptsFrom(d, d.start, w) {
      AcceptedNodeReads(d, adj, d.start, w);
      Enter(d.states, adj, Source, d.start, [], w, |w|);
      assert [] + w == w;
    }
  }
}

/**
 * Thompson's construction over the tagged-state combinators
 * (Converters/regex_to_nfa.py): each leaf becomes a two-state NFA over Start
 * and Accept, and each inner node combines its children's NFAs with the union,
 * concatenation or closure operator.
 */
module RegexToNfa {
  import opened Wrappers
  import opened RegexAst
  import opened ExtractAlphabet
  import opened RegexSemantics
  import opened RegularExpression
  import opened Nfas
  import opened GeneratedStates
  import opened UnionOperator
  import opened ConcatenationOperator
  import opened ClosureOperator

  // ---- the base automata --------------------------------------------------------

  /** empty_str_nfa: one ε edge from Start to Accept, over the empty alphabet. */
  function EmptyStrNfa<A>(): (r: Nfa<GState, A>)
    ensures Valid(r) && r.alphabet == {} && r.states == {Start, Accept}
  {
    Nfa({Start, Accept}, {}, map[(Start, Eps) := {Accept}, (Accept, Eps) := {}], Start, {Accept})
  }

  /** empty_lang_nfa: Start and Accept with no edge, over the empty alphabet. */
  function EmptyLangNfa<A>(): (r: Nfa<GState, A>)
    ensures Valid(r) && r.alphabet == {} && r.states == {Start, Accept}
  {
    Nfa({Start, Accept}, {}, map[], Start, {Accept})
  }

  /** symbol_nfa: one edge from Start to Accept on the symbol, over that symbol alone. */
  function SymbolNfa<A>(s: A): (r: Nfa<GState, A>)
    ensures Valid(r) && r.alphabet == {s} && r.states == {Start, Accept}
  {
    Nfa({Start, Accept}, {s},
        map[(Start, Eps) := {}, (Start, Sym(s)) := {Accept}, (Accept, Eps) := {}, (Accept, Sym(s)) := {}],
        Start, {Accept})
  }

  lemma EmptyStrLang<A>(w: seq<A>)
    ensures Lang(EmptyStrNfa<A>(), w) <==> w == []
  {
    var n := EmptyStrNfa<A>();
    EpsPostSingleton(n, Start);
    EpsPostSingleton(n, Accept);
    assert EpsClosed(n, {Start, Accept});
    ECloseLeast(n, {Start}, {Start, Accept});
    assert EClose(n, {Start}) == {Start, Accept};
    if w != [] {
      assert Post(n, {Start, Accept}, w[0]) == {};
      ECloseEmpty(n);
      AccEmpty(n, w[1..]);
    }
  }

  lemma EmptyLangLang<A>(w: seq<A>)
    ensures !Lang(EmptyLangNfa<A>(), w)
  {
    var n := EmptyLangNfa<A>();
    assert EpsClosed(n, {Start});
    ECloseOfClosed(n, {Start});
    if w != [] {
      assert Post(n, {Start}, w[0]) == {};
      ECloseEmpty(n);
      AccEmpty(n, w[1..]);
    }
  }

  lemma SymbolLang<A>(s: A, w: seq<A>)
    ensures Lang(SymbolNfa(s), w) <==> w == [s]
  {
    var n := SymbolNfa(s);
    assert EpsClosed(n, {Start});
    ECloseOfClosed(n, {Start});
    if w != [] {
      PostSingleton(n, Start, w[0]);
      ECloseEmpty(n);
      if w[0] == s {
        assert Post(n, {Start}, w[0]) == {Accept};
        assert EpsClosed(n, {Accept});
        ECloseOfClosed(n, {Accept});
        SymbolAccept(s, w[1..]);
        assert w == [s] <==> w[1..] == [];
      } else {
        assert Post(n, {Start}, w[0]) == {};
        AccEmpty(n, w[1..]);
      }
    }
  }

  /** From Accept, symbol_nfa accepts the empty word and nothing else. */
  lemma SymbolAccept<A>(s: A, w: seq<A>)
    ensures Acc(SymbolNfa(s), {Accept}, w) <==> w == []
  {
    var n := SymbolNfa(s);
    if w != [] {
      PostSingleton(n, Accept, w[0]);
      assert Move(n, Accept, Sym(w[0])) == {};
      assert Post(n, {Accept}, w[0]) == {};
      ECloseEmpty(n);
      AccEmpty(n, w[1..]);
      assert Acc(n, {Accept}, w) == Acc(n, EClose(n, {}), w[1..]);
    } else {
      assert Accept in {Accept} * n.accept;
    }
  }

  // ---- regex_ast_to_nfa -----------------------------------------------------------

  /** regex_ast_to_nfa: dispatch on the node, converting the children first. */
  function ToNfa<S(==)>(t: Regex<S>): (r: Nfa<GState, S>)
    ensures Valid(r)
  {
    match t
    case EmptyStr => EmptyStrNfa()
    case EmptyLang => EmptyLangNfa()
    case Symbol(s) => SymbolNfa(s)
    case Union(a, b) => UnionNfa(ToNfa(a), ToNfa(b))
    case Concat(a, b) => ConcatNfa(ToNfa(a), ToNfa(b))
    case Closure(a) => ClosureNfa(ToNfa(a))
  }

  /** regex_ast_to_nfa as written: the pattern SymbolNode(symbol) of line 28
    * raises on the first Symbol leaf, left child before right child. */
  function ToNfaAsWritten<S(==)>(t: Regex<S>): (r: Result<Nfa<GState, S>, SymbolNodeError>)
    ensures r.Success? ==> Valid(r.value)
  {
    match t
    case EmptyStr => Success(EmptyStrNfa())
    case EmptyLang => Success(EmptyLangNfa())
    case Symbol(_) => Failure(PositionalSubpattern)
    case Union(a, b) =>
      var l :- ToNfaAsWritten(a);
      var r :- ToNfaAsWritten(b);
      Success(UnionNfa(l, r))
    case Concat(a, b) =>
      var l :- ToNfaAsWritten(a);
      var r :- ToNfaAsWritten(b);
      Success(ConcatNfa(l, r))
    case Closure(a) =>
      var c :- ToNfaAsWritten(a);
      Success(ClosureNfa(c))
  }

  /** As written the conversion raises on every tree holding a symbol, and
    * builds the corrected automaton on every other tree. */
  lemma {:induction false} ToNfaAsWrittenRaises<S>(t: Regex<S>)
    ensures ToNfaAsWritten(t)
         == if Alphabet(t) == {} then Success(ToNfa(t)) else Failure(PositionalSubpattern)
  {
    match t
    case EmptyStr =>
    case EmptyLang =>
    case Symbol(_) =>
    case Union(a, b) => ToNfaAsWrittenRaises(a); ToNfaAsWrittenRaises(b);
    case Concat(a, b) => ToNfaAsWrittenRaises(a); ToNfaAsWrittenRaises(b);
    case Closure(a) => ToNfaAsWrittenRaises(a);
  }

  /** regex_to_nfa: the automaton of the regex's tree; the regex's declared
    * alphabet is not consulted. */
  function RegexToNfaOf<S(==)>(r: RegexValue<S>): (n: Nfa<GState, S>)
    ensures Valid(n) && n.alphabet == Alphabet(r.ast)
  {
    ToNfaAlphabet(r.ast);
    ToNfa(r.ast)
  }

  /** The automaton's alphabet is the tree's implied alphabet. */
  lemma {:induction false} ToNfaAlphabet<S>(t: Regex<S>)
    ensures ToNfa(t).alphabet == Alphabet(t)
  {
    match t
    case EmptyStr =>
    case EmptyLang =>
    case Symbol(s) =>
    case Union(a, b) => ToNfaAlphabet(a); ToNfaAlphabet(b);
    case Concat(a, b) => ToNfaAlphabet(a); ToNfaAlphabet(b);
    case Closure(a) => ToNfaAlphabet(a);
  }

  /** Two states per leaf and one per Union and per Closure node. */
  lemma {:induction false} ToNfaSize<S>(t: Regex<S>)
    ensures |ToNfa(t).states| == 2 * Leaves(t) + Unions(t) + Closures(t)
  {
    match t
    case EmptyStr =>
    case EmptyLang =>
    case Symbol(s) =>
    case Union(a, b) =>
      ToNfaSize(a); ToNfaSize(b);
      UnionSize(ToNfa(t), ToNfa(a), ToNfa(b));
    case Concat(a, b) =>
      ToNfaSize(a); ToNfaSize(b);
      ConcatSize(ToNfa(t), ToNfa(a), ToNfa(b));
    case Closure(a) =>
      ToNfaSize(a);
      ClosureSize(ToNfa(t), ToNfa(a));
  }

  /** The automaton recognises exactly the words the tree matches. */
  lemma {:induction false} ToNfaCorrect<S>(t: Regex<S>, w: seq<S>)
    ensures Lang(ToNfa(t), w) <==> Matches(t, w)
    decreases t, 1
  {
    match t
    case EmptyStr => EmptyStrLang<S>(w);
    case EmptyLang => EmptyLangLang<S>(w);
    case Symbol(s) => SymbolLang(s, w);
    case Union(a, b) =>
      UnionLang(ToNfa(a), ToNfa(b), w);
      ToNfaCorrect(a, w);
      ToNfaCorrect(b, w);
    case Concat(a, b) => ConcatCorrect(a, b, w);
    case Closure(a) =>
      ClosureLang(ToNfa(a), w);
      StarMatches(a, w);
  }

  lemma ConcatCorrect<S>(a: Regex<S>, b: Regex<S>, w: seq<S>)
    ensures Lang(ToNfa(Concat(a, b)), w) <==> Matches(Concat(a, b), w)
    decreases Concat(a, b), 0
  {
    ConcatLang(ToNfa(a), ToNfa(b), w);
    forall i | 0 <= i <= |w|
      ensures (Lang(ToNfa(a), w[..i]) <==> Matches(a, w[..i])) && (Lang(ToNfa(b), w[i..]) <==> Matches(b, w[i..]))
    {
      ToNfaCorrect(a, w[..i]);
      ToNfaCorrect(b, w[i..]);
    }
  }

  /** The automaton's Star words are the Closure's matches. */
  lemma StarMatches<S>(a: Regex<S>, w: seq<S>)
    ensures Star(ToNfa(a), w) <==> Matches(Closure(a), w)
    decreases Closure(a), 0, |w|
  {
    if Star(ToNfa(a), w) {
      StarMatchesOut(a, w);
    }
    if Matches(Closure(a), w) {
      StarMatchesIn(a, w);
    }
  }

  lemma {:induction false} StarMatchesOut<S>(a: Regex<S>, w: seq<S>)
    requires Star(ToNfa(a), w)
    ensures Matches(Closure(a), w)
    decreases Closure(a), 0, |w|, 0
  {
    var n := ToNfa(a);
    if w != [] {
      var i :| 1 <= i <= |w| && Lang(n, w[..i]) && Star(n, w[i..]);
      ToNfaCorrect(a, w[..i]);
      StarMatchesOut(a, w[i..]);
    }
  }

  lemma {:induction false} StarMatchesIn<S>(a: Regex<S>, w: seq<S>)
    requires Matches(Closure(a), w)
    ensures Star(ToNfa(a), w)
    decreases Closure(a), 0, |w|, 0
  {
    var n := ToNfa(a);
    if w != [] {
      var i :| 1 <= i <= |w| && Matches(a, w[..i]) && Matches(Closure(a), w[i..]);
      ToNfaCorrect(a, w[..i]);
      StarMatchesIn(a, w[i..]);
    }
  }
}

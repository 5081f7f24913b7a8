/** The alphabet implied by a syntax tree (RegularExpressions/extract_alphabet.py). */
module ExtractAlphabet {
  import opened RegexAst
  import Wrappers

  /** Union and Concat join their children's alphabets, Closure keeps its
    * child's, a Symbol contributes itself and the two constants nothing. */
  function Alphabet<S>(r: Regex<S>): set<S>
  {
    match r
    case Union(a, b) => Alphabet(a) + Alphabet(b)
    case Concat(a, b) => Alphabet(a) + Alphabet(b)
    case Closure(a) => Alphabet(a)
    case Symbol(s) => {s}
    case EmptyStr => {}
    case EmptyLang => {}
  }

  /** The walk as written (extract_alphabet.py:12-23): the pattern
    * SymbolNode(symbol) at line 19 raises on the first Symbol leaf reached. */
  function AlphabetAsWritten<S>(r: Regex<S>): Wrappers.Result<set<S>, SymbolNodeError>
  {
    match r
    case Union(a, b) =>
      var x :- AlphabetAsWritten(a);
      var y :- AlphabetAsWritten(b);
      Wrappers.Success(x + y)
    case Concat(a, b) =>
      var x :- AlphabetAsWritten(a);
      var y :- AlphabetAsWritten(b);
      Wrappers.Success(x + y)
    case Closure(a) => AlphabetAsWritten(a)
    case Symbol(_) => Wrappers.Failure(PositionalSubpattern)
    case EmptyStr => Wrappers.Success({})
    case EmptyLang => Wrappers.Success({})
  }

  /** As written, the walk returns only for trees without a symbol, where the
    * alphabet is empty, and raises on every other tree. */
  lemma {:induction false} AlphabetAsWrittenRaises<S>(r: Regex<S>)
    ensures AlphabetAsWritten(r)
         == if Alphabet(r) == {} then Wrappers.Success({}) else Wrappers.Failure(PositionalSubpattern)
  {
    match r
    case Union(a, b) => AlphabetAsWrittenRaises(a); AlphabetAsWrittenRaises(b);
    case Concat(a, b) => AlphabetAsWrittenRaises(a); AlphabetAsWrittenRaises(b);
    case Closure(a) => AlphabetAsWrittenRaises(a);
    case _ =>
  }

  /** A symbol is in the alphabet exactly when a Symbol leaf carrying it occurs. */
  lemma {:induction false} AlphabetIsSymbolLeaves<S>(r: Regex<S>, s: S)
    ensures s in Alphabet(r) <==> Symbol(s) in Subterms(r)
  {
    match r
    case Concat(a, b) => AlphabetIsSymbolLeaves(a, s); AlphabetIsSymbolLeaves(b, s);
    case Union(a, b) => AlphabetIsSymbolLeaves(a, s); AlphabetIsSymbolLeaves(b, s);
    case Closure(a) => AlphabetIsSymbolLeaves(a, s);
    case _ =>
  }
}

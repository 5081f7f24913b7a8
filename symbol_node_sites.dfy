/**
 * The tree walkers side by side, as written and corrected, around SymbolNode
 * (RegularExpressions/regex_ast.py:30-31).  As written, each walker that
 * matches `SymbolNode(x)` raises on a tree exactly when the tree holds a
 * symbol; the corrected walkers, which read a Symbol leaf's symbol, keep the
 * tree's language.
 */
module SymbolNodeSites {
  import opened RegexAst
  import opened RegexSemantics
  import opened ExtractAlphabet
  import opened RegularExpression
  import Nfas
  import Simplify
  import Dnf
  import RegexToNfa
  import IdThompson
  import IdThompsonLanguage

  /** Alphabet extraction, simplification, DNF conversion and both Thompson
    * constructions, as written, fail on a tree if and only if it holds a symbol. */
  lemma WalkersRaiseOnSymbols<S(!new)>(t: Regex<S>)
    ensures AlphabetAsWritten(t).Failure? <==> Alphabet(t) != {}
    ensures Simplify.SimplifyAsWritten(t).Failure? <==> Alphabet(t) != {}
    ensures Dnf.ToDnfAsWritten(t).Failure? <==> Alphabet(t) != {}
    ensures RegexToNfa.ToNfaAsWritten(t).Failure? <==> Alphabet(t) != {}
    ensures IdThompson.IdRowsAsWritten(t, 0).Failure? <==> Alphabet(t) != {}
  {
    AlphabetAsWrittenRaises(t);
    Simplify.AsWrittenRaisesOnSymbols(t);
    Dnf.AsWrittenRaisesOnSymbols(t);
    RegexToNfa.ToNfaAsWrittenRaises(t);
    IdThompson.IdRowsAsWrittenRaises(t, 0);
  }

  /** The corrected walkers: simplification and DNF conversion keep the words a
    * tree matches, and both Thompson constructions accept exactly those words. */
  lemma CorrectedWalkersSound<S(!new)>(t: Regex<S>, w: seq<S>)
    ensures Matches(Simplify.Simplify(t), w) <==> Matches(t, w)
    ensures Matches(Dnf.ToDnf(t), w) <==> Matches(t, w)
    ensures Nfas.Lang(RegexToNfa.ToNfa(t), w) <==> Matches(t, w)
    ensures Nfas.Lang(IdThompson.RegexToIdNfa(RegexValue(Alphabet(t), t)), w) <==> Matches(t, w)
  {
    Simplify.SimplifySound(t);
    Dnf.ToDnfSound(t);
    RegexToNfa.ToNfaCorrect(t, w);
    IdThompsonLanguage.RegexToIdNfaLang(RegexValue(Alphabet(t), t), w);
  }
}

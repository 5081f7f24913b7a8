/**
 * Rewriting towards disjunctive normal form (RegularExpressions/regex_ast_to_DNF.py).
 * Unions are rebuilt, a Closure over a Union uses (a|b)* = (a*b*)*, and a Concat
 * with a Union operand is distributed.  ToDnf distributes the one-sided cases by
 * the distributive law the source's comment states; ToDnfAsWritten keeps the
 * source's second arms, which are Unions instead of Concats, and raises at the
 * base case's pattern SymbolNode(_) (see RegexAst.SymbolNodeError).
 */
module Dnf {
  import opened Wrappers
  import opened RegexAst
  import opened ExtractAlphabet
  import opened RegexSemantics

  /** The Closure rule, applied to the rewritten child. */
  function DnfClosure<S>(c: Regex<S>): (r: Regex<S>)
    ensures Alphabet(r) == Alphabet(c)
  {
    if c.Union? then
      assert Alphabet(c) == Alphabet(c.left) + Alphabet(c.right);
      assert Alphabet(Concat(Closure(c.left), Closure(c.right))) == Alphabet(c);
      Closure(Concat(Closure(c.left), Closure(c.right)))
    else Closure(c)
  }

  /** The Concat rules, corrected: a(b|c) = ab|ac and (a|b)c = ac|bc. */
  function Distribute<S>(l: Regex<S>, r: Regex<S>): (x: Regex<S>)
    ensures Alphabet(x) == Alphabet(l) + Alphabet(r)
  {
    if l.Union? && r.Union? then
      assert Alphabet(l) == Alphabet(l.left) + Alphabet(l.right);
      assert Alphabet(r) == Alphabet(r.left) + Alphabet(r.right);
      assert Alphabet(Union(Concat(l.left, r.left), Concat(l.left, r.right))) == Alphabet(l.left) + Alphabet(r);
      assert Alphabet(Union(Concat(l.right, r.left), Concat(l.right, r.right))) == Alphabet(l.right) + Alphabet(r);
      Union(Union(Concat(l.left, r.left), Concat(l.left, r.right)),
            Union(Concat(l.right, r.left), Concat(l.right, r.right)))
    else if r.Union? then Union(Concat(l, r.left), Concat(l, r.right))
    else if l.Union? then Union(Concat(l.left, r), Concat(l.right, r))
    else Concat(l, r)
  }

  /** The Concat rules as written: the one-sided cases give a(b|c) -> ab|(a|c)
    * and (a|b)c -> ac|(b|c). */
  function DistributeAsWritten<S>(l: Regex<S>, r: Regex<S>): (x: Regex<S>)
    ensures Alphabet(x) == Alphabet(l) + Alphabet(r)
  {
    if l.Union? && r.Union? then
      assert Alphabet(l) == Alphabet(l.left) + Alphabet(l.right);
      assert Alphabet(r) == Alphabet(r.left) + Alphabet(r.right);
      assert Alphabet(Union(Concat(l.left, r.left), Concat(l.left, r.right))) == Alphabet(l.left) + Alphabet(r);
      assert Alphabet(Union(Concat(l.right, r.left), Concat(l.right, r.right))) == Alphabet(l.right) + Alphabet(r);
      Union(Union(Concat(l.left, r.left), Concat(l.left, r.right)),
            Union(Concat(l.right, r.left), Concat(l.right, r.right)))
    else if r.Union? then Union(Concat(l, r.left), Union(l, r.right))
    else if l.Union? then Union(Concat(l.left, r), Union(l.right, r))
    else Concat(l, r)
  }

  /** The rewrite with the distributive law applied as intended. */
  function ToDnf<S>(t: Regex<S>): (r: Regex<S>)
    ensures Alphabet(r) == Alphabet(t)
  {
    match t
    case Symbol(_) => t
    case EmptyLang => t
    case EmptyStr => t
    case Union(a, b) => Union(ToDnf(a), ToDnf(b))
    case Closure(c) => DnfClosure(ToDnf(c))
    case Concat(a, b) => Distribute(ToDnf(a), ToDnf(b))
  }

  /** The rewrite as written: a Symbol leaf raises at line 11; elsewhere the
    * result keeps the alphabet. */
  function ToDnfAsWritten<S>(t: Regex<S>): (r: Result<Regex<S>, SymbolNodeError>)
    ensures r.Success? ==> Alphabet(r.value) == Alphabet(t)
  {
    match t
    case Symbol(_) => Failure(PositionalSubpattern)
    case EmptyLang => Success(t)
    case EmptyStr => Success(t)
    case Union(a, b) =>
      var a' :- ToDnfAsWritten(a);
      var b' :- ToDnfAsWritten(b);
      Success(Union(a', b'))
    case Closure(c) =>
      var c' :- ToDnfAsWritten(c);
      Success(DnfClosure(c'))
    case Concat(a, b) =>
      var a' :- ToDnfAsWritten(a);
      var b' :- ToDnfAsWritten(b);
      Success(DistributeAsWritten(a', b'))
  }

  /** As written the rewrite returns exactly on the trees without a symbol. */
  lemma {:induction false} AsWrittenRaisesOnSymbols<S>(t: Regex<S>)
    ensures ToDnfAsWritten(t).Success? <==> Alphabet(t) == {}
  {
    match t
    case Symbol(_) =>
    case EmptyLang =>
    case EmptyStr =>
    case Union(a, b) => AsWrittenRaisesOnSymbols(a); AsWrittenRaisesOnSymbols(b);
    case Closure(c) => AsWrittenRaisesOnSymbols(c);
    case Concat(a, b) => AsWrittenRaisesOnSymbols(a); AsWrittenRaisesOnSymbols(b);
  }

  lemma DnfClosureSound<S(!new)>(c: Regex<S>)
    ensures Equiv(DnfClosure(c), Closure(c))
  {
    if c.Union? { StarOfUnion(c.left, c.right); }
  }

  lemma DistributeSound<S(!new)>(l: Regex<S>, r: Regex<S>)
    ensures Equiv(Distribute(l, r), Concat(l, r))
  {
    if l.Union? && r.Union? {
      var a, b, c, d := l.left, l.right, r.left, r.right;
      DistributeRight(a, b, r);
      DistributeLeft(a, c, d);
      DistributeLeft(b, c, d);
      UnionCongruent(Concat(a, r), Union(Concat(a, c), Concat(a, d)),
                     Concat(b, r), Union(Concat(b, c), Concat(b, d)));
    } else if r.Union? {
      DistributeLeft(l, r.left, r.right);
    } else if l.Union? {
      DistributeRight(l.left, l.right, r);
    }
  }

  /** The corrected rewrite preserves the language on every word. */
  lemma {:induction false} ToDnfSound<S(!new)>(t: Regex<S>)
    ensures Equiv(ToDnf(t), t)
  {
    match t
    case Symbol(_) =>
    case EmptyLang =>
    case EmptyStr =>
    case Union(a, b) =>
      ToDnfSound(a);
      ToDnfSound(b);
      UnionCongruent(ToDnf(a), a, ToDnf(b), b);
    case Closure(c) =>
      ToDnfSound(c);
      DnfClosureSound(ToDnf(c));
      ClosureCongruent(ToDnf(c), c);
    case Concat(a, b) =>
      ToDnfSound(a);
      ToDnfSound(b);
      DistributeSound(ToDnf(a), ToDnf(b));
      ConcatCongruent(ToDnf(a), a, ToDnf(b), b);
  }

  /** ∅(ε|ε), a tree without a symbol, so the rewrite as written reaches line 40. */
  const EmptyTimesUnion: Regex<int> := Concat(EmptyLang, Union(EmptyStr, EmptyStr))

  /** As written, ∅(ε|ε) is rewritten to ∅ε|(∅|ε), which matches the empty
    * word, while ∅(ε|ε) matches nothing. */
  lemma AsWrittenChangesLanguage()
    ensures ToDnfAsWritten(EmptyTimesUnion) == Success(Union(Concat(EmptyLang, EmptyStr), Union(EmptyLang, EmptyStr)))
    ensures Matches(ToDnfAsWritten(EmptyTimesUnion).value, [])
    ensures !Matches(EmptyTimesUnion, [])
  {
    var w: seq<int> := [];
    assert Matches(Union(EmptyLang, EmptyStr), w);
    assert !Matches(EmptyLang, w[..0]);
  }

  /** Some Concat node has a Union as an operand. */
  predicate UnionUnderConcat<S>(r: Regex<S>)
  {
    match r
    case Concat(a, b) => a.Union? || b.Union? || UnionUnderConcat(a) || UnionUnderConcat(b)
    case Union(a, b) => UnionUnderConcat(a) || UnionUnderConcat(b)
    case Closure(a) => UnionUnderConcat(a)
    case _ => false
  }

  /** Distributed pieces are not rewritten again: (0|1)(2|(3|4)) keeps the
    * Concat 0(3|4) after one pass. */
  lemma SinglePassLeavesUnionUnderConcat()
    ensures UnionUnderConcat(ToDnf(Concat(Union(Symbol(0), Symbol(1)),
                                          Union(Symbol(2), Union(Symbol(3), Symbol(4))))))
  {
    var r := Union(Symbol(2), Union(Symbol(3), Symbol(4)));
    assert ToDnf(r) == r;
    assert ToDnf(Union(Symbol(0), Symbol(1))) == Union(Symbol(0), Symbol(1));
  }
}

/**
 * Bottom-up algebraic simplification (RegularExpressions/simplify_regex_ast.py).
 * Children are simplified first, then one rule is tried at the rebuilt node.
 * Simplify is the intended behaviour.  SimplifyAsWritten records the two ways the
 * source raises: the base case's pattern SymbolNode(_) fails on every Symbol leaf
 * (see RegexAst.SymbolNodeError), and the a*a* rule calls the Concat constructor
 * with one argument.
 */
module Simplify {
  import opened Wrappers
  import opened RegexAst
  import opened ExtractAlphabet
  import opened RegexSemantics

  /** The source fails with a TypeError at the a*a* rule (ConcatArityError)
    * or at the pattern SymbolNode(_) of line 12 (SymbolPatternError). */
  datatype SimplifyError = ConcatArityError | SymbolPatternError

  /** No Closure of ∅, of ε or of another Closure occurs anywhere in r. */
  predicate ClosureNormal<S>(r: Regex<S>)
  {
    match r
    case Closure(a) => !a.EmptyLang? && !a.EmptyStr? && !a.Closure? && ClosureNormal(a)
    case Union(a, b) => ClosureNormal(a) && ClosureNormal(b)
    case Concat(a, b) => ClosureNormal(a) && ClosureNormal(b)
    case _ => true
  }

  /** Rules for Closure(c), c already simplified: ∅* and ε* become ε, (a*)* becomes a*. */
  function SimplifyClosureNode<S>(c: Regex<S>): (r: Regex<S>)
    ensures Size(r) <= 1 + Size(c) && Alphabet(r) == Alphabet(c)
    ensures ClosureNormal(c) ==> ClosureNormal(r)
  {
    match c
    case EmptyLang => EmptyStr
    case EmptyStr => EmptyStr
    case Closure(a) => Closure(a)
    case _ => Closure(c)
  }

  /** The rule ε|a(a*), ε|(a*)a, a(a*)|ε, (a*)a|ε  ->  a*.  As with a Python
    * or-pattern, the first alternative whose shape fits binds a and b, and
    * only then is the guard a == b evaluated. */
  function StarRule<S(==)>(l: Regex<S>, r: Regex<S>): (x: Option<Regex<S>>)
    ensures x.Some? ==> Size(x.value) < 1 + Size(l) + Size(r)
    ensures x.Some? ==> Alphabet(x.value) <= Alphabet(l) + Alphabet(r)
    ensures x.Some? && ClosureNormal(l) && ClosureNormal(r) ==> ClosureNormal(x.value)
  {
    if l.EmptyStr? && r.Concat? && r.right.Closure? then
      (if r.left == r.right.child then Some(Closure(r.left)) else None)
    else if l.EmptyStr? && r.Concat? && r.left.Closure? then
      (if r.left.child == r.right then Some(Closure(r.left.child)) else None)
    else if r.EmptyStr? && l.Concat? && l.right.Closure? then
      (if l.left == l.right.child then Some(Closure(l.left)) else None)
    else if r.EmptyStr? && l.Concat? && l.left.Closure? then
      (if l.left.child == l.right then Some(Closure(l.left.child)) else None)
    else None
  }

  /** Rules for Union(l, r), in source order: x|x, then ∅|a and a|∅, then StarRule. */
  function SimplifyUnionNode<S(==)>(l: Regex<S>, r: Regex<S>): (x: Regex<S>)
    ensures Size(x) <= 1 + Size(l) + Size(r) && Alphabet(x) <= Alphabet(l) + Alphabet(r)
    ensures ClosureNormal(l) && ClosureNormal(r) ==> ClosureNormal(x)
  {
    if l == r then l
    else if l.EmptyLang? then r
    else if r.EmptyLang? then l
    else match StarRule(l, r)
      case Some(x) => x
      case None => Union(l, r)
  }

  /** Rules for Concat(l, r), in source order: ε·a and a·ε, then ∅·a and a·∅,
    * then a*·a* with the evidently intended result a*. */
  function SimplifyConcatNode<S(==)>(l: Regex<S>, r: Regex<S>): (x: Regex<S>)
    ensures Size(x) <= 1 + Size(l) + Size(r) && Alphabet(x) <= Alphabet(l) + Alphabet(r)
    ensures ClosureNormal(l) && ClosureNormal(r) ==> ClosureNormal(x)
  {
    if l.EmptyStr? then r
    else if r.EmptyStr? then l
    else if l.EmptyLang? || r.EmptyLang? then EmptyLang
    else if l.Closure? && r.Closure? && l.child == r.child then Closure(l.child)
    else Concat(l, r)
  }

  /** The simplifier with the a*·a* rule corrected. */
  function Simplify<S(==)>(t: Regex<S>): (r: Regex<S>)
    ensures Size(r) <= Size(t)
    ensures Alphabet(r) <= Alphabet(t)
    ensures ClosureNormal(r)
  {
    match t
    case Symbol(_) => t
    case EmptyLang => t
    case EmptyStr => t
    case Closure(c) => SimplifyClosureNode(Simplify(c))
    case Union(a, b) => SimplifyUnionNode(Simplify(a), Simplify(b))
    case Concat(a, b) => SimplifyConcatNode(Simplify(a), Simplify(b))
  }

  /** The Concat rules as written: the a*·a* branch raises. */
  function SimplifyConcatNodeAsWritten<S(==)>(l: Regex<S>, r: Regex<S>): Result<Regex<S>, SimplifyError>
  {
    if l.Closure? && r.Closure? && l.child == r.child then Failure(ConcatArityError)
    else Success(SimplifyConcatNode(l, r))
  }

  /** The simplifier as written; a failure anywhere propagates to the caller. */
  function SimplifyAsWritten<S(==)>(t: Regex<S>): Result<Regex<S>, SimplifyError>
  {
    match t
    case Symbol(_) => Failure(SymbolPatternError)
    case EmptyLang => Success(t)
    case EmptyStr => Success(t)
    case Closure(c) =>
      var c' :- SimplifyAsWritten(c);
      Success(SimplifyClosureNode(c'))
    case Union(a, b) =>
      var a' :- SimplifyAsWritten(a);
      var b' :- SimplifyAsWritten(b);
      Success(SimplifyUnionNode(a', b'))
    case Concat(a, b) =>
      var a' :- SimplifyAsWritten(a);
      var b' :- SimplifyAsWritten(b);
      SimplifyConcatNodeAsWritten(a', b')
  }

  // ---- Soundness ---------------------------------------------------------

  lemma ClosureNodeSound<S(!new)>(c: Regex<S>)
    ensures Equiv(SimplifyClosureNode(c), Closure(c))
  {
    match c
    case EmptyLang =>
      forall w ensures Matches(EmptyStr, w) <==> Matches(Closure(c), w) { StarOfNothing(w); }
    case EmptyStr =>
      forall w ensures Matches(EmptyStr, w) <==> Matches(Closure(c), w) { StarOfNothing(w); }
    case Closure(a) => StarStar(a);
    case _ =>
  }

  lemma StarRuleSound<S(!new)>(l: Regex<S>, r: Regex<S>)
    requires StarRule(l, r).Some?
    ensures Equiv(StarRule(l, r).value, Union(l, r))
  {
    var x := StarRule(l, r).value;
    forall w ensures Matches(x, w) <==> Matches(Union(l, r), w) {
      if l.EmptyStr? && r.Concat? && r.right.Closure? {
        StarUnrollFirst(r.left, w);
      } else if l.EmptyStr? && r.Concat? && r.left.Closure? {
        StarUnrollLast(r.right, w);
      } else if r.EmptyStr? && l.Concat? && l.right.Closure? {
        StarUnrollFirst(l.left, w);
      } else {
        StarUnrollLast(l.right, w);
      }
    }
  }

  lemma UnionNodeSound<S(!new)>(l: Regex<S>, r: Regex<S>)
    ensures Equiv(SimplifyUnionNode(l, r), Union(l, r))
  {
    if l != r && !l.EmptyLang? && !r.EmptyLang? && StarRule(l, r).Some? {
      StarRuleSound(l, r);
    }
  }

  lemma ConcatNodeSound<S(!new)>(l: Regex<S>, r: Regex<S>)
    ensures Equiv(SimplifyConcatNode(l, r), Concat(l, r))
  {
    if l.EmptyStr? {
      ConcatUnit(r);
    } else if r.EmptyStr? {
      ConcatUnit(l);
    } else if l.EmptyLang? {
      ConcatZero(r);
    } else if r.EmptyLang? {
      ConcatZero(l);
    } else if l.Closure? && r.Closure? && l.child == r.child {
      StarConcatStar(l.child);
    }
  }

  /** Simplification preserves the language on every word. */
  lemma {:induction false} SimplifySound<S(!new)>(t: Regex<S>)
    ensures Equiv(Simplify(t), t)
  {
    match t
    case Symbol(_) =>
    case EmptyLang =>
    case EmptyStr =>
    case Closure(c) =>
      SimplifySound(c);
      ClosureNodeSound(Simplify(c));
      ClosureCongruent(Simplify(c), c);
    case Union(a, b) =>
      SimplifySound(a);
      SimplifySound(b);
      UnionNodeSound(Simplify(a), Simplify(b));
      UnionCongruent(Simplify(a), a, Simplify(b), b);
    case Concat(a, b) =>
      SimplifySound(a);
      SimplifySound(b);
      ConcatNodeSound(Simplify(a), Simplify(b));
      ConcatCongruent(Simplify(a), a, Simplify(b), b);
  }

  /** Word-level form of SimplifySound. */
  lemma SimplifyMatches<S(!new)>(t: Regex<S>, w: seq<S>)
    ensures Matches(Simplify(t), w) <==> Matches(t, w)
  {
    SimplifySound(t);
  }

  // ---- The source as written ---------------------------------------------

  /** A tree without a symbol simplifies to ε or to ∅. */
  lemma {:induction false} SymbolFreeSimplifies<S>(t: Regex<S>)
    requires Alphabet(t) == {}
    ensures Simplify(t) == EmptyStr || Simplify(t) == EmptyLang
  {
    match t
    case Symbol(_) =>
    case EmptyLang =>
    case EmptyStr =>
    case Closure(c) => SymbolFreeSimplifies(c);
    case Union(a, b) => SymbolFreeSimplifies(a); SymbolFreeSimplifies(b);
    case Concat(a, b) => SymbolFreeSimplifies(a); SymbolFreeSimplifies(b);
  }

  /** As written the simplifier raises on every tree holding a symbol, and
    * returns the corrected result on every other tree; the a*a* rule is never
    * reached, since below it only ε and ∅ remain. */
  lemma {:induction false} AsWrittenRaisesOnSymbols<S>(t: Regex<S>)
    ensures SimplifyAsWritten(t)
         == if Alphabet(t) == {} then Success(Simplify(t)) else Failure(SymbolPatternError)
  {
    match t
    case Symbol(_) =>
    case EmptyLang =>
    case EmptyStr =>
    case Closure(c) => AsWrittenRaisesOnSymbols(c);
    case Union(a, b) => AsWrittenRaisesOnSymbols(a); AsWrittenRaisesOnSymbols(b);
    case Concat(a, b) =>
      AsWrittenRaisesOnSymbols(a);
      AsWrittenRaisesOnSymbols(b);
      if Alphabet(t) == {} {
        SymbolFreeSimplifies(a);
        SymbolFreeSimplifies(b);
      }
  }

  /** The a*a* rule as written raises on s*·s*, whose intended result is s*,
    * which matches the same words; on the whole tree s*s* the Symbol pattern
    * raises first. */
  lemma AsWrittenFailsOnStarStar(s: int)
    ensures SimplifyConcatNodeAsWritten(Closure(Symbol(s)), Closure(Symbol(s))) == Failure(ConcatArityError)
    ensures SimplifyAsWritten(Concat(Closure(Symbol(s)), Closure(Symbol(s)))) == Failure(SymbolPatternError)
    ensures Simplify(Concat(Closure(Symbol(s)), Closure(Symbol(s)))) == Closure(Symbol(s))
  {
    var a := Closure(Symbol(s));
    assert SimplifyAsWritten(a) == Failure(SymbolPatternError);
    assert Simplify(a) == a;
  }
}

/**
 * The regular-expression syntax tree (RegularExpressions/regex_ast.py).
 * A tree is exactly one of six kinds; Concat and Union hold an ordered pair,
 * Closure one child, and the two constants no data.  Datatype equality is
 * structural, which is the equality the simplifier's guards rely on.
 */
module RegexAst {
  datatype Regex<S> =
    | Concat(left: Regex<S>, right: Regex<S>)
    | Union(left: Regex<S>, right: Regex<S>)
    | Closure(child: Regex<S>)
    | Symbol(symbol: S)
    | EmptyStr
    | EmptyLang

  /** SymbolNode (regex_ast.py:30-31) is a plain class, not a dataclass like
    * the other five node kinds: it has neither an __init__ taking the symbol
    * nor __match_args__.  A call SymbolNode(s) therefore raises a TypeError
    * (ConstructorArgument), and so does a class pattern SymbolNode(x) with a
    * positional sub-pattern once the subject is a SymbolNode
    * (PositionalSubpattern).  A Symbol leaf of the model stands for a
    * SymbolNode whose symbol attribute was set after construction. */
  datatype SymbolNodeError = ConstructorArgument | PositionalSubpattern

  /** Number of nodes in the tree. */
  function Size<S>(r: Regex<S>): (n: nat)
    ensures n >= 1
  {
    match r
    case Concat(a, b) => 1 + Size(a) + Size(b)
    case Union(a, b) => 1 + Size(a) + Size(b)
    case Closure(a) => 1 + Size(a)
    case _ => 1
  }

  /** Number of Symbol, EmptyStr and EmptyLang leaves. */
  function Leaves<S>(r: Regex<S>): nat
  {
    match r
    case Concat(a, b) => Leaves(a) + Leaves(b)
    case Union(a, b) => Leaves(a) + Leaves(b)
    case Closure(a) => Leaves(a)
    case _ => 1
  }

  /** Number of Union nodes. */
  function Unions<S>(r: Regex<S>): nat
  {
    match r
    case Concat(a, b) => Unions(a) + Unions(b)
    case Union(a, b) => 1 + Unions(a) + Unions(b)
    case Closure(a) => Unions(a)
    case _ => 0
  }

  /** Number of Closure nodes. */
  function Closures<S>(r: Regex<S>): nat
  {
    match r
    case Concat(a, b) => Closures(a) + Closures(b)
    case Union(a, b) => Closures(a) + Closures(b)
    case Closure(a) => 1 + Closures(a)
    case _ => 0
  }

  /** Every subtree of r, r included. */
  function Subterms<S(==)>(r: Regex<S>): set<Regex<S>>
  {
    match r
    case Concat(a, b) => {r} + Subterms(a) + Subterms(b)
    case Union(a, b) => {r} + Subterms(a) + Subterms(b)
    case Closure(a) => {r} + Subterms(a)
    case _ => {r}
  }
}

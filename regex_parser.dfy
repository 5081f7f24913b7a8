/**
 * The shift-reduce regex parser (RegularExpressions/regex_parser.py).  A
 * stack holds syntax trees and the operator tokens not yet reduced; at each
 * step the parser reduces `( node )`, then `node *`, then `node node` when
 * the next token is not `*`, then `node | node` when the next token is
 * neither `*` nor a symbol, and otherwise shifts the next token.
 *
 * The parser is modelled in two modes.  AsWritten is the code as it stands:
 * the reduction guards look at the next token even when the stream is
 * exhausted, which raises, and building a symbol leaf raises because the
 * leaf class takes no constructor arguments.  Intended lets an exhausted
 * stream pass both guards and builds symbol leaves; the rest of the model
 * uses it.
 */
module RegexParser {
  import opened Wrappers
  import opened RegexAst
  import opened RegexTokens
  import opened Streams

  /** An entry of the parse stack: a finished tree, or a token pushed as-is. */
  datatype Item<S> = Node(ast: Regex<S>) | Tok(token: Token<S>)

  datatype ParseError =
    | InvalidSyntax      // no rule applies, or the final entry is not a tree
    | PeekOutOfBounds    // a guard looked past the end of the stream
    | SymbolLeafArity    // a symbol leaf was built with an argument its class does not take
    | EmptyStack         // the final stack was empty

  datatype Mode = AsWritten | Intended

  /** The top of the stack reads `( node )`. */
  predicate ParenTop<S>(stack: seq<Item<S>>)
  {
    var n := |stack|;
    n >= 3 && stack[n - 3].Tok? && stack[n - 3].token.LParenToken? && stack[n - 2].Node?
    && stack[n - 1].Tok? && stack[n - 1].token.RParenToken?
  }

  /** The top of the stack reads `node *`. */
  predicate ClosureTop<S>(stack: seq<Item<S>>)
  {
    var n := |stack|;
    n >= 2 && stack[n - 2].Node? && stack[n - 1].Tok? && stack[n - 1].token.ClosureToken?
  }

  /** The top of the stack reads `node node`. */
  predicate ConcatTop<S>(stack: seq<Item<S>>)
  {
    var n := |stack|;
    n >= 2 && stack[n - 2].Node? && stack[n - 1].Node?
  }

  /** The top of the stack reads `node | node`. */
  predicate UnionTop<S>(stack: seq<Item<S>>)
  {
    var n := |stack|;
    n >= 3 && stack[n - 3].Node? && stack[n - 2].Tok? && stack[n - 2].token.UnionToken? && stack[n - 1].Node?
  }

  /** The next token is a closure token. */
  predicate NextIsClosure<S>(toks: seq<Token<S>>)
  {
    toks != [] && toks[0].ClosureToken?
  }

  /** The next token is a closure token or a symbol. */
  predicate NextIsClosureOrSymbol<S>(toks: seq<Token<S>>)
  {
    toks != [] && (toks[0].ClosureToken? || toks[0].SymbolToken?)
  }

  /** What a shift pushes: symbol, empty-string and empty-language tokens as
    * leaves, every other token as itself. */
  function Shift<S>(t: Token<S>): (it: Item<S>)
    ensures it.Node? <==> (t.SymbolToken? || t.EmptyStrToken? || t.EmptyLangToken?)
    ensures it.Tok? ==> it.token == t
  {
    match t
    case SymbolToken(s) => Node(Symbol(s))
    case EmptyStrToken => Node(EmptyStr)
    case EmptyLangToken => Node(EmptyLang)
    case _ => Tok(t)
  }

  /** One pass of the loop body on stack and the tokens left.  Every pass
    * that does not fail shrinks 2 * |toks| + |stack|: a reduction pops one
    * or two entries, a shift moves one token onto the stack. */
  function Step<S>(stack: seq<Item<S>>, toks: seq<Token<S>>, mode: Mode): (r: Result<(seq<Item<S>>, seq<Token<S>>), ParseError>)
    ensures r.Success? ==> 2 * |r.value.1| + |r.value.0| < 2 * |toks| + |stack|
    ensures r.Failure? && r.error == PeekOutOfBounds ==> mode == AsWritten && toks == []
    ensures r.Failure? && r.error == SymbolLeafArity ==> mode == AsWritten
  {
    var n := |stack|;
    if ParenTop(stack) then
      Success((stack[..n - 3] + [stack[n - 2]], toks))
    else if ClosureTop(stack) then
      Success((stack[..n - 2] + [Node(Closure(stack[n - 2].ast))], toks))
    else if ConcatTop(stack) && toks == [] && mode == AsWritten then
      Failure(PeekOutOfBounds)
    else if ConcatTop(stack) && !NextIsClosure(toks) then
      Success((stack[..n - 2] + [Node(Concat(stack[n - 2].ast, stack[n - 1].ast))], toks))
    else if UnionTop(stack) && toks == [] && mode == AsWritten then
      Failure(PeekOutOfBounds)
    else if UnionTop(stack) && !NextIsClosureOrSymbol(toks) then
      Success((stack[..n - 3] + [Node(Union(stack[n - 3].ast, stack[n - 1].ast))], toks))
    else if toks != [] && toks[0].SymbolToken? && mode == AsWritten then
      Failure(SymbolLeafArity)
    else if toks != [] then
      Success((stack + [Shift(toks[0])], toks[1..]))
    else
      Failure(InvalidSyntax)
  }

  /** The statement after the loop: the bottom entry, when it is a tree. */
  function Finish<S>(stack: seq<Item<S>>): (r: Result<Regex<S>, ParseError>)
    ensures r.Success? <==> stack != [] && stack[0].Node?
    ensures r.Success? ==> r.value == stack[0].ast
    ensures r.Failure? ==> r.error == (if stack == [] then EmptyStack else InvalidSyntax)
  {
    if stack == [] then Failure(EmptyStack)
    else if stack[0].Node? then Success(stack[0].ast)
    else Failure(InvalidSyntax)
  }

  /** The loop from a given stack and token list: it runs while tokens are
    * left or the stack holds more than one entry. */
  function ParseRun<S>(stack: seq<Item<S>>, toks: seq<Token<S>>, mode: Mode): Result<Regex<S>, ParseError>
    decreases 2 * |toks| + |stack|
  {
    if toks == [] && |stack| <= 1 then Finish(stack)
    else
      match Step(stack, toks, mode)
      case Failure(e) => Failure(e)
      case Success((stack', toks')) => ParseRun(stack', toks', mode)
  }

  /** parse_regular_expression on the tokens of a stream, from an empty stack. */
  function Parse<S>(toks: seq<Token<S>>, mode: Mode): Result<Regex<S>, ParseError>
  {
    ParseRun([], toks, mode)
  }

  /** parse_regular_expression: the loop over the stream's tokens, consuming
    * them one at a time.  The result is the parse of the tokens that were left
    * in the stream, and a successful parse consumes all of them. */
  method ParseRegularExpression<S>(ts: Stream<Token<S>>, mode: Mode) returns (r: Result<Regex<S>, ParseError>)
    requires ts.Valid()
    modifies ts
    ensures ts.Valid() && ts.data == old(ts.data)
    ensures r == Parse(old(ts.Rest()), mode)
    ensures r.Success? ==> ts.IsEmpty()
  {
    var stack: seq<Item<S>> := [];
    while !ts.IsEmpty() || |stack| > 1
      invariant ts.Valid() && ts.data == old(ts.data)
      invariant ParseRun(stack, ts.Rest(), mode) == Parse(old(ts.Rest()), mode)
      decreases 2 * (|ts.data| - ts.index) + |stack|
    {
      ghost var rest := ts.Rest();
      assert rest != [] ==> ts.Peek(0) == Success(rest[0]);
      var n := |stack|;
      if ParenTop(stack) {
        stack := stack[..n - 3] + [stack[n - 2]];
      } else if ClosureTop(stack) {
        stack := stack[..n - 2] + [Node(Closure(stack[n - 2].ast))];
      } else if ConcatTop(stack) && ts.Peek(0).Failure? && mode == AsWritten {
        return Failure(PeekOutOfBounds);
      } else if ConcatTop(stack) && !(ts.Peek(0).Success? && ts.Peek(0).value.ClosureToken?) {
        stack := stack[..n - 2] + [Node(Concat(stack[n - 2].ast, stack[n - 1].ast))];
      } else if UnionTop(stack) && ts.Peek(0).Failure? && mode == AsWritten {
        return Failure(PeekOutOfBounds);
      } else if UnionTop(stack)
        && !(ts.Peek(0).Success? && (ts.Peek(0).value.ClosureToken? || ts.Peek(0).value.SymbolToken?))
      {
        stack := stack[..n - 3] + [Node(Union(stack[n - 3].ast, stack[n - 1].ast))];
      } else if !ts.IsEmpty() {
        RestStep(ts.data, ts.index);
        var next := ts.Consume(1);
        assert next == Success(rest[0]) && ts.Rest() == rest[1..];
        if next.value.SymbolToken? && mode == AsWritten {
          return Failure(SymbolLeafArity);
        }
        stack := stack + [Shift(next.value)];
      } else {
        return Failure(InvalidSyntax);
      }
    }
    r := Finish(stack);
  }

  // ---- the token sequence of a tree ------------------------------------------------

  /** The tokens of a tree written out fully parenthesised: a union as
    * `( l | r )`, a concatenation as `( l r )`, a closure as its child
    * followed by `*`. */
  function Tokens<S>(r: Regex<S>): (t: seq<Token<S>>)
    ensures t != []
  {
    match r
    case Concat(a, b) => [LParenToken] + Tokens(a) + Tokens(b) + [RParenToken]
    case Union(a, b) => [LParenToken] + Tokens(a) + [UnionToken] + Tokens(b) + [RParenToken]
    case Closure(a) => Tokens(a) + [ClosureToken]
    case Symbol(s) => [SymbolToken(s)]
    case EmptyStr => [EmptyStrToken]
    case EmptyLang => [EmptyLangToken]
  }

  /** A stack on which no reduction applies whatever comes next: empty, topped
    * by `(` or `|`, or topped by a tree sitting on `(`. */
  predicate Ready<S>(stack: seq<Item<S>>)
  {
    var n := |stack|;
    n == 0
    || (stack[n - 1].Tok? && (stack[n - 1].token.LParenToken? || stack[n - 1].token.UnionToken?))
    || (n >= 2 && stack[n - 1].Node? && stack[n - 2].Tok? && stack[n - 2].token.LParenToken?)
  }

  /** One loop pass that does not fail is one step of the run. */
  lemma RunStep<S>(stack: seq<Item<S>>, toks: seq<Token<S>>, mode: Mode, stack': seq<Item<S>>, toks': seq<Token<S>>)
    requires Step(stack, toks, mode) == Success((stack', toks')) && (toks != [] || |stack| > 1)
    ensures ParseRun(stack, toks, mode) == ParseRun(stack', toks', mode)
  {
  }

  /** On a ready stack the next pass shifts a leaf token. */
  lemma ShiftLeaf<S>(stack: seq<Item<S>>, t: Token<S>, rest: seq<Token<S>>)
    requires Ready(stack) && (t.SymbolToken? || t.EmptyStrToken? || t.EmptyLangToken?)
    ensures ParseRun(stack, [t] + rest, Intended) == ParseRun(stack + [Shift(t)], rest, Intended)
  {
    assert ([t] + rest)[1..] == rest;
    RunStep(stack, [t] + rest, Intended, stack + [Shift(t)], rest);
  }

  /** On a ready stack the next pass shifts an operator token. */
  lemma ShiftOperator<S>(stack: seq<Item<S>>, t: Token<S>, rest: seq<Token<S>>, mode: Mode)
    requires Ready(stack) && (t.LParenToken? || t.UnionToken?)
    ensures ParseRun(stack, [t] + rest, mode) == ParseRun(stack + [Tok(t)], rest, mode)
  {
    assert ([t] + rest)[1..] == rest;
    RunStep(stack, [t] + rest, mode, stack + [Tok(t)], rest);
  }

  /** After a finished tree, `*` is shifted and reduced onto it. */
  lemma CloseTop<S>(stack: seq<Item<S>>, a: Regex<S>, rest: seq<Token<S>>, mode: Mode)
    requires Ready(stack)
    ensures ParseRun(stack + [Node(a)], [ClosureToken] + rest, mode) == ParseRun(stack + [Node(Closure(a))], rest, mode)
  {
    var s1 := stack + [Node(a)];
    var s2 := s1 + [Tok(ClosureToken)];
    assert ([ClosureToken] + rest)[1..] == rest;
    assert !ParenTop(s1) && !ClosureTop(s1) && !(ConcatTop(s1) && !NextIsClosure([ClosureToken] + rest));
    assert !(UnionTop(s1) && !NextIsClosureOrSymbol([ClosureToken] + rest));
    RunStep(s1, [ClosureToken] + rest, mode, s2, rest);
    assert !ParenTop(s2) && ClosureTop(s2);
    assert s2[..|s2| - 2] + [Node(Closure(a))] == stack + [Node(Closure(a))];
    assert rest != [] || |s2| > 1;
  }

  /** `( l r` followed by `)`: the pair is concatenated, then `)` is shifted and
    * the parentheses reduced. */
  lemma CloseConcat<S>(stack: seq<Item<S>>, a: Regex<S>, b: Regex<S>, rest: seq<Token<S>>, mode: Mode)
    ensures ParseRun(stack + [Tok(LParenToken), Node(a), Node(b)], [RParenToken] + rest, mode)
         == ParseRun(stack + [Node(Concat(a, b))], rest, mode)
  {
    var s1 := stack + [Tok(LParenToken), Node(a), Node(b)];
    var s2 := stack + [Tok(LParenToken), Node(Concat(a, b))];
    var s3 := s2 + [Tok(RParenToken)];
    assert ([RParenToken] + rest)[1..] == rest;
    assert !ParenTop(s1) && !ClosureTop(s1) && ConcatTop(s1);
    assert s1[..|s1| - 2] + [Node(Concat(a, b))] == s2;
    RunStep(s1, [RParenToken] + rest, mode, s2, [RParenToken] + rest);
    assert !ParenTop(s2) && !ClosureTop(s2) && !ConcatTop(s2) && !UnionTop(s2);
    RunStep(s2, [RParenToken] + rest, mode, s3, rest);
    assert ParenTop(s3) && s3[..|s3| - 3] + [s3[|s3| - 2]] == stack + [Node(Concat(a, b))];
  }

  /** `( l | r` followed by `)`: the union is reduced, then `)` is shifted and
    * the parentheses reduced. */
  lemma CloseUnion<S>(stack: seq<Item<S>>, a: Regex<S>, b: Regex<S>, rest: seq<Token<S>>, mode: Mode)
    ensures ParseRun(stack + [Tok(LParenToken), Node(a), Tok(UnionToken), Node(b)], [RParenToken] + rest, mode)
         == ParseRun(stack + [Node(Union(a, b))], rest, mode)
  {
    var s1 := stack + [Tok(LParenToken), Node(a), Tok(UnionToken), Node(b)];
    var s2 := stack + [Tok(LParenToken), Node(Union(a, b))];
    var s3 := s2 + [Tok(RParenToken)];
    assert ([RParenToken] + rest)[1..] == rest;
    assert !ParenTop(s1) && !ClosureTop(s1) && !ConcatTop(s1) && UnionTop(s1);
    assert s1[..|s1| - 3] + [Node(Union(a, b))] == s2;
    RunStep(s1, [RParenToken] + rest, mode, s2, [RParenToken] + rest);
    assert !ParenTop(s2) && !ClosureTop(s2) && !ConcatTop(s2) && !UnionTop(s2);
    RunStep(s2, [RParenToken] + rest, mode, s3, rest);
    assert ParenTop(s3) && s3[..|s3| - 3] + [s3[|s3| - 2]] == stack + [Node(Union(a, b))];
  }

  /** Concatenation regrouped to the right, and an empty middle part dropped. */
  lemma Regroup<T>(p: seq<T>, x: seq<T>, q: seq<T>, y: seq<T>, e: seq<T>, rest: seq<T>)
    ensures p + x + q + y + e + rest == p + (x + (q + (y + (e + rest))))
    ensures q == [] ==> p + x + y + e + rest == p + (x + (y + (e + rest)))
  {
  }

  /** Parsing a tree's tokens from a ready stack pushes exactly that tree,
    * whatever tokens follow. */
  lemma {:induction false} ParseTokens<S>(stack: seq<Item<S>>, r: Regex<S>, rest: seq<Token<S>>)
    requires Ready(stack)
    ensures ParseRun(stack, Tokens(r) + rest, Intended) == ParseRun(stack + [Node(r)], rest, Intended)
    decreases r, 1
  {
    match r
    case Symbol(s) =>
      ShiftLeaf(stack, SymbolToken(s), rest);
    case EmptyStr =>
      ShiftLeaf(stack, EmptyStrToken, rest);
    case EmptyLang =>
      ShiftLeaf(stack, EmptyLangToken, rest);
    case Closure(a) =>
      assert Tokens(r) + rest == Tokens(a) + ([ClosureToken] + rest);
      ParseTokens(stack, a, [ClosureToken] + rest);
      CloseTop(stack, a, rest, Intended);
    case Concat(a, b) =>
      ParseConcatTokens(stack, a, b, rest);
    case Union(a, b) =>
      ParseUnionTokens(stack, a, b, rest);
  }

  /** `(` followed by the tokens of a tree: the parenthesis is shifted and the
    * tree pushed onto it. */
  lemma {:induction false} OpenAndParse<S>(stack: seq<Item<S>>, a: Regex<S>, more: seq<Token<S>>)
    requires Ready(stack)
    ensures ParseRun(stack, [LParenToken] + (Tokens(a) + more), Intended)
         == ParseRun(stack + [Tok(LParenToken), Node(a)], more, Intended)
    decreases a, 2
  {
    var s1 := stack + [Tok(LParenToken)];
    ShiftOperator(stack, LParenToken, Tokens(a) + more, Intended);
    ParseTokens(s1, a, more);
    assert s1 + [Node(a)] == stack + [Tok(LParenToken), Node(a)];
  }

  /** `|` followed by the tokens of a tree: the bar is shifted and the tree
    * pushed onto it. */
  lemma {:induction false} BarAndParse<S>(stack: seq<Item<S>>, b: Regex<S>, more: seq<Token<S>>)
    requires Ready(stack)
    ensures ParseRun(stack, [UnionToken] + (Tokens(b) + more), Intended)
         == ParseRun(stack + [Tok(UnionToken), Node(b)], more, Intended)
    decreases b, 2
  {
    var s1 := stack + [Tok(UnionToken)];
    ShiftOperator(stack, UnionToken, Tokens(b) + more, Intended);
    ParseTokens(s1, b, more);
    assert s1 + [Node(b)] == stack + [Tok(UnionToken), Node(b)];
  }

  /** The concatenation case: `(`, then both halves, then `)`. */
  lemma {:induction false} ParseConcatTokens<S>(stack: seq<Item<S>>, a: Regex<S>, b: Regex<S>, rest: seq<Token<S>>)
    requires Ready(stack)
    ensures ParseRun(stack, Tokens(Concat(a, b)) + rest, Intended) == ParseRun(stack + [Node(Concat(a, b))], rest, Intended)
    decreases Concat(a, b), 0
  {
    var s2 := stack + [Tok(LParenToken), Node(a)];
    var tail := [RParenToken] + rest;
    Regroup([LParenToken], Tokens(a), [], Tokens(b), [RParenToken], rest);
    OpenAndParse(stack, a, Tokens(b) + tail);
    ParseTokens(s2, b, tail);
    assert s2 + [Node(b)] == stack + [Tok(LParenToken), Node(a), Node(b)];
    CloseConcat(stack, a, b, rest, Intended);
  }

  /** The union case: `(`, the left half, `|`, the right half, then `)`. */
  lemma {:induction false} ParseUnionTokens<S>(stack: seq<Item<S>>, a: Regex<S>, b: Regex<S>, rest: seq<Token<S>>)
    requires Ready(stack)
    ensures ParseRun(stack, Tokens(Union(a, b)) + rest, Intended) == ParseRun(stack + [Node(Union(a, b))], rest, Intended)
    decreases Union(a, b), 0
  {
    var s2 := stack + [Tok(LParenToken), Node(a)];
    var tail := [RParenToken] + rest;
    Regroup([LParenToken], Tokens(a), [UnionToken], Tokens(b), [RParenToken], rest);
    OpenAndParse(stack, a, [UnionToken] + (Tokens(b) + tail));
    BarAndParse(s2, b, tail);
    assert s2 + [Tok(UnionToken), Node(b)] == stack + [Tok(LParenToken), Node(a), Tok(UnionToken), Node(b)];
    CloseUnion(stack, a, b, rest, Intended);
  }

  /** Round trip: the parser reads a tree back from its fully parenthesised tokens. */
  lemma ParseOfTokens<S>(r: Regex<S>)
    ensures Parse(Tokens(r), Intended) == Success(r)
  {
    ParseTokens([], r, []);
    assert Tokens(r) + [] == Tokens(r);
    assert [] + [Node(r)] == [Node(r)];
  }

  // ---- the two modes --------------------------------------------------------------

  /** Where a pass as written succeeds, the intended pass does the same. */
  lemma StepModes<S>(stack: seq<Item<S>>, toks: seq<Token<S>>)
    requires Step(stack, toks, AsWritten).Success?
    ensures Step(stack, toks, Intended) == Step(stack, toks, AsWritten)
  {
  }

  /** The parser as written only ever fails where the intended one may not:
    * whenever it returns a tree, the intended parser returns the same tree. */
  lemma {:induction false} ModesAgree<S>(stack: seq<Item<S>>, toks: seq<Token<S>>)
    requires ParseRun(stack, toks, AsWritten).Success?
    ensures ParseRun(stack, toks, Intended) == ParseRun(stack, toks, AsWritten)
    decreases 2 * |toks| + |stack|
  {
    if !(toks == [] && |stack| <= 1) {
      StepModes(stack, toks);
      var next := Step(stack, toks, AsWritten).value;
      ModesAgree(next.0, next.1);
    }
  }

  /** The intended parser never looks past the end of the stream. */
  lemma {:induction false} IntendedNeverPeeksOut<S>(stack: seq<Item<S>>, toks: seq<Token<S>>)
    ensures ParseRun(stack, toks, Intended) != Failure(PeekOutOfBounds)
    ensures ParseRun(stack, toks, Intended) != Failure(SymbolLeafArity)
    decreases 2 * |toks| + |stack|
  {
    if !(toks == [] && |stack| <= 1) && Step(stack, toks, Intended).Success? {
      var next := Step(stack, toks, Intended).value;
      IntendedNeverPeeksOut(next.0, next.1);
    }
  }

  // ---- single passes on concrete stacks ----------------------------------------------

  /** No reduction pattern lies on top of the stack. */
  predicate Plain<S>(stack: seq<Item<S>>)
  {
    !ParenTop(stack) && !ClosureTop(stack) && !ConcatTop(stack) && !UnionTop(stack)
  }

  /** With no pattern on top, the pass shifts the next token. */
  lemma Shifts<S>(stack: seq<Item<S>>, toks: seq<Token<S>>, mode: Mode)
    requires Plain(stack) && toks != [] && (toks[0].SymbolToken? ==> mode == Intended)
    ensures ParseRun(stack, toks, mode) == ParseRun(stack + [Shift(toks[0])], toks[1..], mode)
  {
    RunStep(stack, toks, mode, stack + [Shift(toks[0])], toks[1..]);
  }

  /** `node node` with a next token that is not `*` is concatenated. */
  lemma ReducesConcat<S>(stack: seq<Item<S>>, toks: seq<Token<S>>, mode: Mode)
    requires ConcatTop(stack) && !ParenTop(stack) && !ClosureTop(stack) && !NextIsClosure(toks)
    requires toks != [] || mode == Intended
    ensures var n := |stack|;
      ParseRun(stack, toks, mode) == ParseRun(stack[..n - 2] + [Node(Concat(stack[n - 2].ast, stack[n - 1].ast))], toks, mode)
  {
    var n := |stack|;
    RunStep(stack, toks, mode, stack[..n - 2] + [Node(Concat(stack[n - 2].ast, stack[n - 1].ast))], toks);
  }

  /** `node | node` with a next token that is neither `*` nor a symbol is a union. */
  lemma ReducesUnion<S>(stack: seq<Item<S>>, toks: seq<Token<S>>, mode: Mode)
    requires UnionTop(stack) && !ParenTop(stack) && !ClosureTop(stack) && !NextIsClosureOrSymbol(toks)
    requires toks != [] || mode == Intended
    ensures var n := |stack|;
      ParseRun(stack, toks, mode) == ParseRun(stack[..n - 3] + [Node(Union(stack[n - 3].ast, stack[n - 1].ast))], toks, mode)
  {
    var n := |stack|;
    RunStep(stack, toks, mode, stack[..n - 3] + [Node(Union(stack[n - 3].ast, stack[n - 1].ast))], toks);
  }

  // ---- as written: two inputs that show the defects --------------------------------

  /** `\e\e` as written: after both leaves are shifted the concatenation guard
    * peeks at the exhausted stream and raises; intended, it is the
    * concatenation of the two leaves. */
  lemma AsWrittenPeeksPastEnd<S>()
    ensures Parse<S>([EmptyStrToken, EmptyStrToken], AsWritten) == Failure(PeekOutOfBounds)
    ensures Parse<S>([EmptyStrToken, EmptyStrToken], Intended) == Success(Concat(EmptyStr, EmptyStr))
  {
    var toks: seq<Token<S>> := [EmptyStrToken, EmptyStrToken];
    var leaf: seq<Item<S>> := [Node(EmptyStr)];
    assert toks[1..][1..] == [];
    forall mode: Mode ensures ParseRun([], toks, mode) == ParseRun(leaf + leaf, [], mode) {
      Shifts([], toks, mode);
      assert [] + [Shift(toks[0])] == leaf;
      Shifts(leaf, toks[1..], mode);
    }
    ReducesConcat(leaf + leaf, [], Intended);
    assert (leaf + leaf)[..0] + [Node(Concat(EmptyStr, EmptyStr))] == [Node(Concat(EmptyStr, EmptyStr))];
  }

  /** `a` as written: the shifted symbol cannot be made into a leaf; intended,
    * it is that leaf. */
  lemma AsWrittenSymbolLeaf<S>(a: S)
    ensures Parse([SymbolToken(a)], AsWritten) == Failure(SymbolLeafArity)
    ensures Parse([SymbolToken(a)], Intended) == Success(Symbol(a))
  {
    var toks := [SymbolToken(a)];
    Shifts([], toks, Intended);
    assert [] + [Shift(toks[0])] == [Node(Symbol(a))] && toks[1..] == [];
  }

  /** The empty token list: the loop does not run, and the statement after it
    * reads stack[0] of the empty stack, which raises IndexError rather than
    * the parser's own syntax error. */
  lemma EmptyInputRaises<S>(mode: Mode)
    ensures Parse<S>([], mode) == Failure(EmptyStack)
  {
  }

  // ---- precedence ------------------------------------------------------------------

  /** `a b *` (unparenthesised) parses as a followed by the closure of b: the
    * concatenation waits while a `*` is next. */
  lemma ClosureBindsTighterThanConcat<S>(a: S, b: S)
    ensures Parse([SymbolToken(a), SymbolToken(b), ClosureToken], Intended) == Success(Concat(Symbol(a), Closure(Symbol(b))))
  {
    var t0 := [SymbolToken(a), SymbolToken(b), ClosureToken];
    var t1, t2 := t0[1..], t0[2..];
    assert t1 == [SymbolToken(b), ClosureToken] && t2 == [ClosureToken] && t1[1..] == t2 && t2[1..] == [];
    var s1 := [Node(Symbol(a))];
    var s2 := s1 + [Node(Symbol(b))];
    var s3 := s2 + [Tok(ClosureToken)];
    var s4 := s1 + [Node(Closure(Symbol(b)))];
    Shifts([], t0, Intended);
    assert [] + [Shift(t0[0])] == s1;
    Shifts(s1, t1, Intended);
    assert ConcatTop(s2) && NextIsClosure(t2) && !UnionTop(s2) && !ParenTop(s2) && !ClosureTop(s2);
    RunStep(s2, t2, Intended, s3, []);
    assert ClosureTop(s3) && !ParenTop(s3) && s3[..1] + [Node(Closure(Symbol(b)))] == s4;
    RunStep(s3, [], Intended, s4, []);
    ReducesConcat(s4, [], Intended);
    assert s4[..0] + [Node(Concat(Symbol(a), Closure(Symbol(b))))] == [Node(Concat(Symbol(a), Closure(Symbol(b))))];
  }

  /** `a | b c` parses as a or (b c): the union waits while a symbol is next
    * (UnionReducesBeforeEmptyStr shows that it waits for nothing else). */
  lemma UnionWaitsForSymbol<S>(a: S, b: S, c: S)
    ensures Parse([SymbolToken(a), UnionToken, SymbolToken(b), SymbolToken(c)], Intended)
         == Success(Union(Symbol(a), Concat(Symbol(b), Symbol(c))))
  {
    var t0 := [SymbolToken(a), UnionToken, SymbolToken(b), SymbolToken(c)];
    var t1, t2, t3 := t0[1..], t0[2..], t0[3..];
    assert t1[1..] == t2 && t2[1..] == t3 && t3[1..] == [];
    var s1 := [Node(Symbol(a))];
    var s2 := s1 + [Tok(UnionToken)];
    var s3 := s2 + [Node(Symbol(b))];
    var s4 := s3 + [Node(Symbol(c))];
    var s5 := s2 + [Node(Concat(Symbol(b), Symbol(c)))];
    Shifts([], t0, Intended);
    assert [] + [Shift(t0[0])] == s1;
    Shifts(s1, t1, Intended);
    Shifts(s2, t2, Intended);
    assert UnionTop(s3) && NextIsClosureOrSymbol(t3) && !ConcatTop(s3) && !ParenTop(s3) && !ClosureTop(s3);
    RunStep(s3, t3, Intended, s4, []);
    ReducesConcat(s4, [], Intended);
    assert s4[..|s4| - 2] + [Node(Concat(Symbol(b), Symbol(c)))] == s5;
    ReducesUnion(s5, [], Intended);
    assert s5[..0] + [Node(Union(Symbol(a), Concat(Symbol(b), Symbol(c))))] == [Node(Union(Symbol(a), Concat(Symbol(b), Symbol(c))))];
  }

  /** `a | b \e` parses as (a | b) ε: the union guard waits only while `*` or a
    * symbol is next, so an ε leaf (or a `(`) after b is concatenated with the
    * whole union, while a symbol after b is concatenated with b alone. */
  lemma UnionReducesBeforeEmptyStr<S>(a: S, b: S)
    ensures Parse([SymbolToken(a), UnionToken, SymbolToken(b), EmptyStrToken], Intended)
         == Success(Concat(Union(Symbol(a), Symbol(b)), EmptyStr))
  {
    var t0 := [SymbolToken(a), UnionToken, SymbolToken(b), EmptyStrToken];
    var t1, t2, t3 := t0[1..], t0[2..], t0[3..];
    assert t1[1..] == t2 && t2[1..] == t3 && t3[1..] == [];
    var s1 := [Node(Symbol(a))];
    var s2 := s1 + [Tok(UnionToken)];
    var s3 := s2 + [Node(Symbol(b))];
    var s4 := [Node(Union(Symbol(a), Symbol(b)))];
    Shifts([], t0, Intended);
    assert [] + [Shift(t0[0])] == s1;
    Shifts(s1, t1, Intended);
    Shifts(s2, t2, Intended);
    assert UnionTop(s3) && !NextIsClosureOrSymbol(t3) && !ConcatTop(s3) && !ParenTop(s3) && !ClosureTop(s3);
    ReducesUnion(s3, t3, Intended);
    assert s3[..0] + [Node(Union(Symbol(a), Symbol(b)))] == s4;
    Shifts(s4, t3, Intended);
    ReducesConcat(s4 + [Node(EmptyStr)], [], Intended);
    assert (s4 + [Node(EmptyStr)])[..0] + [Node(Concat(Union(Symbol(a), Symbol(b)), EmptyStr))]
        == [Node(Concat(Union(Symbol(a), Symbol(b)), EmptyStr))];
  }
}

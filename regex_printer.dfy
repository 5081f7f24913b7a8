/**
 * Printing a syntax tree back to text (RegularExpressions/regex_to_string.py).
 * Every union and concatenation is wrapped in parentheses; a closure is its
 * child followed by the closure lexeme.  The printer's configuration names
 * the same six lexemes as the lexer's, which makes it the lexer's inverse.
 *
 * As written, the recursive calls leave the configuration out, so every node
 * below the root is printed with the default lexemes, and the symbol case
 * matches the leaf class with a positional sub-pattern the class does not
 * declare, which raises.  PrintAsWritten models that; Print passes the
 * configuration down and prints a symbol as its text.
 */
module RegexPrinter {
  import opened Wrappers
  import opened RegexAst
  import opened RegexTokens
  import opened RegexLexer
  import opened RegexParser

  /** PrinterConfig: the text written for each operator and constant. */
  datatype PrinterConfig = PrinterConfig(union: string, closure: string, lparen: string, rparen: string,
                                         emptyStr: string, emptyLang: string)

  /** DEFAULT_PRINTER_CONFIG; `\e` and `\o` are a backslash and a letter. */
  const DefaultPrinterConfig: PrinterConfig := PrinterConfig("|", "*", "(", ")", "\\e", "\\o")

  /** The failure the symbol case raises as written. */
  datatype PrintError = SymbolPatternArity

  /** regex_ast_to_string, with the configuration passed to the recursive calls. */
  function Print(r: Regex<string>, pc: PrinterConfig): string
  {
    match r
    case EmptyLang => pc.emptyLang
    case EmptyStr => pc.emptyStr
    case Symbol(s) => s
    case Union(a, b) => pc.lparen + Print(a, pc) + pc.union + Print(b, pc) + pc.rparen
    case Concat(a, b) => pc.lparen + Print(a, pc) + Print(b, pc) + pc.rparen
    case Closure(a) => Print(a, pc) + pc.closure
  }

  /** regex_ast_to_string as written: the children are printed with the
    * default configuration, and reaching a symbol raises. */
  function PrintAsWritten(r: Regex<string>, pc: PrinterConfig): Result<string, PrintError>
  {
    match r
    case EmptyLang => Success(pc.emptyLang)
    case EmptyStr => Success(pc.emptyStr)
    case Symbol(_) => Failure(SymbolPatternArity)
    case Union(a, b) =>
      var l :- PrintAsWritten(a, DefaultPrinterConfig);
      var rr :- PrintAsWritten(b, DefaultPrinterConfig);
      Success(pc.lparen + l + pc.union + rr + pc.rparen)
    case Concat(a, b) =>
      var l :- PrintAsWritten(a, DefaultPrinterConfig);
      var rr :- PrintAsWritten(b, DefaultPrinterConfig);
      Success(pc.lparen + l + rr + pc.rparen)
    case Closure(a) =>
      var c :- PrintAsWritten(a, DefaultPrinterConfig);
      Success(c + pc.closure)
  }

  /** The printer configuration writes each token the way the lexer
    * configuration reads it. */
  predicate Inverse(pc: PrinterConfig, lc: LexerConfig<char>)
  {
    pc.union == lc.union && pc.closure == lc.closure && pc.lparen == lc.lparen && pc.rparen == lc.rparen
    && pc.emptyStr == lc.emptyStr && pc.emptyLang == lc.emptyLang
  }

  /** The default configurations are each other's inverse. */
  lemma DefaultsInverse()
    ensures Inverse(DefaultPrinterConfig, DefaultLexerConfig)
  {
  }

  /** Printed text is the tree's fully parenthesised tokens written out with the
    * lexemes of the inverse lexer configuration. */
  lemma {:induction false} PrintIsUnlex(r: Regex<string>, pc: PrinterConfig, lc: LexerConfig<char>)
    requires Inverse(pc, lc)
    ensures Print(r, pc) == Unlex(lc, Tokens(r))
    decreases r, 1
  {
    match r
    case EmptyLang =>
      assert Unlex(lc, [EmptyLangToken]) == lc.emptyLang + Unlex(lc, []);
    case EmptyStr =>
      assert Unlex(lc, [EmptyStrToken]) == lc.emptyStr + Unlex(lc, []);
    case Symbol(s) =>
      assert Unlex(lc, [SymbolToken(s)]) == s + Unlex(lc, []);
    case Union(a, b) =>
      PrintUnionIsUnlex(a, b, pc, lc);
    case Concat(a, b) =>
      PrintConcatIsUnlex(a, b, pc, lc);
    case Closure(a) =>
      PrintIsUnlex(a, pc, lc);
      UnlexAppend(lc, Tokens(a), [ClosureToken]);
      UnlexOne(lc, ClosureToken);
  }

  /** The union case of PrintIsUnlex. */
  lemma {:induction false} PrintUnionIsUnlex(a: Regex<string>, b: Regex<string>, pc: PrinterConfig, lc: LexerConfig<char>)
    requires Inverse(pc, lc)
    ensures Print(Union(a, b), pc) == Unlex(lc, Tokens(Union(a, b)))
    decreases Union(a, b), 0
  {
    PrintIsUnlex(a, pc, lc);
    PrintIsUnlex(b, pc, lc);
    UnlexAppend(lc, [LParenToken], Tokens(a));
    UnlexAppend(lc, [LParenToken] + Tokens(a), [UnionToken]);
    UnlexAppend(lc, [LParenToken] + Tokens(a) + [UnionToken], Tokens(b));
    UnlexAppend(lc, [LParenToken] + Tokens(a) + [UnionToken] + Tokens(b), [RParenToken]);
    UnlexOne(lc, LParenToken);
    UnlexOne(lc, UnionToken);
    UnlexOne(lc, RParenToken);
  }

  /** The concatenation case of PrintIsUnlex. */
  lemma {:induction false} PrintConcatIsUnlex(a: Regex<string>, b: Regex<string>, pc: PrinterConfig, lc: LexerConfig<char>)
    requires Inverse(pc, lc)
    ensures Print(Concat(a, b), pc) == Unlex(lc, Tokens(Concat(a, b)))
    decreases Concat(a, b), 0
  {
    PrintIsUnlex(a, pc, lc);
    PrintIsUnlex(b, pc, lc);
    UnlexAppend(lc, [LParenToken], Tokens(a));
    UnlexAppend(lc, [LParenToken] + Tokens(a), Tokens(b));
    UnlexAppend(lc, [LParenToken] + Tokens(a) + Tokens(b), [RParenToken]);
    UnlexOne(lc, LParenToken);
    UnlexOne(lc, RParenToken);
  }

  /** Writing out a concatenation of token lists concatenates their texts. */
  lemma {:induction false} UnlexAppend<U>(c: LexerConfig<U>, x: seq<Token<seq<U>>>, y: seq<Token<seq<U>>>)
    ensures Unlex(c, x + y) == Unlex(c, x) + Unlex(c, y)
    decreases |x|
  {
    if x == [] {
      assert x + y == y;
    } else {
      assert (x + y)[0] == x[0] && (x + y)[1..] == x[1..] + y;
      assert Unlex(c, x + y) == Lexeme(c, x[0]) + Unlex(c, x[1..] + y);
      UnlexAppend(c, x[1..], y);
    }
  }

  /** A single token is written out as its lexeme. */
  lemma UnlexOne<U>(c: LexerConfig<U>, t: Token<seq<U>>)
    ensures Unlex(c, [t]) == Lexeme(c, t)
  {
    assert [t][1..] == [];
  }

  /** No symbol anywhere in the tree. */
  predicate SymbolFree<S>(r: Regex<S>)
  {
    match r
    case Symbol(_) => false
    case Union(a, b) => SymbolFree(a) && SymbolFree(b)
    case Concat(a, b) => SymbolFree(a) && SymbolFree(b)
    case Closure(a) => SymbolFree(a)
    case _ => true
  }

  /** As written, the printer succeeds exactly on trees without symbols, and
    * with the default configuration it then prints what Print prints. */
  lemma {:induction false} AsWrittenOnDefault(r: Regex<string>)
    ensures PrintAsWritten(r, DefaultPrinterConfig).Success? <==> SymbolFree(r)
    ensures SymbolFree(r) ==> PrintAsWritten(r, DefaultPrinterConfig) == Success(Print(r, DefaultPrinterConfig))
  {
    match r
    case Union(a, b) =>
      AsWrittenOnDefault(a);
      AsWrittenOnDefault(b);
    case Concat(a, b) =>
      AsWrittenOnDefault(a);
      AsWrittenOnDefault(b);
    case Closure(a) =>
      AsWrittenOnDefault(a);
    case _ =>
  }

  /** A nested union under a custom union lexeme: as written the inner union
    * keeps the default `|`. */
  lemma AsWrittenDropsConfig()
    ensures var pc := DefaultPrinterConfig.(union := "+");
      var r := Union(Union(EmptyStr, EmptyStr), EmptyLang);
      PrintAsWritten(r, pc) == Success("((\\e|\\e)+\\o)") && Print(r, pc) == "((\\e+\\e)+\\o)"
  {
    var pc := DefaultPrinterConfig.(union := "+");
    assert PrintAsWritten(EmptyStr, DefaultPrinterConfig) == Success("\\e");
    var inner := PrintAsWritten(Union(EmptyStr, EmptyStr), DefaultPrinterConfig);
    assert inner.Success? && inner.value == "(\\e|\\e)";
    assert PrintAsWritten(EmptyLang, DefaultPrinterConfig) == Success("\\o");
    assert "(" + inner.value + "+" + "\\o" + ")" == "((\\e|\\e)+\\o)";
    assert Print(Union(EmptyStr, EmptyStr), pc) == "(\\e+\\e)";
    assert "(" + "(\\e+\\e)" + "+" + "\\o" + ")" == "((\\e+\\e)+\\o)";
  }

  /** A single symbol: as written printing it raises. */
  lemma AsWrittenSymbol()
    ensures PrintAsWritten(Symbol("a"), DefaultPrinterConfig) == Failure(SymbolPatternArity)
    ensures Print(Symbol("a"), DefaultPrinterConfig) == "a"
  {
  }
}

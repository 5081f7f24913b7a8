/**
 * The regex compiler (RegularExpressions/regex_compiler.py): text is lexed
 * with the default lexer configuration (lex_regular_expression in
 * RegularExpressions/regex_lexer.py) and the token stream is parsed.
 *
 * The main property is the round trip the printer's configuration is
 * designed for: a tree whose symbols are single alphanumeric characters,
 * printed with the default printer configuration, compiles back to itself.
 */
module RegexCompiler {
  import opened Wrappers
  import opened RegexAst
  import opened RegexTokens
  import opened Streams
  import opened RegexLexer
  import opened RegexParser
  import opened RegexPrinter

  datatype CompileError = LexFailed(lexError: LexError<char>) | ParseFailed(parseError: ParseError)

  // ---- facts about the default lexer configuration -----------------------------------

  predicate IsAlnum(ch: char)
  {
    'a' <= ch <= 'z' || 'A' <= ch <= 'Z' || '0' <= ch <= '9'
  }

  lemma LowerCaseAlnum(ch: char)
    requires ch in LowerCase
    ensures IsAlnum(ch)
  {
  }

  lemma UpperCaseAlnum(ch: char)
    requires ch in UpperCase
    ensures IsAlnum(ch)
  {
  }

  lemma DigitsAlnum(ch: char)
    requires ch in Digits
    ensures IsAlnum(ch)
  {
  }

  /** Every default symbol is one letter or digit. */
  lemma DefaultSymbol(s: string)
    requires s in DefaultLexerConfig.alphabet
    ensures |s| == 1 && s[0] in AlphaNumeric && IsAlnum(s[0])
  {
    var ch :| ch in AlphaNumeric && s == [ch];
    assert ch in LowerCase || ch in UpperCase || ch in Digits;
    if ch in LowerCase {
      LowerCaseAlnum(ch);
    } else if ch in UpperCase {
      UpperCaseAlnum(ch);
    } else {
      DigitsAlnum(ch);
    }
  }

  /** The default configuration consumes something at every step, and no
    * symbol is a prefix of another, so its scans are unique. */
  lemma DefaultWellFormed()
    ensures NonEmptyLexemes(DefaultLexerConfig) && PrefixFree(DefaultLexerConfig.alphabet)
  {
    forall s | s in DefaultLexerConfig.alphabet
      ensures s != []
    {
      DefaultSymbol(s);
    }
    forall s, t | s in DefaultLexerConfig.alphabet && t in DefaultLexerConfig.alphabet && s <= t
      ensures s == t
    {
      DefaultSymbol(s);
      DefaultSymbol(t);
    }
  }

  /** Where the text goes on with something other than a letter or digit, no
    * default symbol matches. */
  lemma NoDefaultSymbol(rest: string)
    requires rest != [] && !IsAlnum(rest[0])
    ensures NoSymbolAt(DefaultLexerConfig, rest)
  {
    forall s | s in DefaultLexerConfig.alphabet
      ensures !(s <= rest)
    {
      DefaultSymbol(s);
    }
  }

  /** A symbol the default lexer reads as one token: one letter or digit. */
  predicate AlnumSymbol(s: string)
  {
    |s| == 1 && s[0] in AlphaNumeric
  }

  /** A tree whose symbols all are single letters or digits. */
  predicate Printable(r: Regex<string>)
  {
    match r
    case Symbol(s) => AlnumSymbol(s)
    case Union(a, b) => Printable(a) && Printable(b)
    case Concat(a, b) => Printable(a) && Printable(b)
    case Closure(a) => Printable(a)
    case _ => true
  }

  predicate PrintableToken(t: Token<string>)
  {
    t.SymbolToken? ==> AlnumSymbol(t.symbol)
  }

  /** The default lexer picks a printable token at the start of its own lexeme,
    * whatever follows. */
  lemma DefaultStep(t: Token<string>, more: string)
    requires PrintableToken(t)
    ensures LexStep(DefaultLexerConfig, Lexeme(DefaultLexerConfig, t) + more, t)
  {
    var c := DefaultLexerConfig;
    var rest := Lexeme(c, t) + more;
    assert Lexeme(c, t) <= rest;
    if t.SymbolToken? {
      assert [t.symbol[0]] == t.symbol;
    } else {
      NoDefaultSymbol(rest);
      assert rest[0] == Lexeme(c, t)[0];
      assert t.EmptyLangToken? ==> rest[1] == 'o';
    }
  }

  /** The default lexer reads written-out printable tokens back as those tokens. */
  lemma {:induction false} LexUnlexed(toks: seq<Token<string>>)
    requires forall t :: t in toks ==> PrintableToken(t)
    ensures LexedTo(DefaultLexerConfig, Unlex(DefaultLexerConfig, toks), toks, |Unlex(DefaultLexerConfig, toks)|)
    decreases |toks|
  {
    var c := DefaultLexerConfig;
    if toks != [] {
      var s := Unlex(c, toks);
      var head := Lexeme(c, toks[0]);
      var tail := Unlex(c, toks[1..]);
      assert toks[0] in toks;
      DefaultStep(toks[0], tail);
      assert s == head + tail && s[|head|..] == tail;
      assert forall t :: t in toks[1..] ==> t in toks;
      LexUnlexed(toks[1..]);
    }
  }

  /** Every token of a printable tree is printable. */
  lemma {:induction false} TokensPrintable(r: Regex<string>)
    requires Printable(r)
    ensures forall t :: t in Tokens(r) ==> PrintableToken(t)
  {
    match r
    case Union(a, b) =>
      TokensPrintable(a);
      TokensPrintable(b);
    case Concat(a, b) =>
      TokensPrintable(a);
      TokensPrintable(b);
    case Closure(a) =>
      TokensPrintable(a);
    case _ =>
  }

  /** The default lexer turns a printed printable tree into the tree's tokens,
    * and that is its only complete scan. */
  lemma LexPrinted(r: Regex<string>, toks: seq<Token<string>>)
    requires Printable(r)
    ensures LexedTo(DefaultLexerConfig, Print(r, DefaultPrinterConfig), Tokens(r), |Print(r, DefaultPrinterConfig)|)
    ensures LexedTo(DefaultLexerConfig, Print(r, DefaultPrinterConfig), toks, |Print(r, DefaultPrinterConfig)|)
            ==> toks == Tokens(r)
  {
    DefaultsInverse();
    PrintIsUnlex(r, DefaultPrinterConfig, DefaultLexerConfig);
    TokensPrintable(r);
    LexUnlexed(Tokens(r));
    DefaultWellFormed();
    if LexedTo(DefaultLexerConfig, Print(r, DefaultPrinterConfig), toks, |Print(r, DefaultPrinterConfig)|) {
      LexedUnique(DefaultLexerConfig, Print(r, DefaultPrinterConfig), toks, Tokens(r));
    }
  }

  /** A partial scan of printed text is never stuck before its end. */
  lemma PrintedNotStuck(r: Regex<string>, re: string, toks: seq<Token<string>>, n: nat)
    ensures Printable(r) && re == Print(r, DefaultPrinterConfig) && LexedTo(DefaultLexerConfig, re, toks, n) && n < |re|
            ==> !Stuck(DefaultLexerConfig, re[n..])
  {
    if Printable(r) && re == Print(r, DefaultPrinterConfig) && LexedTo(DefaultLexerConfig, re, toks, n) {
      LexPrinted(r, toks);
      DefaultWellFormed();
      LexedPrefix(DefaultLexerConfig, re, toks, n, Tokens(r));
    }
  }

  /** Round trip: lexing printed text and parsing the tokens gives back the tree. */
  lemma CompilePrinted(r: Regex<string>, re: string, toks: seq<Token<string>>)
    ensures Printable(r) && re == Print(r, DefaultPrinterConfig) && LexedTo(DefaultLexerConfig, re, toks, |re|)
            ==> Parse(toks, Intended) == Success(r)
  {
    if Printable(r) && re == Print(r, DefaultPrinterConfig) {
      LexPrinted(r, toks);
      ParseOfTokens(r);
    }
  }

  // ---- the entry points ------------------------------------------------------------

  /** lex_regular_expression: the generic lexer with the default configuration. */
  method LexRegularExpression(re: string) returns (r: Result<Stream<Token<string>>, LexError<char>>)
    ensures r.Success? ==> fresh(r.value) && r.value.Valid() && r.value.index == 0
                           && LexedTo(DefaultLexerConfig, re, r.value.data, |re|)
    ensures r.Failure? ==> exists toks, n: nat :: LexedTo(DefaultLexerConfig, re, toks, n) && n < |re|
                                              && Stuck(DefaultLexerConfig, re[n..]) && r.error == InvalidSymbol(re[n])
  {
    DefaultWellFormed();
    r := Lex(re, DefaultLexerConfig);
  }

  /** compile_regular_expression: lex, then parse.  A tree comes out only as the
    * parse of the text's complete scan, and text printed from a printable tree
    * compiles back to that tree. */
  method CompileRegularExpression(re: string, mode: Mode) returns (r: Result<Regex<string>, CompileError>)
    ensures r.Success? ==> exists toks :: LexedTo(DefaultLexerConfig, re, toks, |re|) && Parse(toks, mode) == Success(r.value)
    ensures mode == Intended ==>
              forall r0 {:trigger Print(r0, DefaultPrinterConfig)} ::
                Printable(r0) && Print(r0, DefaultPrinterConfig) == re ==> r == Success(r0)
  {
    var lexed := LexRegularExpression(re);
    if lexed.Failure? {
      ghost var toks, n: nat :| LexedTo(DefaultLexerConfig, re, toks, n) && n < |re| && Stuck(DefaultLexerConfig, re[n..]);
      forall r0 ensures Printable(r0) && re == Print(r0, DefaultPrinterConfig) ==> !Stuck(DefaultLexerConfig, re[n..]) {
        PrintedNotStuck(r0, re, toks, n);
      }
      return Failure(LexFailed(lexed.error));
    }
    var ts := lexed.value;
    ghost var toks := ts.data;
    assert ts.Rest() == toks;
    forall r0 ensures Printable(r0) && re == Print(r0, DefaultPrinterConfig) ==> Parse(toks, Intended) == Success(r0) {
      CompilePrinted(r0, re, toks);
    }
    var ast := ParseRegularExpression(ts, mode);
    if ast.Failure? {
      return Failure(ParseFailed(ast.error));
    }
    r := Success(ast.value);
  }
}

/**
 * The regex lexer (RegularExpressions/regex_lexer.py): a left-to-right scan
 * that, at each position, first looks for an alphabet symbol starting there
 * and otherwise for the first operator lexeme, in the order union, closure,
 * left parenthesis, right parenthesis, empty string, empty language.
 */
module RegexLexer {
  import opened Wrappers
  import opened SetFacts
  import opened RegexTokens
  import opened Streams

  /** The lexical grammar: the alphabet's symbols and the six operator lexemes. */
  datatype LexerConfig<U(==)> = LexerConfig(alphabet: set<seq<U>>, union: seq<U>, closure: seq<U>, lparen: seq<U>,
                                        rparen: seq<U>, emptyStr: seq<U>, emptyLang: seq<U>)

  /** The failure at a position where nothing matches, naming the item there. */
  datatype LexError<U> = InvalidSymbol(symbol: U)

  /** ALPHANUMERIC, written as its three runs: the lower-case letters, the
    * upper-case letters (with E and D in the order the source lists them),
    * and the digits. */
  const LowerCase: string := "abcdefghijklmnopqrstuvwxyz"
  const UpperCase: string := "ABCEDFGHIJKLMNOPQRSTUVWXYZ"
  const Digits: string := "0123456789"
  const AlphaNumeric: string := LowerCase + UpperCase + Digits

  /** DEFAULT_LEXER_CONFIG: the one-character strings of ALPHANUMERIC as
    * symbols; `\e` and `\o` are two characters each, a backslash and a letter. */
  const DefaultLexerConfig: LexerConfig<char> :=
    LexerConfig(set ch | ch in AlphaNumeric :: [ch], "|", "*", "(", ")", "\\e", "\\o")

  /** token_symbol_map, in its order. */
  function UnitTable<U(==)>(c: LexerConfig<U>): (t: seq<(Token<seq<U>>, seq<U>)>)
    ensures |t| == 6
  {
    [(UnionToken, c.union), (ClosureToken, c.closure), (LParenToken, c.lparen),
     (RParenToken, c.rparen), (EmptyStrToken, c.emptyStr), (EmptyLangToken, c.emptyLang)]
  }

  /** The place of a unit token in token_symbol_map. */
  function UnitIndex<S>(t: Token<S>): (k: nat)
    requires !t.SymbolToken?
    ensures k < 6
  {
    match t
    case UnionToken => 0
    case ClosureToken => 1
    case LParenToken => 2
    case RParenToken => 3
    case EmptyStrToken => 4
    case EmptyLangToken => 5
  }

  /** The table lists each unit token at its own index. */
  lemma UnitTableIndex<U>(c: LexerConfig<U>, k: nat)
    requires k < 6
    ensures !UnitTable(c)[k].0.SymbolToken? && UnitIndex(UnitTable(c)[k].0) == k
  {
  }

  /** The text a token stands for. */
  function Lexeme<U(==)>(c: LexerConfig<U>, t: Token<seq<U>>): seq<U>
  {
    if t.SymbolToken? then t.symbol else UnitTable(c)[UnitIndex(t)].1
  }

  /** The text a token list stands for: its lexemes, concatenated. */
  function Unlex<U(==)>(c: LexerConfig<U>, toks: seq<Token<seq<U>>>): seq<U>
    decreases |toks|
  {
    if toks == [] then [] else Lexeme(c, toks[0]) + Unlex(c, toks[1..])
  }

  /** No alphabet symbol starts rest. */
  ghost predicate NoSymbolAt<U>(c: LexerConfig<U>, rest: seq<U>)
  {
    forall s :: s in c.alphabet ==> !(s <= rest)
  }

  /** No operator lexeme before place k of the table starts rest. */
  ghost predicate NoUnitBefore<U>(c: LexerConfig<U>, rest: seq<U>, k: nat)
    requires k <= 6
  {
    forall j :: 0 <= j < k ==> !(UnitTable(c)[j].1 <= rest)
  }

  /** t is the token the scan picks where the input left is rest: an alphabet
    * symbol starting rest, or, when there is none, the first operator whose
    * lexeme starts rest. */
  ghost predicate LexStep<U>(c: LexerConfig<U>, rest: seq<U>, t: Token<seq<U>>)
  {
    if t.SymbolToken? then t.symbol in c.alphabet && t.symbol <= rest
    else NoSymbolAt(c, rest) && UnitTable(c)[UnitIndex(t)].1 <= rest && NoUnitBefore(c, rest, UnitIndex(t))
  }

  /** Nothing matches where the input left is rest. */
  ghost predicate Stuck<U>(c: LexerConfig<U>, rest: seq<U>)
  {
    NoSymbolAt(c, rest) && NoUnitBefore(c, rest, 6)
  }

  /** toks is what the scan produces from s while consuming its first n items. */
  ghost predicate LexedTo<U>(c: LexerConfig<U>, s: seq<U>, toks: seq<Token<seq<U>>>, n: nat)
    decreases |toks|
  {
    if toks == [] then n == 0
    else
      var l := |Lexeme(c, toks[0])|;
      LexStep(c, s, toks[0]) && l <= n && l <= |s| && LexedTo(c, s[l..], toks[1..], n - l)
  }

  /** Every lexeme of the grammar is non-empty, so each step advances. */
  ghost predicate NonEmptyLexemes<U>(c: LexerConfig<U>)
  {
    (forall s :: s in c.alphabet ==> s != []) && forall j :: 0 <= j < 6 ==> UnitTable(c)[j].1 != []
  }

  // ---- properties of the scan -------------------------------------------------------

  /** A scan consuming n items has lexemes concatenating to those n items. */
  lemma {:induction false} LexedUnlex<U>(c: LexerConfig<U>, s: seq<U>, toks: seq<Token<seq<U>>>, n: nat)
    requires LexedTo(c, s, toks, n)
    ensures n <= |s| && Unlex(c, toks) == s[..n]
    decreases |toks|
  {
    if toks != [] {
      var l := |Lexeme(c, toks[0])|;
      LexedUnlex(c, s[l..], toks[1..], n - l);
      assert Lexeme(c, toks[0]) == s[..l];
      assert s[..n] == s[..l] + s[l..][..n - l];
    }
  }

  /** A step followed by a scan of the rest is a scan. */
  lemma LexedCons<U>(c: LexerConfig<U>, s: seq<U>, t: Token<seq<U>>, toks: seq<Token<seq<U>>>, n: nat)
    requires LexStep(c, s, t) && |Lexeme(c, t)| <= n && |Lexeme(c, t)| <= |s|
    requires LexedTo(c, s[|Lexeme(c, t)|..], toks, n - |Lexeme(c, t)|)
    ensures LexedTo(c, s, [t] + toks, n)
  {
    assert ([t] + toks)[0] == t && ([t] + toks)[1..] == toks;
  }

  /** Dropping l items and then n - l more drops n. */
  lemma DropDrop<U>(s: seq<U>, l: nat, n: nat)
    requires l <= n <= |s|
    ensures s[l..][n - l..] == s[n..]
  {
  }

  /** The scan's step from position n appends one token. */
  lemma {:induction false} LexedSnoc<U>(c: LexerConfig<U>, s: seq<U>, toks: seq<Token<seq<U>>>, n: nat, t: Token<seq<U>>)
    requires LexedTo(c, s, toks, n) && n <= |s| && LexStep(c, s[n..], t)
    ensures LexedTo(c, s, toks + [t], n + |Lexeme(c, t)|)
    decreases |toks|
  {
    if toks == [] {
      DropDrop(s, 0, 0);
      LexedCons(c, s, t, [], |Lexeme(c, t)|);
      assert toks + [t] == [t] + [];
    } else {
      var l := |Lexeme(c, toks[0])|;
      DropDrop(s, l, n);
      LexedSnoc(c, s[l..], toks[1..], n - l, t);
      LexedCons(c, s, toks[0], toks[1..] + [t], n + |Lexeme(c, t)|);
      assert toks + [t] == [toks[0]] + (toks[1..] + [t]);
    }
  }

  /** A picked token's lexeme starts the rest, so nowhere is the scan stuck
    * where it can step. */
  lemma StepNotStuck<U>(c: LexerConfig<U>, rest: seq<U>, t: Token<seq<U>>)
    requires LexStep(c, rest, t)
    ensures !Stuck(c, rest) && Lexeme(c, t) <= rest
  {
  }

  /** Under a grammar of non-empty lexemes every picked token consumes something. */
  lemma LexemeNonEmpty<U>(c: LexerConfig<U>, t: Token<seq<U>>)
    requires NonEmptyLexemes(c) && (t.SymbolToken? ==> t.symbol in c.alphabet)
    ensures Lexeme(c, t) != []
  {
    if !t.SymbolToken? {
      assert UnitTable(c)[UnitIndex(t)].1 != [];
    }
  }

  /** No alphabet symbol is a proper prefix of another. */
  ghost predicate PrefixFree<U>(alphabet: set<seq<U>>)
  {
    forall s, t :: s in alphabet && t in alphabet && s <= t ==> s == t
  }

  /** With a prefix-free alphabet the token picked at a position is unique. */
  lemma StepUnique<U>(c: LexerConfig<U>, rest: seq<U>, t1: Token<seq<U>>, t2: Token<seq<U>>)
    requires PrefixFree(c.alphabet) && LexStep(c, rest, t1) && LexStep(c, rest, t2)
    ensures t1 == t2
  {
    if t1.SymbolToken? && t2.SymbolToken? {
      PrefixesComparable(t1.symbol, t2.symbol, rest);
    } else if !t1.SymbolToken? && !t2.SymbolToken? {
      assert UnitTable(c)[UnitIndex(t1)].1 <= rest && UnitTable(c)[UnitIndex(t2)].1 <= rest;
    }
  }

  /** Two prefixes of one sequence: the shorter is a prefix of the longer. */
  lemma PrefixesComparable<U>(a: seq<U>, b: seq<U>, rest: seq<U>)
    requires a <= rest && b <= rest
    ensures a <= b || b <= a
  {
    if |a| <= |b| {
      assert a == rest[..|a|] == b[..|a|];
    } else {
      assert b == rest[..|b|] == a[..|b|];
    }
  }

  /** With a prefix-free alphabet a partial scan is a prefix of any complete
    * scan, and if it has not reached the end it is not stuck there. */
  lemma {:induction false} LexedPrefix<U>(c: LexerConfig<U>, s: seq<U>, part: seq<Token<seq<U>>>, n: nat,
                                          full: seq<Token<seq<U>>>)
    requires NonEmptyLexemes(c) && PrefixFree(c.alphabet) && LexedTo(c, s, part, n) && LexedTo(c, s, full, |s|)
    ensures |part| <= |full| && part == full[..|part|]
    ensures n < |s| ==> !Stuck(c, s[n..])
    decreases |part|
  {
    if part == [] {
      if n < |s| {
        assert full != [];
        StepNotStuck(c, s, full[0]);
      }
    } else {
      LexemeNonEmpty(c, part[0]);
      StepNotStuck(c, s, part[0]);
      assert |s| > 0;
      StepUnique(c, s, part[0], full[0]);
      var l := |Lexeme(c, part[0])|;
      LexedPrefix(c, s[l..], part[1..], n - l, full[1..]);
      LexedUnlex(c, s, part, n);
      assert s[l..][n - l..] == s[n..];
    }
  }

  /** With a prefix-free alphabet the complete scan is unique. */
  lemma LexedUnique<U>(c: LexerConfig<U>, s: seq<U>, t1: seq<Token<seq<U>>>, t2: seq<Token<seq<U>>>)
    requires NonEmptyLexemes(c) && PrefixFree(c.alphabet) && LexedTo(c, s, t1, |s|) && LexedTo(c, s, t2, |s|)
    ensures t1 == t2
  {
    LexedPrefix(c, s, t1, |s|, t2);
    LexedPrefix(c, s, t2, |s|, t1);
  }

  // ---- the scan -----------------------------------------------------------------

  /** The loop over the alphabet: some symbol starting rest, if there is one.
    * The set is visited in no particular order. */
  method MatchSymbol<U(==)>(alphabet: set<seq<U>>, rest: seq<U>) returns (m: Option<seq<U>>)
    ensures m.Some? ==> m.value in alphabet && m.value <= rest
    ensures m.None? ==> forall s :: s in alphabet ==> !(s <= rest)
  {
    var todo := alphabet;
    while todo != {}
      invariant todo <= alphabet
      invariant forall s :: s in alphabet && s !in todo ==> !(s <= rest)
      decreases |todo|
    {
      var s :| s in todo;
      if s <= rest {
        return Some(s);
      }
      RemoveOne(todo, s);
      todo := todo - {s};
    }
    return None;
  }

  /** The loop over token_symbol_map: the place of the first operator lexeme
    * starting rest, or 6 when there is none. */
  method MatchUnit<U(==)>(c: LexerConfig<U>, rest: seq<U>) returns (k: nat)
    ensures k <= 6 && NoUnitBefore(c, rest, k)
    ensures k < 6 ==> UnitTable(c)[k].1 <= rest
  {
    var table := UnitTable(c);
    k := 0;
    while k < 6
      invariant k <= 6 && NoUnitBefore(c, rest, k)
    {
      if table[k].1 <= rest {
        return;
      }
      k := k + 1;
    }
  }

  /** lex_regular_expression_generic, up to the list of tokens: on success the
    * tokens are the scan of the whole input; on failure the scan reached a
    * position where nothing matches, and the error names the item there. */
  method LexTokens<U(==)>(re: seq<U>, c: LexerConfig<U>) returns (r: Result<seq<Token<seq<U>>>, LexError<U>>)
    requires NonEmptyLexemes(c)
    ensures r.Success? ==> LexedTo(c, re, r.value, |re|)
    ensures r.Failure? ==> exists toks, n: nat :: LexedTo(c, re, toks, n) && n < |re| && Stuck(c, re[n..])
                                              && r.error == InvalidSymbol(re[n])
  {
    var index := 0;
    var tokens: seq<Token<seq<U>>> := [];
    while index < |re|
      invariant index <= |re| && LexedTo(c, re, tokens, index)
      decreases |re| - index
    {
      var rest := re[index..];
      var sym := MatchSymbol(c.alphabet, rest);
      if sym.Some? {
        LexedSnoc(c, re, tokens, index, SymbolToken(sym.value));
        tokens := tokens + [SymbolToken(sym.value)];
        index := index + |sym.value|;
        continue;
      }
      var k := MatchUnit(c, rest);
      if k < 6 {
        var t := UnitTable(c)[k].0;
        UnitTableIndex(c, k);
        LexedSnoc(c, re, tokens, index, t);
        tokens := tokens + [t];
        index := index + |UnitTable(c)[k].1|;
        continue;
      }
      return Failure(InvalidSymbol(re[index]));
    }
    return Success(tokens);
  }

  /** lex_regular_expression_generic: the tokens as a stream at its start. */
  method Lex<U(==)>(re: seq<U>, c: LexerConfig<U>) returns (r: Result<Stream<Token<seq<U>>>, LexError<U>>)
    requires NonEmptyLexemes(c)
    ensures r.Success? ==> fresh(r.value) && r.value.Valid() && r.value.index == 0
                           && LexedTo(c, re, r.value.data, |re|)
    ensures r.Failure? ==> exists toks, n: nat :: LexedTo(c, re, toks, n) && n < |re| && Stuck(c, re[n..])
                                              && r.error == InvalidSymbol(re[n])
  {
    var tokens := LexTokens(re, c);
    if tokens.Failure? {
      return Failure(tokens.error);
    }
    var s := new Stream.FromIterable(tokens.value);
    return Success(s);
  }
}

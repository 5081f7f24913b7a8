/**
 * The tokens the regex lexer produces and the parser reads
 * (RegularExpressions/regex_tokens.py): a symbol token carrying its symbol,
 * and six unit tokens.
 */
module RegexTokens {
  datatype Token<S> =
    | SymbolToken(symbol: S)
    | EmptyStrToken
    | EmptyLangToken
    | UnionToken
    | ClosureToken
    | LParenToken
    | RParenToken
}

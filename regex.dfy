/**
 * A regular expression paired with its alphabet (RegularExpressions/regex.py).
 * The text is turned into a tree by a compiler passed in as a function; the
 * alphabet is the tree's implied one unless one is given, and a given one must
 * contain the implied one.
 */
module RegularExpression {
  import opened Wrappers
  import opened RegexAst
  import opened ExtractAlphabet

  datatype RegexValue<S> = RegexValue(alphabet: set<S>, ast: Regex<S>)

  /** The tree uses no symbol outside the declared alphabet. */
  predicate Consistent<S>(r: RegexValue<S>)
  {
    Alphabet(r.ast) <= r.alphabet
  }

  datatype RegexError = AlphabetTooSmall

  /** The library's default compiler returns the empty-language tree for any text. */
  function DefaultCompiler<S>(text: string): (r: Regex<S>)
    ensures Alphabet(r) == {}
  {
    EmptyLang
  }

  /** from_string with the working alphabet extraction. */
  function FromString<S>(text: string, alphabet: Option<set<S>>, compiler: string -> Regex<S>)
    : (r: Result<RegexValue<S>, RegexError>)
    ensures r.Success? <==> (alphabet.None? || Alphabet(compiler(text)) <= alphabet.value)
    ensures r.Success? ==> r.value.ast == compiler(text) && Consistent(r.value)
    ensures r.Success? && alphabet.None? ==> r.value.alphabet == Alphabet(compiler(text))
    ensures r.Success? && alphabet.Some? ==> r.value.alphabet == alphabet.value
  {
    var ast := compiler(text);
    var implicit := Alphabet(ast);
    var final := if alphabet.None? then implicit else alphabet.value;
    if alphabet.Some? && !(implicit <= alphabet.value) then Failure(AlphabetTooSmall)
    else Success(RegexValue(final, ast))
  }

  /** What from_string computes as written: it imports the placeholder
    * extract_alphabet of regex_ast.py, whose result is None.  Without an
    * alphabet the stored alphabet is None; with one, None.issubset raises. */
  datatype AsWrittenRegex<S> = AsWrittenRegex(alphabet: Option<set<S>>, ast: Regex<S>)

  function FromStringAsWritten<S>(text: string, alphabet: Option<set<S>>, compiler: string -> Regex<S>)
    : Result<AsWrittenRegex<S>, RegexError>
  {
    var ast := compiler(text);
    if alphabet.Some? then Failure(AlphabetTooSmall) else Success(AsWrittenRegex(None, ast))
  }

  /** As written, even a given alphabet that contains the implied one is
    * refused, and without one no alphabet is recorded; the corrected function
    * accepts the first and records the implied alphabet in the second. */
  lemma FromStringAsWrittenDiverges<S>(text: string, compiler: string -> Regex<S>, sigma: set<S>)
    requires Alphabet(compiler(text)) <= sigma
    ensures FromStringAsWritten(text, Some(sigma), compiler).Failure?
    ensures FromString(text, Some(sigma), compiler) == Success(RegexValue(sigma, compiler(text)))
    ensures FromStringAsWritten(text, None, compiler).value.alphabet.None?
    ensures FromString(text, None, compiler).value.alphabet == Alphabet(compiler(text))
  {
  }

  /** With the default compiler every text gives the empty-language regex over ∅. */
  lemma DefaultCompilerRegex<S>(text: string)
    ensures FromString(text, None, DefaultCompiler<S>) == Success(RegexValue({}, EmptyLang))
  {
  }
}

# regular-languages in Dafny

A model of the `regular_languages` Python package, a library of finite automata and regular expressions, and of its older DFA class in `src/DFA/dfa.py`, with proofs about the model.

The library has these parts:
- **Regular expressions.** A six-kind syntax tree and the symbols it uses (`extract_alphabet`). There is an algebraic simplifier, a rewrite towards a union of concatenations (the "DNF" rewrite), and the alphabet check of `Regex.from_string`.
- **Automata.** A DFA class, an NFA class with ε-moves, and the legacy DFA class. They have validating constructors, constructors from transition maps and lists, `simulate` and `test`, ε-closure, `drop_disconnected` and complement.
- **Operators and converters.** Union, concatenation and Kleene closure on regular expressions, NFAs and DFAs. Two Thompson constructions turn a regular expression into an NFA: the tagged-state combinators and a single pass over integer ids. There are two subset constructions from NFA to DFA, and state elimination in a GNFA turns a DFA back into a regular expression.
- **Minimisation.** A partition-refinement structure, Hopcroft's worklist, and the quotient DFA.
- **Text.** A consumable stream, a configurable lexer, a shift-reduce parser, a printer and the compiler that chains lexer and parser.

State is modelled in the form the source gives it:
- Values the code only builds and reads are datatypes and functions.
  - Automata are datatypes. A DFA's transition function is a finite map over states × alphabet. An NFA's is a map over states × (alphabet ∪ {ε}), and a missing key means the empty set.
  - The dead state added by the map constructors is `Dead` in `DState<T> = Named(T) | Dead`.
  - The states wrapped by the NFA combinators are one recursive datatype: `Start | Accept | Internal(g) | Left(g) | Right(g)`.
- Code that mutates is imperative Dafny.
  - `Stream`, `PartitionRefinement` and `Gnfa` are classes whose methods update their fields.
  - The worklist loops are `while` loops with invariants: ε-closure, `drop_disconnected`, the NFA-to-DFA flood fill, Hopcroft's main loop, the lexer and the parser's shift-reduce loop.
  - `simulate` and the `from_DFA`/`rip_state` loops are loops as well.
  - The loops prove their results against reference functions.
- Each construction is related to a reference semantics.
  - `RegexSemantics.Matches` is the semantics for regular expressions.
  - `Nfas.Lang` is the ε-aware acceptance of an NFA.
  - `Dfas.Run` and `Dfas.AcceptsFrom` are DFA runs.
  - `GnfaLanguage.Accepted` is the accepted language of a GNFA.

The main results:
- `simplify_regex_ast` and the corrected DNF rewrite preserve the language.
- Both Thompson constructions give the expected automata, and each recognises exactly the words the tree matches.
- Both subset constructions agree with the NFA on every word over the alphabet.
- Ripping GNFA states in any order keeps the language, so `RegexOfDfa` matches exactly what the DFA accepts.
- Hopcroft's loop ends with the classes of indistinguishable states, and `minimize_dfa` returns the quotient, which answers every test as the original does.
- Printing a tree and compiling the text again gives the tree back.

Where the code does not do what it evidently means to, the model keeps a member for the code as written and a corrected member that the rest of the model uses (see "## Findings").

Some comments in the code disagree with the code; the model follows the code:
- A comment in `operators/union.py` says the union NFA is wrong because it ignores ε-closure. `UnionOperator.UnionLang` proves it correct, because `NFA.simulate` closes every step.
- The error message of `Regex.from_string` states the subset check the wrong way round. The model follows the check itself.

Modules, one per source file:
- Shared: `Wrappers` (Result and Option) and `SetFacts`.
- Regular expressions: `RegexAst`, `ExtractAlphabet`, `RegexSemantics`, `Simplify`, `Dnf`, `RegularExpression`, and `SymbolNodeSites`, which puts the walkers' `SymbolNode` behaviour side by side.
- Automata: `Dfas`, `LegacyDfas`, `Nfas` with its walk characterisation `NfaWalks`, `GeneratedStates`.
- Operators: `UnionOperator`, `ConcatenationOperator`, `ClosureOperator`.
- Converters: `RegexToNfa`, `IdThompson` with its language proof `IdThompsonLanguage`, `NfaToDfa`.
- GNFAs: `Gnfas`, `GnfaLanguage`, `GnfaOfDfa`.
- Minimisation: `PartitionRefinements`, `Hopcroft`, `Minimize`.
- Text: `Streams`, `RegexTokens`, `RegexLexer`, `RegexParser`, `RegexPrinter`, `RegexCompiler`.

## Model

| member | source | states |
|---|---|---|
| ExtractAlphabet.AlphabetIsSymbolLeaves | regular_languages/RegularExpressions/extract_alphabet.py:11-22 | a symbol is in the implied alphabet exactly when a Symbol leaf carrying it occurs in the tree |
| ExtractAlphabet.AlphabetAsWrittenRaises | regular_languages/RegularExpressions/extract_alphabet.py:12-23 | as written, the extraction raises on a tree exactly when it holds a symbol, because the `SymbolNode(symbol)` pattern raises, and on a tree without symbols it returns the empty set |
| SymbolNodeSites.WalkersRaiseOnSymbols | regular_languages/RegularExpressions/regex_ast.py:30-31 | as written, alphabet extraction, simplification, the DNF rewrite and both Thompson constructions each fail on a tree if and only if it holds a symbol |
| SymbolNodeSites.CorrectedWalkersSound | regular_languages/RegularExpressions/regex_ast.py:30-31 | with the symbol read from the leaf, simplification and the DNF rewrite keep every tree's language, and both Thompson constructions accept exactly the tree's words |
| RegexSemantics.MatchesWithinAlphabet | regular_languages/RegularExpressions/extract_alphabet.py:6-9 | every symbol of a word the tree matches lies in the tree's implied alphabet |
| RegularExpression.DefaultCompiler | regular_languages/RegularExpressions/regex.py:13-15 | the default compiler's tree implies the empty alphabet |
| RegularExpression.FromString | regular_languages/RegularExpressions/regex.py:31-47 | succeeds exactly when no alphabet is given or the given one contains the implied one; the stored tree is the compiler's, its symbols lie in the stored alphabet, and that alphabet is the given one or else the implied one |
| RegularExpression.FromStringAsWrittenDiverges | regular_languages/RegularExpressions/regex.py:3-4 | with the placeholder extract_alphabet the source imports, a sufficient alphabet is still refused and no alphabet is recorded without one, while FromString accepts and records the implied alphabet |
| RegularExpression.DefaultCompilerRegex | regular_languages/RegularExpressions/regex.py:13-15 | with the default compiler every text gives the empty-language regex over the empty alphabet |
| RegexSemantics.StarOfNothing | regular_languages/RegularExpressions/simplify_regex_ast.py:22-28 | the closure of ∅ and the closure of ε both match exactly the empty word |
| RegexSemantics.StarStar | regular_languages/RegularExpressions/simplify_regex_ast.py:30-32 | (a*)* matches the same words as a* |
| RegexSemantics.StarUnrollFirst | regular_languages/RegularExpressions/simplify_regex_ast.py:55-61 | a* matches w iff w is empty or a(a*) matches it |
| RegexSemantics.StarUnrollLast | regular_languages/RegularExpressions/simplify_regex_ast.py:55-61 | a* matches w iff w is empty or (a*)a matches it |
| RegexSemantics.ConcatUnit | regular_languages/RegularExpressions/simplify_regex_ast.py:72-74 | ε is a unit of concatenation on both sides |
| RegexSemantics.ConcatZero | regular_languages/RegularExpressions/simplify_regex_ast.py:76-78 | ∅ annihilates concatenation on both sides |
| RegexSemantics.StarConcatStar | regular_languages/RegularExpressions/simplify_regex_ast.py:81-83 | a*a* matches the same words as a* |
| RegexSemantics.StarOfUnion | regular_languages/RegularExpressions/regex_ast_to_DNF.py:21-27 | (a\|b)* matches the same words as (a*b*)* |
| RegexSemantics.DistributeRight | regular_languages/RegularExpressions/regex_ast_to_DNF.py:31 | (a\|b)c matches the same words as ac\|bc |
| RegexSemantics.DistributeLeft | regular_languages/RegularExpressions/regex_ast_to_DNF.py:31 | a(b\|c) matches the same words as ab\|ac |
| RegexSemantics.UnionCongruent | regular_languages/RegularExpressions/simplify_regex_ast.py:38-43 | replacing the children of a union by equivalent trees gives an equivalent union |
| RegexSemantics.ConcatCongruent | regular_languages/RegularExpressions/simplify_regex_ast.py:67-71 | replacing the children of a concatenation by equivalent trees gives an equivalent concatenation |
| RegexSemantics.ClosureCongruent | regular_languages/RegularExpressions/simplify_regex_ast.py:17-21 | replacing the child of a closure by an equivalent tree gives an equivalent closure |
| RegexSemantics.StarAppend | regular_languages/RegularExpressions/simplify_regex_ast.py:81-83 | closure matches are closed under concatenation |
| Simplify.SimplifyClosureNode | regular_languages/RegularExpressions/simplify_regex_ast.py:21-36 | the closure rules never grow the tree, keep its alphabet and keep it closure-normal |
| Simplify.ClosureNodeSound | regular_languages/RegularExpressions/simplify_regex_ast.py:21-36 | the closure rules preserve the language |
| Simplify.StarRule | regular_languages/RegularExpressions/simplify_regex_ast.py:55-61 | when the ε\|aa* rule fires, its result is smaller than the union, uses only the union's symbols and is closure-normal |
| Simplify.StarRuleSound | regular_languages/RegularExpressions/simplify_regex_ast.py:55-61 | when the ε\|aa* rule fires, its result matches the same words as the union |
| Simplify.SimplifyUnionNode | regular_languages/RegularExpressions/simplify_regex_ast.py:43-65 | the union rules never grow the tree, add no symbol and keep it closure-normal |
| Simplify.UnionNodeSound | regular_languages/RegularExpressions/simplify_regex_ast.py:43-65 | the union rules preserve the language |
| Simplify.SimplifyConcatNode | regular_languages/RegularExpressions/simplify_regex_ast.py:71-87 | the concatenation rules never grow the tree, add no symbol and keep it closure-normal |
| Simplify.ConcatNodeSound | regular_languages/RegularExpressions/simplify_regex_ast.py:71-87 | the concatenation rules preserve the language |
| Simplify.Simplify | regular_languages/RegularExpressions/simplify_regex_ast.py:4-87 | the simplified tree is no larger, adds no symbol and has no closure directly inside a closure |
| Simplify.SimplifySound | regular_languages/RegularExpressions/simplify_regex_ast.py:4-87 | simplification preserves the language |
| Simplify.SimplifyMatches | regular_languages/RegularExpressions/simplify_regex_ast.py:4-87 | the simplified tree matches a word iff the original does |
| Simplify.AsWrittenRaisesOnSymbols | regular_languages/RegularExpressions/simplify_regex_ast.py:12 | as written, the simplifier raises on a tree exactly when it holds a symbol, because the `SymbolNode(_)` pattern raises, and on every other tree it returns the corrected result |
| Simplify.SymbolFreeSimplifies | regular_languages/RegularExpressions/simplify_regex_ast.py:4-87 | a tree without symbols simplifies to ε or ∅, so the a\*a\* rule is never reached on the trees the simplifier as written accepts |
| Simplify.AsWrittenFailsOnStarStar | regular_languages/RegularExpressions/simplify_regex_ast.py:82-83 | reached on s\*s\*, the a\*a\* rule as written raises because it calls `ConcatNode` with one argument; the whole simplifier as written raises on that tree earlier, at the symbol; the corrected one returns s\* |
| Dnf.DnfClosure | regular_languages/RegularExpressions/regex_ast_to_DNF.py:25-29 | the closure rule keeps the alphabet |
| Dnf.DnfClosureSound | regular_languages/RegularExpressions/regex_ast_to_DNF.py:25-29 | the closure rule preserves the language |
| Dnf.Distribute | regular_languages/RegularExpressions/regex_ast_to_DNF.py:36-46 | the corrected distributive rules keep the alphabet of both operands |
| Dnf.DistributeSound | regular_languages/RegularExpressions/regex_ast_to_DNF.py:36-46 | the corrected distributive rules preserve the language |
| Dnf.DistributeAsWritten | regular_languages/RegularExpressions/regex_ast_to_DNF.py:36-46 | the distributive rules as written keep the alphabet of both operands |
| Dnf.ToDnf | regular_languages/RegularExpressions/regex_ast_to_DNF.py:3-46 | the corrected rewrite keeps the alphabet |
| Dnf.ToDnfSound | regular_languages/RegularExpressions/regex_ast_to_DNF.py:3-46 | the corrected rewrite preserves the language |
| Dnf.ToDnfAsWritten | regular_languages/RegularExpressions/regex_ast_to_DNF.py:3-46 | wherever the rewrite as written returns, the result keeps the alphabet |
| Dnf.AsWrittenRaisesOnSymbols | regular_languages/RegularExpressions/regex_ast_to_DNF.py:11 | as written, the rewrite returns exactly on trees without symbols: the `SymbolNode(_)` pattern raises on any symbol |
| Dnf.AsWrittenChangesLanguage | regular_languages/RegularExpressions/regex_ast_to_DNF.py:40-44 | as written, ∅(ε\|ε), a symbol-free tree that matches no word, becomes ∅ε\|(∅\|ε), which matches the empty word |
| Dnf.SinglePassLeavesUnionUnderConcat | regular_languages/RegularExpressions/regex_ast_to_DNF.py:36-46 | one pass can leave a union under a concatenation: (0\|1)(2\|(3\|4)) keeps 0(3\|4) |
| NfaToDfa.Succ | regular_languages/Converters/NFA_to_DFA.py:26-27 | a DFA move lands on an ε-closed set of NFA states |
| NfaToDfa.SuccEmpty | regular_languages/Converters/NFA_to_DFA.py:26-27 | the empty set is a non-accepting sink |
| NfaToDfa.SimulateOneSymbol | regular_languages/Converters/NFA_to_DFA.py:26 | simulating one symbol of the alphabet from an ε-closed set never raises and yields the DFA move |
| NfaToDfa.StartSet | regular_languages/Converters/NFA_to_DFA.py:12 | the DFA start is an ε-closed set of NFA states holding the NFA's start |
| NfaToDfa.ReachSnoc | regular_languages/Converters/NFA_to_DFA.py:22-33 | reading w + [a] is reading w and then taking the move on a |
| NfaToDfa.ReachAcc | regular_languages/Converters/NFA_to_DFA.py:35 | the NFA accepts w from an ε-closed set exactly when the set reached by w meets its accept states |
| NfaToDfa.ReachStaysIn | regular_languages/Converters/NFA_to_DFA.py:22-33 | a family closed under the moves holds every set reachable from its members |
| NfaToDfa.RecordMoves | regular_languages/Converters/NFA_to_DFA.py:25-33 | the row of the popped set holds its move on every symbol and on nothing else, and every target is marked |
| NfaToDfa.MarkTarget | regular_languages/Converters/NFA_to_DFA.py:26-33 | one symbol: the target is the DFA move and is marked afterwards |
| NfaToDfa.Discover | regular_languages/Converters/NFA_to_DFA.py:31-33 | a target not seen before is marked and queued once; a known one changes nothing |
| NfaToDfa.Explore | regular_languages/Converters/NFA_to_DFA.py:18-33 | the flood fill marks exactly the sets reachable from the start set, and the table holds a correct row for each, or for none when the alphabet is empty |
| NfaToDfa.ExploreStep | regular_languages/Converters/NFA_to_DFA.py:23-33 | one round keeps the frontier invariant and either marks a new set or shortens the queue |
| NfaToDfa.FrontierDone | regular_languages/Converters/NFA_to_DFA.py:22 | once the queue is empty, the marked sets are the reachable ones |
| NfaToDfa.Subsets | regular_languages/Converters/NFA_to_DFA.py:48-49 | the intended powerset: every subset of the set |
| NfaToDfa.AcceptSets | regular_languages/Converters/NFA_to_DFA.py:35 | the accepting sets are exactly the members that meet the NFA's accept states |
| NfaToDfa.NfaToDfa | regular_languages/Converters/NFA_to_DFA.py:7-39 | succeeds exactly when the alphabet is non-empty, and then gives a valid DFA whose named states are the reachable sets, whose accept states are those meeting the NFA's accept states, and which accepts a word over the alphabet iff the NFA does |
| NfaToDfa.TableDfa | regular_languages/DFAs/dfa.py:88-122 | from_transition_map builds a valid DFA from a closed table with a key, with the table's symbols, the given start and the dead state |
| NfaToDfa.TableDfaRuns | regular_languages/DFAs/dfa.py:88-122 | from each key the DFA of a closed table follows the rows |
| NfaToDfa.TRunReach | regular_languages/Converters/NFA_to_DFA.py:22-33 | following rows of moves is reading the word with the NFA |
| NfaToDfa.EmptyTableFails | regular_languages/Converters/NFA_to_DFA.py:39 | a table with no rows names no state, so the start is missing and construction fails |
| NfaToDfa.SubsetDfaTest | regular_languages/Converters/NFA_to_DFA.py:35-39 | the DFA built from the explored rows accepts a word over the alphabet iff the NFA does |
| NfaToDfa.SubsetMove | regular_languages/Converters/NFA_to_DFA.py:54 | simulate of one symbol from any set closes the set first and lands on an ε-closed set |
| NfaToDfa.SubsetMoveOfClosed | regular_languages/Converters/NFA_to_DFA.py:54 | from an ε-closed set this move is the DFA move |
| NfaToDfa.CompleteMap | regular_languages/Converters/NFA_to_DFA.py:52-56 | the complete map has a row for exactly the sets of the family, and its targets are subsets of the states |
| NfaToDfa.CompleteMapAt | regular_languages/Converters/NFA_to_DFA.py:52-56 | each entry of the complete map is the move of its row's set |
| NfaToDfa.CompleteClosed | regular_languages/Converters/NFA_to_DFA.py:52-56 | over all subsets the complete map is a closed table |
| NfaToDfa.CompleteEmptyAlphabet | regular_languages/Converters/NFA_to_DFA.py:41-60 | over an empty alphabet the rows are empty and the construction fails |
| NfaToDfa.CompleteShape | regular_languages/Converters/NFA_to_DFA.py:41-60 | over a non-empty alphabet the complete construction gives a valid DFA over the NFA's alphabet starting at the start set |
| NfaToDfa.CompleteTableShape | regular_languages/Converters/NFA_to_DFA.py:51-60 | the named states of the complete DFA are exactly the subsets of the NFA's states |
| NfaToDfa.CompleteRuns | regular_languages/Converters/NFA_to_DFA.py:41-60 | from every ε-closed subset the complete DFA reads a word over the alphabet into the set the NFA reaches |
| NfaToDfa.CompleteTest | regular_languages/Converters/NFA_to_DFA.py:41-60 | the complete DFA accepts a word over the alphabet iff the NFA does |
| NfaToDfa.SubsetsAsWritten | regular_languages/Converters/NFA_to_DFA.py:48-49 | the powerset as written holds exactly the subsets smaller than the whole set |
| NfaToDfa.PowersetAsWrittenMissesStart | regular_languages/Converters/NFA_to_DFA.py:48-51 | on a one-state automaton looping on 0, the complete conversion as written raises; with only the empty-set simulation repaired, the start set, which holds all the states, is missing from the powerset and the DFA check rejects it |
| NfaToDfa.OverPowersetMissesStart | regular_languages/Converters/NFA_to_DFA.py:48-51 | on the one-state automaton looping on 0, the powerset as written holds only the empty set, so the start set has no row and the DFA check rejects the map |
| NfaToDfa.MoveAsWrittenExact | regular_languages/NFAs/nfa.py:140-156 | simulating one symbol as written from a subset of the states raises for the empty subset and otherwise returns that subset's move |
| NfaToDfa.CompleteAsWrittenRaises | regular_languages/Converters/NFA_to_DFA.py:48-56 | for every valid NFA with a non-empty alphabet, the complete conversion as written raises: the powerset always holds the empty subset, and simulating from it raises |
| NfaToDfa.PowersetCompleteSucceeds | regular_languages/Converters/NFA_to_DFA.py:41-60 | on that automaton the corrected construction succeeds |
| NfaToDfa.EmptySubsetRaises | regular_languages/Converters/NFA_to_DFA.py:26 | on an automaton with no moves the flood fill reaches the empty set, simulate as written raises there, and the intended move is the empty sink |
| PartitionRefinements.RefinedNonEmpty | regular_languages/helpers/partition_refinement.py:61-70 | refine keeps every class non-empty: a cut leaves two non-empty parts |
| PartitionRefinements.ClassesDisjoint | regular_languages/helpers/partition_refinement.py:17-21 | when the two fields agree, the classes are pairwise disjoint and lie inside the universe |
| PartitionRefinements.RefinedIndex | regular_languages/helpers/partition_refinement.py:57-70 | after refine(S), an element of S in a cut class has that cut's new index, and every other element keeps its index |
| PartitionRefinements.RefinedPair | regular_languages/helpers/partition_refinement.py:42-72 | after refine(S), two elements share a class exactly when they did before and S does not tell them apart |
| PartitionRefinements.RefinedRelation | regular_languages/helpers/partition_refinement.py:42-72 | the same, for all pairs of elements at once |
| PartitionRefinements.RefinedHalves | regular_languages/helpers/partition_refinement.py:69-70 | every cut splits its old class into a non-empty part inside S and a non-empty part outside S |
| PartitionRefinements.CollectSplits | regular_languages/helpers/partition_refinement.py:48-54 | every element of S is grouped under the index of its class, and each group is exactly the elements of S in that class |
| PartitionRefinements.MoveOut | regular_languages/helpers/partition_refinement.py:62-67 | every element of the group gets the new index len(sets) and leaves its old class; nothing else changes |
| PartitionRefinements.CutConsistent | regular_languages/helpers/partition_refinement.py:62-69 | moving a group out into a new class at the end keeps the two fields consistent |
| PartitionRefinements.CuttingSkip | regular_languages/helpers/partition_refinement.py:61 | a group as large as its class is the whole class, and nothing is cut |
| PartitionRefinements.CuttingCut | regular_languages/helpers/partition_refinement.py:61-70 | a smaller group is non-empty, leaves a non-empty remainder, and is cut out into a new class at the end |
| PartitionRefinements.CutGroup | regular_languages/helpers/partition_refinement.py:57-70 | one group: cut and reported when smaller than its class, skipped otherwise |
| PartitionRefinements.CutGroups | regular_languages/helpers/partition_refinement.py:56-72 | after the second loop the fields are consistent, the list is the refinement of the old classes by S, and exactly the cuts are reported |
| PartitionRefinements.RefineFields | regular_languages/helpers/partition_refinement.py:42-72 | refine on the two fields keeps them consistent and non-empty, yields the refinement and reports each cut as (part inside S, part outside S) |
| PartitionRefinements.PartitionRefinement.FromSet | regular_languages/helpers/partition_refinement.py:31-40 | one class, the whole set, with every element at index 0 |
| PartitionRefinements.PartitionRefinement.Refine | regular_languages/helpers/partition_refinement.py:42-72 | the object stays valid over the same elements, its classes become the refinement by S, and the cuts are returned |
| PartitionRefinements.PartitionRefinement.Freeze | regular_languages/helpers/partition_refinement.py:74-79 | the classes keep their contents, and the index map is unchanged |
| PartitionRefinements.PartitionRefinement.GetPartition | regular_languages/helpers/partition_refinement.py:81-89 | fails exactly on an unknown item, and otherwise returns the item's class: the elements with the same index |
| Hopcroft.BuildReverse | regular_languages/operators/helpers/partition_dfa_states.py:21-28 | the reverse table records, for every symbol and state, exactly the states whose move on that symbol leads there |
| Hopcroft.ReverseStep | regular_languages/operators/helpers/partition_dfa_states.py:28 | recording one (state, symbol) pair extends the table's correctness to that pair |
| Hopcroft.Preimage | regular_languages/operators/helpers/partition_dfa_states.py:43-45 | the collected sources are exactly the states whose move on the symbol lands in the splitter |
| Hopcroft.DistinctStep | regular_languages/operators/helpers/partition_dfa_states.py:11-19 | a word telling the successors on a symbol apart tells the states apart |
| Hopcroft.DistinctByAccept | regular_languages/operators/helpers/partition_dfa_states.py:30-32 | the empty word tells an accept state from a non-accept state |
| Hopcroft.CongruentAgree | regular_languages/operators/helpers/partition_dfa_states.py:11-19 | in a congruent partition that keeps accept states apart, the states of one class accept the same words |
| Hopcroft.CongruentIndistinct | regular_languages/operators/helpers/partition_dfa_states.py:11-19 | such a partition never puts two distinguishable states in one class |
| Hopcroft.RefinedPairCut | regular_languages/operators/helpers/partition_dfa_states.py:51 | two states of one old class that refine separates lie in the two halves of one reported cut |
| Hopcroft.SplitDistinct | regular_languages/operators/helpers/partition_dfa_states.py:40-51 | two states of one class whose successors fall on either side of a union of classes are distinguishable |
| Hopcroft.SoundRefine | regular_languages/operators/helpers/partition_dfa_states.py:51 | refining by the preimage of a union of classes keeps the partition sound: it separates only distinguishable states |
| Hopcroft.HopRefine | regular_languages/operators/helpers/partition_dfa_states.py:40-51 | after refining by the preimage on a symbol, the loop invariant holds with the cuts pending, and the splitter is stable on that symbol |
| Hopcroft.StableAfterRefine | regular_languages/operators/helpers/partition_dfa_states.py:51 | after refining by its preimage on a symbol, the splitter is stable on that symbol |
| Hopcroft.SaturatedCutsNothing | regular_languages/operators/helpers/partition_dfa_states.py:51 | a preimage that is already a union of classes cuts nothing |
| Hopcroft.HopSettle | regular_languages/operators/helpers/partition_dfa_states.py:40 | once every symbol is handled, the splitter moves from pending to handled |
| Hopcroft.HopStart | regular_languages/operators/helpers/partition_dfa_states.py:31-35 | at the start the queue holds the classes of the accepting/non-accepting split |
| Hopcroft.SoundStart | regular_languages/operators/helpers/partition_dfa_states.py:31-32 | that first split separates only accept states from the others |
| Hopcroft.HopCongruent | regular_languages/operators/helpers/partition_dfa_states.py:37 | with no splitter pending, states of one class move to one class on every symbol |
| Hopcroft.ClassCount | regular_languages/operators/helpers/partition_dfa_states.py:31-63 | there are never more classes than states |
| Hopcroft.Smaller | regular_languages/operators/helpers/partition_dfa_states.py:60-63 | the queued half is one of the two halves, and no larger than either |
| Hopcroft.Queued | regular_languages/operators/helpers/partition_dfa_states.py:51-63 | queueing the cuts keeps what was pending and adds at most one splitter per cut |
| Hopcroft.QueuedOut | regular_languages/operators/helpers/partition_dfa_states.py:53-56 | the preimage is never in the queue while cuts of its refine remain, so the first branch is dead |
| Hopcroft.QueuedHas | regular_languages/operators/helpers/partition_dfa_states.py:60-63 | each cut's smaller half is queued |
| Hopcroft.QueuedSeparates | regular_languages/operators/helpers/partition_dfa_states.py:51-63 | a pair told apart before queueing, or cut apart, is told apart by some queued or handled splitter |
| Hopcroft.QueueCuts | regular_languages/operators/helpers/partition_dfa_states.py:51-63 | the loop over the cuts queues the smaller half of each |
| Hopcroft.SplitOn | regular_languages/operators/helpers/partition_dfa_states.py:41-63 | one symbol keeps the loop invariant and soundness, makes the splitter stable on that symbol, and queues at most one splitter per new class |
| Hopcroft.SplitBy | regular_languages/operators/helpers/partition_dfa_states.py:40-63 | all symbols: the invariant and soundness hold with the splitter handled |
| Hopcroft.Round | regular_languages/operators/helpers/partition_dfa_states.py:38-63 | one round keeps the invariant and soundness; the class count stays within the state count, and the queue grows by less than the class count does |
| Hopcroft.Start | regular_languages/operators/helpers/partition_dfa_states.py:21-35 | the reverse table is correct, the first split is sound, and the invariant holds with the queue of its classes |
| Hopcroft.Finish | regular_languages/operators/helpers/partition_dfa_states.py:37 | with the queue empty, the partition is congruent, keeps accept states apart, and two states share a class exactly when they are indistinguishable |
| Hopcroft.Rounds | regular_languages/operators/helpers/partition_dfa_states.py:37-63 | the main loop ends with nothing pending, keeping the invariant and soundness |
| Hopcroft.PartitionDfaStates | regular_languages/operators/helpers/partition_dfa_states.py:11-66 | the partition covers the states, keeps accept states apart, is congruent, and puts two states in one class exactly when no word tells them apart |
| Minimize.IndistinctAgree | regular_languages/operators/minimize_dfa.py:5-27 | two indistinguishable states accept the same words over the alphabet |
| Minimize.IndistinctTrans | regular_languages/operators/minimize_dfa.py:8 | indistinguishability is transitive, so the classes are well defined |
| Minimize.InOwnBlock | regular_languages/operators/minimize_dfa.py:8 | each state lies in its own block |
| Minimize.BlocksEqual | regular_languages/operators/minimize_dfa.py:8 | two states have the same block exactly when they are indistinguishable |
| Minimize.BlockAccepts | regular_languages/operators/minimize_dfa.py:25 | a state that shares its block with an accept state is itself an accept state |
| Minimize.QuotientRun | regular_languages/operators/minimize_dfa.py:18-22 | from the block of x a word leads to the block of where the DFA leads from x, failing exactly when and as the DFA's run fails |
| Minimize.QuotientAccept | regular_languages/operators/minimize_dfa.py:25 | a block accepts in the quotient exactly when its states accept |
| Minimize.QuotientAcceptsFrom | regular_languages/operators/minimize_dfa.py:5-27 | from a block, the quotient accepts what the DFA accepts from any of its states |
| Minimize.QuotientTest | regular_languages/operators/minimize_dfa.py:5-27 | the minimised DFA answers every test as the original does, raising the same error on the same words |
| Minimize.QuotientReduced | regular_languages/operators/minimize_dfa.py:5-27 | some word tells any two different states of the quotient apart: it is minimal up to unreachable states |
| Minimize.Representatives | regular_languages/operators/minimize_dfa.py:11-16 | every class gets a representative, and the representative lies in its class |
| Minimize.ClassesAreBlocks | regular_languages/operators/minimize_dfa.py:6-8 | the class of a state in the partition is its block |
| Minimize.ClassSetIsBlocks | regular_languages/operators/minimize_dfa.py:8 | the new states are exactly the blocks |
| Minimize.RepresentativeMoves | regular_languages/operators/minimize_dfa.py:18-22 | the class a representative moves to is the class any member moves to, so the choice of representative does not matter |
| Minimize.QuotientOfPartition | regular_languages/operators/minimize_dfa.py:8-27 | the assembled automaton is the quotient of the DFA by indistinguishability |
| Minimize.ClassMoves | regular_languages/operators/minimize_dfa.py:18-22 | each class moves on each symbol to the class of its representative's target |
| Minimize.Assemble | regular_languages/operators/minimize_dfa.py:8-27 | the new states are the classes, the alphabet is kept, the start is the start state's class and the accept states are the classes of the accept states |
| Minimize.AllClassesAreBlocks | regular_languages/operators/minimize_dfa.py:6-8 | every class of a partition matching indistinguishability is a block |
| Minimize.MinimizeDfa | regular_languages/operators/minimize_dfa.py:5-27 | minimize_dfa returns the quotient of the DFA by indistinguishability |
| Minimize.ClassesNonEmpty | regular_languages/operators/minimize_dfa.py:13-14 | no class is empty, so picking a representative never fails |
| Gnfas.Froms | regular_languages/GNFAs/gnfa.py:31 | the source nodes are the states and SOURCE |
| Gnfas.Tos | regular_languages/GNFAs/gnfa.py:32 | the target nodes are the states and SINK |
| Gnfas.CheckPairsFirst | regular_languages/GNFAs/gnfa.py:30-39 | the validation succeeds exactly when every pair is fine, and otherwise reports the first bad pair: a missing entry, or a label using a symbol outside the alphabet |
| Gnfas.CheckPairsValid | regular_languages/GNFAs/gnfa.py:30-39 | visiting every pair, the validation succeeds exactly when every pair has a label and every label stays inside the alphabet |
| Gnfas.CheckPairsAsWrittenRaises | regular_languages/GNFAs/gnfa.py:34 | as written the check fails on every adjacency list, even the graph of the corrected from_DFA, which the corrected check accepts |
| Gnfas.FromDfaAsWrittenRaises | regular_languages/GNFAs/gnfa.py:57-66 | for every valid DFA, from_DFA as written raises at its first `SymbolNode(symbol)` call: the DFA has a state and a symbol, and its graph is total |
| Gnfas.HitsAdd | regular_languages/GNFAs/gnfa.py:58-59 | each symbol moves a state to exactly one target |
| Gnfas.RowFillingStep | regular_languages/GNFAs/gnfa.py:58-66 | one symbol: the label towards its target gains that symbol, and no other label changes |
| Gnfas.FillRow | regular_languages/GNFAs/gnfa.py:58-66 | after the loop over the alphabet, the label from p to each state q is a union of exactly the symbols moving p to q, and entries to other nodes are unchanged |
| Gnfas.BuiltAccept | regular_languages/GNFAs/gnfa.py:53-54 | one accept state's edge to SINK becomes ε |
| Gnfas.BuiltRow | regular_languages/GNFAs/gnfa.py:57-66 | a filled row carries the DFA's transitions out of its state |
| Gnfas.BuiltPending | regular_languages/GNFAs/gnfa.py:47 | a row not yet filled holds only the default EmptyLang between states |
| Gnfas.SetAccepts | regular_languages/GNFAs/gnfa.py:52-54 | after the loop every accept state has an ε edge to SINK |
| Gnfas.FillRows | regular_languages/GNFAs/gnfa.py:56-66 | after the loop every row carries the DFA's transitions |
| Gnfas.BuildAdj | regular_languages/GNFAs/gnfa.py:44-66 | the adjacency list is from_DFA's graph: SOURCE to start on ε, the accept states to SINK on ε, the DFA's moves as unions of symbols, and EmptyLang everywhere else |
| Gnfas.RipLabelSound | regular_languages/GNFAs/gnfa.py:89 | the simplified new label matches the same words as the unsimplified union of paths |
| Gnfas.RipLabelBounds | regular_languages/GNFAs/gnfa.py:89 | the simplified label is no larger than the unsimplified one and uses only the symbols of the four labels |
| Gnfas.RipAsWrittenUnsimplified | regular_languages/GNFAs/gnfa.py:80-90 | as written the union is stored unsimplified: from four EmptyLang labels it builds eight nodes, where the simplified label is EmptyLang |
| Gnfas.RipResultPair | regular_languages/GNFAs/gnfa.py:84-90 | each pair between the other nodes gets the union of its label and the path through R |
| Gnfas.RipResultIsRip | regular_languages/GNFAs/gnfa.py:80-96 | what rip_state leaves is a rip: every label matches what its union of paths matches |
| Gnfas.RipResultLabels | regular_languages/GNFAs/gnfa.py:80-96 | rip_state leaves a complete list whose labels stay inside the alphabet |
| Gnfas.UpdatingStep | regular_languages/GNFAs/gnfa.py:90 | updating one more key keeps the others' old values until their turn |
| Gnfas.RipNews | regular_languages/GNFAs/gnfa.py:83-90 | one source row gets a new label for every target other than R |
| Gnfas.RipRow | regular_languages/GNFAs/gnfa.py:83-90 | the inner loop leaves the ripped row, whatever the order of the targets |
| Gnfas.RipRows | regular_languages/GNFAs/gnfa.py:82-90 | there is a ripped row for every source other than R |
| Gnfas.RippingDone | regular_languages/GNFAs/gnfa.py:93-96 | once every source row is ripped, removing R and its row gives the result |
| Gnfas.RipResultValid | regular_languages/GNFAs/gnfa.py:80-96 | the result is a valid list over the remaining states that accepts the same words |
| Gnfas.Gnfa.constructor | regular_languages/GNFAs/gnfa.py:24-39 | the dataclass keeps its three fields, and a list that passes the check makes a valid GNFA |
| Gnfas.Gnfa.FromDfa | regular_languages/GNFAs/gnfa.py:43-68 | the corrected from_DFA keeps the DFA's states and alphabet, and its graph is that of the DFA's transitions between SOURCE and SINK |
| Gnfas.Gnfa.RipState | regular_languages/GNFAs/gnfa.py:80-96 | rip_state keeps the alphabet and validity, removes R, and leaves a GNFA accepting the same words |
| Gnfas.Gnfa.ToRegex | regular_languages/GNFAs/gnfa.py:70-78 | after every state is ripped, in any order, no state is left and the final label matches exactly the words the GNFA accepted |
| Gnfas.RegexOfDfa | regular_languages/GNFAs/gnfa.py:44-78 | the expression built through the GNFA matches exactly the words the DFA accepts |
| GnfaLanguage.NoStatesLeft | regular_languages/GNFAs/gnfa.py:76 | with no state left the GNFA accepts exactly what the SOURCE→SINK label matches |
| GnfaLanguage.RipRawAlphabet | regular_languages/GNFAs/gnfa.py:89 | the union of paths uses exactly the symbols of its four parts |
| GnfaLanguage.RipRawJoin | regular_languages/GNFAs/gnfa.py:89 | the union of paths matches u + v + y whenever r1, r2* and r3 match the pieces |
| GnfaLanguage.RipRawSplit | regular_languages/GNFAs/gnfa.py:89 | a word the union of paths matches but the old label does not splits into pieces matched by r1, r2* and r3 |
| GnfaLanguage.LeaveRipped | regular_languages/GNFAs/gnfa.py:85-87 | a path read from R loops on R, leaves for another node, and reads the rest from there through fewer states |
| GnfaLanguage.ForwardReads | regular_languages/GNFAs/gnfa.py:80-96 | every word the old graph reads from a kept node, the ripped graph reads too |
| GnfaLanguage.BackwardReads | regular_languages/GNFAs/gnfa.py:80-96 | every word the ripped graph reads from a node, the old graph reads too |
| GnfaLanguage.RipPreserves | regular_languages/GNFAs/gnfa.py:80-96 | rip_state keeps the set of accepted words |
| GnfaOfDfa.SymbolUnionMatches | regular_languages/GNFAs/gnfa.py:61-66 | a union of symbols matches exactly the one-symbol words over its symbols |
| GnfaOfDfa.AddSymbolLabel | regular_languages/GNFAs/gnfa.py:61-66 | adding a symbol to a label of symbols, as Symbol or as Union, gives a label of those symbols and the new one |
| GnfaOfDfa.DfaGraphLabels | regular_languages/GNFAs/gnfa.py:44-68 | every label of from_DFA's graph uses only symbols of the DFA's alphabet |
| GnfaOfDfa.EdgeStep | regular_languages/GNFAs/gnfa.py:57-66 | a label p→s matches a word exactly when it is one symbol on which the DFA moves from p to s |
| GnfaOfDfa.NodeReadsAccepted | regular_languages/GNFAs/gnfa.py:44-68 | what the graph reads from a state's node, the DFA accepts from that state |
| GnfaOfDfa.AcceptedNodeReads | regular_languages/GNFAs/gnfa.py:44-68 | what the DFA accepts from a state, the graph reads from that state's node |
| GnfaOfDfa.SourceReads | regular_languages/GNFAs/gnfa.py:50 | reading from SOURCE is reading from the start state's node |
| GnfaOfDfa.DfaGraphAccepted | regular_languages/GNFAs/gnfa.py:44-68 | the graph from_DFA builds accepts exactly the words the DFA accepts |
| Streams.Stream.FromIterable | regular_languages/helpers/stream.py:15-17 | the stream holds the given items with its cursor at the start |
| Streams.Stream.Peek | regular_languages/helpers/stream.py:19-29 | succeeds exactly when cursor plus offset lies inside the list, and then gives that item; otherwise it fails out of bounds |
| Streams.Stream.Consume | regular_languages/helpers/stream.py:31-48 | a count below one, or one that passes the end, fails with the matching error and moves nothing; otherwise the cursor advances by the count and the last item passed is returned; the list never changes |
| Streams.EmptyIffNoPeek | regular_languages/helpers/stream.py:50-51 | the stream is empty exactly when peeking at offset 0 fails, that is when nothing is left |
| Streams.PeekRest | regular_languages/helpers/stream.py:19-29 | peeking at offset k shows item k of what is left |
| RegexLexer.UnitTable | regular_languages/RegularExpressions/regex_lexer.py:55-62 | the operator table has the six unit tokens, in the source's order |
| RegexLexer.UnitTableIndex | regular_languages/RegularExpressions/regex_lexer.py:55-62 | each entry of the operator table is a unit token listed at its own place |
| RegexLexer.MatchSymbol | regular_languages/RegularExpressions/regex_lexer.py:67-76 | returns an alphabet symbol that starts the rest of the input, and returns none only when no alphabet symbol does |
| RegexLexer.MatchUnit | regular_languages/RegularExpressions/regex_lexer.py:78-87 | returns the first entry of the operator table whose lexeme starts the rest of the input, or 6 when none does |
| RegexLexer.LexTokens | regular_languages/RegularExpressions/regex_lexer.py:48-89 | on success the tokens are a complete scan of the input; on failure a scan reached a position where neither a symbol nor an operator matches, and the error names the item there |
| RegexLexer.Lex | regular_languages/RegularExpressions/regex_lexer.py:48-91 | as LexTokens, with the tokens returned as a new stream at its start |
| RegexLexer.LexedUnlex | regular_languages/RegularExpressions/regex_lexer.py:66-87 | the lexemes of a scan that consumed n items are exactly those n items |
| RegexLexer.LexedSnoc | regular_languages/RegularExpressions/regex_lexer.py:66-87 | one loop pass extends the scan by the token it picks and moves past that token's lexeme |
| RegexLexer.StepNotStuck | regular_languages/RegularExpressions/regex_lexer.py:66-89 | where the loop can pick a token, its lexeme starts the rest, so the error branch is not taken |
| RegexLexer.LexemeNonEmpty | regular_languages/RegularExpressions/regex_lexer.py:66-87 | when no lexeme is empty, every pass consumes at least one item |
| RegexLexer.StepUnique | regular_languages/RegularExpressions/regex_lexer.py:67-87 | with an alphabet in which no symbol is a prefix of another, the token picked at a position does not depend on the order of the alphabet |
| RegexLexer.LexedPrefix | regular_languages/RegularExpressions/regex_lexer.py:66-89 | under the same condition a partial scan is a prefix of every complete scan and is not stuck before the end |
| RegexLexer.LexedUnique | regular_languages/RegularExpressions/regex_lexer.py:66-91 | under the same condition the complete scan is unique |
| RegexParser.Shift | regular_languages/RegularExpressions/regex_parser.py:70-84 | a symbol, ε or ∅ token is pushed as a leaf, and every other token is pushed as itself |
| RegexParser.Step | regular_languages/RegularExpressions/regex_parser.py:28-87 | every pass that does not fail shrinks twice the tokens left plus the stack, so the loop ends; only the parser as written peeks past the end, and only when no token is left; only the parser as written fails on a symbol leaf |
| RegexParser.Finish | regular_languages/RegularExpressions/regex_parser.py:89-94 | succeeds exactly when the bottom entry of the stack is a tree, and returns it; an empty stack and a bottom token are the two errors |
| RegexParser.ParseRegularExpression | regular_languages/RegularExpressions/regex_parser.py:11-94 | the result is the parse of the tokens left in the stream, a successful parse consumes all of them, and the token list is not changed |
| RegexParser.Tokens | regular_languages/RegularExpressions/regex_parser.py:30-67 | a tree written out fully parenthesised is never empty |
| RegexParser.RunStep | regular_languages/RegularExpressions/regex_parser.py:24-87 | a loop pass that does not fail is one step of the run |
| RegexParser.ShiftLeaf | regular_languages/RegularExpressions/regex_parser.py:70-81 | on a stack that no pattern matches, a leaf token is shifted as a leaf |
| RegexParser.ShiftOperator | regular_languages/RegularExpressions/regex_parser.py:83-84 | on a stack that no pattern matches, `(` or `\|` is shifted as itself |
| RegexParser.CloseTop | regular_languages/RegularExpressions/regex_parser.py:40-46 | a tree followed by `*` becomes its closure |
| RegexParser.CloseConcat | regular_languages/RegularExpressions/regex_parser.py:30-55 | `( l r` followed by `)` becomes the concatenation of l and r |
| RegexParser.CloseUnion | regular_languages/RegularExpressions/regex_parser.py:30-67 | `( l \| r` followed by `)` becomes the union of l and r |
| RegexParser.ParseTokens | regular_languages/RegularExpressions/regex_parser.py:24-87 | reading a tree's fully parenthesised tokens from a ready stack pushes exactly that tree, whatever tokens follow |
| RegexParser.ParseOfTokens | regular_languages/RegularExpressions/regex_parser.py:11-94 | round trip: the parser returns a tree from its fully parenthesised tokens |
| RegexParser.StepModes | regular_languages/RegularExpressions/regex_parser.py:53-75 | where a pass as written succeeds, the corrected pass does the same |
| RegexParser.ModesAgree | regular_languages/RegularExpressions/regex_parser.py:24-94 | whenever the parser as written returns a tree, the corrected parser returns the same tree |
| RegexParser.IntendedNeverPeeksOut | regular_languages/RegularExpressions/regex_parser.py:53-65 | the corrected parser never peeks past the end and never fails on a symbol leaf |
| RegexParser.Shifts | regular_languages/RegularExpressions/regex_parser.py:70-84 | when no pattern matches the stack, the pass shifts the next token |
| RegexParser.ReducesConcat | regular_languages/RegularExpressions/regex_parser.py:49-55 | two trees on top with a next token other than `*` are concatenated |
| RegexParser.ReducesUnion | regular_languages/RegularExpressions/regex_parser.py:59-67 | `tree \| tree` on top with a next token that is neither `*` nor a symbol becomes a union |
| RegexParser.AsWrittenPeeksPastEnd | regular_languages/RegularExpressions/regex_parser.py:53 | as written, the tokens ε ε make the concatenation guard peek at the exhausted stream and raise; corrected, they parse as the concatenation of the two leaves |
| RegexParser.AsWrittenSymbolLeaf | regular_languages/RegularExpressions/regex_parser.py:74-75 | as written, a symbol token cannot be turned into a leaf and the parse raises; corrected, it is that leaf |
| RegexParser.ClosureBindsTighterThanConcat | regular_languages/RegularExpressions/regex_parser.py:48-55 | `a b *` parses as a followed by the closure of b |
| RegexParser.UnionWaitsForSymbol | regular_languages/RegularExpressions/regex_parser.py:57-67 | `a \| b c` parses as a or the concatenation of b and c |
| RegexParser.UnionReducesBeforeEmptyStr | regular_languages/RegularExpressions/regex_parser.py:59-67 | the union guard waits only for a following star or symbol: `a \| b ε` parses as the concatenation of (a or b) and ε |
| RegexParser.EmptyInputRaises | regular_languages/RegularExpressions/regex_parser.py:89 | an empty token stream leaves an empty stack, whose first element the source reads, so the parse fails |
| RegexCompiler.DefaultSymbol | regular_languages/RegularExpressions/regex_lexer.py:29-31 | every symbol of the default alphabet is a single letter or digit |
| RegexCompiler.DefaultWellFormed | regular_languages/RegularExpressions/regex_lexer.py:29-38 | the default configuration has no empty lexeme and no symbol that is a prefix of another, so its scans are unique |
| RegexCompiler.NoDefaultSymbol | regular_languages/RegularExpressions/regex_lexer.py:29-31 | where the text goes on with something other than a letter or digit, no default symbol matches |
| RegexCompiler.DefaultStep | regular_languages/RegularExpressions/regex_lexer.py:66-87 | the default lexer picks a printable token at the start of that token's own lexeme, whatever follows |
| RegexCompiler.LexUnlexed | regular_languages/RegularExpressions/regex_lexer.py:48-91 | the default lexer reads written-out printable tokens back as those same tokens |
| RegexCompiler.TokensPrintable | regular_languages/RegularExpressions/regex_to_string.py:30-56 | every token of a tree whose symbols are single letters or digits is printable |
| RegexCompiler.LexPrinted | regular_languages/RegularExpressions/regex_lexer.py:40-91 | the default lexer turns a printed printable tree into the tree's tokens, and that is its only complete scan |
| RegexCompiler.PrintedNotStuck | regular_languages/RegularExpressions/regex_lexer.py:89 | lexing printed text never reaches the error before the end |
| RegexCompiler.CompilePrinted | regular_languages/RegularExpressions/regex_compiler.py:9-17 | round trip: lexing a printed printable tree and parsing its tokens gives back the tree |
| RegexCompiler.LexRegularExpression | regular_languages/RegularExpressions/regex_lexer.py:40-46 | the generic lexer's contract, with the default configuration |
| RegexCompiler.CompileRegularExpression | regular_languages/RegularExpressions/regex_compiler.py:9-17 | a tree is returned only as the parse of the text's complete scan, and the corrected compiler returns T for any text printed from a printable tree T |
| RegexPrinter.DefaultsInverse | regular_languages/RegularExpressions/regex_to_string.py:8-29 | the default printer configuration writes each token as the default lexer configuration reads it |
| RegexPrinter.PrintIsUnlex | regular_languages/RegularExpressions/regex_to_string.py:30-56 | under a printer configuration that is the inverse of a lexer configuration, printing a tree writes out its fully parenthesised tokens with that lexer's lexemes |
| RegexPrinter.AsWrittenOnDefault | regular_languages/RegularExpressions/regex_to_string.py:30-56 | as written, the printer succeeds exactly on trees without symbols, and with the default configuration it then prints what Print prints |
| RegexPrinter.AsWrittenDropsConfig | regular_languages/RegularExpressions/regex_to_string.py:41-45 | with `+` as the union lexeme, as written the inner union of ((ε\|ε)\|∅) keeps the default `\|`, while Print writes `+` on both |
| RegexPrinter.AsWrittenSymbol | regular_languages/RegularExpressions/regex_to_string.py:38-39 | as written, printing a symbol raises, while Print writes its text |
| Dfas.New | regular_languages/DFAs/dfa.py:35-56 | construction succeeds exactly when the start state is a state, the accept states are states, the alphabet is non-empty and every transition stays in the states; otherwise the first failing check, in source order, is reported |
| Dfas.Step | regular_languages/DFAs/dfa.py:70-77 | the safe transition function fails exactly on an unknown state or symbol, naming which, and otherwise returns a state |
| Dfas.RunAppend | regular_languages/DFAs/dfa.py:130-141 | simulating u + v continues the simulation of u with v |
| Dfas.RunTotal | regular_languages/DFAs/dfa.py:130-141 | from a state, simulation fails exactly when the word leaves the alphabet, and otherwise ends in a state |
| Dfas.TestTotal | regular_languages/DFAs/dfa.py:143-148 | test never raises on a word over the alphabet and then answers whether the run ends in an accept state |
| Dfas.Simulate | regular_languages/DFAs/dfa.py:130-141 | the loop returns the run from the given start state, or from the DFA's own when none is given |
| Dfas.Test | regular_languages/DFAs/dfa.py:143-148 | the result is whether simulation from the start ends in an accept state, or the error simulation raises |
| Dfas.MapDelta | regular_languages/DFAs/dfa.py:103-110 | every known state and symbol has a transition, and it is the map's move |
| Dfas.FromTransitionMap | regular_languages/DFAs/dfa.py:87-113 | succeeds exactly when the start and accept states occur in the map and some row has a symbol; the states are the keys, the targets and the dead state, the alphabet is every row's symbols, and each step follows the map or goes to the dead state |
| Dfas.MapStepAt | regular_languages/DFAs/dfa.py:107-110 | an entry of the map is the step of its state on its symbol |
| Dfas.ListMap | regular_languages/DFAs/dfa.py:124-125 | the map's keys are exactly the positions of the list, each with its row |
| Dfas.FromTransitionListRows | regular_languages/DFAs/dfa.py:115-128 | position i of the list is the row of state i, and the start state is 0 |
| Dfas.VisitSuccessors | regular_languages/DFAs/dfa.py:162-167 | every successor of the popped state ends up reachable; exactly the newly reached states are queued; every reachable state keeps a witness path |
| Dfas.SearchStep | regular_languages/DFAs/dfa.py:159-167 | one pass keeps the search invariant, and either reaches a new state or shrinks the queue |
| Dfas.DropDisconnected | regular_languages/DFAs/dfa.py:150-171 | the result keeps only states reachable from the start, is closed under transitions, keeps transitions and start, intersects the accept states, and simulates and tests every word as the original does |
| Dfas.ClosedContainsRuns | regular_languages/DFAs/dfa.py:150-171 | a set of states closed under transitions contains every state a run from inside it reaches |
| Dfas.RestrictToClosed | regular_languages/DFAs/dfa.py:169-171 | keeping only a closed set of states that holds the start state changes no run and no test result |
| Dfas.RunsIgnoreStartAndAccept | regular_languages/DFAs/dfa.py:130-141 | runs depend only on the states, alphabet and transitions |
| Dfas.Complement | regular_languages/operators/complement.py:3-10 | the complement is again a valid DFA |
| Dfas.ComplementNegates | regular_languages/operators/complement.py:3-10 | the complement raises on exactly the words the original raises on, and accepts a word over the alphabet iff the original rejects it |
| Dfas.ComplementInvolutive | regular_languages/operators/complement.py:3-10 | complementing twice gives back the original DFA |
| LegacyDfas.New | src/DFA/dfa.py:164-170 | construction succeeds exactly when the start state is a state and the accept states are states, and reports the first failing assertion |
| LegacyDfas.TransitionFunction | src/DFA/dfa.py:176-183 | an unknown state, then an unknown symbol, are reported; otherwise the stored entry is returned, and a missing entry is an error |
| LegacyDfas.Simulate | src/DFA/dfa.py:185-196 | the loop returns the fold of the transition function from the given start state, or from the DFA's own when none is given |
| LegacyDfas.Test | src/DFA/dfa.py:198-203 | the result is whether simulation from the start ends in an accept state, or the error simulation raises |
| LegacyDfas.RunAppend | src/DFA/dfa.py:185-196 | simulating u + v continues the simulation of u with v |
| LegacyDfas.CompleteRunTotal | src/DFA/dfa.py:176-196 | when every state has a stored entry inside the states for every symbol, simulation fails exactly when the word leaves the alphabet, and otherwise ends in a state |
| LegacyDfas.TabulateRow | src/DFA/dfa.py:60-63 | one state's row has exactly the alphabet as keys, each mapped to the function's value |
| LegacyDfas.FromTransitionFunction | src/DFA/dfa.py:47-65 | the map has a row for every state, unless the alphabet is empty, in which case it has none; each row maps every symbol to the function's value; then the constructor's checks decide success |
| LegacyDfas.TabulatedSteps | src/DFA/dfa.py:47-65 | the tabulated DFA steps as the function does on every known state and symbol, and it is complete when the function stays inside the states |
| LegacyDfas.CopyRow | src/DFA/dfa.py:89-95 | the copied row has the same symbols, each naming the same target; the symbols join the alphabet and the targets join the states |
| LegacyDfas.CopyRows | src/DFA/dfa.py:81-95 | after the first pass the states are the dead state, the keys and the targets, the alphabet is every row's symbols, and exactly the keys with a non-empty row have a copied row |
| LegacyDfas.FillRow | src/DFA/dfa.py:109-111 | the filled row has every symbol of the alphabet, keeps the copied entries and sends the others to the dead state |
| LegacyDfas.FillState | src/DFA/dfa.py:101-111 | one state of the second pass gets its final row: a self-loop when it has no row, its filled row otherwise |
| LegacyDfas.FromTransitionMap | src/DFA/dfa.py:67-114 | the states are the dead state, the keys and the targets; the alphabet is every row's symbols; every state has a row over the whole alphabet, following the map, sending missing symbols to the dead state, and looping where a state has no non-empty row; then the constructor's checks decide success |
| LegacyDfas.BuiltComplete | src/DFA/dfa.py:97-111 | the built DFA has an entry inside the states for every state and symbol, and each step is the move described above |
| LegacyDfas.LegacyVersusNewer | src/DFA/dfa.py:101-111 | the legacy and newer from_transition_map agree on every step except from a state with no non-empty row, which loops here and goes to the dead state in the newer class |
| LegacyDfas.TargetOnlyStateLoops | src/DFA/dfa.py:104-106 | from the map {1: {a: 2}}, state 2 loops on a in the legacy DFA and goes to the dead state in the newer one |
| Nfas.Labels | regular_languages/NFAs/nfa.py:45 | the labels checked are ε and every symbol of the alphabet, and nothing else |
| Nfas.New | regular_languages/NFAs/nfa.py:34-48 | construction succeeds exactly when the start state is a state, the accept states are states and every move on a label stays in the states; otherwise the first failing check, in source order, is reported |
| Nfas.Step | regular_languages/NFAs/nfa.py:61-68 | the safe transition function fails exactly on an unknown state or a label outside the alphabet and ε, naming which, and otherwise returns the move, a set of states |
| Nfas.EClose | regular_languages/NFAs/nfa.py:119-138 | the ε-closure of S contains S, lies in the states and is closed under ε-moves |
| Nfas.ECloseLeast | regular_languages/NFAs/nfa.py:119-138 | the ε-closure lies inside every ε-closed superset of S: it is the least one |
| Nfas.ECloseOfClosed | regular_languages/NFAs/nfa.py:119-138 | closing a set that is already ε-closed changes nothing |
| Nfas.ECloseIdempotent | regular_languages/NFAs/nfa.py:119-138 | closing twice is closing once |
| Nfas.ECloseMonotone | regular_languages/NFAs/nfa.py:119-138 | a larger set has a larger closure |
| Nfas.ECloseUnion | regular_languages/NFAs/nfa.py:119-138 | the closure of a union is the union of the closures |
| Nfas.ECloseEmpty | regular_languages/NFAs/nfa.py:119-138 | the closure of the empty set is empty |
| Nfas.ECloseUnfold | regular_languages/NFAs/nfa.py:130-136 | the closure of S is S together with the closure of its ε-successors |
| Nfas.PostFacts | regular_languages/NFAs/nfa.py:151-152 | the moves on a symbol from a set lie in the states, distribute over union and are empty from the empty set |
| Nfas.AccEmpty | regular_languages/NFAs/nfa.py:140-161 | nothing is accepted from the empty set of states |
| Nfas.AccUnion | regular_languages/NFAs/nfa.py:140-161 | a word is accepted from a union of state sets iff it is accepted from one of them |
| Nfas.AccOver | regular_languages/NFAs/nfa.py:150-152 | only words over the alphabet are accepted |
| Nfas.SimStep | regular_languages/NFAs/nfa.py:150-154 | one corrected pass of the simulation loop stays inside the states |
| Nfas.SimStepAsWritten | regular_languages/NFAs/nfa.py:150-154 | one pass as written stays inside the states when it does not raise |
| Nfas.RunFrom | regular_languages/NFAs/nfa.py:147-156 | the corrected simulation stays inside the states |
| Nfas.ECloseChecked | regular_languages/NFAs/nfa.py:119-138 | epsilon_closure, when it does not raise, returns a set of states |
| Nfas.RunFromAcc | regular_languages/NFAs/nfa.py:140-161 | the simulation ends in an accept state exactly when the reference semantics accepts, and never raises on a word over the alphabet |
| Nfas.TestIsLang | regular_languages/NFAs/nfa.py:158-161 | test holds exactly on the NFA's language, and never raises on a word over the alphabet |
| Nfas.AsWrittenAgrees | regular_languages/NFAs/nfa.py:150-154 | wherever the loop as written does not raise, it computes the corrected result |
| Nfas.AsWrittenRaisesOnEmptySet | regular_languages/NFAs/nfa.py:151-152 | for a one-state NFA without moves, reading 0 empties the state set and reading 0 again makes set.union() of no sets raise, while the corrected test rejects the word |
| Nfas.SetToSeq | regular_languages/NFAs/nfa.py:128 | the list holds exactly the elements of the set |
| Nfas.VisitEpsSuccessors | regular_languages/NFAs/nfa.py:133-136 | the unseen ε-successors of the popped state are marked visited and queued, and nothing else |
| Nfas.FloodStaysInClosure | regular_languages/NFAs/nfa.py:130-136 | the flood fill never leaves the ε-closure |
| Nfas.FloodDone | regular_languages/NFAs/nfa.py:130-138 | when the queue is empty, exactly the ε-closure has been visited |
| Nfas.FloodPop | regular_languages/NFAs/nfa.py:130-136 | one pass keeps the flood-fill invariant, and either visits a new state or shrinks the queue |
| Nfas.EpsilonClosure | regular_languages/NFAs/nfa.py:119-138 | the flood fill returns the ε-closure, or raises on a state outside the NFA |
| Nfas.UnionOfMoves | regular_languages/NFAs/nfa.py:151-152 | the union of the moves on a symbol from every state: empty from no states, an error for a symbol outside the alphabet, otherwise the set of successors |
| Nfas.SimulateStep | regular_languages/NFAs/nfa.py:151-154 | one pass is the union of the moves followed by its ε-closure |
| Nfas.Simulate | regular_languages/NFAs/nfa.py:140-156 | the loop computes the corrected simulation from the start state, or from the given states |
| Nfas.Test | regular_languages/NFAs/nfa.py:158-161 | the result is the corrected test, which holds exactly on the language |
| Nfas.FromTransitionMap | regular_languages/NFAs/nfa.py:72-103 | succeeds exactly when the start and accept states occur in the map; the states are the keys and the targets, the alphabet is every row's symbols except ε, and the moves are the map's |
| Nfas.MapMoves | regular_languages/NFAs/nfa.py:93-100 | an entry of the map is the move of its state and label, and a missing row or entry has no successors |
| Nfas.FromTransitionList | regular_languages/NFAs/nfa.py:105-117 | position i of the list is the row of state i, and the start state is 0 |
| NfaWalks.ECloseWalk | regular_languages/NFAs/nfa.py:119-138 | every state of the ε-closure of a set of states is reached from one of them by a walk of ε-moves |
| NfaWalks.WalkEClose | regular_languages/NFAs/nfa.py:119-138 | every state reached by a walk of ε-moves from a set of states lies in its ε-closure |
| NfaWalks.EpsWalkStays | regular_languages/NFAs/nfa.py:119-138 | a walk of ε-moves never leaves an ε-closed set |
| NfaWalks.AccToWalk | regular_languages/NFAs/nfa.py:140-161 | if simulating a word from the ε-closure of a set ends in an accept state, some walk spelling the word leads from the set to an accept state |
| NfaWalks.WalkToAcc | regular_languages/NFAs/nfa.py:140-161 | a walk spelling a word from a state of the set to an accept state makes the simulation from the set's ε-closure accept |
| NfaWalks.AccWalk | regular_languages/NFAs/nfa.py:140-161 | simulating from the ε-closure of a set accepts a word if and only if a walk spelling it leads from the set to an accept state |
| NfaWalks.LangWalk | regular_languages/NFAs/nfa.py:158-161 | `test` accepts a word if and only if a walk spelling it leads from the start state to an accept state |
| GeneratedStates.WrapInternal | regular_languages/NFAs/generated_states.py:14-16 | the wrapped set holds exactly the Internal states of the elements |
| GeneratedStates.WrapLeft | regular_languages/NFAs/generated_states.py:22-24 | the wrapped set holds exactly the Left states of the elements |
| GeneratedStates.WrapRight | regular_languages/NFAs/generated_states.py:30-32 | the wrapped set holds exactly the Right states of the elements |
| GeneratedStates.WrapSizes | regular_languages/NFAs/generated_states.py:10-32 | wrapping is injective, so it keeps the number of states |
| GeneratedStates.WrapMonotone | regular_languages/NFAs/generated_states.py:10-32 | wrapping a larger set gives a larger set |
| UnionOperator.UnionRegex | regular_languages/operators/union.py:9-13 | the union regex has the joint alphabet and a union node over the two trees, and stays consistent when both operands are |
| UnionOperator.UnionMoveInside | regular_languages/operators/union.py:39-52 | every move of the union NFA stays inside its states |
| UnionOperator.UnionNfa | regular_languages/operators/union.py:34-58 | the union NFA passes the constructor's checks and has the described states, moves, start and accept states |
| UnionOperator.UnionSize | regular_languages/operators/union.py:35 | the union has one state more than its two parts together |
| UnionOperator.UnionEClose | regular_languages/operators/union.py:39-52 | closing a set of Left and Right states in the union closes each side in its own NFA |
| UnionOperator.UnionPost | regular_languages/operators/union.py:41-45 | reading a symbol in the union reads it on each side, and a side whose alphabet lacks the symbol gets nothing |
| UnionOperator.UnionAcc | regular_languages/operators/union.py:34-58 | from a set of Left and Right states the union accepts a word iff one of its sides accepts it |
| UnionOperator.UnionAcceptMeets | regular_languages/operators/union.py:55-56 | a set of Left and Right states meets the union's accept states iff one side meets its own |
| UnionOperator.UnionStartRejects | regular_languages/operators/union.py:47-52 | the start state alone accepts nothing |
| UnionOperator.UnionStartClosure | regular_languages/operators/union.py:47-48 | the ε-closure of the start is the start together with both sides' start closures |
| UnionOperator.UnionLang | regular_languages/operators/union.py:34-58 | union_nfa recognises exactly the union of the two languages |
| UnionOperator.AugmentDfa | regular_languages/operators/union.py:61-82 | succeeds exactly when the new alphabet is non-empty; it adds the dead state, keeps start and accept states, and moves as the old DFA on old states and old symbols and to the dead state otherwise |
| UnionOperator.SinkRun | regular_languages/operators/union.py:70-71 | the dead state stays put on every word |
| UnionOperator.AugmentRun | regular_languages/operators/union.py:61-82 | from an old state the widened DFA follows the old one while the word stays in the old alphabet, and is in the dead state once it leaves it |
| UnionOperator.AugmentTest | regular_languages/operators/union.py:61-82 | on words over the new alphabet the widened DFA accepts exactly what the old one accepts |
| UnionOperator.UnionDfa | regular_languages/operators/union.py:15-32 | the product DFA is valid over the joint alphabet, its states are the pairs of widened states, and a pair accepts iff either component does |
| UnionOperator.UnionDfaRun | regular_languages/operators/union.py:23-27 | the product runs both widened DFAs in step |
| UnionOperator.UnionDfaTest | regular_languages/operators/union.py:15-32 | union_dfa raises exactly on words outside the joint alphabet, and accepts the others iff either DFA accepts them |
| ConcatenationOperator.ConcatRegex | regular_languages/operators/concatenation.py:6-10 | the concatenation regex has the joint alphabet and a Concat node over the two trees, and stays consistent when both operands are |
| ConcatenationOperator.ConcatMoveInside | regular_languages/operators/concatenation.py:16-36 | every move of the concatenation NFA stays inside its states |
| ConcatenationOperator.ConcatNfa | regular_languages/operators/concatenation.py:12-41 | the concatenation NFA passes the constructor's checks and has the described states, moves, start and accept states |
| ConcatenationOperator.ConcatSize | regular_languages/operators/concatenation.py:13 | the concatenation has exactly the states of its two parts |
| ConcatenationOperator.ConcatEClose | regular_languages/operators/concatenation.py:28-29 | closing a set of Left and Right states closes the Left part in the first NFA, and the Right part, bridged to the second start when the Left closure meets an accept state, in the second |
| ConcatenationOperator.ConcatPost | regular_languages/operators/concatenation.py:19-36 | reading a symbol reads it on each side, and a side whose alphabet lacks the symbol gets nothing |
| ConcatenationOperator.BridgeAcc | regular_languages/operators/concatenation.py:28-29 | after the ε-bridge the second NFA accepts its own language, and only when the bridge is taken |
| ConcatenationOperator.ConcatAcc | regular_languages/operators/concatenation.py:12-41 | from a coherent set of Left and Right states, the concatenation accepts w iff the Right part accepts it or w splits between the Left part and the second language |
| ConcatenationOperator.ConcatLang | regular_languages/operators/concatenation.py:12-41 | concat_nfa recognises exactly the words that split into a word of the first language followed by a word of the second |
| ClosureOperator.ClosureRegex | regular_languages/operators/closure.py:6-7 | the closure regex keeps the alphabet and has a Closure node over the tree, and stays consistent when the operand is |
| ClosureOperator.ClosureMoveInside | regular_languages/operators/closure.py:13-28 | every move of the closure NFA stays inside its states |
| ClosureOperator.ClosureNfa | regular_languages/operators/closure.py:9-33 | the closure NFA passes the constructor's checks and has the described states, moves, start and accept states |
| ClosureOperator.ClosureSize | regular_languages/operators/closure.py:10 | the closure NFA has one state more than the operand |
| ClosureOperator.ClosureEClose | regular_languages/operators/closure.py:21-22 | closing Internal(P) closes P in the operand and closes in the old start as well when that closure meets an accept state |
| ClosureOperator.ClosurePost | regular_languages/operators/closure.py:15-19 | reading a symbol from Internal states reads it in the operand |
| ClosureOperator.StarFromStart | regular_languages/operators/closure.py:24-25 | from the operand's start closure, the words that split into accepted pieces are exactly the non-empty starred words |
| ClosureOperator.ClosureAcc | regular_languages/operators/closure.py:9-33 | from Internal of a coherent set, the closure NFA accepts w iff a prefix of w is accepted from that set and the rest is a starred word |
| ClosureOperator.ClosureStartClosure | regular_languages/operators/closure.py:24-25 | the ε-closure of Start is Start with Internal of the operand's start closure |
| ClosureOperator.ClosureStartAcc | regular_languages/operators/closure.py:30-31 | Start alone accepts the empty word and nothing else |
| ClosureOperator.ClosureLang | regular_languages/operators/closure.py:9-33 | closure_nfa recognises exactly the Kleene star of the operand's language |
| IdThompson.Span | regular_languages/Converters/Regex_to_NFA.py:24-71 | a tree laid out from an id occupies at least two consecutive ids |
| IdThompson.SpanCounts | regular_languages/Converters/Regex_to_NFA.py:24-71 | two ids per leaf, per Union node and per Closure node |
| IdThompson.IdEndRecursion | regular_languages/Converters/Regex_to_NFA.py:26-65 | the final id follows the recursion: a leaf ends one after its start, a Concat where its right part ends, a Union or Closure one after its last part |
| IdThompson.IdRows | regular_languages/Converters/Regex_to_NFA.py:24-71 | the map's rows are ids before the final one, and the map holds exactly the Thompson layout's edges, because no merge overwrites a row |
| IdThompson.IdBuild | regular_languages/Converters/Regex_to_NFA.py:16-71 | the returned final id lies Span - 1 ids after the start |
| IdThompson.ClosureKeepsNothing | regular_languages/Converters/Regex_to_NFA.py:60-63 | the child's final id never has a row, so the Closure case never finds ε-targets to keep |
| IdThompson.LeafEdges | regular_languages/Converters/Regex_to_NFA.py:25-35 | a leaf's map holds its one edge, or none for the empty language |
| IdThompson.LayoutInRange | regular_languages/Converters/Regex_to_NFA.py:24-71 | every edge leaves an id before the final one and enters an id of the tree's range |
| IdThompson.InLayoutConcat | regular_languages/Converters/Regex_to_NFA.py:37-44 | a Concat node's edges are its parts' edges and the ε-bridge from the left end to the right start |
| IdThompson.ConcatMerge | regular_languages/Converters/Regex_to_NFA.py:41-43 | the Concat merge keeps both maps' edges and adds the bridge |
| IdThompson.UnionMerge | regular_languages/Converters/Regex_to_NFA.py:51-55 | the Union merge keeps both maps' edges and adds the fork from the start and the joins into the new end |
| IdThompson.ClosureMerge | regular_languages/Converters/Regex_to_NFA.py:66-69 | the Closure merge keeps the child's edges and adds the loop and skip edges from the new start and the child's end |
| IdThompson.IdRange | regular_languages/Converters/Regex_to_NFA.py:14 | the set holds exactly the ids lo..hi, and there are hi - lo + 1 of them |
| IdThompson.IdNfaMoves | regular_languages/Converters/Regex_to_NFA.py:12-14 | the automaton's moves are exactly the layout's edges |
| IdThompson.IdNfaFacts | regular_languages/Converters/Regex_to_NFA.py:12-14 | the automaton passes validation, its states are the ids 0..end and only the end id accepts |
| IdThompson.RegexToIdNfa | regular_languages/Converters/Regex_to_NFA.py:7-14 | the intended conversion yields a valid automaton starting at 0, over the regex's alphabet, whose states are the ids 0..end and whose only accept state is the end id |
| IdThompson.RegexToIdNfaMoves | regular_languages/Converters/Regex_to_NFA.py:7-14 | the converted automaton's moves are exactly the layout's edges |
| IdThompson.RegexToIdNfaSize | regular_languages/Converters/Regex_to_NFA.py:7-14 | two states per leaf, per Union node and per Closure node |
| IdThompson.IdRowsAsWrittenRaises | regular_languages/Converters/Regex_to_NFA.py:33 | as written, building the map raises on a tree exactly when it holds a symbol, and otherwise returns the corrected map |
| IdThompson.AsWrittenAlwaysRaises | regular_languages/Converters/Regex_to_NFA.py:14 | the conversion as written fails for every regex: at the symbol pattern when the tree holds a symbol, otherwise at the keyword call; the intended conversion yields a valid automaton |
| IdThompsonLanguage.ConcatShape | regular_languages/Converters/Regex_to_NFA.py:37-44 | in a Concat layout, the left part's ids keep the left part's edges, the left end has only the ε-bridge to the right start, and the right part's ids keep the right part's edges |
| IdThompsonLanguage.UnionShape | regular_languages/Converters/Regex_to_NFA.py:46-55 | in a Union layout, the start forks by ε into both parts, the parts keep their edges, both part ends join the new end by ε, and the new end has no edge |
| IdThompsonLanguage.ClosureShape | regular_languages/Converters/Regex_to_NFA.py:57-69 | in a Closure layout, the start and the child's end move by ε only to the child's start or the new end, the child keeps its edges, and the new end has no edge |
| IdThompsonLanguage.RangeOf | regular_languages/Converters/Regex_to_NFA.py:24-71 | every edge of a layout leaves an id before its end and enters an id of its range |
| IdThompsonLanguage.WalkMatches | regular_languages/Converters/Regex_to_NFA.py:24-71 | every walk from a layout's start to its end spells a word the tree matches |
| IdThompsonLanguage.MatchesWalk | regular_languages/Converters/Regex_to_NFA.py:24-71 | every word the tree matches is spelled by a walk from the layout's start to its end |
| IdThompsonLanguage.ConcatWalkMatches | regular_languages/Converters/Regex_to_NFA.py:37-44 | walks through a Concat layout spell only words the Concat node matches |
| IdThompsonLanguage.UnionWalkMatches | regular_languages/Converters/Regex_to_NFA.py:46-55 | walks through a Union layout spell only words the Union node matches |
| IdThompsonLanguage.ClosureWalkMatches | regular_languages/Converters/Regex_to_NFA.py:57-69 | walks through a Closure layout spell only words the Closure node matches |
| IdThompsonLanguage.ConcatMatchesWalk | regular_languages/Converters/Regex_to_NFA.py:37-44 | every word a Concat node matches is spelled by a walk through its layout |
| IdThompsonLanguage.UnionMatchesWalk | regular_languages/Converters/Regex_to_NFA.py:46-55 | every word a Union node matches is spelled by a walk through its layout |
| IdThompsonLanguage.LoopWalk | regular_languages/Converters/Regex_to_NFA.py:57-69 | every word a Closure node matches is spelled by a walk to the new end, from the start or from the child's end |
| IdThompsonLanguage.EdgesOfIdNfa | regular_languages/Converters/Regex_to_NFA.py:7-14 | the automaton's moves are the layout's edges whose labels are ε or symbols of the regex's alphabet |
| IdThompsonLanguage.LangToMatches | regular_languages/Converters/Regex_to_NFA.py:7-14 | every word the automaton accepts is over the alphabet and matched by the tree |
| IdThompsonLanguage.MatchesToLang | regular_languages/Converters/Regex_to_NFA.py:7-14 | every word over the alphabet that the tree matches is accepted |
| IdThompsonLanguage.RegexToIdNfaLangOver | regular_languages/Converters/Regex_to_NFA.py:7-14 | the automaton accepts a word if and only if the tree matches it and the word is over the regex's alphabet |
| IdThompsonLanguage.RegexToIdNfaLang | regular_languages/Converters/Regex_to_NFA.py:7-14 | for a regex whose tree uses only its alphabet's symbols, the automaton accepts exactly the words the tree matches |
| RegexToNfa.EmptyStrNfa | regular_languages/Converters/regex_to_nfa.py:47-66 | a valid automaton over the empty alphabet with the two basis states |
| RegexToNfa.EmptyLangNfa | regular_languages/Converters/regex_to_nfa.py:68-82 | a valid automaton over the empty alphabet with the two basis states |
| RegexToNfa.SymbolNfa | regular_languages/Converters/regex_to_nfa.py:84-103 | a valid automaton over the one symbol with the two basis states |
| RegexToNfa.EmptyStrLang | regular_languages/Converters/regex_to_nfa.py:47-66 | empty_str_nfa accepts exactly the empty word |
| RegexToNfa.EmptyLangLang | regular_languages/Converters/regex_to_nfa.py:68-82 | empty_lang_nfa accepts no word |
| RegexToNfa.SymbolLang | regular_languages/Converters/regex_to_nfa.py:84-103 | symbol_nfa accepts exactly the one-symbol word |
| RegexToNfa.SymbolAccept | regular_languages/Converters/regex_to_nfa.py:92-98 | from Accept, symbol_nfa accepts the empty word and nothing else |
| RegexToNfa.ToNfa | regular_languages/Converters/regex_to_nfa.py:15-44 | the converted tree is always a valid automaton |
| RegexToNfa.RegexToNfaOf | regular_languages/Converters/regex_to_nfa.py:8-13 | the result is valid and its alphabet is the tree's implied alphabet, whatever alphabet the regex declares |
| RegexToNfa.ToNfaAlphabet | regular_languages/Converters/regex_to_nfa.py:15-44 | the automaton's alphabet is the set of symbols in the tree |
| RegexToNfa.ToNfaSize | regular_languages/Converters/regex_to_nfa.py:15-44 | two states per leaf and one per Union and per Closure node |
| RegexToNfa.ToNfaCorrect | regular_languages/Converters/regex_to_nfa.py:8-44 | the automaton recognises exactly the words the tree matches |
| RegexToNfa.ToNfaAsWrittenRaises | regular_languages/Converters/regex_to_nfa.py:28 | as written, the conversion raises on a tree exactly when it holds a symbol, and otherwise builds the corrected automaton |
| RegexToNfa.ConcatCorrect | regular_languages/Converters/regex_to_nfa.py:36-39 | the Concat case recognises exactly the Concat node's matches |
| RegexToNfa.StarMatches | regular_languages/Converters/regex_to_nfa.py:41-44 | the starred words of the child automaton are exactly the Closure node's matches |

## Findings

| source | as written | input that shows it | evidently intended | confidence | as-written member | corrected member |
|---|---|---|---|---|---|---|
| regular_languages/RegularExpressions/regex_ast.py:30-31 | `SymbolNode` is a plain class, not a dataclass like the other node kinds: it has no constructor taking the symbol and no `__match_args__`. So the class patterns `SymbolNode(symbol)` or `SymbolNode(_)` raise on any symbol leaf, at extract_alphabet.py:19, simplify_regex_ast.py:12, regex_ast_to_DNF.py:11, Converters/regex_to_nfa.py:28, Converters/Regex_to_NFA.py:33 and regex_to_string.py:38. The calls `SymbolNode(symbol)` raise always, at regex_parser.py:75 and GNFAs/gnfa.py:63 and :66 | any tree holding a symbol, such as Symbol(0); for from_DFA, any valid DFA | a dataclass with the one field `symbol` | high, not executed | SymbolNodeSites.WalkersRaiseOnSymbols | SymbolNodeSites.CorrectedWalkersSound |
| regular_languages/GNFAs/gnfa.py:57-66 | both branches of the label update call `SymbolNode(symbol)`, which raises for the reason of the regex_ast.py:30-31 row, so from_DFA builds no graph | any valid DFA, since it has a state and a symbol | each label is the union of the symbols the DFA moves on | high, not executed | Gnfas.FromDfaAsWrittenRaises | GnfaOfDfa.DfaGraphAccepted |
| regular_languages/RegularExpressions/simplify_regex_ast.py:82-83 | the a\*a\* rule calls `ConcatNode` with one argument, which raises when the rule is reached; as written it is never reached, because any tree with a symbol raises first at the `SymbolNode(_)` pattern (see the regex_ast.py:30-31 row) | the rule applied to Concat(Closure(s), Closure(s)) | the result Closure(s) | high, not executed | Simplify.AsWrittenFailsOnStarStar | Simplify.SimplifySound |
| regular_languages/RegularExpressions/regex_ast_to_DNF.py:40-44 | the one-sided distributive cases return Union(Concat(a, b), Union(a, c)), with a bare operand in the second arm | ∅(ε\|ε), which has no symbol and matches no word, becomes ∅ε\|(∅\|ε), which matches the empty word | Union(Concat(a, b), Concat(a, c)) | high, not executed | Dnf.AsWrittenChangesLanguage | Dnf.ToDnfSound |
| regular_languages/NFAs/nfa.py:151-152 | `set.union(*())` over an empty current set raises | a one-state NFA without moves, word 0 0 | the empty union is the empty set, and the word is rejected | high, not executed | Nfas.AsWrittenRaisesOnEmptySet | Nfas.RunFromAcc |
| regular_languages/Converters/NFA_to_DFA.py:26 | the flood fill can reach the empty subset, and simulating from it raises as above | a one-state NFA without moves | the empty subset is a non-accepting sink | high, not executed | NfaToDfa.EmptySubsetRaises | NfaToDfa.NfaToDfa |
| regular_languages/Converters/NFA_to_DFA.py:48-56 | `powerset` always yields the empty subset (size 0), and the table simulates every symbol from it, so `set.union(*())` at NFAs/nfa.py:151 raises | any valid NFA with a non-empty alphabet | the empty subset is a non-accepting sink | high, not executed | NfaToDfa.CompleteAsWrittenRaises | NfaToDfa.CompleteTest |
| regular_languages/Converters/NFA_to_DFA.py:48-49 | `powerset` draws sizes from `range(len(input_set))`, so it omits the full set of states; this shows once the empty-subset simulation below is repaired | a one-state NFA looping on 0, whose start set is all its states | every subset, the full set included | high, not executed | NfaToDfa.PowersetAsWrittenMissesStart | NfaToDfa.CompleteTest |
| regular_languages/RegularExpressions/regex.py:4 | `from_string` imports the `extract_alphabet` of regex_ast.py:35-38, whose body is `pass`, so the implied alphabet is None | any text with a given alphabet, and any text without one | the working `extract_alphabet` of extract_alphabet.py | high, not executed | RegularExpression.FromStringAsWrittenDiverges | RegularExpression.FromString |
| regular_languages/GNFAs/gnfa.py:8 | the GNFA check imports the same placeholder, so taking the subset of None raises for every pair | any adjacency list given to the constructor, for example the graph of the corrected from_DFA (from_DFA as written raises earlier, see the regex_ast.py:30-31 row) | the working `extract_alphabet` | high, not executed | Gnfas.CheckPairsAsWrittenRaises | Gnfas.CheckPairsValid |
| regular_languages/Converters/Regex_to_NFA.py:14 | `NFA.from_transition_map` is called with `states=` and `alphabet=` keywords that it does not take (NFAs/nfa.py:73-74) | any regex: one without symbols reaches this call and raises here, one with symbols raises earlier at the `SymbolNode(symbol)` pattern | the NFA over ids 0..end, with start 0, accept {end} and the regex's alphabet | high, not executed | IdThompson.AsWrittenAlwaysRaises | IdThompsonLanguage.RegexToIdNfaLang |
| regular_languages/GNFAs/gnfa.py:80-90 | `rip_state` takes a `simplify` argument and never applies it | four EmptyLang labels give an eight-node label | the simplified union, which here is EmptyLang | medium, not executed | Gnfas.RipAsWrittenUnsimplified | Gnfas.RipLabelSound |
| regular_languages/RegularExpressions/regex_parser.py:53 | the concatenation guard peeks at the next token even when none is left, and the stream raises | the tokens ε ε | reduce to Concat(ε, ε) at the end of the input | high, not executed | RegexParser.AsWrittenPeeksPastEnd | RegexParser.IntendedNeverPeeksOut |
| regular_languages/RegularExpressions/regex_parser.py:74-75 | `SymbolNode(symbol)` is called with an argument, but the class is not a dataclass (regex_ast.py:30-31), so the call raises | one symbol token | the leaf Symbol(symbol) | high, not executed | RegexParser.AsWrittenSymbolLeaf | RegexParser.ParseOfTokens |
| regular_languages/RegularExpressions/regex_to_string.py:42-43 | the recursive calls leave out `config`, so only the root uses a custom configuration | ((ε\|ε)\|∅) printed with `+` as the union lexeme | every node printed with the given configuration | high, not executed | RegexPrinter.AsWrittenDropsConfig | RegexPrinter.PrintIsUnlex |
| regular_languages/RegularExpressions/regex_to_string.py:38-39 | `case SymbolNode(symbol)` matches a positional sub-pattern that the class does not declare, which raises | Symbol("a") | the symbol's text | high, not executed | RegexPrinter.AsWrittenSymbol | RegexPrinter.PrintIsUnlex |

## Left out

- Exception messages: failures are error values of a `Result`, not message strings.
- Python set iteration order: an arbitrary choice wherever the source iterates a set or pops from one (`:|` in the loops). The results are proved independent of that order: the lexer's symbol choice, the rip order, the worklist pops and the pick of representatives.
- `from_unsafe_transition_func` and the transition closures: a transition function is a finite map over its declared domain. The source's closure plumbing is not modelled.
- The construction order of validation: checks that loop over a set report the first failing item in a given order. That order stands for the set's iteration order.
- The `print(token_stream)` call in regex_parser.py:18: console output.
- `freeze`: frozen and mutable sets are the same values here, so `Freeze` changes nothing.
- Python's `defaultdict` reads inserting empty entries: a missing key reads as its default and is not stored.
- regular_languages/NFA/nfa.py is a copy of NFAs/nfa.py. src/NFA/nfa.py and src/DFA/general_dfa.py do not run. The Regex/ skeletons and DFA_to_Regex.py hold no logic, and DFA_to_NFA.py raises. None of these is part of this model.
- The DFA stubs `minimize`, `rename_states*`, `get_*transition*`, `visualize`, `to_table`, `size` and `asJSON` (DFAs/dfa.py:173-272): unimplemented or presentation-only.
- The legacy `from_transition_list` (src/DFA/dfa.py): not modelled. The newer class's `from_transition_list` is modelled.
- LegacyDfas: the first `__post_init__` (src/DFA/dfa.py:25-45) is shadowed by the second and never runs, so it is not modelled. `LegacyDfas.Complete` states per state and symbol what it would have checked.
- LegacyDfas: Python's `None` dead state is `Dead` of `DState<T>`. An omitted start state is an `Option`. The start and accept states given to the map constructor are lifted by `Named`.
- Partition refinement: `refine(S)` requires S to lie inside the universe, because the source raises KeyError on an unknown element. That precondition stands for the KeyError.
- Hopcroft.QueueCuts: the branch for a preimage already in the queue (partition_dfa_states.py:53-56) is proved unreachable and holds only `assert false`. A queued splitter is always a union of current classes, so its preimage cuts nothing.
- Minimize.MinimizeDfa: like the source, the result keeps classes that are unreachable from the start, such as the dead state's class. `Minimize.QuotientReduced` therefore shows that no two states are equivalent, not that the result has the fewest reachable states.
- RegexLexer.LexTokens: requires every configured lexeme to be non-empty. The source does not check this, and with an empty lexeme its loop does not end.
- RegexPrinter.Print: modelled for trees over string symbols, printed as their own text. The source relies on Python's `str()` for other symbol types.
- RegexParser.Finish: an empty final stack (`stack[0]` raising IndexError) is the error `EmptyStack`.
- RegexToNfa.RegexToNfaOf: like the source, it ignores the regex's declared alphabet. The automaton's alphabet is the tree's implied alphabet.
- NfaToDfa.NfaToDfa: rows are stored once per popped set, after its symbol loop, rather than one entry at a time. The final map is the same.
- NfaToDfa.CompleteTableShape: the state set of the complete DFA is characterised at the level of its table.
- Gnfas.Gnfa.RipState: requires R to be a state, since the source's `remove` raises otherwise. The stored label is the simplified one, as in the corrected row of "## Findings".
- NfaToDfa.CompleteAsWritten: when several table entries would raise, it reports the error of some failing subset and symbol, not of the one Python's set order reaches first. Every such error is the same empty union.
- IdThompson.IdRowsAsWritten: where it succeeds it returns the corrected map `IdRows`. It checks each child as written but does not rebuild the map through the as-written recursion, since the two recursions differ only at a symbol, where the as-written one raises.
- Gnfas.FromDfaLoopAsWritten: states only whether the label loop of from_DFA gets through, not the labels it holds when it raises.
- RegexParser.Parse: the union guard (regex_parser.py:64-65) is modelled as written. It reduces a union before any lookahead other than a star or a symbol, so `a | b ε` groups as (a | b) ε. The source states no other precedence for ε, ∅ or a parenthesis after a union, so there is no corrected guard.

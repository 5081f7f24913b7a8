/**
 * The single-pass Thompson construction over integer state ids
 * (Converters/Regex_to_NFA.py).  A tree laid out from id `start` occupies the
 * consecutive ids start..end and yields a nested transition map whose rows are
 * keyed by ids; the parts of a tree are laid out side by side and their maps
 * merged with Python's right-biased `|`, which is Dafny's map `+`.
 *
 * The source computes the pair (map, end) in one recursion; here the pair's
 * two components are two functions over the same recursion, IdRows and IdEnd,
 * and IdBuild pairs them up again.
 */
module IdThompson {
  import opened Wrappers
  import opened RegexAst
  import opened ExtractAlphabet
  import opened RegularExpression
  import opened Nfas

  /** The nested transition map: id -> label -> successor ids. */
  type IdMap<S(==)> = map<int, map<Label<S>, set<int>>>

  /** Number of ids a tree occupies. */
  function Span<S>(t: Regex<S>): (n: int)
    ensures n >= 2
  {
    match t
    case Concat(a, b) => Span(a) + Span(b)
    case Union(a, b) => Span(a) + Span(b) + 2
    case Closure(a) => Span(a) + 2
    case _ => 2
  }

  /** Two ids per leaf, per Union node and per Closure node. */
  lemma {:induction false} SpanCounts<S>(t: Regex<S>)
    ensures Span(t) == 2 * (Leaves(t) + Unions(t) + Closures(t))
  {
    match t
    case Concat(a, b) => SpanCounts(a); SpanCounts(b);
    case Union(a, b) => SpanCounts(a); SpanCounts(b);
    case Closure(a) => SpanCounts(a);
    case _ =>
  }

  /** The final id of a tree laid out from start. */
  function IdEnd<S>(t: Regex<S>, start: int): int
  {
    start + Span(t) - 1
  }

  /** The final id follows the source's recursion: a leaf ends one after its
    * start, Concat where its right part ends, Union and Closure one after
    * their last part. */
  lemma {:induction false} IdEndRecursion<S>(t: Regex<S>, start: int)
    ensures IdEnd(t, start) == match t
      case Concat(a, b) => IdEnd(b, IdEnd(a, start) + 1)
      case Union(a, b) => IdEnd(b, IdEnd(a, start + 1) + 1) + 1
      case Closure(a) => IdEnd(a, start + 1) + 1
      case _ => start + 1
  {
  }

  /** The targets a map records for a row and label; none when either is missing. */
  function Targets<S(==)>(m: IdMap<S>, k: int, l: Label<S>): set<int>
  {
    if k in m && l in m[k] then m[k][l] else {}
  }

  /** The transition map the recursion returns (lines 25-69): its rows are ids
    * in [start, end), so the final id has no outgoing edge, and since the
    * shallow merges never overwrite a row it holds exactly the layout's edges. */
  function IdRows<S(==,!new)>(t: Regex<S>, start: int): (m: IdMap<S>)
    ensures RowsWithin(m, start, start + Span(t) - 1)
    ensures EdgesAre(m, t, start)
  {
    match t
    case EmptyStr =>
      var m := map[start := map[Eps := {start + 1}]];
      LeafEdges(t, start, m);
      m
    case EmptyLang =>
      var m := map[];
      LeafEdges(t, start, m);
      m
    case Symbol(s) =>
      var m := map[start := map[Sym(s) := {start + 1}]];
      LeafEdges(t, start, m);
      m
    case Concat(a, b) =>
      var m1, m2 := IdRows(a, start), IdRows(b, start + Span(a));
      ConcatKeys(start, m1, start + Span(a) - 1, m2, start + Span(a) + Span(b) - 1);
      ConcatAll(a, b, start, m1, m2);
      ConcatJoin(m1, start + Span(a) - 1, m2)
    case Union(a, b) =>
      var m1, m2 := IdRows(a, start + 1), IdRows(b, start + Span(a) + 1);
      UnionKeys(start, m1, start + Span(a), m2, start + Span(a) + Span(b));
      UnionAll(a, b, start, m1, m2);
      UnionJoin(start, m1, start + Span(a), m2, start + Span(a) + Span(b))
    case Closure(a) =>
      var m := IdRows(a, start + 1);
      ClosureKeys(start, m, start + Span(a));
      ClosureAll(a, start, m);
      ClosureJoin(start, m, start + Span(a))
  }

  /** Lines 41-43: the left map, the right map, and the ε bridge from the left
    * end to the right start. */
  function ConcatJoin<S(==)>(m1: IdMap<S>, e1: int, m2: IdMap<S>): IdMap<S>
  {
    m1 + m2 + map[e1 := map[Eps := {e1 + 1}]]
  }

  /** Lines 50-55: both maps, the fork from the new start, and the joins from
    * both ends into the new end. */
  function UnionJoin<S(==)>(start: int, m1: IdMap<S>, e1: int, m2: IdMap<S>, e2: int): IdMap<S>
  {
    var end := e2 + 1;
    m1 + m2 + map[start := map[Eps := {start + 1, e1 + 1}], e1 := map[Eps := {end}], e2 := map[Eps := {end}]]
  }

  /** Lines 60-69: the child's map, the new start's ε-edges, and the child end's
    * ε-edges, kept together with any it already had. */
  function ClosureJoin<S(==)>(start: int, m: IdMap<S>, e: int): IdMap<S>
  {
    var endTargets := Targets(m, e, Eps);
    var end := e + 1;
    m + map[start := map[Eps := {start + 1, end}], e := map[Eps := endTargets + {start + 1, end}]]
  }

  /** Why the conversion fails as written: at the keywords of line 14, or at
    * the pattern SymbolNode(symbol) (see RegexAst.SymbolNodeError). */
  datatype IdNfaError = UnexpectedKeyword | SymbolPatternRaised

  /** The recursion as written: the pattern SymbolNode(symbol) of line 33
    * raises on the first Symbol leaf, left part before right part.  Every
    * other line is the corrected recursion's, so where it returns, it returns
    * IdRows. */
  function IdRowsAsWritten<S(==,!new)>(t: Regex<S>, start: int): Result<IdMap<S>, IdNfaError>
  {
    match t
    case EmptyStr => Success(IdRows(t, start))
    case EmptyLang => Success(IdRows(t, start))
    case Symbol(_) => Failure(SymbolPatternRaised)
    case Concat(a, b) =>
      var _ :- IdRowsAsWritten(a, start);
      var _ :- IdRowsAsWritten(b, start + Span(a));
      Success(IdRows(t, start))
    case Union(a, b) =>
      var _ :- IdRowsAsWritten(a, start + 1);
      var _ :- IdRowsAsWritten(b, start + Span(a) + 1);
      Success(IdRows(t, start))
    case Closure(a) =>
      var _ :- IdRowsAsWritten(a, start + 1);
      Success(IdRows(t, start))
  }

  /** As written the recursion raises exactly on the trees holding a symbol. */
  lemma {:induction false} IdRowsAsWrittenRaises<S(!new)>(t: Regex<S>, start: int)
    ensures IdRowsAsWritten(t, start)
         == if Alphabet(t) == {} then Success(IdRows(t, start)) else Failure(SymbolPatternRaised)
  {
    match t
    case EmptyStr =>
    case EmptyLang =>
    case Symbol(_) =>
    case Concat(a, b) => IdRowsAsWrittenRaises(a, start); IdRowsAsWrittenRaises(b, start + Span(a));
    case Union(a, b) => IdRowsAsWrittenRaises(a, start + 1); IdRowsAsWrittenRaises(b, start + Span(a) + 1);
    case Closure(a) => IdRowsAsWrittenRaises(a, start + 1);
  }

  /** Regex_to_NFA_transition_map: the map and the final id, which lies
    * Span - 1 ids after the start. */
  function IdBuild<S(==,!new)>(t: Regex<S>, start: int): (r: (IdMap<S>, int))
    ensures r.1 == start + Span(t) - 1
  {
    (IdRows(t, start), IdEnd(t, start))
  }

  // ---- the edge view ----------------------------------------------------------------

  /** Whether the map records the edge k -l-> p. */
  predicate HasEdge<S(==)>(m: IdMap<S>, k: int, l: Label<S>, p: int)
  {
    k in m && l in m[k] && p in m[k][l]
  }

  /** The edges of a tree laid out from start, written from the layout alone:
    * the children's edges, each child placed after the ids its predecessors
    * occupy, plus the ε-edges the node kind adds. */
  predicate InLayout<S(==)>(t: Regex<S>, start: int, k: int, l: Label<S>, p: int)
  {
    match t
    case EmptyStr => k == start && l == Eps && p == start + 1
    case EmptyLang => false
    case Symbol(s) => k == start && l == Sym(s) && p == start + 1
    case Concat(a, b) =>
      var mid := start + Span(a);
      InLayout(a, start, k, l, p) || InLayout(b, mid, k, l, p) || (k == mid - 1 && l == Eps && p == mid)
    case Union(a, b) =>
      var e1 := start + Span(a);
      var e2 := e1 + Span(b);
      InLayout(a, start + 1, k, l, p) || InLayout(b, e1 + 1, k, l, p) ||
      (l == Eps && ((k == start && (p == start + 1 || p == e1 + 1)) || ((k == e1 || k == e2) && p == e2 + 1)))
    case Closure(a) =>
      var e := start + Span(a);
      InLayout(a, start + 1, k, l, p) || (l == Eps && (k == start || k == e) && (p == start + 1 || p == e + 1))
  }

  /** Every row of m is an id in [lo, hi). */
  predicate RowsWithin<S(==)>(m: IdMap<S>, lo: int, hi: int)
  {
    forall k :: k in m ==> lo <= k < hi
  }

  /** m records exactly the edges of t laid out from start. */
  ghost predicate EdgesAre<S(!new)>(m: IdMap<S>, t: Regex<S>, start: int)
  {
    forall k, l, p :: HasEdge(m, k, l, p) <==> InLayout(t, start, k, l, p)
  }

  /** The child's final id has no row, so the Closure case never finds
    * existing ε-targets to keep (lines 60-63 always take the else branch). */
  lemma {:induction false} ClosureKeepsNothing<S(!new)>(a: Regex<S>, start: int)
    ensures Targets(IdRows(a, start + 1), IdEnd(a, start + 1), Eps) == {}
  {
  }

  // ---- the merges -----------------------------------------------------------------

  /** A leaf's map holds its one edge, or none for the empty language. */
  lemma {:induction false} LeafEdges<S(!new)>(t: Regex<S>, start: int, m: IdMap<S>)
    requires t.EmptyStr? || t.EmptyLang? || t.Symbol?
    requires m == (match t
      case EmptyStr => map[start := map[Eps := {start + 1}]]
      case Symbol(s) => map[start := map[Sym(s) := {start + 1}]]
      case _ => map[])
    ensures RowsWithin(m, start, start + 1) && EdgesAre(m, t, start)
  {
    forall k, l, p ensures HasEdge(m, k, l, p) <==> InLayout(t, start, k, l, p) {
    }
  }

  /** Every edge leaves an id in [start, end) and enters one in [start, end]. */
  lemma {:induction false} LayoutInRange<S>(t: Regex<S>, start: int, k: int, l: Label<S>, p: int)
    requires InLayout(t, start, k, l, p)
    ensures start <= k < start + Span(t) - 1 && start <= p <= start + Span(t) - 1
  {
    match t
    case EmptyStr =>
    case EmptyLang =>
    case Symbol(s) =>
    case Concat(a, b) =>
      if InLayout(a, start, k, l, p) {
        LayoutInRange(a, start, k, l, p);
      } else if InLayout(b, start + Span(a), k, l, p) {
        LayoutInRange(b, start + Span(a), k, l, p);
      }
    case Union(a, b) =>
      if InLayout(a, start + 1, k, l, p) {
        LayoutInRange(a, start + 1, k, l, p);
      } else if InLayout(b, start + Span(a) + 1, k, l, p) {
        LayoutInRange(b, start + Span(a) + 1, k, l, p);
      }
    case Closure(a) =>
      if InLayout(a, start + 1, k, l, p) {
        LayoutInRange(a, start + 1, k, l, p);
      }
  }

  lemma {:induction false} ConcatKeys<S>(lo: int, m1: IdMap<S>, e1: int, m2: IdMap<S>, hi: int)
    requires RowsWithin(m1, lo, e1) && RowsWithin(m2, e1 + 1, hi) && lo <= e1 < hi
    ensures RowsWithin(ConcatJoin(m1, e1, m2), lo, hi)
  {
  }

  lemma {:induction false} UnionKeys<S>(start: int, m1: IdMap<S>, e1: int, m2: IdMap<S>, e2: int)
    requires RowsWithin(m1, start + 1, e1) && RowsWithin(m2, e1 + 1, e2) && start < e1 < e2
    ensures RowsWithin(UnionJoin(start, m1, e1, m2, e2), start, e2 + 1)
  {
  }

  lemma {:induction false} ClosureKeys<S>(start: int, m: IdMap<S>, e: int)
    requires RowsWithin(m, start + 1, e) && start < e
    ensures RowsWithin(ClosureJoin(start, m, e), start, e + 1)
  {
  }

  lemma {:induction false} ConcatAll<S(!new)>(a: Regex<S>, b: Regex<S>, start: int, m1: IdMap<S>, m2: IdMap<S>)
    requires RowsWithin(m1, start, start + Span(a) - 1) && EdgesAre(m1, a, start)
    requires RowsWithin(m2, start + Span(a), start + Span(a) + Span(b) - 1) && EdgesAre(m2, b, start + Span(a))
    ensures EdgesAre(ConcatJoin(m1, start + Span(a) - 1, m2), Concat(a, b), start)
  {
    forall k, l, p ensures HasEdge(ConcatJoin(m1, start + Span(a) - 1, m2), k, l, p) <==> InLayout(Concat(a, b), start, k, l, p) {
      ConcatAt(a, b, start, m1, m2, k, l, p);
      InLayoutConcat(a, b, start, k, l, p);
    }
  }

  /** The edges of a Concat node: both parts' and the bridge. */
  lemma {:induction false} InLayoutConcat<S>(a: Regex<S>, b: Regex<S>, start: int, k: int, l: Label<S>, p: int)
    ensures InLayout(Concat(a, b), start, k, l, p)
        <==> InLayout(a, start, k, l, p) || InLayout(b, start + Span(a), k, l, p) ||
             (k == start + Span(a) - 1 && l == Eps && p == start + Span(a))
  {
  }

  lemma {:induction false} ConcatAt<S(!new)>(a: Regex<S>, b: Regex<S>, start: int, m1: IdMap<S>, m2: IdMap<S>, k: int, l: Label<S>, p: int)
    requires RowsWithin(m1, start, start + Span(a) - 1) && EdgesAre(m1, a, start)
    requires RowsWithin(m2, start + Span(a), start + Span(a) + Span(b) - 1) && EdgesAre(m2, b, start + Span(a))
    ensures HasEdge(ConcatJoin(m1, start + Span(a) - 1, m2), k, l, p)
        <==> InLayout(a, start, k, l, p) || InLayout(b, start + Span(a), k, l, p) ||
             (k == start + Span(a) - 1 && l == Eps && p == start + Span(a))
  {
    ConcatMerge(m1, start + Span(a) - 1, m2, k, l, p);
  }

  lemma {:induction false} UnionAll<S(!new)>(a: Regex<S>, b: Regex<S>, start: int, m1: IdMap<S>, m2: IdMap<S>)
    requires RowsWithin(m1, start + 1, start + Span(a)) && EdgesAre(m1, a, start + 1)
    requires RowsWithin(m2, start + Span(a) + 1, start + Span(a) + Span(b)) && EdgesAre(m2, b, start + Span(a) + 1)
    ensures EdgesAre(UnionJoin(start, m1, start + Span(a), m2, start + Span(a) + Span(b)), Union(a, b), start)
  {
    forall k, l, p ensures HasEdge(UnionJoin(start, m1, start + Span(a), m2, start + Span(a) + Span(b)), k, l, p) <==> InLayout(Union(a, b), start, k, l, p) {
      UnionAt(a, b, start, m1, m2, k, l, p);
    }
  }

  lemma {:induction false} UnionAt<S(!new)>(a: Regex<S>, b: Regex<S>, start: int, m1: IdMap<S>, m2: IdMap<S>, k: int, l: Label<S>, p: int)
    requires RowsWithin(m1, start + 1, start + Span(a)) && EdgesAre(m1, a, start + 1)
    requires RowsWithin(m2, start + Span(a) + 1, start + Span(a) + Span(b)) && EdgesAre(m2, b, start + Span(a) + 1)
    ensures HasEdge(UnionJoin(start, m1, start + Span(a), m2, start + Span(a) + Span(b)), k, l, p) <==> InLayout(Union(a, b), start, k, l, p)
  {
    assert HasEdge(m1, k, l, p) <==> InLayout(a, start + 1, k, l, p);
    assert HasEdge(m2, k, l, p) <==> InLayout(b, start + Span(a) + 1, k, l, p);
    UnionMerge(start, m1, start + Span(a), m2, start + Span(a) + Span(b), k, l, p);
  }

  lemma {:induction false} ClosureAll<S(!new)>(a: Regex<S>, start: int, m: IdMap<S>)
    requires RowsWithin(m, start + 1, start + Span(a)) && EdgesAre(m, a, start + 1)
    ensures EdgesAre(ClosureJoin(start, m, start + Span(a)), Closure(a), start)
  {
    forall k, l, p ensures HasEdge(ClosureJoin(start, m, start + Span(a)), k, l, p) <==> InLayout(Closure(a), start, k, l, p) {
      ClosureAt(a, start, m, k, l, p);
    }
  }

  lemma {:induction false} ClosureAt<S(!new)>(a: Regex<S>, start: int, m: IdMap<S>, k: int, l: Label<S>, p: int)
    requires RowsWithin(m, start + 1, start + Span(a)) && EdgesAre(m, a, start + 1)
    ensures HasEdge(ClosureJoin(start, m, start + Span(a)), k, l, p) <==> InLayout(Closure(a), start, k, l, p)
  {
    assert HasEdge(m, k, l, p) <==> InLayout(a, start + 1, k, l, p);
    ClosureMerge(start, m, start + Span(a), k, l, p);
  }

  /** The Concat merge adds the bridge and keeps both maps' edges, whose rows
    * lie before and after the bridge. */
  lemma {:induction false} ConcatMerge<S>(m1: IdMap<S>, e1: int, m2: IdMap<S>, k: int, l: Label<S>, p: int)
    requires (k in m1 ==> k < e1) && (k in m2 ==> k > e1)
    ensures HasEdge(ConcatJoin(m1, e1, m2), k, l, p)
        <==> HasEdge(m1, k, l, p) || HasEdge(m2, k, l, p) || (k == e1 && l == Eps && p == e1 + 1)
  {
  }

  /** The Union merge adds the fork and the two joins and keeps both maps'
    * edges, whose rows lie strictly between the new ids. */
  lemma {:induction false} UnionMerge<S>(start: int, m1: IdMap<S>, e1: int, m2: IdMap<S>, e2: int, k: int, l: Label<S>, p: int)
    requires start < e1 < e2 && (k in m1 ==> start < k < e1) && (k in m2 ==> e1 < k < e2)
    ensures HasEdge(UnionJoin(start, m1, e1, m2, e2), k, l, p)
        <==> HasEdge(m1, k, l, p) || HasEdge(m2, k, l, p) ||
             (l == Eps && ((k == start && (p == start + 1 || p == e1 + 1)) || ((k == e1 || k == e2) && p == e2 + 1)))
  {
  }

  /** The Closure merge adds the loop edges and keeps the map's edges, none of
    * which leaves the child's end. */
  lemma {:induction false} ClosureMerge<S>(start: int, m: IdMap<S>, e: int, k: int, l: Label<S>, p: int)
    requires e !in m && (k in m ==> start < k < e)
    ensures HasEdge(ClosureJoin(start, m, e), k, l, p)
        <==> HasEdge(m, k, l, p) || (l == Eps && (k == start || k == e) && (p == start + 1 || p == e + 1))
  {
  }

  // ---- Regex_to_NFA -------------------------------------------------------------------

  /** As written, the conversion passes `states` and `alphabet` keywords that the
    * NFA's from_transition_map does not take, so every call that gets past the
    * recursion raises there. */
  function RegexToIdNfaAsWritten<S(==,!new)>(r: RegexValue<S>): Result<Nfa<int, S>, IdNfaError>
  {
    var m :- IdRowsAsWritten(r.ast, 0);
    Failure(UnexpectedKeyword)
  }

  /** The ids lo..hi. */
  function IdRange(lo: int, hi: int): (r: set<int>)
    ensures forall i :: i in r <==> lo <= i <= hi
    ensures lo <= hi + 1 ==> |r| == hi - lo + 1
    decreases hi - lo
  {
    if lo > hi then {} else IdRange(lo, hi - 1) + {hi}
  }

  /** The automaton the conversion means to build: ids 0..end, the regex's
    * alphabet, the map's entries as moves, 0 starting and end accepting. */
  function IdNfaOf<S(==,!new)>(r: RegexValue<S>): Nfa<int, S>
  {
    var end := IdEnd(r.ast, 0);
    Nfa(IdRange(0, end), r.alphabet, MapDelta(IdRows(r.ast, 0)), 0, {end})
  }

  /** The automaton's moves are exactly the layout's edges. */
  lemma {:induction false} IdNfaMoves<S(!new)>(r: RegexValue<S>, q: int, l: Label<S>, p: int)
    ensures p in Move(IdNfaOf(r), q, l) <==> InLayout(r.ast, 0, q, l, p)
  {
    assert p in Move(IdNfaOf(r), q, l) <==> HasEdge(IdRows(r.ast, 0), q, l, p);
  }

  /** The automaton passes validation, its states are the ids 0..end and
    * end alone accepts. */
  lemma {:induction false} IdNfaFacts<S(!new)>(r: RegexValue<S>)
    ensures Valid(IdNfaOf(r))
    ensures forall i :: i in IdNfaOf(r).states <==> 0 <= i <= Span(r.ast) - 1
    ensures IdNfaOf(r).accept == {Span(r.ast) - 1}
  {
    var n := IdNfaOf(r);
    forall q, l, p | p in Move(n, q, l) ensures p in n.states {
      IdNfaMoves(r, q, l, p);
      LayoutInRange(r.ast, 0, q, l, p);
    }
    assert TransitionsInside(n);
  }

  /** The evidently intended conversion, which always passes validation:
    * ids 0..Span-1 are the states, 0 starts, the last id alone accepts and
    * the regex's alphabet is the alphabet. */
  function RegexToIdNfa<S(==,!new)>(r: RegexValue<S>): (n: Nfa<int, S>)
    ensures Valid(n)
    ensures n.start == 0 && n.alphabet == r.alphabet
    ensures forall i :: i in n.states <==> 0 <= i <= Span(r.ast) - 1
    ensures n.accept == {Span(r.ast) - 1}
  {
    IdNfaFacts(r);
    IdNfaOf(r)
  }

  /** The moves of the converted automaton are exactly the layout's edges. */
  lemma {:induction false} RegexToIdNfaMoves<S(!new)>(r: RegexValue<S>, q: int, l: Label<S>, p: int)
    ensures p in Move(RegexToIdNfa(r), q, l) <==> InLayout(r.ast, 0, q, l, p)
  {
    IdNfaMoves(r, q, l, p);
  }

  /** Exactly two states per leaf, Union and Closure node. */
  lemma {:induction false} RegexToIdNfaSize<S(!new)>(r: RegexValue<S>)
    ensures |RegexToIdNfa(r).states| == 2 * (Leaves(r.ast) + Unions(r.ast) + Closures(r.ast))
  {
    SpanCounts(r.ast);
  }

  /** The source's call raises for every regex: at a Symbol leaf when the tree
    * holds one, otherwise at the keywords; the intended conversion yields a
    * valid automaton. */
  lemma {:induction false} AsWrittenAlwaysRaises<S(!new)>(r: RegexValue<S>)
    ensures RegexToIdNfaAsWritten(r)
         == Failure(if Alphabet(r.ast) == {} then UnexpectedKeyword else SymbolPatternRaised)
    ensures Valid(RegexToIdNfa(r))
  {
    IdRowsAsWrittenRaises(r.ast, 0);
  }
}

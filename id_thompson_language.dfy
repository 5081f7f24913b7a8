/**
 * The language of the id-numbered Thompson automaton.  A tree laid out from
 * `start` is a region of ids start..end; its walks from start to end spell
 * exactly the words the tree matches.  Inside a Concat, Union or Closure the
 * walk crosses each child's region from its first id to its last, leaving it
 * only through the ε-edges the node adds, so the proof cuts the walk where it
 * first leaves a child's region.
 */
module IdThompsonLanguage {
  import opened RegexAst
  import opened RegexSemantics
  import opened RegularExpression
  import opened Nfas
  import opened NfaWalks
  import opened IdThompson

  /** The edges of t laid out from start, as an edge relation. */
  ghost function Lay<S>(t: Regex<S>, start: int): Edges<int, S>
  {
    (k, l, p) => InLayout(t, start, k, l, p)
  }

  lemma LayIs<S>(t: Regex<S>, start: int)
    ensures forall k, l, p :: Lay(t, start)(k, l, p) == InLayout(t, start, k, l, p)
  {
  }

  /** Every edge of t laid out from start leaves an id before its end and
    * enters one up to its end. */
  lemma RangeOf<S>(t: Regex<S>, start: int)
    ensures forall k, l, p :: InLayout(t, start, k, l, p) ==> start <= k < IdEnd(t, start) && start <= p <= IdEnd(t, start)
  {
    forall k, l, p | InLayout(t, start, k, l, p) ensures start <= k < IdEnd(t, start) && start <= p <= IdEnd(t, start) {
      LayoutInRange(t, start, k, l, p);
    }
  }

  /** The edges of a Concat laid out from start, with a's last id m1, b's
    * first id mid and b's last id end: a's edges below m1, the bridge out of
    * m1 into mid, and b's edges from mid on. */
  lemma ConcatShape<S>(a: Regex<S>, b: Regex<S>, start: int, m1: int, mid: int, end: int)
    requires m1 == IdEnd(a, start) && mid == m1 + 1 && end == IdEnd(b, mid)
    ensures forall x, l, r :: start <= x < m1 && InLayout(Concat(a, b), start, x, l, r) ==> InLayout(a, start, x, l, r)
    ensures forall l, r :: InLayout(Concat(a, b), start, m1, l, r) ==> l == Eps && r == mid
    ensures forall x, l, r :: mid <= x <= end && InLayout(Concat(a, b), start, x, l, r) ==> InLayout(b, mid, x, l, r)
  {
    RangeOf(a, start);
    RangeOf(b, mid);
  }

  /** The edges of a Union laid out from start, with a's last id e1 and b's
    * last id e2: the fork out of start, a's edges, the joins out of e1 and
    * e2 into the last id, b's edges, and nothing out of the last id. */
  lemma UnionShape<S>(a: Regex<S>, b: Regex<S>, start: int, e1: int, e2: int, end: int)
    requires e1 == IdEnd(a, start + 1) && e2 == IdEnd(b, e1 + 1) && end == e2 + 1
    ensures forall l, r :: InLayout(Union(a, b), start, start, l, r) ==> l == Eps && (r == start + 1 || r == e1 + 1)
    ensures forall x, l, r :: start + 1 <= x < e1 && InLayout(Union(a, b), start, x, l, r) ==> InLayout(a, start + 1, x, l, r)
    ensures forall l, r :: InLayout(Union(a, b), start, e1, l, r) ==> l == Eps && r == end
    ensures forall x, l, r :: e1 + 1 <= x < e2 && InLayout(Union(a, b), start, x, l, r) ==> InLayout(b, e1 + 1, x, l, r)
    ensures forall l, r :: InLayout(Union(a, b), start, e2, l, r) ==> l == Eps && r == end
    ensures forall l, r :: !InLayout(Union(a, b), start, end, l, r)
  {
    RangeOf(a, start + 1);
    RangeOf(b, e1 + 1);
  }

  /** The edges of a Closure laid out from start, with a's last id e: a's
    * edges, ε-edges out of start and out of e into a's first id and into the
    * last id, and nothing out of the last id. */
  lemma ClosureShape<S>(a: Regex<S>, start: int, e: int, end: int)
    requires e == IdEnd(a, start + 1) && end == e + 1
    ensures forall l, r :: InLayout(Closure(a), start, start, l, r) ==> l == Eps && (r == start + 1 || r == end)
    ensures forall x, l, r :: start + 1 <= x < e && InLayout(Closure(a), start, x, l, r) ==> InLayout(a, start + 1, x, l, r)
    ensures forall l, r :: InLayout(Closure(a), start, e, l, r) ==> l == Eps && (r == start + 1 || r == end)
    ensures forall l, r :: !InLayout(Closure(a), start, end, l, r)
  {
    RangeOf(a, start + 1);
  }

  // ---- cutting a walk at a region's boundary ----------------------------------

  /** A walk from inside the region lo..hi to outside it, where inside the
    * region only E1's edges (which stay in the region) leave ids below hi and
    * only ε-edges leave hi: an E1-walk to hi, then an ε-edge out of hi, then
    * the rest of the walk. */
  lemma {:induction false} FirstExit<S>(E1: Edges<int, S>, E2: Edges<int, S>, lo: int, hi: int,
                                        k: int, w: seq<S>, p: int, s: nat)
      returns (i: nat, q: int, s1: nat, s2: nat)
    requires lo <= k <= hi && !(lo <= p <= hi)
    requires forall x, l, r :: lo <= x < hi && E2(x, l, r) ==> E1(x, l, r)
    requires forall x, l, r :: E1(x, l, r) ==> lo <= x < hi && lo <= r <= hi
    requires forall l, r :: E2(hi, l, r) ==> l.Eps?
    requires Walk(E2, k, w, p, s)
    ensures i <= |w| && s2 < s
    ensures Walk(E1, k, w[..i], hi, s1) && E2(hi, Eps, q) && Walk(E2, q, w[i..], p, s2)
    decreases s
  {
    assert s != 0;
    var l, r := FirstEdge(E2, k, w, p, s);
    if k == hi {
      i, q, s1, s2 := 0, r, 0, s - 1;
      assert w[..0] == [] && w[0..] == w;
    } else if l.Eps? {
      var i', s1';
      i', q, s1', s2 := FirstExit(E1, E2, lo, hi, r, w, p, s - 1);
      WalkEps(E1, k, r, w[..i'], hi, s1');
      i, s1 := i', s1' + 1;
    } else {
      var v := w[1..];
      var i', s1';
      i', q, s1', s2 := FirstExit(E1, E2, lo, hi, r, v, p, s - 1);
      WalkSym(E1, k, w[0], r, v[..i'], hi, s1');
      assert [w[0]] + v[..i'] == w[..i' + 1];
      assert v[i'..] == w[i' + 1..];
      i, s1 := i' + 1, s1' + 1;
    }
  }

  /** A walk from inside the region lo..hi, all of whose edges there are E1's
    * and stay in the region, is an E1-walk. */
  lemma {:induction false} Restrict<S>(E1: Edges<int, S>, E2: Edges<int, S>, lo: int, hi: int,
                                       k: int, w: seq<S>, p: int, s: nat)
    requires lo <= k <= hi
    requires forall x, l, r :: lo <= x <= hi && E2(x, l, r) ==> E1(x, l, r) && lo <= r <= hi
    requires Walk(E2, k, w, p, s)
    ensures Walk(E1, k, w, p, s)
    decreases s
  {
    if s > 0 {
      var l, r := FirstEdge(E2, k, w, p, s);
      if l.Eps? {
        Restrict(E1, E2, lo, hi, r, w, p, s - 1);
        WalkEps(E1, k, r, w, p, s - 1);
      } else {
        Restrict(E1, E2, lo, hi, r, w[1..], p, s - 1);
        WalkSym(E1, k, w[0], r, w[1..], p, s - 1);
        assert [w[0]] + w[1..] == w;
      }
    }
  }

  // ---- walks through the layout match the tree --------------------------------

  /** Soundness: a walk from a tree's first id to its last spells a word the
    * tree matches. */
  lemma {:induction false} WalkMatches<S(!new)>(t: Regex<S>, start: int, w: seq<S>, s: nat)
    ensures Walk(Lay(t, start), start, w, IdEnd(t, start), s) ==> Matches(t, w)
    decreases t, 1, 0
  {
    match t
    case Concat(a, b) => ConcatWalkMatches(a, b, start, w, s);
    case Union(a, b) => UnionWalkMatches(a, b, start, w, s);
    case Closure(a) => ClosureWalkMatches(a, start, w, s);
    case _ => LeafWalkMatches(t, start, w, s);
  }

  lemma {:induction false} LeafWalkMatches<S(!new)>(t: Regex<S>, start: int, w: seq<S>, s: nat)
    requires t.EmptyLang? || t.EmptyStr? || t.Symbol?
    ensures Walk(Lay(t, start), start, w, IdEnd(t, start), s) ==> Matches(t, w)
  {
    var E := Lay(t, start);
    var end := start + 1;
    if t.EmptyLang? {
      Stuck(E, start, w, end, s);
    } else if Walk(E, start, w, end, s) {
      var l, r := FirstEdge(E, start, w, end, s);
      if t.EmptyStr? {
        Stuck(E, end, w, end, s - 1);
      } else {
        Stuck(E, end, w[1..], end, s - 1);
        assert w == [w[0]];
      }
    }
  }

  lemma {:induction false} ConcatWalkMatches<S(!new)>(a: Regex<S>, b: Regex<S>, start: int, w: seq<S>, s: nat)
    ensures Walk(Lay(Concat(a, b), start), start, w, IdEnd(Concat(a, b), start), s) ==> Matches(Concat(a, b), w)
    decreases Concat(a, b), 0, 0
  {
    var E := Lay(Concat(a, b), start);
    var mid := start + Span(a);
    var end := IdEnd(b, mid);
    if Walk(E, start, w, end, s) {
      LayIs(Concat(a, b), start);
      LayIs(a, start);
      LayIs(b, mid);
      ConcatShape(a, b, start, mid - 1, mid, end);
      RangeOf(a, start);
      RangeOf(b, mid);
      var i, q, s1, s2 := FirstExit(Lay(a, start), E, start, mid - 1, start, w, end, s);
      Restrict(Lay(b, mid), E, mid, end, q, w[i..], end, s2);
      WalkMatches(a, start, w[..i], s1);
      WalkMatches(b, mid, w[i..], s2);
    }
  }

  lemma {:induction false} UnionWalkMatches<S(!new)>(a: Regex<S>, b: Regex<S>, start: int, w: seq<S>, s: nat)
    ensures Walk(Lay(Union(a, b), start), start, w, IdEnd(Union(a, b), start), s) ==> Matches(Union(a, b), w)
    decreases Union(a, b), 0, 0
  {
    var E := Lay(Union(a, b), start);
    var e1 := IdEnd(a, start + 1);
    var e2 := IdEnd(b, e1 + 1);
    var end := e2 + 1;
    if Walk(E, start, w, end, s) {
      LayIs(Union(a, b), start);
      LayIs(a, start + 1);
      LayIs(b, e1 + 1);
      UnionShape(a, b, start, e1, e2, end);
      RangeOf(a, start + 1);
      RangeOf(b, e1 + 1);
      var l, r := FirstEdge(E, start, w, end, s);
      if r == start + 1 {
        var i, q, s1, s2 := FirstExit(Lay(a, start + 1), E, start + 1, e1, r, w, end, s - 1);
        Stuck(E, end, w[i..], end, s2);
        assert w[..i] == w;
        WalkMatches(a, start + 1, w[..i], s1);
      } else {
        var i, q, s1, s2 := FirstExit(Lay(b, e1 + 1), E, e1 + 1, e2, r, w, end, s - 1);
        Stuck(E, end, w[i..], end, s2);
        assert w[..i] == w;
        WalkMatches(b, e1 + 1, w[..i], s1);
      }
    }
  }

  lemma {:induction false} ClosureWalkMatches<S(!new)>(a: Regex<S>, start: int, w: seq<S>, s: nat)
    ensures Walk(Lay(Closure(a), start), start, w, IdEnd(Closure(a), start), s) ==> Matches(Closure(a), w)
    decreases Closure(a), 0, s
  {
    var E := Lay(Closure(a), start);
    var e := IdEnd(a, start + 1);
    if Walk(E, start, w, e + 1, s) {
      LayIs(Closure(a), start);
      ClosureShape(a, start, e, e + 1);
      var l, r := FirstEdge(E, start, w, e + 1, s);
      if r == e + 1 {
        Stuck(E, e + 1, w, e + 1, s - 1);
      } else {
        ClosureLoop(a, start, w, s - 1);
      }
    }
  }

  /** Inside a Closure: a walk from the child's first id to the Closure's last
    * spells a word of the Closure, one child crossing at a time. */
  lemma {:induction false} ClosureLoop<S(!new)>(a: Regex<S>, start: int, w: seq<S>, s: nat)
    ensures Walk(Lay(Closure(a), start), start + 1, w, IdEnd(Closure(a), start), s) ==> Matches(Closure(a), w)
    decreases Closure(a), 0, s
  {
    var E := Lay(Closure(a), start);
    var e := IdEnd(a, start + 1);
    if Walk(E, start + 1, w, e + 1, s) {
      LayIs(Closure(a), start);
      LayIs(a, start + 1);
      ClosureShape(a, start, e, e + 1);
      RangeOf(a, start + 1);
      var i, q, s1, s2 := FirstExit(Lay(a, start + 1), E, start + 1, e, start + 1, w, e + 1, s);
      WalkMatches(a, start + 1, w[..i], s1);
      StarOfOne(a, w[..i]);
      if q == e + 1 {
        Stuck(E, e + 1, w[i..], e + 1, s2);
        assert w[..i] == w;
      } else {
        ClosureLoop(a, start, w[i..], s2);
        StarAppend(a, w[..i], w[i..]);
        assert w[..i] + w[i..] == w;
      }
    }
  }

  /** Completeness: every word the tree matches is spelled by a walk from its
    * first id to its last. */
  lemma {:induction false} MatchesWalk<S(!new)>(t: Regex<S>, start: int, w: seq<S>) returns (s: nat)
    requires Matches(t, w)
    ensures Walk(Lay(t, start), start, w, IdEnd(t, start), s)
    decreases t, 1, 0
  {
    match t
    case EmptyStr =>
      WalkNil(Lay(t, start), start + 1);
      WalkEps(Lay(t, start), start, start + 1, w, start + 1, 0);
      s := 1;
    case Symbol(c) =>
      WalkNil(Lay(t, start), start + 1);
      WalkSym(Lay(t, start), start, c, start + 1, [], start + 1, 0);
      assert [c] + [] == w;
      s := 1;
    case Concat(a, b) => s := ConcatMatchesWalk(a, b, start, w);
    case Union(a, b) => s := UnionMatchesWalk(a, b, start, w);
    case Closure(a) => s := LoopWalk(a, start, start, w);
  }

  /** A child's edges, laid out where its parent puts it, are the parent's. */
  lemma ConcatChildren<S>(a: Regex<S>, b: Regex<S>, start: int)
    ensures forall k, l, p :: InLayout(a, start, k, l, p) ==> InLayout(Concat(a, b), start, k, l, p)
    ensures forall k, l, p :: InLayout(b, start + Span(a), k, l, p) ==> InLayout(Concat(a, b), start, k, l, p)
  {
  }

  lemma UnionChildren<S>(a: Regex<S>, b: Regex<S>, start: int, e1: int)
    requires e1 == IdEnd(a, start + 1)
    ensures forall k, l, p :: InLayout(a, start + 1, k, l, p) ==> InLayout(Union(a, b), start, k, l, p)
    ensures forall k, l, p :: InLayout(b, e1 + 1, k, l, p) ==> InLayout(Union(a, b), start, k, l, p)
  {
  }

  lemma ClosureChild<S>(a: Regex<S>, start: int)
    ensures forall k, l, p :: InLayout(a, start + 1, k, l, p) ==> InLayout(Closure(a), start, k, l, p)
  {
  }

  lemma {:induction false} ConcatMatchesWalk<S(!new)>(a: Regex<S>, b: Regex<S>, start: int, w: seq<S>) returns (s: nat)
    requires Matches(Concat(a, b), w)
    ensures Walk(Lay(Concat(a, b), start), start, w, IdEnd(Concat(a, b), start), s)
    decreases Concat(a, b), 0, 0
  {
    var E := Lay(Concat(a, b), start);
    var mid := start + Span(a);
    var end := IdEnd(b, mid);
    var i :| 0 <= i <= |w| && Matches(a, w[..i]) && Matches(b, w[i..]);
    var sa := MatchesWalk(a, start, w[..i]);
    var sb := MatchesWalk(b, mid, w[i..]);
    ConcatChildren(a, b, start);
    LayIs(Concat(a, b), start);
    LayIs(a, start);
    LayIs(b, mid);
    s := JoinByEps(E, Lay(a, start), Lay(b, mid), start, mid - 1, mid, end, w[..i], sa, w[i..], sb);
    TakeDrop(w, i);
  }

  lemma {:induction false} UnionMatchesWalk<S(!new)>(a: Regex<S>, b: Regex<S>, start: int, w: seq<S>) returns (s: nat)
    requires Matches(Union(a, b), w)
    ensures Walk(Lay(Union(a, b), start), start, w, IdEnd(Union(a, b), start), s)
    decreases Union(a, b), 0, 0
  {
    var E := Lay(Union(a, b), start);
    var e1 := IdEnd(a, start + 1);
    var e2 := IdEnd(b, e1 + 1);
    var end := e2 + 1;
    UnionChildren(a, b, start, e1);
    LayIs(Union(a, b), start);
    LayIs(a, start + 1);
    LayIs(b, e1 + 1);
    if Matches(a, w) {
      var sa := MatchesWalk(a, start + 1, w);
      s := EpsAround(E, Lay(a, start + 1), start, start + 1, e1, end, w, sa);
    } else {
      var sb := MatchesWalk(b, e1 + 1, w);
      s := EpsAround(E, Lay(b, e1 + 1), start, e1 + 1, e2, end, w, sb);
    }
  }

  /** Inside a Closure: from its first id, or from the child's last id, which
    * have the same ε-edges, a walk to the Closure's last id spells each word
    * of the Closure. */
  lemma {:induction false} LoopWalk<S(!new)>(a: Regex<S>, start: int, k: int, w: seq<S>) returns (s: nat)
    requires k == start || k == IdEnd(a, start + 1)
    requires Matches(Closure(a), w)
    ensures Walk(Lay(Closure(a), start), k, w, IdEnd(Closure(a), start), s)
    decreases Closure(a), 0, |w|
  {
    var E := Lay(Closure(a), start);
    var e := IdEnd(a, start + 1);
    LayIs(Closure(a), start);
    if w == [] {
      WalkNil(E, e + 1);
      WalkEps(E, k, e + 1, w, e + 1, 0);
      s := 1;
    } else {
      var i :| 1 <= i <= |w| && Matches(a, w[..i]) && Matches(Closure(a), w[i..]);
      var sa := MatchesWalk(a, start + 1, w[..i]);
      ClosureChild(a, start);
      LayIs(a, start + 1);
      var sl := LoopWalk(a, start, e, w[i..]);
      s := EpsThenJoin(E, Lay(a, start + 1), k, start + 1, e, e + 1, w[..i], sa, w[i..], sl);
      TakeDrop(w, i);
    }
  }

  // ---- the automaton ----------------------------------------------------------

  /** The automaton's edges are the layout's, its symbol edges restricted to
    * the regex's alphabet. */
  lemma EdgesOfIdNfa<S(!new)>(r: RegexValue<S>)
    ensures forall k, l, p :: NfaEdges(RegexToIdNfa(r))(k, l, p) <==> LabelIn(l, r.alphabet) && Lay(r.ast, 0)(k, l, p)
  {
    var n := RegexToIdNfa(r);
    LayIs(r.ast, 0);
    forall k, l, p ensures NfaEdges(n)(k, l, p) <==> LabelIn(l, r.alphabet) && Lay(r.ast, 0)(k, l, p) {
      RegexToIdNfaMoves(r, k, l, p);
    }
  }

  /** An accepted word of an automaton with one accept state is spelled by a
    * walk, in any relation holding its edges, from the start to that state. */
  lemma AcceptedWalk<Q(!new), S>(n: Nfa<Q, S>, E: Edges<Q, S>, end: Q, w: seq<S>) returns (s: nat)
    requires Valid(n) && n.accept == {end} && Lang(n, w)
    requires forall k, l, p :: NfaEdges(n)(k, l, p) ==> E(k, l, p)
    ensures Walk(E, n.start, w, end, s) && forall k :: 0 <= k < |w| ==> w[k] in n.alphabet
  {
    AccOver(n, EClose(n, {n.start}), w);
    LangWalk(n, w);
    var p, s0 :| p in n.accept && Walk(NfaEdges(n), n.start, w, p, s0);
    WalkLift(NfaEdges(n), E, n.start, w, p, s0);
    s := s0;
  }

  lemma LangToMatches<S(!new)>(r: RegexValue<S>, w: seq<S>)
    requires Lang(RegexToIdNfa(r), w)
    ensures Matches(r.ast, w) && forall k :: 0 <= k < |w| ==> w[k] in r.alphabet
  {
    EdgesOfIdNfa(r);
    var s := AcceptedWalk(RegexToIdNfa(r), Lay(r.ast, 0), IdEnd(r.ast, 0), w);
    WalkMatches(r.ast, 0, w, s);
  }

  lemma MatchesToLang<S(!new)>(r: RegexValue<S>, w: seq<S>)
    requires Matches(r.ast, w) && forall k :: 0 <= k < |w| ==> w[k] in r.alphabet
    ensures Lang(RegexToIdNfa(r), w)
  {
    var n := RegexToIdNfa(r);
    var s := MatchesWalk(r.ast, 0, w);
    EdgesOfIdNfa(r);
    var end := IdEnd(r.ast, 0);
    WalkOverAlphabet(Lay(r.ast, 0), NfaEdges(n), r.alphabet, 0, w, end, s);
    assert end in n.accept && n.start == 0;
    WalkToAcc(n, {n.start}, w, 0, end, s);
  }

  /** The converted automaton accepts exactly the words over the regex's
    * alphabet that its tree matches. */
  lemma RegexToIdNfaLangOver<S(!new)>(r: RegexValue<S>, w: seq<S>)
    ensures Lang(RegexToIdNfa(r), w) <==> Matches(r.ast, w) && forall k :: 0 <= k < |w| ==> w[k] in r.alphabet
  {
    if Lang(RegexToIdNfa(r), w) {
      LangToMatches(r, w);
    }
    if Matches(r.ast, w) && forall k :: 0 <= k < |w| ==> w[k] in r.alphabet {
      MatchesToLang(r, w);
    }
  }

  /** For a regex whose tree uses only symbols of its alphabet, the converted
    * automaton accepts exactly the words the tree matches. */
  lemma RegexToIdNfaLang<S(!new)>(r: RegexValue<S>, w: seq<S>)
    requires Consistent(r)
    ensures Lang(RegexToIdNfa(r), w) <==> Matches(r.ast, w)
  {
    RegexToIdNfaLangOver(r, w);
    if Matches(r.ast, w) {
      MatchesWithinAlphabet(r.ast, w);
    }
  }
}

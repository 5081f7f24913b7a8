/**
 * Reference semantics for syntax trees: the words a tree matches, and the
 * algebraic laws the rewrites of the library rely on.
 */
module RegexSemantics {
  import opened RegexAst
  import opened ExtractAlphabet

  /** w is in the language of r.  A Closure match is either the empty word or a
    * non-empty first chunk matching the child followed by a Closure match. */
  predicate Matches<S(==)>(r: Regex<S>, w: seq<S>)
    decreases r, |w|
  {
    match r
    case EmptyLang => false
    case EmptyStr => w == []
    case Symbol(s) => w == [s]
    case Union(a, b) => Matches(a, w) || Matches(b, w)
    case Concat(a, b) => exists i :: 0 <= i <= |w| && Matches(a, w[..i]) && Matches(b, w[i..])
    case Closure(a) =>
      w == [] || exists i :: 1 <= i <= |w| && Matches(a, w[..i]) && Matches(Closure(a), w[i..])
  }

  /** The language of x is contained in that of y. */
  ghost predicate Includes<S(!new)>(x: Regex<S>, y: Regex<S>)
  {
    forall w :: Matches(x, w) ==> Matches(y, w)
  }

  /** x and y denote the same language. */
  ghost predicate Equiv<S(!new)>(x: Regex<S>, y: Regex<S>)
  {
    forall w :: Matches(x, w) <==> Matches(y, w)
  }

  /** Every symbol of a matched word comes from the tree's alphabet. */
  lemma {:induction false} MatchesWithinAlphabet<S(!new)>(r: Regex<S>, w: seq<S>)
    requires Matches(r, w)
    ensures forall k :: 0 <= k < |w| ==> w[k] in Alphabet(r)
    decreases r, |w|
  {
    match r
    case Symbol(s) =>
    case EmptyStr =>
    case Union(a, b) =>
      if Matches(a, w) { MatchesWithinAlphabet(a, w); } else { MatchesWithinAlphabet(b, w); }
    case Concat(a, b) =>
      var i :| 0 <= i <= |w| && Matches(a, w[..i]) && Matches(b, w[i..]);
      MatchesWithinAlphabet(a, w[..i]);
      MatchesWithinAlphabet(b, w[i..]);
      forall k | 0 <= k < |w| ensures w[k] in Alphabet(r) {
        if k < i { assert w[k] == w[..i][k]; } else { assert w[k] == w[i..][k - i]; }
      }
    case Closure(a) =>
      if w != [] {
        var i :| 1 <= i <= |w| && Matches(a, w[..i]) && Matches(Closure(a), w[i..]);
        MatchesWithinAlphabet(a, w[..i]);
        MatchesWithinAlphabet(Closure(a), w[i..]);
        forall k | 0 <= k < |w| ensures w[k] in Alphabet(r) {
          if k < i { assert w[k] == w[..i][k]; } else { assert w[k] == w[i..][k - i]; }
        }
      }
  }

  // ---- Closure ----------------------------------------------------------

  /** A single match of the child is a Closure match. */
  lemma {:induction false} StarOfOne<S(!new)>(a: Regex<S>, w: seq<S>)
    requires Matches(a, w)
    ensures Matches(Closure(a), w)
  {
    if w != [] {
      assert w[..|w|] == w && w[|w|..] == [];
      assert Matches(Closure(a), w[|w|..]);
    }
  }

  /** Closure matches are closed under concatenation. */
  lemma {:induction false} StarAppend<S(!new)>(a: Regex<S>, u: seq<S>, v: seq<S>)
    requires Matches(Closure(a), u) && Matches(Closure(a), v)
    ensures Matches(Closure(a), u + v)
    decreases |u|
  {
    if u == [] {
      assert u + v == v;
    } else {
      var i :| 1 <= i <= |u| && Matches(a, u[..i]) && Matches(Closure(a), u[i..]);
      StarAppend(a, u[i..], v);
      assert (u + v)[..i] == u[..i];
      assert (u + v)[i..] == u[i..] + v;
    }
  }

  /** A non-empty Closure match splits into a Closure match and a last chunk. */
  lemma {:induction false} StarLast<S(!new)>(a: Regex<S>, w: seq<S>)
    requires Matches(Closure(a), w) && w != []
    ensures exists i :: 0 <= i < |w| && Matches(Closure(a), w[..i]) && Matches(a, w[i..])
  {
    var i := StarLastAt(a, w);
  }

  /** StarLast with the split point as a result. */
  lemma {:induction false} StarLastAt<S(!new)>(a: Regex<S>, w: seq<S>) returns (k: nat)
    requires Matches(Closure(a), w) && w != []
    ensures k < |w| && Matches(Closure(a), w[..k]) && Matches(a, w[k..])
    decreases |w|
  {
    var i :| 1 <= i <= |w| && Matches(a, w[..i]) && Matches(Closure(a), w[i..]);
    if i == |w| {
      assert w[..0] == [] && w[0..] == w[..i];
      k := 0;
    } else {
      var first, rest := w[..i], w[i..];
      var j := StarLastAt(a, rest);
      StarOfOne(a, first);
      StarAppend(a, first, rest[..j]);
      assert first + rest[..j] == w[..i + j];
      assert rest[j..] == w[i + j..];
      k := i + j;
    }
  }

  /** Closure is monotone in the language of its child. */
  lemma {:induction false} StarMonotone<S(!new)>(x: Regex<S>, y: Regex<S>, w: seq<S>)
    requires Includes(x, y)
    requires Matches(Closure(x), w)
    ensures Matches(Closure(y), w)
    decreases |w|
  {
    if w != [] {
      var i :| 1 <= i <= |w| && Matches(x, w[..i]) && Matches(Closure(x), w[i..]);
      StarMonotone(x, y, w[i..]);
      assert Matches(y, w[..i]);
    }
  }

  /** A Closure of anything included in a Closure stays inside that Closure. */
  lemma {:induction false} StarOfStarSubset<S(!new)>(x: Regex<S>, a: Regex<S>, w: seq<S>)
    requires Includes(x, Closure(a))
    requires Matches(Closure(x), w)
    ensures Matches(Closure(a), w)
    decreases |w|
  {
    if w != [] {
      var i :| 1 <= i <= |w| && Matches(x, w[..i]) && Matches(Closure(x), w[i..]);
      StarOfStarSubset(x, a, w[i..]);
      StarAppend(a, w[..i], w[i..]);
      assert w[..i] + w[i..] == w;
    }
  }

  /** (a*)* = a* */
  lemma {:induction false} StarStar<S(!new)>(a: Regex<S>)
    ensures Equiv(Closure(Closure(a)), Closure(a))
  {
    forall w ensures Matches(Closure(Closure(a)), w) <==> Matches(Closure(a), w) {
      if Matches(Closure(a), w) { StarOfOne(Closure(a), w); }
      if Matches(Closure(Closure(a)), w) { StarOfStarSubset(Closure(a), a, w); }
    }
  }

  /** ∅* = ε and ε* = ε */
  lemma {:induction false} StarOfNothing<S(!new)>(w: seq<S>)
    ensures Matches(Closure(EmptyLang), w) <==> w == []
    ensures Matches(Closure(EmptyStr), w) <==> w == []
  {
  }

  /** a* = ε | a a* */
  lemma {:induction false} StarUnrollFirst<S(!new)>(a: Regex<S>, w: seq<S>)
    ensures Matches(Closure(a), w) <==> w == [] || Matches(Concat(a, Closure(a)), w)
  {
    if Matches(Concat(a, Closure(a)), w) {
      var i :| 0 <= i <= |w| && Matches(a, w[..i]) && Matches(Closure(a), w[i..]);
      StarOfOne(a, w[..i]);
      StarAppend(a, w[..i], w[i..]);
      assert w[..i] + w[i..] == w;
    }
  }

  /** a* = ε | a* a */
  lemma {:induction false} StarUnrollLast<S(!new)>(a: Regex<S>, w: seq<S>)
    ensures Matches(Closure(a), w) <==> w == [] || Matches(Concat(Closure(a), a), w)
  {
    if Matches(Concat(Closure(a), a), w) {
      var i :| 0 <= i <= |w| && Matches(Closure(a), w[..i]) && Matches(a, w[i..]);
      StarOfOne(a, w[i..]);
      StarAppend(a, w[..i], w[i..]);
      assert w[..i] + w[i..] == w;
    }
    if Matches(Closure(a), w) && w != [] {
      StarLast(a, w);
    }
  }

  /** a* a* = a* */
  lemma {:induction false} StarConcatStar<S(!new)>(a: Regex<S>)
    ensures Equiv(Concat(Closure(a), Closure(a)), Closure(a))
  {
    forall w ensures Matches(Concat(Closure(a), Closure(a)), w) <==> Matches(Closure(a), w) {
      if Matches(Concat(Closure(a), Closure(a)), w) {
        var i :| 0 <= i <= |w| && Matches(Closure(a), w[..i]) && Matches(Closure(a), w[i..]);
        StarAppend(a, w[..i], w[i..]);
        assert w[..i] + w[i..] == w;
      }
      if Matches(Closure(a), w) {
        assert w[..0] == [] && w[0..] == w;
        assert Matches(Closure(a), w[..0]);
      }
    }
  }

  /** (a|b)* = (a* b*)* */
  lemma {:induction false} StarOfUnion<S(!new)>(a: Regex<S>, b: Regex<S>)
    ensures Equiv(Closure(Union(a, b)), Closure(Concat(Closure(a), Closure(b))))
  {
    var ab := Union(a, b);
    var pair := Concat(Closure(a), Closure(b));
    forall u | Matches(ab, u) ensures Matches(pair, u) {
      assert u[..0] == [] && u[0..] == u && u[..|u|] == u && u[|u|..] == [];
      if Matches(a, u) {
        StarOfOne(a, u);
        assert Matches(Closure(a), u[..|u|]) && Matches(Closure(b), u[|u|..]);
      } else {
        StarOfOne(b, u);
        assert Matches(Closure(a), u[..0]) && Matches(Closure(b), u[0..]);
      }
    }
    forall u | Matches(a, u) ensures Matches(ab, u) { }
    forall u | Matches(b, u) ensures Matches(ab, u) { }
    forall u | Matches(pair, u) ensures Matches(Closure(ab), u) {
      var i :| 0 <= i <= |u| && Matches(Closure(a), u[..i]) && Matches(Closure(b), u[i..]);
      StarMonotone(a, ab, u[..i]);
      StarMonotone(b, ab, u[i..]);
      StarAppend(ab, u[..i], u[i..]);
      assert u[..i] + u[i..] == u;
    }
    forall w ensures Matches(Closure(ab), w) <==> Matches(Closure(pair), w) {
      if Matches(Closure(ab), w) { StarMonotone(ab, pair, w); }
      if Matches(Closure(pair), w) { StarOfStarSubset(pair, ab, w); }
    }
  }

  // ---- Congruence -------------------------------------------------------

  lemma {:induction false} UnionCongruent<S(!new)>(x: Regex<S>, x': Regex<S>, y: Regex<S>, y': Regex<S>)
    requires Equiv(x, x') && Equiv(y, y')
    ensures Equiv(Union(x, y), Union(x', y'))
  {
  }

  lemma {:induction false} ConcatCongruent<S(!new)>(x: Regex<S>, x': Regex<S>, y: Regex<S>, y': Regex<S>)
    requires Equiv(x, x') && Equiv(y, y')
    ensures Equiv(Concat(x, y), Concat(x', y'))
  {
    forall w ensures Matches(Concat(x, y), w) <==> Matches(Concat(x', y'), w) {
      if Matches(Concat(x, y), w) {
        var i :| 0 <= i <= |w| && Matches(x, w[..i]) && Matches(y, w[i..]);
        assert Matches(x', w[..i]) && Matches(y', w[i..]);
      }
      if Matches(Concat(x', y'), w) {
        var i :| 0 <= i <= |w| && Matches(x', w[..i]) && Matches(y', w[i..]);
        assert Matches(x, w[..i]) && Matches(y, w[i..]);
      }
    }
  }

  lemma {:induction false} ClosureCongruent<S(!new)>(x: Regex<S>, x': Regex<S>)
    requires Equiv(x, x')
    ensures Equiv(Closure(x), Closure(x'))
  {
    forall w ensures Matches(Closure(x), w) <==> Matches(Closure(x'), w) {
      if Matches(Closure(x), w) { StarMonotone(x, x', w); }
      if Matches(Closure(x'), w) { StarMonotone(x', x, w); }
    }
  }

  // ---- Concatenation ----------------------------------------------------

  /** ε is a unit of concatenation on both sides. */
  lemma {:induction false} ConcatUnit<S(!new)>(a: Regex<S>)
    ensures Equiv(Concat(EmptyStr, a), a) && Equiv(Concat(a, EmptyStr), a)
  {
    forall w ensures Matches(Concat(EmptyStr, a), w) <==> Matches(a, w) {
      assert w[..0] == [] && w[0..] == w;
    }
    forall w ensures Matches(Concat(a, EmptyStr), w) <==> Matches(a, w) {
      assert w[..|w|] == w && w[|w|..] == [];
    }
  }

  /** ∅ annihilates concatenation on both sides. */
  lemma {:induction false} ConcatZero<S(!new)>(a: Regex<S>)
    ensures Equiv(Concat(EmptyLang, a), EmptyLang) && Equiv(Concat(a, EmptyLang), EmptyLang)
  {
  }

  /** (a|b) c = a c | b c */
  lemma {:induction false} DistributeRight<S(!new)>(a: Regex<S>, b: Regex<S>, c: Regex<S>)
    ensures Equiv(Concat(Union(a, b), c), Union(Concat(a, c), Concat(b, c)))
  {
    forall w ensures Matches(Concat(Union(a, b), c), w) <==> Matches(Union(Concat(a, c), Concat(b, c)), w) {
      DistributeRightAt(a, b, c, w);
    }
  }

  lemma {:induction false} DistributeRightAt<S(!new)>(a: Regex<S>, b: Regex<S>, c: Regex<S>, w: seq<S>)
    ensures Matches(Concat(Union(a, b), c), w) <==> Matches(Concat(a, c), w) || Matches(Concat(b, c), w)
  {
    if Matches(Concat(Union(a, b), c), w) {
      var i :| 0 <= i <= |w| && Matches(Union(a, b), w[..i]) && Matches(c, w[i..]);
      if Matches(a, w[..i]) {
        assert Matches(Concat(a, c), w);
      } else {
        assert Matches(Concat(b, c), w);
      }
    }
    if Matches(Concat(a, c), w) {
      var i :| 0 <= i <= |w| && Matches(a, w[..i]) && Matches(c, w[i..]);
      assert Matches(Union(a, b), w[..i]);
    }
    if Matches(Concat(b, c), w) {
      var i :| 0 <= i <= |w| && Matches(b, w[..i]) && Matches(c, w[i..]);
      assert Matches(Union(a, b), w[..i]);
    }
  }

  /** a (b|c) = a b | a c */
  lemma {:induction false} DistributeLeft<S(!new)>(a: Regex<S>, b: Regex<S>, c: Regex<S>)
    ensures Equiv(Concat(a, Union(b, c)), Union(Concat(a, b), Concat(a, c)))
  {
    forall w ensures Matches(Concat(a, Union(b, c)), w) <==> Matches(Union(Concat(a, b), Concat(a, c)), w) {
      if Matches(Concat(a, Union(b, c)), w) {
        var i :| 0 <= i <= |w| && Matches(a, w[..i]) && Matches(Union(b, c), w[i..]);
      }
      if Matches(Concat(a, b), w) {
        var i :| 0 <= i <= |w| && Matches(a, w[..i]) && Matches(b, w[i..]);
        assert Matches(Union(b, c), w[i..]);
      }
      if Matches(Concat(a, c), w) {
        var i :| 0 <= i <= |w| && Matches(a, w[..i]) && Matches(c, w[i..]);
        assert Matches(Union(b, c), w[i..]);
      }
    }
  }
}

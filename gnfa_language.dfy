/**
 * The language of a generalised NFA (GNFAs/gnfa.py): a graph whose edges are
 * labelled by syntax trees, read from an added SOURCE node to an added SINK
 * node.  This module defines which words such a graph accepts and proves that
 * eliminating one state (rip_state) keeps that set of words, whatever
 * equivalent form the new labels take.
 */
module GnfaLanguage {
  import opened RegexAst
  import opened ExtractAlphabet
  import opened RegexSemantics
  import opened Dfas

  /** A node of the graph: the added source, the added sink, or an automaton state. */
  datatype GNode<Q> = Source | Sink | Node(state: Q)

  /** The adjacency list: a label for each (from, to) pair, row by row. */
  type Adj<Q(==), A> = map<GNode<Q>, map<GNode<Q>, Regex<A>>>

  /** Nodes an edge may leave: SOURCE and the states. */
  predicate IsFrom<Q>(states: set<Q>, p: GNode<Q>)
  {
    p.Source? || (p.Node? && p.state in states)
  }

  /** Nodes an edge may enter: the states and SINK. */
  predicate IsTo<Q>(states: set<Q>, q: GNode<Q>)
  {
    q.Sink? || (q.Node? && q.state in states)
  }

  /** Every pair of (states ∪ {SOURCE}) × (states ∪ {SINK}) has a label. */
  ghost predicate Total<Q(!new), A>(states: set<Q>, adj: Adj<Q, A>)
  {
    && (forall p {:trigger p in adj} :: IsFrom(states, p) ==> p in adj)
    && (forall p, q {:trigger q in adj[p]} :: IsFrom(states, p) && IsTo(states, q) ==> q in adj[p])
  }

  /** Every label uses only symbols of the alphabet. */
  ghost predicate LabelsWithin<Q(!new), A>(states: set<Q>, alphabet: set<A>, adj: Adj<Q, A>)
    requires Total(states, adj)
  {
    forall p, q {:trigger Alphabet(adj[p][q])} :: IsFrom(states, p) && IsTo(states, q) ==> Alphabet(adj[p][q]) <= alphabet
  }

  // ---- The accepted words --------------------------------------------------------

  /** From node p, w can be read to SINK through at most k states: either the
    * label p→SINK matches w, or some label p→s matches a prefix of w and the
    * rest is read from s through at most k - 1 states. */
  ghost predicate Reads<Q(!new), A>(states: set<Q>, adj: Adj<Q, A>, p: GNode<Q>, w: seq<A>, k: nat)
    requires Total(states, adj) && IsFrom(states, p)
    decreases k
  {
    Matches(adj[p][Sink], w)
    || (k > 0 && exists i, s :: 0 <= i <= |w| && s in states && Matches(adj[p][Node(s)], w[..i])
                                && Reads(states, adj, Node(s), w[i..], k - 1))
  }

  /** The graph accepts w when w can be read from SOURCE to SINK. */
  ghost predicate Accepted<Q(!new), A>(states: set<Q>, adj: Adj<Q, A>, w: seq<A>)
    requires Total(states, adj)
  {
    exists k :: Reads(states, adj, Source, w, k)
  }

  /** Taking the edge p→s on u and then reading z from s reads u + z from p. */
  lemma Enter<Q(!new), A(!new)>(states: set<Q>, adj: Adj<Q, A>, p: GNode<Q>, s: Q, u: seq<A>, z: seq<A>, k: nat)
    requires Total(states, adj) && IsFrom(states, p) && s in states
    requires Matches(adj[p][Node(s)], u) && Reads(states, adj, Node(s), z, k)
    ensures Reads(states, adj, p, u + z, k + 1)
  {
    assert (u + z)[..|u|] == u && (u + z)[|u|..] == z;
  }

  /** The same step with the word split at i. */
  lemma EnterAt<Q(!new), A(!new)>(states: set<Q>, adj: Adj<Q, A>, p: GNode<Q>, s: Q, w: seq<A>, i: nat, k: nat)
    requires Total(states, adj) && IsFrom(states, p) && s in states && i <= |w|
    requires Matches(adj[p][Node(s)], w[..i]) && Reads(states, adj, Node(s), w[i..], k)
    ensures Reads(states, adj, p, w, k + 1)
  {
  }

  /** With no state left the graph accepts exactly what the label SOURCE→SINK matches. */
  lemma NoStatesLeft<Q(!new), A(!new)>(adj: Adj<Q, A>, w: seq<A>)
    requires Total({}, adj)
    ensures Accepted({}, adj, w) <==> Matches(adj[Source][Sink], w)
  {
    if Matches(adj[Source][Sink], w) {
      assert Reads({}, adj, Source, w, 0);
    }
  }

  // ---- rip_state -----------------------------------------------------------------

  /** The label rip_state builds for (p, q) from the old label and the three
    * labels through the ripped state: old | ((r1 r2*) r3). */
  function RipRaw<A>(orig: Regex<A>, r1: Regex<A>, r2: Regex<A>, r3: Regex<A>): Regex<A>
  {
    Union(orig, Concat(Concat(r1, Closure(r2)), r3))
  }

  /** The union-of-paths label uses exactly the symbols of its four parts. */
  lemma RipRawAlphabet<A>(orig: Regex<A>, r1: Regex<A>, r2: Regex<A>, r3: Regex<A>)
    ensures Alphabet(RipRaw(orig, r1, r2, r3)) == Alphabet(orig) + Alphabet(r1) + Alphabet(r2) + Alphabet(r3)
  {
    calc {
      Alphabet(RipRaw(orig, r1, r2, r3));
      Alphabet(orig) + Alphabet(Concat(Concat(r1, Closure(r2)), r3));
      Alphabet(orig) + (Alphabet(Concat(r1, Closure(r2))) + Alphabet(r3));
      Alphabet(orig) + (Alphabet(r1) + Alphabet(Closure(r2)) + Alphabet(r3));
    }
  }

  /** (states', adj') is (states, adj) with R ripped: R leaves the states and
    * every remaining pair gets a label with the words of its RipRaw label. */
  ghost predicate IsRip<Q(!new), A(!new)>(states: set<Q>, adj: Adj<Q, A>, R: Q, states': set<Q>, adj': Adj<Q, A>)
  {
    && R in states && Total(states, adj) && states' == states - {R} && Total(states', adj')
    && forall p, q {:trigger adj'[p][q]} :: IsFrom(states', p) && IsTo(states', q) ==>
         Equiv(adj'[p][q], RipRaw(adj[p][q], adj[p][Node(R)], adj[Node(R)][Node(R)], adj[Node(R)][q]))
  }

  /** The union-of-paths label matches u + v + y when r1, r2* and r3 match the pieces. */
  lemma RipRawJoin<A(!new)>(orig: Regex<A>, r1: Regex<A>, r2: Regex<A>, r3: Regex<A>, u: seq<A>, v: seq<A>, y: seq<A>)
    requires Matches(r1, u) && Matches(Closure(r2), v) && Matches(r3, y)
    ensures Matches(RipRaw(orig, r1, r2, r3), u + v + y)
  {
    assert (u + v)[..|u|] == u && (u + v)[|u|..] == v;
    assert Matches(Concat(r1, Closure(r2)), u + v);
    assert (u + v + y)[..|u + v|] == u + v && (u + v + y)[|u + v|..] == y;
  }

  /** A word the union-of-paths label matches but the old label does not splits
    * into pieces matched by r1, r2* and r3. */
  lemma RipRawSplit<A(!new)>(orig: Regex<A>, r1: Regex<A>, r2: Regex<A>, r3: Regex<A>, x: seq<A>)
    returns (u: seq<A>, v: seq<A>, y: seq<A>)
    requires Matches(RipRaw(orig, r1, r2, r3), x) && !Matches(orig, x)
    ensures x == u + v + y && Matches(r1, u) && Matches(Closure(r2), v) && Matches(r3, y)
  {
    var b :| 0 <= b <= |x| && Matches(Concat(r1, Closure(r2)), x[..b]) && Matches(r3, x[b..]);
    var a :| 0 <= a <= |x[..b]| && Matches(r1, x[..b][..a]) && Matches(Closure(r2), x[..b][a..]);
    u, v, y := x[..b][..a], x[..b][a..], x[b..];
    assert x[..b] == u + v;
    assert x == x[..b] + x[b..];
  }

  /** A ripped label matches what its RipRaw form matches. */
  lemma RipEdge<Q(!new), A(!new)>(states: set<Q>, adj: Adj<Q, A>, R: Q, states': set<Q>, adj': Adj<Q, A>,
                            p: GNode<Q>, q: GNode<Q>, x: seq<A>)
    requires IsRip(states, adj, R, states', adj') && IsFrom(states', p) && IsTo(states', q)
    ensures Matches(adj'[p][q], x)
        <==> Matches(RipRaw(adj[p][q], adj[p][Node(R)], adj[Node(R)][Node(R)], adj[Node(R)][q]), x)
  {
  }

  lemma Regroup<A>(a: seq<A>, b: seq<A>, c: seq<A>, d: seq<A>)
    ensures a + (b + c + d) == a + b + c + d
    ensures a + (b + (c + d)) == a + b + c + d
  {
  }

  /** One more loop r2 in front of a loop r2*. */
  lemma LoopOnce<A(!new)>(rr: Regex<A>, u: seq<A>, x: seq<A>)
    requires Matches(rr, u) && Matches(Closure(rr), x)
    ensures Matches(Closure(rr), u + x)
  {
    StarOfOne(rr, u);
    StarAppend(rr, u, x);
  }

  /** The first step of a read that does not go straight to SINK: an edge p→s
    * on u, then the rest z read from s. */
  lemma FirstStep<Q(!new), A(!new)>(states: set<Q>, adj: Adj<Q, A>, p: GNode<Q>, w: seq<A>, k: nat)
    returns (u: seq<A>, z: seq<A>, s: Q)
    requires Total(states, adj) && IsFrom(states, p) && Reads(states, adj, p, w, k) && !Matches(adj[p][Sink], w)
    ensures k > 0 && w == u + z && s in states && Matches(adj[p][Node(s)], u) && Reads(states, adj, Node(s), z, k - 1)
  {
    var i, s0 :| 0 <= i <= |w| && s0 in states && Matches(adj[p][Node(s0)], w[..i])
                 && Reads(states, adj, Node(s0), w[i..], k - 1);
    assert w == w[..i] + w[i..];
    u, z, s := w[..i], w[i..], s0;
  }

  /** Reading from R: after looping on R (x, matched by r2*) the path leaves R
    * for some other node q (y), and the rest is read from q through fewer states. */
  lemma {:induction false} LeaveRipped<Q(!new), A(!new)>(states: set<Q>, adj: Adj<Q, A>, R: Q, w: seq<A>, k: nat)
    returns (x: seq<A>, y: seq<A>, q: GNode<Q>, rest: seq<A>, k': nat)
    requires Total(states, adj) && R in states && Reads(states, adj, Node(R), w, k)
    ensures w == x + y + rest && IsTo(states, q) && q != Node(R)
    ensures Matches(Closure(adj[Node(R)][Node(R)]), x) && Matches(adj[Node(R)][q], y)
    ensures q.Sink? ==> rest == []
    ensures q.Node? ==> k' < k && Reads(states, adj, q, rest, k')
    decreases k
  {
    var rr := adj[Node(R)][Node(R)];
    if Matches(adj[Node(R)][Sink], w) {
      assert w == [] + w + [];
      x, y, q, rest, k' := [], w, Sink, [], 0;
    } else {
      var u, z, s := FirstStep(states, adj, Node(R), w, k);
      if s != R {
        assert w == [] + u + z;
        x, y, q, rest, k' := [], u, Node(s), z, k - 1;
      } else {
        var x0, y0, q0, rest0, k0 := LeaveRipped(states, adj, R, z, k - 1);
        LoopOnce(rr, u, x0);
        Regroup(u, x0, y0, rest0);
        x, y, q, rest, k' := u + x0, y0, q0, rest0, k0;
      }
    }
  }

  /** Every word the graph reads from a kept node, the ripped graph reads too. */
  lemma {:induction false} ForwardReads<Q(!new), A(!new)>(states: set<Q>, adj: Adj<Q, A>, R: Q, states': set<Q>, adj': Adj<Q, A>,
                                                   p: GNode<Q>, w: seq<A>, k: nat)
    returns (k2: nat)
    requires IsRip(states, adj, R, states', adj') && IsFrom(states', p) && Reads(states, adj, p, w, k)
    ensures Reads(states', adj', p, w, k2)
    decreases k, 1
  {
    RipEdge(states, adj, R, states', adj', p, Sink, w);
    if Matches(adj[p][Sink], w) {
      k2 := 0;
    } else {
      var u, z, s := FirstStep(states, adj, p, w, k);
      if s != R {
        k2 := ForwardStep(states, adj, R, states', adj', p, s, u, z, k - 1);
      } else {
        k2 := ForwardThrough(states, adj, R, states', adj', p, u, z, k - 1);
      }
    }
  }

  /** An edge p→s between kept nodes: the ripped label still matches u. */
  lemma {:induction false} ForwardStep<Q(!new), A(!new)>(states: set<Q>, adj: Adj<Q, A>, R: Q, states': set<Q>, adj': Adj<Q, A>,
                                                  p: GNode<Q>, s: Q, u: seq<A>, z: seq<A>, k: nat)
    returns (k2: nat)
    requires IsRip(states, adj, R, states', adj') && IsFrom(states', p) && s in states'
    requires Matches(adj[p][Node(s)], u) && Reads(states, adj, Node(s), z, k)
    ensures Reads(states', adj', p, u + z, k2)
    decreases k, 2
  {
    var k3 := ForwardReads(states, adj, R, states', adj', Node(s), z, k);
    RipEdge(states, adj, R, states', adj', p, Node(s), u);
    Enter(states', adj', p, s, u, z, k3);
    k2 := k3 + 1;
  }

  /** An edge p→R followed by a path from R: the ripped label p→q matches the
    * part up to where the path leaves R. */
  lemma {:induction false} ForwardThrough<Q(!new), A(!new)>(states: set<Q>, adj: Adj<Q, A>, R: Q, states': set<Q>, adj': Adj<Q, A>,
                                                     p: GNode<Q>, u: seq<A>, z: seq<A>, k: nat)
    returns (k2: nat)
    requires IsRip(states, adj, R, states', adj') && IsFrom(states', p)
    requires Matches(adj[p][Node(R)], u) && Reads(states, adj, Node(R), z, k)
    ensures Reads(states', adj', p, u + z, k2)
    decreases k, 2
  {
    var x, y, q, rest, k' := LeaveRipped(states, adj, R, z, k);
    var v := u + x + y;
    RipRawJoin(adj[p][q], adj[p][Node(R)], adj[Node(R)][Node(R)], adj[Node(R)][q], u, x, y);
    RipEdge(states, adj, R, states', adj', p, q, v);
    Regroup(u, x, y, rest);
    if q.Sink? {
      assert v + [] == v;
      k2 := 0;
    } else {
      var k3 := ForwardReads(states, adj, R, states', adj', q, rest, k');
      Enter(states', adj', p, q.state, v, rest, k3);
      k2 := k3 + 1;
    }
  }

  /** Looping on R: r2* followed by a word read from R is read from R. */
  lemma {:induction false} LoopBack<Q(!new), A(!new)>(states: set<Q>, adj: Adj<Q, A>, R: Q, v: seq<A>, z: seq<A>, k: nat)
    returns (k2: nat)
    requires Total(states, adj) && R in states
    requires Matches(Closure(adj[Node(R)][Node(R)]), v) && Reads(states, adj, Node(R), z, k)
    ensures Reads(states, adj, Node(R), v + z, k2)
    decreases |v|
  {
    if v == [] {
      assert v + z == z;
      k2 := k;
    } else {
      var rr := adj[Node(R)][Node(R)];
      var i :| 1 <= i <= |v| && Matches(rr, v[..i]) && Matches(Closure(rr), v[i..]);
      var k3 := LoopBack(states, adj, R, v[i..], z, k);
      Enter(states, adj, Node(R), R, v[..i], v[i..] + z, k3);
      assert v[..i] + (v[i..] + z) == v + z;
      k2 := k3 + 1;
    }
  }

  /** A path p→R (u), loops on R (v), R→q (y), then rest from q, in the old graph. */
  lemma Detour<Q(!new), A(!new)>(states: set<Q>, adj: Adj<Q, A>, R: Q, p: GNode<Q>, q: GNode<Q>,
                           u: seq<A>, v: seq<A>, y: seq<A>, rest: seq<A>, k: nat)
    returns (k2: nat)
    requires Total(states, adj) && R in states && IsFrom(states, p) && IsTo(states, q)
    requires Matches(adj[p][Node(R)], u) && Matches(Closure(adj[Node(R)][Node(R)]), v) && Matches(adj[Node(R)][q], y)
    requires q.Sink? ==> rest == []
    requires q.Node? ==> Reads(states, adj, q, rest, k)
    ensures Reads(states, adj, p, u + v + y + rest, k2)
  {
    var k3: nat;
    if q.Sink? {
      assert y + rest == y;
      k3 := 0;
    } else {
      Enter(states, adj, Node(R), q.state, y, rest, k);
      k3 := k + 1;
    }
    var k4 := LoopBack(states, adj, R, v, y + rest, k3);
    Enter(states, adj, p, R, u, v + (y + rest), k4);
    Regroup(u, v, y, rest);
    k2 := k4 + 1;
  }

  /** Every word the ripped graph reads from a node, the old graph reads too. */
  lemma {:induction false} BackwardReads<Q(!new), A(!new)>(states: set<Q>, adj: Adj<Q, A>, R: Q, states': set<Q>, adj': Adj<Q, A>,
                                                    p: GNode<Q>, w: seq<A>, k: nat)
    returns (k2: nat)
    requires IsRip(states, adj, R, states', adj') && IsFrom(states', p) && Reads(states', adj', p, w, k)
    ensures Reads(states, adj, p, w, k2)
    decreases k
  {
    var r1, rr := adj[p][Node(R)], adj[Node(R)][Node(R)];
    if Matches(adj'[p][Sink], w) {
      RipEdge(states, adj, R, states', adj', p, Sink, w);
      if Matches(adj[p][Sink], w) {
        k2 := 0;
      } else {
        var u, v, y := RipRawSplit(adj[p][Sink], r1, rr, adj[Node(R)][Sink], w);
        k2 := Detour(states, adj, R, p, Sink, u, v, y, [], 0);
        assert u + v + y + [] == w;
      }
    } else {
      var x, z, s := FirstStep(states', adj', p, w, k);
      var k3 := BackwardReads(states, adj, R, states', adj', Node(s), z, k - 1);
      RipEdge(states, adj, R, states', adj', p, Node(s), x);
      if Matches(adj[p][Node(s)], x) {
        Enter(states, adj, p, s, x, z, k3);
        k2 := k3 + 1;
      } else {
        var u, v, y := RipRawSplit(adj[p][Node(s)], r1, rr, adj[Node(R)][Node(s)], x);
        k2 := Detour(states, adj, R, p, Node(s), u, v, y, z, k3);
      }
    }
  }

  /** rip_state keeps the accepted words. */
  lemma RipPreserves<Q(!new), A(!new)>(states: set<Q>, adj: Adj<Q, A>, R: Q, states': set<Q>, adj': Adj<Q, A>, w: seq<A>)
    requires IsRip(states, adj, R, states', adj')
    ensures Accepted(states', adj', w) <==> Accepted(states, adj, w)
  {
    if Accepted(states, adj, w) {
      var k :| Reads(states, adj, Source, w, k);
      var k2 := ForwardReads(states, adj, R, states', adj', Source, w, k);
    }
    if Accepted(states', adj', w) {
      var k :| Reads(states', adj', Source, w, k);
      var k2 := BackwardReads(states, adj, R, states', adj', Source, w, k);
    }
  }
}

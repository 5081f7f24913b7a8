/**
 * The states of the automata that the combinators build (NFAs/generated_states.py):
 * the two basis states and three tagged wrappers around a child state.  Equality
 * is structural, so equal payloads give equal states and different tags never
 * meet.
 */
module GeneratedStates {
  datatype GState =
    | Start
    | Accept
    | Internal(child: GState)
    | Left(child: GState)
    | Right(child: GState)

  /** InternalState.wrap */
  function WrapInternal(S: set<GState>): (r: set<GState>)
    ensures forall g :: g in r <==> g.Internal? && g.child in S
  {
    set s | s in S :: Internal(s)
  }

  /** LeftInternalState.wrap */
  function WrapLeft(S: set<GState>): (r: set<GState>)
    ensures forall g :: g in r <==> g.Left? && g.child in S
  {
    set s | s in S :: Left(s)
  }

  /** RightInternalState.wrap */
  function WrapRight(S: set<GState>): (r: set<GState>)
    ensures forall g :: g in r <==> g.Right? && g.child in S
  {
    set s | s in S :: Right(s)
  }

  /** Wrapping is injective, so it keeps the number of states. */
  lemma {:induction false} WrapSizes(S: set<GState>)
    ensures |WrapInternal(S)| == |S| && |WrapLeft(S)| == |S| && |WrapRight(S)| == |S|
    decreases |S|
  {
    if S != {} {
      var x :| x in S;
      var R := S - {x};
      WrapSizes(R);
      assert WrapInternal(S) == WrapInternal(R) + {Internal(x)};
      assert WrapLeft(S) == WrapLeft(R) + {Left(x)};
      assert WrapRight(S) == WrapRight(R) + {Right(x)};
    }
  }

  /** Wrapping is monotone. */
  lemma WrapMonotone(S: set<GState>, T: set<GState>)
    requires S <= T
    ensures WrapLeft(S) <= WrapLeft(T) && WrapRight(S) <= WrapRight(T) && WrapInternal(S) <= WrapInternal(T)
  {
  }
}

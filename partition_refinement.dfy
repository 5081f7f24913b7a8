/**
 * The partition-refinement structure (helpers/partition_refinement.py): a list
 * of disjoint classes, and a map from every element to the index of its class.
 * refine(S) cuts every class that S splits into its part inside S, moved to a
 * new class at the end of the list, and its part outside S, which keeps the
 * old index.
 */
module PartitionRefinements {
  import opened Wrappers
  import opened SetFacts

  /** The two fields agree: partitions maps x to i exactly when x is in class i. */
  ghost predicate Consistent<U>(sets: seq<set<U>>, partitions: map<U, nat>)
  {
    && |sets| > 0
    && (forall x {:trigger partitions[x]} :: x in partitions ==> partitions[x] < |sets| && x in sets[partitions[x]])
    && (forall i, x {:trigger x in sets[i]} :: 0 <= i < |sets| && x in sets[i] ==> x in partitions && partitions[x] == i)
  }

  /** No class is empty, unless the universe is. */
  ghost predicate NonEmpty<U>(sets: seq<set<U>>, partitions: map<U, nat>)
  {
    forall i :: 0 <= i < |sets| ==> sets[i] != {} || partitions.Keys == {}
  }

  /** refine keeps the classes non-empty: a cut leaves two non-empty parts. */
  lemma RefinedNonEmpty<U>(s0: seq<set<U>>, p0: map<U, nat>, S: set<U>, ks: seq<nat>, sets: seq<set<U>>, p: map<U, nat>)
    requires NonEmpty(s0, p0) && Refined(s0, S, ks, sets) && p.Keys == p0.Keys
    ensures NonEmpty(sets, p)
  {
    forall i | 0 <= i < |sets| && p.Keys != {} ensures sets[i] != {} {
      if i >= |s0| {
        assert Splits(s0[ks[i - |s0|]], S);
        assert sets[i] != {};
      } else if Splits(s0[i], S) {
        assert sets[i] != {};
      }
    }
  }

  /** The classes are pairwise disjoint and lie inside the universe. */
  lemma ClassesDisjoint<U>(sets: seq<set<U>>, partitions: map<U, nat>)
    requires Consistent(sets, partitions)
    ensures forall i, j :: 0 <= i < j < |sets| ==> sets[i] !! sets[j]
    ensures forall i :: 0 <= i < |sets| ==> sets[i] <= partitions.Keys
  {
    forall i, j | 0 <= i < j < |sets| ensures sets[i] !! sets[j] {
      if x :| x in sets[i] && x in sets[j] {
        assert false;
      }
    }
  }

  /** S splits the class C: some of C is inside S and some outside. */
  predicate Splits<U>(C: set<U>, S: set<U>)
  {
    C * S != {} && C - S != {}
  }

  /** refine(S) took the classes s0 to sets: ks lists, in the order they were
    * cut, the old classes S splits, each exactly once; the part inside S of the
    * m-th is the new class |s0| + m, and every old class keeps its part outside S. */
  ghost predicate Refined<U>(s0: seq<set<U>>, S: set<U>, ks: seq<nat>, sets: seq<set<U>>)
  {
    && |sets| == |s0| + |ks|
    && (forall m :: 0 <= m < |ks| ==> ks[m] < |s0| && Splits(s0[ks[m]], S) && sets[|s0| + m] == s0[ks[m]] * S)
    && (forall m, m' :: 0 <= m < m' < |ks| ==> ks[m] != ks[m'])
    && (forall k :: 0 <= k < |s0| && Splits(s0[k], S) ==> k in ks)
    && (forall k :: 0 <= k < |s0| ==> sets[k] == if Splits(s0[k], S) then s0[k] - S else s0[k])
  }

  /** What refine(S) returned: for each class it cut, in order, the pair of the
    * new class (the part inside S) and what is left of the old class. */
  ghost predicate Reported<U>(s0: seq<set<U>>, ks: seq<nat>, sets: seq<set<U>>, out: seq<(set<U>, set<U>)>)
  {
    && |out| == |ks|
    && forall m :: 0 <= m < |ks| ==> |s0| + m < |sets| && ks[m] < |sets| && out[m] == (sets[|s0| + m], sets[ks[m]])
  }

  /** Where refine(S) put x: an element of S in a cut class moved to that cut's
    * new class, every other element kept its index. */
  lemma RefinedIndex<U>(s0: seq<set<U>>, p0: map<U, nat>, S: set<U>, ks: seq<nat>, sets: seq<set<U>>, p: map<U, nat>, x: U)
    requires Consistent(s0, p0) && Consistent(sets, p) && p.Keys == p0.Keys
    requires Refined(s0, S, ks, sets) && x in p
    ensures p0[x] < |s0| && x in s0[p0[x]]
    ensures if Splits(s0[p0[x]], S) && x in S then |s0| <= p[x] < |sets| && ks[p[x] - |s0|] == p0[x] else p[x] == p0[x]
  {
    var k := p0[x];
    assert x in s0[k];
    if Splits(s0[k], S) && x in S {
      var m :| 0 <= m < |ks| && ks[m] == k;
      assert x in sets[|s0| + m];
    } else {
      assert x in sets[k];
    }
  }

  /** After refine(S) two elements share a class exactly when they did before and
    * S does not tell them apart. */
  lemma RefinedPair<U>(s0: seq<set<U>>, p0: map<U, nat>, S: set<U>, ks: seq<nat>, sets: seq<set<U>>, p: map<U, nat>, x: U, y: U)
    requires Consistent(s0, p0) && Consistent(sets, p) && p.Keys == p0.Keys
    requires Refined(s0, S, ks, sets) && x in p && y in p
    ensures p[x] == p[y] <==> p0[x] == p0[y] && (x in S <==> y in S)
  {
    RefinedIndex(s0, p0, S, ks, sets, p, x);
    RefinedIndex(s0, p0, S, ks, sets, p, y);
    var C := s0[p0[x]];
    if p0[x] == p0[y] && !Splits(C, S) {
      if C * S == {} {
        assert x !in C * S && y !in C * S;
      } else {
        assert x !in C - S && y !in C - S;
      }
    }
  }

  lemma RefinedRelation<U>(s0: seq<set<U>>, p0: map<U, nat>, S: set<U>, ks: seq<nat>, sets: seq<set<U>>, p: map<U, nat>)
    requires Consistent(s0, p0) && Consistent(sets, p) && p.Keys == p0.Keys
    requires Refined(s0, S, ks, sets)
    ensures forall x, y :: x in p && y in p ==>
      (p[x] == p[y] <==> p0[x] == p0[y] && (x in S <==> y in S))
  {
    forall x, y | x in p && y in p
      ensures p[x] == p[y] <==> p0[x] == p0[y] && (x in S <==> y in S)
    {
      RefinedPair(s0, p0, S, ks, sets, p, x, y);
    }
  }

  /** The classes of the list are exactly the values of the refine: the part of
    * every cut class inside S is non-empty and inside S, and the part left
    * behind is non-empty and outside S. */
  lemma RefinedHalves<U>(s0: seq<set<U>>, S: set<U>, ks: seq<nat>, sets: seq<set<U>>, m: nat)
    requires Refined(s0, S, ks, sets) && m < |ks|
    ensures sets[|s0| + m] != {} && sets[|s0| + m] <= S
    ensures sets[ks[m]] != {} && sets[ks[m]] !! S
    ensures sets[|s0| + m] + sets[ks[m]] == s0[ks[m]]
  {
    assert sets[ks[m]] == s0[ks[m]] - S;
  }

  // ---- refine, step by step ------------------------------------------------------

  /** The first loop of refine: the elements of S grouped by the index of their
    * class (split_sets; a missing key is an empty group). */
  method CollectSplits<U>(partitions: map<U, nat>, S: set<U>) returns (split: map<nat, set<U>>)
    requires S <= partitions.Keys
    ensures forall x :: x in S ==> partitions[x] in split
    ensures forall k :: k in split ==> split[k] != {} && split[k] == set x | x in S && partitions[x] == k
  {
    split := map[];
    var todo := S;
    while todo != {}
      invariant todo <= S
      invariant forall x :: x in S - todo ==> partitions[x] in split
      invariant forall k :: k in split ==> split[k] != {} && split[k] == set x | x in S - todo && partitions[x] == k
      decreases |todo|
    {
      var x :| x in todo;
      var k := partitions[x];
      var group := if k in split then split[k] else {};
      split := split[k := group + {x}];
      todo := todo - {x};
    }
  }

  /** The groups are the parts of the classes inside S. */
  ghost predicate GroupsOf<U>(sets: seq<set<U>>, S: set<U>, split: map<nat, set<U>>)
  {
    && (forall k :: k in split <==> 0 <= k < |sets| && sets[k] * S != {})
    && (forall k :: k in split ==> split[k] == sets[k] * S)
  }

  lemma CollectedGroups<U>(sets: seq<set<U>>, partitions: map<U, nat>, S: set<U>, split: map<nat, set<U>>)
    requires Consistent(sets, partitions) && S <= partitions.Keys
    requires forall x :: x in S ==> partitions[x] in split
    requires forall k :: k in split ==> split[k] != {} && split[k] == set x | x in S && partitions[x] == k
    ensures GroupsOf(sets, S, split)
  {
    forall k | k in split ensures 0 <= k < |sets| && split[k] == sets[k] * S {
      var x :| x in split[k];
      assert partitions[x] == k;
    }
    forall k | 0 <= k < |sets| && sets[k] * S != {} ensures k in split {
      var x :| x in sets[k] * S;
      assert partitions[x] == k;
    }
  }

  /** The inner loop of refine: every element of X moves to the class index
    * len(sets), and leaves class k. */
  method MoveOut<U>(sets: seq<set<U>>, partitions: map<U, nat>, k: nat, X: set<U>)
    returns (sets': seq<set<U>>, partitions': map<U, nat>)
    requires k < |sets| && X <= partitions.Keys
    ensures sets' == sets[k := sets[k] - X]
    ensures partitions'.Keys == partitions.Keys
    ensures forall x :: x in partitions ==> partitions'[x] == if x in X then |sets| else partitions[x]
  {
    sets', partitions' := sets, partitions;
    var todo := X;
    while todo != {}
      invariant todo <= X
      invariant |sets'| == |sets| && sets'[k] == sets[k] - (X - todo)
      invariant forall i :: 0 <= i < |sets| && i != k ==> sets'[i] == sets[i]
      invariant partitions'.Keys == partitions.Keys
      invariant forall x :: x in partitions ==> partitions'[x] == if x in X - todo then |sets| else partitions[x]
      decreases |todo|
    {
      var x :| x in todo;
      partitions' := partitions'[x := |sets|];
      sets' := sets'[k := sets'[k] - {x}];
      todo := todo - {x};
    }
    assert X - todo == X;
    assert sets' == sets[k := sets[k] - X];
  }

  /** Cutting X out of class k into a new class at the end keeps the fields consistent. */
  lemma CutConsistent<U>(sets: seq<set<U>>, partitions: map<U, nat>, k: nat, X: set<U>, partitions': map<U, nat>)
    requires Consistent(sets, partitions) && k < |sets| && X <= sets[k] && X != {} && sets[k] - X != {}
    requires partitions'.Keys == partitions.Keys
    requires forall x :: x in partitions ==> partitions'[x] == if x in X then |sets| else partitions[x]
    ensures Consistent(sets[k := sets[k] - X] + [X], partitions')
  {
    var sets' := sets[k := sets[k] - X] + [X];
    forall i, x | 0 <= i < |sets'| && x in sets'[i] ensures x in partitions' && partitions'[x] == i {
      if i == |sets| {
        assert x in sets[k];
      } else if i == k {
        assert x in sets[k];
      } else {
        assert x in sets[i];
      }
    }
    forall x | x in partitions' ensures partitions'[x] < |sets'| && x in sets'[partitions'[x]] {
      assert x in sets[partitions[x]];
    }
  }

  /** What the second loop of refine has done once the groups outside `todo`
    * are handled. */
  ghost predicate Cutting<U>(s0: seq<set<U>>, S: set<U>, split: map<nat, set<U>>, todo: set<nat>, ks: seq<nat>, sets: seq<set<U>>)
  {
    && |sets| == |s0| + |ks|
    && (forall m :: 0 <= m < |ks| ==>
          ks[m] < |s0| && ks[m] in split && ks[m] !in todo && Splits(s0[ks[m]], S) && sets[|s0| + m] == s0[ks[m]] * S)
    && (forall m, m' :: 0 <= m < m' < |ks| ==> ks[m] != ks[m'])
    && (forall k :: 0 <= k < |s0| && k in split && k !in todo && Splits(s0[k], S) ==> k in ks)
    && (forall k :: 0 <= k < |s0| ==>
          sets[k] == if k in split && k !in todo && Splits(s0[k], S) then s0[k] - S else s0[k])
  }

  lemma CuttingStart<U>(s0: seq<set<U>>, S: set<U>, split: map<nat, set<U>>)
    ensures Cutting(s0, S, split, split.Keys, [], s0)
  {
  }

  /** A group as large as its class is the whole class: nothing to cut. */
  lemma CuttingSkip<U>(s0: seq<set<U>>, S: set<U>, split: map<nat, set<U>>, todo: set<nat>, ks: seq<nat>, sets: seq<set<U>>, k: nat)
    requires GroupsOf(s0, S, split) && Cutting(s0, S, split, todo, ks, sets)
    requires k in todo && k in split && |sets[k]| == |split[k]|
    ensures Cutting(s0, S, split, todo - {k}, ks, sets)
  {
    assert sets[k] == s0[k];
    if split[k] < s0[k] {
      ProperSubsetSmaller(split[k], s0[k]);
    }
    assert !Splits(s0[k], S);
  }

  /** A smaller group is cut out into a new class at the end. */
  lemma CuttingCut<U>(s0: seq<set<U>>, S: set<U>, split: map<nat, set<U>>, todo: set<nat>, ks: seq<nat>, sets: seq<set<U>>, k: nat)
    requires GroupsOf(s0, S, split) && Cutting(s0, S, split, todo, ks, sets)
    requires k in todo && k in split && |sets[k]| != |split[k]|
    ensures Splits(s0[k], S) && sets[k] == s0[k] && split[k] <= sets[k] && split[k] != {} && sets[k] - split[k] != {}
    ensures Cutting(s0, S, split, todo - {k}, ks + [k], sets[k := sets[k] - split[k]] + [split[k]])
  {
    assert sets[k] == s0[k] && split[k] == s0[k] * S;
    assert split[k] != sets[k];
    var y :| y in s0[k] && y !in split[k];
    assert y in s0[k] - S;
    assert Splits(s0[k], S);
    var ks' := ks + [k];
    var sets' := sets[k := sets[k] - split[k]] + [split[k]];
    forall m | 0 <= m < |ks'|
      ensures ks'[m] < |s0| && ks'[m] in split && ks'[m] !in todo - {k} && Splits(s0[ks'[m]], S)
      ensures sets'[|s0| + m] == s0[ks'[m]] * S
    {
      if m < |ks| {
        assert ks'[m] == ks[m] && sets'[|s0| + m] == sets[|s0| + m];
      }
    }
  }

  /** With every group handled, the list is the refinement. */
  lemma CuttingDone<U>(s0: seq<set<U>>, S: set<U>, split: map<nat, set<U>>, ks: seq<nat>, sets: seq<set<U>>)
    requires GroupsOf(s0, S, split) && Cutting(s0, S, split, {}, ks, sets)
    ensures Refined(s0, S, ks, sets)
  {
    forall k | 0 <= k < |s0| && Splits(s0[k], S) ensures k in split {
    }
  }

  /** The state of the second loop of refine: the fields stay consistent, the
    * handled groups are cut, and every cut is reported. */
  ghost predicate Refining<U>(s0: seq<set<U>>, p0: map<U, nat>, S: set<U>, split: map<nat, set<U>>, todo: set<nat>,
                              ks: seq<nat>, sets: seq<set<U>>, p: map<U, nat>, out: seq<(set<U>, set<U>)>)
  {
    && GroupsOf(s0, S, split) && todo <= split.Keys
    && Consistent(sets, p) && p.Keys == p0.Keys
    && Cutting(s0, S, split, todo, ks, sets)
    && |out| == |ks| && (forall m :: 0 <= m < |ks| ==> out[m] == (sets[|s0| + m], sets[ks[m]]))
  }

  lemma RefiningCut<U>(s0: seq<set<U>>, p0: map<U, nat>, S: set<U>, split: map<nat, set<U>>, todo: set<nat>,
                       ks: seq<nat>, sets: seq<set<U>>, p: map<U, nat>, out: seq<(set<U>, set<U>)>, k: nat,
                       sets': seq<set<U>>, p': map<U, nat>)
    requires Refining(s0, p0, S, split, todo, ks, sets, p, out)
    requires k in todo && |sets[k]| != |split[k]|
    requires sets' == sets[k := sets[k] - split[k]]
    requires p'.Keys == p.Keys
    requires forall x :: x in p ==> p'[x] == if x in split[k] then |sets| else p[x]
    ensures Refining(s0, p0, S, split, todo - {k}, ks + [k], sets' + [split[k]], p', out + [(split[k], sets'[k])])
  {
    CuttingCut(s0, S, split, todo, ks, sets, k);
    CutConsistent(sets, p, k, split[k], p');
    var sets'' := sets' + [split[k]];
    var out' := out + [(split[k], sets'[k])];
    var ks' := ks + [k];
    forall m | 0 <= m < |ks'| ensures out'[m] == (sets''[|s0| + m], sets''[ks'[m]]) {
      if m < |ks| {
        assert ks[m] != k;
      }
    }
  }

  /** One group of the second loop of refine: a group smaller than its class is
    * cut out into a new class and reported with what is left of the class. */
  method CutGroup<U>(ghost s0: seq<set<U>>, ghost p0: map<U, nat>, ghost S: set<U>, split: map<nat, set<U>>, ghost todo: set<nat>,
                     ghost ks: seq<nat>, sets: seq<set<U>>, p: map<U, nat>, out: seq<(set<U>, set<U>)>, k: nat)
    returns (sets': seq<set<U>>, p': map<U, nat>, out': seq<(set<U>, set<U>)>, ghost ks': seq<nat>)
    requires Refining(s0, p0, S, split, todo, ks, sets, p, out) && k in todo
    ensures Refining(s0, p0, S, split, todo - {k}, ks', sets', p', out')
  {
    var group := split[k];
    if |sets[k]| != |group| {
      var s, q := MoveOut(sets, p, k, group);
      RefiningCut(s0, p0, S, split, todo, ks, sets, p, out, k, s, q);
      sets', p' := s + [group], q;
      out' := out + [(group, s[k])];
      ks' := ks + [k];
    } else {
      CuttingSkip(s0, S, split, todo, ks, sets, k);
      sets', p', out', ks' := sets, p, out, ks;
    }
  }

  /** The second loop of refine, on the values of the two fields. */
  method CutGroups<U>(s0: seq<set<U>>, p0: map<U, nat>, ghost S: set<U>, split: map<nat, set<U>>)
    returns (sets: seq<set<U>>, p: map<U, nat>, out: seq<(set<U>, set<U>)>, ghost ks: seq<nat>)
    requires Consistent(s0, p0) && GroupsOf(s0, S, split)
    ensures Consistent(sets, p) && p.Keys == p0.Keys
    ensures Refined(s0, S, ks, sets)
    ensures Reported(s0, ks, sets, out)
  {
    sets, p := s0, p0;
    out, ks := [], [];
    var todo := split.Keys;
    CuttingStart(s0, S, split);
    while todo != {}
      invariant Refining(s0, p0, S, split, todo, ks, sets, p, out)
      decreases |todo|
    {
      var k :| k in todo;
      sets, p, out, ks := CutGroup(s0, p0, S, split, todo, ks, sets, p, out, k);
      RemoveOne(todo, k);
      todo := todo - {k};
    }
    CuttingDone(s0, S, split, ks, sets);
  }

  /** refine on the values of the two fields: group S by class, then cut. */
  method RefineFields<U>(s0: seq<set<U>>, p0: map<U, nat>, S: set<U>)
    returns (sets: seq<set<U>>, p: map<U, nat>, out: seq<(set<U>, set<U>)>, ghost ks: seq<nat>)
    requires Consistent(s0, p0) && NonEmpty(s0, p0) && S <= p0.Keys
    ensures Consistent(sets, p) && NonEmpty(sets, p) && p.Keys == p0.Keys
    ensures Refined(s0, S, ks, sets)
    ensures Reported(s0, ks, sets, out)
  {
    var split := CollectSplits(p0, S);
    CollectedGroups(s0, p0, S, split);
    sets, p, out, ks := CutGroups(s0, p0, S, split);
    assert p.Keys == p0.Keys;
    RefinedNonEmpty(s0, p0, S, ks, sets, p);
  }

  datatype PartitionError = ItemNotInPartitions

  class PartitionRefinement<U(==, !new)> {
    /** Class index to the class. */
    var sets: seq<set<U>>
    /** Element to the index of its class. */
    var partitions: map<U, nat>

    /** The integrity the structure keeps (the source leaves it unchecked). */
    ghost predicate Valid()
      reads this
    {
      Consistent(sets, partitions) && NonEmpty(sets, partitions)
    }

    /** from_set(s): one class, s, and every element at index 0. */
    constructor FromSet(s: set<U>)
      ensures sets == [s] && partitions.Keys == s && (forall x :: x in s ==> partitions[x] == 0)
      ensures Valid()
    {
      sets := [s];
      partitions := map x | x in s :: 0;
    }

    /** refine(S): every class S cuts is split; the list grows by one class per
      * cut, and each cut is reported as (part inside S, part outside S). */
    method Refine(S: set<U>) returns (out: seq<(set<U>, set<U>)>, ghost ks: seq<nat>)
      requires Valid() && S <= partitions.Keys
      modifies this
      ensures Valid() && partitions.Keys == old(partitions.Keys)
      ensures Refined(old(sets), S, ks, sets)
      ensures Reported(old(sets), ks, sets, out)
    {
      var s, p, cuts, cut := RefineFields(sets, partitions, S);
      sets, partitions, out, ks := s, p, cuts, cut;
    }

    /** freeze(): the classes become immutable; their contents stay. */
    method Freeze()
      modifies this
      ensures sets == old(sets) && partitions == old(partitions)
    {
      var s := sets;
      sets := seq(|s|, i requires 0 <= i < |s| => s[i]);
    }

    /** get_partition(item): the class holding the item; an unknown item fails. */
    function GetPartition(item: U): (r: Result<set<U>, PartitionError>)
      reads this
      requires Valid()
      ensures r.Success? <==> item in partitions
      ensures r.Success? ==> item in r.value && forall y :: y in r.value <==> y in partitions && partitions[y] == partitions[item]
    {
      if item !in partitions then Failure(ItemNotInPartitions) else Success(sets[partitions[item]])
    }
  }
}

/**
  Properties of join-strategy selection: which strategy each shape of join
  gets, how index joins are assembled, and the two worked scenarios of a
  large indexed table joined against a small one.
*/
module JoinPlanningProperties {
  import opened Outcomes
  import opened JoinPlanning

  // ---------------------------------------------------------------------------
  // Index lookup
  // ---------------------------------------------------------------------------

  /** The lookup finds an index exactly when one matches, and then the first one. */
  lemma {:induction false} FindIndexFirst(indexes: seq<Index>, alias: string)
    ensures FindIndex(indexes, alias).None? <==> forall i :: 0 <= i < |indexes| ==> indexes[i].leadAlias != alias
    ensures FindIndex(indexes, alias).Some? ==>
      exists i :: 0 <= i < |indexes| && indexes[i] == FindIndex(indexes, alias).value
        && indexes[i].leadAlias == alias
        && forall j :: 0 <= j < i ==> indexes[j].leadAlias != alias
    decreases |indexes|
  {
    if |indexes| > 0 && indexes[0].leadAlias != alias {
      var tail := indexes[1..];
      FindIndexFirst(tail, alias);
      assert forall i :: 1 <= i < |indexes| ==> indexes[i] == tail[i - 1];
      if FindIndex(tail, alias).Some? {
        var i :| 0 <= i < |tail| && tail[i] == FindIndex(tail, alias).value
          && tail[i].leadAlias == alias
          && forall j :: 0 <= j < i ==> tail[j].leadAlias != alias;
        assert indexes[i + 1] == tail[i];
      }
    }
  }

  /** A found index belongs to the table and carries the requested alias. */
  lemma {:induction false} FindIndexMember(indexes: seq<Index>, alias: string)
    requires FindIndex(indexes, alias).Some?
    ensures FindIndex(indexes, alias).value in indexes
    ensures FindIndex(indexes, alias).value.leadAlias == alias
  {
    FindIndexFirst(indexes, alias);
  }

  /**
    An index slot is filled exactly when the join is an inner join with one
    condition, the side passes the eligibility test, and one of its table's
    indexes leads with that side's condition alias; the slot then holds the
    first such index.
  */
  lemma {:induction false} IndexSlotFilledIff(op: LogicalJoin, left: Child, right: Child)
    ensures TransformIndexJoin(op, left, right).0.Some? <==>
      && op.joinType == Inner && |op.conditions| == 1 && CanPlanIndexJoin(left)
      && exists i :: 0 <= i < |left.binding.value.indexes|
           && left.binding.value.indexes[i].leadAlias == op.conditions[0].left.alias
    ensures TransformIndexJoin(op, left, right).1.Some? <==>
      && op.joinType == Inner && |op.conditions| == 1 && CanPlanIndexJoin(right)
      && exists i :: 0 <= i < |right.binding.value.indexes|
           && right.binding.value.indexes[i].leadAlias == op.conditions[0].right.alias
    ensures TransformIndexJoin(op, left, right).0.Some? ==>
      TransformIndexJoin(op, left, right).0 == FindIndex(left.binding.value.indexes, op.conditions[0].left.alias)
    ensures TransformIndexJoin(op, left, right).1.Some? ==>
      TransformIndexJoin(op, left, right).1 == FindIndex(right.binding.value.indexes, op.conditions[0].right.alias)
  {
    if op.joinType == Inner && |op.conditions| == 1 {
      if CanPlanIndexJoin(left) {
        FindIndexFirst(left.binding.value.indexes, op.conditions[0].left.alias);
      }
      if CanPlanIndexJoin(right) {
        FindIndexFirst(right.binding.value.indexes, op.conditions[0].right.alias);
      }
    }
  }

  // ---------------------------------------------------------------------------
  // Strategy by shape
  // ---------------------------------------------------------------------------

  /** Without conditions the result is a cross product of exactly the two children. */
  lemma {:induction false} CrossProductOfChildren(op: LogicalJoin, lc: nat, rc: nat, left: Child, right: Child, force: bool)
    requires |op.conditions| == 0
    ensures ChoosePlan(op, lc, rc, left, right, force) == CrossProduct(left, right)
  {
  }

  /** The conditions under which the left side's index is used, checked before the right side. */
  predicate LeftIndexApplies(op: LogicalJoin, lc: nat, rc: nat, left: Child, force: bool) {
    && op.joinType == Inner
    && |op.conditions| == 1
    && op.conditions[0].comparison == Equal
    && IndexCandidate(left, op.conditions[0].left.alias).Some?
    && (force || MuchSmaller(rc, lc))
  }

  predicate RightIndexApplies(op: LogicalJoin, lc: nat, rc: nat, right: Child, force: bool) {
    && op.joinType == Inner
    && |op.conditions| == 1
    && op.conditions[0].comparison == Equal
    && IndexCandidate(right, op.conditions[0].right.alias).Some?
    && (force || MuchSmaller(lc, rc))
  }

  /**
    The left index join is chosen exactly when its conditions hold; it swaps
    the condition's sides, receives the children and projection maps as
    (right, left) and reads the left scan's column ids.
  */
  lemma {:induction false} LeftIndexJoinChosen(op: LogicalJoin, lc: nat, rc: nat, left: Child, right: Child, force: bool)
    requires NullEqualityOnlyOnEquals(op.conditions)
    ensures var p := ChoosePlan(op, lc, rc, left, right, force);
      (p.IndexJoin? && !p.lhsFirst) <==> LeftIndexApplies(op, lc, rc, left, force)
    ensures LeftIndexApplies(op, lc, rc, left, force) ==>
      ChoosePlan(op, lc, rc, left, right, force) ==
        IndexJoin(right, left, [SwapSides(op.conditions[0])], Inner,
                  op.rightProjectionMap, op.leftProjectionMap, left.columnIds,
                  IndexCandidate(left, op.conditions[0].left.alias).value, false)
  {
    if |op.conditions| == 1 {
      assert HasEquality(op.conditions) <==> op.conditions[0].comparison == Equal;
    }
  }

  /**
    The right index join is chosen exactly when the left one is not and its
    own conditions hold; it keeps the children and projection maps in order.
  */
  lemma {:induction false} RightIndexJoinChosen(op: LogicalJoin, lc: nat, rc: nat, left: Child, right: Child, force: bool)
    requires NullEqualityOnlyOnEquals(op.conditions)
    ensures var p := ChoosePlan(op, lc, rc, left, right, force);
      (p.IndexJoin? && p.lhsFirst) <==>
        !LeftIndexApplies(op, lc, rc, left, force) && RightIndexApplies(op, lc, rc, right, force)
    ensures !LeftIndexApplies(op, lc, rc, left, force) && RightIndexApplies(op, lc, rc, right, force) ==>
      ChoosePlan(op, lc, rc, left, right, force) ==
        IndexJoin(left, right, op.conditions, Inner,
                  op.leftProjectionMap, op.rightProjectionMap, right.columnIds,
                  IndexCandidate(right, op.conditions[0].right.alias).value, true)
  {
    if |op.conditions| == 1 {
      assert HasEquality(op.conditions) <==> op.conditions[0].comparison == Equal;
    }
  }

  /** With an equality condition and no index join taken, the result is a hash join. */
  lemma {:induction false} EqualityFallsBackToHashJoin(op: LogicalJoin, lc: nat, rc: nat, left: Child, right: Child, force: bool)
    requires NullEqualityOnlyOnEquals(op.conditions)
    ensures var p := ChoosePlan(op, lc, rc, left, right, force);
      p.HashJoin? <==>
        HasEquality(op.conditions)
        && !LeftIndexApplies(op, lc, rc, left, force)
        && !RightIndexApplies(op, lc, rc, right, force)
    ensures var p := ChoosePlan(op, lc, rc, left, right, force);
      p.HashJoin? ==> p == HashJoin(left, right, op.conditions, op.joinType, op.leftProjectionMap, op.rightProjectionMap)
  {
    LeftIndexJoinChosen(op, lc, rc, left, right, force);
    RightIndexJoinChosen(op, lc, rc, left, right, force);
  }

  /**
    Without an equality condition: a single condition other than "not equal"
    gives a piecewise merge join, anything else a nested loop join.
  */
  lemma {:induction false} RangeJoins(op: LogicalJoin, lc: nat, rc: nat, left: Child, right: Child, force: bool)
    requires NullEqualityOnlyOnEquals(op.conditions)
    requires |op.conditions| > 0 && !HasEquality(op.conditions)
    ensures var p := ChoosePlan(op, lc, rc, left, right, force);
      && (p.PiecewiseMergeJoin? <==> |op.conditions| == 1 && op.conditions[0].comparison != NotEqual)
      && (p.NestedLoopJoin? <==> !(|op.conditions| == 1 && op.conditions[0].comparison != NotEqual))
      && p.left == left && p.right == right && p.conditions == op.conditions && p.joinType == op.joinType
  {
    if |op.conditions| == 1 {
      assert HasInequality(op.conditions) <==> op.conditions[0].comparison == NotEqual;
    }
  }

  /**
    An equality join where neither side is an eligible scan with an index on
    its join column is a hash join, whatever the cardinalities.
  */
  lemma {:induction false} NoEligibleIndexHashJoin(op: LogicalJoin, lc: nat, rc: nat, left: Child, right: Child, force: bool)
    requires NullEqualityOnlyOnEquals(op.conditions)
    requires HasEquality(op.conditions)
    requires |op.conditions| == 1 ==>
      IndexCandidate(left, op.conditions[0].left.alias).None? && IndexCandidate(right, op.conditions[0].right.alias).None?
    ensures ChoosePlan(op, lc, rc, left, right, force).HashJoin?
  {
    EqualityFallsBackToHashJoin(op, lc, rc, left, right, force);
  }

  /**
    Conditions that treat NULLs as equal only ever reach a hash or index
    join, so the range-join branch never meets one.
  */
  lemma {:induction false} NullEqualityNeedsEqualityJoin(op: LogicalJoin, lc: nat, rc: nat, left: Child, right: Child, force: bool)
    requires NullEqualityOnlyOnEquals(op.conditions)
    requires exists i :: 0 <= i < |op.conditions| && op.conditions[i].nullValuesAreEqual
    ensures var p := ChoosePlan(op, lc, rc, left, right, force);
      p.HashJoin? || p.IndexJoin?
  {
    var i :| 0 <= i < |op.conditions| && op.conditions[i].nullValuesAreEqual;
    assert op.conditions[i].comparison == Equal;
  }

  // ---------------------------------------------------------------------------
  // Shape of an index join
  // ---------------------------------------------------------------------------

  /**
    Every index join probes its indexed child with one equality condition
    whose right side is the index's lead expression; the indexed child is an
    eligible scan owning the index and supplies the column ids.
  */
  predicate WellFormedIndexJoin(p: Plan)
    requires p.IndexJoin?
  {
    && p.joinType == Inner
    && |p.conditions| == 1
    && p.conditions[0].comparison == Equal
    && p.conditions[0].right.alias == p.index.leadAlias
    && CanPlanIndexJoin(p.indexed)
    && p.index in p.indexed.binding.value.indexes
    && p.columnIds == p.indexed.columnIds
  }

  lemma {:induction false} IndexJoinWellFormed(op: LogicalJoin, lc: nat, rc: nat, left: Child, right: Child, force: bool)
    requires NullEqualityOnlyOnEquals(op.conditions)
    ensures var p := ChoosePlan(op, lc, rc, left, right, force);
      p.IndexJoin? ==> WellFormedIndexJoin(p)
  {
    var p := ChoosePlan(op, lc, rc, left, right, force);
    LeftIndexJoinChosen(op, lc, rc, left, right, force);
    RightIndexJoinChosen(op, lc, rc, left, right, force);
    if p.IndexJoin? {
      var c := op.conditions[0];
      if p.lhsFirst {
        FindIndexMember(right.binding.value.indexes, c.right.alias);
      } else {
        FindIndexMember(left.binding.value.indexes, c.left.alias);
      }
    }
  }

  /** Swapping a condition's sides twice gives the condition back. */
  lemma {:induction false} SwapSidesInvolution(c: JoinCondition)
    ensures SwapSides(SwapSides(c)) == c
    ensures SwapSides(c).left == c.right && SwapSides(c).right == c.left
    ensures SwapSides(c).comparison == c.comparison
  {
  }

  /**
    An index join evaluates the logical join's own condition: read back from
    the operator's left/right order (swapped again when the probe side was the
    logical right child), it is the condition the planner was given.
  */
  lemma {:induction false} IndexJoinKeepsCondition(op: LogicalJoin, lc: nat, rc: nat, left: Child, right: Child, force: bool)
    requires NullEqualityOnlyOnEquals(op.conditions)
    ensures var p := ChoosePlan(op, lc, rc, left, right, force);
      p.IndexJoin? ==>
        && |p.conditions| == 1
        && (if p.lhsFirst then p.conditions[0] else SwapSides(p.conditions[0])) == op.conditions[0]
  {
    var p := ChoosePlan(op, lc, rc, left, right, force);
    LeftIndexJoinChosen(op, lc, rc, left, right, force);
    RightIndexJoinChosen(op, lc, rc, left, right, force);
    if p.IndexJoin? && !p.lhsFirst {
      SwapSidesInvolution(op.conditions[0]);
    }
  }

  /**
    The chosen operator consumes exactly the two planned children: in their
    order, except for the left index join, which takes them reversed.
  */
  lemma {:induction false} PlanKeepsChildren(op: LogicalJoin, lc: nat, rc: nat, left: Child, right: Child, force: bool)
    requires NullEqualityOnlyOnEquals(op.conditions)
    ensures var p := ChoosePlan(op, lc, rc, left, right, force);
      Children(p) == (if p.IndexJoin? && !p.lhsFirst then [right, left] else [left, right])
    ensures multiset(Children(ChoosePlan(op, lc, rc, left, right, force))) == multiset{left, right}
  {
    var p := ChoosePlan(op, lc, rc, left, right, force);
    LeftIndexJoinChosen(op, lc, rc, left, right, force);
    RightIndexJoinChosen(op, lc, rc, left, right, force);
    if p.IndexJoin? && !p.lhsFirst {
      assert p.probe == right && p.indexed == left;
      assert multiset([right, left]) == multiset{left, right};
    } else if p.IndexJoin? {
      assert p.probe == left && p.indexed == right;
    } else {
      assert p.left == left && p.right == right;
    }
  }

  /** With the override set, an eligible left index always wins over the right one. */
  lemma {:induction false} ForcedLeftIndexWins(op: LogicalJoin, lc: nat, rc: nat, left: Child, right: Child)
    requires NullEqualityOnlyOnEquals(op.conditions)
    requires op.joinType == Inner && |op.conditions| == 1 && op.conditions[0].comparison == Equal
    requires IndexCandidate(left, op.conditions[0].left.alias).Some?
    ensures var p := ChoosePlan(op, lc, rc, left, right, true);
      p.IndexJoin? && !p.lhsFirst && p.indexed == left
  {
    LeftIndexJoinChosen(op, lc, rc, left, right, true);
  }

  // ---------------------------------------------------------------------------
  // Scenarios
  // ---------------------------------------------------------------------------

  /** A ten-million-row table with an index on `c`, and a 500-row scan without indexes. */
  function BigTable(hasLocalStorage: bool): Child {
    TableScan(1, Some(TableBinding(7, hasLocalStorage, [Index(70, "c")])), 0, [0, 1])
  }

  function SmallScan(): Child {
    TableScan(2, Some(TableBinding(8, false, [])), 0, [0])
  }

  function EquiJoinOnC(): LogicalJoin {
    LogicalJoin(Inner, [JoinCondition(Expr(10, "c"), Expr(11, "d"), Equal, false)], [0, 1], [2])
  }

  /** The large indexed table on the left is probed from the 500-row side through its index. */
  lemma {:induction false} ScenarioIndexJoin()
    ensures var p := ChoosePlan(EquiJoinOnC(), 10000000, 500, BigTable(false), SmallScan(), false);
      && p.IndexJoin?
      && p.index == Index(70, "c")
      && p.probe == SmallScan() && p.indexed == BigTable(false)
      && p.conditions == [JoinCondition(Expr(11, "d"), Expr(10, "c"), Equal, false)]
      && !p.lhsFirst
  {
    LeftIndexJoinChosen(EquiJoinOnC(), 10000000, 500, BigTable(false), SmallScan(), false);
  }

  /** The same join over a table with uncommitted local inserts becomes a hash join. */
  lemma {:induction false} ScenarioLocalInsertHashJoin()
    ensures ChoosePlan(EquiJoinOnC(), 10000000, 500, BigTable(true), SmallScan(), false).HashJoin?
  {
    var op := EquiJoinOnC();
    assert op.conditions[0].comparison == Equal;
    NoEligibleIndexHashJoin(op, 10000000, 500, BigTable(true), SmallScan(), false);
  }
}

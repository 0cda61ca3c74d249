/**
  Physical join-strategy selection for a logical comparison join: cross
  product, index join on either side, hash join, piecewise merge join or
  nested loop join.

  The transaction, the client context and the planned children enter as
  plain values: whether a child is a table scan, whether its table has
  transaction-local appends, how many table filters the scan carries and
  which indexes the table holds, plus the estimated cardinalities and the
  `force_index_join` setting.
*/
module JoinPlanning {
  import opened Outcomes

  // ---------------------------------------------------------------------------
  // Inputs
  // ---------------------------------------------------------------------------

  /** The comparison expression types a join condition can carry. */
  datatype Comparison =
    | Equal
    | NotEqual
    | LessThan
    | GreaterThan
    | LessThanOrEqual
    | GreaterThanOrEqual

  /** One side of a join condition: only its alias matters for index matching. */
  datatype Expr = Expr(node: nat, alias: string)

  datatype JoinCondition = JoinCondition(
    left: Expr,
    right: Expr,
    comparison: Comparison,
    nullValuesAreEqual: bool)

  datatype JoinType = Invalid | LeftJoin | RightJoin | Inner | Outer | Semi | Anti | Mark | Single

  /** An index of a table, known by its identity and the alias of its first key expression. */
  datatype Index = Index(id: nat, leadAlias: string)

  /** What a table scan's bind data tells the planner about its table. */
  datatype TableBinding = TableBinding(table: nat, hasLocalStorage: bool, indexes: seq<Index>)

  /**
    A planned child operator. A table scan may lack table-scan bind data (the
    dynamic cast yields null); `filterCount` is the number of table filters,
    zero when the scan has none at all.
  */
  datatype Child =
    | TableScan(id: nat, binding: Option<TableBinding>, filterCount: nat, columnIds: seq<nat>)
    | OtherOperator(id: nat)

  /** The parts of the logical comparison join the planner reads. */
  datatype LogicalJoin = LogicalJoin(
    joinType: JoinType,
    conditions: seq<JoinCondition>,
    leftProjectionMap: seq<nat>,
    rightProjectionMap: seq<nat>)

  // ---------------------------------------------------------------------------
  // Output
  // ---------------------------------------------------------------------------

  /**
    The physical operator chosen. An index join probes `indexed` with the rows
    of `probe`; `lhsFirst` is the operator's flag telling whether the probe
    side was the logical left child.
  */
  datatype Plan =
    | CrossProduct(left: Child, right: Child)
    | IndexJoin(
        probe: Child,
        indexed: Child,
        conditions: seq<JoinCondition>,
        joinType: JoinType,
        probeMap: seq<nat>,
        indexedMap: seq<nat>,
        columnIds: seq<nat>,
        index: Index,
        lhsFirst: bool)
    | HashJoin(left: Child, right: Child, conditions: seq<JoinCondition>, joinType: JoinType,
               leftMap: seq<nat>, rightMap: seq<nat>)
    | PiecewiseMergeJoin(left: Child, right: Child, conditions: seq<JoinCondition>, joinType: JoinType)
    | NestedLoopJoin(left: Child, right: Child, conditions: seq<JoinCondition>, joinType: JoinType)

  // ---------------------------------------------------------------------------
  // Index eligibility and lookup
  // ---------------------------------------------------------------------------

  /**
    A side may be answered by an index only when it is a table scan with
    table-scan bind data, its table has no transaction-local appends, and the
    scan has no table filters.
  */
  predicate CanPlanIndexJoin(c: Child) {
    && c.TableScan?
    && c.binding.Some?
    && !c.binding.value.hasLocalStorage
    && c.filterCount == 0
  }

  /** The first index whose lead expression has the given alias. */
  function FindIndex(indexes: seq<Index>, alias: string): Option<Index> {
    if |indexes| == 0 then None
    else if indexes[0].leadAlias == alias then Some(indexes[0])
    else FindIndex(indexes[1..], alias)
  }

  /** The index a side offers for a condition alias, if the side is eligible at all. */
  function IndexCandidate(c: Child, alias: string): Option<Index> {
    if CanPlanIndexJoin(c) then FindIndex(c.binding.value.indexes, alias) else None
  }

  /**
    The pair (left index, right index): both absent unless the join is an
    inner join with exactly one condition.
  */
  function TransformIndexJoin(op: LogicalJoin, left: Child, right: Child): (r: (Option<Index>, Option<Index>))
    ensures (r.0.Some? || r.1.Some?) ==> op.joinType == Inner && |op.conditions| == 1
    ensures r.0.Some? ==> CanPlanIndexJoin(left)
    ensures r.1.Some? ==> CanPlanIndexJoin(right)
  {
    if op.joinType == Inner && |op.conditions| == 1 then
      (IndexCandidate(left, op.conditions[0].left.alias), IndexCandidate(right, op.conditions[0].right.alias))
    else
      (None, None)
  }

  // ---------------------------------------------------------------------------
  // Strategy selection
  // ---------------------------------------------------------------------------

  predicate HasEquality(conds: seq<JoinCondition>) {
    exists i :: 0 <= i < |conds| && conds[i].comparison == Equal
  }

  predicate HasInequality(conds: seq<JoinCondition>) {
    exists i :: 0 <= i < |conds| && conds[i].comparison == NotEqual
  }

  /** The planner's invariant: a condition that treats NULLs as equal is an equality. */
  predicate NullEqualityOnlyOnEquals(conds: seq<JoinCondition>) {
    forall i :: 0 <= i < |conds| && conds[i].nullValuesAreEqual ==> conds[i].comparison == Equal
  }

  /**
    `x < 0.01 * y` on cardinalities, compared exactly: the index side must be
    at least a hundred times larger than the probe side.
  */
  predicate MuchSmaller(x: nat, y: nat) {
    100 * x < y
  }

  function SwapSides(c: JoinCondition): JoinCondition {
    c.(left := c.right, right := c.left)
  }

  /** Selects the physical operator for a comparison join over the planned children. */
  function ChoosePlan(op: LogicalJoin, lhsCardinality: nat, rhsCardinality: nat,
                      left: Child, right: Child, forceIndexJoin: bool): (p: Plan)
    requires NullEqualityOnlyOnEquals(op.conditions)
    ensures p.CrossProduct? <==> |op.conditions| == 0
    ensures p.IndexJoin? ==> op.joinType == Inner && |op.conditions| == 1
  {
    var conds := op.conditions;
    if |conds| == 0 then
      CrossProduct(left, right)
    else if HasEquality(conds) then
      var (leftIndex, rightIndex) := TransformIndexJoin(op, left, right);
      if leftIndex.Some? && (forceIndexJoin || MuchSmaller(rhsCardinality, lhsCardinality)) then
        IndexJoin(right, left, [SwapSides(conds[0])] + conds[1..], op.joinType,
                  op.rightProjectionMap, op.leftProjectionMap, left.columnIds, leftIndex.value, false)
      else if rightIndex.Some? && (forceIndexJoin || MuchSmaller(lhsCardinality, rhsCardinality)) then
        IndexJoin(left, right, conds, op.joinType,
                  op.leftProjectionMap, op.rightProjectionMap, right.columnIds, rightIndex.value, true)
      else
        HashJoin(left, right, conds, op.joinType, op.leftProjectionMap, op.rightProjectionMap)
    else if |conds| == 1 && !HasInequality(conds) then
      PiecewiseMergeJoin(left, right, conds, op.joinType)
    else
      NestedLoopJoin(left, right, conds, op.joinType)
  }

  /** The children an operator consumes, in the order it receives them. */
  function Children(p: Plan): seq<Child> {
    match p
    case CrossProduct(l, r) => [l, r]
    case IndexJoin(l, r, _, _, _, _, _, _, _) => [l, r]
    case HashJoin(l, r, _, _, _, _) => [l, r]
    case PiecewiseMergeJoin(l, r, _, _) => [l, r]
    case NestedLoopJoin(l, r, _, _) => [l, r]
  }
}

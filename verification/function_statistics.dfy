/**
  Statistics propagation through a bound function call. The children are
  propagated first, one at a time and in argument order; propagating a child
  may rewrite it in place and may raise an error, which ends the propagation
  of the whole call. The function's statistics rule, if it has one, then
  combines the children's statistics, reading the call with its children as
  they stand after their own propagation.

  Propagating a child expression and the rule itself are code outside this
  model, so both enter as function values: `propagate` maps a child
  expression to the expression left in its slot and its statistics (absent
  when nothing is known), or to an error; the rule maps (context, call, bind
  data, child statistics) to the call's statistics, or to an error.
*/
module FunctionStatistics {
  import opened Outcomes

  /** A bound function call: its name, its argument expressions and its optional bind data. */
  datatype BoundFunction<E, B> = BoundFunction(name: string, children: seq<E>, bindInfo: Option<B>)

  /** What propagating one child leaves behind: the expression now in its slot, and its statistics. */
  datatype ChildOutcome<E, S> = ChildOutcome(child: E, stats: Option<S>)

  /** A function's statistics rule. */
  type StatisticsRule<!C, !E, !B, !S, !X> = (C, BoundFunction<E, B>, Option<B>, seq<Option<S>>) -> Result<Option<S>, X>

  /**
    The children propagated in argument order: the rewritten children and
    the statistics vector, one entry per child at that child's position, or
    the error of the first child whose propagation fails.
  */
  function PropagateChildren<E, S, X>(children: seq<E>, propagate: E -> Result<ChildOutcome<E, S>, X>)
    : Result<(seq<E>, seq<Option<S>>), X>
  {
    if |children| == 0 then Success(([], []))
    else
      match PropagateChildren(children[..|children| - 1], propagate)
      case Failure(e) => Failure(e)
      case Success(done) =>
        match propagate(children[|children| - 1])
        case Failure(e) => Failure(e)
        case Success(o) => Success((done.0 + [o.child], done.1 + [o.stats]))
  }

  /**
    The propagation as the function is written: give up when there is no
    rule, propagate the children, look at the rule a second time, and apply
    it to the call as its children now stand.
  */
  function PropagateAsWritten<C, E, B, S, X>(ctx: C, func: BoundFunction<E, B>,
                                             rule: Option<StatisticsRule<C, E, B, S, X>>,
                                             propagate: E -> Result<ChildOutcome<E, S>, X>): Result<Option<S>, X>
  {
    if rule.None? then Success(None)
    else
      var done :- PropagateChildren(func.children, propagate);
      if rule.None? then Success(None)
      else rule.value(ctx, func.(children := done.0), func.bindInfo, done.1)
  }

  /** The same propagation without the second look at the rule. */
  function Propagate<C, E, B, S, X>(ctx: C, func: BoundFunction<E, B>,
                                    rule: Option<StatisticsRule<C, E, B, S, X>>,
                                    propagate: E -> Result<ChildOutcome<E, S>, X>): Result<Option<S>, X>
  {
    match rule
    case None => Success(None)
    case Some(combine) =>
      match PropagateChildren(func.children, propagate)
      case Failure(e) => Failure(e)
      case Success(done) => combine(ctx, func.(children := done.0), func.bindInfo, done.1)
  }

  /**
    The propagation step by step. `visited` lists the children whose
    propagation was started, in order; `rewritten` and `stats` hold what the
    successful ones left in their slots and their statistics. Either every
    child succeeded and the rule read the rewritten call, or the last child
    visited failed and its error is the result.
  */
  method PropagateFunction<C, E, B, S, X>(ctx: C, func: BoundFunction<E, B>,
                                          rule: Option<StatisticsRule<C, E, B, S, X>>,
                                          propagate: E -> Result<ChildOutcome<E, S>, X>)
    returns (result: Result<Option<S>, X>, visited: seq<E>, rewritten: seq<E>, stats: seq<Option<S>>)
    ensures rule.None? ==> result == Success(None) && visited == [] && stats == []
    ensures visited <= func.children && |rewritten| == |stats| <= |visited|
    ensures forall j :: 0 <= j < |stats| ==> propagate(func.children[j]) == Success(ChildOutcome(rewritten[j], stats[j]))
    ensures |stats| < |visited| ==>
      && |stats| == |visited| - 1
      && propagate(visited[|stats|]).Failure?
      && result == Failure(propagate(visited[|stats|]).error)
    ensures rule.Some? && |stats| == |visited| ==>
      && visited == func.children
      && result == rule.value(ctx, func.(children := rewritten), func.bindInfo, stats)
    ensures result == Propagate(ctx, func, rule, propagate)
  {
    if rule.None? {
      return Success(None), [], [], [];
    }
    visited := [];
    stats := [];
    rewritten := [];
    var i := 0;
    while i < |func.children|
      invariant 0 <= i <= |func.children|
      invariant visited == func.children[..i]
      invariant |stats| == i && |rewritten| == i
      invariant forall j :: 0 <= j < i ==> propagate(func.children[j]) == Success(ChildOutcome(rewritten[j], stats[j]))
      invariant PropagateChildren(func.children[..i], propagate) == Success((rewritten, stats))
    {
      var o := propagate(func.children[i]);
      if o.Failure? {
        StepFailure(func.children, i, propagate);
        visited := func.children[..i + 1];
        return Failure(o.error), visited, rewritten, stats;
      }
      StepSuccess(func.children, i, propagate);
      visited := func.children[..i + 1];
      rewritten := rewritten + [o.value.child];
      stats := stats + [o.value.stats];
      i := i + 1;
    }
    assert func.children[..i] == func.children;
    result := rule.value(ctx, func.(children := rewritten), func.bindInfo, stats);
  }

  /** One more child propagated successfully extends the slots and the vector by its outcome. */
  lemma {:induction false} StepSuccess<E, S, X>(children: seq<E>, i: nat, propagate: E -> Result<ChildOutcome<E, S>, X>)
    requires i < |children| && PropagateChildren(children[..i], propagate).Success? && propagate(children[i]).Success?
    ensures var done := PropagateChildren(children[..i], propagate).value;
      var o := propagate(children[i]).value;
      PropagateChildren(children[..i + 1], propagate) == Success((done.0 + [o.child], done.1 + [o.stats]))
  {
    assert children[..i + 1][..i] == children[..i];
  }

  /** A failing child after a successful prefix is the outcome of the whole loop. */
  lemma {:induction false} StepFailure<E, S, X>(children: seq<E>, i: nat, propagate: E -> Result<ChildOutcome<E, S>, X>)
    requires i < |children| && PropagateChildren(children[..i], propagate).Success? && propagate(children[i]).Failure?
    ensures PropagateChildren(children, propagate) == Failure(propagate(children[i]).error)
  {
    assert children[..i + 1][..i] == children[..i];
    assert PropagateChildren(children[..i + 1], propagate) == Failure(propagate(children[i]).error);
    FailureSticks(children, i + 1, propagate);
  }

  /** Once a prefix of the children fails, the whole propagation fails with the same error. */
  lemma {:induction false} FailureSticks<E, S, X>(children: seq<E>, k: nat, propagate: E -> Result<ChildOutcome<E, S>, X>)
    requires k <= |children| && PropagateChildren(children[..k], propagate).Failure?
    ensures PropagateChildren(children, propagate) == PropagateChildren(children[..k], propagate)
    decreases |children|
  {
    if k < |children| {
      var n := |children| - 1;
      assert children[..n][..k] == children[..k];
      FailureSticks(children[..n], k, propagate);
    } else {
      assert children[..k] == children;
    }
  }

  // ---------------------------------------------------------------------------
  // Properties
  // ---------------------------------------------------------------------------

  /**
    The children propagate successfully exactly when each child does; then
    every slot holds what its child's propagation left there and the vector
    holds each child's statistics at its position. Otherwise the error is
    that of the first failing child.
  */
  lemma {:induction false} PropagateChildrenSpec<E, S, X>(children: seq<E>, propagate: E -> Result<ChildOutcome<E, S>, X>)
    ensures PropagateChildren(children, propagate).Success? <==>
      forall i :: 0 <= i < |children| ==> propagate(children[i]).Success?
    ensures PropagateChildren(children, propagate).Success? ==>
      var done := PropagateChildren(children, propagate).value;
      && |done.0| == |children| && |done.1| == |children|
      && forall i :: 0 <= i < |children| ==> propagate(children[i]) == Success(ChildOutcome(done.0[i], done.1[i]))
    ensures PropagateChildren(children, propagate).Failure? ==>
      exists k :: 0 <= k < |children|
        && propagate(children[k]).Failure?
        && (forall j :: 0 <= j < k ==> propagate(children[j]).Success?)
        && PropagateChildren(children, propagate).error == propagate(children[k]).error
    decreases |children|
  {
    if |children| > 0 {
      var n := |children| - 1;
      var front := children[..n];
      PropagateChildrenSpec(front, propagate);
      assert forall i :: 0 <= i < n ==> front[i] == children[i];
      var r := PropagateChildren(children, propagate);
      if PropagateChildren(front, propagate).Failure? {
        var k :| 0 <= k < n && propagate(front[k]).Failure?
          && (forall j :: 0 <= j < k ==> propagate(front[j]).Success?)
          && PropagateChildren(front, propagate).error == propagate(front[k]).error;
        assert propagate(children[k]).Failure?;
      } else if propagate(children[n]).Failure? {
        assert forall j :: 0 <= j < n ==> propagate(children[j]).Success?;
      } else {
        var done := PropagateChildren(front, propagate).value;
        var o := propagate(children[n]).value;
        assert r == Success((done.0 + [o.child], done.1 + [o.stats]));
      }
    }
  }

  /** The second look at the rule never changes the outcome: it cannot find the rule missing. */
  lemma {:induction false} RecheckNeverFires<C, E, B, S, X>(ctx: C, func: BoundFunction<E, B>,
                                                             rule: Option<StatisticsRule<C, E, B, S, X>>,
                                                             propagate: E -> Result<ChildOutcome<E, S>, X>)
    ensures PropagateAsWritten(ctx, func, rule, propagate) == Propagate(ctx, func, rule, propagate)
  {
  }

  /** Without a rule nothing is propagated and the statistics are unknown. */
  lemma {:induction false} PropagateWithoutRule<C, E, B, S, X>(ctx: C, func: BoundFunction<E, B>,
                                                                rule: Option<StatisticsRule<C, E, B, S, X>>,
                                                                propagate: E -> Result<ChildOutcome<E, S>, X>)
    requires rule.None?
    ensures Propagate(ctx, func, rule, propagate) == Success(None)
  {
  }

  /**
    When every child propagates, the rule is applied to the call with each
    child replaced by what its propagation left in its slot, and to each
    child's statistics at its position.
  */
  lemma {:induction false} PropagateByRule<C, E, B, S, X>(ctx: C, func: BoundFunction<E, B>,
                                                           rule: Option<StatisticsRule<C, E, B, S, X>>,
                                                           propagate: E -> Result<ChildOutcome<E, S>, X>,
                                                           rewritten: seq<E>, stats: seq<Option<S>>)
    requires rule.Some?
    requires |rewritten| == |func.children| && |stats| == |func.children|
    requires forall i :: 0 <= i < |func.children| ==>
      propagate(func.children[i]) == Success(ChildOutcome(rewritten[i], stats[i]))
    ensures Propagate(ctx, func, rule, propagate) == rule.value(ctx, func.(children := rewritten), func.bindInfo, stats)
  {
    PropagateChildrenSpec(func.children, propagate);
    var done := PropagateChildren(func.children, propagate).value;
    assert done.0 == rewritten by {
      assert forall i :: 0 <= i < |func.children| ==> done.0[i] == rewritten[i];
    }
    assert done.1 == stats by {
      assert forall i :: 0 <= i < |func.children| ==> done.1[i] == stats[i];
    }
  }

  /**
    When child `k` is the first whose propagation fails, its error is the
    result and the rule is never applied.
  */
  lemma {:induction false} PropagateStopsAtFailure<C, E, B, S, X>(ctx: C, func: BoundFunction<E, B>,
                                                                   rule: Option<StatisticsRule<C, E, B, S, X>>,
                                                                   propagate: E -> Result<ChildOutcome<E, S>, X>,
                                                                   k: nat)
    requires rule.Some? && k < |func.children| && propagate(func.children[k]).Failure?
    requires forall j :: 0 <= j < k ==> propagate(func.children[j]).Success?
    ensures Propagate(ctx, func, rule, propagate) == Failure(propagate(func.children[k]).error)
  {
    var front := func.children[..k];
    PropagateChildrenSpec(front, propagate);
    assert forall j :: 0 <= j < k ==> front[j] == func.children[j];
    assert func.children[..k + 1][..k] == front;
    assert func.children[..k + 1][k] == func.children[k];
    FailureSticks(func.children, k + 1, propagate);
  }

  /**
    Each child is propagated on its own: propagating a concatenation succeeds
    exactly when both parts do, with the parts' results concatenated, and
    otherwise fails with the first part's error if it has one.
  */
  lemma {:induction false} PropagateChildrenAppend<E, S, X>(a: seq<E>, b: seq<E>, propagate: E -> Result<ChildOutcome<E, S>, X>)
    ensures var ra := PropagateChildren(a, propagate);
      var rb := PropagateChildren(b, propagate);
      PropagateChildren(a + b, propagate) ==
        if ra.Failure? then ra
        else if rb.Failure? then rb
        else Success((ra.value.0 + rb.value.0, ra.value.1 + rb.value.1))
    decreases |b|
  {
    if |b| == 0 {
      assert a + b == a;
      var ra := PropagateChildren(a, propagate);
      if ra.Success? {
        assert ra.value.0 + [] == ra.value.0 && ra.value.1 + [] == ra.value.1;
      }
    } else {
      var n := |b| - 1;
      var ab := a + b;
      assert ab[..|ab| - 1] == a + b[..n];
      assert ab[|ab| - 1] == b[n];
      PropagateChildrenAppend(a, b[..n], propagate);
      var ra := PropagateChildren(a, propagate);
      var rf := PropagateChildren(b[..n], propagate);
      if ra.Success? && rf.Success? && propagate(b[n]).Success? {
        var o := propagate(b[n]).value;
        assert (ra.value.0 + rf.value.0) + [o.child] == ra.value.0 + (rf.value.0 + [o.child]);
        assert (ra.value.1 + rf.value.1) + [o.stats] == ra.value.1 + (rf.value.1 + [o.stats]);
      }
    }
  }

  /** Two calls whose children propagate alike propagate alike. */
  lemma {:induction false} PropagateChildrenCongruent<E, S, X>(c1: seq<E>, c2: seq<E>, propagate: E -> Result<ChildOutcome<E, S>, X>)
    requires |c1| == |c2|
    requires forall i :: 0 <= i < |c1| ==> propagate(c1[i]) == propagate(c2[i])
    ensures PropagateChildren(c1, propagate) == PropagateChildren(c2, propagate)
    decreases |c1|
  {
    if |c1| > 0 {
      var n := |c1| - 1;
      assert forall i :: 0 <= i < n ==> c1[..n][i] == c1[i] && c2[..n][i] == c2[i];
      PropagateChildrenCongruent(c1[..n], c2[..n], propagate);
    }
  }
}

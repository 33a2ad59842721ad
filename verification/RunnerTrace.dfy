/** What a run measures, read off its steps alone: no state of the runner is consulted here. */
module RunnerTrace {
  import opened Runner
  import Sorting

  // ----- times and counts of a list of steps

  /** The clock after the steps. */
  function Clock(steps: seq<Step>): int {
    if steps == [] then 0 else
    var last := steps[|steps| - 1];
    Clock(steps[..|steps| - 1]) + if last.Tick? then last.dt else 0
  }

  function ClaimsIn(steps: seq<Step>): nat {
    if steps == [] then 0 else
    ClaimsIn(steps[..|steps| - 1]) + if steps[|steps| - 1].Claim? then 1 else 0
  }

  /** The clock at the claim of index i. */
  function ClaimTime(steps: seq<Step>, i: nat): int {
    if steps == [] then 0 else
    var front := steps[..|steps| - 1];
    if steps[|steps| - 1].Claim? && ClaimsIn(front) == i then Clock(front) else ClaimTime(front, i)
  }

  /** The clock at the dispatch of operation i. */
  function DispatchTime(steps: seq<Step>, i: nat): int {
    if steps == [] then 0 else
    var front := steps[..|steps| - 1];
    if steps[|steps| - 1] == Step.Dispatch(i) then Clock(front) else DispatchTime(front, i)
  }

  /** When operation i was meant to start: its place in the plan, or its claim in a closed loop. */
  function StartTime(c: Config, steps: seq<Step>, i: nat): int {
    match c.sched
    case Planned(at) => at(i)
    case Closed => ClaimTime(steps, i)
  }

  /** The step completes an operation dispatched after warmup, in a run not yet cancelled. */
  predicate Counts(c: Config, before: seq<Step>, step: Step) {
    step.Complete? && Step.Cancel !in before && DispatchTime(before, step.i) >= c.warmupEnd
  }

  /** The observation that such a step makes. */
  function Observed(c: Config, before: seq<Step>, step: Step): Obs
    requires step.Complete?
  {
    Obs(step.i, StartTime(c, before, step.i), DispatchTime(before, step.i), Clock(before), step.isErr, step.rows)
  }

  function Completions(c: Config, steps: seq<Step>): seq<Obs> {
    if steps == [] then [] else
    var front, last := steps[..|steps| - 1], steps[|steps| - 1];
    Completions(c, front) + if Counts(c, front, last) then [Observed(c, front, last)] else []
  }

  // ----- the state agrees with the steps

  ghost predicate TracedOp(c: Config, steps: seq<Step>, i: nat, op: Op) {
    match op
    case Claimed(intended) => intended == StartTime(c, steps, i)
    case Executing(intended, dispatch) => intended == StartTime(c, steps, i) && dispatch == DispatchTime(steps, i)
    case Observing(_, _) => true
    case Discarded => Step.Cancel in steps || DispatchTime(steps, i) < c.warmupEnd
  }

  ghost predicate Traced(c: Config, steps: seq<Step>, s: State) {
    && s.now == Clock(steps)
    && (s.cancelled <==> Step.Cancel in steps)
    && |s.ops| == ClaimsIn(steps)
    && forall i | 0 <= i < |s.ops| :: TracedOp(c, steps, i, s.ops[i])
  }

  lemma Unfold(c: Config, steps: seq<Step>, last: Step, i: nat)
    ensures Clock(steps + [last]) == Clock(steps) + if last.Tick? then last.dt else 0
    ensures ClaimsIn(steps + [last]) == ClaimsIn(steps) + if last.Claim? then 1 else 0
    ensures ClaimTime(steps + [last], i) ==
            if last.Claim? && ClaimsIn(steps) == i then Clock(steps) else ClaimTime(steps, i)
    ensures DispatchTime(steps + [last], i) == if last == Step.Dispatch(i) then Clock(steps) else DispatchTime(steps, i)
    ensures Step.Cancel in steps + [last] <==> Step.Cancel in steps || last == Step.Cancel
    ensures Completions(c, steps + [last]) ==
            Completions(c, steps) + if Counts(c, steps, last) then [Observed(c, steps, last)] else []
  {
    assert (steps + [last])[..|steps|] == steps;
  }

  lemma TracedStepOp(c: Config, steps: seq<Step>, s: State, last: Step, i: nat)
    requires Traced(c, steps, s) && Enabled(s, last) && i < |Apply(c, s, last).ops|
    ensures TracedOp(c, steps + [last], i, Apply(c, s, last).ops[i])
  {
    Unfold(c, steps, last, i);
    if i < |s.ops| {
      assert TracedOp(c, steps, i, s.ops[i]);
    }
  }

  lemma TracedStep(c: Config, steps: seq<Step>, s: State, last: Step)
    requires Traced(c, steps, s) && Enabled(s, last)
    ensures Traced(c, steps + [last], Apply(c, s, last))
  {
    Unfold(c, steps, last, 0);
    forall i | 0 <= i < |Apply(c, s, last).ops| ensures TracedOp(c, steps + [last], i, Apply(c, s, last).ops[i]) {
      TracedStepOp(c, steps, s, last, i);
    }
  }

  // ----- and the measured operations are the completions

  lemma MeasuredSnoc(ops: seq<Op>, op: Op)
    ensures Measured(ops + [op]) == Measured(ops) + if op.Observing? then [op.o] else []
  {
    assert (ops + [op])[..|ops|] == ops;
  }

  lemma {:induction false} MeasuredConcat(a: seq<Op>, b: seq<Op>)
    ensures Measured(a + b) == Measured(a) + Measured(b)
  {
    if b == [] {
      assert a + b == a;
    } else {
      var front, last := b[..|b| - 1], b[|b| - 1];
      assert a + b == (a + front) + [last] && b == front + [last];
      MeasuredConcat(a, front);
      MeasuredSnoc(a + front, last);
      MeasuredSnoc(front, last);
    }
  }

  /** The measured operations before and after the one at i. */
  lemma MeasuredAround(ops: seq<Op>, i: nat, op: Op)
    requires i < |ops|
    ensures Measured(ops[i := op]) ==
            Measured(ops[..i]) + (if op.Observing? then [op.o] else []) + Measured(ops[i + 1..])
  {
    assert ops[i := op] == ops[..i] + [op] + ops[i + 1..];
    MeasuredConcat(ops[..i] + [op], ops[i + 1..]);
    MeasuredSnoc(ops[..i], op);
  }

  lemma MeasuredReplace(ops: seq<Op>, i: nat, op: Op)
    requires i < |ops| && !ops[i].Observing?
    ensures multiset(Measured(ops[i := op])) ==
            multiset(Measured(ops)) + if op.Observing? then multiset{op.o} else multiset{}
  {
    assert ops[i := ops[i]] == ops;
    MeasuredAround(ops, i, ops[i]);
    MeasuredAround(ops, i, op);
  }

  lemma MeasuredAdvance(ops: seq<Op>, i: nat, pc: Pc)
    requires i < |ops| && ops[i].Observing?
    ensures Measured(ops[i := Observing(ops[i].o, pc)]) == Measured(ops)
  {
    assert ops[i := ops[i]] == ops;
    MeasuredAround(ops, i, ops[i]);
    MeasuredAround(ops, i, Observing(ops[i].o, pc));
  }

  lemma MeasuredStep(c: Config, steps: seq<Step>, s: State, last: Step)
    requires Traced(c, steps, s) && Enabled(s, last)
    ensures multiset(Measured(Apply(c, s, last).ops)) ==
            multiset(Measured(s.ops)) +
            if Counts(c, steps, last) then multiset{Observed(c, steps, last)} else multiset{}
  {
    var s' := Apply(c, s, last);
    match last {
      case Tick(_) =>
      case Cancel =>
      case Claim => MeasuredSnoc(s.ops, s'.ops[|s.ops|]);
      case Dispatch(i) => MeasuredReplace(s.ops, i, s'.ops[i]);
      case Abandon(i) => MeasuredReplace(s.ops, i, s'.ops[i]);
      case Complete(i, _, _) =>
        assert TracedOp(c, steps, i, s.ops[i]);
        MeasuredReplace(s.ops, i, s'.ops[i]);
      case Advance(i) => MeasuredAdvance(s.ops, i, s'.ops[i].pc);
    }
  }

  /** After any interleaving the clock, the cancellation, the claims and the measured operations are
      those that the steps themselves show. An operation that ended unmeasured was dispatched during
      warmup, or the run was cancelled. */
  lemma {:induction false} MeasuredAreCompletions(c: Config, steps: seq<Step>, s: State)
    requires Reaches(c, steps, s)
    ensures Traced(c, steps, s)
    ensures multiset(Measured(s.ops)) == multiset(Completions(c, steps))
  {
    if steps != [] {
      var front, last := steps[..|steps| - 1], steps[|steps| - 1];
      var before :| Reaches(c, front, before) && Enabled(before, last) && s == Apply(c, before, last);
      MeasuredAreCompletions(c, front, before);
      assert steps == front + [last];
      TracedStep(c, front, before, last);
      MeasuredStep(c, front, before, last);
      Unfold(c, front, last, 0);
    }
  }

  // ----- the report, counted in steps

  lemma {:induction false} SumOfConcat(a: seq<Obs>, b: seq<Obs>, f: Obs -> int)
    ensures SumOf(a + b, f) == SumOf(a, f) + SumOf(b, f)
  {
    if b == [] {
      assert a + b == a;
    } else {
      SumOfConcat(a, b[..|b| - 1], f);
      assert (a + b)[..|a + b| - 1] == a + b[..|b| - 1];
    }
  }

  lemma SumOfMiddle(u: seq<Obs>, o: Obs, v: seq<Obs>, f: Obs -> int)
    ensures SumOf(u + [o] + v, f) == f(o) + SumOf(u + v, f)
  {
    SumOfConcat(u + [o], v, f);
    SumOfConcat(u, v, f);
    SumOfConcat(u, [o], f);
    assert [o][..0] == [] && SumOf([o], f) == f(o);
  }

  lemma SumOfRemove(obs: seq<Obs>, o: Obs, f: Obs -> int) returns (rest: seq<Obs>)
    requires o in multiset(obs)
    ensures multiset(obs) == multiset(rest) + multiset{o}
    ensures SumOf(obs, f) == f(o) + SumOf(rest, f)
  {
    var u, v := Sorting.SplitAt(obs, o);
    Sorting.MiddleMultiset(u, o, v);
    SumOfMiddle(u, o, v, f);
    rest := u + v;
  }

  lemma {:induction false} SumOfPermutation(a: seq<Obs>, b: seq<Obs>, f: Obs -> int)
    requires multiset(a) == multiset(b)
    ensures SumOf(a, f) == SumOf(b, f)
    decreases |a|
  {
    if a == [] {
      assert |b| == |multiset(b)| == |multiset(a)| == 0;
    } else {
      var n := |a| - 1;
      assert multiset(a) == multiset(a[..n]) + multiset{a[n]} by {
        assert a == a[..n] + [a[n]];
      }
      var rest := SumOfRemove(b, a[n], f);
      assert multiset(a[..n]) == multiset(a) - multiset{a[n]} == multiset(rest);
      SumOfPermutation(a[..n], rest, f);
    }
  }

  /** The steps that are measured. */
  ghost function MeasuredSteps(c: Config, steps: seq<Step>): set<int> {
    set k | 0 <= k < |steps| && Counts(c, steps[..k], steps[k])
  }

  /** Those of them that report an error. */
  ghost function FailedSteps(c: Config, steps: seq<Step>): set<int> {
    set k | 0 <= k < |steps| && Counts(c, steps[..k], steps[k]) && steps[k].isErr
  }

  lemma StepsSnoc(c: Config, steps: seq<Step>, last: Step)
    ensures MeasuredSteps(c, steps + [last]) ==
            MeasuredSteps(c, steps) + if Counts(c, steps, last) then {|steps|} else {}
    ensures FailedSteps(c, steps + [last]) ==
            FailedSteps(c, steps) + if Counts(c, steps, last) && last.isErr then {|steps|} else {}
  {
    var all := steps + [last];
    assert all[..|steps|] == steps;
    assert forall k | 0 <= k < |steps| :: all[..k] == steps[..k] && all[k] == steps[k];
  }

  lemma SumOfSnoc(obs: seq<Obs>, o: Obs, f: Obs -> int)
    ensures SumOf(obs + [o], f) == SumOf(obs, f) + f(o)
  {
    assert (obs + [o])[..|obs|] == obs;
  }

  lemma MeasuredCount(c: Config, steps: seq<Step>, last: Step)
    ensures |Completions(c, steps + [last])| - |Completions(c, steps)| ==
            |MeasuredSteps(c, steps + [last])| - |MeasuredSteps(c, steps)|
  {
    StepsSnoc(c, steps, last);
    Unfold(c, steps, last, 0);
  }

  lemma FailedCount(c: Config, steps: seq<Step>, last: Step)
    ensures SumOf(Completions(c, steps + [last]), ErrorOf()) - SumOf(Completions(c, steps), ErrorOf()) ==
            |FailedSteps(c, steps + [last])| - |FailedSteps(c, steps)|
  {
    StepsSnoc(c, steps, last);
    Unfold(c, steps, last, 0);
    if Counts(c, steps, last) {
      SumOfSnoc(Completions(c, steps), Observed(c, steps, last), ErrorOf());
    } else {
      assert Completions(c, steps) + [] == Completions(c, steps);
    }
  }

  lemma {:induction false} CompletionsCount(c: Config, steps: seq<Step>)
    ensures |Completions(c, steps)| == |MeasuredSteps(c, steps)|
    ensures SumOf(Completions(c, steps), ErrorOf()) == |FailedSteps(c, steps)|
  {
    if steps == [] {
      assert MeasuredSteps(c, steps) == {} && FailedSteps(c, steps) == {};
    } else {
      var front, last := steps[..|steps| - 1], steps[|steps| - 1];
      CompletionsCount(c, front);
      MeasuredCount(c, front, last);
      FailedCount(c, front, last);
      assert front + [last] == steps;
    }
  }

  lemma {:induction false} CompletionsFrom(c: Config, steps: seq<Step>, o: Obs)
    ensures o in Completions(c, steps) <==>
            exists k :: k in MeasuredSteps(c, steps) && o == Observed(c, steps[..k], steps[k])
  {
    if steps != [] {
      var front, last := steps[..|steps| - 1], steps[|steps| - 1];
      assert steps == front + [last];
      CompletionsFrom(c, front, o);
      StepsSnoc(c, front, last);
      forall k | k in MeasuredSteps(c, front) ensures steps[..k] == front[..k] && steps[k] == front[k] {
      }
    }
  }

  /** What the report of a finished run counts. The measured operations are exactly the completions
      of operations dispatched after warmup in a run not yet cancelled, each with the times and the
      outcome of its own steps; the total and the errors are numbers of such steps. */
  lemma {:induction false} ReportCountsSteps(c: Config, steps: seq<Step>, s: State)
    requires Reaches(c, steps, s) && Quiet(s.ops)
    ensures forall o :: o in Measured(s.ops) <==>
                        exists k :: k in MeasuredSteps(c, steps) && o == Observed(c, steps[..k], steps[k])
    ensures s.acc.total == |MeasuredSteps(c, steps)| && s.acc.errors == |FailedSteps(c, steps)|
    ensures var m := Completions(c, steps);
            && s.acc.records == SumOf(m, TouchedOf())
            && s.acc.latenessSum == SumOf(m, LatenessOf()) && s.acc.serviceSum == SumOf(m, ServiceOf())
  {
    var m := Completions(c, steps);
    MeasuredAreCompletions(c, steps, s);
    TalliesExact(c, steps, s);
    CompletionsCount(c, steps);
    assert |Measured(s.ops)| == |multiset(m)| == |m|;
    SumOfPermutation(Measured(s.ops), m, ErrorOf());
    SumOfPermutation(Measured(s.ops), m, TouchedOf());
    SumOfPermutation(Measured(s.ops), m, LatenessOf());
    SumOfPermutation(Measured(s.ops), m, ServiceOf());
    forall o ensures o in Measured(s.ops) <==>
                     exists k :: k in MeasuredSteps(c, steps) && o == Observed(c, steps[..k], steps[k])
    {
      CompletionsFrom(c, steps, o);
      assert o in Measured(s.ops) <==> o in multiset(Measured(s.ops));
      assert o in m <==> o in multiset(m);
    }
  }
}

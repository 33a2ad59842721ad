/** The runner's lock-free accumulator as a machine of atomic steps.

    Every operation is a process of its own: it claims an index, waits, executes and is observed,
    one atomic action at a time. Any number of them may be under way, so every interleaving of any
    number of workers is a run of this machine. */
module Runner {
  import opened Arith
  import opened Schedule

  const MAX_INT64: int := 0x7fff_ffff_ffff_ffff
  const MIN_INT64: int := -0x8000_0000_0000_0000

  /** One measured operation. */
  datatype Obs = Obs(index: int, intended: int, dispatch: int, done: int, isErr: bool, rows: int)

  /** Where an observation stands: the next atomic action it takes. The two compare-and-swap
      loops alternate between loading and swapping the value they saw. */
  datatype Pc = AtSink | AtTotal | AtOutcome | AtLateness | AtService
              | AtMin | AtMinSwap(seen: int) | AtMax | AtMaxSwap(seen: int) | Finished

  function Rank(pc: Pc): nat {
    match pc
    case AtSink => 0
    case AtTotal => 1
    case AtOutcome => 2
    case AtLateness => 3
    case AtService => 4
    case AtMin => 5
    case AtMinSwap(_) => 5
    case AtMax => 6
    case AtMaxSwap(_) => 6
    case Finished => 7
  }

  datatype Op = Claimed(intended: int)
              | Executing(intended: int, dispatch: int)
              | Observing(o: Obs, pc: Pc)
              | Discarded

  /** The shared tallies; `sunk` and `sunkLatency` are what the latency sinks received. */
  datatype Acc = Acc(
    total: int, errors: int, records: int, latenessSum: int, serviceSum: int,
    minIntended: int, maxIntended: int, sunk: int, sunkLatency: int)

  /** Every scheduler with an arrival plan hands out a time that depends on the claimed index alone;
      the closed loop hands out the current time. */
  datatype Scheduler = Planned(at: int -> int) | Closed

  /** The constant-rate plan. */
  function OpenLoopAt(start: int, ops: int): int -> int {
    (n: int) => start + OffsetFor(n, ops)
  }

  /** The plan of a stepped ramp. */
  function RampAt(start: int, u: seq<RateStep>): int -> int
    requires AllUsable(u) && u != []
  {
    (n: int) => if n >= 0 then start + OffsetAt(u, n) else start
  }

  datatype Config = Config(sched: Scheduler, warmupEnd: int)

  /** `ops[i]` is the operation that claimed index i. */
  datatype State = State(now: int, cancelled: bool, acc: Acc, ops: seq<Op>)

  const START := State(0, false, Acc(0, 0, 0, 0, 0, MAX_INT64, MIN_INT64, 0, 0), [])

  datatype Step = Tick(dt: nat) | Cancel | Claim | Dispatch(i: nat) | Abandon(i: nat)
                | Complete(i: nat, isErr: bool, rows: int) | Advance(i: nat)

  predicate Enabled(s: State, step: Step) {
    match step
    case Tick(_) => true
    case Cancel => true
    case Claim => true
    case Dispatch(i) => i < |s.ops| && s.ops[i].Claimed? && s.now >= s.ops[i].intended
    case Abandon(i) => i < |s.ops| && s.ops[i].Claimed? && s.cancelled
    case Complete(i, _, _) => i < |s.ops| && s.ops[i].Executing?
    case Advance(i) => i < |s.ops| && s.ops[i].Observing? && s.ops[i].pc != Finished
  }

  function Intended(sched: Scheduler, now: int, index: int): int {
    match sched
    case Planned(at) => at(index)
    case Closed => now
  }

  function Lateness(o: Obs): int {
    if o.dispatch - o.intended < 0 then 0 else o.dispatch - o.intended
  }

  function Service(o: Obs): int {
    if o.done - o.dispatch > 0 then o.done - o.dispatch else 0
  }

  function Touched(o: Obs): int {
    if o.isErr then 0 else if o.rows < 1 then 1 else o.rows
  }

  /** One atomic action of an observation. */
  function Act(acc: Acc, o: Obs, pc: Pc): (Acc, Pc)
    requires pc != Finished
  {
    match pc
    case AtSink => (acc.(sunk := acc.sunk + 1, sunkLatency := acc.sunkLatency + (o.done - o.intended)), AtTotal)
    case AtTotal => (acc.(total := acc.total + 1), AtOutcome)
    case AtOutcome =>
      (if o.isErr then acc.(errors := acc.errors + 1) else acc.(records := acc.records + Touched(o)), AtLateness)
    case AtLateness => (acc.(latenessSum := acc.latenessSum + Lateness(o)), AtService)
    case AtService => (acc.(serviceSum := acc.serviceSum + Service(o)), AtMin)
    case AtMin => (acc, if acc.minIntended <= o.intended then AtMax else AtMinSwap(acc.minIntended))
    case AtMinSwap(seen) =>
      if acc.minIntended == seen then (acc.(minIntended := o.intended), AtMax) else (acc, AtMin)
    case AtMax => (acc, if acc.maxIntended >= o.intended then Finished else AtMaxSwap(acc.maxIntended))
    case AtMaxSwap(seen) =>
      if acc.maxIntended == seen then (acc.(maxIntended := o.intended), Finished) else (acc, AtMax)
  }

  function Apply(c: Config, s: State, step: Step): State
    requires Enabled(s, step)
  {
    match step
    case Tick(dt) => s.(now := s.now + dt)
    case Cancel => s.(cancelled := true)
    case Claim => s.(ops := s.ops + [Claimed(Intended(c.sched, s.now, |s.ops|))])
    case Dispatch(i) => s.(ops := s.ops[i := Executing(s.ops[i].intended, s.now)])
    case Abandon(i) => s.(ops := s.ops[i := Discarded])
    case Complete(i, isErr, rows) =>
      var e := s.ops[i];
      if s.cancelled || e.dispatch < c.warmupEnd then s.(ops := s.ops[i := Discarded])
      else s.(ops := s.ops[i := Observing(Obs(i, e.intended, e.dispatch, s.now, isErr, rows), AtSink)])
    case Advance(i) =>
      var (acc, pc) := Act(s.acc, s.ops[i].o, s.ops[i].pc);
      s.(acc := acc, ops := s.ops[i := Observing(s.ops[i].o, pc)])
  }

  // ----- counting contributions

  /** What an operation has put into the tally that is updated at rank `stage`. */
  function Contribution(op: Op, stage: nat, f: Obs -> int): int {
    if op.Observing? && Rank(op.pc) > stage then f(op.o) else 0
  }

  function Tally(ops: seq<Op>, stage: nat, f: Obs -> int): int {
    if ops == [] then 0 else Tally(ops[..|ops| - 1], stage, f) + Contribution(ops[|ops| - 1], stage, f)
  }

  lemma TallySnoc(ops: seq<Op>, op: Op, stage: nat, f: Obs -> int)
    ensures Tally(ops + [op], stage, f) == Tally(ops, stage, f) + Contribution(op, stage, f)
  {
    assert (ops + [op])[..|ops|] == ops;
  }

  lemma {:induction false} TallyUpdate(ops: seq<Op>, i: nat, op: Op, stage: nat, f: Obs -> int)
    requires i < |ops|
    ensures Tally(ops[i := op], stage, f) ==
            Tally(ops, stage, f) - Contribution(ops[i], stage, f) + Contribution(op, stage, f)
  {
    var last := |ops| - 1;
    if i < last {
      TallyUpdate(ops[..last], i, op, stage, f);
      assert ops[i := op][..last] == ops[..last][i := op];
    } else {
      assert ops[i := op][..last] == ops[..last];
    }
  }

  function One(): Obs -> int { (o: Obs) => 1 }
  function ErrorOf(): Obs -> int { (o: Obs) => if o.isErr then 1 else 0 }
  function TouchedOf(): Obs -> int { (o: Obs) => if o.isErr then 0 else if o.rows > 1 then o.rows else 1 }
  function LatenessOf(): Obs -> int { (o: Obs) => o.dispatch - o.intended }
  function ServiceOf(): Obs -> int { (o: Obs) => o.done - o.dispatch }
  function LatencyOf(): Obs -> int { (o: Obs) => o.done - o.intended }

  /** Every shared sum holds exactly the contributions of the observations past its update. */
  ghost predicate Sums(acc: Acc, ops: seq<Op>) {
    && acc.sunk == Tally(ops, 0, One())
    && acc.sunkLatency == Tally(ops, 0, LatencyOf())
    && acc.total == Tally(ops, 1, One())
    && acc.errors == Tally(ops, 2, ErrorOf())
    && acc.records == Tally(ops, 2, TouchedOf())
    && acc.latenessSum == Tally(ops, 3, LatenessOf())
    && acc.serviceSum == Tally(ops, 4, ServiceOf())
  }

  ghost predicate Past(op: Op, stage: nat) {
    op.Observing? && Rank(op.pc) > stage
  }

  /** The two extremes bound every observation past their loop and come from some observation. */
  ghost predicate Extremes(acc: Acc, ops: seq<Op>) {
    && (forall i | 0 <= i < |ops| && Past(ops[i], 5) :: acc.minIntended <= ops[i].o.intended)
    && (forall i | 0 <= i < |ops| && Past(ops[i], 6) :: acc.maxIntended >= ops[i].o.intended)
    && (acc.minIntended == MAX_INT64 ||
        exists i :: 0 <= i < |ops| && Past(ops[i], 5) && ops[i].o.intended == acc.minIntended)
    && (acc.maxIntended == MIN_INT64 ||
        exists i :: 0 <= i < |ops| && Past(ops[i], 6) && ops[i].o.intended == acc.maxIntended)
  }

  ghost predicate SeenBound(op: Op) {
    op.Observing? ==>
      && (op.pc.AtMinSwap? ==> op.o.intended < op.pc.seen)
      && (op.pc.AtMaxSwap? ==> op.o.intended > op.pc.seen)
  }

  /** Times are in order: intended, then dispatched, then done; and a plan fixes the first. */
  ghost predicate OnTime(c: Config, now: int, i: nat, op: Op) {
    match op
    case Claimed(intended) => c.sched.Planned? ==> intended == Intended(c.sched, now, i)
    case Executing(intended, dispatch) =>
      intended <= dispatch <= now && (c.sched.Planned? ==> intended == Intended(c.sched, now, i))
    case Observing(o, _) =>
      && o.intended <= o.dispatch <= o.done && o.dispatch >= c.warmupEnd && o.index == i
      && (c.sched.Planned? ==> o.intended == Intended(c.sched, now, i))
    case Discarded => true
  }

  ghost predicate Inv(c: Config, s: State) {
    && Sums(s.acc, s.ops)
    && Extremes(s.acc, s.ops)
    && (forall i | 0 <= i < |s.ops| :: OnTime(c, s.now, i, s.ops[i]) && SeenBound(s.ops[i]))
  }

  // ----- every step keeps the invariant

  lemma SumsReplace(acc: Acc, acc': Acc, ops: seq<Op>, i: nat, op: Op)
    requires i < |ops| && Sums(acc, ops)
    requires acc'.sunk - acc.sunk == Contribution(op, 0, One()) - Contribution(ops[i], 0, One())
    requires acc'.sunkLatency - acc.sunkLatency ==
             Contribution(op, 0, LatencyOf()) - Contribution(ops[i], 0, LatencyOf())
    requires acc'.total - acc.total == Contribution(op, 1, One()) - Contribution(ops[i], 1, One())
    requires acc'.errors - acc.errors == Contribution(op, 2, ErrorOf()) - Contribution(ops[i], 2, ErrorOf())
    requires acc'.records - acc.records == Contribution(op, 2, TouchedOf()) - Contribution(ops[i], 2, TouchedOf())
    requires acc'.latenessSum - acc.latenessSum ==
             Contribution(op, 3, LatenessOf()) - Contribution(ops[i], 3, LatenessOf())
    requires acc'.serviceSum - acc.serviceSum == Contribution(op, 4, ServiceOf()) - Contribution(ops[i], 4, ServiceOf())
    ensures Sums(acc', ops[i := op])
  {
    TallyUpdate(ops, i, op, 0, One());
    TallyUpdate(ops, i, op, 0, LatencyOf());
    TallyUpdate(ops, i, op, 1, One());
    TallyUpdate(ops, i, op, 2, ErrorOf());
    TallyUpdate(ops, i, op, 2, TouchedOf());
    TallyUpdate(ops, i, op, 3, LatenessOf());
    TallyUpdate(ops, i, op, 4, ServiceOf());
  }

  lemma SumsClaim(acc: Acc, ops: seq<Op>, op: Op)
    requires Sums(acc, ops) && op.Claimed?
    ensures Sums(acc, ops + [op])
  {
    TallySnoc(ops, op, 0, One());
    TallySnoc(ops, op, 0, LatencyOf());
    TallySnoc(ops, op, 1, One());
    TallySnoc(ops, op, 2, ErrorOf());
    TallySnoc(ops, op, 2, TouchedOf());
    TallySnoc(ops, op, 3, LatenessOf());
    TallySnoc(ops, op, 4, ServiceOf());
  }

  /** Replacing an operation that is past neither loop by another such leaves the extremes alone. */
  lemma ExtremesReplace(acc: Acc, ops: seq<Op>, i: nat, op: Op)
    requires i < |ops| && Extremes(acc, ops)
    requires Past(ops[i], 5) <==> Past(op, 5)
    requires Past(ops[i], 6) <==> Past(op, 6)
    requires Past(op, 5) ==> op.o == ops[i].o
    ensures Extremes(acc, ops[i := op])
  {
    var ops' := ops[i := op];
    if acc.minIntended != MAX_INT64 {
      var j :| 0 <= j < |ops| && Past(ops[j], 5) && ops[j].o.intended == acc.minIntended;
      assert Past(ops'[j], 5) && ops'[j].o.intended == acc.minIntended;
    }
    if acc.maxIntended != MIN_INT64 {
      var j :| 0 <= j < |ops| && Past(ops[j], 6) && ops[j].o.intended == acc.maxIntended;
      assert Past(ops'[j], 6) && ops'[j].o.intended == acc.maxIntended;
    }
  }

  /** Leaving the minimum loop, by an early exit or by a successful swap. */
  lemma ExtremesMin(acc: Acc, ops: seq<Op>, i: nat, o: Obs, low: int)
    requires i < |ops| && Extremes(acc, ops) && ops[i].Observing? && ops[i].o == o && Rank(ops[i].pc) == 5
    requires low <= acc.minIntended && low <= o.intended && (low == acc.minIntended || low == o.intended)
    ensures Extremes(acc.(minIntended := low), ops[i := Observing(o, AtMax)])
  {
    var ops' := ops[i := Observing(o, AtMax)];
    if low == o.intended {
      assert Past(ops'[i], 5) && ops'[i].o.intended == low;
    } else if low != MAX_INT64 {
      var j :| 0 <= j < |ops| && Past(ops[j], 5) && ops[j].o.intended == acc.minIntended;
      assert Past(ops'[j], 5) && ops'[j].o.intended == low;
    }
    if acc.maxIntended != MIN_INT64 {
      var j :| 0 <= j < |ops| && Past(ops[j], 6) && ops[j].o.intended == acc.maxIntended;
      assert Past(ops'[j], 6) && ops'[j].o.intended == acc.maxIntended;
    }
  }

  lemma ExtremesMax(acc: Acc, ops: seq<Op>, i: nat, o: Obs, high: int)
    requires i < |ops| && Extremes(acc, ops) && ops[i].Observing? && ops[i].o == o && Rank(ops[i].pc) == 6
    requires high >= acc.maxIntended && high >= o.intended && (high == acc.maxIntended || high == o.intended)
    ensures Extremes(acc.(maxIntended := high), ops[i := Observing(o, Finished)])
  {
    var ops' := ops[i := Observing(o, Finished)];
    if acc.minIntended != MAX_INT64 {
      var j :| 0 <= j < |ops| && Past(ops[j], 5) && ops[j].o.intended == acc.minIntended;
      assert Past(ops'[j], 5) && ops'[j].o.intended == acc.minIntended;
    }
    if high == o.intended {
      assert Past(ops'[i], 6) && ops'[i].o.intended == high;
    } else if high != MIN_INT64 {
      var j :| 0 <= j < |ops| && Past(ops[j], 6) && ops[j].o.intended == acc.maxIntended;
      assert Past(ops'[j], 6) && ops'[j].o.intended == high;
    }
  }

  lemma ExtremesClaim(acc: Acc, ops: seq<Op>, op: Op)
    requires Extremes(acc, ops) && op.Claimed?
    ensures Extremes(acc, ops + [op])
  {
    var ops' := ops + [op];
    if acc.minIntended != MAX_INT64 {
      var j :| 0 <= j < |ops| && Past(ops[j], 5) && ops[j].o.intended == acc.minIntended;
      assert Past(ops'[j], 5) && ops'[j].o.intended == acc.minIntended;
    }
    if acc.maxIntended != MIN_INT64 {
      var j :| 0 <= j < |ops| && Past(ops[j], 6) && ops[j].o.intended == acc.maxIntended;
      assert Past(ops'[j], 6) && ops'[j].o.intended == acc.maxIntended;
    }
  }

  /** An atomic action keeps the sums exact and the extremes right, whatever the others do
      between the load and the swap of a compare-and-swap loop. */
  lemma AdvanceKeeps(acc: Acc, ops: seq<Op>, i: nat)
    requires i < |ops| && Sums(acc, ops) && Extremes(acc, ops)
    requires ops[i].Observing? && ops[i].pc != Finished && SeenBound(ops[i])
    requires ops[i].o.intended <= ops[i].o.dispatch <= ops[i].o.done
    ensures var (acc', pc') := Act(acc, ops[i].o, ops[i].pc);
            var op' := Observing(ops[i].o, pc');
            Sums(acc', ops[i := op']) && Extremes(acc', ops[i := op']) && SeenBound(op')
  {
    var o, pc := ops[i].o, ops[i].pc;
    var (acc', pc') := Act(acc, o, pc);
    var op' := Observing(o, pc');
    SumsReplace(acc, acc', ops, i, op');
    if Rank(pc') == 6 && Rank(pc) == 5 {
      ExtremesMin(acc, ops, i, o, acc'.minIntended);
    } else if pc' == Finished {
      ExtremesMax(acc, ops, i, o, acc'.maxIntended);
    } else {
      ExtremesReplace(acc, ops, i, op');
      ExtremesFrame(acc, acc', ops[i := op']);
    }
  }

  lemma ExtremesFrame(acc: Acc, acc': Acc, ops: seq<Op>)
    requires Extremes(acc, ops) && acc'.minIntended == acc.minIntended && acc'.maxIntended == acc.maxIntended
    ensures Extremes(acc', ops)
  {
  }

  /** Replacing an operation that has contributed nothing yet by another such. */
  lemma QuietReplace(acc: Acc, ops: seq<Op>, i: nat, op: Op)
    requires i < |ops| && Sums(acc, ops) && Extremes(acc, ops)
    requires !Past(ops[i], 0) && !Past(op, 0)
    ensures Sums(acc, ops[i := op]) && Extremes(acc, ops[i := op])
  {
    SumsReplace(acc, acc, ops, i, op);
    ExtremesReplace(acc, ops, i, op);
  }

  lemma {:induction false} StepKeepsInv(c: Config, s: State, step: Step)
    requires Inv(c, s) && Enabled(s, step)
    ensures Inv(c, Apply(c, s, step))
  {
    var s' := Apply(c, s, step);
    match step {
      case Tick(_) =>
      case Cancel =>
      case Claim =>
        var op := Claimed(Intended(c.sched, s.now, |s.ops|));
        SumsClaim(s.acc, s.ops, op);
        ExtremesClaim(s.acc, s.ops, op);
      case Dispatch(i) => QuietReplace(s.acc, s.ops, i, s'.ops[i]);
      case Abandon(i) => QuietReplace(s.acc, s.ops, i, s'.ops[i]);
      case Complete(i, _, _) => QuietReplace(s.acc, s.ops, i, s'.ops[i]);
      case Advance(i) =>
        assert OnTime(c, s.now, i, s.ops[i]);
        AdvanceKeeps(s.acc, s.ops, i);
    }
    forall j | 0 <= j < |s'.ops| ensures OnTime(c, s'.now, j, s'.ops[j]) && SeenBound(s'.ops[j]) {
      StepKeepsOp(c, s, step, j);
    }
  }

  lemma StepKeepsOp(c: Config, s: State, step: Step, j: nat)
    requires Inv(c, s) && Enabled(s, step) && j < |Apply(c, s, step).ops|
    ensures var s' := Apply(c, s, step); OnTime(c, s'.now, j, s'.ops[j]) && SeenBound(s'.ops[j])
  {
    if step.Advance? && step.i == j {
      assert SeenBound(s.ops[j]);
    }
  }

  /** The states that some interleaving reaches. */
  ghost predicate Reaches(c: Config, steps: seq<Step>, s: State) {
    if steps == [] then s == START
    else
      var last := steps[|steps| - 1];
      exists before :: Reaches(c, steps[..|steps| - 1], before) && Enabled(before, last) && s == Apply(c, before, last)
  }

  lemma {:induction false} ReachableInv(c: Config, steps: seq<Step>, s: State)
    requires Reaches(c, steps, s)
    ensures Inv(c, s)
  {
    if steps != [] {
      var last := steps[|steps| - 1];
      var before :| Reaches(c, steps[..|steps| - 1], before) && Enabled(before, last) && s == Apply(c, before, last);
      ReachableInv(c, steps[..|steps| - 1], before);
      StepKeepsInv(c, before, last);
    }
  }

  // ----- what the tallies are once the workers have returned

  /** No observation is left half done. */
  ghost predicate Quiet(ops: seq<Op>) {
    forall i | 0 <= i < |ops| :: ops[i].Observing? ==> ops[i].pc == Finished
  }

  /** The measured operations, in index order. */
  function Measured(ops: seq<Op>): seq<Obs> {
    if ops == [] then [] else
    var last := ops[|ops| - 1];
    Measured(ops[..|ops| - 1]) + if last.Observing? then [last.o] else []
  }

  function SumOf(obs: seq<Obs>, f: Obs -> int): int {
    if obs == [] then 0 else SumOf(obs[..|obs| - 1], f) + f(obs[|obs| - 1])
  }

  lemma {:induction false} QuietTally(ops: seq<Op>, stage: nat, f: Obs -> int)
    requires Quiet(ops) && stage < 7
    ensures Tally(ops, stage, f) == SumOf(Measured(ops), f)
  {
    if ops != [] {
      var front, last := ops[..|ops| - 1], ops[|ops| - 1];
      QuietTally(front, stage, f);
      if last.Observing? {
        assert (Measured(front) + [last.o])[..|Measured(front)|] == Measured(front);
      } else {
        assert Measured(front) + [] == Measured(front);
      }
    }
  }

  lemma {:induction false} SumOfOnes(obs: seq<Obs>)
    ensures SumOf(obs, One()) == |obs|
  {
    if obs != [] {
      SumOfOnes(obs[..|obs| - 1]);
    }
  }

  lemma {:induction false} MeasuredFrom(ops: seq<Op>, o: Obs)
    ensures o in Measured(ops) <==> exists i :: 0 <= i < |ops| && ops[i].Observing? && ops[i].o == o
  {
    if ops != [] {
      var front, last := ops[..|ops| - 1], ops[|ops| - 1];
      MeasuredFrom(front, o);
      if o in Measured(front) {
        var i :| 0 <= i < |front| && front[i].Observing? && front[i].o == o;
        assert ops[i] == front[i];
      }
      if i :| 0 <= i < |ops| && ops[i].Observing? && ops[i].o == o {
        if i < |front| {
          assert front[i] == ops[i];
        }
      }
    }
  }

  /** Latency splits into lateness and service, operation by operation. */
  lemma {:induction false} LatencySplits(obs: seq<Obs>)
    ensures SumOf(obs, LatencyOf()) == SumOf(obs, LatenessOf()) + SumOf(obs, ServiceOf())
  {
    if obs != [] {
      LatencySplits(obs[..|obs| - 1]);
    }
  }

  /** Exact tallies and coordinated-omission conservation: after any interleaving, once no
      observation is under way, every sum is exact and the latencies given to the sinks add up to
      the lateness and the service time. Nothing dispatched during warmup is among them. */
  lemma {:induction false} TalliesExact(c: Config, steps: seq<Step>, s: State)
    requires Reaches(c, steps, s) && Quiet(s.ops)
    ensures var m := Measured(s.ops);
            && s.acc.total == s.acc.sunk == |m|
            && s.acc.errors == SumOf(m, ErrorOf()) && s.acc.records == SumOf(m, TouchedOf())
            && s.acc.latenessSum == SumOf(m, LatenessOf()) && s.acc.serviceSum == SumOf(m, ServiceOf())
            && s.acc.sunkLatency == SumOf(m, LatencyOf()) == s.acc.latenessSum + s.acc.serviceSum
            && (forall o | o in m :: c.warmupEnd <= o.dispatch <= o.done)
  {
    ReachableInv(c, steps, s);
    var m := Measured(s.ops);
    QuietTally(s.ops, 0, One());
    QuietTally(s.ops, 0, LatencyOf());
    QuietTally(s.ops, 1, One());
    QuietTally(s.ops, 2, ErrorOf());
    QuietTally(s.ops, 2, TouchedOf());
    QuietTally(s.ops, 3, LatenessOf());
    QuietTally(s.ops, 4, ServiceOf());
    SumOfOnes(m);
    forall o | o in m ensures o.intended <= o.dispatch <= o.done && c.warmupEnd <= o.dispatch {
      MeasuredFrom(s.ops, o);
      var i :| 0 <= i < |s.ops| && s.ops[i].Observing? && s.ops[i].o == o;
      assert OnTime(c, s.now, i, s.ops[i]);
    }
    LatencySplits(m);
  }

  /** The two compare-and-swap loops end on the least and the greatest intended start. */
  lemma {:induction false} ExtremesExact(c: Config, steps: seq<Step>, s: State)
    requires Reaches(c, steps, s) && Quiet(s.ops) && Measured(s.ops) != []
    requires forall o | o in Measured(s.ops) :: MIN_INT64 <= o.intended <= MAX_INT64
    ensures forall o | o in Measured(s.ops) :: s.acc.minIntended <= o.intended <= s.acc.maxIntended
    ensures exists o :: o in Measured(s.ops) && o.intended == s.acc.minIntended
    ensures exists o :: o in Measured(s.ops) && o.intended == s.acc.maxIntended
  {
    ReachableInv(c, steps, s);
    var m := Measured(s.ops);
    forall o | o in m ensures s.acc.minIntended <= o.intended <= s.acc.maxIntended {
      MeasuredFrom(s.ops, o);
      var i :| 0 <= i < |s.ops| && s.ops[i].Observing? && s.ops[i].o == o;
      assert Past(s.ops[i], 5) && Past(s.ops[i], 6);
    }
    var first := m[0];
    assert first in m;
    if s.acc.minIntended == MAX_INT64 {
      assert first.intended == s.acc.minIntended;
    } else {
      var i :| 0 <= i < |s.ops| && Past(s.ops[i], 5) && s.ops[i].o.intended == s.acc.minIntended;
      MeasuredFrom(s.ops, s.ops[i].o);
    }
    if s.acc.maxIntended == MIN_INT64 {
      assert first.intended == s.acc.maxIntended;
    } else {
      var i :| 0 <= i < |s.ops| && Past(s.ops[i], 6) && s.ops[i].o.intended == s.acc.maxIntended;
      MeasuredFrom(s.ops, s.ops[i].o);
    }
  }

  // ----- the mean inter-arrival

  function MeanInterArrival(acc: Acc, total: int): int {
    if total < 2 then 0
    else
      var span := acc.maxIntended - acc.minIntended;
      if span <= 0 then 0 else span / (total - 1)
  }

  /** Measured indices are distinct, so the first and the last are at least |m| - 1 apart. */
  lemma {:induction false} IndexSpread(ops: seq<Op>)
    requires forall i | 0 <= i < |ops| && ops[i].Observing? :: ops[i].o.index == i
    ensures forall k | 0 <= k < |Measured(ops)| :: 0 <= Measured(ops)[k].index < |ops|
    ensures var m := Measured(ops); m != [] ==> m[|m| - 1].index - m[0].index >= |m| - 1
  {
    if ops != [] {
      IndexSpread(ops[..|ops| - 1]);
    }
  }

  lemma MeanAtLeast(span: int, n: int, gap: int, step: int)
    requires n >= 1 && gap >= n && step >= 0 && span >= gap * step
    ensures (if span <= 0 then 0 else span / n) >= step
  {
    if step > 0 {
      MulStrict(n, gap, step);
      MulStrict(1, n, step);
      DivBelow(span, n, step);
    } else if span > 0 {
      DivMono(0, span, n);
      DivUnique(0, n, 0);
    }
  }

  lemma IntendedOf(c: Config, s: State, o: Obs)
    requires Inv(c, s) && c.sched.Planned? && o in Measured(s.ops)
    ensures o.index >= 0 && o.intended == c.sched.at(o.index)
  {
    MeasuredFrom(s.ops, o);
    var i :| 0 <= i < |s.ops| && s.ops[i].Observing? && s.ops[i].o == o;
    assert OnTime(c, s.now, i, s.ops[i]);
  }

  lemma IndexedByPosition(c: Config, s: State)
    requires Inv(c, s)
    ensures forall i | 0 <= i < |s.ops| && s.ops[i].Observing? :: s.ops[i].o.index == i
  {
    forall i | 0 <= i < |s.ops| && s.ops[i].Observing? ensures s.ops[i].o.index == i {
      assert OnTime(c, s.now, i, s.ops[i]);
    }
  }

  /** Arrivals of the plan are on average at least `step` apart, over every stretch of it. */
  ghost predicate Spaced(at: int -> int, step: int) {
    step >= 0 && forall a, b | 0 <= a <= b :: at(b) - at(a) >= (b - a) * step
  }

  lemma OpenLoopSpaced(start: int, ops: int)
    requires ops > 0
    ensures Spaced(OpenLoopAt(start, ops), 1_000_000_000 / ops)
  {
    QuoOfNat(1_000_000_000, ops);
    forall a, b | 0 <= a <= b
      ensures OpenLoopAt(start, ops)(b) - OpenLoopAt(start, ops)(a) >= (b - a) * (1_000_000_000 / ops)
    {
      OffsetGap(a, b, ops);
    }
  }

  lemma {:induction false} StepsAddUp(at: int -> int, step: int, a: int, b: int)
    requires 0 <= a <= b && forall n | 0 <= n :: at(n + 1) - at(n) >= step
    ensures at(b) - at(a) >= (b - a) * step
    decreases b
  {
    if a < b {
      StepsAddUp(at, step, a, b - 1);
      assert at(b - 1 + 1) - at(b - 1) >= step;
      assert (b - a) * step == (b - 1 - a) * step + step;
    }
  }

  lemma RampSpaced(start: int, u: seq<RateStep>)
    requires AllUsable(u) && u != []
    ensures Spaced(RampAt(start, u), 1_000_000_000 / MaxRate(u))
  {
    var at, step := RampAt(start, u), 1_000_000_000 / MaxRate(u);
    QuoOfNat(1_000_000_000, MaxRate(u));
    forall n | 0 <= n ensures at(n + 1) - at(n) >= step {
      RampStep(u, n);
    }
    forall a, b | 0 <= a <= b ensures at(b) - at(a) >= (b - a) * step {
      StepsAddUp(at, step, a, b);
    }
  }

  lemma MeasuredSpread(c: Config, s: State, step: int) returns (gap: int)
    requires Inv(c, s) && c.sched.Planned? && Spaced(c.sched.at, step) && Measured(s.ops) != []
    ensures gap >= |Measured(s.ops)| - 1
    ensures var m := Measured(s.ops); m[|m| - 1].intended - m[0].intended >= gap * step
  {
    var m := Measured(s.ops);
    var first, last := m[0], m[|m| - 1];
    assert first in m && last in m;
    IndexedByPosition(c, s);
    IndexSpread(s.ops);
    IntendedOf(c, s, first);
    IntendedOf(c, s, last);
    gap := last.index - first.index;
  }

  lemma SpanOfRun(c: Config, steps: seq<Step>, s: State, step: int) returns (gap: int)
    requires Reaches(c, steps, s) && Quiet(s.ops) && c.sched.Planned? && Spaced(c.sched.at, step)
    requires forall o | o in Measured(s.ops) :: MIN_INT64 <= o.intended <= MAX_INT64
    requires s.acc.total >= 2
    ensures gap >= s.acc.total - 1
    ensures s.acc.maxIntended - s.acc.minIntended >= gap * step
  {
    var m := Measured(s.ops);
    TalliesExact(c, steps, s);
    ExtremesExact(c, steps, s);
    ReachableInv(c, steps, s);
    gap := MeasuredSpread(c, s, step);
    assert m[0] in m && m[|m| - 1] in m;
  }

  /** Whatever subset of the operations was measured, the estimated gap is at least the spacing of
      the plan. */
  lemma {:induction false} MeanOfSpaced(c: Config, steps: seq<Step>, s: State, step: int)
    requires Reaches(c, steps, s) && Quiet(s.ops) && c.sched.Planned? && Spaced(c.sched.at, step)
    requires forall o | o in Measured(s.ops) :: MIN_INT64 <= o.intended <= MAX_INT64
    requires s.acc.total >= 2
    ensures MeanInterArrival(s.acc, s.acc.total) >= step
  {
    var gap := SpanOfRun(c, steps, s, step);
    MeanAtLeast(s.acc.maxIntended - s.acc.minIntended, s.acc.total - 1, gap, step);
  }

  /** In a constant-rate run the estimate is at least floor(1e9 / ops). */
  lemma {:induction false} MeanInterArrivalBound(c: Config, steps: seq<Step>, s: State, start: int, ops: int)
    requires Reaches(c, steps, s) && Quiet(s.ops) && ops > 0 && c.sched == Planned(OpenLoopAt(start, ops))
    requires forall o | o in Measured(s.ops) :: MIN_INT64 <= o.intended <= MAX_INT64
    requires s.acc.total >= 2
    ensures MeanInterArrival(s.acc, s.acc.total) >= 1_000_000_000 / ops
  {
    OpenLoopSpaced(start, ops);
    MeanOfSpaced(c, steps, s, 1_000_000_000 / ops);
  }

  /** In a run along a ramp it is at least floor(1e9 / greatest rate). */
  lemma {:induction false} RampMeanBound(c: Config, steps: seq<Step>, s: State, start: int, u: seq<RateStep>)
    requires Reaches(c, steps, s) && Quiet(s.ops) && AllUsable(u) && u != [] && c.sched == Planned(RampAt(start, u))
    requires forall o | o in Measured(s.ops) :: MIN_INT64 <= o.intended <= MAX_INT64
    requires s.acc.total >= 2
    ensures MeanInterArrival(s.acc, s.acc.total) >= 1_000_000_000 / MaxRate(u)
  {
    RampSpaced(start, u);
    MeanOfSpaced(c, steps, s, 1_000_000_000 / MaxRate(u));
  }

  /** The verdict that the load generator, not the target, was the limit. */
  function ClientBound(acc: Acc, latenessThreshold: int): bool {
    acc.total > 0 &&
    var threshold := if latenessThreshold <= 0 then MeanInterArrival(acc, acc.total) else latenessThreshold;
    var meanLateness, meanService := acc.latenessSum / acc.total, acc.serviceSum / acc.total;
    threshold > 0 && meanLateness > threshold && meanLateness > meanService && acc.errors * 20 < acc.total
  }

  ghost predicate MultipleBetween(y: int, n: int, x: int) {
    exists q :: y < q * n <= x
  }

  /** Of two floored quotients the first is greater when a multiple of the divisor lies between. */
  lemma FloorsApart(x: int, y: int, n: int)
    requires n > 0
    ensures x / n > y / n <==> MultipleBetween(y, n, x)
  {
    if x / n > y / n {
      DivBelow(y, n, y / n + 1);
      DivBelow(x, n, y / n + 1);
      assert y < (y / n + 1) * n <= x;
    }
    if q :| y < q * n <= x {
      DivBelow(x, n, q);
      DivBelow(y, n, q);
    }
  }

  /** `gap` is the mean distance of the measured arrivals, rounded down; zero below two of them. */
  ghost predicate IsMeanGap(m: seq<Obs>, gap: int) {
    if |m| < 2 then gap == 0
    else exists lo, hi ::
      Bracket(m, lo, hi) && Rounded(gap, hi.intended - lo.intended, |m| - 1)
  }

  ghost predicate Rounded(mean: int, sum: int, n: int) {
    mean * n <= sum < (mean + 1) * n
  }

  /** `lo` and `hi` are a first and a last arrival. */
  ghost predicate Bracket(m: seq<Obs>, lo: Obs, hi: Obs) {
    lo in m && hi in m && forall o | o in m :: lo.intended <= o.intended <= hi.intended
  }

  /** The measured operations were late by more than the threshold on average, and in whole
      nanoseconds by more than they took to serve, with fewer than one in twenty failing. */
  ghost predicate LateClient(m: seq<Obs>, threshold: int) {
    && threshold > 0
    && SumOf(m, LatenessOf()) >= (threshold + 1) * |m|
    && MultipleBetween(SumOf(m, ServiceOf()), |m|, SumOf(m, LatenessOf()))
    && SumOf(m, ErrorOf()) * 20 < |m|
  }

  lemma RoundedMean(span: int, n: int)
    requires n > 0 && span >= 0
    ensures Rounded(if span <= 0 then 0 else span / n, span, n)
  {
    if span > 0 {
      DivBelow(span, n, span / n);
      DivBelow(span, n, span / n + 1);
    }
  }

  lemma MeanGapFrom(acc: Acc, m: seq<Obs>, lo: Obs, hi: Obs)
    requires |m| >= 2 && Bracket(m, lo, hi) && acc.minIntended == lo.intended && acc.maxIntended == hi.intended
    ensures IsMeanGap(m, MeanInterArrival(acc, |m|))
  {
    RoundedMean(hi.intended - lo.intended, |m| - 1);
  }

  lemma MeanGapExact(c: Config, steps: seq<Step>, s: State)
    requires Reaches(c, steps, s) && Quiet(s.ops)
    requires forall o | o in Measured(s.ops) :: MIN_INT64 <= o.intended <= MAX_INT64
    ensures IsMeanGap(Measured(s.ops), MeanInterArrival(s.acc, s.acc.total))
  {
    TalliesExact(c, steps, s);
    var m := Measured(s.ops);
    if |m| >= 2 {
      ExtremesExact(c, steps, s);
      var lo :| lo in m && lo.intended == s.acc.minIntended;
      var hi :| hi in m && hi.intended == s.acc.maxIntended;
      MeanGapFrom(s.acc, m, lo, hi);
    }
  }

  lemma BlameOf(acc: Acc, m: seq<Obs>, latenessThreshold: int)
    requires acc.total == |m| > 0 && acc.errors == SumOf(m, ErrorOf())
    requires acc.latenessSum == SumOf(m, LatenessOf()) && acc.serviceSum == SumOf(m, ServiceOf())
    ensures ClientBound(acc, latenessThreshold) <==>
            LateClient(m, if latenessThreshold > 0 then latenessThreshold else MeanInterArrival(acc, |m|))
  {
    var threshold := if latenessThreshold > 0 then latenessThreshold else MeanInterArrival(acc, |m|);
    DivBelow(acc.latenessSum, |m|, threshold + 1);
    FloorsApart(acc.latenessSum, acc.serviceSum, |m|);
  }

  /** When a finished run is blamed on its client: exactly when its measured operations were late
      beyond the threshold, which by default is the mean distance of their arrivals. */
  lemma {:induction false} ClientBoundExactly(c: Config, steps: seq<Step>, s: State, latenessThreshold: int)
    requires Reaches(c, steps, s) && Quiet(s.ops)
    requires forall o | o in Measured(s.ops) :: MIN_INT64 <= o.intended <= MAX_INT64
    ensures exists gap :: IsMeanGap(Measured(s.ops), gap) &&
                          (ClientBound(s.acc, latenessThreshold) <==>
                           Measured(s.ops) != [] &&
                           LateClient(Measured(s.ops), if latenessThreshold > 0 then latenessThreshold else gap))
  {
    MeanGapExact(c, steps, s);
    TalliesExact(c, steps, s);
    var m, gap := Measured(s.ops), MeanInterArrival(s.acc, s.acc.total);
    if m != [] {
      BlameOf(s.acc, m, latenessThreshold);
    }
  }

  /** With the default threshold a run that is on average no later than the spacing of its plan is
      never blamed on the client. */
  lemma {:induction false} PunctualRunNotBlamed(c: Config, steps: seq<Step>, s: State, step: int)
    requires Reaches(c, steps, s) && Quiet(s.ops) && c.sched.Planned? && Spaced(c.sched.at, step)
    requires forall o | o in Measured(s.ops) :: MIN_INT64 <= o.intended <= MAX_INT64
    requires s.acc.total > 0 && s.acc.latenessSum / s.acc.total <= step
    ensures !ClientBound(s.acc, 0)
  {
    if s.acc.total >= 2 {
      MeanOfSpaced(c, steps, s, step);
    }
  }
}

/** `TakeInterval` against concurrent recording: the collector locks one Local at a time while the
    others go on recording, yet the deltas it hands out add up exactly. */
module Intervals {
  import opened Domain
  import opened Metrics
  import opened Sorting

  /** A Local and, for the proof, everything it has recorded. */
  datatype LocalState = LocalState(view: View, trace: seq<Sample>)

  /** Whether a collection is under way: what it has merged, how far into each Local it saw, and
      how many Locals were registered when it took the recorder's lock. */
  datatype Scan = Idle | Collecting(m: View, seen: seq<nat>, upto: nat)

  /** What the last `TakeInterval` left behind, and the sums of every delta handed out so far. */
  datatype Baseline = Baseline(
    prevSnap: map<OpType, Hist>, prevErr: map<OpType, int>,
    sumBins: map<OpType, Hist>, sumErr: map<OpType, int>, sumCount: map<OpType, int>)

  /** `reach` records how far into each Local the baseline reaches. */
  datatype State = State(locals: seq<LocalState>, scan: Scan, b: Baseline, reach: seq<nat>)

  const START := State([], Idle, Baseline(map[], map[], map[], map[], map[]), [])

  datatype Step = Register | Record(l: nat, x: Sample) | Begin | Visit | Finish

  /** The recorder's lock is held from Begin until the last Local has been visited. */
  predicate Locked(s: State) {
    s.scan.Collecting? && |s.scan.seen| < s.scan.upto
  }

  predicate Enabled(s: State, step: Step) {
    match step
    case Register => !Locked(s)
    case Record(l, _) => l < |s.locals|
    case Begin => s.scan.Idle?
    case Visit => Locked(s) && |s.scan.seen| < |s.locals|
    case Finish => s.scan.Collecting? && !Locked(s)
  }

  function AddSnaps(g: Geometry, sum: map<OpType, Hist>, out: map<OpType, Snap>): map<OpType, Hist> {
    sum + map op | op in out :: AddHist(if op in sum then sum[op] else Zero(g), out[op].delta)
  }

  function AddErrs(sum: map<OpType, int>, out: map<OpType, Snap>): map<OpType, int> {
    sum + map op | op in out :: CountAt(sum, op) + out[op].errors
  }

  /** The total count of every snapshot, added up. */
  function AddTotals(sum: map<OpType, int>, out: map<OpType, Snap>): map<OpType, int> {
    sum + map op | op in out :: CountAt(sum, op) + Total(out[op].delta)
  }

  function NextBaseline(g: Geometry, b: Baseline, m: View): Baseline {
    var out := TakeOut(m, b.prevSnap, b.prevErr);
    Baseline(b.prevSnap + m.byOp, NextErr(m, b.prevErr), AddSnaps(g, b.sumBins, out), AddErrs(b.sumErr, out),
             AddTotals(b.sumCount, out))
  }

  function Apply(g: Geometry, s: State, step: Step): State
    requires Enabled(s, step)
  {
    match step
    case Register => s.(locals := s.locals + [LocalState(EmptyView(g), [])])
    case Record(l, x) =>
      s.(locals := s.locals[l := LocalState(AfterRecord(g, s.locals[l].view, x), s.locals[l].trace + [x])])
    case Begin => s.(scan := Collecting(EmptyView(g), [], |s.locals|))
    case Visit =>
      var k := |s.scan.seen|;
      s.(scan := Collecting(MergeView(g, s.scan.m, s.locals[k].view), s.scan.seen + [|s.locals[k].trace|], s.scan.upto))
    case Finish => s.(scan := Idle, b := NextBaseline(g, s.b, s.scan.m), reach := s.scan.seen)
  }

  // ----- prefixes of the Locals

  ghost predicate Within(locals: seq<LocalState>, lens: seq<nat>) {
    |lens| <= |locals| && forall k | 0 <= k < |lens| :: lens[k] <= |locals[k].trace|
  }

  /** The samples in the first `lens[k]` records of each Local k. */
  function Included(locals: seq<LocalState>, lens: seq<nat>): seq<Sample>
    requires Within(locals, lens)
  {
    if lens == [] then []
    else
      var k := |lens| - 1;
      Included(locals, lens[..k]) + locals[k].trace[..lens[k]]
  }

  /** Recording more does not change what a prefix holds. */
  lemma {:induction false} IncludedStable(locals: seq<LocalState>, locals': seq<LocalState>, lens: seq<nat>)
    requires Within(locals, lens) && |locals| <= |locals'|
    requires forall k | 0 <= k < |locals| :: locals[k].trace <= locals'[k].trace
    ensures Within(locals', lens) && Included(locals', lens) == Included(locals, lens)
  {
    if lens != [] {
      var k := |lens| - 1;
      IncludedStable(locals, locals', lens[..k]);
      assert locals'[k].trace[..lens[k]] == locals[k].trace[..lens[k]];
    }
  }

  lemma IncludedVisit(locals: seq<LocalState>, seen: seq<nat>)
    requires Within(locals, seen) && |seen| < |locals|
    ensures Within(locals, seen + [|locals[|seen|].trace|])
    ensures Included(locals, seen + [|locals[|seen|].trace|]) == Included(locals, seen) + locals[|seen|].trace
  {
    var k := |seen|;
    var n := |locals[k].trace|;
    assert (seen + [n])[..k] == seen;
    assert locals[k].trace[..n] == locals[k].trace;
  }

  ghost predicate LensLeq(a: seq<nat>, b: seq<nat>) {
    |a| <= |b| && forall k | 0 <= k < |a| :: a[k] <= b[k]
  }

  lemma Regroup<T>(x: seq<T>, y: seq<T>, more: seq<T>, p: seq<T>, q: seq<T>)
    requires multiset(x) == multiset(y + more)
    ensures multiset(x + (p + q)) == multiset((y + p) + (more + q))
  {
  }

  /** A later scan holds everything an earlier one held, and some more. */
  lemma {:induction false} LaterHolds(locals: seq<LocalState>, a: seq<nat>, b: seq<nat>) returns (extra: seq<Sample>)
    requires Within(locals, a) && Within(locals, b) && LensLeq(a, b)
    ensures multiset(Included(locals, b)) == multiset(Included(locals, a) + extra)
    decreases |b|
  {
    if b == [] {
      extra := [];
    } else {
      var k := |b| - 1;
      if |a| == |b| {
        var more := LaterHolds(locals, a[..k], b[..k]);
        extra := LaterLonger(locals, a, b, more);
      } else {
        var more := LaterHolds(locals, a, b[..k]);
        extra := LaterNew(locals, a, b, more);
      }
    }
  }

  lemma LaterLonger(locals: seq<LocalState>, a: seq<nat>, b: seq<nat>, more: seq<Sample>) returns (extra: seq<Sample>)
    requires Within(locals, a) && Within(locals, b) && LensLeq(a, b) && |a| == |b| > 0
    requires multiset(Included(locals, b[..|b| - 1])) == multiset(Included(locals, a[..|b| - 1]) + more)
    ensures multiset(Included(locals, b)) == multiset(Included(locals, a) + extra)
  {
    var k := |b| - 1;
    var t := locals[k].trace;
    var p, q := t[..a[k]], t[a[k]..b[k]];
    assert t[..b[k]] == p + q;
    Regroup(Included(locals, b[..k]), Included(locals, a[..k]), more, p, q);
    extra := more + q;
  }

  lemma LaterNew(locals: seq<LocalState>, a: seq<nat>, b: seq<nat>, more: seq<Sample>) returns (extra: seq<Sample>)
    requires Within(locals, a) && Within(locals, b) && |b| > 0
    requires multiset(Included(locals, b[..|b| - 1])) == multiset(Included(locals, a) + more)
    ensures multiset(Included(locals, b)) == multiset(Included(locals, a) + extra)
  {
    var k := |b| - 1;
    extra := more + locals[k].trace[..b[k]];
  }

  lemma {:induction false} HistNonNegative(g: Geometry, s: seq<Sample>)
    ensures forall b | 0 <= b < g.bins :: HistOf(g, s)[b] >= 0
  {
    if s != [] {
      HistNonNegative(g, s[..|s| - 1]);
    }
  }

  lemma LaterCounts(g: Geometry, locals: seq<LocalState>, a: seq<nat>, b: seq<nat>, op: OpType)
    requires Within(locals, a) && Within(locals, b) && LensLeq(a, b)
    ensures forall i | 0 <= i < g.bins :: OpHist(g, Included(locals, a), op)[i] <= OpHist(g, Included(locals, b), op)[i]
    ensures ErrCount(Included(locals, a), op) <= ErrCount(Included(locals, b), op)
    ensures op in OpsOf(Included(locals, a)) ==> op in OpsOf(Included(locals, b))
  {
    var extra := LaterHolds(locals, a, b);
    OpPermutation(g, Included(locals, b), Included(locals, a) + extra, op);
    OpConcat(g, Included(locals, a), extra, op);
    HistNonNegative(g, Filter(extra, OfOp(op)));
  }

  // ----- the invariant

  ghost predicate LocalsInv(g: Geometry, locals: seq<LocalState>) {
    forall k | 0 <= k < |locals| :: Shows(locals[k].view, g, locals[k].trace)
  }

  function HistAt(g: Geometry, m: map<OpType, Hist>, op: OpType): Hist {
    if op in m then m[op] else Zero(g)
  }

  /** For one operation: the baseline is the count over the samples `held`, and the deltas handed
      out so far add up to it. */
  ghost predicate OpInv(g: Geometry, b: Baseline, held: seq<Sample>, op: OpType) {
    && (op in b.prevSnap <==> op in OpsOf(held))
    && HistAt(g, b.prevSnap, op) == OpHist(g, held, op) == HistAt(g, b.sumBins, op)
    && CountAt(b.prevErr, op) == ErrCount(held, op) == CountAt(b.sumErr, op)
    && CountAt(b.sumCount, op) == Total(HistAt(g, b.sumBins, op))
  }

  ghost predicate BaseInv(g: Geometry, b: Baseline, held: seq<Sample>) {
    forall op :: OpInv(g, b, held, op)
  }

  ghost predicate ScanInv(g: Geometry, s: State) {
    s.scan.Collecting? ==>
      && |s.scan.seen| <= s.scan.upto <= |s.locals| && |s.reach| <= s.scan.upto
      && Within(s.locals, s.scan.seen)
      && Shows(s.scan.m, g, Included(s.locals, s.scan.seen))
      && (forall k | 0 <= k < |s.scan.seen| && k < |s.reach| :: s.reach[k] <= s.scan.seen[k])
  }

  ghost predicate Inv(g: Geometry, s: State) {
    LocalsInv(g, s.locals) && Within(s.locals, s.reach) && BaseInv(g, s.b, Included(s.locals, s.reach)) && ScanInv(g, s)
  }

  lemma GrowKeeps(g: Geometry, s: State, locals': seq<LocalState>)
    requires Inv(g, s) && |s.locals| <= |locals'| && LocalsInv(g, locals')
    requires forall k | 0 <= k < |s.locals| :: s.locals[k].trace <= locals'[k].trace
    ensures Inv(g, s.(locals := locals'))
  {
    IncludedStable(s.locals, locals', s.reach);
    if s.scan.Collecting? {
      IncludedStable(s.locals, locals', s.scan.seen);
    }
  }

  lemma RecordKeeps(g: Geometry, s: State, l: nat, x: Sample)
    requires Inv(g, s) && l < |s.locals|
    ensures Inv(g, Apply(g, s, Record(l, x)))
  {
    RecordShows(g, s.locals[l].view, s.locals[l].trace, x);
    GrowKeeps(g, s, Apply(g, s, Record(l, x)).locals);
  }

  lemma RegisterKeeps(g: Geometry, s: State)
    requires Inv(g, s) && Enabled(s, Register)
    ensures Inv(g, Apply(g, s, Register))
  {
    EmptyShows(g);
    GrowKeeps(g, s, Apply(g, s, Register).locals);
  }

  lemma VisitKeeps(g: Geometry, s: State)
    requires Inv(g, s) && Enabled(s, Visit)
    ensures Inv(g, Apply(g, s, Visit))
  {
    var k := |s.scan.seen|;
    IncludedVisit(s.locals, s.scan.seen);
    MergeShows(g, s.scan.m, s.locals[k].view, Included(s.locals, s.scan.seen), s.locals[k].trace);
  }

  /** When a collection is complete no bin and no error count has gone down: the clamp in
      `deltaHist` never fires. */
  lemma ClampNeverFires(g: Geometry, s: State, op: OpType)
    requires Inv(g, s) && Enabled(s, Finish)
    ensures op in s.scan.m.byOp ==> |s.scan.m.byOp[op]| == g.bins
    ensures op in s.b.prevSnap ==> op in s.scan.m.byOp && |s.b.prevSnap[op]| == g.bins
    ensures op in s.b.prevSnap ==> forall i | 0 <= i < g.bins :: s.b.prevSnap[op][i] <= s.scan.m.byOp[op][i]
    ensures CountAt(s.b.prevErr, op) <= CountAt(s.scan.m.errByOp, op)
  {
    assert OpInv(g, s.b, Included(s.locals, s.reach), op);
    LaterCounts(g, s.locals, s.reach, s.scan.seen, op);
  }

  /** Adding an unclamped delta to what it was taken from gives the current counts. */
  lemma DeltaAdds(g: Geometry, cur: Hist, prev: Option<Hist>, sum: Hist)
    requires |cur| == |sum| == g.bins
    requires sum == match prev case None => Zero(g) case Some(p) => p
    requires prev.Some? ==> forall i | 0 <= i < g.bins :: prev.value[i] <= cur[i]
    ensures AddHist(sum, DeltaHist(cur, prev)) == cur
  {
  }

  lemma NextSums(g: Geometry, b: Baseline, m: View, op: OpType)
    requires op in m.byOp && |m.byOp[op]| == g.bins && HistAt(g, b.sumBins, op) == HistAt(g, b.prevSnap, op)
    requires CountAt(b.sumErr, op) == CountAt(b.prevErr, op)
    requires op in b.prevSnap ==>
               |b.prevSnap[op]| == g.bins && forall i | 0 <= i < g.bins :: b.prevSnap[op][i] <= m.byOp[op][i]
    ensures HistAt(g, NextBaseline(g, b, m).sumBins, op) == m.byOp[op]
    ensures CountAt(NextBaseline(g, b, m).sumErr, op) == CountAt(m.errByOp, op)
  {
    DeltaAdds(g, m.byOp[op], At(b.prevSnap, op), HistAt(g, b.sumBins, op));
    var out := TakeOut(m, b.prevSnap, b.prevErr);
    assert out[op] == SnapOf(m, b.prevSnap, b.prevErr, op);
    assert AddSnaps(g, b.sumBins, out)[op] == AddHist(HistAt(g, b.sumBins, op), out[op].delta);
    assert AddErrs(b.sumErr, out)[op] == CountAt(b.sumErr, op) + out[op].errors;
  }

  lemma NextTotals(g: Geometry, b: Baseline, m: View, op: OpType)
    requires |HistAt(g, b.sumBins, op)| == g.bins && (op in m.byOp ==> |m.byOp[op]| == g.bins)
    requires CountAt(b.sumCount, op) == Total(HistAt(g, b.sumBins, op))
    ensures var n := NextBaseline(g, b, m); CountAt(n.sumCount, op) == Total(HistAt(g, n.sumBins, op))
  {
    var out := TakeOut(m, b.prevSnap, b.prevErr);
    if op in m.byOp {
      assert out[op] == SnapOf(m, b.prevSnap, b.prevErr, op);
      TotalAdd(HistAt(g, b.sumBins, op), out[op].delta);
      assert AddSnaps(g, b.sumBins, out)[op] == AddHist(HistAt(g, b.sumBins, op), out[op].delta);
      assert AddTotals(b.sumCount, out)[op] == CountAt(b.sumCount, op) + Total(out[op].delta);
    } else {
      assert op !in out;
    }
  }

  lemma NextPrev(g: Geometry, b: Baseline, m: View, op: OpType)
    requires op in m.byOp
    ensures var n := NextBaseline(g, b, m);
            op in n.prevSnap && HistAt(g, n.prevSnap, op) == m.byOp[op]
            && CountAt(n.prevErr, op) == CountAt(m.errByOp, op)
  {
  }

  lemma AbsentPrev(g: Geometry, b: Baseline, m: View, op: OpType)
    requires op !in m.byOp
    ensures var n := NextBaseline(g, b, m);
            && (op in n.prevSnap <==> op in b.prevSnap)
            && HistAt(g, n.prevSnap, op) == HistAt(g, b.prevSnap, op)
            && CountAt(n.prevErr, op) == CountAt(b.prevErr, op)
  {
  }

  lemma AbsentSums(g: Geometry, b: Baseline, m: View, op: OpType)
    requires op !in m.byOp
    ensures var n := NextBaseline(g, b, m);
            && HistAt(g, n.sumBins, op) == HistAt(g, b.sumBins, op)
            && CountAt(n.sumErr, op) == CountAt(b.sumErr, op)
  {
    assert op !in TakeOut(m, b.prevSnap, b.prevErr);
  }

  /** After the finish an operation's baseline and summed deltas are both the collected counts. */
  lemma FinishOp(g: Geometry, s: State, op: OpType)
    requires Inv(g, s) && Enabled(s, Finish)
    ensures OpInv(g, NextBaseline(g, s.b, s.scan.m), Included(s.locals, s.scan.seen), op)
  {
    assert OpInv(g, s.b, Included(s.locals, s.reach), op);
    ClampNeverFires(g, s, op);
    NextTotals(g, s.b, s.scan.m, op);
    if op in s.scan.m.byOp {
      NextSums(g, s.b, s.scan.m, op);
      NextPrev(g, s.b, s.scan.m, op);
    } else {
      AbsentPrev(g, s.b, s.scan.m, op);
      AbsentSums(g, s.b, s.scan.m, op);
      NoSamples(g, Included(s.locals, s.scan.seen), op);
      NoSamples(g, Included(s.locals, s.reach), op);
    }
  }

  lemma FinishKeeps(g: Geometry, s: State)
    requires Inv(g, s) && Enabled(s, Finish)
    ensures Inv(g, Apply(g, s, Finish))
  {
    forall op ensures OpInv(g, NextBaseline(g, s.b, s.scan.m), Included(s.locals, s.scan.seen), op) {
      FinishOp(g, s, op);
    }
  }

  lemma StepKeepsInv(g: Geometry, s: State, step: Step)
    requires Inv(g, s) && Enabled(s, step)
    ensures Inv(g, Apply(g, s, step))
  {
    match step {
      case Register => RegisterKeeps(g, s);
      case Record(l, x) => RecordKeeps(g, s, l, x);
      case Begin => EmptyShows(g);
      case Visit => VisitKeeps(g, s);
      case Finish => FinishKeeps(g, s);
    }
  }

  ghost predicate Reaches(g: Geometry, steps: seq<Step>, s: State) {
    if steps == [] then s == START
    else
      var last := steps[|steps| - 1];
      exists before :: Reaches(g, steps[..|steps| - 1], before) && Enabled(before, last) && s == Apply(g, before, last)
  }

  lemma {:induction false} ReachableInv(g: Geometry, steps: seq<Step>, s: State)
    requires Reaches(g, steps, s)
    ensures Inv(g, s)
  {
    if steps != [] {
      var last := steps[|steps| - 1];
      var before :| Reaches(g, steps[..|steps| - 1], before) && Enabled(before, last) && s == Apply(g, before, last);
      ReachableInv(g, steps[..|steps| - 1], before);
      StepKeepsInv(g, before, last);
    } else {
      StartInv(g);
    }
  }

  lemma StartInv(g: Geometry)
    ensures Inv(g, START)
  {
    assert Included([], []) == [];
    TotalZero(g.bins);
    assert Zero(g) == seq(g.bins, _ => 0);
  }

  function Traces(locals: seq<LocalState>): seq<seq<Sample>> {
    seq(|locals|, k requires 0 <= k < |locals| => locals[k].trace)
  }

  /** How much every Local holds. */
  function FullReach(locals: seq<LocalState>): seq<nat> {
    seq(|locals|, k requires 0 <= k < |locals| => |locals[k].trace|)
  }

  /** Over every interleaving of recording, registration and lock-by-lock collection: the deltas
      handed out so far add up, bin by bin and error by error, to exactly the counts last collected,
      which are the counts of a prefix of every Local; and a collection about to finish has no
      count below the last one. */
  lemma {:induction false} DeltasAddUp(g: Geometry, steps: seq<Step>, s: State, op: OpType)
    requires Reaches(g, steps, s)
    ensures Within(s.locals, s.reach)
    ensures HistAt(g, s.b.sumBins, op) == HistAt(g, s.b.prevSnap, op) == OpHist(g, Included(s.locals, s.reach), op)
    ensures CountAt(s.b.sumErr, op) == CountAt(s.b.prevErr, op) == ErrCount(Included(s.locals, s.reach), op)
    ensures Enabled(s, Finish) && op in s.scan.m.byOp ==>
              && (forall i | 0 <= i < g.bins ::
                    i < |s.scan.m.byOp[op]| && HistAt(g, s.b.prevSnap, op)[i] <= s.scan.m.byOp[op][i])
              && CountAt(s.b.prevErr, op) <= CountAt(s.scan.m.errByOp, op)
  {
    ReachableInv(g, steps, s);
    assert OpInv(g, s.b, Included(s.locals, s.reach), op);
    if Enabled(s, Finish) && op in s.scan.m.byOp {
      ClampNeverFires(g, s, op);
      HistNonNegative(g, Filter(Included(s.locals, s.scan.seen), OfOp(op)));
    }
  }

  /** So the total counts handed out so far add up to the number of samples collected. */
  lemma CountsAddUp(g: Geometry, steps: seq<Step>, s: State, op: OpType)
    requires Reaches(g, steps, s) && ValidGeometry(g)
    ensures Within(s.locals, s.reach)
    ensures CountAt(s.b.sumCount, op) == |Filter(Included(s.locals, s.reach), OfOp(op))|
  {
    ReachableInv(g, steps, s);
    assert OpInv(g, s.b, Included(s.locals, s.reach), op);
    HistTotal(g, Filter(Included(s.locals, s.reach), OfOp(op)));
  }

  lemma {:induction false} FullIncluded(locals: seq<LocalState>)
    ensures Within(locals, FullReach(locals))
    ensures Included(locals, FullReach(locals)) == ConcatAll(Traces(locals))
  {
    if locals != [] {
      var n := |locals| - 1;
      var front := locals[..n];
      FullIncluded(front);
      IncludedStable(front, locals, FullReach(front));
      var lens := FullReach(locals);
      assert lens[..n] == FullReach(front);
      assert Traces(locals)[..n] == Traces(front);
      assert locals[n].trace[..lens[n]] == locals[n].trace;
    }
  }

  /** An interval taken after the last record has been written misses nothing: the deltas of all
      intervals together count every sample ever recorded. */
  lemma LastIntervalCompletes(g: Geometry, steps: seq<Step>, s: State, op: OpType)
    requires Reaches(g, steps, s) && s.reach == FullReach(s.locals)
    ensures HistAt(g, s.b.sumBins, op) == OpHist(g, ConcatAll(Traces(s.locals)), op)
    ensures CountAt(s.b.sumErr, op) == ErrCount(ConcatAll(Traces(s.locals)), op)
    ensures ValidGeometry(g) ==> CountAt(s.b.sumCount, op) == |Filter(ConcatAll(Traces(s.locals)), OfOp(op))|
  {
    if ValidGeometry(g) {
      CountsAddUp(g, steps, s, op);
    }
    DeltasAddUp(g, steps, s, op);
    FullIncluded(s.locals);
  }
}

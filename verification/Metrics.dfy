/** The latency recorder: per-goroutine histograms, lock-by-lock aggregation, interval deltas and
    lossless merging. A histogram is its bin counts. */
module Metrics {
  import opened Domain
  import opened Sorting
  import opened Sums

  type Hist = seq<int>

  /** A target-defined operation label. */
  datatype OpType = OpType(name: string)

  /** The tracked range, the number of bins, and the bin of a value: the library's layout. */
  datatype Geometry = Geometry(high: int, bins: nat, bin: int -> int)

  datatype Sample = Sample(op: OpType, latency: int, isErr: bool)

  /** Cumulative histograms and error counts: of one Local, or of all of them merged. */
  datatype View = View(overall: Hist, byOp: map<OpType, Hist>, errByOp: map<OpType, int>, errTotal: int)

  function Zero(g: Geometry): Hist {
    seq(g.bins, _ => 0)
  }

  function Clamp(g: Geometry, ns: int): int {
    var low := if ns < 0 then 0 else ns;
    if low > g.high then g.high else low
  }

  /** Recording a value counts it in its bin. */
  function RecordValue(g: Geometry, h: Hist, ns: int): (r: Hist)
    ensures |r| == |h|
  {
    var i := g.bin(Clamp(g, ns));
    if 0 <= i < |h| then h[i := h[i] + 1] else h
  }

  function AddHist(a: Hist, b: Hist): Hist {
    seq(|a|, i requires 0 <= i < |a| => a[i] + if i < |b| then b[i] else 0)
  }

  /** How many values a histogram holds. */
  function Total(h: Hist): int {
    if h == [] then 0 else Total(h[..|h| - 1]) + h[|h| - 1]
  }

  /** The library's promise: every value of the tracked range has a bin. */
  ghost predicate ValidGeometry(g: Geometry) {
    g.high >= 0 && forall v | 0 <= v <= g.high :: 0 <= g.bin(v) < g.bins
  }

  lemma {:induction false} TotalUpdate(h: Hist, i: nat, x: int)
    requires i < |h|
    ensures Total(h[i := x]) == Total(h) - h[i] + x
  {
    var n := |h| - 1;
    if i == n {
      assert h[i := x][..n] == h[..n];
    } else {
      TotalUpdate(h[..n], i, x);
      assert h[i := x][..n] == h[..n][i := x];
    }
  }

  /** Because values are clamped into the tracked range, recording never drops one. */
  lemma RecordCounts(g: Geometry, h: Hist, ns: int)
    requires ValidGeometry(g) && |h| == g.bins
    ensures Total(RecordValue(g, h, ns)) == Total(h) + 1
  {
    var i := g.bin(Clamp(g, ns));
    TotalUpdate(h, i, h[i] + 1);
  }

  lemma {:induction false} TotalZero(n: nat)
    ensures Total(seq(n, _ => 0)) == 0
  {
    if n > 0 {
      TotalZero(n - 1);
      assert seq(n, _ => 0)[..n - 1] == seq(n - 1, _ => 0);
    }
  }

  lemma {:induction false} TotalAdd(a: Hist, b: Hist)
    requires |a| == |b|
    ensures Total(AddHist(a, b)) == Total(a) + Total(b)
  {
    if a != [] {
      var n := |a| - 1;
      TotalAdd(a[..n], b[..n]);
      assert AddHist(a, b)[..n] == AddHist(a[..n], b[..n]);
    }
  }

  // ----- what a view shows

  function OfOp(op: OpType): Sample -> bool {
    (s: Sample) => s.op == op
  }

  function ErrOf(op: OpType): Sample -> bool {
    (s: Sample) => s.op == op && s.isErr
  }

  function IsErr(): Sample -> bool {
    (s: Sample) => s.isErr
  }

  function HistOf(g: Geometry, s: seq<Sample>): (h: Hist)
    ensures |h| == g.bins
  {
    if s == [] then Zero(g) else RecordValue(g, HistOf(g, s[..|s| - 1]), s[|s| - 1].latency)
  }

  function OpHist(g: Geometry, s: seq<Sample>, op: OpType): (h: Hist)
    ensures |h| == g.bins
  {
    HistOf(g, Filter(s, OfOp(op)))
  }

  function ErrCount(s: seq<Sample>, op: OpType): nat {
    |Filter(s, ErrOf(op))|
  }

  /** The bins hold every sample, wherever its latency lies. */
  lemma {:induction false} HistTotal(g: Geometry, s: seq<Sample>)
    requires ValidGeometry(g)
    ensures Total(HistOf(g, s)) == |s|
  {
    if s == [] {
      TotalZero(g.bins);
      assert HistOf(g, s) == seq(g.bins, _ => 0);
    } else {
      HistTotal(g, s[..|s| - 1]);
      RecordCounts(g, HistOf(g, s[..|s| - 1]), s[|s| - 1].latency);
    }
  }

  /** The samples of bin b: those whose latency, brought into the tracked range, belongs there. */
  function InBin(g: Geometry, b: int): Sample -> bool {
    (s: Sample) => g.bin(if g.high < 0 || s.latency > g.high then g.high
                         else if s.latency < 0 then 0 else s.latency) == b
  }

  /** From `before` to `after` the bin of `x` grew by one, and no other bin changed. */
  ghost predicate Counted(g: Geometry, before: Hist, after: Hist, x: Sample) {
    && |before| == |after| == g.bins
    && forall b | 0 <= b < g.bins :: after[b] == before[b] + if InBin(g, b)(x) then 1 else 0
  }

  lemma RecordBin(g: Geometry, h: Hist, x: Sample)
    requires |h| == g.bins
    ensures Counted(g, h, RecordValue(g, h, x.latency), x)
  {
  }

  /** Every bin counts exactly its samples. */
  lemma {:induction false} HistBins(g: Geometry, s: seq<Sample>, b: nat)
    requires b < g.bins
    ensures HistOf(g, s)[b] == |Filter(s, InBin(g, b))|
  {
    if s != [] {
      var front, x := s[..|s| - 1], s[|s| - 1];
      assert s == front + [x];
      HistBins(g, front, b);
      RecordBin(g, HistOf(g, front), x);
      FilterSnoc(front, x, InBin(g, b));
    }
  }

  ghost function OpsOf(s: seq<Sample>): set<OpType> {
    set x | x in s :: x.op
  }

  /** `v` is the view of exactly the samples `s`. */
  ghost predicate Shows(v: View, g: Geometry, s: seq<Sample>) {
    && v.overall == HistOf(g, s)
    && ShowsOps(v.byOp, g, s)
    && ShowsErrs(v.errByOp, s)
    && v.errTotal == |Filter(s, IsErr())|
  }

  ghost predicate ShowsOps(byOp: map<OpType, Hist>, g: Geometry, s: seq<Sample>) {
    forall op ::
      && (op in byOp <==> op in OpsOf(s))
      && OpHist(g, s, op) == if op in byOp then byOp[op] else Zero(g)
  }

  ghost predicate ShowsErrs(errByOp: map<OpType, int>, s: seq<Sample>) {
    forall op ::
      && (op in errByOp <==> ErrCount(s, op) > 0)
      && ErrCount(s, op) == if op in errByOp then errByOp[op] else 0
  }

  /** A view counts every sample once overall and once under its operation. */
  lemma ViewCounts(g: Geometry, v: View, s: seq<Sample>)
    requires ValidGeometry(g) && Shows(v, g, s)
    ensures Total(v.overall) == |s|
    ensures forall op | op in v.byOp :: Total(v.byOp[op]) == |Filter(s, OfOp(op))|
  {
    HistTotal(g, s);
    forall op | op in v.byOp ensures Total(v.byOp[op]) == |Filter(s, OfOp(op))| {
      HistTotal(g, Filter(s, OfOp(op)));
    }
  }

  /** Bin by bin, a view counts the samples that belong there: all of them overall, and under each
      operation its own. */
  lemma ViewBins(g: Geometry, v: View, s: seq<Sample>, b: nat)
    requires Shows(v, g, s) && b < g.bins
    ensures v.overall[b] == |Filter(s, InBin(g, b))|
    ensures forall op | op in v.byOp :: v.byOp[op][b] == |Filter(Filter(s, OfOp(op)), InBin(g, b))|
  {
    HistBins(g, s, b);
    forall op | op in v.byOp ensures v.byOp[op][b] == |Filter(Filter(s, OfOp(op)), InBin(g, b))| {
      HistBins(g, Filter(s, OfOp(op)), b);
    }
  }

  function EmptyView(g: Geometry): View {
    View(Zero(g), map[], map[], 0)
  }

  lemma EmptyShows(g: Geometry)
    ensures Shows(EmptyView(g), g, [])
  {
  }

  // ----- recording

  /** The histogram of an operation is created on first use. */
  function RecordOp(g: Geometry, byOp: map<OpType, Hist>, op: OpType, ns: int): map<OpType, Hist> {
    byOp[op := RecordValue(g, if op in byOp then byOp[op] else Zero(g), ns)]
  }

  function CountErr(errByOp: map<OpType, int>, op: OpType): map<OpType, int> {
    errByOp[op := (if op in errByOp then errByOp[op] else 0) + 1]
  }

  function AfterRecord(g: Geometry, v: View, s: Sample): View {
    View(RecordValue(g, v.overall, s.latency), RecordOp(g, v.byOp, s.op, s.latency),
         if s.isErr then CountErr(v.errByOp, s.op) else v.errByOp, if s.isErr then v.errTotal + 1 else v.errTotal)
  }

  lemma HistOfSnoc(g: Geometry, s: seq<Sample>, x: Sample)
    ensures HistOf(g, s + [x]) == RecordValue(g, HistOf(g, s), x.latency)
  {
    assert (s + [x])[..|s|] == s;
  }

  lemma OpHistSnoc(g: Geometry, s: seq<Sample>, x: Sample, op: OpType)
    ensures OpHist(g, s + [x], op) ==
              if x.op == op then RecordValue(g, OpHist(g, s, op), x.latency) else OpHist(g, s, op)
    ensures ErrCount(s + [x], op) == ErrCount(s, op) + if x.op == op && x.isErr then 1 else 0
  {
    FilterSnoc(s, x, OfOp(op));
    FilterSnoc(s, x, ErrOf(op));
    if x.op == op {
      HistOfSnoc(g, Filter(s, OfOp(op)), x);
    } else {
      assert Filter(s, OfOp(op)) + [] == Filter(s, OfOp(op));
    }
  }

  lemma NoSamples(g: Geometry, s: seq<Sample>, op: OpType)
    requires op !in OpsOf(s)
    ensures OpHist(g, s, op) == Zero(g) && ErrCount(s, op) == 0
  {
    FilterNone(s, OfOp(op));
    FilterNone(s, ErrOf(op));
  }

  lemma RecordShowsOps(g: Geometry, byOp: map<OpType, Hist>, s: seq<Sample>, x: Sample)
    requires ShowsOps(byOp, g, s)
    ensures ShowsOps(RecordOp(g, byOp, x.op, x.latency), g, s + [x])
  {
    forall op
      ensures OpHist(g, s + [x], op) ==
              if x.op == op then RecordValue(g, OpHist(g, s, op), x.latency) else OpHist(g, s, op)
      ensures op in OpsOf(s + [x]) <==> op in OpsOf(s) || op == x.op
    {
      OpHistSnoc(g, s, x, op);
      OpsSnoc(s, x, op);
    }
  }

  lemma RecordShowsErrs(g: Geometry, errByOp: map<OpType, int>, s: seq<Sample>, x: Sample)
    requires ShowsErrs(errByOp, s)
    ensures ShowsErrs(if x.isErr then CountErr(errByOp, x.op) else errByOp, s + [x])
  {
    forall op ensures ErrCount(s + [x], op) == ErrCount(s, op) + if x.op == op && x.isErr then 1 else 0 {
      OpHistSnoc(g, s, x, op);
    }
  }

  lemma RecordShows(g: Geometry, v: View, s: seq<Sample>, x: Sample)
    requires Shows(v, g, s)
    ensures Shows(AfterRecord(g, v, x), g, s + [x])
  {
    HistOfSnoc(g, s, x);
    FilterSnoc(s, x, IsErr());
    RecordShowsOps(g, v.byOp, s, x);
    RecordShowsErrs(g, v.errByOp, s, x);
  }

  /** `w` is `v` with the sample `x` counted: in its bin overall and under its operation, and as
      an error if it was one. Nothing else differs. */
  ghost predicate Gained(g: Geometry, v: View, w: View, x: Sample) {
    && Counted(g, v.overall, w.overall, x)
    && x.op in w.byOp
    && Counted(g, if x.op in v.byOp then v.byOp[x.op] else seq(g.bins, _ => 0), w.byOp[x.op], x)
    && (forall op | op != x.op :: At(w.byOp, op) == At(v.byOp, op))
    && w.errTotal == v.errTotal + (if x.isErr then 1 else 0)
    && CountAt(w.errByOp, x.op) == CountAt(v.errByOp, x.op) + (if x.isErr then 1 else 0)
    && (forall op | op != x.op || !x.isErr :: At(w.errByOp, op) == At(v.errByOp, op))
  }

  lemma RecordGains(g: Geometry, v: View, s: seq<Sample>, x: Sample)
    requires Shows(v, g, s)
    ensures Gained(g, v, AfterRecord(g, v, x), x)
  {
    RecordBin(g, v.overall, x);
    assert OpHist(g, s, x.op) == if x.op in v.byOp then v.byOp[x.op] else Zero(g);
    RecordBin(g, OpHist(g, s, x.op), x);
  }

  lemma OpsSnoc(s: seq<Sample>, x: Sample, op: OpType)
    ensures op in OpsOf(s + [x]) <==> op in OpsOf(s) || op == x.op
  {
    assert x in s + [x];
    assert forall y | y in s :: y in s + [x];
  }

  /** A per-goroutine sink. */
  class Local {
    const g: Geometry
    var overall: Hist
    var byOp: map<OpType, Hist>
    var errByOp: map<OpType, int>
    var errTotal: int
    ghost var trace: seq<Sample>

    function Current(): View
      reads this
    {
      View(overall, byOp, errByOp, errTotal)
    }

    ghost predicate Valid()
      reads this
    {
      Shows(Current(), g, trace)
    }

    constructor (g: Geometry)
      ensures Valid() && trace == [] && this.g == g
    {
      this.g := g;
      overall, byOp, errByOp, errTotal := Zero(g), map[], map[], 0;
      trace := [];
      new;
      EmptyShows(g);
    }

    /** A Local built from the aggregate of another recorder. */
    constructor FromView(g: Geometry, v: View, ghost samples: seq<Sample>)
      requires Shows(v, g, samples)
      ensures Valid() && trace == samples && this.g == g
    {
      this.g := g;
      overall, byOp, errByOp, errTotal := v.overall, v.byOp, v.errByOp, v.errTotal;
      trace := samples;
    }

    /** `Record`: the bin of the latency grows by one, overall and under the operation, and nothing
        else does; an error is counted in total and under the operation. */
    method Record(op: OpType, latency: int, isErr: bool)
      requires Valid()
      modifies this
      ensures Valid() && trace == old(trace) + [Sample(op, latency, isErr)]
      ensures Current() == AfterRecord(g, old(Current()), Sample(op, latency, isErr))
      ensures ValidGeometry(g) ==> Total(overall) == old(Total(overall)) + 1
      ensures Gained(g, old(Current()), Current(), Sample(op, latency, isErr))
    {
      ghost var x, before, samples := Sample(op, latency, isErr), Current(), trace;
      overall := RecordValue(g, overall, latency);
      byOp := RecordOp(g, byOp, op, latency);
      if isErr {
        errByOp := CountErr(errByOp, op);
        errTotal := errTotal + 1;
      }
      trace := trace + [x];
      assert overall == AfterRecord(g, before, x).overall && byOp == AfterRecord(g, before, x).byOp;
      assert errByOp == AfterRecord(g, before, x).errByOp && errTotal == AfterRecord(g, before, x).errTotal;
      assert Current() == AfterRecord(g, before, x);
      RecordShows(g, before, samples, x);
      RecordGains(g, before, samples, x);
      if ValidGeometry(g) {
        RecordCounts(g, before.overall, latency);
      }
    }
  }

  // ----- merging views

  function MergeHists(g: Geometry, a: map<OpType, Hist>, b: map<OpType, Hist>): map<OpType, Hist> {
    map op | op in a.Keys + b.Keys ::
      AddHist(if op in a then a[op] else Zero(g), if op in b then b[op] else Zero(g))
  }

  function MergeCounts(a: map<OpType, int>, b: map<OpType, int>): map<OpType, int> {
    map op | op in a.Keys + b.Keys :: (if op in a then a[op] else 0) + (if op in b then b[op] else 0)
  }

  function MergeView(g: Geometry, a: View, b: View): View {
    View(AddHist(a.overall, b.overall), MergeHists(g, a.byOp, b.byOp), MergeCounts(a.errByOp, b.errByOp),
         a.errTotal + b.errTotal)
  }

  lemma {:induction false} HistOfConcat(g: Geometry, s: seq<Sample>, t: seq<Sample>)
    ensures HistOf(g, s + t) == AddHist(HistOf(g, s), HistOf(g, t))
  {
    if t == [] {
      assert s + t == s;
    } else {
      var front, x := t[..|t| - 1], t[|t| - 1];
      assert s + t == (s + front) + [x] && t == front + [x];
      HistOfConcat(g, s, front);
      HistOfSnoc(g, s + front, x);
      HistOfSnoc(g, front, x);
    }
  }

  lemma OpConcat(g: Geometry, s: seq<Sample>, t: seq<Sample>, op: OpType)
    ensures OpHist(g, s + t, op) == AddHist(OpHist(g, s, op), OpHist(g, t, op))
    ensures ErrCount(s + t, op) == ErrCount(s, op) + ErrCount(t, op)
    ensures op in OpsOf(s + t) <==> op in OpsOf(s) || op in OpsOf(t)
  {
    FilterConcat(s, t, OfOp(op));
    FilterConcat(s, t, ErrOf(op));
    HistOfConcat(g, Filter(s, OfOp(op)), Filter(t, OfOp(op)));
    assert forall x | x in s :: x in s + t;
    assert forall x | x in t :: x in s + t;
  }

  lemma MergeShowsOps(g: Geometry, a: map<OpType, Hist>, b: map<OpType, Hist>, s: seq<Sample>, t: seq<Sample>)
    requires ShowsOps(a, g, s) && ShowsOps(b, g, t)
    ensures ShowsOps(MergeHists(g, a, b), g, s + t)
  {
    forall op
      ensures OpHist(g, s + t, op) == AddHist(OpHist(g, s, op), OpHist(g, t, op))
      ensures op in OpsOf(s + t) <==> op in OpsOf(s) || op in OpsOf(t)
    {
      OpConcat(g, s, t, op);
    }
    assert AddHist(Zero(g), Zero(g)) == Zero(g);
  }

  lemma MergeShowsErrs(g: Geometry, a: map<OpType, int>, b: map<OpType, int>, s: seq<Sample>, t: seq<Sample>)
    requires ShowsErrs(a, s) && ShowsErrs(b, t)
    ensures ShowsErrs(MergeCounts(a, b), s + t)
  {
    forall op ensures ErrCount(s + t, op) == ErrCount(s, op) + ErrCount(t, op) {
      OpConcat(g, s, t, op);
    }
  }

  /** Merging is a homomorphism: the merged view is the view of all the samples together. */
  lemma MergeShows(g: Geometry, a: View, b: View, s: seq<Sample>, t: seq<Sample>)
    requires Shows(a, g, s) && Shows(b, g, t)
    ensures Shows(MergeView(g, a, b), g, s + t)
  {
    HistOfConcat(g, s, t);
    FilterConcat(s, t, IsErr());
    MergeShowsOps(g, a.byOp, b.byOp, s, t);
    MergeShowsErrs(g, a.errByOp, b.errByOp, s, t);
  }

  lemma HistMiddle(g: Geometry, u: seq<Sample>, x: Sample, v: seq<Sample>)
    ensures HistOf(g, u + [x] + v) == AddHist(HistOf(g, [x]), HistOf(g, u + v))
  {
    HistOfConcat(g, u + [x], v);
    HistOfConcat(g, u, [x]);
    HistOfConcat(g, u, v);
  }

  lemma {:induction false} HistPermutation(g: Geometry, s: seq<Sample>, t: seq<Sample>)
    requires multiset(s) == multiset(t)
    ensures HistOf(g, s) == HistOf(g, t)
    decreases |s|
  {
    if s == [] {
      assert |t| == |multiset(t)| == |multiset(s)| == 0;
    } else {
      var x, r := s[0], s[1..];
      assert x in multiset(t);
      var u, v := SplitAt(t, x);
      assert s == [] + [x] + r && [] + r == r;
      MiddleMultiset([], x, r);
      MiddleMultiset(u, x, v);
      HistPermutation(g, r, u + v);
      HistMiddle(g, [], x, r);
      HistMiddle(g, u, x, v);
    }
  }

  lemma OpPermutation(g: Geometry, s: seq<Sample>, t: seq<Sample>, op: OpType)
    requires multiset(s) == multiset(t)
    ensures OpHist(g, s, op) == OpHist(g, t, op) && ErrCount(s, op) == ErrCount(t, op)
    ensures op in OpsOf(s) <==> op in OpsOf(t)
  {
    FilterPermutation(s, t, OfOp(op));
    HistPermutation(g, Filter(s, OfOp(op)), Filter(t, OfOp(op)));
    SameLength(Filter(s, ErrOf(op)), Filter(t, ErrOf(op))) by {
      FilterPermutation(s, t, ErrOf(op));
    }
    assert forall x: Sample :: x in s <==> x in multiset(s);
    assert forall x: Sample :: x in t <==> x in multiset(t);
  }

  lemma SameLength<T>(s: seq<T>, t: seq<T>)
    requires multiset(s) == multiset(t)
    ensures |s| == |t|
  {
    assert |s| == |multiset(s)| && |t| == |multiset(t)|;
  }

  lemma SameMap<V>(a: map<OpType, V>, b: map<OpType, V>)
    requires forall op :: (op in a <==> op in b) && (op in a && op in b ==> a[op] == b[op])
    ensures a == b
  {
  }

  lemma OpAgrees(g: Geometry, a: map<OpType, Hist>, b: map<OpType, Hist>, s: seq<Sample>, t: seq<Sample>, op: OpType)
    requires ShowsOps(a, g, s) && ShowsOps(b, g, t) && multiset(s) == multiset(t)
    ensures (op in a <==> op in b) && (op in a && op in b ==> a[op] == b[op])
  {
    OpPermutation(g, s, t, op);
  }

  lemma OpsDetermined(g: Geometry, a: map<OpType, Hist>, b: map<OpType, Hist>, s: seq<Sample>, t: seq<Sample>)
    requires ShowsOps(a, g, s) && ShowsOps(b, g, t) && multiset(s) == multiset(t)
    ensures a == b
  {
    forall op ensures (op in a <==> op in b) && (op in a && op in b ==> a[op] == b[op]) {
      OpAgrees(g, a, b, s, t, op);
    }
    SameMap(a, b);
  }

  lemma ErrsDetermined(g: Geometry, a: map<OpType, int>, b: map<OpType, int>, s: seq<Sample>, t: seq<Sample>)
    requires ShowsErrs(a, s) && ShowsErrs(b, t) && multiset(s) == multiset(t)
    ensures a == b
  {
    forall op ensures op in a <==> op in b {
      OpPermutation(g, s, t, op);
    }
    forall op | op in a ensures a[op] == b[op] {
      OpPermutation(g, s, t, op);
    }
  }

  /** A view depends only on which samples were recorded: not on who recorded them, in what order,
      or in what order recorders were merged. */
  lemma ViewDetermined(g: Geometry, v: View, w: View, s: seq<Sample>, t: seq<Sample>)
    requires Shows(v, g, s) && Shows(w, g, t) && multiset(s) == multiset(t)
    ensures v == w
  {
    HistPermutation(g, s, t);
    FilterPermutation(s, t, IsErr());
    SameLength(Filter(s, IsErr()), Filter(t, IsErr()));
    OpsDetermined(g, v.byOp, w.byOp, s, t);
    ErrsDetermined(g, v.errByOp, w.errByOp, s, t);
  }

  // ----- the parts add up

  ghost function BinOf(g: Geometry, s: seq<Sample>, b: nat): OpType -> int
    requires b < g.bins
  {
    (op: OpType) => OpHist(g, s, op)[b]
  }

  ghost function ErrsOf(s: seq<Sample>): OpType -> int {
    (op: OpType) => ErrCount(s, op)
  }

  lemma {:induction false} PartsAddUp(g: Geometry, s: seq<Sample>, ops: set<OpType>, b: nat)
    requires OpsOf(s) <= ops && b < g.bins
    ensures HistOf(g, s)[b] == Sum(ops, BinOf(g, s, b))
    ensures |Filter(s, IsErr())| == Sum(ops, ErrsOf(s))
  {
    if s == [] {
      SumOfNats(ops, BinOf(g, s, b));
      SumOfNats(ops, ErrsOf(s));
    } else {
      var front, x := s[..|s| - 1], s[|s| - 1];
      assert s == front + [x];
      assert forall y | y in front :: y in s;
      PartsAddUp(g, front, ops, b);
      BinsStep(g, front, x, ops, b);
      ErrsStep(g, front, x, ops);
    }
  }

  lemma BinsStep(g: Geometry, front: seq<Sample>, x: Sample, ops: set<OpType>, b: nat)
    requires x.op in ops && b < g.bins
    requires HistOf(g, front)[b] == Sum(ops, BinOf(g, front, b))
    ensures HistOf(g, front + [x])[b] == Sum(ops, BinOf(g, front + [x], b))
  {
    HistOfSnoc(g, front, x);
    forall op
      ensures OpHist(g, front + [x], op) ==
              if x.op == op then RecordValue(g, OpHist(g, front, op), x.latency) else OpHist(g, front, op)
    {
      OpHistSnoc(g, front, x, op);
    }
    SumUpdate(ops, BinOf(g, front, b), BinOf(g, front + [x], b), x.op);
  }

  lemma ErrsStep(g: Geometry, front: seq<Sample>, x: Sample, ops: set<OpType>)
    requires x.op in ops && |Filter(front, IsErr())| == Sum(ops, ErrsOf(front))
    ensures |Filter(front + [x], IsErr())| == Sum(ops, ErrsOf(front + [x]))
  {
    FilterSnoc(front, x, IsErr());
    forall op ensures ErrCount(front + [x], op) == ErrCount(front, op) + if x.op == op && x.isErr then 1 else 0 {
      OpHistSnoc(g, front, x, op);
    }
    SumUpdate(ops, ErrsOf(front), ErrsOf(front + [x]), x.op);
  }

  /** Every view's overall bins are the sums of its per-operation bins, and its error total the sum
      of its per-operation errors. */
  lemma ViewAddsUp(g: Geometry, v: View, s: seq<Sample>, b: nat)
    requires Shows(v, g, s) && b < g.bins
    ensures v.overall[b] == Sum(v.byOp.Keys, BinOf(g, s, b))
    ensures v.errTotal == Sum(v.byOp.Keys, ErrsOf(s))
    ensures forall op | op in v.byOp :: BinOf(g, s, b)(op) == v.byOp[op][b]
  {
    assert forall op | op in OpsOf(s) :: op in v.byOp.Keys;
    PartsAddUp(g, s, v.byOp.Keys, b);
  }

  // ----- interval deltas

  /** `deltaHist`: bin by bin, with negative differences clamped to zero. */
  function DeltaHist(cur: Hist, prev: Option<Hist>): Hist {
    match prev
    case None => cur
    case Some(p) =>
      seq(|cur|, i requires 0 <= i < |cur| =>
        var d := cur[i] - if i < |p| then p[i] else 0;
        if d < 0 then 0 else d)
  }

  method ComputeDelta(cur: Hist, prev: Option<Hist>) returns (counts: Hist)
    ensures counts == DeltaHist(cur, prev)
  {
    if prev.None? {
      return cur;
    }
    counts := [];
    for i := 0 to |cur|
      invariant |counts| == i && forall j | 0 <= j < i :: counts[j] == DeltaHist(cur, prev)[j]
    {
      var d := cur[i];
      if i < |prev.value| {
        d := d - prev.value[i];
      }
      if d < 0 {
        d := 0;
      }
      counts := counts + [d];
    }
  }

  function At<V>(m: map<OpType, V>, op: OpType): Option<V> {
    if op in m then Some(m[op]) else None
  }

  function CountAt(m: map<OpType, int>, op: OpType): int {
    if op in m then m[op] else 0
  }

  /** One operation's part of an interval snapshot. */
  datatype Snap = Snap(delta: Hist, errors: int)

  function SnapOf(m: View, prevSnap: map<OpType, Hist>, prevErr: map<OpType, int>, op: OpType): Snap
    requires op in m.byOp
  {
    Snap(DeltaHist(m.byOp[op], At(prevSnap, op)), CountAt(m.errByOp, op) - CountAt(prevErr, op))
  }

  function ConcatAll<T>(parts: seq<seq<T>>): seq<T> {
    if parts == [] then [] else ConcatAll(parts[..|parts| - 1]) + parts[|parts| - 1]
  }

  /** Merging one map of histograms into another, key by key in any order. */
  method MergeInto(g: Geometry, dst: map<OpType, Hist>, src: map<OpType, Hist>) returns (r: map<OpType, Hist>)
    requires forall op | op in dst :: |dst[op]| == g.bins
    ensures r == MergeHists(g, dst, src)
  {
    r := dst;
    var left := src.Keys;
    while left != {}
      invariant left <= src.Keys && r.Keys == dst.Keys + (src.Keys - left)
      invariant forall op | op in r ::
                  r[op] == if op !in src || op in left then dst[op]
                           else AddHist(if op in dst then dst[op] else Zero(g), src[op])
      decreases left
    {
      ghost var some := Pick(left);
      var op :| op in left;
      r := r[op := AddHist(if op in r then r[op] else Zero(g), src[op])];
      left := left - {op};
    }
    forall op | op in dst ensures AddHist(dst[op], Zero(g)) == dst[op] {
    }
  }

  method AddCounts(dst: map<OpType, int>, src: map<OpType, int>) returns (r: map<OpType, int>)
    ensures r == MergeCounts(dst, src)
  {
    r := dst;
    var left := src.Keys;
    while left != {}
      invariant left <= src.Keys && r.Keys == dst.Keys + (src.Keys - left)
      invariant forall op | op in r ::
                  r[op] == if op in src && op !in left then CountAt(dst, op) + src[op] else dst[op]
      decreases left
    {
      ghost var some := Pick(left);
      var op :| op in left;
      r := r[op := CountAt(r, op) + src[op]];
      left := left - {op};
    }
  }

  lemma ConcatAllSnoc<T>(parts: seq<seq<T>>, part: seq<T>)
    ensures ConcatAll(parts + [part]) == ConcatAll(parts) + part
  {
    assert (parts + [part])[..|parts|] == parts;
  }

  ghost function TracesOf(locals: seq<Local>): seq<seq<Sample>>
    reads locals
  {
    seq(|locals|, i requires 0 <= i < |locals| reads locals => locals[i].trace)
  }

  class Recorder {
    const g: Geometry
    var locals: seq<Local>
    var prevSnap: map<OpType, Hist>
    var prevErr: map<OpType, int>

    ghost predicate Valid()
      reads this, locals
    {
      forall i | 0 <= i < |locals| :: locals[i].Valid() && locals[i].g == g
    }

    /** Everything recorded so far. */
    ghost function Samples(): seq<Sample>
      reads this, locals
    {
      ConcatAll(TracesOf(locals))
    }

    constructor (g: Geometry)
      ensures Valid() && locals == [] && Samples() == [] && this.g == g && prevSnap == map[] && prevErr == map[]
    {
      this.g := g;
      locals, prevSnap, prevErr := [], map[], map[];
    }

    method AddLocal() returns (l: Local)
      requires Valid()
      modifies this`locals
      ensures Valid() && fresh(l) && locals == old(locals) + [l] && Samples() == old(Samples())
    {
      l := new Local(g);
      ghost var before := TracesOf(locals);
      locals := locals + [l];
      assert TracesOf(locals)[..|before|] == before;
    }

    /** `collect`: the merged view of every Local is the view of all samples. */
    method Collect() returns (m: View)
      requires Valid()
      ensures Shows(m, g, Samples())
    {
      m := EmptyView(g);
      EmptyShows(g);
      ghost var traces := TracesOf(locals);
      for i := 0 to |locals|
        invariant Shows(m, g, ConcatAll(traces[..i]))
      {
        var l := locals[i];
        MergeShows(g, m, l.Current(), ConcatAll(traces[..i]), l.trace);
        assert traces[..i + 1][..i] == traces[..i];
        var byOp := MergeInto(g, m.byOp, l.byOp);
        var errByOp := AddCounts(m.errByOp, l.errByOp);
        m := View(AddHist(m.overall, l.overall), byOp, errByOp, m.errTotal + l.errTotal);
      }
      assert traces[..|locals|] == traces;
    }

    /** `Merge`: another recorder's samples become part of this one's, as one more Local. */
    method MergeFrom(other: Recorder)
      requires Valid() && other.Valid() && other.g == g
      modifies this`locals
      ensures Valid() && Samples() == old(Samples()) + old(other.Samples())
    {
      ghost var before, theirs := TracesOf(locals), other.Samples();
      var om := other.Collect();
      var l := new Local.FromView(g, om, theirs);
      locals := locals + [l];
      assert TracesOf(locals) == before + [l.trace];
      ConcatAllSnoc(before, l.trace);
    }

    /** `TakeInterval`, with nobody recording meanwhile: the per-operation differences from the
        last call, and the new baseline. */
    method TakeInterval() returns (out: map<OpType, Snap>, m: View)
      requires Valid()
      modifies this`prevSnap, this`prevErr
      ensures Shows(m, g, Samples())
      ensures out == TakeOut(m, old(prevSnap), old(prevErr))
      ensures prevSnap == old(prevSnap) + m.byOp && prevErr == NextErr(m, old(prevErr))
    {
      m := Collect();
      out, prevSnap, prevErr := TakeDeltas(m, prevSnap, prevErr);
    }
  }

  /** One operation's delta, error delta, and place in the next baseline. */
  ghost predicate Taken(m: View, prevSnap: map<OpType, Hist>, prevErr: map<OpType, int>, left: set<OpType>,
                        out: map<OpType, Snap>, snap: map<OpType, Hist>, err: map<OpType, int>, op: OpType)
  {
    if op in m.byOp && op !in left then
      && At(out, op) == Some(SnapOf(m, prevSnap, prevErr, op))
      && At(snap, op) == Some(m.byOp[op]) && At(err, op) == Some(CountAt(m.errByOp, op))
    else
      At(out, op) == None && At(snap, op) == At(prevSnap, op) && At(err, op) == At(prevErr, op)
  }

  lemma AllTaken(m: View, prevSnap: map<OpType, Hist>, prevErr: map<OpType, int>,
                 out: map<OpType, Snap>, snap: map<OpType, Hist>, err: map<OpType, int>)
    requires forall op :: Taken(m, prevSnap, prevErr, {}, out, snap, err, op)
    ensures out == TakeOut(m, prevSnap, prevErr)
    ensures snap == prevSnap + m.byOp && err == NextErr(m, prevErr)
  {
    forall op
      ensures At(out, op) == At(TakeOut(m, prevSnap, prevErr), op)
      ensures At(snap, op) == At(prevSnap + m.byOp, op) && At(err, op) == At(NextErr(m, prevErr), op)
    {
      assert Taken(m, prevSnap, prevErr, {}, out, snap, err, op);
    }
    SameAt(snap, prevSnap + m.byOp);
    SameAt(err, NextErr(m, prevErr));
    SameAt(out, TakeOut(m, prevSnap, prevErr));
  }

  /** The loop of `TakeInterval` over the operations seen so far. */
  method TakeDeltas(m: View, prevSnap: map<OpType, Hist>, prevErr: map<OpType, int>)
    returns (out: map<OpType, Snap>, snap: map<OpType, Hist>, err: map<OpType, int>)
    ensures out == TakeOut(m, prevSnap, prevErr)
    ensures snap == prevSnap + m.byOp && err == NextErr(m, prevErr)
  {
    out, snap, err := map[], prevSnap, prevErr;
    var left := m.byOp.Keys;
    while left != {}
      invariant left <= m.byOp.Keys
      invariant forall op :: Taken(m, prevSnap, prevErr, left, out, snap, err, op)
      decreases left
    {
      ghost var some := Pick(left);
      var op :| op in left;
      assert Taken(m, prevSnap, prevErr, left, out, snap, err, op);
      var delta := ComputeDelta(m.byOp[op], At(snap, op));
      var errDelta := CountAt(m.errByOp, op) - CountAt(err, op);
      ghost var out0, snap0, err0, left0 := out, snap, err, left;
      out := out[op := Snap(delta, errDelta)];
      snap := snap[op := m.byOp[op]];
      err := err[op := CountAt(m.errByOp, op)];
      left := left - {op};
      forall x ensures Taken(m, prevSnap, prevErr, left, out, snap, err, x) {
        assert Taken(m, prevSnap, prevErr, left0, out0, snap0, err0, x);
      }
    }
    AllTaken(m, prevSnap, prevErr, out, snap, err);
  }

  lemma SameAt<V>(a: map<OpType, V>, b: map<OpType, V>)
    requires forall op :: At(a, op) == At(b, op)
    ensures a == b
  {
    forall op ensures (op in a <==> op in b) && (op in a && op in b ==> a[op] == b[op]) {
      assert At(a, op) == At(b, op);
    }
    SameMap(a, b);
  }

  function TakeOut(m: View, prevSnap: map<OpType, Hist>, prevErr: map<OpType, int>): map<OpType, Snap> {
    map op | op in m.byOp :: SnapOf(m, prevSnap, prevErr, op)
  }

  function NextErr(m: View, prevErr: map<OpType, int>): map<OpType, int> {
    prevErr + map op | op in m.byOp :: CountAt(m.errByOp, op)
  }

  // ----- merging the workers of a distributed run

  datatype WorkerTally = WorkerTally(total: int, errors: int, clientBound: bool)

  datatype MergedRun = MergedRun(view: View, tally: WorkerTally) | NoResults | BadBlob(i: nat)

  function TotalOf(): WorkerTally -> int {
    (w: WorkerTally) => w.total
  }

  function ErrorsOf(): WorkerTally -> int {
    (w: WorkerTally) => w.errors
  }

  /** `t` sums up the reports of all workers; one client-bound worker makes the run client-bound. */
  ghost predicate SumsUp(t: WorkerTally, ws: seq<WorkerTally>) {
    && t.total == Total(Map(TotalOf(), ws))
    && t.errors == Total(Map(ErrorsOf(), ws))
    && (t.clientBound <==> SomeBound(ws))
  }

  ghost predicate SomeBound(ws: seq<WorkerTally>) {
    exists w :: w in ws && w.clientBound
  }

  lemma SomeBoundSnoc(ws: seq<WorkerTally>, w: WorkerTally)
    ensures SomeBound(ws + [w]) <==> SomeBound(ws) || w.clientBound
  {
    assert forall x :: x in ws + [w] <==> x in ws || x == w;
  }

  lemma TotalMapSnoc(f: WorkerTally -> int, ws: seq<WorkerTally>, w: WorkerTally)
    ensures Total(Map(f, ws + [w])) == Total(Map(f, ws)) + f(w)
  {
    assert Map(f, ws + [w])[..|ws|] == Map(f, ws);
  }

  lemma SumsUpSnoc(t: WorkerTally, ws: seq<WorkerTally>, w: WorkerTally)
    requires SumsUp(t, ws)
    ensures SumsUp(WorkerTally(t.total + w.total, t.errors + w.errors, t.clientBound || w.clientBound), ws + [w])
  {
    TotalMapSnoc(TotalOf(), ws, w);
    TotalMapSnoc(ErrorsOf(), ws, w);
    SomeBoundSnoc(ws, w);
  }

  method SumReports(reports: seq<WorkerTally>) returns (tally: WorkerTally)
    ensures SumsUp(tally, reports)
  {
    tally := WorkerTally(0, 0, false);
    for i := 0 to |reports|
      invariant SumsUp(tally, reports[..i])
    {
      var w := reports[i];
      SumsUpSnoc(tally, reports[..i], w);
      assert reports[..i + 1] == reports[..i] + [w];
      tally := WorkerTally(tally.total + w.total, tally.errors + w.errors, tally.clientBound || w.clientBound);
    }
    assert reports[..|reports|] == reports;
  }

  /** `mergeResults`: folding the workers' decoded recorders gives the view of one recorder fed
      every worker's samples; the first blob that does not decode is an error. */
  method MergeResults(g: Geometry, blobs: seq<Option<View>>, reports: seq<WorkerTally>, ghost samples: seq<seq<Sample>>)
    returns (r: MergedRun)
    requires |samples| == |blobs| && forall i | 0 <= i < |blobs| && blobs[i].Some? ::
              Shows(blobs[i].value, g, samples[i])
    ensures r.NoResults? <==> blobs == []
    ensures r.BadBlob? ==> r.i < |blobs| && blobs[r.i].None? && forall i | 0 <= i < r.i :: blobs[i].Some?
    ensures r.MergedRun? ==> Shows(r.view, g, ConcatAll(samples)) && SumsUp(r.tally, reports)
    ensures r.MergedRun? <==> blobs != [] && forall i | 0 <= i < |blobs| :: blobs[i].Some?
  {
    if |blobs| == 0 {
      return NoResults;
    }
    if blobs[0].None? {
      return BadBlob(0);
    }
    var merged := blobs[0].value;
    assert samples[..1][..0] == [] && ConcatAll(samples[..1]) == samples[0];
    for i := 1 to |blobs|
      invariant forall j | 0 <= j < i :: blobs[j].Some?
      invariant Shows(merged, g, ConcatAll(samples[..i]))
    {
      if blobs[i].None? {
        return BadBlob(i);
      }
      MergeShows(g, merged, blobs[i].value, ConcatAll(samples[..i]), samples[i]);
      assert samples[..i + 1][..i] == samples[..i];
      merged := MergeView(g, merged, blobs[i].value);
    }
    assert samples[..|blobs|] == samples;
    var tally := SumReports(reports);
    r := MergedRun(merged, tally);
  }
}

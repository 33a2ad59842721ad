/** Open-loop rate arithmetic and the stepped ramp: intended start times as a function of the
    claimed index alone. Durations and offsets are nanoseconds. */
module Schedule {
  import opened Arith
  import opened Int64s
  import opened Sorting

  // ----- the split forms

  /** n / ops seconds in nanoseconds, split into whole seconds and a remainder. */
  function OffsetFor(n: int, ops: int): int {
    if ops <= 0 then 0 else Quo(n, ops) * 1_000_000_000 + Quo(Rem(n, ops) * 1_000_000_000, ops)
  }

  /** rate * dur in whole operations, split the same way. */
  function OpsInStep(rate: int, dur: int): int {
    if rate <= 0 || dur <= 0 then 0
    else rate * Quo(dur, 1_000_000_000) + Quo(rate * Rem(dur, 1_000_000_000), 1_000_000_000)
  }

  /** The split form loses nothing: it is the floor of the exact quotient. */
  lemma {:induction false} OffsetForFloor(n: int, ops: int)
    requires n >= 0 && ops > 0
    ensures OffsetFor(n, ops) == n * 1_000_000_000 / ops
  {
    var q, r := n / ops, n % ops;
    DivMod(n, ops);
    assert Rem(n, ops) == r;
    assert n * 1_000_000_000 == q * 1_000_000_000 * ops + r * 1_000_000_000;
    DivShift(q * 1_000_000_000, r * 1_000_000_000, ops);
  }

  lemma {:induction false} OpsInStepFloor(rate: int, dur: int)
    requires rate > 0 && dur > 0
    ensures OpsInStep(rate, dur) == rate * dur / 1_000_000_000
  {
    var q, r := dur / 1_000_000_000, dur % 1_000_000_000;
    assert dur == q * 1_000_000_000 + r;
    assert rate * dur == rate * q * 1_000_000_000 + rate * r;
    assert rate * r >= 0;
    DivShift(rate * q, rate * r, 1_000_000_000);
  }

  // ----- the same forms in 64-bit arithmetic

  function OffsetFor64(n: Int64, ops: Int64): Int64 {
    if ops <= 0 then 0
    else Wrap(Wrap(Quo(n, ops) * 1_000_000_000) + Quo(Wrap(Rem(n, ops) * 1_000_000_000), ops))
  }

  function OpsInStep64(rate: Int64, dur: Int64): Int64 {
    if rate <= 0 || dur <= 0 then 0
    else Wrap(Wrap(rate * Quo(dur, 1_000_000_000)) + Quo(Wrap(rate * Rem(dur, 1_000_000_000)), 1_000_000_000))
  }

  /** The largest rate at which no remainder product can overflow. */
  const MAX_RATE: int := 9_223_372_037

  const MAX_STEP_RATE: int := 9_223_372_046

  ghost predicate OffsetExact(ops: int) {
    0 < ops < TWO63 ==>
      forall n: Int64 | n >= 0 && OffsetFor(n, ops) < TWO63 :: OffsetFor64(n, ops) == OffsetFor(n, ops)
  }

  /** Nothing wraps when the products and the sum stay below 2^63. */
  lemma NothingWraps(whole: int, product: int, part: int)
    requires 0 <= whole && 0 <= part && 0 <= product < TWO63 && whole + part < TWO63
    ensures Wrap(product) == product && Wrap(Wrap(whole) + part) == whole + part
  {
  }

  lemma QuoOfNat(x: int, d: int)
    requires x >= 0 && d > 0
    ensures Quo(x, d) == x / d >= 0 && Rem(x, d) == x % d && 0 <= x % d < d
  {
    DivMod(x, d);
    DivMono(0, x, d);
    DivUnique(0, d, 0);
  }

  lemma OffsetFits(n: Int64, ops: Int64)
    requires n >= 0 && 0 < ops <= MAX_RATE && OffsetFor(n, ops) < TWO63
    ensures OffsetFor64(n, ops) == OffsetFor(n, ops)
  {
    QuoOfNat(n, ops);
    var whole, product := Quo(n, ops) * 1_000_000_000, Rem(n, ops) * 1_000_000_000;
    QuoOfNat(product, ops);
    NothingWraps(whole, product, Quo(product, ops));
  }

  /** x wraps to something whose quotient by d is not that of x, once x reaches 2^63. */
  lemma OverflowShows(x: int, d: int)
    requires x >= TWO63 && 0 < d < TWO63
    ensures Quo(Wrap(x), d) < x / d
  {
    WrapLow(x);
    var y := Wrap(x);
    assert y <= x - TWO64;
    DivMono(d, x, d);
    DivUnique(d, d, 1);
    if y >= 0 {
      DivMod(x, d);
      DivMod(y, d);
      MulStrict(x / d, y / d, d);
    } else {
      DivMono(0, -y, d);
    }
  }

  lemma {:induction false} WrapLow(x: int)
    requires x >= TWO63
    ensures Wrap(x) <= x - TWO64
    decreases x
  {
    if x - TWO64 >= TWO63 {
      WrapLow(x - TWO64);
    }
  }

  /** The split form agrees with the exact floor wherever the result fits, exactly up to MAX_RATE. */
  lemma OffsetExactUpTo(ops: int)
    requires 0 < ops < TWO63
    ensures OffsetExact(ops) <==> ops <= MAX_RATE
  {
    if ops <= MAX_RATE {
      forall n: Int64 | n >= 0 && OffsetFor(n, ops) < TWO63 ensures OffsetFor64(n, ops) == OffsetFor(n, ops) {
        OffsetFits(n, ops);
      }
    } else {
      var n: Int64 := ops - 1;
      var x := n * 1_000_000_000;
      DivUnique(n, ops, 0);
      assert Quo(n, ops) == 0 && Rem(n, ops) == n;
      OverflowShows(x, ops);
      DivBelow(x, ops, 1_000_000_000);
      assert OffsetFor(n, ops) == x / ops < TWO63;
      assert OffsetFor64(n, ops) == Wrap(Quo(Wrap(x), ops));
      QuoInRange(Wrap(x), ops);
    }
  }

  lemma QuoInRange(y: Int64, d: int)
    requires d > 0
    ensures -TWO63 <= Quo(y, d) < TWO63
  {
    var m := if y < 0 then -(y as int) else y as int;
    DivMod(m, d);
    DivMono(0, m, d);
    if m / d > 0 {
      MulStrict(1, d, m / d);
    }
  }

  ghost predicate StepExact(rate: int) {
    0 < rate < TWO63 ==>
      forall dur: Int64 | dur > 0 && OpsInStep(rate, dur) < TWO63 :: OpsInStep64(rate, dur) == OpsInStep(rate, dur)
  }

  lemma StepFits(rate: Int64, dur: Int64)
    requires 0 < rate <= MAX_STEP_RATE && dur > 0 && OpsInStep(rate, dur) < TWO63
    ensures OpsInStep64(rate, dur) == OpsInStep(rate, dur)
  {
    QuoOfNat(dur, 1_000_000_000);
    var q, r := Quo(dur, 1_000_000_000), Rem(dur, 1_000_000_000);
    MulStrict(r, 999_999_999, rate);
    MulStrict(0, q, rate);
    MulStrict(0, r, rate);
    var whole, product := rate * q, rate * r;
    QuoOfNat(product, 1_000_000_000);
    NothingWraps(whole, product, Quo(product, 1_000_000_000));
  }

  lemma StepExactUpTo(rate: int)
    requires 0 < rate < TWO63
    ensures StepExact(rate) <==> rate <= MAX_STEP_RATE
  {
    if rate <= MAX_STEP_RATE {
      forall dur: Int64 | dur > 0 && OpsInStep(rate, dur) < TWO63
        ensures OpsInStep64(rate, dur) == OpsInStep(rate, dur) {
        StepFits(rate, dur);
      }
    } else {
      var dur: Int64 := 999_999_999;
      var x := rate * 999_999_999;
      OverflowShows(x, 1_000_000_000);
      assert OpsInStep(rate, dur) == x / 1_000_000_000 < TWO63;
      assert OpsInStep64(rate, dur) == Wrap(Quo(Wrap(x), 1_000_000_000));
      QuoInRange(Wrap(x), 1_000_000_000);
    }
  }

  // ----- monotonicity of one rate

  lemma OffsetForMono(m: int, n: int, ops: int)
    requires 0 <= m <= n && ops > 0
    ensures 0 <= OffsetFor(m, ops) <= OffsetFor(n, ops)
  {
    OffsetForFloor(m, ops);
    OffsetForFloor(n, ops);
    DivMono(0, m * 1_000_000_000, ops);
    DivMono(m * 1_000_000_000, n * 1_000_000_000, ops);
  }

  /** Up to a billion operations per second no two indices share an instant. */
  lemma OffsetForStrict(m: int, n: int, ops: int)
    requires 0 <= m < n && 0 < ops <= 1_000_000_000
    ensures OffsetFor(m, ops) < OffsetFor(n, ops)
  {
    OffsetForFloor(m, ops);
    OffsetForFloor(n, ops);
    DivShift(1, m * 1_000_000_000, ops);
    DivMono(ops + m * 1_000_000_000, n * 1_000_000_000, ops);
  }

  /** Above it the first two do. */
  lemma OffsetForTie(ops: int)
    requires ops > 1_000_000_000
    ensures OffsetFor(0, ops) == OffsetFor(1, ops) == 0
  {
    OffsetForFloor(0, ops);
    OffsetForFloor(1, ops);
    DivUnique(0, ops, 0);
    DivUnique(1_000_000_000, ops, 0);
  }

  /** The offset of an index that belongs to a step of length `dur` falls inside the step. */
  lemma Confined(n: int, rate: int, dur: int)
    requires n >= 0 && rate > 0 && dur > 0
    ensures n < OpsInStep(rate, dur) ==> OffsetFor(n, rate) < dur
  {
    OffsetForFloor(n, rate);
    OpsInStepFloor(rate, dur);
    DivBelow(n * 1_000_000_000, rate, dur);
    if n < rate * dur / 1_000_000_000 {
      assert (n + 1) * 1_000_000_000 <= rate * dur;
    }
  }

  // ----- the ramp

  datatype RateStep = RateStep(opsPerSec: int, duration: int)

  datatype Segment = Segment(startCount: int, startOffset: int, rate: int)

  function IsUsable(): RateStep -> bool {
    (s: RateStep) => s.opsPerSec > 0 && s.duration > 0
  }

  /** The steps that count: a step with a non-positive rate or duration is skipped. */
  function Usable(steps: seq<RateStep>): seq<RateStep> {
    Filter(steps, IsUsable())
  }

  ghost predicate AllUsable(u: seq<RateStep>) {
    forall i | 0 <= i < |u| :: u[i].opsPerSec > 0 && u[i].duration > 0
  }

  function OpsIn(s: RateStep): int {
    OpsInStep(s.opsPerSec, s.duration)
  }

  function Count(u: seq<RateStep>): int {
    if u == [] then 0 else Count(u[..|u| - 1]) + OpsIn(u[|u| - 1])
  }

  function Length(u: seq<RateStep>): int {
    if u == [] then 0 else Length(u[..|u| - 1]) + u[|u| - 1].duration
  }

  /** Segment i of the ramp over the usable steps `u`. */
  function SegmentOf(u: seq<RateStep>, i: nat): Segment
    requires i < |u|
  {
    Segment(Count(u[..i]), Length(u[..i]), u[i].opsPerSec)
  }

  lemma UsableIsUsable(steps: seq<RateStep>)
    ensures AllUsable(Usable(steps))
  {
    var u := Usable(steps);
    forall i | 0 <= i < |u| ensures u[i].opsPerSec > 0 && u[i].duration > 0 {
      FilterIn(steps, IsUsable(), u[i]);
    }
  }

  lemma OpsInNat(s: RateStep)
    requires s.opsPerSec > 0 && s.duration > 0
    ensures OpsIn(s) >= 0
  {
    OpsInStepFloor(s.opsPerSec, s.duration);
    assert s.opsPerSec * s.duration >= 0;
  }

  lemma PrefixStep(u: seq<RateStep>, i: nat)
    requires i < |u|
    ensures Count(u[..i + 1]) == Count(u[..i]) + OpsIn(u[i])
    ensures Length(u[..i + 1]) == Length(u[..i]) + u[i].duration
  {
    assert u[..i + 1][..i] == u[..i];
  }

  lemma {:induction false} PrefixMono(u: seq<RateStep>, i: nat, j: nat)
    requires AllUsable(u) && i <= j <= |u|
    ensures 0 <= Count(u[..i]) <= Count(u[..j])
    ensures 0 <= Length(u[..i]) <= Length(u[..j])
  {
    if i < j {
      PrefixMono(u, i, j - 1);
      PrefixStep(u, j - 1);
      OpsInNat(u[j - 1]);
    } else if i > 0 {
      PrefixMono(u, i - 1, i - 1);
      PrefixStep(u, i - 1);
      OpsInNat(u[i - 1]);
    }
  }

  /** Segment i is the last one that starts at or before index n. */
  ghost predicate Holds(u: seq<RateStep>, n: int, i: nat) {
    i < |u| && Count(u[..i]) <= n && (i + 1 == |u| || n < Count(u[..i + 1]))
  }

  lemma HoldsUnique(u: seq<RateStep>, n: int, i: nat, j: nat)
    requires AllUsable(u) && Holds(u, n, i) && Holds(u, n, j)
    ensures i == j
  {
    if i < j {
      PrefixMono(u, i + 1, j);
    } else if j < i {
      PrefixMono(u, j + 1, i);
    }
  }

  /** The index function is total: every n >= 0 has its segment. */
  function Locate(u: seq<RateStep>, n: int): (i: nat)
    requires AllUsable(u) && u != [] && n >= 0
    ensures Holds(u, n, i)
  {
    LocateFrom(u, n, |u| - 1)
  }

  function LocateFrom(u: seq<RateStep>, n: int, i: nat): (r: nat)
    requires AllUsable(u) && i < |u| && n >= 0 && (i + 1 == |u| || n < Count(u[..i + 1]))
    ensures Holds(u, n, r)
    decreases i
  {
    if Count(u[..i]) <= n then i else
    assert i > 0 by { assert u[..0] == []; }
    LocateFrom(u, n, i - 1)
  }

  /** The intended offset of index n. */
  function OffsetAt(u: seq<RateStep>, n: int): int
    requires AllUsable(u) && u != [] && n >= 0
  {
    var seg := SegmentOf(u, Locate(u, n));
    seg.startOffset + OffsetFor(n - seg.startCount, seg.rate)
  }

  /** Confinement: an index of a non-final segment falls inside that step's time. */
  lemma {:induction false} OffsetConfined(u: seq<RateStep>, n: int)
    requires AllUsable(u) && u != [] && n >= 0
    ensures var i := Locate(u, n);
            && Length(u[..i]) <= OffsetAt(u, n)
            && (i + 1 < |u| ==> OffsetAt(u, n) < Length(u[..i + 1]))
  {
    var i := Locate(u, n);
    OffsetForMono(0, n - Count(u[..i]), u[i].opsPerSec);
    PrefixStep(u, i);
    Confined(n - Count(u[..i]), u[i].opsPerSec, u[i].duration);
  }

  /** Each non-final segment owns exactly floor(rate * dur / 1e9) consecutive indices, the final
      one all the rest. */
  lemma SegmentOwns(u: seq<RateStep>, i: nat, n: int)
    requires AllUsable(u) && i < |u| && n >= 0
    ensures Locate(u, n) == i <==>
            Count(u[..i]) <= n && (i + 1 == |u| || n < Count(u[..i]) + u[i].opsPerSec * u[i].duration / 1_000_000_000)
  {
    PrefixStep(u, i);
    OpsInStepFloor(u[i].opsPerSec, u[i].duration);
    if Holds(u, n, i) {
      HoldsUnique(u, n, i, Locate(u, n));
    }
  }

  lemma LocateMono(u: seq<RateStep>, m: int, n: int)
    requires AllUsable(u) && u != [] && 0 <= m <= n
    ensures Locate(u, m) <= Locate(u, n)
  {
    var i, j := Locate(u, m), Locate(u, n);
    if j < i {
      PrefixMono(u, j + 1, i);
    }
  }

  /** Intended times never go back, and they move on across every segment boundary. */
  lemma {:induction false} OffsetMonotone(u: seq<RateStep>, m: int, n: int)
    requires AllUsable(u) && u != [] && 0 <= m < n
    ensures OffsetAt(u, m) <= OffsetAt(u, n)
    ensures Locate(u, m) != Locate(u, n) ==> OffsetAt(u, m) < OffsetAt(u, n)
  {
    var i, j := Locate(u, m), Locate(u, n);
    LocateMono(u, m, n);
    if i == j {
      OffsetForMono(m - Count(u[..i]), n - Count(u[..i]), u[i].opsPerSec);
    } else {
      OffsetConfined(u, m);
      OffsetConfined(u, n);
      PrefixMono(u, i + 1, j);
    }
  }

  // ----- spacing

  lemma Distribute(d: int, q: int, p: int, r: int)
    ensures d * (q * p + r) == d * q * p + d * r
  {
  }

  /** At a constant rate, d arrivals on the offset has grown by at least d * floor(1e9 / ops). */
  lemma OffsetGap(a: int, b: int, ops: int)
    requires 0 <= a <= b && ops > 0
    ensures OffsetFor(b, ops) - OffsetFor(a, ops) >= (b - a) * (1_000_000_000 / ops)
  {
    var d, q, r := b - a, 1_000_000_000 / ops, 1_000_000_000 % ops;
    DivMod(1_000_000_000, ops);
    Distribute(d, q, ops, r);
    NatTimes(d, r);
    OffsetForFloor(a, ops);
    OffsetForFloor(b, ops);
    DivShift(d * q, a * 1_000_000_000, ops);
    DivMono(d * q * ops + a * 1_000_000_000, b * 1_000_000_000, ops);
  }

  /** The last index of a step lies at least floor(1e9 / rate) before the end of the step. */
  lemma BoundaryGap(k: int, rate: int, dur: int)
    requires k >= 0 && rate > 0 && dur > 0 && k < OpsInStep(rate, dur)
    ensures dur - OffsetFor(k, rate) >= 1_000_000_000 / rate
  {
    var t, x, y := 1_000_000_000 / rate, k * 1_000_000_000, dur * rate;
    OffsetForFloor(k, rate);
    OpsInStepFloor(rate, dur);
    assert rate * dur == y;
    DivMod(y, 1_000_000_000);
    DivMod(1_000_000_000, rate);
    DivShift(t, x, rate);
    DivMono(t * rate + x, y, rate);
    DivUnique(y, rate, dur);
  }

  function MaxRate(u: seq<RateStep>): (r: int)
    requires u != []
    ensures forall s | s in u :: s.opsPerSec <= r
    ensures exists s | s in u :: s.opsPerSec == r
  {
    if |u| == 1 then u[0].opsPerSec
    else
      var r := MaxRate(u[1..]);
      assert u == [u[0]] + u[1..];
      if u[0].opsPerSec > r then u[0].opsPerSec else r
  }

  lemma SlowerIsWider(rate: int, top: int)
    requires 0 < rate <= top
    ensures 1_000_000_000 / top <= 1_000_000_000 / rate
  {
    var q := 1_000_000_000 / top;
    QuoOfNat(1_000_000_000, top);
    DivMod(1_000_000_000, top);
    MulStrict(rate, top, if q > 0 then q else 1);
    DivBelow(1_000_000_000, rate, q);
  }

  lemma SameSegmentGap(u: seq<RateStep>, n: int, i: nat)
    requires AllUsable(u) && u != [] && n >= 0 && Locate(u, n) == i == Locate(u, n + 1)
    ensures OffsetAt(u, n + 1) - OffsetAt(u, n) >= 1_000_000_000 / u[i].opsPerSec
  {
    OffsetGap(n - Count(u[..i]), n + 1 - Count(u[..i]), u[i].opsPerSec);
  }

  lemma NextSegmentGap(u: seq<RateStep>, n: int, i: nat, j: nat)
    requires AllUsable(u) && u != [] && n >= 0 && Locate(u, n) == i < j == Locate(u, n + 1)
    ensures OffsetAt(u, n + 1) - OffsetAt(u, n) >= 1_000_000_000 / u[i].opsPerSec
  {
    PrefixStep(u, i);
    PrefixMono(u, i + 1, j);
    BoundaryGap(n - Count(u[..i]), u[i].opsPerSec, u[i].duration);
    OffsetConfined(u, n + 1);
  }

  lemma OwnRateGap(u: seq<RateStep>, n: int)
    requires AllUsable(u) && u != [] && n >= 0
    ensures OffsetAt(u, n + 1) - OffsetAt(u, n) >= 1_000_000_000 / u[Locate(u, n)].opsPerSec
  {
    var i, j := Locate(u, n), Locate(u, n + 1);
    LocateMono(u, n, n + 1);
    if i == j {
      SameSegmentGap(u, n, i);
    } else {
      NextSegmentGap(u, n, i, j);
    }
  }

  /** Along a ramp successive arrivals are at least floor(1e9 / greatest rate) apart. */
  lemma {:induction false} RampStep(u: seq<RateStep>, n: int)
    requires AllUsable(u) && u != [] && n >= 0
    ensures OffsetAt(u, n + 1) - OffsetAt(u, n) >= 1_000_000_000 / MaxRate(u)
  {
    OwnRateGap(u, n);
    var own := u[Locate(u, n)];
    assert own in u;
    SlowerIsWider(own.opsPerSec, MaxRate(u));
  }

  /** A segment that owns at least two indices runs at no more than a billion per second. */
  ghost predicate Separable(u: seq<RateStep>) {
    forall i | 0 <= i < |u| :: u[i].opsPerSec > 1_000_000_000 ==> i + 1 < |u| && OpsIn(u[i]) < 2
  }

  ghost predicate StrictlyIncreasing(u: seq<RateStep>)
    requires AllUsable(u) && u != []
  {
    forall m, n | 0 <= m < n :: OffsetAt(u, m) < OffsetAt(u, n)
  }

  /** All intended times are distinct exactly when no segment packs two indices into a nanosecond. */
  lemma StrictExactly(u: seq<RateStep>)
    requires AllUsable(u) && u != []
    ensures StrictlyIncreasing(u) <==> Separable(u)
  {
    if Separable(u) {
      forall m, n | 0 <= m < n ensures OffsetAt(u, m) < OffsetAt(u, n) {
        StrictPair(u, m, n);
      }
    } else {
      var i: nat :| i < |u| && u[i].opsPerSec > 1_000_000_000 && !(i + 1 < |u| && OpsIn(u[i]) < 2);
      var m := Count(u[..i]);
      PrefixMono(u, i, i);
      PrefixStep(u, i);
      HoldsUnique(u, m, i, Locate(u, m));
      HoldsUnique(u, m + 1, i, Locate(u, m + 1));
      OffsetForTie(u[i].opsPerSec);
      assert OffsetAt(u, m) == OffsetAt(u, m + 1);
    }
  }

  lemma StrictPair(u: seq<RateStep>, m: int, n: int)
    requires AllUsable(u) && u != [] && 0 <= m < n && Separable(u)
    ensures OffsetAt(u, m) < OffsetAt(u, n)
  {
    var i := Locate(u, m);
    OffsetMonotone(u, m, n);
    if i == Locate(u, n) {
      PrefixStep(u, i);
      assert u[i].opsPerSec <= 1_000_000_000;
      OffsetForStrict(m - Count(u[..i]), n - Count(u[..i]), u[i].opsPerSec);
    }
  }

  /** The exact number of operations the first steps call for, in billionths. */
  function Ideal(u: seq<RateStep>): int {
    if u == [] then 0 else Ideal(u[..|u| - 1]) + u[|u| - 1].opsPerSec * u[|u| - 1].duration
  }

  /** Drift: the count at a boundary trails the ideal by less than one operation per segment. */
  lemma {:induction false} Drift(u: seq<RateStep>)
    requires AllUsable(u)
    ensures Count(u) * 1_000_000_000 <= Ideal(u)
    ensures u != [] ==> Ideal(u) < (Count(u) + |u|) * 1_000_000_000
  {
    if u != [] {
      var s := u[|u| - 1];
      Drift(u[..|u| - 1]);
      OpsInStepFloor(s.opsPerSec, s.duration);
    }
  }

  // ----- the code

  /** The segments are those of the usable steps. */
  ghost predicate Describes(segs: seq<Segment>, u: seq<RateStep>) {
    |segs| == |u| && forall i | 0 <= i < |u| :: segs[i] == SegmentOf(u, i)
  }

  /** The loop of `NewRamp`. */
  method BuildSegments(steps: seq<RateStep>) returns (segs: seq<Segment>)
    ensures Describes(segs, Usable(steps))
  {
    segs := [];
    var count, offset := 0, 0;
    for n := 0 to |steps|
      invariant Describes(segs, Usable(steps[..n]))
      invariant count == Count(Usable(steps[..n])) && offset == Length(Usable(steps[..n]))
    {
      var s := steps[n];
      ghost var u := Usable(steps[..n]);
      UsableSnoc(steps, n);
      if s.opsPerSec <= 0 || s.duration <= 0 {
        continue;
      }
      DescribesSnoc(segs, u, s);
      segs := segs + [Segment(count, offset, s.opsPerSec)];
      count := count + OpsInStep(s.opsPerSec, s.duration);
      offset := offset + s.duration;
    }
    assert steps[..|steps|] == steps;
  }

  lemma UsableSnoc(steps: seq<RateStep>, n: nat)
    requires n < |steps|
    ensures Usable(steps[..n + 1]) ==
            if steps[n].opsPerSec > 0 && steps[n].duration > 0 then Usable(steps[..n]) + [steps[n]]
            else Usable(steps[..n])
  {
    assert steps[..n + 1] == steps[..n] + [steps[n]];
    FilterSnoc(steps[..n], steps[n], IsUsable());
  }

  lemma DescribesSnoc(segs: seq<Segment>, u: seq<RateStep>, s: RateStep)
    requires Describes(segs, u)
    ensures Describes(segs + [Segment(Count(u), Length(u), s.opsPerSec)], u + [s])
    ensures Count(u + [s]) == Count(u) + OpsIn(s) && Length(u + [s]) == Length(u) + s.duration
  {
    var v := u + [s];
    assert v[..|u|] == u;
    forall i | 0 <= i < |u| ensures SegmentOf(v, i) == SegmentOf(u, i) {
      assert v[..i] == u[..i];
    }
  }

  /** `offsetForIndex`: the binary search over start counts finds the segment that holds n. */
  method OffsetForIndex(segs: seq<Segment>, n: int, ghost u: seq<RateStep>) returns (offset: int)
    requires AllUsable(u) && u != [] && Describes(segs, u) && n >= 0
    ensures offset == OffsetAt(u, n)
  {
    var lo, hi := 0, |segs|;
    while lo < hi
      invariant 0 <= lo <= hi <= |segs|
      invariant lo > 0 ==> Count(u[..lo - 1]) <= n
      invariant hi < |segs| ==> n < Count(u[..hi])
    {
      var mid := (lo + hi) / 2;
      assert segs[mid].startCount == Count(u[..mid]);
      if segs[mid].startCount > n {
        hi := mid;
      } else {
        lo := mid + 1;
      }
    }
    FoundSegment(segs, n, u, lo);
    var seg := segs[lo - 1];
    offset := seg.startOffset + OffsetFor(n - seg.startCount, seg.rate);
  }

  lemma FoundSegment(segs: seq<Segment>, n: int, u: seq<RateStep>, lo: int)
    requires AllUsable(u) && u != [] && Describes(segs, u) && n >= 0 && 0 <= lo <= |segs|
    requires lo > 0 ==> Count(u[..lo - 1]) <= n
    requires lo < |segs| ==> n < Count(u[..lo])
    ensures lo > 0 && OffsetAt(u, n) ==
            segs[lo - 1].startOffset + OffsetFor(n - segs[lo - 1].startCount, segs[lo - 1].rate)
    ensures segs[lo - 1].startCount <= n && segs[lo - 1].rate > 0
  {
    assert u[..0] == [];
    HoldsUnique(u, n, lo - 1, Locate(u, n));
  }

  lemma NeverEarlier(u: seq<RateStep>, n: int)
    requires AllUsable(u) && u != [] && n >= 0
    ensures forall m | 0 <= m < n :: OffsetAt(u, m) <= OffsetAt(u, n)
  {
    forall m | 0 <= m < n ensures OffsetAt(u, m) <= OffsetAt(u, n) {
      OffsetMonotone(u, m, n);
    }
  }

  /** A stepped open-loop scheduler. */
  class Ramp {
    const start: int
    const segs: seq<Segment>
    ghost const u: seq<RateStep>
    var n: int

    ghost predicate Valid()
      reads this
    {
      n >= 0 && AllUsable(u) && u != [] && Describes(segs, u)
    }

    constructor (start: int, segs: seq<Segment>, ghost u: seq<RateStep>)
      requires AllUsable(u) && u != [] && Describes(segs, u)
      ensures Valid() && n == 0 && this.start == start && this.u == u
    {
      this.start, this.segs, this.u := start, segs, u;
      n := 0;
    }

    /** Claims the next index; the time handed out depends on that index alone and is never
        earlier than any handed out before. */
    method Next() returns (t: int)
      requires Valid()
      modifies this
      ensures Valid() && n == old(n) + 1
      ensures t == start + OffsetAt(u, old(n))
      ensures forall m | 0 <= m < old(n) :: OffsetAt(u, m) <= t - start
    {
      n := n + 1;
      var offset := OffsetForIndex(segs, n - 1, u);
      t := start + offset;
      NeverEarlier(u, n - 1);
    }
  }

  /** `NewRamp`: null stands for the closed-loop scheduler it falls back to. */
  method NewRamp(start: int, steps: seq<RateStep>) returns (r: Ramp?)
    ensures r == null <==> Usable(steps) == []
    ensures r != null ==> fresh(r) && r.Valid() && r.n == 0 && r.start == start && r.u == Usable(steps)
  {
    var segs := BuildSegments(steps);
    UsableIsUsable(steps);
    if |segs| == 0 {
      return null;
    }
    r := new Ramp(start, segs, Usable(steps));
  }

  /** The rates of a linear ramp: exact at both ends, interpolated and truncated between them, and
      never turning back. */
  method LinearSteps(from: int, to: int, nsteps: int, each: int) returns (steps: seq<RateStep>)
    ensures nsteps <= 1 ==> steps == [RateStep(to, each)]
    ensures nsteps > 1 ==> |steps| == nsteps && steps[0].opsPerSec == from && steps[nsteps - 1].opsPerSec == to
    ensures forall i | 0 <= i < |steps| :: steps[i].duration == each
    ensures nsteps > 1 ==> forall i | 0 <= i < nsteps ::
              var climbed := (to - from) * i;
              steps[i].opsPerSec == from + if climbed >= 0 then climbed / (nsteps - 1) else -(-climbed / (nsteps - 1))
    ensures forall i, j | 0 <= i < j < |steps| ::
              if from <= to then steps[i].opsPerSec <= steps[j].opsPerSec else steps[j].opsPerSec <= steps[i].opsPerSec
  {
    if nsteps <= 1 {
      return [RateStep(to, each)];
    }
    steps := [];
    for i := 0 to nsteps
      invariant |steps| == i
      invariant forall k | 0 <= k < i :: steps[k] == RateStep(from + Quo((to - from) * k, nsteps - 1), each)
    {
      steps := steps + [RateStep(from + Quo((to - from) * i, nsteps - 1), each)];
    }
    var d := nsteps - 1;
    QuoExact(to - from, d);
    forall i, j | 0 <= i < j < |steps|
      ensures if from <= to then steps[i].opsPerSec <= steps[j].opsPerSec else steps[j].opsPerSec <= steps[i].opsPerSec
    {
      QuoMono(to - from, i, j, d);
    }
  }

  lemma QuoExact(x: int, d: int)
    requires d > 0
    ensures Quo(x * d, d) == x && Quo(x * 0, d) == 0
  {
    DivUnique(0, d, 0);
    if x >= 0 {
      MulStrict(0, x, d);
      DivUnique(x * d, d, x);
    } else {
      MulStrict(x, 0, d);
      assert -(x * d) == (-x) * d;
      DivUnique((-x) * d, d, -x);
    }
  }

  /** Truncated division is monotone. */
  lemma QuoMonotone(a: int, b: int, d: int)
    requires d > 0 && a <= b
    ensures Quo(a, d) <= Quo(b, d)
  {
    DivUnique(0, d, 0);
    if a >= 0 {
      DivMono(a, b, d);
    } else if b >= 0 {
      DivMono(0, b, d);
      DivMono(0, -a, d);
    } else {
      DivMono(-b, -a, d);
    }
  }

  lemma QuoMono(x: int, i: int, j: int, d: int)
    requires d > 0 && 0 <= i <= j
    ensures x >= 0 ==> Quo(x * i, d) <= Quo(x * j, d)
    ensures x < 0 ==> Quo(x * j, d) <= Quo(x * i, d)
  {
    if x > 0 {
      MulStrict(i, j, x);
      QuoMonotone(x * i, x * j, d);
    } else if x < 0 {
      MulStrict(i, j, -x);
      Negate(x, i);
      Negate(x, j);
      QuoMonotone(x * j, x * i, d);
    }
  }

  lemma Negate(x: int, i: int)
    ensures i * -x == -(x * i)
  {
  }

  /** The constant-rate scheduler. */
  class OpenLoop {
    const start: int
    const ops: int
    var n: int

    constructor (start: int, ops: int)
      requires ops > 0
      ensures n == 0 && this.start == start && this.ops == ops
    {
      this.start, this.ops := start, ops;
      n := 0;
    }

    method Next() returns (t: int)
      requires ops > 0 && n >= 0
      modifies this
      ensures n == old(n) + 1 && t == start + old(n) * 1_000_000_000 / ops
    {
      n := n + 1;
      OffsetForFloor(n - 1, ops);
      t := start + OffsetFor(n - 1, ops);
    }
  }

  /** The share of a fixed aggregate rate that each of `workers` worker processes drives at; 0 stands
      for the closed loop, which has no arrival schedule. */
  function WorkerRate(rate: int, workers: int): int {
    if rate <= 0 || workers <= 0 then 0 else rate / workers
  }

  /** Together the workers fall short of the aggregate rate by less than one operation per second
      each, and they silently leave it for the closed loop exactly when they outnumber it. */
  lemma {:induction false} WorkerRateSplit(rate: int, workers: int)
    requires rate > 0 && workers > 0
    ensures WorkerRate(rate, workers) * workers <= rate < WorkerRate(rate, workers) * workers + workers
    ensures WorkerRate(rate, workers) == 0 <==> rate < workers
  {
    DivMod(rate, workers);
    DivBelow(rate, workers, 1);
  }
}

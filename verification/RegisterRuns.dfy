/** What the register check sees of a run against an atomic store, and when that raises a false
    alarm: failed operations are recorded as if they had succeeded, and operations that were not
    observed are not recorded at all. */
module RegisterRuns {
  import opened Linearizability
  import opened RegisterCheck
  import opened Sorting

  /** One operation, at the instant at which the store executes it. A write carries the token of its
      value. `applied` says whether a write took effect, `failed` whether an error was returned, and
      `observed` is false during warm-up and for operations interrupted after the store ran them. */
  datatype Attempt = Attempt(span: Span, write: bool, token: nat, applied: bool, failed: bool, observed: bool)

  /** A run lists the attempts in the order in which the store executes them, each within its span. */
  ghost predicate IsRun(run: seq<Attempt>) {
    forall i, j | 0 <= i < j < |run| :: !Before(run[j].span, run[i].span)
  }

  function AfterAttempt(store: map<int, nat>, a: Attempt): map<int, nat> {
    if a.write && a.applied then store[a.span.key := a.token] else store
  }

  /** The history event of an attempt: a failed read, like a read of an absent key, records 0, and a
      write records its token whether or not it failed. */
  function EventFor(a: Attempt, store: map<int, nat>): Event {
    Event(a.span.client, if a.write then WRITE else READ, a.span.key, if a.write then a.token else 0,
          if a.write || a.failed then 0 else Lookup(store, a.span.key), a.span.call, a.span.ret, !a.failed)
  }

  /** The recorded history of a run that starts with `store`. */
  function Recorded(run: seq<Attempt>, store: map<int, nat>): seq<Event> {
    if run == [] then []
    else
      var rest := Recorded(run[1..], AfterAttempt(store, run[0]));
      if run[0].observed then [EventFor(run[0], store)] + rest else rest
  }

  function History(run: seq<Attempt>): seq<Op> {
    OpsOf(Recorded(run, map[]))
  }

  // ----- the record as a sequence of operations

  lemma {:induction false} OpsOfCons(e: Event, events: seq<Event>)
    ensures OpsOf([e] + events) == OpOf(e) + OpsOf(events)
  {
    if events == [] {
      assert [e] + events == [] + [e];
      OpsOfSnoc([], e);
    } else {
      var front, last := events[..|events| - 1], events[|events| - 1];
      OpsOfCons(e, front);
      assert events == front + [last];
      assert [e] + events == [e] + front + [last];
      OpsOfSnoc([e] + front, last);
      OpsOfSnoc(front, last);
    }
  }

  /** What the history says of an attempt. */
  function OpFor(a: Attempt, store: map<int, nat>): Op {
    if a.write then Op(a.span, true, a.token, 0)
    else Op(a.span, false, 0, if a.failed then 0 else Lookup(store, a.span.key))
  }

  function Ops(run: seq<Attempt>, store: map<int, nat>): seq<Op> {
    if run == [] then []
    else
      var rest := Ops(run[1..], AfterAttempt(store, run[0]));
      if run[0].observed then [OpFor(run[0], store)] + rest else rest
  }

  lemma {:induction false} RecordedOps(run: seq<Attempt>, store: map<int, nat>)
    ensures OpsOf(Recorded(run, store)) == Ops(run, store)
  {
    if run != [] {
      var next := AfterAttempt(store, run[0]);
      RecordedOps(run[1..], next);
      if run[0].observed {
        OpsOfCons(EventFor(run[0], store), Recorded(run[1..], next));
        assert OpOf(EventFor(run[0], store)) == [OpFor(run[0], store)];
      }
    }
  }

  // ----- when the record tells the truth

  /** The token of the last write of `key` among the first `i` attempts that satisfies `p`; 0 if none. */
  function LastWrite(run: seq<Attempt>, i: nat, key: int, p: Attempt -> bool): nat
    requires i <= |run|
  {
    if i == 0 then 0
    else if run[i - 1].write && run[i - 1].span.key == key && p(run[i - 1]) then run[i - 1].token
    else LastWrite(run, i - 1, key, p)
  }

  function IsApplied(): Attempt -> bool {
    (a: Attempt) => a.applied
  }

  function IsObserved(): Attempt -> bool {
    (a: Attempt) => a.observed
  }

  /** The read at `i` recorded what the recorded writes before it say: it failed and they leave the
      key at 0, or it succeeded and the last recorded write says what the last effective one does. */
  ghost predicate Truthful(run: seq<Attempt>, i: nat)
    requires i < |run|
  {
    var key := run[i].span.key;
    run[i].observed && !run[i].write ==>
      LastWrite(run, i, key, IsObserved()) == if run[i].failed then 0 else LastWrite(run, i, key, IsApplied())
  }

  ghost predicate Consistent(run: seq<Attempt>) {
    forall i | 0 <= i < |run| :: Truthful(run, i)
  }

  function AfterObserved(seen: map<int, nat>, a: Attempt): map<int, nat> {
    if a.write && a.observed then seen[a.span.key := a.token] else seen
  }

  /** `store` and `seen` hold the last effective and the last recorded write of every key. */
  ghost predicate Holds(run: seq<Attempt>, n: nat, store: map<int, nat>, seen: map<int, nat>) {
    && n <= |run|
    && forall key ::
         && Lookup(store, key) == LastWrite(run, n, key, IsApplied())
         && Lookup(seen, key) == LastWrite(run, n, key, IsObserved())
  }

  lemma HoldsNext(run: seq<Attempt>, n: nat, store: map<int, nat>, seen: map<int, nat>)
    requires n < |run| && Holds(run, n, store, seen)
    ensures Holds(run, n + 1, AfterAttempt(store, run[n]), AfterObserved(seen, run[n]))
  {
  }

  /** From any point on, the recorded operations are legal exactly when the reads are truthful. */
  lemma {:induction false} LegalExactly(run: seq<Attempt>, n: nat, store: map<int, nat>, seen: map<int, nat>)
    requires Holds(run, n, store, seen)
    ensures StoreLegal(Ops(run[n..], store), seen) <==> forall i | n <= i < |run| :: Truthful(run, i)
    decreases |run| - n
  {
    if n < |run| {
      var a, rest := run[n], run[n + 1..];
      assert run[n..][1..] == rest;
      HoldsNext(run, n, store, seen);
      LegalExactly(run, n + 1, AfterAttempt(store, a), AfterObserved(seen, a));
      LegalStep(a, rest, store, seen);
      assert run[n..] == [a] + rest;
      assert Truthful(run, n) <==>
             (a.observed && !a.write ==> OpFor(a, store).output == Lookup(seen, a.span.key));
    }
  }

  lemma LegalStep(a: Attempt, rest: seq<Attempt>, store: map<int, nat>, seen: map<int, nat>)
    ensures StoreLegal(Ops([a] + rest, store), seen) <==>
            && (a.observed && !a.write ==> OpFor(a, store).output == Lookup(seen, a.span.key))
            && StoreLegal(Ops(rest, AfterAttempt(store, a)), AfterObserved(seen, a))
  {
    assert ([a] + rest)[1..] == rest;
    var tail := Ops(rest, AfterAttempt(store, a));
    if a.observed {
      assert ([OpFor(a, store)] + tail)[1..] == tail;
    }
  }

  // ----- linearizability of the record

  lemma {:induction false} OpsInOrder(run: seq<Attempt>, store: map<int, nat>)
    requires IsRun(run)
    ensures SortedBy(Ops(run, store), MayPrecede())
    ensures forall x | x in Ops(run, store) :: exists i | 0 <= i < |run| :: run[i].observed && run[i].span == x.span
  {
    if run != [] {
      var rest, next := run[1..], AfterAttempt(store, run[0]);
      assert forall i | 0 <= i < |rest| :: rest[i] == run[i + 1];
      OpsInOrder(rest, next);
      var tail := Ops(rest, next);
      forall x | x in tail
        ensures exists i | 0 <= i < |run| :: run[i].observed && run[i].span == x.span
        ensures MayPrecede()(OpFor(run[0], store), x)
      {
        var i :| 0 <= i < |rest| && rest[i].observed && rest[i].span == x.span;
        assert run[i + 1].span == x.span;
      }
      if run[0].observed {
        SortedCons(OpFor(run[0], store), tail, MayPrecede());
      }
    }
  }

  lemma HistoryIs(run: seq<Attempt>)
    ensures History(run) == Ops(run, map[])
    ensures StoreLegal(History(run), map[]) <==> Consistent(run)
  {
    RecordedOps(run, map[]);
    assert run[0..] == run;
    LegalExactly(run, 0, map[], map[]);
  }

  /** In every run, whatever the concurrency: truthful reads give a linearizable history. */
  lemma {:induction false} ConsistentIsLinearizable(run: seq<Attempt>)
    requires IsRun(run) && Consistent(run)
    ensures StoreLinearizable(History(run))
  {
    HistoryIs(run);
    OpsInOrder(run, map[]);
    assert Arranges(History(run), History(run));
  }

  /** No failed read, and exactly the writes that took effect are recorded: no false alarm. */
  lemma {:induction false} CleanRunPasses(run: seq<Attempt>)
    requires IsRun(run)
    requires forall a | a in run && !a.write && a.observed :: !a.failed
    requires forall a | a in run && a.write :: a.applied <==> a.observed
    ensures StoreLinearizable(History(run))
  {
    forall i: nat | i < |run| ensures Truthful(run, i) {
      assert run[i] in run;
      SameLastWrite(run, i, run[i].span.key);
    }
    ConsistentIsLinearizable(run);
  }

  lemma {:induction false} SameLastWrite(run: seq<Attempt>, i: nat, key: int)
    requires i <= |run| && forall a | a in run && a.write :: a.applied <==> a.observed
    ensures LastWrite(run, i, key, IsApplied()) == LastWrite(run, i, key, IsObserved())
  {
    if i > 0 {
      assert run[i - 1] in run;
      SameLastWrite(run, i - 1, key);
    }
  }

  /** The observed operations on each key follow one another. */
  ghost predicate Sequential(run: seq<Attempt>) {
    forall i, j | 0 <= i < j < |run| && run[i].observed && run[j].observed && run[i].span.key == run[j].span.key ::
      Before(run[i].span, run[j].span)
  }

  function StrictlyBefore(): (Op, Op) -> bool {
    (x: Op, y: Op) => x.span.key == y.span.key ==> Before(x.span, y.span)
  }

  lemma {:induction false} OpsSequential(run: seq<Attempt>, store: map<int, nat>)
    requires Sequential(run)
    ensures SortedBy(Ops(run, store), StrictlyBefore())
    ensures forall x | x in Ops(run, store) :: exists i | 0 <= i < |run| :: run[i].observed && run[i].span == x.span
  {
    if run != [] {
      var rest, next := run[1..], AfterAttempt(store, run[0]);
      assert forall i | 0 <= i < |rest| :: rest[i] == run[i + 1];
      OpsSequential(rest, next);
      var tail := Ops(rest, next);
      forall x | x in tail
        ensures exists i | 0 <= i < |run| :: run[i].observed && run[i].span == x.span
        ensures run[0].observed ==> StrictlyBefore()(OpFor(run[0], store), x)
      {
        var i :| 0 <= i < |rest| && rest[i].observed && rest[i].span == x.span;
        assert run[i + 1].span == x.span && run[i + 1].observed;
      }
      if run[0].observed {
        SortedCons(OpFor(run[0], store), tail, StrictlyBefore());
      }
    }
  }

  /** Operations on one key that follow one another have only one real-time order. */
  lemma OneOrder(ops: seq<Op>, order: seq<Op>, key: int)
    requires SortedBy(ops, StrictlyBefore()) && SortedBy(ops, MayPrecede()) && Arranges(order, ops)
    ensures OnKey(order, key) == OnKey(ops, key)
  {
    var a, b := OnKey(ops, key), OnKey(order, key);
    FilterPermutation(ops, order, HasKey(key));
    FilterSorted(ops, HasKey(key), StrictlyBefore());
    FilterSorted(ops, HasKey(key), MayPrecede());
    FilterSorted(order, HasKey(key), MayPrecede());
    forall x, y | x in a && y in a && MayPrecede()(x, y) && MayPrecede()(y, x) ensures x == y {
      FilterIn(ops, HasKey(key), x);
      FilterIn(ops, HasKey(key), y);
      NoTie(a, x, y);
    }
    SortedUnique(a, b, MayPrecede());
  }

  lemma NoTie(a: seq<Op>, x: Op, y: Op)
    requires SortedBy(a, StrictlyBefore()) && x in a && y in a && x.span.key == y.span.key
    requires MayPrecede()(x, y) && MayPrecede()(y, x)
    ensures x == y
  {
    var i :| 0 <= i < |a| && a[i] == x;
    var j :| 0 <= j < |a| && a[j] == y;
    assert i < j ==> StrictlyBefore()(x, y);
    assert j < i ==> StrictlyBefore()(y, x);
  }

  /** Exactly when the history of a run is linearizable, if the observed operations on each key follow
      one another: when every recorded read is truthful. So failed reads, failed writes without
      effect and unobserved writes are harmless exactly as far as no later read shows them. */
  lemma {:induction false} LinearizableExactly(run: seq<Attempt>)
    requires IsRun(run) && Sequential(run)
    ensures StoreLinearizable(History(run)) <==> Consistent(run)
  {
    HistoryIs(run);
    if Consistent(run) {
      ConsistentIsLinearizable(run);
    }
    if StoreLinearizable(History(run)) {
      var ops := History(run);
      var order: seq<Op> :| Arranges(order, ops) && StoreLegal(order, map[]);
      OpsInOrder(run, map[]);
      OpsSequential(run, map[]);
      StoreLegalByKey(order, map[]);
      forall key ensures RegisterLegal(OnKey(ops, key), Lookup(map[], key)) {
        OneOrder(ops, order, key);
      }
      StoreLegalByKey(ops, map[]);
    }
  }

  /** Overlap forgives: a failed read may be taken to precede a write it overlaps. So without that
      assumption untruthful reads need not raise an alarm. */
  lemma {:induction false} OverlapForgives() returns (run: seq<Attempt>)
    ensures IsRun(run) && !Consistent(run) && StoreLinearizable(History(run))
  {
    var w := Attempt(Span(0, 1, 0, 9), true, 7, true, false, true);
    var r := Attempt(Span(1, 1, 0, 9), false, 0, false, true, true);
    run := [w, r];
    assert LastWrite(run, 0, 1, IsObserved()) == 0 && LastWrite(run, 1, 1, IsObserved()) == 7;
    assert !Truthful(run, 1);
    PairHistory(w, r);
    ReadFirst(OpFor(w, map[]), OpFor(r, AfterAttempt(map[], w)));
  }

  lemma PairHistory(a: Attempt, b: Attempt)
    requires a.observed && b.observed
    ensures History([a, b]) == [OpFor(a, map[]), OpFor(b, AfterAttempt(map[], a))]
  {
    RecordedOps([a, b], map[]);
    assert [a, b][1..] == [b] && [b][1..] == [];
    assert Ops([b], AfterAttempt(map[], a)) == [OpFor(b, AfterAttempt(map[], a))];
  }

  /** A write and a read of 0 that overlap: the read may go first. */
  lemma ReadFirst(x: Op, y: Op)
    requires x.write && !y.write && y.output == 0 && !Before(x.span, y.span)
    ensures StoreLinearizable([x, y])
  {
    var order := [y, x];
    assert order[1..] == [x] && [x][1..] == [];
    assert StoreLegal([x], map[]);
    assert multiset(order) == multiset([x, y]);
    assert Arranges(order, [x, y]) && StoreLegal(order, map[]);
  }

  // ----- the three false alarms

  /** `first` and then a successful or failed read of the same key. */
  lemma {:induction false} PairAlarm(first: Attempt, read: Attempt)
    requires Before(first.span, read.span) && !Before(read.span, first.span) && first.span.key == read.span.key
    requires first.write && first.token > 0 && !read.write && read.observed
    requires || (read.failed && first.observed)
             || (!read.failed && first.observed && !first.applied)
             || (!read.failed && !first.observed && first.applied)
    ensures !StoreLinearizable(History([first, read]))
  {
    var run := [first, read];
    assert LastWrite(run, 0, first.span.key, IsObserved()) == 0 && LastWrite(run, 0, first.span.key, IsApplied()) == 0;
    assert !Truthful(run, 1);
    LinearizableExactly(run);
  }
}

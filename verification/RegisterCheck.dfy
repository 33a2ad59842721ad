/** The register checker: history indexing, per-key checking and verdict aggregation. */
module RegisterCheck {
  import opened Domain
  import opened Sorting
  import opened Linearizability

  /** One recorded operation: `f` is its family, [invoke, complete] its real-time interval. */
  datatype Event = Event(process: int, f: string, key: int, wval: nat, rval: nat, invoke: int, complete: int, ok: bool)

  const READ := "read"
  const WRITE := "write"

  /** A line of the history file after JSON decoding. */
  datatype Line = Blank | Parsed(event: Event) | Malformed

  datatype History = History(events: seq<Event>, byProcess: map<int, seq<Event>>, byKey: map<int, seq<Event>>)

  function OfKey(key: int): Event -> bool {
    (e: Event) => e.key == key
  }

  function OfProcess(process: int): Event -> bool {
    (e: Event) => e.process == process
  }

  ghost predicate SplitByKey(index: map<int, seq<Event>>, events: seq<Event>) {
    && (forall k :: k in index <==> exists e :: e in events && e.key == k)
    && (forall k | k in index :: index[k] == Filter(events, OfKey(k)))
  }

  ghost predicate SplitByProcess(index: map<int, seq<Event>>, events: seq<Event>) {
    && (forall p :: p in index <==> exists e :: e in events && e.process == p)
    && (forall p | p in index :: index[p] == Filter(events, OfProcess(p)))
  }

  /** The indexes split the events by key and by process, each part in file order. */
  ghost predicate Indexed(h: History) {
    SplitByKey(h.byKey, h.events) && SplitByProcess(h.byProcess, h.events)
  }

  function IsParsed(): Line -> bool {
    (line: Line) => line.Parsed?
  }

  function ToLine(): Event -> Line {
    (e: Event) => Parsed(e)
  }

  /** The events are those of the lines that hold one, in their order. */
  ghost predicate EventsOf(events: seq<Event>, lines: seq<Line>) {
    Map(ToLine(), events) == Filter(lines, IsParsed())
  }

  lemma EventsOfSnoc(events: seq<Event>, lines: seq<Line>, line: Line)
    requires EventsOf(events, lines)
    ensures EventsOf(if line.Parsed? then events + [line.event] else events, lines + [line])
  {
    FilterSnoc(lines, line, IsParsed());
  }

  lemma AppendByKey(index: map<int, seq<Event>>, events: seq<Event>, e: Event)
    requires SplitByKey(index, events)
    ensures var own := if e.key in index then index[e.key] else [];
            SplitByKey(index[e.key := own + [e]], events + [e])
  {
    forall k ensures Filter(events + [e], OfKey(k)) == Filter(events, OfKey(k)) + (if e.key == k then [e] else []) {
      FilterSnoc(events, e, OfKey(k));
    }
    if e.key !in index {
      FilterNone(events, OfKey(e.key));
    }
    assert e in events + [e];
    assert forall x | x in events :: x in events + [e];
  }

  lemma AppendByProcess(index: map<int, seq<Event>>, events: seq<Event>, e: Event)
    requires SplitByProcess(index, events)
    ensures var own := if e.process in index then index[e.process] else [];
            SplitByProcess(index[e.process := own + [e]], events + [e])
  {
    forall p ensures Filter(events + [e], OfProcess(p)) ==
        Filter(events, OfProcess(p)) + (if e.process == p then [e] else []) {
      FilterSnoc(events, e, OfProcess(p));
    }
    if e.process !in index {
      FilterNone(events, OfProcess(e.process));
    }
    assert e in events + [e];
    assert forall x | x in events :: x in events + [e];
  }

  /** Reads a history: succeeds exactly when no line is malformed, keeps every event in file
      order, and otherwise names the first malformed line (counted from 1). */
  method ReadHistory(lines: seq<Line>) returns (r: Result<History>)
    ensures r.Ok? <==> forall i | 0 <= i < |lines| :: !lines[i].Malformed?
    ensures r.Ok? ==> EventsOf(r.value.events, lines) && Indexed(r.value)
    ensures r.Err? ==> 1 <= r.line <= |lines| && lines[r.line - 1].Malformed?
                       && forall i | 0 <= i < r.line - 1 :: !lines[i].Malformed?
  {
    var h := History([], map[], map[]);
    for n := 0 to |lines|
      invariant forall i | 0 <= i < n :: !lines[i].Malformed?
      invariant EventsOf(h.events, lines[..n]) && Indexed(h)
    {
      assert lines[..n + 1] == lines[..n] + [lines[n]];
      EventsOfSnoc(h.events, lines[..n], lines[n]);
      match lines[n] {
        case Blank =>
        case Malformed => return Err(n + 1);
        case Parsed(e) =>
          var ofProcess := if e.process in h.byProcess then h.byProcess[e.process] else [];
          var ofKey := if e.key in h.byKey then h.byKey[e.key] else [];
          AppendByProcess(h.byProcess, h.events, e);
          AppendByKey(h.byKey, h.events, e);
          h := History(h.events + [e], h.byProcess[e.process := ofProcess + [e]], h.byKey[e.key := ofKey + [e]]);
      }
    }
    assert lines[..|lines|] == lines;
    r := Ok(h);
  }

  /** The keys of the history, strictly ascending. */
  method Keys(h: History) returns (keys: seq<int>)
    ensures forall i, j | 0 <= i < j < |keys| :: keys[i] < keys[j]
    ensures forall k :: k in keys <==> k in h.byKey
  {
    var out: seq<int> := [];
    var left := h.byKey.Keys;
    while left != {}
      invariant left <= h.byKey.Keys
      invariant forall k :: k in out <==> k in h.byKey && k !in left
      invariant forall i, j | 0 <= i < j < |out| :: out[i] != out[j]
      decreases left
    {
      ghost var some := Pick(left);
      var k :| k in left;
      out := out + [k];
      left := left - {k};
    }
    var leq := (a: int, b: int) => a <= b;
    keys := StableSort(out, leq);
    StableSortSorts(out, leq);
    DistinctPermutation(out, keys);
    forall k ensures k in keys <==> k in h.byKey {
      assert k in keys <==> k in multiset(keys);
      assert k in out <==> k in multiset(out);
    }
    forall i, j | 0 <= i < j < |keys| ensures keys[i] < keys[j] {
      assert leq(keys[i], keys[j]);
    }
  }

  /** The operations a list of events denotes: writes put, reads get, appends are not ours. */
  function OpOf(e: Event): seq<Op> {
    if e.f == WRITE then [Op(Span(e.process, e.key, e.invoke, e.complete), true, e.wval, 0)]
    else if e.f == READ then [Op(Span(e.process, e.key, e.invoke, e.complete), false, 0, e.rval)]
    else []
  }

  function OpsOf(events: seq<Event>): seq<Op> {
    if events == [] then [] else OpsOf(events[..|events| - 1]) + OpOf(events[|events| - 1])
  }

  function ReadOrWrite(): Event -> bool {
    (e: Event) => e.f == "read" || e.f == "write"
  }

  /** `op` is what `e` recorded: on its key, over its interval, the value it wrote or saw. */
  ghost predicate Denotes(op: Op, e: Event) {
    && op.span.client == e.process && op.span.key == e.key && op.span.call == e.invoke && op.span.ret == e.complete
    && (op.write <==> e.f == "write")
    && (if op.write then op.value == e.wval else op.output == e.rval)
  }

  ghost predicate DenoteAll(ops: seq<Op>, events: seq<Event>) {
    |ops| == |events| && forall i | 0 <= i < |ops| :: Denotes(ops[i], events[i])
  }

  lemma {:induction false} OpsDenote(events: seq<Event>)
    ensures DenoteAll(OpsOf(events), Filter(events, ReadOrWrite()))
  {
    if events != [] {
      var front, e := events[..|events| - 1], events[|events| - 1];
      assert events == front + [e];
      OpsDenote(front);
      FilterSnoc(front, e, ReadOrWrite());
    }
  }

  /** The operations of the reads and writes, in file order; other events are left out. */
  method RegisterOps(events: seq<Event>) returns (ops: seq<Op>)
    ensures ops == OpsOf(events)
    ensures DenoteAll(ops, Filter(events, ReadOrWrite()))
  {
    OpsDenote(events);
    ops := [];
    for n := 0 to |events|
      invariant ops == OpsOf(events[..n])
    {
      var e := events[n];
      assert events[..n + 1][..n] == events[..n];
      if e.f == WRITE {
        ops := ops + [Op(Span(e.process, e.key, e.invoke, e.complete), true, e.wval, 0)];
      } else if e.f == READ {
        ops := ops + [Op(Span(e.process, e.key, e.invoke, e.complete), false, 0, e.rval)];
      }
    }
    assert events[..|events|] == events;
  }

  lemma OpsOfSnoc(events: seq<Event>, e: Event)
    ensures OpsOf(events + [e]) == OpsOf(events) + OpOf(e)
  {
    assert (events + [e])[..|events|] == events;
  }

  lemma OpOfKey(e: Event, key: int)
    ensures OnKey(OpOf(e), key) == if e.key == key then OpOf(e) else []
  {
    if e.key == key {
      FilterAll(OpOf(e), HasKey(key));
    } else {
      FilterNone(OpOf(e), HasKey(key));
    }
  }

  /** Grouping by key before or after turning events into operations is the same. */
  lemma {:induction false} OpsOfKey(events: seq<Event>, key: int)
    ensures OpsOf(Filter(events, OfKey(key))) == OnKey(OpsOf(events), key)
  {
    if events != [] {
      var front, e := events[..|events| - 1], events[|events| - 1];
      assert events == front + [e];
      OpsOfKey(front, key);
      FilterSnoc(front, e, OfKey(key));
      OpsOfSnoc(front, e);
      OpsOfSnoc(Filter(front, OfKey(key)), e);
      FilterConcat(OpsOf(front), OpOf(e), HasKey(key));
      OpOfKey(e, key);
      assert Filter(front, OfKey(key)) + [] == Filter(front, OfKey(key));
    }
  }

  datatype CheckResult = Legal | Illegal | TimedOut

  /** The external per-key checker is right about `ops`, or times out. */
  ghost predicate Right(check: seq<Op> -> CheckResult, ops: seq<Op>) {
    && (check(ops) == Legal ==> RegisterLinearizable(ops))
    && (check(ops) == Illegal ==> !RegisterLinearizable(ops))
  }

  /** It is right about every operation list whose intervals do not run backwards. */
  ghost predicate Sound(check: seq<Op> -> CheckResult) {
    forall ops | WellFormed(ops) :: Right(check, ops)
  }

  /** It is right about every key of this history, which is all the verdict needs of it. */
  ghost predicate RightOnKeys(h: History, check: seq<Op> -> CheckResult) {
    forall key :: Right(check, OnKey(OpsOf(h.events), key))
  }

  /** A history whose clocks never ran backwards is composable and within what is assumed. */
  lemma WellFormedDecided(h: History, check: seq<Op> -> CheckResult)
    requires Sound(check) && WellFormed(OpsOf(h.events))
    ensures RightOnKeys(h, check) && Composable(Spans(OpsOf(h.events)))
  {
    var ops := OpsOf(h.events);
    WellFormedComposable(ops);
    forall key ensures Right(check, OnKey(ops, key)) {
      forall x | x in OnKey(ops, key) ensures x.span.call <= x.span.ret {
        FilterIn(ops, HasKey(key), x);
      }
    }
  }

  /** The outcome of one key: a key without reads or writes is not checked at all. */
  function Outcome(h: History, key: int, check: seq<Op> -> CheckResult): CheckResult {
    var ops := OnKey(OpsOf(h.events), key);
    if ops == [] then Legal else check(ops)
  }

  lemma OutcomeSound(h: History, key: int, check: seq<Op> -> CheckResult)
    requires RightOnKeys(h, check)
    ensures Outcome(h, key, check) == Legal ==> RegisterLinearizable(OnKey(OpsOf(h.events), key))
    ensures Outcome(h, key, check) == Illegal ==> !RegisterLinearizable(OnKey(OpsOf(h.events), key))
  {
    var none: seq<Op> := [];
    assert Arranges(none, none) && RegisterLegal(none, 0);
  }

  ghost predicate HasOutcome(h: History, check: seq<Op> -> CheckResult, outcome: CheckResult) {
    exists k :: k in h.byKey && Outcome(h, k, check) == outcome
  }

  method CheckKey(h: History, key: int, check: seq<Op> -> CheckResult) returns (res: CheckResult)
    requires Indexed(h) && key in h.byKey
    ensures res == Outcome(h, key, check)
  {
    var ops := RegisterOps(h.byKey[key]);
    OpsOfKey(h.events, key);
    if ops == [] {
      return Legal;
    }
    res := check(ops);
  }

  lemma SomeKeyIllegal(h: History, key: int, check: seq<Op> -> CheckResult)
    requires RightOnKeys(h, check) && Outcome(h, key, check) == Illegal
    ensures !StoreLinearizable(OpsOf(h.events))
  {
    OutcomeSound(h, key, check);
    if StoreLinearizable(OpsOf(h.events)) {
      StoreImpliesKey(OpsOf(h.events), key);
    }
  }

  lemma AllKeysLegal(h: History, check: seq<Op> -> CheckResult)
    requires Indexed(h) && RightOnKeys(h, check)
    requires forall k | k in h.byKey :: Outcome(h, k, check) == Legal
    ensures Composable(Spans(OpsOf(h.events))) ==> StoreLinearizable(OpsOf(h.events))
  {
    forall k ensures RegisterLinearizable(OnKey(OpsOf(h.events), k)) {
      if k !in h.byKey {
        FilterNone(h.events, OfKey(k));
        OpsOfKey(h.events, k);
      }
      OutcomeSound(h, k, check);
    }
    if Composable(Spans(OpsOf(h.events))) {
      Locality(OpsOf(h.events));
    }
  }

  function HasResult(h: History, check: seq<Op> -> CheckResult, res: CheckResult): int -> bool {
    (key: int) => Outcome(h, key, check) == res
  }

  /** The anomalies of the keys, in key order. */
  function AnomaliesOf(h: History, keys: seq<int>, check: seq<Op> -> CheckResult): seq<Anomaly> {
    if keys == [] then []
    else
      var key := keys[|keys| - 1];
      AnomaliesOf(h, keys[..|keys| - 1], check) +
      match Outcome(h, key, check)
      case Illegal => [Anomaly("non-linearizable", key)]
      case TimedOut => [Anomaly("unknown", key)]
      case Legal => []
  }

  ghost predicate Deserved(h: History, check: seq<Op> -> CheckResult, a: Anomaly) {
    || (a.kind == "non-linearizable" && Outcome(h, a.subject, check) == Illegal)
    || (a.kind == "unknown" && Outcome(h, a.subject, check) == TimedOut)
  }

  lemma {:induction false} AnomaliesAre(h: History, keys: seq<int>, check: seq<Op> -> CheckResult, a: Anomaly)
    ensures a in AnomaliesOf(h, keys, check) <==> a.subject in keys && Deserved(h, check, a)
  {
    if keys != [] {
      var front, key := keys[..|keys| - 1], keys[|keys| - 1];
      assert keys == front + [key];
      AnomaliesAre(h, front, check, a);
      if a.subject == key && Deserved(h, check, a) {
        assert AnomaliesOf(h, keys, check)[|AnomaliesOf(h, front, check)|] == a;
      }
    }
  }

  ghost predicate Seen(h: History, keys: seq<int>, check: seq<Op> -> CheckResult, res: CheckResult) {
    exists k :: k in keys && Outcome(h, k, check) == res
  }

  lemma SeenSnoc(h: History, keys: seq<int>, key: int, check: seq<Op> -> CheckResult, res: CheckResult)
    ensures Seen(h, keys + [key], check, res) <==> Seen(h, keys, check, res) || Outcome(h, key, check) == res
  {
    assert key in keys + [key];
    assert forall k | k in keys :: k in keys + [key];
  }

  lemma ScanSnoc(h: History, keys: seq<int>, key: int, check: seq<Op> -> CheckResult)
    ensures forall res :: Seen(h, keys + [key], check, res) <==>
        Seen(h, keys, check, res) || Outcome(h, key, check) == res
    ensures |Filter(keys + [key], HasResult(h, check, Illegal))|
            == |Filter(keys, HasResult(h, check, Illegal))| + if Outcome(h, key, check) == Illegal then 1 else 0
    ensures AnomaliesOf(h, keys + [key], check) == AnomaliesOf(h, keys, check) +
            match Outcome(h, key, check)
            case Illegal => [Anomaly("non-linearizable", key)]
            case TimedOut => [Anomaly("unknown", key)]
            case Legal => []
  {
    forall res ensures Seen(h, keys + [key], check, res) <==>
        Seen(h, keys, check, res) || Outcome(h, key, check) == res {
      SeenSnoc(h, keys, key, check, res);
    }
    FilterSnoc(keys, key, HasResult(h, check, Illegal));
    assert (keys + [key])[..|keys|] == keys;
  }

  /** The per-key loop: which kinds of outcome were seen, and the tallies they leave. */
  method ScanKeys(h: History, keys: seq<int>, check: seq<Op> -> CheckResult)
    returns (sawIllegal: bool, sawUnknown: bool, ordering: nat, anomalies: seq<Anomaly>)
    requires Indexed(h) && forall k | k in keys :: k in h.byKey
    ensures sawIllegal <==> Seen(h, keys, check, Illegal)
    ensures sawUnknown <==> Seen(h, keys, check, TimedOut)
    ensures ordering == |Filter(keys, HasResult(h, check, Illegal))|
    ensures anomalies == AnomaliesOf(h, keys, check)
  {
    sawIllegal, sawUnknown, ordering, anomalies := false, false, 0, [];
    for n := 0 to |keys|
      invariant ordering == |Filter(keys[..n], HasResult(h, check, Illegal))|
      invariant sawIllegal <==> Seen(h, keys[..n], check, Illegal)
      invariant sawUnknown <==> Seen(h, keys[..n], check, TimedOut)
      invariant anomalies == AnomaliesOf(h, keys[..n], check)
    {
      var key := keys[n];
      assert keys[..n + 1] == keys[..n] + [key];
      ScanSnoc(h, keys[..n], key, check);
      var res := CheckKey(h, key, check);
      if res == Illegal {
        sawIllegal, ordering := true, ordering + 1;
        anomalies := anomalies + [Anomaly("non-linearizable", key)];
      } else if res == TimedOut {
        sawUnknown := true;
        anomalies := anomalies + [Anomaly("unknown", key)];
      }
    }
    assert keys[..|keys|] == keys;
  }

  lemma IllegalCount(h: History, keys: seq<int>, check: seq<Op> -> CheckResult)
    requires forall i, j | 0 <= i < j < |keys| :: keys[i] != keys[j]
    requires forall k :: k in keys <==> k in h.byKey
    ensures |Filter(keys, HasResult(h, check, Illegal))| == |set k | k in h.byKey && Outcome(h, k, check) == Illegal|
  {
    var p := HasResult(h, check, Illegal);
    var differ := (a: int, b: int) => a != b;
    assert SortedBy(keys, differ);
    FilterSorted(keys, p, differ);
    var part := Filter(keys, p);
    forall i, j | 0 <= i < j < |part| ensures part[i] != part[j] {
      assert differ(part[i], part[j]);
    }
    var all := set k | k in h.byKey && Outcome(h, k, check) == Illegal;
    forall k ensures k in part <==> k in all {
      FilterIn(keys, p, k);
    }
    SameSize(part, all);
  }

  lemma AnomaliesDeserved(h: History, keys: seq<int>, check: seq<Op> -> CheckResult)
    requires forall k :: k in keys <==> k in h.byKey
    ensures forall a :: a in AnomaliesOf(h, keys, check) <==> a.subject in h.byKey && Deserved(h, check, a)
  {
    forall a ensures a in AnomaliesOf(h, keys, check) <==> a.subject in h.byKey && Deserved(h, check, a) {
      AnomaliesAre(h, keys, check, a);
    }
  }

  /** Keys in ascending order leave their anomalies in ascending order: one a key at most. */
  lemma {:induction false} AnomaliesAscend(h: History, keys: seq<int>, check: seq<Op> -> CheckResult)
    requires forall i, j | 0 <= i < j < |keys| :: keys[i] < keys[j]
    ensures forall i, j | 0 <= i < j < |AnomaliesOf(h, keys, check)| ::
              AnomaliesOf(h, keys, check)[i].subject < AnomaliesOf(h, keys, check)[j].subject
  {
    if keys != [] {
      var front, key := keys[..|keys| - 1], keys[|keys| - 1];
      AnomaliesAscend(h, front, check);
      var before := AnomaliesOf(h, front, check);
      forall i | 0 <= i < |before| ensures before[i].subject < key {
        AnomaliesAre(h, front, check, before[i]);
        assert before[i].subject in front;
      }
    }
  }

  /** `CheckRegister`. Its verdict is about the whole history, not about keys: a pass proves one
      legal real-time order of all reads and writes exists, a fail proves none does, and only a
      timed-out key leaves it unknown. */
  method CheckRegister(h: History, check: seq<Op> -> CheckResult) returns (report: VerifyReport)
    requires Indexed(h) && RightOnKeys(h, check)
    ensures report.checked == |h.byKey|
    ensures report.verdict == Fail ==> !StoreLinearizable(OpsOf(h.events))
    ensures report.verdict == Pass && Composable(Spans(OpsOf(h.events))) ==> StoreLinearizable(OpsOf(h.events))
    ensures report.verdict == Unknown <==> HasOutcome(h, check, TimedOut) && !HasOutcome(h, check, Illegal)
    ensures !HasOutcome(h, check, TimedOut) && Composable(Spans(OpsOf(h.events)))
            ==> (report.verdict == Pass <==> StoreLinearizable(OpsOf(h.events)))
    ensures report.ordering == |set k | k in h.byKey && Outcome(h, k, check) == Illegal|
    ensures report.lost == 0 && report.duplicated == 0
    ensures forall a :: a in report.anomalies <==> a.subject in h.byKey && Deserved(h, check, a)
    ensures forall i, j | 0 <= i < j < |report.anomalies| ::
              report.anomalies[i].subject < report.anomalies[j].subject
  {
    var keys := Keys(h);
    assert forall k :: k in keys <==> k in h.byKey.Keys;
    SameSize(keys, h.byKey.Keys);
    var sawIllegal, sawUnknown, ordering, anomalies := ScanKeys(h, keys, check);
    IllegalCount(h, keys, check);
    AnomaliesDeserved(h, keys, check);
    AnomaliesAscend(h, keys, check);
    report := VerifyReport(Pass, |keys|, 0, 0, ordering, anomalies);
    if sawIllegal {
      report := report.(verdict := Fail);
      ghost var k :| k in keys && Outcome(h, k, check) == Illegal;
      SomeKeyIllegal(h, k, check);
    } else if sawUnknown {
      report := report.(verdict := Unknown);
    } else {
      AllKeysLegal(h, check);
    }
  }
}

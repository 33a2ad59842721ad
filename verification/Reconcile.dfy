/** Reconciliation: the expectation log of committed writes, its reduction to one record per key,
    and the read-back that compares the store with it. Checksums and payloads are functions given
    by the caller. */
module Reconcile {
  import opened Domain
  import opened Sorting
  import opened Workload

  type Bytes = seq<int>

  datatype WriteRecord = WriteRecord(key: int, checksum: int, seqNo: int)

  // ----- the log and its reduction

  /** One line of the log file. */
  datatype Line = Blank | Parsed(rec: WriteRecord) | Malformed

  function Records(lines: seq<Line>): seq<WriteRecord> {
    if lines == [] then []
    else Records(lines[..|lines| - 1]) + match lines[|lines| - 1] case Parsed(rec) => [rec] case _ => []
  }

  function IsParsed(): Line -> bool {
    (line: Line) => line.Parsed?
  }

  function ToLine(): WriteRecord -> Line {
    (rec: WriteRecord) => Parsed(rec)
  }

  /** The records are those of the lines that hold one, in their order. */
  lemma {:induction false} RecordsExact(lines: seq<Line>)
    ensures Map(ToLine(), Records(lines)) == Filter(lines, IsParsed())
  {
    if lines != [] {
      var front, last := lines[..|lines| - 1], lines[|lines| - 1];
      assert lines == front + [last];
      RecordsExact(front);
      FilterSnoc(front, last, IsParsed());
    }
  }

  function Keep(m: map<int, WriteRecord>, rec: WriteRecord): map<int, WriteRecord> {
    if rec.key !in m || rec.seqNo >= m[rec.key].seqNo then m[rec.key := rec] else m
  }

  function Reduce(recs: seq<WriteRecord>): map<int, WriteRecord> {
    if recs == [] then map[] else Keep(Reduce(recs[..|recs| - 1]), recs[|recs| - 1])
  }

  lemma ReadStep(before: seq<Line>, line: Line)
    ensures Reduce(Records(before + [line])) ==
            if line.Parsed? then Keep(Reduce(Records(before)), line.rec) else Reduce(Records(before))
  {
    assert (before + [line])[..|before|] == before;
    var recs := Records(before);
    if line.Parsed? {
      assert (recs + [line.rec])[..|recs|] == recs;
    } else {
      assert recs + [] == recs;
    }
  }

  /** `readLog`: the reduced log, or the number of the first malformed line. */
  method ReadLog(lines: seq<Line>) returns (r: Result<map<int, WriteRecord>>)
    ensures r.Ok? <==> Malformed !in lines
    ensures r.Ok? ==> r.value == Reduce(Records(lines))
    ensures Map(ToLine(), Records(lines)) == Filter(lines, IsParsed())
    ensures r.Err? ==> 1 <= r.line <= |lines| && lines[r.line - 1] == Malformed && Malformed !in lines[..r.line - 1]
  {
    RecordsExact(lines);
    var expected: map<int, WriteRecord> := map[];
    for i := 0 to |lines|
      invariant Malformed !in lines[..i]
      invariant expected == Reduce(Records(lines[..i]))
    {
      assert lines[..i + 1] == lines[..i] + [lines[i]];
      ReadStep(lines[..i], lines[i]);
      match lines[i] {
        case Blank =>
        case Malformed =>
          return Err(i + 1);
        case Parsed(rec) =>
          if rec.key !in expected || rec.seqNo >= expected[rec.key].seqNo {
            expected := expected[rec.key := rec];
          }
      }
    }
    assert lines[..|lines|] == lines;
    r := Ok(expected);
  }

  /** The record at `i` is the last in file order among those with its key's highest number. */
  ghost predicate LastHighest(recs: seq<WriteRecord>, i: nat) {
    && i < |recs|
    && (forall j | 0 <= j < |recs| && recs[j].key == recs[i].key :: recs[j].seqNo <= recs[i].seqNo)
    && (forall j | i < j < |recs| && recs[j].key == recs[i].key :: recs[j].seqNo < recs[i].seqNo)
  }

  ghost predicate Mentions(recs: seq<WriteRecord>, key: int) {
    exists i | 0 <= i < |recs| :: recs[i].key == key
  }

  lemma LastHighestSnoc(recs: seq<WriteRecord>, x: WriteRecord, i: nat)
    requires LastHighest(recs, i) && (x.key == recs[i].key ==> x.seqNo < recs[i].seqNo)
    ensures LastHighest(recs + [x], i)
  {
  }

  /** The reduction holds, for exactly the keys of the log, the last record of highest number. */
  lemma {:induction false} ReduceExact(recs: seq<WriteRecord>, key: int) returns (at: nat)
    ensures key in Reduce(recs) <==> Mentions(recs, key)
    ensures key in Reduce(recs) ==>
              LastHighest(recs, at) && Reduce(recs)[key] == recs[at] && recs[at].key == key
  {
    at := 0;
    if recs != [] {
      var front, x := recs[..|recs| - 1], recs[|recs| - 1];
      assert recs == front + [x];
      at := ReduceExact(front, key);
      var m := Reduce(front);
      if x.key == key && (key !in m || x.seqNo >= m[key].seqNo) {
        HighestSnoc(front, x, at);
        at := |front|;
      } else if key in m {
        LastHighestSnoc(front, x, at);
        assert recs[at] == front[at];
      }
      assert Mentions(recs, key) <==> Mentions(front, key) || x.key == key by {
        if Mentions(front, key) {
          var i :| 0 <= i < |front| && front[i].key == key;
          assert recs[i].key == key;
        }
        assert recs[|front|] == x;
      }
    }
  }

  lemma HighestSnoc(front: seq<WriteRecord>, x: WriteRecord, at: nat)
    requires Mentions(front, x.key) ==>
               LastHighest(front, at) && front[at].key == x.key && front[at].seqNo <= x.seqNo
    ensures LastHighest(front + [x], |front|)
  {
    forall j | 0 <= j < |front| && front[j].key == x.key ensures front[j].seqNo <= x.seqNo {
      assert Mentions(front, x.key);
    }
  }

  // ----- when the order of the log does not matter

  /** `x` has the highest number of its key. */
  ghost predicate Highest(recs: seq<WriteRecord>, x: WriteRecord) {
    x in recs && forall y | y in recs && y.key == x.key :: y.seqNo <= x.seqNo
  }

  /** No key has two different records of highest number. */
  ghost predicate NoTies(recs: seq<WriteRecord>) {
    forall x, y | Highest(recs, x) && Highest(recs, y) && x.key == y.key :: x == y
  }

  lemma ReducedIsHighest(recs: seq<WriteRecord>, key: int)
    ensures key in Reduce(recs) <==> exists x | x in recs :: x.key == key
    ensures key in Reduce(recs) ==> Highest(recs, Reduce(recs)[key]) && Reduce(recs)[key].key == key
  {
    var at := ReduceExact(recs, key);
    if x :| x in recs && x.key == key {
      var i :| 0 <= i < |recs| && recs[i] == x;
      assert recs[i].key == key;
    }
    if key in Reduce(recs) {
      forall y | y in recs && y.key == key ensures y.seqNo <= recs[at].seqNo {
        var j :| 0 <= j < |recs| && recs[j] == y;
      }
    }
  }

  lemma SameReduction(a: seq<WriteRecord>, b: seq<WriteRecord>)
    requires multiset(a) == multiset(b) && NoTies(a)
    ensures Reduce(a) == Reduce(b)
  {
    assert forall x :: x in a <==> x in b by {
      forall x ensures x in a <==> x in b {
        assert x in a <==> x in multiset(a);
        assert x in b <==> x in multiset(b);
      }
    }
    forall key ensures key in Reduce(a) <==> key in Reduce(b)
      ensures key in Reduce(a) ==> Reduce(a)[key] == Reduce(b)[key]
    {
      ReducedIsHighest(a, key);
      ReducedIsHighest(b, key);
      if key in Reduce(a) {
        assert Highest(a, Reduce(b)[key]);
      }
    }
  }

  /** Moving a highest record to the end makes it the one kept. */
  lemma MovedToEnd(recs: seq<WriteRecord>, x: WriteRecord) returns (b: seq<WriteRecord>)
    requires Highest(recs, x)
    ensures multiset(b) == multiset(recs) && x.key in Reduce(b) && Reduce(b)[x.key] == x
  {
    var u, v := SplitAt(recs, x);
    b := u + v + [x];
    assert b[..|u + v|] == u + v;
    MiddleMultiset(u, x, v);
    ReducedIsHighest(u + v, x.key);
    assert forall y | y in u + v :: y in recs;
  }

  /** The reduction is the same for every order of the same records exactly when no key has two
      different records of highest number. */
  lemma {:induction false} OrderInsensitiveExactly(recs: seq<WriteRecord>)
    ensures NoTies(recs) <==> forall b | multiset(b) == multiset(recs) :: Reduce(b) == Reduce(recs)
  {
    if NoTies(recs) {
      forall b | multiset(b) == multiset(recs) ensures Reduce(b) == Reduce(recs) {
        SameReduction(recs, b);
      }
    } else {
      var x, y :| Highest(recs, x) && Highest(recs, y) && x.key == y.key && x != y;
      var a := MovedToEnd(recs, x);
      var b := MovedToEnd(recs, y);
      assert Reduce(a) != Reduce(b);
    }
  }

  /** Records that agree on the checksum of each key are enough. */
  lemma {:induction false} EqualChecksumsSuffice(recs: seq<WriteRecord>)
    requires forall x, y | x in recs && y in recs && x.key == y.key :: x.checksum == y.checksum
    ensures NoTies(recs)
  {
  }

  // ----- reading the store back

  /** What a driver may observe: nothing, bytes (a nil slice is absent), text, or something else. */
  datatype Observed = Nil | Slice(bytes: Option<Bytes>) | Text(text: Bytes) | Other

  datatype Read = Failed | Got(observed: Observed)

  function CoerceBytes(o: Observed): Option<Bytes> {
    match o
    case Nil => None
    case Slice(bytes) => bytes
    case Text(text) => Some(text)
    case Other => None
  }

  /** The read found a value: text, or a slice that is not nil. */
  predicate Present(r: Read) {
    r.Got? && (r.observed.Text? || (r.observed.Slice? && r.observed.bytes.Some?))
  }

  /** What was found there, and nothing where nothing was. */
  function Content(r: Read): Bytes {
    if !Present(r) then [] else if r.observed.Text? then r.observed.text else r.observed.bytes.value
  }

  predicate Lost(r: Read) {
    !Present(r)
  }

  predicate Corrupt(r: Read, want: WriteRecord, checksum: Bytes -> int) {
    Present(r) && checksum(Content(r)) != want.checksum
  }

  ghost function LostKeys(expected: map<int, WriteRecord>, read: int -> Read): set<int> {
    set k | k in expected && Lost(read(k))
  }

  ghost function CorruptKeys(expected: map<int, WriteRecord>, read: int -> Read, checksum: Bytes -> int): set<int> {
    set k | k in expected && Corrupt(read(k), expected[k], checksum)
  }

  ghost function About(kind: string, keys: set<int>): set<Anomaly> {
    set k | k in keys :: Anomaly(kind, k)
  }

  /** `anomalies` lists `wanted`, each once. */
  ghost predicate Lists(anomalies: seq<Anomaly>, wanted: set<Anomaly>) {
    && (forall a :: a in anomalies <==> a in wanted)
    && (forall i, j | 0 <= i < j < |anomalies| :: anomalies[i] != anomalies[j])
  }

  ghost function Findings(done: map<int, WriteRecord>, read: int -> Read, checksum: Bytes -> int): set<Anomaly> {
    About("data-loss", LostKeys(done, read)) + About("corruption", CorruptKeys(done, read, checksum))
  }

  function FindingOn(key: int, r: Read, want: WriteRecord, checksum: Bytes -> int): seq<Anomaly> {
    if Lost(r) then [Anomaly("data-loss", key)]
    else if Corrupt(r, want, checksum) then [Anomaly("corruption", key)]
    else []
  }

  lemma LostAdd(done: map<int, WriteRecord>, k: int, rec: WriteRecord, read: int -> Read)
    requires k !in done
    ensures LostKeys(done[k := rec], read) == LostKeys(done, read) + if Lost(read(k)) then {k} else {}
    ensures |LostKeys(done[k := rec], read)| == |LostKeys(done, read)| + if Lost(read(k)) then 1 else 0
  {
    assert forall x :: x in LostKeys(done[k := rec], read) <==> x in LostKeys(done, read) || (x == k && Lost(read(k)));
  }

  lemma CorruptAdd(done: map<int, WriteRecord>, k: int, rec: WriteRecord, read: int -> Read, checksum: Bytes -> int)
    requires k !in done
    ensures CorruptKeys(done[k := rec], read, checksum)
            == CorruptKeys(done, read, checksum) + if Corrupt(read(k), rec, checksum) then {k} else {}
  {
    assert forall x :: x in CorruptKeys(done[k := rec], read, checksum)
                       <==> x in CorruptKeys(done, read, checksum) || (x == k && Corrupt(read(k), rec, checksum));
  }

  lemma InAbout(a: Anomaly, kind: string, keys: set<int>)
    ensures a in About(kind, keys) <==> a.kind == kind && a.subject in keys
  {
    if a.kind == kind && a.subject in keys {
      assert a == Anomaly(kind, a.subject);
    }
  }

  lemma InFindings(a: Anomaly, done: map<int, WriteRecord>, read: int -> Read, checksum: Bytes -> int)
    ensures a in Findings(done, read, checksum) <==>
            || (a.kind == "data-loss" && a.subject in LostKeys(done, read))
            || (a.kind == "corruption" && a.subject in CorruptKeys(done, read, checksum))
  {
    InAbout(a, "data-loss", LostKeys(done, read));
    InAbout(a, "corruption", CorruptKeys(done, read, checksum));
  }

  lemma FindingsAdd(done: map<int, WriteRecord>, k: int, rec: WriteRecord, read: int -> Read, checksum: Bytes -> int,
                    a: Anomaly)
    requires k !in done
    ensures a in Findings(done[k := rec], read, checksum)
            <==> a in Findings(done, read, checksum) || a in FindingOn(k, read(k), rec, checksum)
    ensures a in FindingOn(k, read(k), rec, checksum) ==> a !in Findings(done, read, checksum)
  {
    LostAdd(done, k, rec, read);
    CorruptAdd(done, k, rec, read, checksum);
    InFindings(a, done, read, checksum);
    InFindings(a, done[k := rec], read, checksum);
  }

  lemma ListsAdd(anomalies: seq<Anomaly>, wanted: set<Anomaly>, a: Anomaly)
    requires Lists(anomalies, wanted) && a !in wanted
    ensures Lists(anomalies + [a], wanted + {a})
  {
  }

  lemma ListsMore(anomalies: seq<Anomaly>, found: set<Anomaly>, own: seq<Anomaly>, all: set<Anomaly>)
    requires Lists(anomalies, found) && |own| <= 1 && forall a | a in own :: a !in found
    requires forall a :: a in all <==> a in found || a in own
    ensures Lists(anomalies + own, all)
  {
    if own == [] {
      assert anomalies + own == anomalies && all == found;
    } else {
      assert own == [own[0]];
      ListsAdd(anomalies, found, own[0]);
      assert all == found + {own[0]};
    }
  }

  lemma FindingStep(done: map<int, WriteRecord>, key: int, want: WriteRecord,
                    read: int -> Read, checksum: Bytes -> int, lost: nat, anomalies: seq<Anomaly>)
    requires key !in done && lost == |LostKeys(done, read)| && Lists(anomalies, Findings(done, read, checksum))
    ensures |LostKeys(done[key := want], read)| == lost + if Lost(read(key)) then 1 else 0
    ensures Lists(anomalies + FindingOn(key, read(key), want, checksum), Findings(done[key := want], read, checksum))
  {
    LostAdd(done, key, want, read);
    var found, own := Findings(done, read, checksum), FindingOn(key, read(key), want, checksum);
    forall a ensures a in Findings(done[key := want], read, checksum) <==> a in found || a in own
      ensures a in own ==> a !in found
    {
      FindingsAdd(done, key, want, read, checksum, a);
    }
    ListsMore(anomalies, found, own, Findings(done[key := want], read, checksum));
  }

  /** `readBack`: one loss per key that is gone, one corruption per key that changed, nothing else. */
  method ReadBack(expected: map<int, WriteRecord>, read: int -> Read, checksum: Bytes -> int)
    returns (lost: nat, anomalies: seq<Anomaly>)
    ensures lost == |LostKeys(expected, read)|
    ensures Lists(anomalies, Findings(expected, read, checksum))
  {
    lost, anomalies := 0, [];
    var rest := expected.Keys;
    ghost var done: map<int, WriteRecord> := map[];
    while rest != {}
      invariant rest <= expected.Keys && done == expected - rest
      invariant lost == |LostKeys(done, read)|
      invariant Lists(anomalies, Findings(done, read, checksum))
      decreases |rest|
    {
      ghost var some := Sorting.Pick(rest);
      var key :| key in rest;
      var want := expected[key];
      FindingStep(done, key, want, read, checksum, lost, anomalies);
      assert done[key := want] == expected - (rest - {key});
      var res := read(key);
      var found := if res.Failed? then None else CoerceBytes(res.observed);
      if found.None? {
        lost := lost + 1;
        anomalies := anomalies + [Anomaly("data-loss", key)];
      } else if checksum(found.value) != want.checksum {
        anomalies := anomalies + [Anomaly("corruption", key)];
      }
      rest, done := rest - {key}, done[key := want];
    }
    assert done == expected;
  }

  /** Every replica answered, and all answers have the same checksum, an absent value counting as the
      empty one. */
  ghost predicate AllAgree(answers: seq<Read>, checksum: Bytes -> int) {
    && Failed !in answers
    && forall i, j | 0 <= i < j < |answers| :: checksum(Content(answers[i])) == checksum(Content(answers[j]))
  }

  /** Some replica fails before any two of the answers differ. */
  ghost predicate FailsFirst(answers: seq<Read>, checksum: Bytes -> int) {
    exists i | 0 <= i < |answers| :: answers[i].Failed? && AllAgree(answers[..i], checksum)
  }

  /** `nodesAgree` over the answers of the replicas in turn; a failed read ends the comparison. */
  method NodesAgree(answers: seq<Read>, checksum: Bytes -> int) returns (agree: bool, failed: bool)
    ensures agree <==> AllAgree(answers, checksum)
    ensures failed <==> FailsFirst(answers, checksum)
  {
    var first := 0;
    for i := 0 to |answers|
      invariant Failed !in answers[..i]
      invariant forall k | 0 <= k < i :: checksum(Content(answers[k])) == first
    {
      if answers[i].Failed? {
        assert AllAgree(answers[..i], checksum);
        return false, true;
      }
      var got := CoerceBytes(answers[i].observed);
      var sum := checksum(if got.None? then [] else got.value);
      if i == 0 {
        first := sum;
      } else if sum != first {
        assert checksum(Content(answers[0])) != checksum(Content(answers[i]));
        DifferFirst(answers, checksum, i);
        return false, false;
      }
    }
    return true, false;
  }

  lemma DifferFirst(answers: seq<Read>, checksum: Bytes -> int, i: nat)
    requires 0 < i < |answers| && Failed !in answers[..i + 1]
    requires checksum(Content(answers[0])) != checksum(Content(answers[i]))
    ensures !FailsFirst(answers, checksum)
  {
    forall k | 0 <= k < |answers| && answers[k].Failed? ensures !AllAgree(answers[..k], checksum) {
      assert k > i;
      assert answers[..k][0] == answers[0] && answers[..k][i] == answers[i];
    }
  }

  // ----- convergence

  /** What polling one key meets: in each round the answers of the replicas, the two times since the
      start that are read once they are in, for the deadline and for the duration, and whether the
      wait for the next round is cancelled. */
  datatype Polls = Polls(answers: nat -> seq<Read>, checkedAt: nat -> int, elapsed: nat -> int, cancelled: nat -> bool)

  /** Rounds are at least the polling delay of 5 ms apart. */
  ghost predicate Advancing(p: Polls) {
    forall r: nat :: p.checkedAt(r) + 5_000_000 <= p.checkedAt(r + 1)
  }

  /** Round `r` settles nothing and another one follows. */
  ghost predicate Continues(p: Polls, timeout: int, checksum: Bytes -> int, r: nat) {
    && !AllAgree(p.answers(r), checksum) && !FailsFirst(p.answers(r), checksum)
    && timeout > 0 && p.checkedAt(r) < timeout && !p.cancelled(r)
  }

  ghost predicate StopsAt(p: Polls, timeout: int, checksum: Bytes -> int, r: nat) {
    !Continues(p, timeout, checksum, r) && forall k: nat | k < r :: Continues(p, timeout, checksum, k)
  }

  /** The round ends polling because a read failed or the wait was cancelled in time. */
  ghost predicate StopsByError(p: Polls, timeout: int, checksum: Bytes -> int, r: nat) {
    || FailsFirst(p.answers(r), checksum)
    || (!AllAgree(p.answers(r), checksum) && p.checkedAt(r) < timeout && timeout > 0)
  }

  /** The replicas agree in the round in which polling stops. */
  ghost predicate Converges(p: Polls, timeout: int, checksum: Bytes -> int) {
    exists r: nat :: StopsAt(p, timeout, checksum, r) && AllAgree(p.answers(r), checksum)
  }

  /** `convergeKey`: polls until the replicas agree, a read fails, time is up or the run is over. */
  method ConvergeKey(p: Polls, timeout: int, checksum: Bytes -> int) returns (converged: bool, dur: int, failed: bool)
    requires Advancing(p)
    ensures converged <==> Converges(p, timeout, checksum)
    ensures exists r: nat :: StopsAt(p, timeout, checksum, r) && dur == p.elapsed(r)
                             && (failed <==> StopsByError(p, timeout, checksum, r))
  {
    var r: nat := 0;
    while true
      invariant forall k: nat | k < r :: Continues(p, timeout, checksum, k)
      decreases timeout - p.checkedAt(r)
    {
      var agree, err := NodesAgree(p.answers(r), checksum);
      if !Continues(p, timeout, checksum, r) {
        assert StopsAt(p, timeout, checksum, r);
      }
      if err {
        return false, p.elapsed(r), true;
      }
      if agree {
        return true, p.elapsed(r), false;
      }
      if timeout <= 0 || p.checkedAt(r) >= timeout {
        return false, p.elapsed(r), false;
      }
      if p.cancelled(r) {
        return false, p.elapsed(r), true;
      }
      r := r + 1;
    }
  }

  // ----- the whole check

  /** The replicas of a cluster-aware target, what polling each key meets, and how long it all took. */
  datatype Replicas = Replicas(count: nat, polls: int -> Polls, timeout: int, phase: int)

  predicate Samples(replicas: Option<Replicas>, sample: int) {
    replicas.Some? && replicas.value.count > 1 && sample > 0
  }

  ghost predicate ClocksAdvance(replicas: Replicas) {
    forall k :: Advancing(replicas.polls(k))
  }

  /** `worst` is zero or the duration of some sampled key, and none took longer. */
  ghost predicate Worst(worst: int, sampled: set<int>, replicas: Replicas, checksum: Bytes -> int) {
    && worst >= 0
    && (forall k, r: nat | k in sampled && StopsAt(replicas.polls(k), replicas.timeout, checksum, r) ::
          replicas.polls(k).elapsed(r) <= worst)
    && (worst > 0 ==> exists k, r: nat :: k in sampled && StopsAt(replicas.polls(k), replicas.timeout, checksum, r)
                                          && replicas.polls(k).elapsed(r) == worst)
  }

  /** One divergence per sampled key that does not converge, and the longest wait. */
  ghost predicate Surveyed(anomalies: seq<Anomaly>, maxStale: int, sampled: set<int>, replicas: Replicas,
                           checksum: Bytes -> int) {
    && Lists(anomalies, About("divergence", Diverged(sampled, replicas, checksum)))
    && Worst(maxStale, sampled, replicas, checksum)
  }

  lemma SurveyAdd(anomalies: seq<Anomaly>, maxStale: int, sampled: set<int>, key: int, converged: bool, dur: int,
                  replicas: Replicas, checksum: Bytes -> int)
    requires Surveyed(anomalies, maxStale, sampled, replicas, checksum) && key !in sampled
    requires converged <==> Converges(replicas.polls(key), replicas.timeout, checksum)
    requires exists r: nat :: StopsAt(replicas.polls(key), replicas.timeout, checksum, r)
                              && dur == replicas.polls(key).elapsed(r)
    ensures Surveyed(if converged then anomalies else anomalies + [Anomaly("divergence", key)],
                     if dur > maxStale then dur else maxStale, sampled + {key}, replicas, checksum)
  {
    DivergedAdd(sampled, key, replicas, checksum);
    WorstAdd(maxStale, sampled, key, dur, replicas, checksum);
    var known := About("divergence", Diverged(sampled, replicas, checksum));
    if !converged {
      ListsAdd(anomalies, known, Anomaly("divergence", key));
    } else {
      assert known + {} == known;
    }
  }

  /** One turn of the loop over the sampled keys. */
  method SurveyKey(before: seq<Anomaly>, worst: int, key: int, replicas: Replicas, checksum: Bytes -> int,
                   ghost sampled: set<int>)
    returns (anomalies: seq<Anomaly>, maxStale: int)
    requires Surveyed(before, worst, sampled, replicas, checksum) && key !in sampled && ClocksAdvance(replicas)
    ensures Surveyed(anomalies, maxStale, sampled + {key}, replicas, checksum)
  {
    anomalies, maxStale := before, worst;
    var converged, dur, failed := ConvergeKey(replicas.polls(key), replicas.timeout, checksum);
    SurveyAdd(before, worst, sampled, key, converged, dur, replicas, checksum);
    if dur > maxStale {
      maxStale := dur;
    }
    if failed || !converged {
      anomalies := anomalies + [Anomaly("divergence", key)];
    }
  }

  /** `checkConvergence`: up to `sample` keys, in whatever order the map yields them. */
  method CheckConvergence(expected: map<int, WriteRecord>, replicas: Replicas, sample: int, checksum: Bytes -> int)
    returns (anomalies: seq<Anomaly>, maxStale: int, convergedIn: int)
    requires sample > 0 && ClocksAdvance(replicas)
    ensures convergedIn == replicas.phase
    ensures exists sampled :: SampleOf(sampled, expected.Keys, sample)
                              && Surveyed(anomalies, maxStale, sampled, replicas, checksum)
  {
    anomalies, maxStale := [], 0;
    ghost var sampled: set<int> := {};
    var rest, taken := expected.Keys, 0;
    while rest != {} && taken < sample
      invariant Parts(sampled, rest, expected.Keys) && taken == |sampled| <= sample
      invariant Surveyed(anomalies, maxStale, sampled, replicas, checksum)
      decreases |rest|
    {
      ghost var some := Sorting.Pick(rest);
      var key :| key in rest;
      PartsMove(sampled, rest, expected.Keys, key);
      anomalies, maxStale := SurveyKey(anomalies, maxStale, key, replicas, checksum, sampled);
      sampled, rest, taken := sampled + {key}, rest - {key}, taken + 1;
    }
    assert SampleOf(sampled, expected.Keys, sample);
    convergedIn := replicas.phase;
  }

  ghost predicate Parts(sampled: set<int>, rest: set<int>, keys: set<int>) {
    sampled + rest == keys && sampled * rest == {} && |sampled| + |rest| == |keys|
  }

  lemma PartsMove(sampled: set<int>, rest: set<int>, keys: set<int>, key: int)
    requires Parts(sampled, rest, keys) && key in rest
    ensures Parts(sampled + {key}, rest - {key}, keys) && key !in sampled && |sampled + {key}| == |sampled| + 1
  {
    assert key !in sampled by {
      assert key in sampled ==> key in sampled * rest;
    }
  }

  lemma WorstAdd(worst: int, sampled: set<int>, key: int, dur: int, replicas: Replicas, checksum: Bytes -> int)
    requires Worst(worst, sampled, replicas, checksum)
    requires exists r: nat :: StopsAt(replicas.polls(key), replicas.timeout, checksum, r)
                              && dur == replicas.polls(key).elapsed(r)
    ensures Worst(if dur > worst then dur else worst, sampled + {key}, replicas, checksum)
  {
    var p := replicas.polls(key);
    var r: nat :| StopsAt(p, replicas.timeout, checksum, r) && dur == p.elapsed(r);
    forall q: nat | StopsAt(p, replicas.timeout, checksum, q) ensures q == r {
    }
  }

  /** `sample` of the keys, or all of them when there are fewer. */
  ghost predicate SampleOf(sampled: set<int>, keys: set<int>, sample: int) {
    sampled <= keys && |sampled| == if |keys| < sample then |keys| else sample
  }

  ghost function Diverged(sampled: set<int>, replicas: Replicas, checksum: Bytes -> int): set<int> {
    set k | k in sampled && !Converges(replicas.polls(k), replicas.timeout, checksum)
  }

  lemma DivergedAdd(sampled: set<int>, key: int, replicas: Replicas, checksum: Bytes -> int)
    requires key !in sampled
    ensures About("divergence", Diverged(sampled + {key}, replicas, checksum))
            == About("divergence", Diverged(sampled, replicas, checksum))
               + if Converges(replicas.polls(key), replicas.timeout, checksum) then {} else {Anomaly("divergence", key)}
    ensures Anomaly("divergence", key) !in About("divergence", Diverged(sampled, replicas, checksum))
  {
    assert forall k ::
        k in Diverged(sampled + {key}, replicas, checksum)
        <==> || k in Diverged(sampled, replicas, checksum)
             || (k == key && !Converges(replicas.polls(key), replicas.timeout, checksum));
  }

  /** What a finished check reports: the exact number of lost keys, the exact list of findings, and
      a pass exactly when there is none. */
  ghost predicate Reports(rep: VerifyReport, expected: map<int, WriteRecord>, read: int -> Read,
                          checksum: Bytes -> int, diverged: set<int>) {
    && rep.checked == |expected| && rep.duplicated == 0 && rep.ordering == 0
    && rep.lost == |LostKeys(expected, read)|
    && Lists(rep.anomalies, Findings(expected, read, checksum) + About("divergence", diverged))
    && (rep.verdict == Pass <==>
        LostKeys(expected, read) == {} && CorruptKeys(expected, read, checksum) == {} && diverged == {})
    && rep.verdict != Unknown
  }

  lemma ListsConcat(a: seq<Anomaly>, b: seq<Anomaly>, x: set<Anomaly>, y: set<Anomaly>)
    requires Lists(a, x) && Lists(b, y) && x !! y
    ensures Lists(a + b, x + y)
  {
    forall i, j | 0 <= i < j < |a + b| ensures (a + b)[i] != (a + b)[j] {
      if i < |a| <= j {
        assert (a + b)[i] in x && (a + b)[j] in y;
      }
    }
  }

  lemma NothingListed(anomalies: seq<Anomaly>, kind: string, keys: set<int>)
    requires forall k | k in keys :: Anomaly(kind, k) in anomalies
    ensures anomalies == [] ==> keys == {}
  {
    if keys != {} {
      assert Anomaly(kind, Sorting.Pick(keys)) in anomalies;
    }
  }

  lemma PassExactly(anomalies: seq<Anomaly>, lost: set<int>, corrupt: set<int>, diverged: set<int>)
    requires Lists(anomalies, About("data-loss", lost) + About("corruption", corrupt) + About("divergence", diverged))
    ensures anomalies == [] <==> lost == {} && corrupt == {} && diverged == {}
  {
    var all := About("data-loss", lost) + About("corruption", corrupt) + About("divergence", diverged);
    forall k | k in lost ensures Anomaly("data-loss", k) in anomalies {
      assert Anomaly("data-loss", k) in About("data-loss", lost);
    }
    forall k | k in corrupt ensures Anomaly("corruption", k) in anomalies {
      assert Anomaly("corruption", k) in About("corruption", corrupt);
    }
    forall k | k in diverged ensures Anomaly("divergence", k) in anomalies {
      assert Anomaly("divergence", k) in About("divergence", diverged);
    }
    NothingListed(anomalies, "data-loss", lost);
    NothingListed(anomalies, "corruption", corrupt);
    NothingListed(anomalies, "divergence", diverged);
    SameSize(anomalies, all);
  }

  /** Without a connection, or one that cannot be prepared, there is no verdict; the number of keys
      to check is reported all the same. */
  datatype Outcome = NoVerdict(checked: int) | Verified(report: VerifyReport, maxStale: int, convergedIn: int)

  /** `Reconcile`. */
  method Check(expected: map<int, WriteRecord>, connects: bool, prepares: bool, read: int -> Read,
               checksum: Bytes -> int, replicas: Option<Replicas>, sample: int)
    returns (r: Outcome, ghost diverged: set<int>)
    requires replicas.Some? ==> ClocksAdvance(replicas.value)
    ensures r.Verified? <==> connects && prepares
    ensures r.NoVerdict? ==> r.checked == |expected|
    ensures r.Verified? ==> Reports(r.report, expected, read, checksum, diverged)
    ensures !Samples(replicas, sample) ==> diverged == {} && (r.Verified? ==> r.maxStale == r.convergedIn == 0)
    ensures r.Verified? && Samples(replicas, sample) ==> r.convergedIn == replicas.value.phase
    ensures r.Verified? && Samples(replicas, sample) ==>
              exists sampled ::
                && SampleOf(sampled, expected.Keys, sample) && Worst(r.maxStale, sampled, replicas.value, checksum)
                && diverged == Diverged(sampled, replicas.value, checksum)
  {
    diverged := {};
    if !connects || !prepares {
      return NoVerdict(|expected|), {};
    }
    var lost, anomalies := ReadBack(expected, read, checksum);
    var maxStale, convergedIn := 0, 0;
    ghost var found := Findings(expected, read, checksum);
    if Samples(replicas, sample) {
      var more, worst, phase := CheckConvergence(expected, replicas.value, sample, checksum);
      ghost var sampled :| SampleOf(sampled, expected.Keys, sample)
                           && Surveyed(more, worst, sampled, replicas.value, checksum);
      diverged := Diverged(sampled, replicas.value, checksum);
      ListsConcat(anomalies, more, found, About("divergence", diverged));
      anomalies, maxStale, convergedIn := anomalies + more, worst, phase;
    } else {
      assert found + About("divergence", diverged) == found;
    }
    PassExactly(anomalies, LostKeys(expected, read), CorruptKeys(expected, read, checksum), diverged);
    var verdict := if lost > 0 || |anomalies| > 0 then Fail else Pass;
    r := Verified(VerifyReport(verdict, |expected|, lost, 0, 0, anomalies), maxStale, convergedIn);
  }

  // ----- runs against a store

  /** The store, the observed writes not yet appended to the log, and the log. Executing and
      logging are separate steps, so the log may be in any order. */
  datatype State = State(store: map<int, Bytes>, pending: multiset<WriteRecord>, log: seq<WriteRecord>)

  /** An operation is not observed when it is dispatched during warm-up, or interrupted after the
      store has executed it. */
  datatype Step = Execute(op: Operation, fails: bool, observed: bool) | Append(rec: WriteRecord)

  /** The operations any generator emits: a write carries the payload of its key, a read nothing. */
  predicate Generated(op: Operation, payload: int -> Bytes) {
    op.value == if IsWrite(op.opType) then Some(payload(op.key)) else None
  }

  predicate Carries(op: Operation) {
    op.value.Some? && |op.value.value| > 0
  }

  ghost predicate Enabled(s: State, step: Step, payload: int -> Bytes) {
    match step
    case Execute(op, _, _) => Generated(op, payload)
    case Append(rec) => rec in s.pending
  }

  /** The store keeps the bytes of an operation that carries some and does not fail; of these, the
      observer logs the observed ones. */
  ghost function Apply(s: State, step: Step, checksum: Bytes -> int): State {
    match step
    case Execute(op, fails, observed) =>
      if fails || !Carries(op) then s
      else
        var rec := WriteRecord(op.key, checksum(op.value.value), op.seqNo);
        State(s.store[op.key := op.value.value], if observed then s.pending + multiset{rec} else s.pending, s.log)
    case Append(rec) => State(s.store, s.pending - multiset{rec}, s.log + [rec])
  }

  ghost function After(steps: seq<Step>, checksum: Bytes -> int): State {
    if steps == [] then State(map[], multiset{}, [])
    else Apply(After(steps[..|steps| - 1], checksum), steps[|steps| - 1], checksum)
  }

  ghost predicate IsRun(steps: seq<Step>, payload: int -> Bytes, checksum: Bytes -> int) {
    steps != [] ==>
      var front := steps[..|steps| - 1];
      IsRun(front, payload, checksum) && Enabled(After(front, checksum), steps[|steps| - 1], payload)
  }

  ghost predicate Committed(s: State, rec: WriteRecord) {
    rec in s.pending || rec in s.log
  }

  /** Every observed record names a stored key with the checksum of what is stored there. */
  ghost predicate Inv(s: State, payload: int -> Bytes, checksum: Bytes -> int) {
    && (forall rec | Committed(s, rec) :: rec.key in s.store && rec.checksum == checksum(payload(rec.key)))
    && (forall k | k in s.store :: s.store[k] == payload(k))
  }

  lemma CommittedAfter(s: State, step: Step, payload: int -> Bytes, checksum: Bytes -> int, rec: WriteRecord)
    requires Enabled(s, step, payload)
    ensures Committed(Apply(s, step, checksum), rec) <==>
            || Committed(s, rec)
            || (step.Execute? && !step.fails && step.observed && Carries(step.op)
                && rec == WriteRecord(step.op.key, checksum(step.op.value.value), step.op.seqNo))
  {
    if step.Append? {
      assert rec in Apply(s, step, checksum).log <==> rec in s.log || rec == step.rec;
    }
  }

  lemma StepKeepsInv(s: State, step: Step, payload: int -> Bytes, checksum: Bytes -> int)
    requires Inv(s, payload, checksum) && Enabled(s, step, payload)
    ensures Inv(Apply(s, step, checksum), payload, checksum)
  {
    forall rec | Committed(Apply(s, step, checksum), rec)
      ensures rec.key in Apply(s, step, checksum).store && rec.checksum == checksum(payload(rec.key))
    {
      CommittedAfter(s, step, payload, checksum, rec);
    }
  }

  lemma {:induction false} ReachableInv(steps: seq<Step>, payload: int -> Bytes, checksum: Bytes -> int)
    requires IsRun(steps, payload, checksum)
    ensures Inv(After(steps, checksum), payload, checksum)
  {
    if steps != [] {
      ReachableInv(steps[..|steps| - 1], payload, checksum);
      StepKeepsInv(After(steps[..|steps| - 1], checksum), steps[|steps| - 1], payload, checksum);
    }
  }

  /** The step writes `key` to the store. */
  predicate Writes(step: Step, key: int) {
    step.Execute? && !step.fails && step.op.value.Some? && step.op.value.value != [] && step.op.key == key
  }

  ghost predicate Written(steps: seq<Step>, key: int) {
    exists i | 0 <= i < |steps| :: Writes(steps[i], key)
  }

  ghost predicate WrittenObserved(steps: seq<Step>, key: int) {
    exists i | 0 <= i < |steps| :: Writes(steps[i], key) && steps[i].observed
  }

  ghost predicate Witnessed(s: State, key: int) {
    exists rec :: Committed(s, rec) && rec.key == key
  }

  lemma WrittenSnoc(front: seq<Step>, step: Step, key: int)
    ensures Written(front + [step], key) <==> Written(front, key) || Writes(step, key)
    ensures WrittenObserved(front + [step], key) <==>
            WrittenObserved(front, key) || (Writes(step, key) && step.observed)
  {
    var all := front + [step];
    assert all[|front|] == step;
    assert forall i | 0 <= i < |front| :: all[i] == front[i];
  }

  /** A key is stored exactly when some step wrote it. */
  lemma {:induction false} StoredExactly(steps: seq<Step>, checksum: Bytes -> int, key: int)
    ensures key in After(steps, checksum).store <==> Written(steps, key)
  {
    if steps != [] {
      var front, step := steps[..|steps| - 1], steps[|steps| - 1];
      assert steps == front + [step];
      StoredExactly(front, checksum, key);
      WrittenSnoc(front, step, key);
      StoredAfter(After(front, checksum), step, checksum, key);
    }
  }

  /** A key is on record exactly when some observed step wrote it. */
  lemma {:induction false} RecordedExactly(steps: seq<Step>, payload: int -> Bytes, checksum: Bytes -> int, key: int)
    requires IsRun(steps, payload, checksum)
    ensures Witnessed(After(steps, checksum), key) <==> WrittenObserved(steps, key)
  {
    if steps != [] {
      var front, step := steps[..|steps| - 1], steps[|steps| - 1];
      assert front + [step] == steps;
      RecordedExactly(front, payload, checksum, key);
      RecordedStep(front, step, payload, checksum, key);
    }
  }

  lemma RecordedStep(front: seq<Step>, step: Step, payload: int -> Bytes, checksum: Bytes -> int, key: int)
    requires Enabled(After(front, checksum), step, payload)
    requires Witnessed(After(front, checksum), key) <==> WrittenObserved(front, key)
    ensures Witnessed(After(front + [step], checksum), key) <==> WrittenObserved(front + [step], key)
  {
    assert (front + [step])[..|front|] == front;
    WrittenSnoc(front, step, key);
    WitnessedAfter(After(front, checksum), step, payload, checksum, key);
  }

  lemma StoredAfter(s: State, step: Step, checksum: Bytes -> int, key: int)
    ensures key in Apply(s, step, checksum).store <==> key in s.store || Writes(step, key)
  {
  }

  lemma WitnessedAfter(s: State, step: Step, payload: int -> Bytes, checksum: Bytes -> int, key: int)
    requires Enabled(s, step, payload)
    ensures Witnessed(Apply(s, step, checksum), key) <==> Witnessed(s, key) || (Writes(step, key) && step.observed)
  {
    forall rec ensures Committed(Apply(s, step, checksum), rec) <==>
        || Committed(s, rec)
        || (step.Execute? && !step.fails && step.observed && Carries(step.op)
            && rec == WriteRecord(step.op.key, checksum(step.op.value.value), step.op.seqNo))
    {
      CommittedAfter(s, step, payload, checksum, rec);
    }
  }

  /** Reading a key back from the store: an absent key is a nil slice. */
  ghost function StoreRead(store: map<int, Bytes>): int -> Read {
    (k: int) => Got(Slice(if k in store then Some(store[k]) else None))
  }

  /** Every expected key is stored with the expected checksum, and once nothing is pending exactly
      the keys on record are expected. */
  lemma LoggedAreStored(s: State, payload: int -> Bytes, checksum: Bytes -> int, k: int)
    requires Inv(s, payload, checksum)
    ensures k in Reduce(s.log) ==> k in s.store && Reduce(s.log)[k].checksum == checksum(s.store[k])
    ensures s.pending == multiset{} ==> (k in Reduce(s.log) <==> Witnessed(s, k))
  {
    ReducedIsHighest(s.log, k);
    if k in Reduce(s.log) {
      assert Committed(s, Reduce(s.log)[k]);
    }
  }

  lemma RemovedAreLost(expected: map<int, WriteRecord>, store: map<int, Bytes>, checksum: Bytes -> int, gone: set<int>)
    requires forall k | k in expected :: k in store && expected[k].checksum == checksum(store[k])
    ensures LostKeys(expected, StoreRead(store - gone)) == gone * expected.Keys
    ensures CorruptKeys(expected, StoreRead(store - gone), checksum) == {}
  {
    var read := StoreRead(store - gone);
    assert forall k :: k in LostKeys(expected, read) <==> k in gone * expected.Keys;
    assert forall k :: k !in CorruptKeys(expected, read, checksum);
  }

  lemma OnlyLosses(anomalies: seq<Anomaly>, lost: set<int>)
    requires Lists(anomalies, About("data-loss", lost) + About("corruption", {}) + About("divergence", {}))
    ensures Lists(anomalies, About("data-loss", lost))
  {
    assert About("data-loss", lost) + About("corruption", {}) + About("divergence", {}) == About("data-loss", lost);
  }

  lemma LossReported(rep: VerifyReport, expected: map<int, WriteRecord>, store: map<int, Bytes>,
                     checksum: Bytes -> int, gone: set<int>)
    requires forall k | k in expected :: k in store && expected[k].checksum == checksum(store[k])
    requires Reports(rep, expected, StoreRead(store - gone), checksum, {})
    ensures rep.lost == |gone * expected.Keys|
    ensures Lists(rep.anomalies, About("data-loss", gone * expected.Keys))
    ensures rep.verdict == Pass <==> gone * expected.Keys == {}
  {
    RemovedAreLost(expected, store, checksum, gone);
    OnlyLosses(rep.anomalies, gone * expected.Keys);
  }

  /** In every run, and with any keys `gone` removed from the store afterwards, the check reports as
      lost exactly the logged keys that were removed, and reports no corruption. */
  lemma {:induction false} ExactLoss(steps: seq<Step>, payload: int -> Bytes, checksum: Bytes -> int,
                                     gone: set<int>, rep: VerifyReport)
    requires IsRun(steps, payload, checksum)
    requires var s := After(steps, checksum);
             Reports(rep, Reduce(s.log), StoreRead(s.store - gone), checksum, {})
    ensures var s := After(steps, checksum);
            var expected := Reduce(s.log);
            && rep.lost == |gone * expected.Keys|
            && Lists(rep.anomalies, About("data-loss", gone * expected.Keys))
            && (rep.verdict == Pass <==> gone * expected.Keys == {})
  {
    var s := After(steps, checksum);
    var expected := Reduce(s.log);
    ReachableInv(steps, payload, checksum);
    forall k | k in expected ensures k in s.store && expected[k].checksum == checksum(s.store[k]) {
      LoggedAreStored(s, payload, checksum, k);
    }
    LossReported(rep, expected, s.store, checksum, gone);
  }

  /** The log never expects a key that is not stored. Once every observed write is logged, a stored
      key escapes the check exactly when every write of it went unobserved. */
  lemma {:induction false} EscapesExactly(steps: seq<Step>, payload: int -> Bytes, checksum: Bytes -> int, key: int)
    requires IsRun(steps, payload, checksum)
    ensures var s := After(steps, checksum);
            && Reduce(s.log).Keys <= s.store.Keys
            && (s.pending == multiset{} ==>
                  (key in s.store && key !in Reduce(s.log) <==>
                   && Written(steps, key)
                   && forall i | 0 <= i < |steps| && Writes(steps[i], key) :: !steps[i].observed))
  {
    var s := After(steps, checksum);
    ReachableInv(steps, payload, checksum);
    forall k | k in Reduce(s.log) ensures k in s.store {
      LoggedAreStored(s, payload, checksum, k);
    }
    LoggedAreStored(s, payload, checksum, key);
    StoredExactly(steps, checksum, key);
    RecordedExactly(steps, payload, checksum, key);
  }

  /** A single warm-up write is stored, never logged, and never checked. */
  lemma {:induction false} WarmupEscapes(op: Operation, payload: int -> Bytes, checksum: Bytes -> int)
    requires Generated(op, payload) && Carries(op)
    ensures var steps := [Execute(op, false, false)];
            var s := After(steps, checksum);
            IsRun(steps, payload, checksum) && op.key in s.store && s.pending == multiset{} && Reduce(s.log) == map[]
  {
    var steps := [Execute(op, false, false)];
    assert steps[..0] == [];
  }

  /** Corollary: an untouched store never raises an alarm, at any point of any run. */
  lemma {:induction false} NoFalseAlarm(steps: seq<Step>, payload: int -> Bytes, checksum: Bytes -> int,
                                        rep: VerifyReport)
    requires IsRun(steps, payload, checksum)
    requires var s := After(steps, checksum);
             Reports(rep, Reduce(s.log), StoreRead(s.store), checksum, {})
    ensures rep.verdict == Pass && rep.lost == 0 && rep.anomalies == []
  {
    var s := After(steps, checksum);
    assert s.store - {} == s.store;
    ExactLoss(steps, payload, checksum, {}, rep);
    NothingGone(rep, {} * Reduce(s.log).Keys);
  }

  lemma NothingGone(rep: VerifyReport, gone: set<int>)
    requires gone == {} && rep.lost == |gone| && Lists(rep.anomalies, About("data-loss", gone))
    requires rep.verdict == Pass <==> gone == {}
    ensures rep.verdict == Pass && rep.lost == 0 && rep.anomalies == []
  {
    assert About("data-loss", gone) == {};
    SameSize(rep.anomalies, {});
  }
}

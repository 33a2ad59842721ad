/** The kafka-log verifier: loss, duplication and reordering read off per-key sequence numbers. */
module KafkaLog {
  import opened Domain
  import opened Int64s
  import opened Sorting
  import opened Sums

  datatype LogRecord = LogRecord(partition: int, offset: int, key: Int64, seqNo: Int64)

  function InLogOrder(): (LogRecord, LogRecord) -> bool {
    (a: LogRecord, b: LogRecord) => a.partition < b.partition || (a.partition == b.partition && a.offset <= b.offset)
  }

  function OfKey(key: int): LogRecord -> bool {
    (r: LogRecord) => r.key == key
  }

  function Seqs(recs: seq<LogRecord>): seq<int> {
    seq(|recs|, i requires 0 <= i < |recs| => recs[i].seqNo)
  }

  /** The sequence numbers of one key, in the order of `recs`. */
  function Stream(recs: seq<LogRecord>, key: int): seq<int> {
    Seqs(Filter(recs, OfKey(key)))
  }

  ghost function KeysOf(recs: seq<LogRecord>): set<int> {
    set r | r in recs :: r.key
  }

  // ----- what the tallies count

  ghost function Values(recs: seq<LogRecord>, key: int): set<int> {
    set r | r in recs && r.key == key :: r.seqNo
  }

  /** The numbers that a key skips between its least and its greatest. */
  ghost function Missing(recs: seq<LogRecord>, key: int): set<int> {
    var present := Values(recs, key);
    if present == {} then {} else Interval(Least(present), Greatest(present)) - present
  }

  function Descents(xs: seq<int>): nat {
    if |xs| < 2 then 0 else
    Descents(xs[..|xs| - 1]) + if xs[|xs| - 1] < xs[|xs| - 2] then 1 else 0
  }

  ghost function Loss(recs: seq<LogRecord>): int -> int {
    (key: int) => |Missing(recs, key)|
  }

  /** What the code adds for a key: a 64-bit loss of 2^63 or more comes out negative and is dropped. */
  ghost function CountedLoss(recs: seq<LogRecord>): int -> int {
    (key: int) => if |Missing(recs, key)| < TWO63 then |Missing(recs, key)| else 0
  }

  ghost function Surplus(recs: seq<LogRecord>): int -> int {
    (key: int) => |Filter(recs, OfKey(key))| - |Values(recs, key)|
  }

  ghost function DescentsOf(recs: seq<LogRecord>): int -> int {
    (key: int) => Descents(Stream(recs, key))
  }

  ghost function RangeSize(recs: seq<LogRecord>): int -> int {
    (key: int) => var v := Values(recs, key); if v == {} then 0 else Greatest(v) - Least(v) + 1
  }

  ghost function Copies(recs: seq<LogRecord>): int -> int {
    (key: int) => |Filter(recs, OfKey(key))|
  }

  function BuildAnomalies(lost: int, dup: int, ordering: int): seq<Anomaly> {
    (if lost > 0 then [Anomaly("message-loss", lost)] else []) +
    (if dup > 0 then [Anomaly("duplication", dup)] else []) +
    (if ordering > 0 then [Anomaly("ordering", ordering)] else [])
  }

  /** `rep` is the report of `recs` when they are read in the order `sorted`. */
  ghost predicate Explains(rep: VerifyReport, recs: seq<LogRecord>, sorted: seq<LogRecord>) {
    && rep.checked == |recs|
    && rep.lost == Wrap(Sum(KeysOf(recs), CountedLoss(recs)))
    && rep.duplicated == Sum(KeysOf(recs), Surplus(recs))
    && rep.ordering == Sum(KeysOf(recs), DescentsOf(sorted))
    && rep.anomalies == BuildAnomalies(rep.lost, rep.duplicated, rep.ordering)
    && rep.verdict == (if recs == [] then Unknown
                       else if rep.lost == 0 && rep.duplicated == 0 && rep.ordering == 0 then Pass
                       else Fail)
  }

  /** Where a kind of anomaly stands in a report. */
  function KindRank(kind: string): int {
    if kind == "message-loss" then 0 else if kind == "duplication" then 1 else if kind == "ordering" then 2 else 3
  }

  /** The anomalies of `rep` are its positive tallies, each once under its own kind: loss first,
      then duplication, then ordering. */
  ghost predicate ListsTallies(rep: VerifyReport) {
    && (forall a :: a in rep.anomalies <==>
                    || (a.kind == "message-loss" && a.subject == rep.lost > 0)
                    || (a.kind == "duplication" && a.subject == rep.duplicated > 0)
                    || (a.kind == "ordering" && a.subject == rep.ordering > 0))
    && (forall i, j | 0 <= i < j < |rep.anomalies| ::
          KindRank(rep.anomalies[i].kind) < KindRank(rep.anomalies[j].kind))
  }

  lemma BuiltFromTallies(rep: VerifyReport)
    requires rep.anomalies == BuildAnomalies(rep.lost, rep.duplicated, rep.ordering)
    ensures ListsTallies(rep)
  {
    var l := if rep.lost > 0 then [Anomaly("message-loss", rep.lost)] else [];
    var d := if rep.duplicated > 0 then [Anomaly("duplication", rep.duplicated)] else [];
    var o := if rep.ordering > 0 then [Anomaly("ordering", rep.ordering)] else [];
    assert rep.anomalies == l + d + o;
    assert forall a :: a in rep.anomalies <==> a in l || a in d || a in o;
  }

  // ----- one key

  lemma StreamSnoc(recs: seq<LogRecord>, r: LogRecord, key: int)
    ensures Stream(recs + [r], key) == Stream(recs, key) + if r.key == key then [r.seqNo as int] else []
  {
    FilterSnoc(recs, r, OfKey(key));
  }

  lemma StreamValues(recs: seq<LogRecord>, key: int, x: int)
    ensures x in Stream(recs, key) <==> x in Values(recs, key)
  {
    var part := Filter(recs, OfKey(key));
    if x in Stream(recs, key) {
      var i :| 0 <= i < |part| && Stream(recs, key)[i] == x;
      FilterIn(recs, OfKey(key), part[i]);
    }
    if x in Values(recs, key) {
      var r :| r in recs && r.key == key && r.seqNo == x;
      FilterIn(recs, OfKey(key), r);
      var i :| 0 <= i < |part| && part[i] == r;
      assert Stream(recs, key)[i] == x;
    }
  }

  ghost function Elements(xs: seq<int>): set<int> {
    set x | x in xs
  }

  /** The pigeonhole behind the duplicate count. */
  lemma {:induction false} ElementsSize(xs: seq<int>)
    ensures |Elements(xs)| <= |xs|
    ensures |Elements(xs)| == |xs| <==> forall i, j | 0 <= i < j < |xs| :: xs[i] != xs[j]
  {
    if xs != [] {
      var front, z := xs[..|xs| - 1], xs[|xs| - 1];
      ElementsSize(front);
      assert xs == front + [z];
      assert Elements(xs) == Elements(front) + {z};
      if z in Elements(front) {
        var i :| 0 <= i < |front| && front[i] == z;
        assert xs[i] == xs[|xs| - 1];
      }
    }
  }

  ghost predicate Contiguous(xs: seq<int>) {
    forall i | 0 <= i < |xs| :: xs[i] == xs[0] + i
  }

  lemma {:induction false} NoDescents(xs: seq<int>)
    ensures Descents(xs) == 0 <==> forall i | 1 <= i < |xs| :: xs[i - 1] <= xs[i]
  {
    if |xs| >= 2 {
      var front := xs[..|xs| - 1];
      NoDescents(front);
      assert forall i | 0 <= i < |front| :: front[i] == xs[i];
    }
  }

  /** The places where a number is followed by a smaller one. */
  ghost function StepsBack(xs: seq<int>): set<int> {
    set i | 0 <= i < |xs| && StepBackAt(xs, i)
  }

  predicate StepBackAt(xs: seq<int>, i: int)
    requires 0 <= i < |xs|
  {
    i + 1 < |xs| && xs[i + 1] < xs[i]
  }

  lemma {:induction false} DescentsCount(xs: seq<int>)
    ensures Descents(xs) == |StepsBack(xs)|
  {
    if |xs| < 2 {
      assert StepsBack(xs) == {};
    } else {
      var n := |xs| - 1;
      DescentsCount(xs[..n]);
      forall i ensures i in StepsBack(xs) <==> i in StepsBack(xs[..n]) || (i == n - 1 && xs[n] < xs[n - 1]) {
      }
      assert StepsBack(xs) == StepsBack(xs[..n]) + if xs[n] < xs[n - 1] then {n - 1} else {};
    }
  }

  lemma {:induction false} Climb(xs: seq<int>, i: nat, j: nat)
    requires forall k | 1 <= k < |xs| :: xs[k - 1] < xs[k]
    requires i <= j < |xs|
    ensures xs[j] - xs[i] >= j - i
  {
    if i < j {
      Climb(xs, i, j - 1);
    }
  }

  lemma CleanImpliesContiguous(xs: seq<int>)
    requires xs != [] && Elements(xs) != {}
    requires Greatest(Elements(xs)) - Least(Elements(xs)) + 1 == |Elements(xs)| == |xs|
    requires Descents(xs) == 0
    ensures Contiguous(xs)
  {
    ElementsSize(xs);
    NoDescents(xs);
    forall i | 1 <= i < |xs| ensures xs[i - 1] < xs[i] {
      assert xs[i - 1] != xs[i];
    }
    forall i | 0 <= i < |xs| ensures xs[i] == xs[0] + i {
      Climb(xs, 0, i);
      Climb(xs, i, |xs| - 1);
      assert xs[0] in Elements(xs) && xs[|xs| - 1] in Elements(xs);
    }
  }

  lemma ContiguousImpliesClean(xs: seq<int>)
    requires xs != [] && Contiguous(xs)
    ensures Elements(xs) != {}
    ensures Greatest(Elements(xs)) - Least(Elements(xs)) + 1 == |Elements(xs)| == |xs|
    ensures Descents(xs) == 0
  {
    assert xs[0] in Elements(xs) && xs[|xs| - 1] in Elements(xs);
    ElementsSize(xs);
    NoDescents(xs);
    forall x | x in Elements(xs) ensures xs[0] <= x <= xs[|xs| - 1] {
      var i :| 0 <= i < |xs| && xs[i] == x;
    }
  }

  lemma KeyFacts(recs: seq<LogRecord>, key: int)
    requires key in KeysOf(recs)
    ensures Stream(recs, key) != [] && Values(recs, key) != {}
    ensures Values(recs, key) == Elements(Stream(recs, key))
    ensures |Missing(recs, key)| == RangeSize(recs)(key) - |Values(recs, key)|
    ensures 0 <= Surplus(recs)(key) && |Filter(recs, OfKey(key))| == |Stream(recs, key)|
  {
    var r :| r in recs && r.key == key;
    FilterIn(recs, OfKey(key), r);
    var xs, vs := Stream(recs, key), Values(recs, key);
    forall x ensures x in Elements(xs) <==> x in vs {
      StreamValues(recs, key, x);
    }
    assert vs == Elements(xs);
    assert r.seqNo in vs;
    ElementsSize(xs);
    SubsetSize(vs, Interval(Least(vs), Greatest(vs)));
  }

  /** A key loses nothing, repeats nothing and never steps back exactly when its stream counts
      up by one: the counting of `analyzeLog` decides contiguity. */
  lemma KeyClean(recs: seq<LogRecord>, key: int)
    requires key in KeysOf(recs)
    ensures Loss(recs)(key) == 0 && Surplus(recs)(key) == 0 && DescentsOf(recs)(key) == 0
            <==> Contiguous(Stream(recs, key))
  {
    KeyFacts(recs, key);
    var xs := Stream(recs, key);
    if Contiguous(xs) {
      ContiguousImpliesClean(xs);
    } else if Loss(recs)(key) == 0 && Surplus(recs)(key) == 0 && DescentsOf(recs)(key) == 0 {
      CleanImpliesContiguous(xs);
    }
  }

  // ----- the code

  /** `sort.Slice`: some arrangement in (partition, offset) order; ties fall anyhow. */
  method SortRecords(recs: seq<LogRecord>) returns (sorted: seq<LogRecord>)
    ensures IsSortOf(sorted, recs, InLogOrder())
  {
    StableSortSorts(recs, InLogOrder());
    sorted := StableSort(recs, InLogOrder());
  }

  /** The two maps the first loop keeps: every key's stream so far and its last number. */
  ghost predicate Gathered(recs: seq<LogRecord>, seqsByKey: map<int, seq<int>>, lastSeq: map<int, int>) {
    && seqsByKey.Keys == lastSeq.Keys
    && (forall k :: k in seqsByKey <==> Stream(recs, k) != [])
    && (forall k | k in seqsByKey ::
          seqsByKey[k] == Stream(recs, k) && lastSeq[k] == Stream(recs, k)[|Stream(recs, k)| - 1])
  }

  lemma GatherStep(recs: seq<LogRecord>, r: LogRecord, seqsByKey: map<int, seq<int>>, lastSeq: map<int, int>)
    requires Gathered(recs, seqsByKey, lastSeq)
    ensures Gathered(recs + [r],
                     seqsByKey[r.key := (if r.key in seqsByKey then seqsByKey[r.key] else []) + [r.seqNo as int]],
                     lastSeq[r.key := r.seqNo])
  {
    forall k ensures Stream(recs + [r], k) == Stream(recs, k) + if r.key == k then [r.seqNo as int] else [] {
      StreamSnoc(recs, r, k);
    }
  }

  lemma DescentsStep(recs: seq<LogRecord>, r: LogRecord, keys: set<int>)
    requires r.key in keys
    ensures var xs := Stream(recs, r.key);
            Sum(keys, DescentsOf(recs + [r])) ==
            Sum(keys, DescentsOf(recs)) + if xs != [] && r.seqNo < xs[|xs| - 1] then 1 else 0
  {
    forall k | k in keys && k != r.key ensures DescentsOf(recs + [r])(k) == DescentsOf(recs)(k) {
      StreamSnoc(recs, r, k);
      assert Stream(recs + [r], k) == Stream(recs, k);
    }
    StreamSnoc(recs, r, r.key);
    var xs := Stream(recs, r.key);
    assert (xs + [r.seqNo as int])[..|xs|] == xs;
    SumUpdate(keys, DescentsOf(recs), DescentsOf(recs + [r]), r.key);
  }

  lemma GatheredAll(recs: seq<LogRecord>, seqsByKey: map<int, seq<int>>, lastSeq: map<int, int>)
    requires Gathered(recs, seqsByKey, lastSeq)
    ensures seqsByKey.Keys == KeysOf(recs)
  {
    forall k ensures Stream(recs, k) != [] <==> k in KeysOf(recs) {
      if k in KeysOf(recs) {
        KeyFacts(recs, k);
      } else {
        FilterNone(recs, OfKey(k));
      }
    }
    assert forall k :: k in seqsByKey.Keys <==> k in KeysOf(recs);
  }

  lemma ScanStep(recs: seq<LogRecord>, r: LogRecord, keys: set<int>,
                 seqsByKey: map<int, seq<int>>, lastSeq: map<int, int>)
    requires Gathered(recs, seqsByKey, lastSeq) && r.key in keys
    ensures Gathered(recs + [r],
                     seqsByKey[r.key := (if r.key in seqsByKey then seqsByKey[r.key] else []) + [r.seqNo as int]],
                     lastSeq[r.key := r.seqNo])
    ensures Sum(keys, DescentsOf(recs + [r])) ==
            Sum(keys, DescentsOf(recs)) + if r.key in lastSeq && r.seqNo < lastSeq[r.key] then 1 else 0
  {
    DescentsStep(recs, r, keys);
    GatherStep(recs, r, seqsByKey, lastSeq);
  }

  /** The first loop: descents of each key and the streams, gathered in one pass. */
  method ScanSorted(sorted: seq<LogRecord>) returns (ordering: int, seqsByKey: map<int, seq<int>>)
    ensures seqsByKey.Keys == KeysOf(sorted)
    ensures forall k | k in seqsByKey :: seqsByKey[k] == Stream(sorted, k)
    ensures ordering == Sum(KeysOf(sorted), DescentsOf(sorted))
  {
    var lastSeq: map<int, int> := map[];
    ordering, seqsByKey := 0, map[];
    ghost var keys := KeysOf(sorted);
    SumOfNats(keys, DescentsOf(sorted[..0]));
    for n := 0 to |sorted|
      invariant Gathered(sorted[..n], seqsByKey, lastSeq)
      invariant ordering == Sum(keys, DescentsOf(sorted[..n]))
    {
      var r := sorted[n];
      assert sorted[..n + 1] == sorted[..n] + [r];
      ScanStep(sorted[..n], r, keys, seqsByKey, lastSeq);
      if r.key in lastSeq && r.seqNo < lastSeq[r.key] {
        ordering := ordering + 1;
      }
      lastSeq := lastSeq[r.key := r.seqNo];
      seqsByKey := seqsByKey[r.key := (if r.key in seqsByKey then seqsByKey[r.key] else []) + [r.seqNo as int]];
    }
    assert sorted[..|sorted|] == sorted;
    GatheredAll(sorted, seqsByKey, lastSeq);
  }

  /** The inner loop over one key's numbers: distinct values, least and greatest. */
  method KeyRange(seqs: seq<int>) returns (uniq: set<int>, minS: int, maxS: int)
    requires seqs != []
    ensures uniq == Elements(seqs) && uniq != {}
    ensures minS == Least(uniq) && maxS == Greatest(uniq)
  {
    uniq, minS, maxS := {}, seqs[0], seqs[0];
    for n := 0 to |seqs|
      invariant forall x :: x in uniq <==> x in seqs[..n]
      invariant minS in seqs && maxS in seqs
      invariant forall x | x in uniq :: minS <= x <= maxS
    {
      var s := seqs[n];
      assert seqs[..n + 1] == seqs[..n] + [s];
      uniq := uniq + {s};
      if s < minS { minS := s; }
      if s > maxS { maxS := s; }
    }
    assert seqs[..|seqs|] == seqs;
    assert forall x :: x in uniq <==> x in Elements(seqs);
    assert uniq == Elements(seqs);
    assert minS in uniq && maxS in uniq;
  }

  /** In 64-bit arithmetic the loss of a key is right below 2^63 and otherwise negative. */
  function KeyLost(minS: Int64, maxS: Int64, distinct: nat): (keyLost: int)
    ensures 1 <= distinct <= maxS - minS + 1 ==>
              var loss := maxS - minS + 1 - distinct;
              if loss < TWO63 then keyLost == loss else keyLost < 0
  {
    WrapAdd(maxS - minS, 1);
    WrapAdd(maxS - minS + 1, 0 - distinct);
    Wrap(Wrap(Wrap(maxS - minS) + 1) - distinct)
  }

  /** What the code computes for a key: its surplus, and in 64 bits its loss, which comes out right
      below 2^63 and negative from there on. */
  lemma LossOfKey(recs: seq<LogRecord>, key: int)
    requires key in KeysOf(recs)
    ensures var v := Elements(Stream(recs, key));
            && v != {} && -TWO63 <= Least(v) <= Greatest(v) < TWO63
            && 1 <= |v| <= Greatest(v) - Least(v) + 1
            && |Missing(recs, key)| == Greatest(v) - Least(v) + 1 - |v|
            && (if |Missing(recs, key)| < TWO63 then KeyLost(Least(v), Greatest(v), |v|) == |Missing(recs, key)|
                else KeyLost(Least(v), Greatest(v), |v|) < 0)
            && Surplus(recs)(key) == |Stream(recs, key)| - |v| >= 0
  {
    KeyFacts(recs, key);
    ValuesInt64(recs, key);
    assert |Values(recs, key)| != 0;
  }

  /** `loss` and `surplus` are what the code makes of the numbers `seqs` of one key. */
  ghost predicate Tallies(seqs: seq<int>, loss: int, surplus: int) {
    var v := Elements(seqs);
    && seqs != [] && v != {} && -TWO63 <= Least(v) && Greatest(v) < TWO63
    && surplus == |seqs| - |v| >= 0
    && var keyLost := KeyLost(Least(v), Greatest(v), |v|);
       loss == if keyLost > 0 then keyLost else 0
  }

  lemma TalliesMean(recs: seq<LogRecord>, key: int)
    requires key in KeysOf(recs)
    ensures Tallies(Stream(recs, key), CountedLoss(recs)(key), Surplus(recs)(key))
  {
    LossOfKey(recs, key);
    KeyFacts(recs, key);
  }

  method TallyKey(seqs: seq<int>, ghost loss: int, ghost surplus: int) returns (keyLost: int, keyDup: int)
    requires Tallies(seqs, loss, surplus)
    ensures loss == if keyLost > 0 then keyLost else 0
    ensures keyDup == surplus >= 0
  {
    var uniq, minS, maxS := KeyRange(seqs);
    keyLost := KeyLost(minS, maxS, |uniq|);
    keyDup := |seqs| - |uniq|;
  }

  lemma AddLoss(lost: int, counted: int, keyLost: int, loss: int)
    requires lost == Wrap(counted) && loss == if keyLost > 0 then keyLost else 0
    ensures (if keyLost > 0 then Wrap(lost + keyLost) else lost) == Wrap(counted + loss)
  {
    WrapAdd(counted, loss);
  }

  /** The tallies after all keys but those `left`. */
  ghost predicate Tallied(keys: set<int>, left: set<int>, loss: int -> int, surplus: int -> int, lost: int, dup: int) {
    && left <= keys
    && lost == Wrap(Sum(keys, loss) - Sum(left, loss))
    && dup == Sum(keys, surplus) - Sum(left, surplus)
  }

  lemma TallyStep(keys: set<int>, left: set<int>, key: int, loss: int -> int, surplus: int -> int,
                  lost: int, dup: int, keyLost: int)
    requires Tallied(keys, left, loss, surplus, lost, dup) && key in left
    requires loss(key) == if keyLost > 0 then keyLost else 0
    ensures Tallied(keys, left - {key}, loss, surplus,
                    if keyLost > 0 then Wrap(lost + keyLost) else lost, dup + surplus(key))
  {
    SumRemove(left, loss, key);
    SumRemove(left, surplus, key);
    AddLoss(lost, Sum(keys, loss) - Sum(left, loss), keyLost, loss(key));
  }

  /** One turn of the second loop. */
  method TallyNext(seqs: seq<int>, lost: int, dup: int, key: int, ghost keys: set<int>, ghost left: set<int>,
                   ghost loss: int -> int, ghost surplus: int -> int)
    returns (lost': int, dup': int)
    requires Tallied(keys, left, loss, surplus, lost, dup) && key in left && Tallies(seqs, loss(key), surplus(key))
    ensures Tallied(keys, left - {key}, loss, surplus, lost', dup')
  {
    var keyLost, keyDup := TallyKey(seqs, loss(key), surplus(key));
    TallyStep(keys, left, key, loss, surplus, lost, dup, keyLost);
    lost', dup' := lost, dup;
    if keyLost > 0 {
      lost' := Wrap(lost + keyLost);
    }
    if keyDup > 0 {
      dup' := dup + keyDup;
    }
  }

  /** The second loop, over the keys in whatever order the map yields them. */
  method TallyKeys(seqsByKey: map<int, seq<int>>, ghost loss: int -> int, ghost surplus: int -> int)
    returns (lost: int, dup: int)
    requires forall k | k in seqsByKey :: Tallies(seqsByKey[k], loss(k), surplus(k))
    ensures lost == Wrap(Sum(seqsByKey.Keys, loss))
    ensures dup == Sum(seqsByKey.Keys, surplus)
  {
    lost, dup := 0, 0;
    var left := seqsByKey.Keys;
    while left != {}
      invariant Tallied(seqsByKey.Keys, left, loss, surplus, lost, dup)
      decreases |left|
    {
      ghost var some := Pick(left);
      var key :| key in left;
      lost, dup := TallyNext(seqsByKey[key], lost, dup, key, seqsByKey.Keys, left, loss, surplus);
      Shrinks(left, key);
      left := left - {key};
    }
  }

  lemma ValuesInt64(recs: seq<LogRecord>, key: int)
    ensures forall x | x in Values(recs, key) :: -TWO63 <= x < TWO63
  {
  }

  /** `analyzeLog`: for some (partition, offset) order of the records, every tally is the count
      it names, whatever order the records and the keys came in. */
  method AnalyzeLog(recs: seq<LogRecord>) returns (rep: VerifyReport)
    ensures exists sorted :: IsSortOf(sorted, recs, InLogOrder()) && Explains(rep, recs, sorted)
    ensures ListsTallies(rep)
  {
    if recs == [] {
      rep := VerifyReport(Unknown, 0, 0, 0, 0, []);
      assert KeysOf(recs) == {};
      BuiltFromTallies(rep);
      assert IsSortOf(recs, recs, InLogOrder()) && Explains(rep, recs, recs);
      return;
    }
    var sorted := SortRecords(recs);
    var ordering, seqsByKey := ScanSorted(sorted);
    forall k | k in seqsByKey ensures Tallies(seqsByKey[k], CountedLoss(sorted)(k), Surplus(sorted)(k)) {
      TalliesMean(sorted, k);
    }
    var lost, dup := TallyKeys(seqsByKey, CountedLoss(sorted), Surplus(sorted));
    var verdict := if lost == 0 && dup == 0 && ordering == 0 then Pass else Fail;
    rep := VerifyReport(verdict, |recs|, lost, dup, ordering, BuildAnomalies(lost, dup, ordering));
    BuiltFromTallies(rep);
    SameCounts(sorted, recs);
    assert Explains(rep, recs, sorted);
  }

  lemma SameKeyCounts(a: seq<LogRecord>, b: seq<LogRecord>, key: int)
    requires multiset(a) == multiset(b)
    ensures Values(a, key) == Values(b, key)
    ensures |Filter(a, OfKey(key))| == |Filter(b, OfKey(key))|
  {
    assert forall r: LogRecord :: r in a <==> r in multiset(a);
    assert forall r: LogRecord :: r in b <==> r in multiset(b);
    assert forall x :: x in Values(a, key) <==> x in Values(b, key);
    FilterPermutation(a, b, OfKey(key));
    assert |Filter(a, OfKey(key))| == |multiset(Filter(a, OfKey(key)))|;
    assert |Filter(b, OfKey(key))| == |multiset(Filter(b, OfKey(key)))|;
  }

  /** Loss and duplication depend on which records there are, not on their order. */
  lemma SameCounts(a: seq<LogRecord>, b: seq<LogRecord>)
    requires multiset(a) == multiset(b)
    ensures KeysOf(a) == KeysOf(b) && |a| == |b|
    ensures Sum(KeysOf(a), CountedLoss(a)) == Sum(KeysOf(b), CountedLoss(b))
    ensures Sum(KeysOf(a), Loss(a)) == Sum(KeysOf(b), Loss(b))
    ensures Sum(KeysOf(a), Surplus(a)) == Sum(KeysOf(b), Surplus(b))
  {
    assert forall r: LogRecord :: r in a <==> r in multiset(a);
    assert forall r: LogRecord :: r in b <==> r in multiset(b);
    assert |a| == |multiset(a)| == |multiset(b)| == |b|;
    assert forall k :: k in KeysOf(a) <==> k in KeysOf(b);
    assert KeysOf(a) == KeysOf(b);
    forall k
      ensures CountedLoss(a)(k) == CountedLoss(b)(k) && Loss(a)(k) == Loss(b)(k) && Surplus(a)(k) == Surplus(b)(k)
    {
      SameKeyCounts(a, b, k);
    }
    SumSame(KeysOf(a), CountedLoss(a), CountedLoss(b));
    SumSame(KeysOf(a), Loss(a), Loss(b));
    SumSame(KeysOf(a), Surplus(a), Surplus(b));
  }

  // ----- what the report means

  /** Every key's numbers, read in log order, are s, s+1, ..., s+n-1. */
  ghost predicate Clean(sorted: seq<LogRecord>) {
    forall k | k in KeysOf(sorted) :: Contiguous(Stream(sorted, k))
  }

  /** No two records share a (partition, offset). */
  ghost predicate DistinctPositions(recs: seq<LogRecord>) {
    forall a, b | a in recs && b in recs && a.partition == b.partition && a.offset == b.offset :: a == b
  }

  lemma NonNegativeCounts(recs: seq<LogRecord>)
    ensures forall k | k in KeysOf(recs) :: Loss(recs)(k) >= 0 && CountedLoss(recs)(k) >= 0
    ensures forall k | k in KeysOf(recs) :: Surplus(recs)(k) >= 0 && DescentsOf(recs)(k) >= 0
  {
    forall k | k in KeysOf(recs) ensures Surplus(recs)(k) >= 0 {
      KeyFacts(recs, k);
    }
  }

  /** The three true tallies vanish together exactly on a clean log. */
  lemma CleanByCounts(sorted: seq<LogRecord>)
    ensures && Sum(KeysOf(sorted), Loss(sorted)) >= 0
            && Sum(KeysOf(sorted), Surplus(sorted)) >= 0
            && Sum(KeysOf(sorted), DescentsOf(sorted)) >= 0
    ensures Clean(sorted) <==>
            && Sum(KeysOf(sorted), Loss(sorted)) == 0
            && Sum(KeysOf(sorted), Surplus(sorted)) == 0
            && Sum(KeysOf(sorted), DescentsOf(sorted)) == 0
  {
    var keys := KeysOf(sorted);
    NonNegativeCounts(sorted);
    SumOfNats(keys, Loss(sorted));
    SumOfNats(keys, Surplus(sorted));
    SumOfNats(keys, DescentsOf(sorted));
    forall k | k in keys
      ensures Contiguous(Stream(sorted, k)) <==>
              Loss(sorted)(k) == 0 && Surplus(sorted)(k) == 0 && DescentsOf(sorted)(k) == 0
    {
      KeyClean(sorted, k);
    }
  }

  lemma SameDescents(recs: seq<LogRecord>, sorted: seq<LogRecord>)
    requires IsSortOf(sorted, recs, InLogOrder())
    ensures KeysOf(recs) == KeysOf(sorted)
    ensures Sum(KeysOf(recs), Loss(recs)) == Sum(KeysOf(sorted), Loss(sorted))
    ensures Sum(KeysOf(recs), CountedLoss(recs)) == Sum(KeysOf(sorted), CountedLoss(sorted))
    ensures Sum(KeysOf(recs), Surplus(recs)) == Sum(KeysOf(sorted), Surplus(sorted))
  {
    SameCounts(recs, sorted);
  }

  /** When a pass is wrong: exactly when numbers are missing, nothing is repeated or reordered,
      and the losses below 2^63 add up to a multiple of 2^64. */
  lemma {:induction false} FalsePass(rep: VerifyReport, recs: seq<LogRecord>, sorted: seq<LogRecord>)
    requires recs != [] && IsSortOf(sorted, recs, InLogOrder()) && Explains(rep, recs, sorted)
    ensures Clean(sorted) ==> rep.verdict == Pass
    ensures rep.verdict == Pass && !Clean(sorted) <==>
            && Sum(KeysOf(recs), Surplus(recs)) == 0
            && Sum(KeysOf(recs), DescentsOf(sorted)) == 0
            && Sum(KeysOf(recs), Loss(recs)) > 0
            && Sum(KeysOf(recs), CountedLoss(recs)) % 0x1_0000_0000_0000_0000 == 0
  {
    WrapZero(Sum(KeysOf(recs), CountedLoss(recs)));
    SameDescents(recs, sorted);
    CleanByCounts(sorted);
    if Clean(sorted) {
      CountedIsLoss(sorted);
    }
  }

  lemma CountedIsLoss(recs: seq<LogRecord>)
    requires Sum(KeysOf(recs), Loss(recs)) < TWO63
    ensures Sum(KeysOf(recs), CountedLoss(recs)) == Sum(KeysOf(recs), Loss(recs)) >= 0
  {
    NonNegativeCounts(recs);
    SumOfNats(KeysOf(recs), Loss(recs));
    SumSame(KeysOf(recs), CountedLoss(recs), Loss(recs));
  }

  /** Below 2^63 missing numbers every tally is exact and the verdict decides contiguity. */
  lemma {:induction false} VerdictExact(rep: VerifyReport, recs: seq<LogRecord>, sorted: seq<LogRecord>)
    requires recs != [] && IsSortOf(sorted, recs, InLogOrder()) && Explains(rep, recs, sorted)
    requires Sum(KeysOf(recs), Loss(recs)) < TWO63
    ensures rep.lost == Sum(KeysOf(recs), Loss(recs))
    ensures rep.verdict == (if Clean(sorted) then Pass else Fail)
  {
    CountedIsLoss(recs);
    FalsePass(rep, recs, sorted);
  }

  /** One key, only its two extreme numbers: all the others are missing. */
  function Extremes(): seq<LogRecord> {
    [LogRecord(0, 0, 0, -TWO63), LogRecord(0, 1, 0, TWO63 - 1)]
  }

  lemma ExtremesStream()
    ensures KeysOf(Extremes()) == {0} && Stream(Extremes(), 0) == [-TWO63, TWO63 - 1]
  {
    FilterAll(Extremes(), OfKey(0));
    assert Extremes()[0] in Extremes();
    assert forall k :: k in KeysOf(Extremes()) <==> k in {0};
  }

  lemma PairFacts(a: int, b: int)
    requires a < b
    ensures Elements([a, b]) == {a, b} && |{a, b}| == 2 && Least({a, b}) == a && Greatest({a, b}) == b
    ensures Descents([a, b]) == 0
  {
    assert forall x :: x in Elements([a, b]) <==> x in {a, b};
    assert [a, b][..1] == [a];
  }

  lemma PairCounts(recs: seq<LogRecord>, key: int, a: int, b: int)
    requires key in KeysOf(recs) && Stream(recs, key) == [a, b] && a < b
    ensures Loss(recs)(key) == b - a - 1 && Surplus(recs)(key) == 0 && DescentsOf(recs)(key) == 0
  {
    KeyFacts(recs, key);
    PairFacts(a, b);
  }

  lemma ExtremesCounts()
    ensures Loss(Extremes())(0) == TWO64 - 2 && Surplus(Extremes())(0) == 0 && DescentsOf(Extremes())(0) == 0
  {
    ExtremesStream();
    PairCounts(Extremes(), 0, -TWO63, TWO63 - 1);
  }

  lemma ExtremesTallies()
    ensures Sum(KeysOf(Extremes()), Loss(Extremes())) == TWO64 - 2
    ensures Sum(KeysOf(Extremes()), CountedLoss(Extremes())) == 0
    ensures Sum(KeysOf(Extremes()), Surplus(Extremes())) == 0
    ensures Sum(KeysOf(Extremes()), DescentsOf(Extremes())) == 0
  {
    ExtremesStream();
    ExtremesCounts();
    SumOfOne(Loss(Extremes()));
    SumOfOne(CountedLoss(Extremes()));
    SumOfOne(Surplus(Extremes()));
    SumOfOne(DescentsOf(Extremes()));
  }

  lemma SumOfOne(f: int -> int)
    ensures Sum({0}, f) == f(0)
  {
    SumRemove({0}, f, 0);
    assert {0} - {0} == {};
  }

  lemma ExtremesSorted(sorted: seq<LogRecord>)
    requires IsSortOf(sorted, Extremes(), InLogOrder())
    ensures sorted == Extremes()
  {
    SortedUnique(Extremes(), sorted, InLogOrder());
  }

  /** Such a false pass exists. */
  lemma {:induction false} ExtremesPass(rep: VerifyReport, sorted: seq<LogRecord>)
    requires IsSortOf(sorted, Extremes(), InLogOrder()) && Explains(rep, Extremes(), sorted)
    ensures rep.verdict == Pass && !Clean(sorted)
  {
    ExtremesSorted(sorted);
    ExtremesTallies();
    FalsePass(rep, Extremes(), sorted);
  }

  /** With distinct positions the whole report is a function of the set of records: neither the
      order they arrive in nor the order the maps are walked in can change it. */
  lemma {:induction false} ReportDetermined(rep: VerifyReport, recs: seq<LogRecord>,
                                            rep': VerifyReport, recs': seq<LogRecord>)
    requires multiset(recs) == multiset(recs') && DistinctPositions(recs)
    requires exists s :: IsSortOf(s, recs, InLogOrder()) && Explains(rep, recs, s)
    requires exists s :: IsSortOf(s, recs', InLogOrder()) && Explains(rep', recs', s)
    ensures rep == rep'
  {
    var s :| IsSortOf(s, recs, InLogOrder()) && Explains(rep, recs, s);
    var s' :| IsSortOf(s', recs', InLogOrder()) && Explains(rep', recs', s');
    assert forall r: LogRecord | r in s :: r in multiset(recs);
    SortedUnique(s, s', InLogOrder());
    SameCounts(recs, recs');
  }

  lemma {:induction false} CopiesSum(recs: seq<LogRecord>, keys: set<int>)
    requires KeysOf(recs) <= keys
    ensures Sum(keys, Copies(recs)) == |recs|
  {
    if recs == [] {
      SumOfNats(keys, Copies(recs));
    } else {
      var front, r := recs[..|recs| - 1], recs[|recs| - 1];
      assert recs == front + [r];
      CopiesSum(front, keys);
      forall k ensures Copies(recs)(k) == Copies(front)(k) + if r.key == k then 1 else 0 {
        FilterSnoc(front, r, OfKey(k));
      }
      assert r.key in KeysOf(recs);
      SumUpdate(keys, Copies(front), Copies(recs), r.key);
    }
  }

  /** Conservation: the ranges of all keys hold the distinct records and the missing numbers. */
  lemma {:induction false} RangesConserve(recs: seq<LogRecord>)
    ensures Sum(KeysOf(recs), RangeSize(recs)) ==
            |recs| - Sum(KeysOf(recs), Surplus(recs)) + Sum(KeysOf(recs), Loss(recs))
  {
    var keys := KeysOf(recs);
    CopiesSum(recs, keys);
    forall k | k in keys ensures RangeSize(recs)(k) + Surplus(recs)(k) == Copies(recs)(k) + Loss(recs)(k) {
      KeyFacts(recs, k);
    }
    var total := (k: int) => Copies(recs)(k) + Loss(recs)(k);
    SumAdd(keys, Copies(recs), Loss(recs), total);
    SumAdd(keys, RangeSize(recs), Surplus(recs), total);
  }
}

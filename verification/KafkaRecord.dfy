/** Kafka record construction and decoding, and the end-to-end laws: exactly when what generators
    produce into a faithful log raises no alarm. */
module KafkaRecord {
  import opened Arith
  import opened Domain
  import opened Int64s
  import opened Sorting
  import opened Sums
  import opened Workload
  import Log = KafkaLog

  // ----- decimal keys

  function Digit(d: int): char
    requires 0 <= d < 10
  {
    '0' + d as char
  }

  function Digits(n: nat): string {
    if n < 10 then [Digit(n)] else Digits(n / 10) + [Digit(n % 10)]
  }

  /** `strconv.FormatInt(key, 10)`. */
  function KeyBytes(key: Int64): string {
    if key < 0 then "-" + Digits(0 - key as int) else Digits(key)
  }

  function ParseDigits(s: string): Option<nat> {
    if s == [] || !('0' <= s[|s| - 1] <= '9') then None
    else
      var d := (s[|s| - 1] - '0') as int;
      if |s| == 1 then Some(d)
      else match ParseDigits(s[..|s| - 1])
        case None => None
        case Some(n) => Some(10 * n + d)
  }

  /** `strconv.ParseInt(s, 10, 64)`: an optional sign, then digits, inside the 64-bit range. */
  function KeyFromBytes(s: string): Option<Int64> {
    var signed := s != [] && (s[0] == '-' || s[0] == '+');
    match ParseDigits(if signed then s[1..] else s)
    case None => None
    case Some(n) =>
      if signed && s[0] == '-' then (if n <= TWO63 then Some(0 - n) else None)
      else if n < TWO63 then Some(n) else None
  }

  lemma {:induction false} DigitsRoundTrip(n: nat)
    ensures ParseDigits(Digits(n)) == Some(n)
    ensures Digits(n) != [] && '0' <= Digits(n)[0] <= '9'
  {
    if n >= 10 {
      DigitsRoundTrip(n / 10);
      var front := Digits(n / 10);
      assert (front + [Digit(n % 10)])[..|front|] == front;
    }
  }

  lemma KeyRoundTrip(key: Int64)
    ensures KeyFromBytes(KeyBytes(key)) == Some(key)
  {
    DigitsRoundTrip(if key < 0 then 0 - key as int else key as int);
    if key < 0 {
      assert KeyBytes(key)[1..] == Digits(0 - key as int);
    }
  }

  // ----- sequence headers

  function Unsigned(x: Int64): nat {
    if x < 0 then x + TWO64 else x
  }

  function Pow256(width: nat): nat {
    if width == 0 then 1 else 256 * Pow256(width - 1)
  }

  /** The `width` low bytes of `n`, most significant first. */
  function BigEndian(n: nat, width: nat): (b: seq<int>)
    ensures |b| == width && forall i | 0 <= i < width :: 0 <= b[i] < 256
  {
    if width == 0 then [] else BigEndian(n / 256, width - 1) + [n % 256]
  }

  function FromBigEndian(b: seq<int>): int {
    if b == [] then 0 else 256 * FromBigEndian(b[..|b| - 1]) + b[|b| - 1]
  }

  function EncodeSeq(s: Int64): seq<int> {
    BigEndian(Unsigned(s), 8)
  }

  function DecodeSeq(b: seq<int>): Option<Int64> {
    if |b| != 8 then None else Some(Wrap(FromBigEndian(b)))
  }

  lemma {:induction false} BigEndianRoundTrip(n: nat, width: nat)
    requires n < Pow256(width)
    ensures FromBigEndian(BigEndian(n, width)) == n
  {
    if width > 0 {
      BigEndianRoundTrip(n / 256, width - 1);
      var front := BigEndian(n / 256, width - 1);
      assert (front + [n % 256])[..|front|] == front;
    }
  }

  lemma EightBytes()
    ensures Pow256(8) == TWO64
  {
    assert Pow256(2) == 65536;
    assert Pow256(4) == 65536 * 65536;
    assert Pow256(6) == 65536 * Pow256(4);
  }

  lemma SeqRoundTrip(s: Int64)
    ensures DecodeSeq(EncodeSeq(s)) == Some(s)
  {
    EightBytes();
    BigEndianRoundTrip(Unsigned(s), 8);
  }

  ghost predicate LexLess(a: seq<int>, b: seq<int>)
    requires |a| == |b|
  {
    a != [] && (LexLess(a[..|a| - 1], b[..|b| - 1]) || (a[..|a| - 1] == b[..|b| - 1] && a[|a| - 1] < b[|b| - 1]))
  }

  lemma LexSnoc(a: seq<int>, x: int, b: seq<int>, y: int)
    requires |a| == |b|
    ensures LexLess(a + [x], b + [y]) <==> LexLess(a, b) || (a == b && x < y)
  {
    assert (a + [x])[..|a|] == a && (b + [y])[..|b|] == b;
  }

  lemma BigEndianInjective(m: nat, n: nat, width: nat)
    requires m < Pow256(width) && n < Pow256(width)
    ensures BigEndian(m, width) == BigEndian(n, width) <==> m == n
  {
    BigEndianRoundTrip(m, width);
    BigEndianRoundTrip(n, width);
  }

  lemma LastByteOrder(m: nat, n: nat)
    ensures m < n <==> m / 256 < n / 256 || (m / 256 == n / 256 && m % 256 < n % 256)
  {
  }

  lemma OrderStep(a: seq<int>, b: seq<int>, m: nat, n: nat)
    requires |a| == |b| && (LexLess(a, b) <==> m / 256 < n / 256) && (a == b <==> m / 256 == n / 256)
    ensures LexLess(a + [m % 256], b + [n % 256]) <==> m < n
  {
    LexSnoc(a, m % 256, b, n % 256);
    LastByteOrder(m, n);
  }

  lemma HighBytes(m: nat, width: nat)
    requires width > 0 && m < Pow256(width)
    ensures m / 256 < Pow256(width - 1) && BigEndian(m, width) == BigEndian(m / 256, width - 1) + [m % 256]
  {
    DivBelow(m, 256, Pow256(width - 1));
  }

  lemma {:induction false} BigEndianOrder(m: nat, n: nat, width: nat)
    requires m < Pow256(width) && n < Pow256(width)
    ensures LexLess(BigEndian(m, width), BigEndian(n, width)) <==> m < n
  {
    if width > 0 {
      HighBytes(m, width);
      HighBytes(n, width);
      BigEndianOrder(m / 256, n / 256, width - 1);
      BigEndianInjective(m / 256, n / 256, width - 1);
      OrderStep(BigEndian(m / 256, width - 1), BigEndian(n / 256, width - 1), m, n);
    }
  }

  /** Byte order follows numeric order only between numbers of the same sign: every negative
      number encodes above every non-negative one. */
  lemma SeqByteOrder(s: Int64, t: Int64)
    requires s < t
    ensures LexLess(EncodeSeq(s), EncodeSeq(t)) <==> (s < 0 <==> t < 0)
  {
    EightBytes();
    BigEndianOrder(Unsigned(s), Unsigned(t), 8);
  }

  // ----- records

  datatype Header = Header(key: string, value: seq<int>)

  datatype Record = Record(key: string, value: Option<seq<int>>, headers: seq<Header>)

  const SEQ_HEADER := "pl-seq"

  function RecordFrom(op: Operation): Record
    requires InRange(op)
  {
    Record(KeyBytes(op.key), op.value, [Header(SEQ_HEADER, EncodeSeq(op.seqNo))])
  }

  /** The key of the i-th record of a batch, in 64-bit arithmetic. */
  function BatchKey(key: int, batch: int, i: int): Int64 {
    Wrap(key * batch + i)
  }

  function BatchRecordAt(op: Operation, i: int, batch: int): Record
    requires InRange(op)
  {
    Record(KeyBytes(BatchKey(op.key, batch, i)), op.value, [Header(SEQ_HEADER, EncodeSeq(op.seqNo))])
  }

  predicate InRange(op: Operation) {
    -TWO63 <= op.key < TWO63 && -TWO63 <= op.seqNo < TWO63
  }

  function SeqFromHeaders(hs: seq<Header>): Option<Int64> {
    if hs == [] then None
    else if hs[0].key == SEQ_HEADER then DecodeSeq(hs[0].value)
    else SeqFromHeaders(hs[1..])
  }

  /** Over a keyspace of `keySpace` keys the batch keys are distinct exactly when
      keySpace * batch <= 2^64. */
  lemma BatchKeysCollide(keySpace: nat, batch: nat)
    requires keySpace >= 1 && batch >= 1
    ensures (forall k, i, k', i' | 0 <= k < keySpace && 0 <= i < batch && 0 <= k' < keySpace && 0 <= i' < batch ::
               BatchKey(k, batch, i) == BatchKey(k', batch, i') ==> k == k' && i == i')
            <==> keySpace * batch <= TWO64
  {
    if keySpace * batch <= TWO64 {
      forall k, i, k', i' | 0 <= k < keySpace && 0 <= i < batch && 0 <= k' < keySpace && 0 <= i' < batch &&
                            BatchKey(k, batch, i) == BatchKey(k', batch, i')
        ensures k == k' && i == i'
      {
        BatchKeyInjective(keySpace, batch, k, i, k', i');
      }
    } else {
      var q, r := TWO64 / batch, TWO64 % batch;
      DivMod(TWO64, batch);
      MulStrict(keySpace, q, batch);
      WrapNext(0);
      assert BatchKey(0, batch, 0) == BatchKey(q, batch, r);
      MulStrict(q, 0, batch);
      MulStrict(q, -1, batch);
      assert q > 0 || r > 0;
    }
  }

  lemma BatchKeyInjective(keySpace: nat, batch: nat, k: int, i: int, k': int, i': int)
    requires batch >= 1 && keySpace * batch <= TWO64
    requires 0 <= k < keySpace && 0 <= i < batch && 0 <= k' < keySpace && 0 <= i' < batch
    requires BatchKey(k, batch, i) == BatchKey(k', batch, i')
    ensures k == k' && i == i'
  {
    var x, y := k * batch + i, k' * batch + i';
    MulStrict(k, keySpace, batch);
    MulStrict(k', keySpace, batch);
    MulStrict(0, k, batch);
    MulStrict(0, k', batch);
    var a := WrapMultiple(x);
    var b := WrapMultiple(y);
    assert x - y == (b - a) * 0x1_0000_0000_0000_0000;
    assert x == y;
    MulStrict(k, k', batch);
    MulStrict(k', k, batch);
  }

  // ----- producing

  function BatchOf(op: Operation, batch: nat): (recs: seq<Record>)
    requires InRange(op)
  {
    seq(batch, i => BatchRecordAt(op, i, batch))
  }

  /** The records of one produce call; a batch size below 1 counts as 1, and the single-record
      path builds the same record as a batch of one. */
  method Produce(op: Operation, batchSize: int) returns (recs: seq<Record>)
    requires InRange(op)
    ensures recs == BatchOf(op, if batchSize < 1 then 1 else batchSize)
    ensures |recs| == if batchSize < 1 then 1 else batchSize
    ensures forall j | 0 <= j < |recs| ::
              && recs[j].value == op.value && recs[j].key == KeyBytes(Wrap(op.key * |recs| + j))
              && SeqFromHeaders(recs[j].headers) == Some(op.seqNo)
  {
    SeqRoundTrip(op.seqNo);
    var n := if batchSize < 1 then 1 else batchSize;
    if n == 1 {
      return [RecordFrom(op)];
    }
    recs := [];
    for i := 0 to n
      invariant |recs| == i && forall j | 0 <= j < i :: recs[j] == BatchRecordAt(op, j, n)
    {
      recs := recs + [BatchRecordAt(op, i, n)];
    }
  }

  function AllRecords(ops: seq<Operation>, batch: nat): seq<Record>
    requires forall op | op in ops :: InRange(op)
  {
    if ops == [] then [] else AllRecords(ops[..|ops| - 1], batch) + BatchOf(ops[|ops| - 1], batch)
  }

  // ----- draining

  datatype Stored = Stored(partition: int, offset: int, rec: Record)

  /** A stored record as the analysis sees it; a record that is not one of ours is skipped. */
  function Decode(st: Stored): seq<Log.LogRecord> {
    match (KeyFromBytes(st.rec.key), SeqFromHeaders(st.rec.headers))
    case (Some(key), Some(seqNo)) => [Log.LogRecord(st.partition, st.offset, key, seqNo)]
    case _ => []
  }

  function DecodeOf(): Stored -> seq<Log.LogRecord> {
    (st: Stored) => Decode(st)
  }

  function DecodeAll(log: seq<Stored>): seq<Log.LogRecord> {
    FlatMap(DecodeOf(), log)
  }

  /** One poll of the topic: records, an idle timeout, or a cancelled context. */
  datatype Poll = Fetched(recs: seq<Stored>) | Idle | Cancelled

  function RecsOf(): Poll -> seq<Stored> {
    (p: Poll) => if p.Fetched? then p.recs else []
  }

  /** The decoding loop over one fetch. */
  method DecodeFetch(recs: seq<Stored>) returns (out: seq<Log.LogRecord>)
    ensures out == DecodeAll(recs)
  {
    out := [];
    for j := 0 to |recs|
      invariant out == DecodeAll(recs[..j])
    {
      assert recs[..j + 1] == recs[..j] + [recs[j]];
      FlatMapSnoc(DecodeOf(), recs[..j], recs[j]);
      var key, seqNo := KeyFromBytes(recs[j].rec.key), SeqFromHeaders(recs[j].rec.headers);
      if key.Some? && seqNo.Some? {
        out := out + [Log.LogRecord(recs[j].partition, recs[j].offset, key.value, seqNo.value)];
      }
    }
    assert recs[..|recs|] == recs;
  }

  /** The drain ended before poll n, the first that fetched nothing, with everything fetched until
      then; it was cut short if that poll was cancelled. */
  ghost predicate Drained(polls: seq<Poll>, n: nat, out: seq<Log.LogRecord>, cancelled: bool) {
    && n <= |polls| && out == DecodeAll(FlatMap(RecsOf(), polls[..n]))
    && (forall j | 0 <= j < n :: polls[j].Fetched? && polls[j].recs != [])
    && (n < |polls| ==> polls[n] == Idle || polls[n] == Cancelled || polls[n] == Fetched([]))
    && (cancelled <==> n < |polls| && polls[n] == Cancelled)
  }

  /** Drains until the first empty or idle poll: everything fetched before it, decoded, in order. */
  method DrainTopic(polls: seq<Poll>) returns (out: seq<Log.LogRecord>, cancelled: bool)
    ensures exists n: nat :: Drained(polls, n, out, cancelled)
  {
    out, cancelled := [], false;
    var i: nat := 0;
    while i < |polls| && polls[i].Fetched? && |polls[i].recs| > 0
      invariant i <= |polls| && out == DecodeAll(FlatMap(RecsOf(), polls[..i]))
      invariant forall j | 0 <= j < i :: polls[j].Fetched? && polls[j].recs != []
    {
      var decoded := DecodeFetch(polls[i].recs);
      FetchStep(polls, i);
      out := out + decoded;
      i := i + 1;
    }
    cancelled := i < |polls| && polls[i].Cancelled?;
    assert Drained(polls, i, out, cancelled);
  }

  lemma FetchStep(polls: seq<Poll>, i: nat)
    requires i < |polls| && polls[i].Fetched?
    ensures DecodeAll(FlatMap(RecsOf(), polls[..i + 1])) ==
            DecodeAll(FlatMap(RecsOf(), polls[..i])) + DecodeAll(polls[i].recs)
  {
    assert polls[..i + 1] == polls[..i] + [polls[i]];
    FlatMapSnoc(RecsOf(), polls[..i], polls[i]);
    FlatMapConcat(DecodeOf(), FlatMap(RecsOf(), polls[..i]), polls[i].recs);
  }

  /** Reading the stored records in another order decodes the same records in another order. */
  lemma DecodePermutation(a: seq<Stored>, b: seq<Stored>)
    requires multiset(a) == multiset(b)
    ensures multiset(DecodeAll(a)) == multiset(DecodeAll(b))
  {
    FlatMapPermutation(DecodeOf(), a, b);
  }

  // ----- end to end

  /** The log holds the produced records, partitioned by key bytes, those of one key in produce order. */
  ghost predicate Faithful(log: seq<Stored>, recs: seq<Record>, route: string -> int) {
    && |log| == |recs|
    && (forall i | 0 <= i < |log| :: log[i].rec == recs[i] && log[i].partition == route(recs[i].key))
    && (forall i, j | 0 <= i < j < |log| && log[i].rec.key == log[j].rec.key :: log[i].offset < log[j].offset)
  }

  /** What a produced record carries. */
  datatype Tag = Tag(key: Int64, seqNo: Int64)

  function BatchTags(op: Operation, batch: nat, n: nat): seq<Tag>
    requires InRange(op)
  {
    if n == 0 then [] else BatchTags(op, batch, n - 1) + [Tag(BatchKey(op.key, batch, n - 1), op.seqNo)]
  }

  function Tags(ops: seq<Operation>, batch: nat): seq<Tag>
    requires forall op | op in ops :: InRange(op)
  {
    if ops == [] then [] else Tags(ops[..|ops| - 1], batch) + BatchTags(ops[|ops| - 1], batch, batch)
  }

  function TagStream(tags: seq<Tag>, key: int): seq<int> {
    if tags == [] then [] else
    var last := tags[|tags| - 1];
    TagStream(tags[..|tags| - 1], key) + if last.key == key then [last.seqNo as int] else []
  }

  lemma TagStreamSnoc(tags: seq<Tag>, tag: Tag, key: int)
    ensures TagStream(tags + [tag], key) == TagStream(tags, key) + if tag.key == key then [tag.seqNo as int] else []
  {
    assert (tags + [tag])[..|tags|] == tags;
  }

  lemma {:induction false} TagStreamConcat(a: seq<Tag>, b: seq<Tag>, key: int)
    ensures TagStream(a + b, key) == TagStream(a, key) + TagStream(b, key)
  {
    if b == [] {
      assert a + b == a;
    } else {
      assert (a + b)[..|a + b| - 1] == a + b[..|b| - 1];
      TagStreamConcat(a, b[..|b| - 1], key);
    }
  }

  ghost predicate NoCollisions(keySpace: nat, batch: nat) {
    batch >= 1 && keySpace * batch <= TWO64 && keySpace <= TWO63
  }

  ghost predicate InSpace(ops: seq<Operation>, keySpace: nat) {
    forall op | op in ops :: 0 <= op.key < keySpace && InRange(op)
  }

  lemma SameBatchKey(keySpace: nat, batch: nat, k: int, i: int, k': int, i': int)
    requires NoCollisions(keySpace, batch)
    requires 0 <= k < keySpace && 0 <= i < batch && 0 <= k' < keySpace && 0 <= i' < batch
    ensures BatchKey(k, batch, i) == BatchKey(k', batch, i') <==> k == k' && i == i'
  {
    if BatchKey(k, batch, i) == BatchKey(k', batch, i') {
      BatchKeyInjective(keySpace, batch, k, i, k', i');
    }
  }

  lemma {:induction false} BatchTagsStream(op: Operation, keySpace: nat, batch: nat, n: nat, q: int, i: int)
    requires NoCollisions(keySpace, batch) && n <= batch && InRange(op)
    requires 0 <= op.key < keySpace && 0 <= q < keySpace && 0 <= i < batch
    ensures TagStream(BatchTags(op, batch, n), BatchKey(q, batch, i)) ==
            if op.key == q && i < n then [op.seqNo] else []
  {
    if n > 0 {
      BatchTagsStream(op, keySpace, batch, n - 1, q, i);
      var front := BatchTags(op, batch, n - 1);
      var last := Tag(BatchKey(op.key, batch, n - 1), op.seqNo);
      TagStreamSnoc(front, last, BatchKey(q, batch, i));
      SameBatchKey(keySpace, batch, op.key, n - 1, q, i);
    }
  }

  function UpTo(n: nat): seq<int> {
    seq(n, i => i + 1)
  }

  lemma UpToNext(n: nat)
    ensures UpTo(n + 1) == UpTo(n) + [n + 1]
  {
  }

  function SeqNoOf(): Operation -> int {
    (op: Operation) => op.seqNo
  }

  /** The numbers of the operations on `key`, in order. */
  function SeqsOn(ops: seq<Operation>, key: int): seq<int> {
    Map(SeqNoOf(), Filter(ops, OnKey(key)))
  }

  lemma SeqsOnSnoc(front: seq<Operation>, op: Operation, key: int)
    ensures SeqsOn(front + [op], key) == SeqsOn(front, key) + if op.key == key then [op.seqNo] else []
  {
    FilterSnoc(front, op, OnKey(key));
    MapConcat(SeqNoOf(), Filter(front, OnKey(key)), [op]);
  }

  /** Every derived key sees the numbers of its key, once each, however many records a batch holds. */
  lemma {:induction false} DerivedStream(ops: seq<Operation>, keySpace: nat, batch: nat, q: int, i: int)
    requires NoCollisions(keySpace, batch) && InSpace(ops, keySpace) && 0 <= q < keySpace && 0 <= i < batch
    ensures TagStream(Tags(ops, batch), BatchKey(q, batch, i)) == SeqsOn(ops, q)
  {
    if ops != [] {
      var front, op := ops[..|ops| - 1], ops[|ops| - 1];
      assert ops == front + [op];
      DerivedStream(front, keySpace, batch, q, i);
      assert op in ops;
      TagsSnoc(front, op, batch);
      TagStreamConcat(Tags(front, batch), BatchTags(op, batch, batch), BatchKey(q, batch, i));
      BatchTagsStream(op, keySpace, batch, batch, q, i);
      SeqsOnSnoc(front, op, q);
    }
  }

  lemma {:induction false} NumberedSeqs(ops: seq<Operation>, q: int)
    requires Numbered(ops)
    ensures SeqsOn(ops, q) == UpTo(CountKey(ops, q))
  {
    if ops != [] {
      var front, op := ops[..|ops| - 1], ops[|ops| - 1];
      assert ops == front + [op];
      NumberedFront(front, op);
      NumberedSeqs(front, q);
      SeqsOnSnoc(front, op, q);
      UpToNext(CountKey(front, q));
    }
  }

  /** When every operation of a generator produces, every derived key sees exactly 1, 2, 3, ... */
  lemma {:induction false} DerivedKeyCountsUp(ops: seq<Operation>, keySpace: nat, batch: nat, q: int, i: int)
    requires NoCollisions(keySpace, batch) && InSpace(ops, keySpace) && Numbered(ops)
    requires 0 <= q < keySpace && 0 <= i < batch
    ensures TagStream(Tags(ops, batch), BatchKey(q, batch, i)) == UpTo(CountKey(ops, q))
  {
    DerivedStream(ops, keySpace, batch, q, i);
    NumberedSeqs(ops, q);
  }

  lemma NumberedFront(front: seq<Operation>, op: Operation)
    requires Numbered(front + [op])
    ensures Numbered(front) && op.seqNo == CountKey(front, op.key) + 1
    ensures forall k :: CountKey(front + [op], k) == CountKey(front, k) + if k == op.key then 1 else 0
  {
    var all := front + [op];
    forall i | 0 <= i < |front| ensures front[i].seqNo == CountKey(front[..i], front[i].key) + 1 {
      assert all[i] == front[i] && all[..i] == front[..i];
    }
    assert all[|front|] == op && all[..|front|] == front;
    forall k ensures CountKey(all, k) == CountKey(front, k) + if k == op.key then 1 else 0 {
      FilterSnoc(front, op, OnKey(k));
    }
  }

  lemma TagsSnoc(front: seq<Operation>, op: Operation, batch: nat)
    requires InRange(op) && forall x | x in front :: InRange(x)
    ensures Tags(front + [op], batch) == Tags(front, batch) + BatchTags(op, batch, batch)
    ensures AllRecords(front + [op], batch) == AllRecords(front, batch) + BatchOf(op, batch)
  {
    assert (front + [op])[..|front|] == front;
  }

  // The log, decoded in produce order, carries exactly the tags.

  lemma {:induction false} BatchTagsAt(op: Operation, batch: nat, n: nat)
    requires InRange(op)
    ensures |BatchTags(op, batch, n)| == n
    ensures forall i | 0 <= i < n :: BatchTags(op, batch, n)[i] == Tag(BatchKey(op.key, batch, i), op.seqNo)
  {
    if n > 0 {
      BatchTagsAt(op, batch, n - 1);
    }
  }

  /** `rec` carries `tag`: the two encodings decode to its key and its number. */
  ghost predicate Carries(rec: Record, tag: Tag) {
    rec.key == KeyBytes(tag.key) && SeqFromHeaders(rec.headers) == Some(tag.seqNo)
  }

  lemma {:induction false} RecordsCarryTags(ops: seq<Operation>, batch: nat)
    requires forall op | op in ops :: InRange(op)
    ensures |AllRecords(ops, batch)| == |Tags(ops, batch)|
    ensures forall i | 0 <= i < |Tags(ops, batch)| :: Carries(AllRecords(ops, batch)[i], Tags(ops, batch)[i])
    ensures forall i | 0 <= i < |Tags(ops, batch)| ::
              exists op, j :: op in ops && 0 <= j < batch
                              && Tags(ops, batch)[i] == Tag(BatchKey(op.key, batch, j), op.seqNo)
  {
    if ops != [] {
      var front, op := ops[..|ops| - 1], ops[|ops| - 1];
      assert ops == front + [op];
      RecordsCarryTags(front, batch);
      TagsSnoc(front, op, batch);
      BatchTagsAt(op, batch, batch);
      SeqRoundTrip(op.seqNo);
      var a, b := Tags(front, batch), BatchTags(op, batch, batch);
      forall i | 0 <= i < batch ensures Carries(BatchOf(op, batch)[i], b[i]) {
      }
      forall i | 0 <= i < |a + b|
        ensures exists x, j :: x in ops && 0 <= j < batch && (a + b)[i] == Tag(BatchKey(x.key, batch, j), x.seqNo)
      {
        if i < |a| {
          var x, j :| x in front && 0 <= j < batch && a[i] == Tag(BatchKey(x.key, batch, j), x.seqNo);
          assert x in ops;
        } else {
          assert op in ops && (a + b)[i] == Tag(BatchKey(op.key, batch, i - |a|), op.seqNo);
        }
      }
    }
  }

  /** The stored records, in produce order, as the analysis sees them. */
  function Placed(log: seq<Stored>, tags: seq<Tag>): seq<Log.LogRecord>
    requires |log| == |tags|
  {
    seq(|log|, i requires 0 <= i < |log| => Log.LogRecord(log[i].partition, log[i].offset, tags[i].key, tags[i].seqNo))
  }

  lemma PlacedSnoc(log: seq<Stored>, st: Stored, tags: seq<Tag>, tag: Tag)
    requires |log| == |tags|
    ensures Placed(log + [st], tags + [tag])
            == Placed(log, tags) + [Log.LogRecord(st.partition, st.offset, tag.key, tag.seqNo)]
  {
  }

  lemma DecodeCarried(stored: Stored, tag: Tag)
    requires Carries(stored.rec, tag)
    ensures Decode(stored) == [Log.LogRecord(stored.partition, stored.offset, tag.key, tag.seqNo)]
  {
    KeyRoundTrip(tag.key);
  }

  lemma DecodeIsPlaced(log: seq<Stored>, tags: seq<Tag>)
    requires |log| == |tags| && forall i | 0 <= i < |log| :: Carries(log[i].rec, tags[i])
    ensures DecodeAll(log) == Placed(log, tags)
  {
    var placed := Placed(log, tags);
    forall i | 0 <= i < |log| ensures DecodeOf()(log[i]) == [placed[i]] {
      DecodeCarried(log[i], tags[i]);
    }
    FlatMapSingletons(DecodeOf(), log, placed);
  }

  lemma {:induction false} PlacedStream(log: seq<Stored>, tags: seq<Tag>, key: int)
    requires |log| == |tags|
    ensures Log.Stream(Placed(log, tags), key) == TagStream(tags, key)
  {
    if log != [] {
      var n := |log| - 1;
      PlacedStream(log[..n], tags[..n], key);
      var last := Log.LogRecord(log[n].partition, log[n].offset, tags[n].key, tags[n].seqNo);
      PlacedSnoc(log[..n], log[n], tags[..n], tags[n]);
      assert log[..n] + [log[n]] == log && tags[..n] + [tags[n]] == tags;
      Log.StreamSnoc(Placed(log[..n], tags[..n]), last, key);
    }
  }

  /** Records of one key share a partition and come in offset order. */
  function KeyOrder(): (Log.LogRecord, Log.LogRecord) -> bool {
    (a: Log.LogRecord, b: Log.LogRecord) => a.key == b.key ==> a.partition == b.partition && a.offset < b.offset
  }

  lemma PlacedInKeyOrder(log: seq<Stored>, tags: seq<Tag>, recs: seq<Record>, route: string -> int)
    requires Faithful(log, recs, route) && |tags| == |recs|
    requires forall i | 0 <= i < |recs| :: Carries(recs[i], tags[i])
    ensures SortedBy(Placed(log, tags), KeyOrder())
  {
    var d := Placed(log, tags);
    forall i, j | 0 <= i < j < |d| && d[i].key == d[j].key
      ensures d[i].partition == d[j].partition && d[i].offset < d[j].offset
    {
      assert recs[i].key == recs[j].key;
    }
  }

  /** Sorting by (partition, offset) gives each key its produce order. */
  lemma SortKeepsStreams(d: seq<Log.LogRecord>, sorted: seq<Log.LogRecord>, key: int)
    requires SortedBy(d, KeyOrder()) && IsSortOf(sorted, d, Log.InLogOrder())
    ensures Log.Stream(sorted, key) == Log.Stream(d, key)
  {
    var a, b := Filter(d, Log.OfKey(key)), Filter(sorted, Log.OfKey(key));
    FilterSorted(d, Log.OfKey(key), KeyOrder());
    FilterSorted(sorted, Log.OfKey(key), Log.InLogOrder());
    FilterPermutation(sorted, d, Log.OfKey(key));
    assert forall x | x in a :: x.key == key by {
      forall x | x in a ensures x.key == key {
        FilterIn(d, Log.OfKey(key), x);
      }
    }
    SameOrder(a, b, key);
  }

  lemma SameOrder(a: seq<Log.LogRecord>, b: seq<Log.LogRecord>, key: int)
    requires SortedBy(a, KeyOrder()) && SortedBy(b, Log.InLogOrder())
    requires multiset(a) == multiset(b) && forall x | x in a :: x.key == key
    ensures a == b
  {
    forall i, j | 0 <= i < j < |a| ensures a[i].partition == a[j].partition && a[i].offset < a[j].offset {
      assert a[i] in a && a[j] in a && KeyOrder()(a[i], a[j]);
    }
    assert SortedBy(a, Log.InLogOrder());
    forall x, y | x in a && y in a && Log.InLogOrder()(x, y) && Log.InLogOrder()(y, x) ensures x == y {
      var i :| 0 <= i < |a| && a[i] == x;
      var j :| 0 <= j < |a| && a[j] == y;
    }
    SortedUnique(a, b, Log.InLogOrder());
  }

  /** `rep` is a report on the log: fetched in any order among foreign records, decoded, and analysed
      in the order `sorted`. */
  ghost predicate Analysed(rep: VerifyReport, log: seq<Stored>, foreign: seq<Stored>, fetched: seq<Stored>,
                           sorted: seq<Log.LogRecord>) {
    && (forall x | x in foreign :: Decode(x) == [])
    && multiset(fetched) == multiset(log + foreign)
    && IsSortOf(sorted, DecodeAll(fetched), Log.InLogOrder())
    && Log.Explains(rep, DecodeAll(fetched), sorted)
  }

  /** `rep` is a report on a faithful log of the produced `ops`. */
  ghost predicate ReportOn(rep: VerifyReport, ops: seq<Operation>, batch: nat, log: seq<Stored>, route: string -> int,
                           foreign: seq<Stored>, fetched: seq<Stored>, sorted: seq<Log.LogRecord>)
    requires forall op | op in ops :: InRange(op)
  {
    Faithful(log, AllRecords(ops, batch), route) && Analysed(rep, log, foreign, fetched, sorted)
  }

  /** What the analysis sees of the log: every produced record, each derived key in produce order. */
  ghost predicate Seen(sorted: seq<Log.LogRecord>, ops: seq<Operation>, batch: nat)
    requires forall op | op in ops :: InRange(op)
  {
    && (forall key :: Log.Stream(sorted, key) == TagStream(Tags(ops, batch), key))
    && |sorted| == |Tags(ops, batch)|
  }

  lemma FetchedAll(log: seq<Stored>, foreign: seq<Stored>, fetched: seq<Stored>)
    requires (forall x | x in foreign :: Decode(x) == []) && multiset(fetched) == multiset(log + foreign)
    ensures multiset(DecodeAll(fetched)) == multiset(DecodeAll(log))
  {
    FlatMapNone(DecodeOf(), foreign);
    FlatMapConcat(DecodeOf(), log, foreign);
    DecodePermutation(fetched, log + foreign);
    assert DecodeAll(log) + [] == DecodeAll(log);
  }

  lemma SortedIsSeen(ops: seq<Operation>, batch: nat, log: seq<Stored>, route: string -> int,
                     drained: seq<Log.LogRecord>, sorted: seq<Log.LogRecord>)
    requires forall op | op in ops :: InRange(op)
    requires Faithful(log, AllRecords(ops, batch), route) && multiset(drained) == multiset(DecodeAll(log))
    requires IsSortOf(sorted, drained, Log.InLogOrder())
    ensures Seen(sorted, ops, batch) && |drained| == |sorted|
  {
    var tags := Tags(ops, batch);
    RecordsCarryTags(ops, batch);
    DecodeIsPlaced(log, tags);
    var d := Placed(log, tags);
    PlacedInKeyOrder(log, tags, AllRecords(ops, batch), route);
    assert |sorted| == |multiset(sorted)| == |multiset(drained)| == |drained| == |multiset(d)| == |d|;
    forall key ensures Log.Stream(sorted, key) == TagStream(tags, key) {
      SortKeepsStreams(d, sorted, key);
      PlacedStream(log, tags, key);
    }
  }

  /** The keys of the log are the derived keys of the operations. */
  lemma SeenKey(sorted: seq<Log.LogRecord>, ops: seq<Operation>, batch: nat, key: int) returns (op: Operation, j: int)
    requires (forall op | op in ops :: InRange(op)) && Seen(sorted, ops, batch) && key in Log.KeysOf(sorted)
    ensures op in ops && 0 <= j < batch && key == BatchKey(op.key, batch, j)
  {
    Log.KeyFacts(sorted, key);
    var n := TagOf(Tags(ops, batch), key);
    RecordsCarryTags(ops, batch);
    op, j :| op in ops && 0 <= j < batch && Tags(ops, batch)[n] == Tag(BatchKey(op.key, batch, j), op.seqNo);
  }

  lemma {:induction false} TagOf(tags: seq<Tag>, key: int) returns (n: nat)
    requires TagStream(tags, key) != []
    ensures n < |tags| && tags[n].key == key
  {
    if tags[|tags| - 1].key == key {
      n := |tags| - 1;
    } else {
      n := TagOf(tags[..|tags| - 1], key);
    }
  }

  lemma StreamKey(sorted: seq<Log.LogRecord>, key: int)
    requires Log.Stream(sorted, key) != []
    ensures key in Log.KeysOf(sorted)
  {
    var part := Filter(sorted, Log.OfKey(key));
    assert part[0] in part;
    FilterIn(sorted, Log.OfKey(key), part[0]);
  }

  ghost predicate AllContiguous(ops: seq<Operation>) {
    forall q :: Log.Contiguous(SeqsOn(ops, q))
  }

  /** The log is clean exactly when on every key the produced numbers count up by one. */
  lemma CleanExactly(sorted: seq<Log.LogRecord>, ops: seq<Operation>, keySpace: nat, batch: nat)
    requires NoCollisions(keySpace, batch) && InSpace(ops, keySpace) && Seen(sorted, ops, batch)
    ensures Log.Clean(sorted) <==> AllContiguous(ops)
  {
    if AllContiguous(ops) {
      forall key | key in Log.KeysOf(sorted) ensures Log.Contiguous(Log.Stream(sorted, key)) {
        var op, j := SeenKey(sorted, ops, batch, key);
        DerivedStream(ops, keySpace, batch, op.key, j);
        assert Log.Contiguous(SeqsOn(ops, op.key));
      }
    }
    if Log.Clean(sorted) {
      forall q ensures Log.Contiguous(SeqsOn(ops, q)) {
        CleanOnKey(sorted, ops, keySpace, batch, q);
      }
    }
  }

  lemma KeyOfSeqs(ops: seq<Operation>, q: int) returns (op: Operation)
    requires SeqsOn(ops, q) != []
    ensures op in ops && op.key == q
  {
    op := Filter(ops, OnKey(q))[0];
    FilterIn(ops, OnKey(q), op);
  }

  lemma CleanOnKey(sorted: seq<Log.LogRecord>, ops: seq<Operation>, keySpace: nat, batch: nat, q: int)
    requires NoCollisions(keySpace, batch) && InSpace(ops, keySpace) && Seen(sorted, ops, batch) && Log.Clean(sorted)
    ensures Log.Contiguous(SeqsOn(ops, q))
  {
    if SeqsOn(ops, q) != [] {
      var op := KeyOfSeqs(ops, q);
      DerivedStream(ops, keySpace, batch, q, 0);
      StreamKey(sorted, BatchKey(q, batch, 0));
    }
  }

  lemma SeenReport(rep: VerifyReport, ops: seq<Operation>, batch: nat, log: seq<Stored>, route: string -> int,
                   foreign: seq<Stored>, fetched: seq<Stored>, sorted: seq<Log.LogRecord>)
    requires (forall op | op in ops :: InRange(op)) && ops != [] && batch >= 1
    requires ReportOn(rep, ops, batch, log, route, foreign, fetched, sorted)
    ensures Seen(sorted, ops, batch) && DecodeAll(fetched) != [] && rep.checked == |AllRecords(ops, batch)|
  {
    FetchedAll(log, foreign, fetched);
    SortedIsSeen(ops, batch, log, route, DecodeAll(fetched), sorted);
    RecordsCarryTags(ops, batch);
    RecordsNonEmpty(ops, batch);
  }

  lemma RecordsNonEmpty(ops: seq<Operation>, batch: nat)
    requires ops != [] && batch >= 1 && forall op | op in ops :: InRange(op)
    ensures AllRecords(ops, batch) != []
  {
    assert ops[|ops| - 1] in ops;
  }

  // ----- one generator, some of whose operations produce nothing

  lemma FilterInSpace(all: seq<Operation>, produced: Operation -> bool, keySpace: nat)
    requires InSpace(all, keySpace)
    ensures InSpace(Filter(all, produced), keySpace)
  {
    forall op | op in Filter(all, produced) ensures 0 <= op.key < keySpace && InRange(op) {
      FilterIn(all, produced, op);
    }
  }

  /** The operations that produced. */
  function Produced(all: seq<Operation>, produced: Operation -> bool, keySpace: nat): (ops: seq<Operation>)
    requires InSpace(all, keySpace)
    ensures InSpace(ops, keySpace)
  {
    FilterInSpace(all, produced, keySpace);
    Filter(all, produced)
  }

  /** On `key`, no operation that produced nothing lies between two that produced. */
  ghost predicate Gapless(all: seq<Operation>, produced: Operation -> bool, key: int) {
    var on := Filter(all, OnKey(key));
    forall i, j, l | 0 <= i < j < l < |on| && produced(on[i]) && produced(on[l]) :: produced(on[j])
  }

  ghost predicate NoGaps(s: seq<Operation>, produced: Operation -> bool) {
    forall i, j, l | 0 <= i < j < l < |s| && produced(s[i]) && produced(s[l]) :: produced(s[j])
  }

  ghost predicate CountsUp(s: seq<Operation>) {
    forall i | 0 <= i < |s| :: s[i].seqNo == i + 1
  }

  lemma NumberedCountsUp(all: seq<Operation>, key: int)
    requires Numbered(all)
    ensures CountsUp(Filter(all, OnKey(key)))
  {
    NumberedSeqs(all, key);
    var on := Filter(all, OnKey(key));
    forall i | 0 <= i < |on| ensures on[i].seqNo == i + 1 {
      assert SeqsOn(all, key)[i] == on[i].seqNo && UpTo(CountKey(all, key))[i] == i + 1;
    }
  }

  lemma {:induction false} FilterSwap<T>(s: seq<T>, p: T -> bool, q: T -> bool)
    ensures Filter(Filter(s, p), q) == Filter(Filter(s, q), p)
  {
    if s != [] {
      FilterSwap(s[1..], p, q);
      FilterCons(s[0], Filter(s[1..], p), q);
      FilterCons(s[0], Filter(s[1..], q), p);
    }
  }

  function Kept(s: seq<Operation>, produced: Operation -> bool): seq<int> {
    Map(SeqNoOf(), Filter(s, produced))
  }

  lemma KeptSnoc(front: seq<Operation>, x: Operation, produced: Operation -> bool)
    ensures Kept(front + [x], produced) == Kept(front, produced) + if produced(x) then [x.seqNo] else []
  {
    FilterSnoc(front, x, produced);
    MapConcat(SeqNoOf(), Filter(front, produced), [x]);
  }

  /** The kept numbers stay below, and the last one is the last number exactly when that was kept. */
  lemma {:induction false} LastKept(s: seq<Operation>, produced: Operation -> bool)
    requires CountsUp(s)
    ensures forall x | x in Kept(s, produced) :: x <= |s|
    ensures Kept(s, produced) != [] ==>
              (var k := Kept(s, produced); k[|k| - 1] == |s| <==> produced(s[|s| - 1]))
    ensures Kept(s, produced) == [] <==> forall i | 0 <= i < |s| :: !produced(s[i])
  {
    if s != [] {
      var front, x := s[..|s| - 1], s[|s| - 1];
      assert s == front + [x];
      LastKept(front, produced);
      KeptSnoc(front, x, produced);
      var kept := Kept(front, produced);
      if !produced(x) && kept != [] {
        assert Kept(s, produced) == kept && kept[|kept| - 1] in kept;
      }
    }
  }

  lemma NoGapsSnoc(front: seq<Operation>, x: Operation, produced: Operation -> bool)
    ensures NoGaps(front + [x], produced) <==>
            && NoGaps(front, produced)
            && (produced(x) && (exists i | 0 <= i < |front| :: produced(front[i])) ==> produced(front[|front| - 1]))
  {
    var s := front + [x];
    assert forall i | 0 <= i < |front| :: s[i] == front[i];
    assert s[|front|] == x;
    if NoGaps(s, produced) && produced(x) && exists i | 0 <= i < |front| :: produced(front[i]) {
      var i :| 0 <= i < |front| && produced(front[i]);
      assert i < |front| - 1 ==> produced(s[|front| - 1]);
    }
  }

  lemma ContiguousSnoc(s: seq<int>, x: int)
    ensures Log.Contiguous(s + [x]) <==> Log.Contiguous(s) && (s != [] ==> x == s[|s| - 1] + 1)
  {
    var t := s + [x];
    assert forall i | 0 <= i < |s| :: t[i] == s[i];
    if s != [] {
      assert t[0] == s[0] && t[|s|] == x;
    }
  }

  lemma {:induction false} KeptContiguous(s: seq<Operation>, produced: Operation -> bool)
    requires CountsUp(s)
    ensures Log.Contiguous(Kept(s, produced)) <==> NoGaps(s, produced)
  {
    if s != [] {
      var front, x := s[..|s| - 1], s[|s| - 1];
      assert s == front + [x];
      KeptContiguous(front, produced);
      LastKept(front, produced);
      KeptSnoc(front, x, produced);
      NoGapsSnoc(front, x, produced);
      if produced(x) {
        ContiguousSnoc(Kept(front, produced), x.seqNo);
      } else {
        assert Kept(front, produced) + [] == Kept(front, produced);
      }
    }
  }

  /** On one key of a numbered run, the produced numbers count up exactly when there is no gap. */
  lemma ProducedContiguous(all: seq<Operation>, produced: Operation -> bool, key: int)
    requires Numbered(all)
    ensures Log.Contiguous(SeqsOn(Filter(all, produced), key)) <==> Gapless(all, produced, key)
  {
    NumberedCountsUp(all, key);
    FilterSwap(all, produced, OnKey(key));
    KeptContiguous(Filter(all, OnKey(key)), produced);
  }

  ghost function StreamSize(tags: seq<Tag>): int -> int {
    (key: int) => |TagStream(tags, key)|
  }

  lemma {:induction false} StreamSizes(tags: seq<Tag>, keys: set<int>)
    ensures Sum(keys, StreamSize(tags)) <= |tags|
  {
    if tags == [] {
      SumOfNats(keys, StreamSize(tags));
    } else {
      var front, last := tags[..|tags| - 1], tags[|tags| - 1];
      StreamSizes(front, keys);
      if last.key in keys {
        SumUpdate(keys, StreamSize(front), StreamSize(tags), last.key);
      } else {
        SumSame(keys, StreamSize(front), StreamSize(tags));
      }
    }
  }

  lemma {:induction false} TagsSize(ops: seq<Operation>, batch: nat)
    requires forall op | op in ops :: InRange(op)
    ensures |Tags(ops, batch)| == |ops| * batch
  {
    if ops != [] {
      var front, op := ops[..|ops| - 1], ops[|ops| - 1];
      assert ops == front + [op];
      TagsSize(front, batch);
      TagsGrow(front, op, batch);
    }
  }

  lemma TagsGrow(front: seq<Operation>, op: Operation, batch: nat)
    requires InRange(op) && (forall x | x in front :: InRange(x)) && |Tags(front, batch)| == |front| * batch
    ensures |Tags(front + [op], batch)| == |front + [op]| * batch
  {
    TagsSnoc(front, op, batch);
    BatchTagsAt(op, batch, batch);
    MulNext(|front|, batch);
  }

  lemma KeyLossBound(sorted: seq<Log.LogRecord>, all: seq<Operation>, produced: Operation -> bool,
                     keySpace: nat, batch: nat, key: int)
    requires NoCollisions(keySpace, batch) && InSpace(all, keySpace) && Numbered(all)
    requires Seen(sorted, Produced(all, produced, keySpace), batch)
    requires key in Log.KeysOf(sorted)
    ensures Log.Loss(sorted)(key) <= StreamSize(Tags(all, batch))(key)
  {
    var ops := Produced(all, produced, keySpace);
    var op, j := SeenKey(sorted, ops, batch, key);
    DerivedStream(ops, keySpace, batch, op.key, j);
    DerivedKeyCountsUp(all, keySpace, batch, op.key, j);
    FilterSwap(all, produced, OnKey(op.key));
    NumberedCountsUp(all, op.key);
    KeptRange(Filter(all, OnKey(op.key)), produced);
    Log.KeyFacts(sorted, key);
    var vs := Log.Values(sorted, key);
    assert Least(vs) in Kept(Filter(all, OnKey(op.key)), produced);
    assert Greatest(vs) in Kept(Filter(all, OnKey(op.key)), produced);
  }

  lemma KeptRange(s: seq<Operation>, produced: Operation -> bool)
    requires CountsUp(s)
    ensures forall x | x in Kept(s, produced) :: 1 <= x <= |s|
  {
    forall x | x in Kept(s, produced) ensures 1 <= x <= |s| {
      var part := Filter(s, produced);
      var i :| 0 <= i < |part| && Kept(s, produced)[i] == x;
      FilterIn(s, produced, part[i]);
      var n :| 0 <= n < |s| && s[n] == part[i];
    }
  }

  lemma LossBound(sorted: seq<Log.LogRecord>, all: seq<Operation>, produced: Operation -> bool,
                  keySpace: nat, batch: nat)
    requires NoCollisions(keySpace, batch) && InSpace(all, keySpace) && Numbered(all)
    requires Seen(sorted, Produced(all, produced, keySpace), batch)
    ensures Sum(Log.KeysOf(sorted), Log.Loss(sorted)) <= |all| * batch
  {
    var keys := Log.KeysOf(sorted);
    forall key | key in keys ensures Log.Loss(sorted)(key) <= StreamSize(Tags(all, batch))(key) {
      KeyLossBound(sorted, all, produced, keySpace, batch, key);
    }
    SumMono(keys, Log.Loss(sorted), StreamSize(Tags(all, batch)));
    StreamSizes(Tags(all, batch), keys);
    TagsSize(all, batch);
  }

  /** Numbers advance on every operation, also on those that produce nothing. So the log of one
      generator passes if, and as long as fewer than 2^63 numbers can be missing only if, on every
      key no operation that produced nothing lies between two that did. */
  lemma ProducedLaw(all: seq<Operation>, produced: Operation -> bool, keySpace: nat, batch: nat,
                    log: seq<Stored>, route: string -> int, foreign: seq<Stored>, fetched: seq<Stored>,
                    sorted: seq<Log.LogRecord>, rep: VerifyReport)
    requires NoCollisions(keySpace, batch) && InSpace(all, keySpace) && Numbered(all)
    requires Produced(all, produced, keySpace) != []
    requires ReportOn(rep, Produced(all, produced, keySpace), batch, log, route, foreign, fetched, sorted)
    ensures (forall key :: Gapless(all, produced, key)) ==> rep.verdict == Pass
    ensures |all| * batch < TWO63 ==> (rep.verdict == Pass <==> forall key :: Gapless(all, produced, key))
    ensures rep.checked == |AllRecords(Produced(all, produced, keySpace), batch)|
  {
    var ops := Produced(all, produced, keySpace);
    SeenReport(rep, ops, batch, log, route, foreign, fetched, sorted);
    CleanExactly(sorted, ops, keySpace, batch);
    forall key ensures Log.Contiguous(SeqsOn(ops, key)) <==> Gapless(all, produced, key) {
      ProducedContiguous(all, produced, key);
    }
    Log.FalsePass(rep, DecodeAll(fetched), sorted);
    if |all| * batch < TWO63 {
      LossBound(sorted, all, produced, keySpace, batch);
      Log.SameDescents(DecodeAll(fetched), sorted);
      Log.VerdictExact(rep, DecodeAll(fetched), sorted);
    }
  }

  lemma GapBetween(a: Operation, b: Operation, c: Operation, produced: Operation -> bool)
    requires a.key == b.key == c.key && produced(a) && !produced(b) && produced(c)
    ensures !Gapless([a, b, c], produced, a.key)
  {
    var on := [a, b, c];
    FilterAll(on, OnKey(a.key));
    assert produced(on[0]) && !produced(on[1]) && produced(on[2]);
  }

  lemma SomethingProduced(all: seq<Operation>, produced: Operation -> bool, keySpace: nat)
    requires InSpace(all, keySpace) && all != [] && produced(all[0])
    ensures Produced(all, produced, keySpace) != []
  {
  }

  /** The smallest false alarm: produce, consume, produce on one key. */
  lemma ConsumeBetween(a: Operation, b: Operation, c: Operation, produced: Operation -> bool, keySpace: nat, batch: nat,
                       log: seq<Stored>, route: string -> int, foreign: seq<Stored>, fetched: seq<Stored>,
                       sorted: seq<Log.LogRecord>, rep: VerifyReport)
    requires a.key == b.key == c.key && produced(a) && !produced(b) && produced(c)
    requires NoCollisions(keySpace, batch) && InSpace([a, b, c], keySpace) && Numbered([a, b, c]) && 3 * batch < TWO63
    requires ReportOn(rep, Produced([a, b, c], produced, keySpace), batch, log, route, foreign, fetched, sorted)
    ensures rep.verdict == Fail
  {
    var all := [a, b, c];
    GapBetween(a, b, c, produced);
    SomethingProduced(all, produced, keySpace);
    ProducedLaw(all, produced, keySpace, batch, log, route, foreign, fetched, sorted, rep);
    SeenReport(rep, Produced(all, produced, keySpace), batch, log, route, foreign, fetched, sorted);
  }

  /** No false alarm for a generator all of whose operations produce. */
  lemma NoFalseAlarm(ops: seq<Operation>, keySpace: nat, batch: nat, log: seq<Stored>, route: string -> int,
                     foreign: seq<Stored>, fetched: seq<Stored>, sorted: seq<Log.LogRecord>, rep: VerifyReport)
    requires NoCollisions(keySpace, batch) && InSpace(ops, keySpace) && Numbered(ops) && ops != []
    requires ReportOn(rep, ops, batch, log, route, foreign, fetched, sorted)
    ensures rep.verdict == Pass && rep.checked == |AllRecords(ops, batch)|
  {
    SeenReport(rep, ops, batch, log, route, foreign, fetched, sorted);
    CleanExactly(sorted, ops, keySpace, batch);
    forall q ensures Log.Contiguous(SeqsOn(ops, q)) {
      NumberedSeqs(ops, q);
    }
    Log.FalsePass(rep, DecodeAll(fetched), sorted);
  }

  // ----- several generators

  /** A produced operation and the generator, with its own numbering, that emitted it. */
  datatype Sent = Sent(gen: nat, op: Operation)

  function OpOf(): Sent -> Operation {
    (x: Sent) => x.op
  }

  function FromGen(gen: nat): Sent -> bool {
    (x: Sent) => x.gen == gen
  }

  function SentOn(key: int): Sent -> bool {
    (x: Sent) => x.op.key == key
  }

  /** What one generator sent. */
  function OpsBy(sent: seq<Sent>, gen: nat): seq<Operation> {
    Map(OpOf(), Filter(sent, FromGen(gen)))
  }

  ghost predicate EachNumbered(sent: seq<Sent>) {
    forall gen: nat :: Numbered(OpsBy(sent, gen))
  }

  /** No key is produced by two generators. */
  ghost predicate OwnKeys(sent: seq<Sent>) {
    forall x, y | x in sent && y in sent && x.op.key == y.op.key :: x.gen == y.gen
  }

  lemma SentOnKey(sent: seq<Sent>, key: int)
    ensures Filter(Map(OpOf(), sent), OnKey(key)) == Map(OpOf(), Filter(sent, SentOn(key)))
  {
    MapFilter(OpOf(), sent, SentOn(key), OnKey(key));
  }

  /** With a single generator on the key, the log sees that generator's numbers. */
  lemma SoleGenerator(sent: seq<Sent>, key: int, gen: nat)
    requires EachNumbered(sent) && forall x | x in sent && x.op.key == key :: x.gen == gen
    ensures Log.Contiguous(SeqsOn(Map(OpOf(), sent), key))
  {
    SentOnKey(sent, key);
    SentOnKey(Filter(sent, FromGen(gen)), key);
    FilterFilter(sent, FromGen(gen), SentOn(key));
    assert Numbered(OpsBy(sent, gen));
    NumberedSeqs(OpsBy(sent, gen), key);
  }

  /** Every generator that produced on the key numbered one of its operations 1. */
  lemma NumberedFromOne(sent: seq<Sent>, x: Sent) returns (first: Sent)
    requires EachNumbered(sent) && x in sent
    ensures first in sent && first.gen == x.gen && first.op.key == x.op.key && first.op.seqNo == 1
  {
    var key := x.op.key;
    var mine := Filter(sent, FromGen(x.gen));
    FilterIn(sent, FromGen(x.gen), x);
    var part := Filter(mine, SentOn(key));
    FilterIn(mine, SentOn(key), x);
    assert part != [];
    first := part[0];
    FilterIn(mine, SentOn(key), first);
    FilterIn(sent, FromGen(x.gen), first);
    assert Numbered(OpsBy(sent, x.gen));
    NumberedCountsUp(OpsBy(sent, x.gen), key);
    SentOnKey(mine, key);
  }

  lemma TwoOnes(sent: seq<Sent>, a: Sent, b: Sent)
    requires a in sent && b in sent && a != b && a.op.key == b.op.key && a.op.seqNo == b.op.seqNo == 1
    ensures var s := SeqsOn(Map(OpOf(), sent), a.op.key); exists i, j :: 0 <= i < j < |s| && s[i] == s[j]
  {
    var key := a.op.key;
    var part := Filter(sent, SentOn(key));
    SentOnKey(sent, key);
    FilterIn(sent, SentOn(key), a);
    FilterIn(sent, SentOn(key), b);
    var i :| 0 <= i < |part| && part[i] == a;
    var j :| 0 <= j < |part| && part[j] == b;
    var s := SeqsOn(Map(OpOf(), sent), key);
    assert s[i] == 1 && s[j] == 1;
    if j < i {
      assert s[j] == s[i];
    }
  }

  /** A number that a derived key repeats fails the check, wherever in the log its copies lie. */
  lemma RepeatFails(rep: VerifyReport, d: seq<Log.LogRecord>, recs: seq<Log.LogRecord>, sorted: seq<Log.LogRecord>,
                    key: int, i: int, j: int)
    requires recs != [] && Log.Explains(rep, recs, sorted) && multiset(d) == multiset(recs)
    requires var s := Log.Stream(d, key); 0 <= i < j < |s| && s[i] == s[j]
    ensures rep.verdict == Fail
  {
    StreamKey(d, key);
    Log.KeyFacts(d, key);
    Log.ElementsSize(Log.Stream(d, key));
    Log.NonNegativeCounts(d);
    SumOfNats(Log.KeysOf(d), Log.Surplus(d));
    Log.SameCounts(recs, d);
  }

  /** The generator of every record. */
  function RecordGens(sent: seq<Sent>, batch: nat): seq<nat> {
    if sent == [] then [] else RecordGens(sent[..|sent| - 1], batch) + seq(batch, _ => sent[|sent| - 1].gen)
  }

  /** The log holds the records of all generators, partitioned by key bytes. Of one key, the records
      of one generator are in produce order; those of different generators lie in any order, which
      may differ from key to key. */
  ghost predicate Interleaved(log: seq<Stored>, recs: seq<Record>, gens: seq<nat>, route: string -> int) {
    && |log| == |recs| == |gens|
    && (forall i | 0 <= i < |log| :: log[i].rec == recs[i] && log[i].partition == route(recs[i].key))
    && (forall i, j | 0 <= i < j < |log| && log[i].rec.key == log[j].rec.key && gens[i] == gens[j] ::
          log[i].offset < log[j].offset)
  }

  lemma TagsOfSent(sent: seq<Sent>, x: Sent, batch: nat)
    requires InRange(x.op) && forall y | y in sent :: InRange(y.op)
    ensures forall op | op in Map(OpOf(), sent) :: InRange(op)
    ensures forall op | op in Map(OpOf(), sent + [x]) :: InRange(op)
    ensures Tags(Map(OpOf(), sent + [x]), batch) == Tags(Map(OpOf(), sent), batch) + BatchTags(x.op, batch, batch)
    ensures RecordGens(sent + [x], batch) == RecordGens(sent, batch) + seq(batch, _ => x.gen)
  {
    MapConcat(OpOf(), sent, [x]);
    TagsSnoc(Map(OpOf(), sent), x.op, batch);
    assert (sent + [x])[..|sent|] == sent;
  }

  /** Which operation of which generator a record comes from. */
  lemma {:induction false} SenderOf(sent: seq<Sent>, batch: nat, i: nat) returns (x: Sent, j: int)
    requires (forall y | y in sent :: InRange(y.op)) && (forall op | op in Map(OpOf(), sent) :: InRange(op))
    requires i < |Tags(Map(OpOf(), sent), batch)|
    ensures |RecordGens(sent, batch)| == |Tags(Map(OpOf(), sent), batch)|
    ensures x in sent && 0 <= j < batch && RecordGens(sent, batch)[i] == x.gen
    ensures Tags(Map(OpOf(), sent), batch)[i].key == BatchKey(x.op.key, batch, j)
    decreases |sent|
  {
    var front, last := sent[..|sent| - 1], sent[|sent| - 1];
    assert sent == front + [last];
    TagsOfSent(front, last, batch);
    BatchTagsAt(last.op, batch, batch);
    GensSize(front, batch);
    var n := |Tags(Map(OpOf(), front), batch)|;
    if i < n {
      x, j := SenderOf(front, batch, i);
    } else {
      x, j := last, i - n;
      LastSender(Tags(Map(OpOf(), front), batch), RecordGens(front, batch), last, batch, i);
    }
  }

  lemma LastSender(tags: seq<Tag>, gens: seq<nat>, last: Sent, batch: nat, i: nat)
    requires |tags| == |gens| <= i < |tags| + batch && InRange(last.op)
    ensures |BatchTags(last.op, batch, batch)| == batch
    ensures (gens + seq(batch, _ => last.gen))[i] == last.gen
    ensures (tags + BatchTags(last.op, batch, batch))[i].key == BatchKey(last.op.key, batch, i - |tags|)
  {
    BatchTagsAt(last.op, batch, batch);
  }

  lemma {:induction false} GensSize(sent: seq<Sent>, batch: nat)
    requires forall op | op in Map(OpOf(), sent) :: InRange(op)
    ensures |RecordGens(sent, batch)| == |Tags(Map(OpOf(), sent), batch)|
  {
    if sent != [] {
      var front, last := sent[..|sent| - 1], sent[|sent| - 1];
      assert sent == front + [last];
      MapConcat(OpOf(), front, [last]);
      assert Map(OpOf(), sent)[|front|] == last.op;
      TagsSnoc(Map(OpOf(), front), last.op, batch);
      BatchTagsAt(last.op, batch, batch);
      GensSize(front, batch);
    }
  }

  /** Where no key has two generators, nothing is left to interleave within a key. */
  lemma OwnKeysFaithful(sent: seq<Sent>, keySpace: nat, batch: nat, log: seq<Stored>, route: string -> int)
    requires NoCollisions(keySpace, batch) && InSpace(Map(OpOf(), sent), keySpace) && OwnKeys(sent)
    requires Interleaved(log, AllRecords(Map(OpOf(), sent), batch), RecordGens(sent, batch), route)
    ensures Faithful(log, AllRecords(Map(OpOf(), sent), batch), route)
  {
    RecordsCarryTags(Map(OpOf(), sent), batch);
    forall i, j | 0 <= i < j < |log| && log[i].rec.key == log[j].rec.key ensures log[i].offset < log[j].offset {
      SameSender(sent, keySpace, batch, i, j);
    }
  }

  lemma SentInRange(sent: seq<Sent>, keySpace: nat)
    requires InSpace(Map(OpOf(), sent), keySpace)
    ensures forall y | y in sent :: InRange(y.op) && 0 <= y.op.key < keySpace
  {
    forall y | y in sent ensures InRange(y.op) && 0 <= y.op.key < keySpace {
      var n :| 0 <= n < |sent| && sent[n] == y;
      assert Map(OpOf(), sent)[n] in Map(OpOf(), sent);
    }
  }

  lemma SameSender(sent: seq<Sent>, keySpace: nat, batch: nat, i: nat, j: nat)
    requires NoCollisions(keySpace, batch) && InSpace(Map(OpOf(), sent), keySpace) && OwnKeys(sent)
    requires var recs := AllRecords(Map(OpOf(), sent), batch); i < |recs| && j < |recs| && recs[i].key == recs[j].key
    ensures var gens := RecordGens(sent, batch); i < |gens| && j < |gens| && gens[i] == gens[j]
  {
    var tags := Tags(Map(OpOf(), sent), batch);
    RecordsCarryTags(Map(OpOf(), sent), batch);
    SentInRange(sent, keySpace);
    var x, a := SenderOf(sent, batch, i);
    var y, b := SenderOf(sent, batch, j);
    assert Carries(AllRecords(Map(OpOf(), sent), batch)[i], tags[i]);
    assert Carries(AllRecords(Map(OpOf(), sent), batch)[j], tags[j]);
    KeyRoundTrip(tags[i].key);
    KeyRoundTrip(tags[j].key);
    SameBatchKey(keySpace, batch, x.op.key, a, y.op.key, b);
  }

  /** Several generators, all of whose operations produce, each with its own numbering, into one
      log, the records of each key interleaved in any way of its own: the log passes if and only if
      no key is produced by two of them. */
  lemma {:induction false} MergedLaw(sent: seq<Sent>, keySpace: nat, batch: nat, log: seq<Stored>, route: string -> int,
                  foreign: seq<Stored>, fetched: seq<Stored>, sorted: seq<Log.LogRecord>, rep: VerifyReport)
    requires NoCollisions(keySpace, batch) && InSpace(Map(OpOf(), sent), keySpace) && EachNumbered(sent) && sent != []
    requires Interleaved(log, AllRecords(Map(OpOf(), sent), batch), RecordGens(sent, batch), route)
    requires Analysed(rep, log, foreign, fetched, sorted)
    ensures rep.verdict == (if OwnKeys(sent) then Pass else Fail)
  {
    var ops := Map(OpOf(), sent);
    if OwnKeys(sent) {
      OwnKeysFaithful(sent, keySpace, batch, log, route);
      SeenReport(rep, ops, batch, log, route, foreign, fetched, sorted);
      forall q ensures Log.Contiguous(SeqsOn(ops, q)) {
        OwnKeyContiguous(sent, q);
      }
      CleanExactly(sorted, ops, keySpace, batch);
      Log.FalsePass(rep, DecodeAll(fetched), sorted);
    } else {
      var x, y :| x in sent && y in sent && x.op.key == y.op.key && x.gen != y.gen;
      var a := NumberedFromOne(sent, x);
      var b := NumberedFromOne(sent, y);
      TwoOnes(sent, a, b);
      SharedKeyFails(sent, a, keySpace, batch, log, route, foreign, fetched, sorted, rep);
    }
  }

  lemma OwnKeyContiguous(sent: seq<Sent>, q: int)
    requires EachNumbered(sent) && OwnKeys(sent)
    ensures Log.Contiguous(SeqsOn(Map(OpOf(), sent), q))
  {
    if x: Sent :| x in sent && x.op.key == q {
      SoleGenerator(sent, q, x.gen);
    } else {
      SoleGenerator(sent, q, 0);
    }
  }

  lemma SharedKeyFails(sent: seq<Sent>, a: Sent, keySpace: nat, batch: nat, log: seq<Stored>, route: string -> int,
                       foreign: seq<Stored>, fetched: seq<Stored>, sorted: seq<Log.LogRecord>, rep: VerifyReport)
    requires NoCollisions(keySpace, batch) && InSpace(Map(OpOf(), sent), keySpace) && a in sent
    requires Interleaved(log, AllRecords(Map(OpOf(), sent), batch), RecordGens(sent, batch), route)
    requires Analysed(rep, log, foreign, fetched, sorted)
    requires var s := SeqsOn(Map(OpOf(), sent), a.op.key); exists i, j :: 0 <= i < j < |s| && s[i] == s[j]
    ensures rep.verdict == Fail
  {
    var ops, q := Map(OpOf(), sent), a.op.key;
    var tags, recs := Tags(ops, batch), DecodeAll(fetched);
    SentInRange(sent, keySpace);
    RecordsCarryTags(ops, batch);
    DecodeIsPlaced(log, tags);
    var d := Placed(log, tags);
    FetchedAll(log, foreign, fetched);
    DerivedStream(ops, keySpace, batch, q, 0);
    PlacedStream(log, tags, BatchKey(q, batch, 0));
    var s := SeqsOn(ops, q);
    var i, j :| 0 <= i < j < |s| && s[i] == s[j];
    RecordsNonEmpty(ops, batch);
    assert |recs| == |multiset(recs)| == |multiset(d)| == |d|;
    RepeatFails(rep, d, recs, sorted, BatchKey(q, batch, 0), i, j);
  }
}

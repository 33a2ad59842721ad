/** The workload generator: keyspace partition, key distributions, per-key sequence numbers. */
module Workload {
  import opened Arith
  import opened Domain
  import opened Sorting

  // ----- the partition

  /** Stride, base and number of local keys of one worker. */
  datatype Share = Share(stride: int, base: int, local: int)

  function Partition(sharedKeys: bool, keySpace: int, workerID: int, workerCount: int): Share
    requires workerCount > 0
  {
    if sharedKeys then Share(1, 0, keySpace)
    else if workerID >= keySpace then Share(workerCount, workerID, 0)
    else Share(workerCount, workerID, (keySpace - workerID + workerCount - 1) / workerCount)
  }

  /** The global keys a worker can ever touch. */
  ghost predicate Owns(s: Share, key: int) {
    exists i :: 0 <= i < s.local && key == GlobalKey(s, i)
  }

  function GlobalKey(s: Share, i: int): int {
    i * s.stride + s.base
  }

  /** A worker owns exactly the keys of the keyspace congruent to its id. */
  lemma OwnsResidueClass(keySpace: int, workerID: int, workerCount: int, key: int)
    requires 0 <= workerID < workerCount && keySpace >= 0
    ensures Owns(Partition(false, keySpace, workerID, workerCount), key) <==>
            0 <= key < keySpace && key % workerCount == workerID
  {
    var d := workerCount;
    var s := Partition(false, keySpace, workerID, d);
    if 0 <= key < keySpace && key % d == workerID {
      var i := key / d;
      DivMod(key, d);
      LocalBound(keySpace, workerID, d, i);
      assert key == GlobalKey(s, i);
    }
    if Owns(s, key) {
      var i :| 0 <= i < s.local && key == GlobalKey(s, i);
      ModUnique(i, workerID, d);
      LocalBound(keySpace, workerID, d, i);
      MulStrict(0, i, d);
    }
  }

  /** The local index i is in range exactly when its global key is in the keyspace. */
  lemma LocalBound(keySpace: int, workerID: int, d: int, i: int)
    requires 0 <= workerID < d && i >= 0
    ensures i < Partition(false, keySpace, workerID, d).local <==> i * d + workerID < keySpace
  {
    if workerID < keySpace {
      var n := keySpace - workerID + d - 1;
      var q := n / d;
      DivMod(n, d);
      MulStrict(i, q, d);
      MulStrict(q, i, d);
    } else {
      MulStrict(0, i, d);
    }
  }

  /** Without shared keys the workers' key sets split the keyspace: every key has one owner. */
  lemma {:induction false} ExactPartition(keySpace: int, workerCount: int, key: int)
    requires workerCount > 0 && 0 <= key < keySpace
    ensures 0 <= key % workerCount < workerCount
    ensures forall w | 0 <= w < workerCount ::
              Owns(Partition(false, keySpace, w, workerCount), key) <==> w == key % workerCount
  {
    forall w | 0 <= w < workerCount
      ensures Owns(Partition(false, keySpace, w, workerCount), key) <==> w == key % workerCount
    {
      OwnsResidueClass(keySpace, w, workerCount, key);
    }
  }

  /** With shared keys every worker owns the whole keyspace. */
  lemma SharedOwnsAll(keySpace: int, workerID: int, workerCount: int, key: int)
    requires workerCount > 0
    ensures Owns(Partition(true, keySpace, workerID, workerCount), key) <==> 0 <= key < keySpace
  {
    assert key == GlobalKey(Partition(true, keySpace, workerID, workerCount), key);
  }

  /** A worker owns a key at all exactly when its id lies inside the keyspace. */
  lemma OwnsSomething(keySpace: int, workerID: int, workerCount: int)
    requires 0 <= workerID < workerCount
    ensures Partition(false, keySpace, workerID, workerCount).local >= 1 <==> workerID < keySpace
  {
    LocalBound(keySpace, workerID, workerCount, 0);
  }

  // ----- construction

  datatype OpSpec = OpSpec(opType: string, weight: int)

  datatype WorkloadSpec = WorkloadSpec(operations: seq<OpSpec>, keySpace: int,
    sharedKeys: bool, dist: string, valueSize: int)

  datatype Factory = Factory(spec: WorkloadSpec, share: Share, cum: seq<int>, total: int)

  datatype BuildError = NoOperations | BadWorkerCount | WorkerOutOfRange
    | EmptyKeySpace | BadWeight(op: nat) | OwnsNoKeys

  datatype Built = Ready(factory: Factory) | Refused(error: BuildError)

  function Weights(ops: seq<OpSpec>): int {
    if ops == [] then 0 else Weights(ops[..|ops| - 1]) + ops[|ops| - 1].weight
  }

  ghost predicate ValidFactory(f: Factory) {
    && |f.spec.operations| == |f.cum| > 0
    && (forall i | 0 <= i < |f.cum| ::
          f.spec.operations[i].weight > 0 && f.cum[i] == Weights(f.spec.operations[..i + 1]))
    && f.total == Weights(f.spec.operations)
    && f.share.local >= 1 && f.share.stride >= 1
  }

  /** The first thing wrong with a workload, in the order it is looked for. */
  ghost predicate Explains(error: BuildError, w: WorkloadSpec, workerID: int, workerCount: int) {
    if w.operations == [] then error == NoOperations
    else if workerCount < 1 then error == BadWorkerCount
    else if workerID < 0 || workerID >= workerCount then error == WorkerOutOfRange
    else if w.keySpace < 1 then error == EmptyKeySpace
    else if error.BadWeight? then
      && error.op < |w.operations| && w.operations[error.op].weight <= 0
      && forall i | 0 <= i < error.op :: w.operations[i].weight > 0
    else
      && error == OwnsNoKeys && !w.sharedKeys && workerID >= w.keySpace
      && forall i | 0 <= i < |w.operations| :: w.operations[i].weight > 0
  }

  /** Builds a worker's factory exactly when nothing is wrong, and otherwise names what is. */
  method New(w: WorkloadSpec, workerID: int, workerCount: int) returns (r: Built)
    ensures r.Ready? <==>
            && w.operations != [] && workerCount >= 1 && 0 <= workerID < workerCount && w.keySpace >= 1
            && (forall i | 0 <= i < |w.operations| :: w.operations[i].weight > 0)
            && (w.sharedKeys || workerID < w.keySpace)
    ensures r.Ready? ==> ValidFactory(r.factory) && r.factory.spec == w
                         && r.factory.share == Partition(w.sharedKeys, w.keySpace, workerID, workerCount)
    ensures r.Refused? ==> Explains(r.error, w, workerID, workerCount)
  {
    if w.operations == [] {
      return Refused(NoOperations);
    }
    if workerCount < 1 {
      return Refused(BadWorkerCount);
    }
    if workerID < 0 || workerID >= workerCount {
      return Refused(WorkerOutOfRange);
    }
    if w.keySpace < 1 {
      return Refused(EmptyKeySpace);
    }
    var cum: seq<int>, total := [], 0;
    for i := 0 to |w.operations|
      invariant |cum| == i && total == Weights(w.operations[..i])
      invariant forall j | 0 <= j < i :: w.operations[j].weight > 0 && cum[j] == Weights(w.operations[..j + 1])
    {
      var op := w.operations[i];
      if op.weight <= 0 {
        return Refused(BadWeight(i));
      }
      assert w.operations[..i + 1][..i] == w.operations[..i];
      total := total + op.weight;
      cum := cum + [total];
    }
    assert w.operations[..|w.operations|] == w.operations;
    var share := Partition(w.sharedKeys, w.keySpace, workerID, workerCount);
    OwnsSomething(w.keySpace, workerID, workerCount);
    if share.local < 1 {
      return Refused(OwnsNoKeys);
    }
    r := Ready(Factory(w, share, cum, total));
  }

  /** The draw x falls into the stretch of operation i: each has one as long as its weight. */
  ghost predicate Selects(f: Factory, x: int, i: int) {
    && 0 <= i < |f.spec.operations|
    && Weights(f.spec.operations[..i]) <= x < Weights(f.spec.operations[..i]) + f.spec.operations[i].weight
  }

  /** The weighted choice: of the `total` equally likely draws, exactly `weight` select each operation. */
  method PickOp(f: Factory, x: int) returns (i: nat)
    requires ValidFactory(f) && 0 <= x < f.total
    ensures i < |f.cum| && Selects(f, x, i)
  {
    var ops := f.spec.operations;
    assert ops[..|ops|] == ops;
    i := 0;
    for j := 0 to |f.cum|
      invariant Weights(ops[..j]) <= x
    {
      if x < f.cum[j] {
        assert ops[..j + 1][..j] == ops[..j];
        return j;
      }
    }
    assert false;
  }

  // ----- keys

  datatype Dist = ConstKeys | UniformKeys | SequentialKeys | ZipfKeys | LatestKeys

  /** A space of one key leaves no choice; an unknown name means uniform. */
  function DistFor(name: string, span: int): Dist {
    if span <= 1 then ConstKeys else
    if name == "zipfian" then ZipfKeys else
    if name == "latest" then LatestKeys else
    if name == "sequential" then SequentialKeys else UniformKeys
  }

  /** The key of the call that follows n others: a sequential generator cycles through the space, and
      the latest one counts back from a head that advances by one a call until it is at the end. */
  function KeyAt(dist: Dist, span: int, n: nat, draw: int): int
    requires span >= 1
  {
    match dist
    case ConstKeys => 0
    case UniformKeys => draw
    case ZipfKeys => draw
    case SequentialKeys => n % span
    case LatestKeys =>
      var newest := if n + 1 < span then n + 1 else span - 1;
      if draw <= newest then newest - draw else 0
  }

  /** One key generator over a local space. `draw` stands for the random source: below `span`
      for the uniform and Zipfian draws. */
  class KeyGen {
    const dist: Dist
    const span: int
    var cur: int
    var head: int
    ghost var calls: nat

    ghost predicate Valid()
      reads this
    {
      && span >= 1 && (dist == ConstKeys <==> span == 1)
      && (dist == SequentialKeys ==> cur == calls)
      && (dist == LatestKeys ==> head == if calls + 1 < span then calls + 1 else span)
    }

    constructor (name: string, span: int)
      requires span >= 1
      ensures Valid() && this.span == span && calls == 0 && dist == DistFor(name, span)
    {
      this.span := span;
      cur := 0;
      head := 1;
      calls := 0;
      dist := if span <= 1 then ConstKeys else
              if name == "zipfian" then ZipfKeys else
              if name == "latest" then LatestKeys else
              if name == "sequential" then SequentialKeys else UniformKeys;
    }

    /** Every distribution stays inside the local space, and draws the key that its name promises. */
    method Next(draw: int) returns (k: int)
      requires Valid() && 0 <= draw < span
      modifies this
      ensures Valid() && 0 <= k < span && calls == old(calls) + 1
      ensures k == KeyAt(dist, span, old(calls), draw)
    {
      calls := calls + 1;
      match dist {
        case ConstKeys =>
          k := 0;
        case UniformKeys =>
          k := draw;
        case ZipfKeys =>
          k := draw;
        case SequentialKeys =>
          k := cur % span;
          cur := cur + 1;
        case LatestKeys =>
          if head < span {
            head := head + 1;
          }
          var off := draw;
          if off >= head {
            off := head - 1;
          }
          k := head - 1 - off;
      }
    }
  }

  // ----- operations

  datatype Operation = Operation(opType: string, key: int, value: Option<seq<int>>, seqNo: int)

  const READ_OPS := {"read", "get", "scan", "count", "query"}

  /** Any label that is not a known read label is a write ("r" and "consume" included). */
  predicate IsWrite(opType: string) {
    ToLower(opType) !in READ_OPS
  }

  /** `s` spells `label`, which is in small letters, in letters of either case. */
  ghost predicate Spells(s: string, word: string) {
    && |s| == |word|
    && forall i | 0 <= i < |s| :: s[i] == word[i] || s[i] as int + 32 == word[i] as int
  }

  ghost predicate SmallLetters(s: string) {
    forall i | 0 <= i < |s| :: 'a' <= s[i] <= 'z'
  }

  lemma LowerSpells(s: string, word: string)
    requires SmallLetters(word)
    ensures ToLower(s) == word <==> Spells(s, word)
  {
    if Spells(s, word) {
      forall i | 0 <= i < |s| ensures ToLower(s)[i] == word[i] {
        assert s[i] == word[i] || s[i] as int + 32 == word[i] as int;
      }
    } else if |s| == |word| {
      var i :| 0 <= i < |s| && s[i] != word[i] && s[i] as int + 32 != word[i] as int;
      assert ToLower(s)[i] != word[i];
    }
  }

  /** The reads are the operations labelled with one of five words, in letters of either case. */
  lemma ReadLabels(opType: string)
    ensures !IsWrite(opType) <==>
            || Spells(opType, "read") || Spells(opType, "get") || Spells(opType, "scan")
            || Spells(opType, "count") || Spells(opType, "query")
  {
    LowerSpells(opType, "read");
    LowerSpells(opType, "get");
    LowerSpells(opType, "scan");
    LowerSpells(opType, "count");
    LowerSpells(opType, "query");
  }

  function ToLower(s: string): string {
    seq(|s|, i requires 0 <= i < |s| => if 'A' <= s[i] <= 'Z' then s[i] - 'A' + 'a' else s[i])
  }

  function OnKey(key: int): Operation -> bool {
    (op: Operation) => op.key == key
  }

  function CountKey(ops: seq<Operation>, key: int): nat {
    |Filter(ops, OnKey(key))|
  }

  /** Each operation carries its 1-based rank among the operations on its key. */
  ghost predicate Numbered(ops: seq<Operation>) {
    forall i | 0 <= i < |ops| :: ops[i].seqNo == CountKey(ops[..i], ops[i].key) + 1
  }

  lemma NumberedSnoc(ops: seq<Operation>, op: Operation)
    requires Numbered(ops) && op.seqNo == CountKey(ops, op.key) + 1
    ensures Numbered(ops + [op])
    ensures forall k :: CountKey(ops + [op], k) == CountKey(ops, k) + if k == op.key then 1 else 0
  {
    var all := ops + [op];
    forall i | 0 <= i < |all| ensures all[i].seqNo == CountKey(all[..i], all[i].key) + 1 {
      if i < |ops| {
        assert all[..i] == ops[..i];
      } else {
        assert all[..i] == ops;
      }
    }
    forall k ensures CountKey(all, k) == CountKey(ops, k) + if k == op.key then 1 else 0 {
      FilterSnoc(ops, op, OnKey(k));
    }
  }

  /** `seqOf` counts the operations of each key. */
  ghost predicate Counts(seqOf: map<int, int>, ops: seq<Operation>) {
    forall k :: (if k in seqOf then seqOf[k] else 0) == CountKey(ops, k)
  }

  lemma TraceSnoc(seqOf: map<int, int>, ops: seq<Operation>, op: Operation)
    requires Numbered(ops) && Counts(seqOf, ops)
    requires op.seqNo == (if op.key in seqOf then seqOf[op.key] else 0) + 1
    ensures Numbered(ops + [op]) && Counts(seqOf[op.key := op.seqNo], ops + [op])
    ensures op.seqNo == CountKey(ops, op.key) + 1
  {
    NumberedSnoc(ops, op);
  }

  /** One goroutine's operation source. `payload` is the deterministic value of a key. */
  class Generator {
    const f: Factory
    const keys: KeyGen
    const payload: int -> seq<int>
    var seqOf: map<int, int>
    ghost var trace: seq<Operation>

    ghost predicate Valid()
      reads this, keys
    {
      && ValidFactory(f) && keys.Valid() && keys.span == f.share.local
      && keys.dist == DistFor(f.spec.dist, f.share.local) && keys.calls == |trace|
      && Numbered(trace) && Counts(seqOf, trace)
      && (forall op | op in trace :: Owns(f.share, op.key))
    }

    constructor (f: Factory, payload: int -> seq<int>)
      requires ValidFactory(f)
      ensures Valid() && fresh(keys) && trace == [] && this.f == f && this.payload == payload
    {
      this.f := f;
      this.payload := payload;
      keys := new KeyGen(f.spec.dist, f.share.local);
      seqOf := map[];
      trace := [];
    }

    /** The next operation: of the kind the draw selects, on the key of this worker's share that the
        distribution yields, and with the next number of that key. */
    method Next(x: int, draw: int) returns (op: Operation)
      requires Valid() && 0 <= x < f.total && 0 <= draw < f.share.local
      modifies this, keys
      ensures Valid() && trace == old(trace) + [op]
      ensures Owns(f.share, op.key) && op.seqNo == CountKey(old(trace), op.key) + 1
      ensures exists i :: Selects(f, x, i) && op.opType == f.spec.operations[i].opType
      ensures op.key == f.share.base +
                        f.share.stride * KeyAt(DistFor(f.spec.dist, f.share.local), f.share.local, |old(trace)|, draw)
      ensures op.value == if IsWrite(op.opType) then Some(payload(op.key)) else None
    {
      var i := PickOp(f, x);
      var local := keys.Next(draw);
      var key := GlobalKey(f.share, local);
      var seqNo := (if key in seqOf then seqOf[key] else 0) + 1;
      seqOf := seqOf[key := seqNo];
      var opType := f.spec.operations[i].opType;
      op := Operation(opType, key, if IsWrite(opType) then Some(payload(key)) else None, seqNo);
      TraceSnoc(old(seqOf), trace, op);
      trace := trace + [op];
    }
  }
}

# proofload, modelled and verified in Dafny

proofload drives load against databases and brokers and then judges the outcome. This project
models the parts that decide whether its answers can be trusted, and proves what they promise:

- **Verdicts.** `RegisterCheck` and `Linearizability`: per-key register checking and its verdict on a
  whole history. `RegisterRuns`: what that check sees of a run against an atomic store. `KafkaLog` and
  `KafkaRecord`: loss, duplication and ordering from the sequence numbers in a topic, from the generated
  operation to the report. `Reconcile`: the expectation log, its reduction, the read-back, and runs of any
  generators against a store.
- **Schedules.** `Schedule`: constant-rate and stepped open-loop arrival times, in exact and in 64-bit
  arithmetic. `Nemesis` and `NemesisRun`: fault plans and their execution under failures and cancellation.
- **Measurement.** `Runner`: the lock-free accumulator as a machine of atomic steps. `RunnerTrace`: its
  report read off the steps of the run. `Metrics` and `Intervals`: per-goroutine histograms, merging, and
  interval deltas while recording goes on.
- **Distribution.** `Cluster`: the join barrier, the start-gun and result collection. `Workload`: the key
  partition, the weighted choice, the key distributions and the per-key numbering.

`Sorting`, `Sums`, `Arith`, `Int64` and `Domain` hold what the others share. Objects that the program
updates in place are classes; loops are methods proved against specification functions; concurrency is a
state machine whose steps are the program's atomic actions, with theorems over every run. Calls into code
outside the repository are parameters: the register search of Porcupine is a function assumed to answer
correctly about the keys of the history or time out, the bin layout of HdrHistogram is a function from
values to bins, random draws, clocks and failures are arguments that range over everything they could be.

Where the program does not meet a property on all inputs, the exact condition is proved:

- Timestamps come from the wall clock, so an operation can return before it is called, and then every key
  can be linearizable while the whole history is not (`BackwardIntervalBreaksLocality`). `LocalityExactly`
  gives the condition on keys and intervals alone under which checking key by key is right whatever was read
  and written: whenever an operation on another key lies after `z` and before `w`, the key of `z` and `w`
  already puts `z` before `w`. `LocalityChecked` gives it in closed form, quantifying over operations only:
  `z` returned before `w` was called, or before one operation on their key that did. Intervals that never
  run backwards meet it (`WellFormedComposable`).
- Failed reads are recorded as reads of 0, failed writes as writes, and unobserved writes not at all, so the
  register check raises false alarms. Where the observed operations on each key follow one another it does so
  exactly when some recorded read differs from the last recorded write (`LinearizableExactly`); `PairAlarm`
  shows the three kinds on two operations, and `OverlapForgives` why overlap can hide them.
- `analyzeLog` computes a key's loss in 64 bits, so a loss of 2^63 or more is dropped; `FalsePass` gives
  exactly when that turns a loss into a pass and `ExtremesPass` a two-record example.
- Sequence numbers advance on operations that produce nothing, and separately in every generator. So the
  log check raises false alarms: on one generator exactly when an operation that produced nothing lies
  between two that did on the same key (`ProducedLaw`, for fewer than 2^63 possible records; smallest case
  `ConsumeBetween`), and on several generators that only produce exactly when two of them produce on one key
  (`MergedLaw`).
- A write during warm-up, or one interrupted after the store executed it, is stored and never logged. A
  stored key escapes reconciliation exactly when all its writes were of this sort (`EscapesExactly`).
- `Run` promises that every injected fault has been healed; what holds is a heal attempt
  (`InjectsHealed`). `NeverHealedExactly` says, from the plan and the controller's failures, when no attempt
  succeeds, `FaultStaysUnhealed` shows such a run, and `HealNotRetried` says that a failed scheduled heal
  gets no second attempt at the end.
- The comment on `encodeSeq` says byte order matches numeric order; it does so exactly between numbers of
  the same sign (`SeqByteOrder`).
- The comment on `batchRecordAt` says derived keys never collide; that holds exactly up to
  KeySpace * batch = 2^64 (`BatchKeysCollide`).
- The split divisions of the schedulers are exact exactly up to 9,223,372,037 operations per second for
  `offsetFor` and 9,223,372,046 for `opsInStep` (`OffsetExactUpTo`, `StepExactUpTo`), and intended times
  are distinct exactly when no segment packs two operations into one nanosecond (`StrictExactly`).
- Reducing the expectation log does not depend on its order exactly when no key has two different records
  of highest number (`OrderInsensitiveExactly`).
- A run without a deadline drops a fault exactly as `DroppedExactly` says; `LoneInstantDropped` is the
  simplest case.
- A fixed rate below the number of workers silently becomes the closed loop (`WorkerRateSplit`).

## Model

| member | source | states |
|---|---|---|
| Linearizability.Locality | core/verify/porcupine.go:29-46 | a history with composable spans fits one legal real-time order over the map of registers if and only if every key's operations fit one over a single register |
| Linearizability.LocalityExactly | core/verify/porcupine.go:33-122 | for given keys and intervals that equivalence holds of every history if and only if the spans are composable or some key has no real-time order at all |
| Linearizability.LocalityChecked | core/verify/porcupine.go:33-122 | the same condition in closed form: some key holds two operations that each returned before the other was called, or whenever an operation on another key lies after z and before w, z and w differ and z returned before w was called, or before an operation on their key that returned before w was called |
| Linearizability.AlwaysBeforeExactly | core/verify/porcupine.go:95-98 | among operations without such a conflict, z stands before w in every real-time order exactly when z returned before w was called or one operation lies in between |
| Linearizability.ArrangeableExactly | core/verify/porcupine.go:95-98 | operations have a real-time order exactly when no two of them conflict |
| Linearizability.WellFormedComposable | core/verify/porcupine.go:95-98 | intervals in which no operation returns before its call are composable |
| Linearizability.Misleading | core/verify/porcupine.go:33-93 | for spans that are not composable, though each key has a real-time order, some history over them has every key linearizable and is not linearizable as a whole |
| Linearizability.Weave | core/verify/porcupine.go:33-43 | orders of the single keys that no operation on another key crosses combine into one real-time order that keeps each of them |
| Linearizability.StoreImpliesKey | core/verify/porcupine.go:33-43 | an order of the whole history restricts to a legal real-time order of each key, with no condition on the intervals |
| Linearizability.KeysImplyStore | core/verify/porcupine.go:33-43 | orders found key by key, for composable spans, assemble into one order of the whole history |
| Linearizability.StoreLegalByKey | core/verify/porcupine.go:36-43 | an order is legal for the map of registers if and only if its restriction to every key is legal for one register |
| Linearizability.BackwardIntervalBreaksLocality | core/verify/porcupine.go:95-122 | a concrete history with an operation that returns before its call: every key passes, the whole does not |
| RegisterCheck.ReadHistory | core/verify/historyio.go:70-91 | succeeds exactly when no line is malformed, and then keeps exactly the events of the lines that hold one, in file order, split by key and by process in that order; otherwise names the first malformed line |
| RegisterCheck.Keys | core/verify/historyio.go:102-110 | exactly the keys of the history, strictly ascending |
| RegisterCheck.RegisterOps | core/verify/porcupine.go:95-122 | one operation per read or write among the events, in file order, with its process, key, interval and the value it wrote or saw; every other event is left out |
| RegisterCheck.OpsOfKey | core/verify/porcupine.go:62-65 | the operations of one key's events are the history's operations on that key |
| RegisterCheck.ScanKeys | core/verify/porcupine.go:60-84 | the flags, the tally and the ordered list of anomalies are those of the outcomes of the keys |
| RegisterCheck.CheckRegister | core/verify/porcupine.go:48-93 | given a search that is right about the keys of this history: a fail means no legal real-time order of all reads and writes exists; with composable spans a pass means one does, and without time-outs pass is equivalent to it; unknown exactly when some key timed out and none was illegal; the ordering count is the number of illegal keys, loss and duplication are zero, and the anomalies are one per illegal or timed-out key of its own kind, in strictly ascending key order |
| RegisterCheck.WellFormedDecided | core/verify/porcupine.go:66-83 | a search that is right on intervals that do not run backwards meets those assumptions on every history whose clocks did not |
| RegisterRuns.ConsistentIsLinearizable | core/verify/history.go:69-97 | in every run against an atomic store, however concurrent, if each recorded read agrees with the last recorded write before it the recorded history is linearizable |
| RegisterRuns.LinearizableExactly | core/verify/history.go:69-97 | if the observed operations on each key follow one another, the recorded history is linearizable exactly when every recorded read is truthful: a failed one finds the recorded writes at 0, a successful one finds that the last recorded and the last effective write agree |
| RegisterRuns.CleanRunPasses | core/runner/worker.go:48-71 | without failed reads, and with exactly the effective writes recorded, there is no false alarm |
| RegisterRuns.PairAlarm | core/verify/history.go:73-97 | a write and then a read give a history that is not linearizable if the read failed, or the write was recorded without effect, or it took effect unrecorded |
| RegisterRuns.OverlapForgives | core/verify/history.go:73-97 | with overlap a history can be linearizable although a read is not truthful |
| KafkaLog.AnalyzeLog | targets/kafka/kafkadriver/verify.go:97-171 | for some (partition, offset) arrangement of the records every count and the verdict is the one defined by sets of missing numbers, surplus copies and adjacent descents; the anomalies are exactly the positive counts, each once under its own kind, in the order loss, duplication, ordering |
| KafkaLog.DescentsCount | targets/kafka/kafkadriver/verify.go:118-131 | the descents of a key are the places in its stream where a number is followed by a smaller one |
| KafkaLog.SortRecords | targets/kafka/kafkadriver/verify.go:110-116 | some rearrangement of the same records in (partition, offset) order |
| KafkaLog.ScanSorted | targets/kafka/kafkadriver/verify.go:118-131 | each key's numbers in order, and the total number of adjacent descents over all keys |
| KafkaLog.KeyRange | targets/kafka/kafkadriver/verify.go:136-146 | the distinct numbers of a key, their least and their greatest |
| KafkaLog.TallyKeys | targets/kafka/kafkadriver/verify.go:133-161 | in any order of the keys, the 64-bit sum of the losses and the sum of the surpluses |
| KafkaLog.LossOfKey | targets/kafka/kafkadriver/verify.go:147-150 | the 64-bit loss of a key equals the number of missing values when that is below 2^63 and is negative otherwise; the surplus is exact |
| KafkaLog.KeyClean | targets/kafka/kafkadriver/verify.go:133-165 | a key has no missing number, no surplus and no descent if and only if its numbers count up by one |
| KafkaLog.VerdictExact | targets/kafka/kafkadriver/verify.go:133-171 | with fewer than 2^63 numbers missing the loss is exact and the log passes if and only if every key's numbers count up by one |
| KafkaLog.FalsePass | targets/kafka/kafkadriver/verify.go:147-169 | clean logs always pass, and a log that is not clean passes exactly when nothing is repeated or reordered, something is missing, and the losses below 2^63 add up to a multiple of 2^64 |
| KafkaLog.ExtremesPass | targets/kafka/kafkadriver/verify.go:147-169 | the log of one key holding only the least and the greatest 64-bit number passes although it is not clean |
| KafkaLog.ReportDetermined | targets/kafka/kafkadriver/verify.go:103-171 | with distinct positions the whole report depends only on the multiset of records, not on arrival order or map order |
| KafkaLog.RangesConserve | targets/kafka/kafkadriver/verify.go:133-163 | the sizes of the key ranges add up to the records minus the surplus plus the missing |
| KafkaRecord.KeyRoundTrip | targets/kafka/kafkadriver/record.go:52-60 | parsing the decimal form of any 64-bit key gives the key back |
| KafkaRecord.SeqRoundTrip | targets/kafka/kafkadriver/record.go:62-76 | decoding the eight bytes of any 64-bit number gives the number back |
| KafkaRecord.SeqByteOrder | targets/kafka/kafkadriver/record.go:62-68 | of two numbers in order, the encodings are in byte order if and only if both have the same sign |
| KafkaRecord.BatchKeysCollide | targets/kafka/kafkadriver/record.go:32-43 | derived keys are pairwise distinct if and only if KeySpace * batch is at most 2^64 |
| KafkaRecord.Produce | targets/kafka/kafkadriver/conn.go:54-67 | for every batch size as many records as the batch, at least one; each carries the value of the operation, its number, and the derived key of its place; the single-record path is the batch of one |
| KafkaRecord.DrainTopic | targets/kafka/kafkadriver/verify.go:61-95 | everything fetched before the first idle, empty or cancelled poll, decoded in order, with foreign records skipped |
| KafkaRecord.DecodePermutation | targets/kafka/kafkadriver/verify.go:86-93 | fetching the same records in another order decodes to the same records in another order |
| KafkaRecord.DerivedStream | targets/kafka/kafkadriver/record.go:32-50 | for any produced operations and batch size, every derived key sees the numbers of its key, once each and in order |
| KafkaRecord.DerivedKeyCountsUp | targets/kafka/kafkadriver/record.go:36-43 | when every operation of a generator produces, every derived key sees exactly 1, 2, 3, ... |
| KafkaRecord.ProducedLaw | core/workload/generator.go:125-138 | one generator, any of whose operations produce, any batch size without collisions, a log that keeps produce order per key, foreign records mixed in, fetched in any order: the verdict is pass if, and with fewer than 2^63 possible records only if, on every key no operation that produced nothing lies between two that did |
| KafkaRecord.ConsumeBetween | core/workload/generator.go:128-137 | produce, consume, produce on one key: the verdict is fail |
| KafkaRecord.NoFalseAlarm | targets/kafka/kafkadriver/verify.go:61-171 | for a generator all of whose operations produce the verdict is pass and every produced record is counted |
| KafkaRecord.MergedLaw | core/workload/generator.go:98-123 | several generators that only produce, each with its own numbering, into one log that keeps each generator's order on each derived key and is otherwise interleaved in any way: pass if no key is produced by two of them, fail otherwise |
| Workload.ExactPartition | core/workload/generator.go:83-96 | each key below KeySpace is owned by exactly the worker of its residue |
| Workload.OwnsResidueClass | core/workload/generator.go:25-33 | a worker owns exactly the keys of its residue class below KeySpace |
| Workload.SharedOwnsAll | core/workload/generator.go:25-33 | with shared keys every worker owns the whole key space |
| Workload.New | core/workload/generator.go:46-81 | succeeds exactly on valid workloads with a non-empty share, with cumulative weights and the worker's share, and otherwise reports the first thing wrong |
| Workload.PickOp | core/workload/generator.go:140-149 | the operation whose weight interval contains the draw, so exactly `weight` of the `total` draws select it |
| Workload.KeyGen.Next | core/workload/keydist.go:31-80 | every distribution stays inside the local key space on every call and yields the key it promises: the draw, the number of calls so far around the space, or the draw counted back from a head that advances by one a call up to the end |
| Workload.Generator.Next | core/workload/generator.go:125-138 | the operation in whose weight interval the draw falls, on the key that the distribution yields at this call, mapped into the worker's share; its number is one more than the operations on that key so far, and exactly writes carry the key's payload |
| Workload.ReadLabels | core/workload/generator.go:151-161 | an operation is a read exactly when its label spells one of five words in letters of either case |
| Schedule.OffsetForFloor | core/schedule/scheduler.go:76-87 | the split form is the floor of n * 10^9 / ops |
| Schedule.OpsInStepFloor | core/schedule/ramp.go:111-121 | the split form is the floor of rate * duration / 10^9 |
| Schedule.OffsetExactUpTo | core/schedule/scheduler.go:79-87 | in 64-bit arithmetic the form is right for every index whose true offset fits if and only if ops is at most 9,223,372,037 |
| Schedule.StepExactUpTo | core/schedule/ramp.go:114-121 | in 64-bit arithmetic the form is right for every duration whose true count fits if and only if rate is at most 9,223,372,046 |
| Schedule.BuildSegments | core/schedule/ramp.go:49-67 | one segment per usable step, starting at the operations and the time of the steps before it |
| Schedule.OffsetForIndex | core/schedule/ramp.go:99-109 | the binary search finds the one segment that holds the index, for every index and every list of usable steps, and returns its offset |
| Schedule.OffsetConfined | core/schedule/ramp.go:99-109 | an index's offset lies within its segment's time, except that the last segment is open-ended |
| Schedule.SegmentOwns | core/schedule/ramp.go:55-67 | a segment that is not the last owns exactly floor(rate * duration / 10^9) consecutive indices |
| Schedule.OffsetMonotone | core/schedule/ramp.go:99-109 | offsets never decrease with the index, for any steps |
| Schedule.StrictExactly | core/schedule/ramp.go:99-121 | offsets strictly increase if and only if every segment above 10^9 per second owns fewer than two indices and is not the last |
| Schedule.RampStep | core/schedule/ramp.go:99-121 | successive arrivals of a ramp, across boundaries too, are at least floor(10^9 / greatest rate) apart |
| Schedule.Drift | core/schedule/ramp.go:55-67 | the operations issued up to a boundary never exceed the ideal and trail it by less than one per segment |
| Schedule.Ramp.Next | core/schedule/ramp.go:92-97 | claims the next index and returns a time that depends on it alone and is never earlier than one handed out before |
| Schedule.NewRamp | core/schedule/ramp.go:49-72 | falls back to the closed loop exactly when no step is usable |
| Schedule.LinearSteps | core/schedule/ramp.go:74-90 | the truncated interpolation at every step, hence exact at both ends and monotone between them; one segment at the final rate for at most one step |
| Schedule.OpenLoop.Next | core/schedule/scheduler.go:49-53 | claims the next index and returns start plus the floor of n / rate in nanoseconds |
| Schedule.WorkerRateSplit | core/cli/distributed.go:175-182 | the workers' rates fall short of the aggregate by less than one each, and are zero, hence closed loop, exactly when there are more workers than operations per second |
| Nemesis.Pick | core/nemesis/scheduler.go:118-134 | the named target, known or bare, without a draw; otherwise one draw over the nodes; the empty node when there is none |
| Nemesis.Plan | core/nemesis/scheduler.go:76-116 | terminates for every repeat and window, and equals the plan whose every action the lemmas from OccsExact to NonInterference determine: when, where, what, and in which order |
| Nemesis.OccsExact | core/nemesis/scheduler.go:88-96 | for a positive window the k-th occurrence is At + k * Repeat, and it exists exactly when that is below the window and either k = 0 or Repeat is positive |
| Nemesis.InjectsExact | core/nemesis/scheduler.go:86-115 | the plan is in time order and at every offset injects each fault type exactly as many times as there are specs of that type due then |
| Nemesis.HealFollows | core/nemesis/scheduler.go:107-115 | every occurrence is injected at its time, with its type and parameters, on its node; each of positive duration is healed later in the plan, on that node, exactly Duration after |
| Nemesis.PlanExact | core/nemesis/scheduler.go:107-115 | the plan holds nothing else: its injects and its heals, as multisets of times, nodes and faults, are exactly those that the occurrences call for |
| Nemesis.TiesInOrder | core/nemesis/scheduler.go:98-115 | at one offset the plan acts in the order of the occurrences, and every heal comes before every inject |
| Nemesis.ChoiceAtIndex | core/nemesis/scheduler.go:107-134 | each occurrence keeps its time and spec and hits the first node its target names, a bare one if there is none; without a target a node of the cluster, the empty one if there is none |
| Nemesis.DrawAtIndex | core/nemesis/scheduler.go:118-134 | the d-th untargeted occurrence takes the node of the d-th draw of the seeded generator, whatever targeted ones lie between |
| Nemesis.FirstOfSeedZero | core/nemesis/rand.go:11-18 | the generator agrees with the published SplitMix64 stream of seed 0 on its first value |
| Nemesis.Window | core/nemesis/scheduler.go:136-153 | the time to the deadline, not below zero; without one the least non-negative time at which every spec has ended |
| Nemesis.DroppedExactly | core/nemesis/scheduler.go:87-97 | without a deadline a spec is never injected exactly when some spec ends after the start and none ends after this one begins; a spec of positive duration always is |
| Nemesis.LoneInstantDropped | core/nemesis/scheduler.go:89-91 | a single instantaneous fault and no deadline give an empty plan |
| Nemesis.UntargetedAlone | core/nemesis/scheduler.go:98-116 | for a fixed window and seed the untargeted faults strike at the times and nodes they would with all targeted specs removed |
| Nemesis.NonInterference | core/nemesis/scheduler.go:98-134 | spec lists with the same untargeted specs choose the same times and nodes for them |
| NemesisRun.Run | core/nemesis/scheduler.go:44-74 | for every pattern of errors and cancellation the timeline is the executed prefix of the plan, each event with the offset, node, type and outcome of its action, followed by one heal per outstanding node |
| NemesisRun.HealAll | core/nemesis/scheduler.go:155-175 | heals each outstanding node once, in ascending id order, at the clock's offsets |
| NemesisRun.OutstandingExact | core/nemesis/scheduler.go:54-71 | a node is outstanding exactly when a successful inject on it has seen no heal attempt since |
| NemesisRun.InjectsHealed | core/nemesis/scheduler.go:44-74 | every successful inject in the timeline is followed by a heal event on the same node |
| NemesisRun.NeverHealedExactly | core/nemesis/scheduler.go:44-74 | after a successful inject no heal of the node succeeds exactly when every scheduled one that ran fails and, if the node is open when the plan ends, the controller call of its turn among the open nodes fails too |
| NemesisRun.CleanUpOf | core/nemesis/scheduler.go:155-175 | a node has a heal at the end exactly when it is open, at the place given by the number of open nodes with a smaller id |
| NemesisRun.FaultStaysUnhealed | core/nemesis/scheduler.go:68-73 | a run in which a successful inject is never followed by a successful heal |
| NemesisRun.HealNotRetried | core/nemesis/scheduler.go:68-73 | after a scheduled heal, failed or not, and no further successful inject, the end of the timeline holds no event for the node |
| NemesisRun.TimelineDetermined | core/nemesis/scheduler.go:155-175 | the timeline is a function of the plan and of what the environment did |
| NemesisRun.TailExact | core/nemesis/scheduler.go:155-175 | the events after the scheduled ones heal exactly the nodes still open, each once, in ascending id order, each with the clock's offset and the controller's outcome of its turn |
| NemesisRun.OffsetsAscend | core/nemesis/scheduler.go:44-74 | with a clock that never runs backwards the offsets of the timeline never decrease |
| Runner.StepKeepsInv | core/runner/worker.go:62-95 | whatever the arrival plan, every atomic step of any operation keeps the partial tallies equal to the contributions of the operations that have passed each point |
| Runner.TalliesExact | core/runner/worker.go:33-95 | after any interleaving all tallies are the sums over the measured operations of one, failure, rows, dispatch minus intended start and completion minus dispatch; the sink saw exactly those, their latencies add up to lateness plus service, and no warm-up operation is among them |
| RunnerTrace.MeasuredAreCompletions | core/runner/worker.go:33-66 | in every run clock, cancellation and claims are those the steps show, and the measured operations are, as a multiset, the completions among the steps of operations dispatched after warm-up in a run not yet cancelled; an operation that ended unmeasured was dispatched during warm-up, or the run was cancelled |
| RunnerTrace.ReportCountsSteps | core/runner/worker.go:62-95 | in every finished run an operation is measured exactly when such a step completes it, with the intended start, dispatch, completion, outcome and rows that the steps give it; total and errors are the numbers of such steps, and rows, lateness and service sum over them |
| Runner.ExtremesExact | core/runner/worker.go:201-223 | after any interleaving of the compare-and-swap loops the two extremes are the least and the greatest intended time of a measured operation |
| Runner.MeanInterArrivalBound | core/runner/worker.go:175-186 | in any constant-rate run that measured at least two operations, whichever they were, the estimate is at least floor(10^9 / rate) |
| Runner.RampMeanBound | core/schedule/ramp.go:92-109 | in any run along a ramp it is at least floor(10^9 / greatest rate) |
| Runner.MeanOfSpaced | core/runner/worker.go:175-186 | in general it is at least any spacing that the arrival plan keeps over every stretch |
| Runner.MeanGapExact | core/runner/worker.go:175-186 | the estimate is the distance from the first to the last measured arrival divided by one less than their number, rounded down; zero below two |
| Runner.ClientBoundExactly | core/runner/worker.go:139-173 | a finished run is client-bound exactly when its measured operations were late by more than the threshold on average, in whole nanoseconds by more than they took to serve, and fewer than one in twenty failed; the default threshold is that estimate |
| Runner.PunctualRunNotBlamed | core/runner/worker.go:139-173 | with the default threshold a run no later on average than the spacing of its plan is never called client-bound |
| Cluster.SlotIs | core/cluster/handlers.go:41-51 | the requested slot if it is free and in range, else the lowest free one, none exactly when all are taken |
| Cluster.Coordinator.Register | core/cluster/handlers.go:35-63 | grants that slot or refuses, and fixes the start time with the last slot |
| Cluster.Coordinator.RecordSubmit | core/cluster/handlers.go:84-98 | refuses unknown ids without a change, otherwise replaces report and histogram together and opens the barrier when all have reported |
| Cluster.Coordinator.GetResult | core/cluster/handlers.go:100-114 | the reports with their histograms, in id order, changing nothing |
| Cluster.ReachableInv | core/cluster/handlers.go:37-98 | the join and submit invariants hold after every run of joins, answers and submissions, and the lead is the one asked for if positive and half a second otherwise |
| Cluster.JoinBarrier | core/cluster/handlers.go:9-63 | in every run: ids distinct and in range, no reply before all have joined, every reply carrying the one start time, which lies the lead asked for, or half a second unless that is positive, after the last grant; and joins refused exactly when full |
| Cluster.SuccessfulResult | core/cluster/coordinator.go:106-125 | whenever the submit barrier opens the result holds ids 0 to N-1 in order, each report with the histogram of the same submission, the worker's last |
| Cluster.JoinedWorkersPartition | core/workload/generator.go:25-33 | after any completed join phase each key of the key space is owned by exactly one of the joined workers |
| Metrics.Local.Record | core/metrics/local.go:40-68 | exactly the bin of the latency, brought into the tracked range, grows by one, overall and under the operation; an error is counted in total and under the operation; nothing else changes; in a layout with a bin for every value of that range the histogram holds one value more wherever the latency lies |
| Metrics.ViewBins | core/metrics/local.go:40-68 | in every view each bin, overall and under each operation, is the number of recorded samples whose latency, brought into the tracked range, belongs there |
| Metrics.HistTotal | core/metrics/local.go:40-51 | in such a layout the bins of a histogram add up to the number of recorded samples, because latencies are clamped into the range |
| Metrics.ViewCounts | core/metrics/recorder.go:103-110 | every view counts each sample once overall and once under its operation |
| Metrics.Recorder.AddLocal | core/metrics/recorder.go:55-63 | registers an empty sink and loses nothing |
| Metrics.Recorder.Collect | core/metrics/recorder.go:73-101 | the merged view shows exactly the samples of all sinks |
| Metrics.Recorder.MergeFrom | core/metrics/recorder.go:125-142 | the recorder holds its own samples followed by those of the other |
| Metrics.MergeShows | core/metrics/recorder.go:83-99 | merging is a homomorphism: the merge of two views shows the samples of both |
| Metrics.ViewDetermined | core/metrics/recorder.go:73-101 | a view depends only on the multiset of samples, so neither grouping nor order of merging matters |
| Metrics.ViewAddsUp | core/metrics/local.go:40-68 | in every view each overall bin is the sum of the per-operation bins and the error total the sum of the per-operation errors |
| Metrics.MergeResults | core/cli/distributed.go:70-94 | no results and bad blobs are reported, the first bad one by index; otherwise the merged view shows the samples of all workers, total and errors are the sums of theirs, and the run is client-bound exactly when some worker was |
| Metrics.Recorder.TakeInterval | core/metrics/interval.go:12-50 | per operation the clamped difference to the last call, and the new baseline |
| Metrics.ComputeDelta | core/metrics/interval.go:52-77 | bin by bin the clamped difference, the whole histogram when there is no baseline |
| Intervals.ClampNeverFires | core/metrics/interval.go:62-68 | at every reachable call each collected bin and error count is at least its baseline |
| Intervals.DeltasAddUp | core/metrics/interval.go:12-50 | in every interleaving of recording, registering and the sink-by-sink scan, the deltas of all calls add up bin by bin and error by error to the last collected values |
| Intervals.CountsAddUp | core/metrics/interval.go:12-16 | in every interleaving the total counts of all snapshots add up to the number of samples collected |
| Intervals.LastIntervalCompletes | core/metrics/interval.go:12-16 | when the last call saw every sample the deltas, and their total counts, add up to everything recorded |
| Reconcile.ReadLog | core/verify/log.go:38-59 | the reduction of the records of the lines that hold one, in file order, or the number of the first malformed line |
| Reconcile.ReduceExact | core/verify/log.go:28-52 | the reduction has exactly the keys of the log and keeps for each the last record of highest number |
| Reconcile.OrderInsensitiveExactly | core/verify/log.go:28-52 | every order of the same records reduces alike if and only if no key has two different records of highest number |
| Reconcile.EqualChecksumsSuffice | core/verify/log.go:11-19 | that is so when the records of each key agree on the checksum |
| Reconcile.ReadBack | core/verify/reconcile.go:61-83 | one loss per key whose read fails or finds neither text nor a slice, one corruption per key whose bytes have another checksum, nothing else, and the number of losses |
| Reconcile.NodesAgree | core/verify/reconcile.go:137-157 | agreement exactly when every replica answers and all answers have the same checksum, an absent value counting as the empty one; an error exactly when a replica fails before two answers differ |
| Reconcile.ConvergeKey | core/verify/reconcile.go:112-135 | polling terminates and reports convergence exactly when the replicas agree in the round in which it stops, with the duration read in that round, and an error exactly when that round failed or was cancelled before the deadline |
| Reconcile.CheckConvergence | core/verify/reconcile.go:85-110 | over a sample of the stated size, one divergence per key that does not converge, the longest time any of them took, and the time of the phase |
| Reconcile.Check | core/verify/reconcile.go:31-59 | no verdict but the number of keys when connecting or preparing fails; otherwise exact counts, an exact list of findings, a pass exactly when there are none, the worst staleness and the time of the phase |
| Reconcile.ReachableInv | core/testutil/fakedriver.go:58-81 | in every run of generated operations against the store, warm-up and interrupted ones included, every recorded write names a stored key with the checksum of its contents |
| Reconcile.ExactLoss | core/cli/verify.go:201-213 | in every run, with logging in any order and any keys removed afterwards, the report counts and lists exactly the logged keys that were removed |
| Reconcile.EscapesExactly | core/runner/worker.go:48-71 | the log never expects a key that is not stored, and once all observed writes are logged a stored key is left unchecked exactly when none of its writes was observed |
| Reconcile.WarmupEscapes | core/runner/worker.go:62-65 | a single warm-up write is stored, never logged and never checked |
| Reconcile.NoFalseAlarm | core/verify/reconcile.go:31-83 | at every point of every run an untouched store passes with nothing lost and nothing reported |

## Left out

- Drivers and their network code, HTTP, JSON, files, configuration, provisioning and the command line beyond the functions above: calls into other systems.
- The Porcupine search: a function that is assumed to answer correctly or time out; its time limit is part of that function.
- HdrHistogram's layout, encoding and percentiles: bins are a function of the value, and a worker's blob is the view it decodes to or a decoding failure.
- `math/rand`, Zipf and PCG internals: draws are arguments within the ranges those libraries promise.
- Checksum and payload bytes: functions of the bytes and of the key; collisions of checksums are therefore covered as undetected corruption.
- Poisson draws (a plan of arrivals is any function of the claimed index), throughput, percentiles, witness traces and the list-append checker: no exact invariant, or text only.
- Intervals: the percentile and throughput figures and the order of the returned snapshots.
- Reconcile.ConvergeKey: takes the deadline readings of successive rounds to be at least the polling delay apart.
- RegisterRuns.LinearizableExactly: for operations on one key that overlap the exact condition is the search itself; ConsistentIsLinearizable covers them one way, and OverlapForgives shows that the other way fails.
- NemesisRun.OffsetsAscend: assumes the clock property that `waitUntil` gives, that a reached wait lies in the past.
- Nemesis: durations are unbounded integers, so overflow of an offset plus a repeat is not modelled; fault parameters are an opaque text.
- NemesisRun: a heal event records an attempt and whether the controller reported an error; what the controller does is outside.
- Runner: worker identity is abstracted, so the runs include all interleavings of any number of workers; the observer call and int64 overflow of the tallies are not modelled.
- Cluster: request decoding, refusals while shutting down, and the time-outs of `Serve`; a cancelled or timed-out run returns no result and is not modelled.
- Workload: overflow of keys, weights and partition sizes near 2^63, and lower-casing beyond ASCII labels.
- Schedule: overflow of segment start counts and offsets over the whole ramp; the 64-bit results are about the two split forms.
- KafkaRecord.NoFalseAlarm: a generator all of whose operations produce; mixes and several generators are the subject of ProducedLaw and MergedLaw; transactions and broker failures are outside.
- KafkaRecord.MergedLaw: generators that only produce; with other operations in the mix two generators can complete each other's numbers.
- RegisterCheck.CheckRegister: inherits from the program that an event's success flag is ignored.

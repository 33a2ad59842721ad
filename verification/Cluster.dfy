/** The coordinator of a distributed run: join barrier, start gun, submission barrier, result. */
module Cluster {
  import opened Domain
  import opened Sorting
  import opened Sums
  import Workload

  datatype WorkerReport = WorkerReport(workerID: int, total: int, errors: int, clientBound: bool)

  datatype Submission = Submission(report: WorkerReport, histogram: seq<int>)

  datatype RunResult = RunResult(reports: seq<WorkerReport>, histograms: seq<seq<int>>)

  /** The state behind the coordinator's lock. `startAt` is set with the join barrier and
      `submittedAll` is the submission barrier. */
  datatype Coord = Coord(
    workerCount: int, lead: int,
    joined: set<int>, startAt: Option<int>,
    reports: map<int, WorkerReport>, histos: map<int, seq<int>>, submittedAll: bool)

  function NewCoord(workerCount: int, lead: int): Coord {
    Coord(workerCount, if lead <= 0 then 500_000_000 else lead, {}, None, map[], map[], false)
  }

  // ----- slots

  function LowestFree(joined: set<int>, n: int, i: int): int
    decreases n - i
  {
    if i >= n then -1 else if i !in joined then i else LowestFree(joined, n, i + 1)
  }

  /** A free in-range request is honoured, anything else gets the lowest free slot, -1 if none. */
  function Slot(joined: set<int>, n: int, requested: int): int {
    if 0 <= requested < n && requested !in joined then requested else LowestFree(joined, n, 0)
  }

  lemma {:induction false} LowestFreeIs(joined: set<int>, n: int, i: int)
    requires i >= 0
    ensures var r := LowestFree(joined, n, i);
            if r == -1 then forall j | i <= j < n :: j in joined
            else i <= r < n && r !in joined && forall j | i <= j < r :: j in joined
    decreases n - i
  {
    if i < n && i in joined {
      LowestFreeIs(joined, n, i + 1);
    }
  }

  /** A free request is honoured, any other join gets the lowest free slot, and a join is refused
      exactly when every slot is taken. */
  lemma SlotIs(joined: set<int>, n: int, requested: int)
    requires forall j | j in joined :: 0 <= j < n
    ensures var id := Slot(joined, n, requested);
            if id == -1 then |joined| == (if n < 0 then 0 else n) else 0 <= id < n && id !in joined && |joined| < n
    ensures var id := Slot(joined, n, requested);
            if 0 <= requested < n && requested !in joined then id == requested
            else forall j | 0 <= j < (if id == -1 then n else id) :: j in joined
  {
    LowestFreeIs(joined, n, 0);
    var all := Interval(0, n - 1);
    assert joined <= all;
    SubsetSize(joined, all);
    var id := Slot(joined, n, requested);
    if id == -1 {
      assert all <= joined;
    } else {
      assert id in all - joined;
    }
  }

  // ----- the three critical sections

  function AfterJoin(c: Coord, requested: int, now: int): Coord {
    var id := Slot(c.joined, c.workerCount, requested);
    if id < 0 then c
    else
      var joined := c.joined + {id};
      c.(joined := joined,
         startAt := if |joined| == c.workerCount && c.startAt.None? then Some(now + c.lead) else c.startAt)
  }

  function AfterSubmit(c: Coord, sub: Submission): Coord {
    var id := sub.report.workerID;
    if id !in c.joined then c
    else
      var reports := c.reports[id := sub.report];
      c.(reports := reports, histos := c.histos[id := sub.histogram],
         submittedAll := c.submittedAll || |reports| == c.workerCount)
  }

  /** The collected reports with their histograms, in id order, from id i on. */
  function Collect(c: Coord, i: int): RunResult
    requires c.reports.Keys == c.histos.Keys
    decreases c.workerCount - i
  {
    if i >= c.workerCount then RunResult([], [])
    else
      var rest := Collect(c, i + 1);
      if i in c.reports then RunResult([c.reports[i]] + rest.reports, [c.histos[i]] + rest.histograms) else rest
  }

  class Coordinator {
    const workerCount: int
    const lead: int
    var joined: set<int>
    var startAt: Option<int>
    var reports: map<int, WorkerReport>
    var histos: map<int, seq<int>>
    var submittedAll: bool

    function State(): Coord
      reads this
    {
      Coord(workerCount, lead, joined, startAt, reports, histos, submittedAll)
    }

    constructor (workerCount: int, startLead: int)
      ensures State() == NewCoord(workerCount, startLead)
      ensures lead == if startLead > 0 then startLead else 500_000_000
    {
      this.workerCount := workerCount;
      lead := if startLead <= 0 then 500_000_000 else startLead;
      joined, startAt, reports, histos, submittedAll := {}, None, map[], map[], false;
    }

    /** `register`, under the lock. */
    method Register(requested: int, now: int) returns (id: int, ok: bool)
      modifies this
      ensures State() == AfterJoin(old(State()), requested, now)
      ensures id == Slot(old(joined), workerCount, requested) && ok == (id >= 0)
    {
      id := -1;
      if 0 <= requested < workerCount && requested !in joined {
        id := requested;
      } else {
        var i := 0;
        while i < workerCount && i in joined
          invariant 0 <= i && LowestFree(joined, workerCount, 0) == LowestFree(joined, workerCount, i)
          decreases workerCount - i
        {
          i := i + 1;
        }
        if i < workerCount {
          id := i;
        }
      }
      if id < 0 {
        return -1, false;
      }
      joined := joined + {id};
      if |joined| == workerCount && startAt.None? {
        startAt := Some(now + lead);
      }
      ok := true;
    }

    /** `recordSubmit`, under the lock. */
    method RecordSubmit(sub: Submission) returns (ok: bool)
      modifies this
      ensures State() == AfterSubmit(old(State()), sub)
      ensures ok == (sub.report.workerID in old(joined))
    {
      var id := sub.report.workerID;
      if id !in joined {
        return false;
      }
      reports := reports[id := sub.report];
      histos := histos[id := sub.histogram];
      if |reports| == workerCount {
        submittedAll := true;
      }
      ok := true;
    }

    /** `result`: the loop over ids collects each report with its histogram. */
    method GetResult() returns (res: RunResult)
      requires reports.Keys == histos.Keys
      ensures res == Collect(State(), 0)
    {
      res := RunResult([], []);
      var i := 0;
      while i < workerCount
        invariant 0 <= i
        invariant Collect(State(), 0) == RunResult(res.reports + Collect(State(), i).reports,
                                                   res.histograms + Collect(State(), i).histograms)
        decreases workerCount - i
      {
        if i in reports {
          res := RunResult(res.reports + [reports[i]], res.histograms + [histos[i]]);
        }
        i := i + 1;
      }
    }
  }

  // ----- whole runs

  datatype Grant = Grant(id: int, at: int)

  datatype Reply = Reply(id: int, startAt: int)

  datatype Event = Join(requested: int, now: int) | Answer(k: nat) | Submit(sub: Submission)

  /** A run so far: the coordinator, the ids it granted and when, the replies it sent, and the
      submissions it accepted. */
  datatype Run = Run(c: Coord, grants: seq<Grant>, replies: seq<Reply>, accepted: seq<Submission>)

  /** A join handler answers only once the barrier is open. */
  predicate Enabled(r: Run, e: Event) {
    e.Answer? ==> e.k < |r.grants| && r.c.startAt.Some?
  }

  function Apply(r: Run, e: Event): Run
    requires Enabled(r, e)
  {
    match e
    case Join(requested, now) =>
      var id := Slot(r.c.joined, r.c.workerCount, requested);
      r.(c := AfterJoin(r.c, requested, now), grants := r.grants + if id < 0 then [] else [Grant(id, now)])
    case Answer(k) =>
      r.(replies := r.replies + [Reply(r.grants[k].id, r.c.startAt.value)])
    case Submit(sub) =>
      r.(c := AfterSubmit(r.c, sub),
         accepted := r.accepted + if sub.report.workerID in r.c.joined then [sub] else [])
  }

  ghost predicate Reaches(n: int, lead: int, events: seq<Event>, r: Run) {
    if events == [] then r == Run(NewCoord(n, lead), [], [], [])
    else
      var last := events[|events| - 1];
      exists before :: Reaches(n, lead, events[..|events| - 1], before) && Enabled(before, last)
        && r == Apply(before, last)
  }

  /** The last submission a worker made, if any. */
  function LastOf(subs: seq<Submission>, id: int): Option<Submission> {
    if subs == [] then None
    else if subs[|subs| - 1].report.workerID == id then Some(subs[|subs| - 1])
    else LastOf(subs[..|subs| - 1], id)
  }

  /** The granted ids are distinct, in range, and as many as have joined. */
  ghost predicate GrantInv(joined: set<int>, n: int, grants: seq<Grant>) {
    && (forall id | id in joined :: 0 <= id < n)
    && (forall i | 0 <= i < |grants| :: grants[i].id in joined)
    && (forall i, j | 0 <= i < j < |grants| :: grants[i].id != grants[j].id)
    && |joined| == |grants|
  }

  /** The start time is set with the n-th grant, `lead` after it. */
  ghost predicate BarrierInv(startAt: Option<int>, n: int, lead: int, grants: seq<Grant>) {
    if grants != [] && |grants| == n then startAt == Some(grants[n - 1].at + lead) else startAt == None
  }

  ghost predicate ReplyInv(startAt: Option<int>, joined: set<int>, replies: seq<Reply>) {
    && (startAt == None ==> replies == [])
    && (forall i | 0 <= i < |replies| :: startAt == Some(replies[i].startAt) && replies[i].id in joined)
  }

  ghost predicate JoinInv(r: Run) {
    && GrantInv(r.c.joined, r.c.workerCount, r.grants)
    && BarrierInv(r.c.startAt, r.c.workerCount, r.c.lead, r.grants)
    && ReplyInv(r.c.startAt, r.c.joined, r.replies)
  }

  /** Each report with its histogram is the last accepted submission of its worker. */
  ghost predicate AcceptedInv(reports: map<int, WorkerReport>, histos: map<int, seq<int>>, accepted: seq<Submission>) {
    && reports.Keys == histos.Keys
    && (forall id :: id in reports <==> LastOf(accepted, id).Some?)
    && (forall id | id in reports ::
          && reports[id].workerID == id
          && LastOf(accepted, id) == Some(Submission(reports[id], histos[id])))
  }

  ghost predicate SubmitInv(r: Run) {
    && AcceptedInv(r.c.reports, r.c.histos, r.accepted)
    && r.c.reports.Keys <= r.c.joined
    && (r.c.submittedAll <==> r.c.reports != map[] && |r.c.reports| == r.c.workerCount)
  }

  lemma GrantKeeps(joined: set<int>, n: int, grants: seq<Grant>, id: int, now: int)
    requires GrantInv(joined, n, grants) && 0 <= id < n && id !in joined
    ensures GrantInv(joined + {id}, n, grants + [Grant(id, now)])
  {
  }

  /** Granting the last slot sets the start time; no reply can have gone out before. */
  lemma JoinKeepsJoinInv(r: Run, requested: int, now: int)
    requires JoinInv(r)
    ensures JoinInv(Apply(r, Join(requested, now)))
  {
    SlotIs(r.c.joined, r.c.workerCount, requested);
    var id := Slot(r.c.joined, r.c.workerCount, requested);
    if id >= 0 {
      GrantKeeps(r.c.joined, r.c.workerCount, r.grants, id, now);
    } else {
      assert r.grants + [] == r.grants;
    }
  }

  lemma AnswerKeepsJoinInv(r: Run, k: nat)
    requires JoinInv(r) && Enabled(r, Answer(k))
    ensures JoinInv(Apply(r, Answer(k)))
  {
  }

  lemma LastOfSnoc(subs: seq<Submission>, sub: Submission, id: int)
    ensures LastOf(subs + [sub], id) == if sub.report.workerID == id then Some(sub) else LastOf(subs, id)
  {
    assert (subs + [sub])[..|subs|] == subs;
  }

  lemma AcceptKeeps(reports: map<int, WorkerReport>, histos: map<int, seq<int>>,
                    accepted: seq<Submission>, sub: Submission)
    requires AcceptedInv(reports, histos, accepted)
    ensures var id := sub.report.workerID;
            AcceptedInv(reports[id := sub.report], histos[id := sub.histogram], accepted + [sub])
  {
    forall x ensures LastOf(accepted + [sub], x)
        == if sub.report.workerID == x then Some(sub) else LastOf(accepted, x) {
      LastOfSnoc(accepted, sub, x);
    }
  }

  /** Reports come from joined workers, so there are never more than `n`, and never fewer than before. */
  lemma ReportsGrow(before: set<int>, after: set<int>, joined: set<int>, n: int)
    requires before <= after <= joined && forall id | id in joined :: 0 <= id < n
    ensures |before| <= |after| && (after != {} ==> |after| <= n)
  {
    SubsetSize(before, after);
    var all := Interval(0, n - 1);
    assert after <= all;
    SubsetSize(after, all);
  }

  lemma SubmitKeepsSubmitInv(r: Run, sub: Submission)
    requires JoinInv(r) && SubmitInv(r)
    ensures SubmitInv(Apply(r, Submit(sub)))
  {
    var id := sub.report.workerID;
    if id in r.c.joined {
      var reports := r.c.reports[id := sub.report];
      AcceptKeeps(r.c.reports, r.c.histos, r.accepted, sub);
      assert reports.Keys == r.c.reports.Keys + {id};
      ReportsGrow(r.c.reports.Keys, reports.Keys, r.c.joined, r.c.workerCount);
      assert |reports| == |reports.Keys| && |r.c.reports| == |r.c.reports.Keys|;
    } else {
      assert r.accepted + [] == r.accepted;
    }
  }

  lemma StepKeepsInv(r: Run, e: Event)
    requires JoinInv(r) && SubmitInv(r) && Enabled(r, e)
    ensures JoinInv(Apply(r, e)) && SubmitInv(Apply(r, e))
    ensures Apply(r, e).c.workerCount == r.c.workerCount && Apply(r, e).c.lead == r.c.lead
  {
    match e {
      case Join(requested, now) => JoinKeepsJoinInv(r, requested, now);
      case Answer(k) => AnswerKeepsJoinInv(r, k);
      case Submit(sub) => SubmitKeepsSubmitInv(r, sub);
    }
  }

  lemma {:induction false} ReachableInv(n: int, lead: int, events: seq<Event>, r: Run)
    requires Reaches(n, lead, events, r)
    ensures JoinInv(r) && SubmitInv(r) && r.c.workerCount == n
    ensures r.c.lead == if lead > 0 then lead else 500_000_000
  {
    if events != [] {
      var last := events[|events| - 1];
      var before :| Reaches(n, lead, events[..|events| - 1], before) && Enabled(before, last)
        && r == Apply(before, last);
      ReachableInv(n, lead, events[..|events| - 1], before);
      StepKeepsInv(before, last);
    }
  }

  /** The join barrier, in every run: ids are distinct and in range; the start time is fixed with
      the last of the n grants and lies the lead after it, half a second unless a positive one was
      asked for; it is known before any reply goes out and
      every reply carries that same one; and a join is refused exactly when n ids are out. */
  lemma JoinBarrier(n: int, lead: int, events: seq<Event>, r: Run, requested: int)
    requires Reaches(n, lead, events, r) && n >= 0
    ensures forall i | 0 <= i < |r.grants| :: 0 <= r.grants[i].id < n
    ensures forall i, j | 0 <= i < j < |r.grants| :: r.grants[i].id != r.grants[j].id
    ensures r.replies != [] ==> |r.grants| == n >= 1
    ensures r.replies != [] ==> forall i | 0 <= i < |r.replies| ::
              r.replies[i].startAt == r.grants[n - 1].at + if lead > 0 then lead else 500_000_000
    ensures Slot(r.c.joined, n, requested) == -1 <==> |r.grants| == n
  {
    ReachableInv(n, lead, events, r);
    SlotIs(r.c.joined, n, requested);
    if r.replies != [] {
      assert r.c.startAt == Some(r.replies[0].startAt);
    }
  }

  /** Once every slot is granted the ids are exactly 0, ..., n-1. */
  lemma AllIdsGranted(joined: set<int>, n: int, grants: seq<Grant>, id: int) returns (i: nat)
    requires GrantInv(joined, n, grants) && |grants| == n && 0 <= id < n
    ensures i < |grants| && grants[i].id == id
  {
    var ids := seq(|grants|, k requires 0 <= k < |grants| => grants[k].id);
    var granted := set x | x in ids;
    assert forall x :: x in ids <==> x in granted;
    SameSize(ids, granted);
    var all := Interval(0, n - 1);
    assert granted <= all;
    SubsetSize(granted, all);
    assert all - granted == {};
    assert id in all;
    assert id in granted;
    var k: nat :| k < |ids| && ids[k] == id;
    i := k;
  }

  lemma {:induction false} CollectAll(c: Coord, i: int)
    requires c.reports.Keys == c.histos.Keys && 0 <= i <= c.workerCount
    requires forall j | i <= j < c.workerCount :: j in c.reports
    ensures var res := Collect(c, i);
            && |res.reports| == |res.histograms| == c.workerCount - i
            && forall j | 0 <= j < c.workerCount - i :: res.reports[j] == c.reports[i + j]
                 && res.histograms[j] == c.histos[i + j]
    decreases c.workerCount - i
  {
    if i < c.workerCount {
      CollectAll(c, i + 1);
      var res, rest := Collect(c, i), Collect(c, i + 1);
      forall j | 0 <= j < c.workerCount - i
        ensures res.reports[j] == c.reports[i + j] && res.histograms[j] == c.histos[i + j]
      {
        if j > 0 {
          assert res.reports[j] == rest.reports[j - 1] && res.histograms[j] == rest.histograms[j - 1];
          assert rest.reports[j - 1] == c.reports[i + 1 + (j - 1)];
        }
      }
    }
  }

  /** The successful result, in every run: one entry for each of the ids 0, ..., n-1, in order, each
      histogram taken from the very submission its report came from, the last that worker made. */
  lemma SuccessfulResult(n: int, lead: int, events: seq<Event>, r: Run)
    requires Reaches(n, lead, events, r) && r.c.submittedAll
    ensures r.c.reports.Keys == r.c.histos.Keys && n >= 1
    ensures var res := Collect(r.c, 0);
            && |res.reports| == |res.histograms| == n
            && forall i | 0 <= i < n ::
                 && res.reports[i].workerID == i
                 && LastOf(r.accepted, i) == Some(Submission(res.reports[i], res.histograms[i]))
  {
    ReachableInv(n, lead, events, r);
    AllReported(r.c.reports.Keys, n, r.c.joined, r.grants);
    CollectAll(r.c, 0);
  }

  lemma AllReported(reported: set<int>, n: int, joined: set<int>, grants: seq<Grant>)
    requires GrantInv(joined, n, grants) && reported <= joined && |reported| == n
    ensures n >= 0 && forall i | 0 <= i < n :: i in reported
  {
    var all := Interval(0, n - 1);
    assert reported <= all;
    SubsetSize(reported, all);
    assert all - reported == {};
    forall i | 0 <= i < n ensures i in reported {
      assert i in all;
    }
  }

  /** A completed join phase splits the keyspace: every key belongs to the share of exactly one of
      the ids granted. */
  lemma JoinedWorkersPartition(n: int, lead: int, events: seq<Event>, r: Run, keySpace: int, key: int)
    requires Reaches(n, lead, events, r) && |r.grants| == n && n >= 1 && 0 <= key < keySpace
    ensures exists i :: 0 <= i < n && Workload.Owns(Workload.Partition(false, keySpace, r.grants[i].id, n), key)
    ensures forall i, j | 0 <= i < n && 0 <= j < n &&
                          Workload.Owns(Workload.Partition(false, keySpace, r.grants[i].id, n), key) &&
                          Workload.Owns(Workload.Partition(false, keySpace, r.grants[j].id, n), key) :: i == j
  {
    ReachableInv(n, lead, events, r);
    Workload.ExactPartition(keySpace, n, key);
    var i := AllIdsGranted(r.c.joined, n, r.grants, key % n);
    assert Workload.Owns(Workload.Partition(false, keySpace, r.grants[i].id, n), key);
    forall i, j | 0 <= i < n && 0 <= j < n &&
                  Workload.Owns(Workload.Partition(false, keySpace, r.grants[i].id, n), key) &&
                  Workload.Owns(Workload.Partition(false, keySpace, r.grants[j].id, n), key)
      ensures i == j
    {
      assert r.grants[i].id == key % n == r.grants[j].id;
    }
  }
}

/** Running a fault plan. The environment decides which waits are reached before cancellation,
    which controller calls fail, and what the clock reads during the final clean-up. */
module NemesisRun {
  import opened Domain
  import opened Nemesis
  import opened Sorting

  /** One entry of the fault timeline. */
  datatype Event = Event(at: int, inject: bool, kind: string, node: string, failed: bool)

  datatype Env = Env(
    reached: nat -> bool,
    injectFails: nat -> bool,
    healFails: nat -> bool,
    tailAt: nat -> int,
    tailFails: nat -> bool)

  // ----- the scheduled part

  /** How many actions run: all those before the first wait that is cut short. */
  function Executed(acts: seq<Action>, env: Env, i: nat): (n: nat)
    requires i <= |acts|
    ensures i <= n <= |acts|
    ensures forall k | i <= k < n :: env.reached(k)
    ensures n < |acts| ==> !env.reached(n)
    decreases |acts| - i
  {
    if i == |acts| || !env.reached(i) then i else Executed(acts, env, i + 1)
  }

  function EventOf(acts: seq<Action>, env: Env, i: nat): Event
    requires i < |acts|
  {
    if acts[i].inject then Event(acts[i].at, true, acts[i].kind, acts[i].node.id, env.injectFails(i))
    else Event(acts[i].at, false, "", acts[i].node.id, env.healFails(i))
  }

  function Scheduled(acts: seq<Action>, env: Env, n: nat): (events: seq<Event>)
    requires n <= |acts|
    ensures |events| == n
  {
    seq(n, i requires 0 <= i < n => EventOf(acts, env, i))
  }

  lemma ScheduledNext(acts: seq<Action>, env: Env, n: nat)
    requires n < |acts|
    ensures Scheduled(acts, env, n + 1) == Scheduled(acts, env, n) + [EventOf(acts, env, n)]
  {
  }

  /** The faults outstanding after `n` actions: a successful inject adds its node, and any heal
      removes it, whether or not the heal succeeded. */
  function Outstanding(acts: seq<Action>, env: Env, n: nat): map<string, Node>
    requires n <= |acts|
  {
    if n == 0 then map[]
    else
      var before, a := Outstanding(acts, env, n - 1), acts[n - 1];
      if !a.inject then before - {a.node.id}
      else if env.injectFails(n - 1) then before
      else before[a.node.id := a.node]
  }

  /** The fault injected at step i is still open after n steps. */
  ghost predicate OpenSince(acts: seq<Action>, env: Env, n: nat, i: nat, id: string) {
    && i < n <= |acts|
    && acts[i].inject && !env.injectFails(i) && acts[i].node.id == id
    && forall j | i < j < n :: !(!acts[j].inject && acts[j].node.id == id)
  }

  ghost predicate Open(acts: seq<Action>, env: Env, n: nat, id: string) {
    exists i: nat :: OpenSince(acts, env, n, i, id)
  }

  /** A node is outstanding exactly when some successful inject on it has seen no heal since. */
  lemma {:induction false} OutstandingExact(acts: seq<Action>, env: Env, n: nat, id: string)
    requires n <= |acts|
    ensures id in Outstanding(acts, env, n) <==> Open(acts, env, n, id)
  {
    if n > 0 {
      OutstandingExact(acts, env, n - 1, id);
      var a := acts[n - 1];
      if Open(acts, env, n - 1, id) && (a.inject || a.node.id != id) {
        var i: nat :| OpenSince(acts, env, n - 1, i, id);
        assert OpenSince(acts, env, n, i, id);
      }
      if a.inject && !env.injectFails(n - 1) && a.node.id == id {
        assert OpenSince(acts, env, n, n - 1, id);
      }
      if i: nat :| OpenSince(acts, env, n, i, id) && i < n - 1 {
        assert OpenSince(acts, env, n - 1, i, id);
      }
    }
  }

  // ----- the clean-up

  predicate StringBelow(a: string, b: string) {
    a == [] || (b != [] && (a[0] < b[0] || (a[0] == b[0] && StringBelow(a[1..], b[1..]))))
  }

  function StringLeq(): (string, string) -> bool {
    (a: string, b: string) => StringBelow(a, b)
  }

  lemma {:induction false} BelowTotal(a: string, b: string)
    ensures StringBelow(a, b) || StringBelow(b, a)
    ensures StringBelow(a, b) && StringBelow(b, a) ==> a == b
  {
    if a != [] && b != [] {
      BelowTotal(a[1..], b[1..]);
      assert a == [a[0]] + a[1..] && b == [b[0]] + b[1..];
    }
  }

  lemma {:induction false} BelowTransitive(a: string, b: string, c: string)
    requires StringBelow(a, b) && StringBelow(b, c)
    ensures StringBelow(a, c)
  {
    if a != [] && b != [] && c != [] && a[0] == b[0] == c[0] {
      BelowTransitive(a[1..], b[1..], c[1..]);
    }
  }

  lemma StringOrder()
    ensures TotalPreorder(StringLeq())
  {
    forall a, b ensures StringLeq()(a, b) || StringLeq()(b, a) {
      BelowTotal(a, b);
    }
    forall a, b, c | StringLeq()(a, b) && StringLeq()(b, c) ensures StringLeq()(a, c) {
      BelowTransitive(a, b, c);
    }
  }

  ghost predicate Distinct(ids: seq<string>) {
    forall i, j | 0 <= i < j < |ids| :: ids[i] != ids[j]
  }

  /** `ids` lists the keys of `open`, each once, in ascending order. */
  ghost predicate Ascending(ids: seq<string>, open: map<string, Node>) {
    SortedBy(ids, StringLeq()) && Distinct(ids) && forall id :: id in ids <==> id in open
  }

  /** Only one list does. */
  lemma AscendingUnique(a: seq<string>, b: seq<string>, open: map<string, Node>)
    requires Ascending(a, open) && Ascending(b, open)
    ensures a == b
  {
    DistinctMultiset(a);
    DistinctMultiset(b);
    forall id ensures multiset(a)[id] == multiset(b)[id] {
      assert id in multiset(a) <==> id in a;
      assert id in multiset(b) <==> id in b;
    }
    forall x, y | x in a && y in a && StringLeq()(x, y) && StringLeq()(y, x) ensures x == y {
      BelowTotal(x, y);
    }
    SortedUnique(a, b, StringLeq());
  }

  lemma SortAscends(ids: seq<string>, open: map<string, Node>)
    requires Distinct(ids) && forall id :: id in ids <==> id in open
    ensures Ascending(StableSort(ids, StringLeq()), open)
  {
    StringOrder();
    StableSortSorts(ids, StringLeq());
    var sorted := StableSort(ids, StringLeq());
    DistinctPermutation(ids, sorted);
    assert forall id :: id in sorted <==> id in multiset(sorted);
    assert forall id :: id in ids <==> id in multiset(ids);
  }

  /** The keys of a map in whatever order it yields them, then sorted. */
  method SortedIds(open: map<string, Node>) returns (ids: seq<string>)
    ensures Ascending(ids, open)
  {
    ids := [];
    var rest := open.Keys;
    while rest != {}
      invariant rest <= open.Keys
      invariant forall id :: id in ids <==> id in open && id !in rest
      invariant Distinct(ids)
      decreases |rest|
    {
      ghost var some := Sorting.Pick(rest);
      var id :| id in rest;
      ids := ids + [id];
      rest := rest - {id};
    }
    SortAscends(ids, open);
    ids := StableSort(ids, StringLeq());
  }

  function TailEvents(ids: seq<string>, env: Env): (events: seq<Event>)
    ensures |events| == |ids|
  {
    seq(|ids|, k requires 0 <= k < |ids| => Event(env.tailAt(k), false, "", ids[k], env.tailFails(k)))
  }

  /** The whole timeline of a run of `acts`. */
  ghost predicate TimelineOf(events: seq<Event>, acts: seq<Action>, env: Env) {
    var n := Executed(acts, env, 0);
    exists ids: seq<string> ::
      Ascending(ids, Outstanding(acts, env, n)) && events == Scheduled(acts, env, n) + TailEvents(ids, env)
  }

  method HealAll(open: map<string, Node>, before: seq<Event>, env: Env) returns (events: seq<Event>)
    ensures exists ids: seq<string> :: Ascending(ids, open) && events == before + TailEvents(ids, env)
  {
    if |open| == 0 {
      assert open == map[];
      assert Ascending([], open);
      assert before == before + TailEvents([], env);
      return before;
    }
    var ids := SortedIds(open);
    events := before;
    for k := 0 to |ids|
      invariant events == before + TailEvents(ids[..k], env)
    {
      assert ids[..k + 1] == ids[..k] + [ids[k]];
      events := events + [Event(env.tailAt(k), false, "", ids[k], env.tailFails(k))];
    }
    assert ids[..|ids|] == ids;
  }

  /** `e` reports the action `a`: its offset, its node, and its kind when it injects. */
  ghost predicate Reports(e: Event, a: Action, failed: bool) {
    && e.at == a.at && e.inject == a.inject && e.node == a.node.id && e.failed == failed
    && e.kind == if a.inject then a.kind else ""
  }

  /** The first events report, one by one, the actions that ran. */
  ghost predicate ReportsPrefix(events: seq<Event>, acts: seq<Action>, env: Env) {
    && Executed(acts, env, 0) <= |events|
    && forall i | 0 <= i < Executed(acts, env, 0) ::
         Reports(events[i], acts[i], if acts[i].inject then env.injectFails(i) else env.healFails(i))
  }

  lemma TimelineReports(events: seq<Event>, acts: seq<Action>, env: Env)
    requires TimelineOf(events, acts, env)
    ensures ReportsPrefix(events, acts, env)
  {
    ScheduledEvents(events, acts, env);
  }

  /** `Run`: wait for each action, call the controller, keep the outstanding faults, then clean up. */
  method Run(nodes: seq<Node>, specs: seq<FaultSpec>, deadline: Option<int>, seed: bv64, env: Env)
    returns (events: seq<Event>)
    ensures TimelineOf(events, PlanOf(nodes, specs, WindowOf(deadline, specs), seed), env)
    ensures ReportsPrefix(events, PlanOf(nodes, specs, WindowOf(deadline, specs), seed), env)
  {
    var window := Window(deadline, specs);
    var plan := Plan(nodes, specs, window, seed);
    events := [];
    var open: map<string, Node> := map[];
    var i := 0;
    while i < |plan| && env.reached(i)
      invariant i <= |plan| && Executed(plan, env, 0) == Executed(plan, env, i)
      invariant events == Scheduled(plan, env, i)
      invariant open == Outstanding(plan, env, i)
    {
      var a := plan[i];
      ScheduledNext(plan, env, i);
      if a.inject {
        var failed := env.injectFails(i);
        events := events + [Event(a.at, true, a.kind, a.node.id, failed)];
        if !failed {
          open := open[a.node.id := a.node];
        }
      } else {
        events := events + [Event(a.at, false, "", a.node.id, env.healFails(i))];
        open := open - {a.node.id};
      }
      i := i + 1;
    }
    events := HealAll(open, events, env);
    TimelineReports(events, plan, env);
  }

  // ----- what every timeline promises

  /** The timeline is a function of the plan and of what the environment did. */
  lemma TimelineDetermined(a: seq<Event>, b: seq<Event>, acts: seq<Action>, env: Env)
    requires TimelineOf(a, acts, env) && TimelineOf(b, acts, env)
    ensures a == b
  {
    var n := Executed(acts, env, 0);
    var open := Outstanding(acts, env, n);
    var x: seq<string> :| Ascending(x, open) && a == Scheduled(acts, env, n) + TailEvents(x, env);
    var y: seq<string> :| Ascending(y, open) && b == Scheduled(acts, env, n) + TailEvents(y, env);
    AscendingUnique(x, y, open);
  }

  ghost predicate HealedAfter(events: seq<Event>, i: nat) {
    exists j | i < j < |events| :: i < |events| && !events[j].inject && events[j].node == events[i].node
  }

  /** Whatever fails and wherever the run is cut short, every successful inject is followed by a heal
      event on the same node. */
  lemma InjectsHealed(events: seq<Event>, acts: seq<Action>, env: Env, i: nat)
    requires TimelineOf(events, acts, env)
    requires i < |events| && events[i].inject && !events[i].failed
    ensures HealedAfter(events, i)
  {
    var n := Executed(acts, env, 0);
    var open := Outstanding(acts, env, n);
    var ids: seq<string> :| Ascending(ids, open) && events == Scheduled(acts, env, n) + TailEvents(ids, env);
    var id := events[i].node;
    OutstandingExact(acts, env, n, id);
    if id in ids {
      var k :| 0 <= k < |ids| && ids[k] == id;
      assert events[n + k] == TailEvents(ids, env)[k];
    } else {
      assert !OpenSince(acts, env, n, i, id);
      var j :| i < j < n && !acts[j].inject && acts[j].node.id == id;
      assert events[j] == EventOf(acts, env, j);
    }
  }

  ghost predicate HealedInTail(events: seq<Event>, n: nat, id: string) {
    exists k | n <= k < |events| :: events[k].node == id
  }

  /** The clean-up heals exactly the nodes left open: in ascending id order, each once, and last. */
  lemma TailExact(events: seq<Event>, acts: seq<Action>, env: Env)
    requires TimelineOf(events, acts, env)
    ensures var n := Executed(acts, env, 0);
            && |events| >= n
            && (forall i | n <= i < |events| ::
                  && !events[i].inject && events[i].kind == ""
                  && events[i].at == env.tailAt(i - n) && events[i].failed == env.tailFails(i - n))
            && (forall i, j | n <= i < j < |events| ::
                  events[i].node != events[j].node && StringBelow(events[i].node, events[j].node))
            && (forall id :: HealedInTail(events, n, id) <==> Open(acts, env, n, id))
  {
    var n := Executed(acts, env, 0);
    var ids: seq<string> :|
      Ascending(ids, Outstanding(acts, env, n)) && events == Scheduled(acts, env, n) + TailEvents(ids, env);
    assert forall k | n <= k < |events| :: events[k] == TailEvents(ids, env)[k - n];
    forall id ensures HealedInTail(events, n, id) <==> id in ids {
      if id in ids {
        var k :| 0 <= k < |ids| && ids[k] == id;
        assert events[n + k].node == id;
      }
    }
    forall id ensures id in ids <==> Open(acts, env, n, id) {
      OutstandingExact(acts, env, n, id);
    }
    forall i, j | n <= i < j < |events|
      ensures events[i].node != events[j].node && StringBelow(events[i].node, events[j].node)
    {
      assert StringLeq()(ids[i - n], ids[j - n]);
    }
  }

  /** Action `j` heals the node `id`. */
  predicate Heals(acts: seq<Action>, j: nat, id: string) {
    j < |acts| && !acts[j].inject && acts[j].node.id == id
  }

  ghost predicate HealedWell(events: seq<Event>, i: nat) {
    exists j | i < j < |events| ::
      i < |events| && !events[j].inject && events[j].node == events[i].node && !events[j].failed
  }

  /** How many open nodes the clean-up heals before `id`. */
  ghost function Rank(open: map<string, Node>, id: string): nat {
    |Earlier(open, id)|
  }

  ghost function Earlier(open: map<string, Node>, id: string): set<string> {
    set x | x in open && x != id && StringBelow(x, id)
  }

  lemma BelowIsEarlier(ids: seq<string>, m: nat, k: nat)
    requires SortedBy(ids, StringLeq()) && m < |ids| && k < |ids| && ids[m] != ids[k] && StringBelow(ids[m], ids[k])
    ensures m < k
  {
    BelowTotal(ids[m], ids[k]);
  }

  lemma RankInOrder(ids: seq<string>, open: map<string, Node>, k: nat)
    requires Ascending(ids, open) && k < |ids|
    ensures Rank(open, ids[k]) == k
  {
    var front := ids[..k];
    forall x ensures x in front <==> x in Earlier(open, ids[k]) {
      if x in Earlier(open, ids[k]) {
        var m: nat :| m < |ids| && ids[m] == x;
        BelowIsEarlier(ids, m, k);
        assert front[m] == x;
      }
      if x in front {
        var m :| 0 <= m < k && ids[m] == x;
        assert ids[m] in ids && StringLeq()(ids[m], ids[k]);
      }
    }
    SameSize(front, Earlier(open, ids[k]));
  }

  /** The clean-up event of a node: there is one exactly when the node is open, and which controller
      call it reports depends on the nodes that come before it. */
  lemma CleanUpOf(events: seq<Event>, acts: seq<Action>, env: Env, id: string)
    requires TimelineOf(events, acts, env)
    ensures var n := Executed(acts, env, 0);
            var at := n + Rank(Outstanding(acts, env, n), id);
            && (forall k | n <= k < |events| && events[k].node == id ::
                  k == at && events[k].failed == env.tailFails(at - n))
            && (Open(acts, env, n, id) ==> at < |events| && events[at].node == id && !events[at].inject)
  {
    var n := Executed(acts, env, 0);
    var open := Outstanding(acts, env, n);
    var ids: seq<string> :| Ascending(ids, open) && events == Scheduled(acts, env, n) + TailEvents(ids, env);
    OutstandingExact(acts, env, n, id);
    TailEventOf(ids, open, env, id);
    assert forall k | n <= k < |events| :: events[k] == TailEvents(ids, env)[k - n];
  }

  lemma TailEventOf(ids: seq<string>, open: map<string, Node>, env: Env, id: string)
    requires Ascending(ids, open)
    ensures forall k | 0 <= k < |ids| && ids[k] == id :: k == Rank(open, id)
    ensures id in open ==> Rank(open, id) < |ids| && ids[Rank(open, id)] == id
  {
    forall k | 0 <= k < |ids| && ids[k] == id ensures k == Rank(open, id) {
      RankInOrder(ids, open, k);
    }
    if id in open {
      var k :| 0 <= k < |ids| && ids[k] == id;
    }
  }

  /** Exactly when no heal after a successful inject succeeds: every scheduled heal of the node that
      still ran failed, and if the node was open at the end, so did its turn in the clean-up. */
  lemma {:induction false} NeverHealedExactly(events: seq<Event>, acts: seq<Action>, env: Env, i: nat)
    requires TimelineOf(events, acts, env) && i < Executed(acts, env, 0) && acts[i].inject && !env.injectFails(i)
    ensures i < |events| && events[i].node == acts[i].node.id
    ensures var n, id := Executed(acts, env, 0), acts[i].node.id;
            !HealedWell(events, i) <==>
            && (forall j: nat | i < j < n && Heals(acts, j, id) :: env.healFails(j))
            && (Open(acts, env, n, id) ==> env.tailFails(Rank(Outstanding(acts, env, n), id)))
  {
    var n, id := Executed(acts, env, 0), acts[i].node.id;
    TailExact(events, acts, env);
    ScheduledEvents(events, acts, env);
    CleanUpOf(events, acts, env, id);
    if HealedWell(events, i) {
      var j :| i < j < |events| && !events[j].inject && events[j].node == events[i].node && !events[j].failed;
      assert j < n ==> Heals(acts, j, id);
      assert j >= n ==> HealedInTail(events, n, id);
    } else {
      forall j: nat | i < j < n && Heals(acts, j, id) ensures env.healFails(j) {
        assert events[j] == EventOf(acts, env, j);
      }
    }
  }

  /** Such runs exist: the one scheduled heal fails, and the clean-up does not come back to the node. */
  lemma FaultStaysUnhealed(node: Node) returns (acts: seq<Action>, env: Env, events: seq<Event>)
    ensures TimelineOf(events, acts, env) && SortedBy(acts, AtLeq())
    ensures |events| > 0 && events[0].inject && !events[0].failed && !HealedWell(events, 0)
  {
    acts := [Action(0, true, "kill", "", node), Action(1, false, "", "", node)];
    env := Env(_ => true, _ => false, _ => true, _ => 2, _ => false);
    events := Scheduled(acts, env, 2) + TailEvents([], env);
    assert Executed(acts, env, 2) == 2 && Executed(acts, env, 1) == 2 && Executed(acts, env, 0) == 2;
    var one := Outstanding(acts, env, 1);
    assert Outstanding(acts, env, 0) == map[] && one == map[node.id := node];
    assert Outstanding(acts, env, 2) == one - {node.id} == map[];
    assert Ascending([], Outstanding(acts, env, 2));
    assert events == Scheduled(acts, env, 2) && events[1] == EventOf(acts, env, 1);
  }

  lemma ScheduledEvents(events: seq<Event>, acts: seq<Action>, env: Env)
    requires TimelineOf(events, acts, env)
    ensures var n := Executed(acts, env, 0);
            |events| >= n && forall j | 0 <= j < n :: events[j] == EventOf(acts, env, j)
  {
  }

  /** A scheduled heal is never retried: unless the node is injected again afterwards, the clean-up
      holds no event for it, whether or not that heal succeeded. */
  lemma HealNotRetried(events: seq<Event>, acts: seq<Action>, env: Env, j: nat, id: string)
    requires TimelineOf(events, acts, env) && j < Executed(acts, env, 0) && Heals(acts, j, id)
    requires forall k | j < k < Executed(acts, env, 0) && acts[k].inject && acts[k].node.id == id :: env.injectFails(k)
    ensures !HealedInTail(events, Executed(acts, env, 0), id)
  {
    var n := Executed(acts, env, 0);
    TailExact(events, acts, env);
    forall i: nat ensures !OpenSince(acts, env, n, i, id) {
      NotOpen(acts, env, n, i, j, id);
    }
  }

  lemma NotOpen(acts: seq<Action>, env: Env, n: nat, i: nat, j: nat, id: string)
    requires j < n <= |acts| && Heals(acts, j, id)
    requires forall k | j < k < n && acts[k].inject && acts[k].node.id == id :: env.injectFails(k)
    ensures !OpenSince(acts, env, n, i, id)
  {
  }

  /** The clock never runs backwards, and a wait that was reached lies in the past. */
  ghost predicate MonotoneClock(acts: seq<Action>, env: Env) {
    && (forall k: nat, l: nat | k <= l :: env.tailAt(k) <= env.tailAt(l))
    && (forall i: nat, k: nat | i < Executed(acts, env, 0) :: acts[i].at <= env.tailAt(k))
  }

  /** Under such a clock the offsets of the timeline of any plan never decrease. */
  lemma {:induction false} OffsetsAscend(events: seq<Event>, acts: seq<Action>, env: Env)
    requires TimelineOf(events, acts, env) && SortedBy(acts, AtLeq()) && MonotoneClock(acts, env)
    ensures forall i, j | 0 <= i < j < |events| :: events[i].at <= events[j].at
  {
    var n := Executed(acts, env, 0);
    var ids: seq<string> :|
      Ascending(ids, Outstanding(acts, env, n)) && events == Scheduled(acts, env, n) + TailEvents(ids, env);
    forall i, j | 0 <= i < j < |events| ensures events[i].at <= events[j].at {
      if j < n {
        assert AtLeq()(acts[i], acts[j]);
      } else if i < n {
        assert events[j].at == env.tailAt(j - n);
      } else {
        assert events[i].at == env.tailAt(i - n) && events[j].at == env.tailAt(j - n);
      }
    }
  }
}

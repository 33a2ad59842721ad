/** The nemesis: planning a fault schedule and running it so that no fault outlives the run.
    Times are offsets from the run start. */
module Nemesis {
  import opened Arith
  import opened Domain
  import opened Sorting

  datatype Node = Node(id: string, control: string)

  datatype Fault = Fault(kind: string, target: string, params: string)

  datatype FaultSpec = FaultSpec(fault: Fault, at: int, duration: int, repeat: int)

  datatype Action = Action(at: int, inject: bool, kind: string, params: string, node: Node)

  // ----- the generator behind node selection (SplitMix64)

  const GAMMA: bv64 := 0x9E37_79B9_7F4A_7C15

  function Mix(z: bv64): bv64 {
    var a := (z ^ (z >> 30)) * 0xBF58_476D_1CE4_E5B9;
    var b := (a ^ (a >> 27)) * 0x94D0_49BB_1331_11EB;
    b ^ (b >> 31)
  }

  /** The value drawn below `n` from a state, and the state after; nothing is drawn without a range. */
  function Drawn(state: bv64, n: int): (int, bv64) {
    if n <= 0 then (0, state) else (Mix(state + GAMMA) as int % n, state + GAMMA)
  }

  class Prng {
    var state: bv64

    constructor (seed: bv64)
      ensures state == seed
    {
      state := seed;
    }

    /** A value in [0, n) that the state before the call decides; 0 when n is not positive. */
    method Intn(n: int) returns (k: int)
      modifies this
      ensures n > 0 ==> 0 <= k < n
      ensures (k, state) == Drawn(old(state), n)
    {
      if n <= 0 {
        return 0;
      }
      state := state + GAMMA;
      k := Mix(state) as int % n;
    }
  }

  // ----- occurrences

  /** One firing of a spec. */
  datatype Firing = Firing(at: int, spec: FaultSpec)

  /** A firing tagged with the position of its spec. */
  datatype Occ = Occ(idx: nat, f: Firing)

  /** The firings from `at` on: repeated while below a positive window, otherwise once. */
  function OccsFrom(sp: FaultSpec, idx: nat, at: int, window: int): seq<Occ>
    decreases window - at
  {
    if window > 0 && at >= window then []
    else if sp.repeat <= 0 || window <= 0 then [Occ(idx, Firing(at, sp))]
    else [Occ(idx, Firing(at, sp))] + OccsFrom(sp, idx, at + sp.repeat, window)
  }

  function OccsOf(sp: FaultSpec, idx: nat, window: int): seq<Occ> {
    OccsFrom(sp, idx, sp.at, window)
  }

  /** Exactly the firings At, At+Repeat, At+2*Repeat, ... below the window. */
  lemma {:induction false} OccsExact(sp: FaultSpec, idx: nat, at: int, window: int, k: nat)
    requires window > 0
    ensures var s := OccsFrom(sp, idx, at, window);
            && (k < |s| ==> s[k] == Occ(idx, Firing(at + k * sp.repeat, sp)))
            && (k < |s| <==> (k == 0 || sp.repeat > 0) && at + k * sp.repeat < window)
    decreases window - at
  {
    if at >= window {
      if sp.repeat > 0 {
        assert k * sp.repeat >= 0;
      }
    } else if sp.repeat > 0 && k > 0 {
      OccsExact(sp, idx, at + sp.repeat, window, k - 1);
      assert k * sp.repeat == sp.repeat + (k - 1) * sp.repeat;
    }
  }

  function AllOccs(specs: seq<FaultSpec>, window: int): seq<Occ> {
    if specs == [] then []
    else AllOccs(specs[..|specs| - 1], window) + OccsOf(specs[|specs| - 1], |specs| - 1, window)
  }

  function OccLeq(): (Occ, Occ) -> bool {
    (a: Occ, b: Occ) => a.f.at < b.f.at || (a.f.at == b.f.at && a.idx <= b.idx)
  }

  function Untag(occs: seq<Occ>): (fs: seq<Firing>)
    ensures |fs| == |occs|
  {
    seq(|occs|, i requires 0 <= i < |occs| => occs[i].f)
  }

  /** All firings in time order, ties by spec position. */
  function Firings(specs: seq<FaultSpec>, window: int): seq<Firing> {
    Untag(StableSort(AllOccs(specs, window), OccLeq()))
  }

  // ----- nodes

  function FindNode(nodes: seq<Node>, id: string): Node {
    if nodes == [] then Node(id, "") else if nodes[0].id == id then nodes[0] else FindNode(nodes[1..], id)
  }

  /** The node a fault hits and the generator state after it: only an untargeted fault draws. */
  function PickNode(nodes: seq<Node>, f: Fault, state: bv64): (Node, bv64) {
    if f.target != "" then (FindNode(nodes, f.target), state)
    else if nodes == [] then (Node("", ""), state)
    else (nodes[Mix(state + GAMMA) as int % |nodes|], state + GAMMA)
  }

  method Pick(nodes: seq<Node>, f: Fault, rng: Prng) returns (n: Node)
    modifies rng
    ensures (n, rng.state) == PickNode(nodes, f, old(rng.state))
  {
    if f.target != "" {
      var i := 0;
      while i < |nodes| && nodes[i].id != f.target
        invariant 0 <= i <= |nodes| && FindNode(nodes, f.target) == FindNode(nodes[i..], f.target)
      {
        assert nodes[i..][1..] == nodes[i + 1..];
        i := i + 1;
      }
      return if i < |nodes| then nodes[i] else Node(f.target, "");
    }
    if nodes == [] {
      return Node("", "");
    }
    var k := rng.Intn(|nodes|);
    n := nodes[k];
  }

  /** A firing with the node chosen for it. */
  datatype Choice = Choice(at: int, spec: FaultSpec, node: Node)

  function Choices(nodes: seq<Node>, fs: seq<Firing>, state: bv64): (cs: seq<Choice>)
    ensures |cs| == |fs|
  {
    if fs == [] then []
    else
      var (node, next) := PickNode(nodes, fs[0].spec.fault, state);
      [Choice(fs[0].at, fs[0].spec, node)] + Choices(nodes, fs[1..], next)
  }

  // ----- the plan

  function InjectOf(c: Choice): Action {
    Action(c.at, true, c.spec.fault.kind, c.spec.fault.params, c.node)
  }

  function HealOf(c: Choice): Action {
    Action(c.at + c.spec.duration, false, "", "", c.node)
  }

  /** A firing injects, and heals its node `duration` later when that is positive. */
  function ActionsOf(c: Choice): seq<Action> {
    [InjectOf(c)] + if c.spec.duration > 0 then [HealOf(c)] else []
  }

  function AllActions(cs: seq<Choice>): seq<Action> {
    if cs == [] then [] else ActionsOf(cs[0]) + AllActions(cs[1..])
  }

  function AtLeq(): (Action, Action) -> bool {
    (a: Action, b: Action) => a.at <= b.at
  }

  function PlanOf(nodes: seq<Node>, specs: seq<FaultSpec>, window: int, seed: bv64): seq<Action> {
    StableSort(AllActions(Choices(nodes, Firings(specs, window), seed)), AtLeq())
  }

  /** The unrolling loop for one spec. */
  method Unroll(sp: FaultSpec, idx: nat, window: int) returns (occs: seq<Occ>)
    ensures occs == OccsOf(sp, idx, window)
  {
    occs := [];
    var at := sp.at;
    var more := true;
    while more
      invariant more ==> OccsOf(sp, idx, window) == occs + OccsFrom(sp, idx, at, window)
      invariant !more ==> OccsOf(sp, idx, window) == occs
      decreases more, window - at
    {
      if window > 0 && at >= window {
        more := false;
      } else {
        occs := occs + [Occ(idx, Firing(at, sp))];
        if sp.repeat <= 0 || window <= 0 {
          more := false;
        } else {
          at := at + sp.repeat;
        }
      }
    }
  }

  lemma EmitStep(nodes: seq<Node>, f: Firing, rest: seq<Firing>, state: bv64, node: Node, next: bv64)
    requires (node, next) == PickNode(nodes, f.spec.fault, state)
    ensures AllActions(Choices(nodes, [f] + rest, state))
            == ActionsOf(Choice(f.at, f.spec, node)) + AllActions(Choices(nodes, rest, next))
  {
    assert ([f] + rest)[1..] == rest;
    var cs := Choices(nodes, rest, next);
    assert ([Choice(f.at, f.spec, node)] + cs)[1..] == cs;
  }

  /** Node selection and emission for the ordered firings. */
  method Emit(nodes: seq<Node>, fs: seq<Firing>, seed: bv64) returns (acts: seq<Action>)
    ensures acts == AllActions(Choices(nodes, fs, seed))
  {
    var rng := new Prng(seed);
    acts := [];
    for i := 0 to |fs|
      invariant AllActions(Choices(nodes, fs, seed)) == acts + AllActions(Choices(nodes, fs[i..], rng.state))
    {
      var f := fs[i];
      ghost var before := rng.state;
      var node := Pick(nodes, f.spec.fault, rng);
      EmitStep(nodes, f, fs[i + 1..], before, node, rng.state);
      assert fs[i..] == [f] + fs[i + 1..];
      var own := [Action(f.at, true, f.spec.fault.kind, f.spec.fault.params, node)];
      if f.spec.duration > 0 {
        own := own + [Action(f.at + f.spec.duration, false, "", "", node)];
      }
      assert own == ActionsOf(Choice(f.at, f.spec, node));
      acts := acts + own;
    }
  }

  /** `plan`. */
  method Plan(nodes: seq<Node>, specs: seq<FaultSpec>, window: int, seed: bv64) returns (acts: seq<Action>)
    ensures acts == PlanOf(nodes, specs, window, seed)
  {
    var occs: seq<Occ> := [];
    for i := 0 to |specs|
      invariant occs == AllOccs(specs[..i], window)
    {
      assert specs[..i + 1][..i] == specs[..i];
      var own := Unroll(specs[i], i, window);
      occs := occs + own;
    }
    assert specs[..|specs|] == specs;
    acts := Emit(nodes, Untag(StableSort(occs, OccLeq())), seed);
    acts := StableSort(acts, AtLeq());
  }

  // ----- what the plan contains

  predicate FiresFrom(sp: FaultSpec, at: int, window: int, t: int) {
    if window <= 0 then t == at
    else t < window && (t == at || (sp.repeat > 0 && t >= at && (t - at) % sp.repeat == 0))
  }

  /** `sp` is of kind `kind` and due at `t`: at At, and every Repeat after it below a positive window. */
  function DueAt(window: int, t: int, kind: string): FaultSpec -> bool {
    (sp: FaultSpec) => sp.fault.kind == kind && FiresFrom(sp, sp.at, window, t)
  }

  function InjectAt(t: int, kind: string): Action -> bool {
    (a: Action) => a.inject && a.at == t && a.kind == kind
  }

  function OccAt(t: int, kind: string): Occ -> bool {
    (o: Occ) => o.f.at == t && o.f.spec.fault.kind == kind
  }

  function ChoiceAt(t: int, kind: string): Choice -> bool {
    (c: Choice) => c.at == t && c.spec.fault.kind == kind
  }

  lemma FiresNext(sp: FaultSpec, at: int, window: int, t: int)
    requires 0 < window && at < window && sp.repeat > 0
    ensures FiresFrom(sp, at, window, t) <==> t == at || FiresFrom(sp, at + sp.repeat, window, t)
    ensures !FiresFrom(sp, at + sp.repeat, window, at)
  {
    if t > at {
      if t - at < sp.repeat {
        ModUnique(0, t - at, sp.repeat);
      } else {
        DivMod(t - at, sp.repeat);
        var q, w := (t - at) / sp.repeat, (t - at) % sp.repeat;
        assert (q - 1) * sp.repeat == q * sp.repeat - sp.repeat;
        ModUnique(q - 1, w, sp.repeat);
      }
    }
  }

  lemma {:induction false} OneFiring(sp: FaultSpec, idx: nat, at: int, window: int, t: int, kind: string)
    ensures |Filter(OccsFrom(sp, idx, at, window), OccAt(t, kind))|
            == if sp.fault.kind == kind && FiresFrom(sp, at, window, t) then 1 else 0
    decreases window - at
  {
    if window > 0 && at >= window {
    } else if sp.repeat <= 0 || window <= 0 {
    } else {
      FiresNext(sp, at, window, t);
      OneFiring(sp, idx, at + sp.repeat, window, t, kind);
      FilterCons(Occ(idx, Firing(at, sp)), OccsFrom(sp, idx, at + sp.repeat, window), OccAt(t, kind));
    }
  }

  lemma {:induction false} OccsCount(specs: seq<FaultSpec>, window: int, t: int, kind: string)
    ensures |Filter(AllOccs(specs, window), OccAt(t, kind))| == |Filter(specs, DueAt(window, t, kind))|
  {
    if specs != [] {
      var front, sp := specs[..|specs| - 1], specs[|specs| - 1];
      OccsCount(front, window, t, kind);
      OneFiring(sp, |front|, sp.at, window, t, kind);
      FilterConcat(AllOccs(front, window), OccsOf(sp, |front|, window), OccAt(t, kind));
      assert specs == front + [sp];
      FilterSnoc(front, sp, DueAt(window, t, kind));
    }
  }

  lemma {:induction false} ChoicesCount(nodes: seq<Node>, occs: seq<Occ>, state: bv64, t: int, kind: string)
    ensures |Filter(Choices(nodes, Untag(occs), state), ChoiceAt(t, kind))| == |Filter(occs, OccAt(t, kind))|
  {
    if occs != [] {
      assert Untag(occs)[1..] == Untag(occs[1..]);
      var next := PickNode(nodes, occs[0].f.spec.fault, state).1;
      ChoicesCount(nodes, occs[1..], next, t, kind);
      FilterCons(Choices(nodes, Untag(occs), state)[0], Choices(nodes, Untag(occs[1..]), next), ChoiceAt(t, kind));
    }
  }

  lemma {:induction false} ActionsCount(cs: seq<Choice>, t: int, kind: string)
    ensures |Filter(AllActions(cs), InjectAt(t, kind))| == |Filter(cs, ChoiceAt(t, kind))|
  {
    if cs != [] {
      var c := cs[0];
      ActionsCount(cs[1..], t, kind);
      FilterConcat(ActionsOf(c), AllActions(cs[1..]), InjectAt(t, kind));
      FilterCons(InjectOf(c), ActionsOf(c)[1..], InjectAt(t, kind));
      assert [InjectOf(c)] + ActionsOf(c)[1..] == ActionsOf(c);
    }
  }

  lemma Orders()
    ensures TotalPreorder(OccLeq()) && TotalPreorder(AtLeq())
  {
  }

  /** The plan is in time order, and at every offset it injects each kind of fault as many times
      as there are specs of that kind due at that offset: nothing is missed and nothing added. */
  lemma InjectsExact(nodes: seq<Node>, specs: seq<FaultSpec>, window: int, seed: bv64, t: int, kind: string)
    ensures SortedBy(PlanOf(nodes, specs, window, seed), AtLeq())
    ensures |Filter(PlanOf(nodes, specs, window, seed), InjectAt(t, kind))|
            == |Filter(specs, DueAt(window, t, kind))|
  {
    Orders();
    var occs := AllOccs(specs, window);
    var sorted := StableSort(occs, OccLeq());
    var cs := Choices(nodes, Untag(sorted), seed);
    OccsCount(specs, window, t, kind);
    FilterCountSorted(occs, OccLeq(), OccAt(t, kind));
    ChoicesCount(nodes, sorted, seed, t, kind);
    ActionsCount(cs, t, kind);
    FilterCountSorted(AllActions(cs), AtLeq(), InjectAt(t, kind));
    StableSortSorts(AllActions(cs), AtLeq());
  }

  lemma FilterCountSorted<T(!new)>(s: seq<T>, leq: (T, T) -> bool, p: T -> bool)
    requires TotalPreorder(leq)
    ensures |Filter(StableSort(s, leq), p)| == |Filter(s, p)|
  {
    StableSortSorts(s, leq);
    FilterPermutation(StableSort(s, leq), s, p);
    assert |multiset(Filter(s, p))| == |Filter(s, p)|;
    assert |multiset(Filter(StableSort(s, leq), p))| == |Filter(StableSort(s, leq), p)|;
  }

  // ----- each lasting inject has its heal

  lemma {:induction false} AllActionsHas(cs: seq<Choice>, k: nat)
    requires k < |cs|
    ensures InjectOf(cs[k]) in AllActions(cs)
    ensures cs[k].spec.duration > 0 ==> HealOf(cs[k]) in AllActions(cs)
  {
    var c := cs[0];
    if k > 0 {
      AllActionsHas(cs[1..], k - 1);
    } else {
      assert ActionsOf(c)[0] == InjectOf(c);
      if c.spec.duration > 0 {
        assert ActionsOf(c)[1] == HealOf(c);
      }
    }
  }

  function ToHeal(): Choice -> Action {
    (c: Choice) => HealOf(c)
  }

  lemma {:induction false} HealsAre(cs: seq<Choice>)
    ensures Filter(AllActions(cs), IsHeal()) == Map(ToHeal(), Filter(cs, Lasting()))
  {
    if cs != [] {
      var c := cs[0];
      HealsAre(cs[1..]);
      FilterConcat(ActionsOf(c), AllActions(cs[1..]), IsHeal());
      FilterCons(InjectOf(c), ActionsOf(c)[1..], IsHeal());
      assert [InjectOf(c)] + ActionsOf(c)[1..] == ActionsOf(c);
    }
  }

  function ToInject(): Choice -> Action {
    (c: Choice) => InjectOf(c)
  }

  lemma {:induction false} InjectsAre(cs: seq<Choice>)
    ensures Filter(AllActions(cs), IsInject()) == Map(ToInject(), cs)
  {
    if cs != [] {
      var c := cs[0];
      InjectsAre(cs[1..]);
      FilterConcat(ActionsOf(c), AllActions(cs[1..]), IsInject());
      FilterCons(InjectOf(c), ActionsOf(c)[1..], IsInject());
      assert [InjectOf(c)] + ActionsOf(c)[1..] == ActionsOf(c);
    }
  }

  function IsInject(): Action -> bool {
    (a: Action) => a.inject
  }

  function IsHeal(): Action -> bool {
    (a: Action) => !a.inject
  }

  function Lasting(): Choice -> bool {
    (c: Choice) => c.spec.duration > 0
  }

  lemma IndexInSorted<T(!new)>(s: seq<T>, leq: (T, T) -> bool, x: T) returns (i: nat)
    requires TotalPreorder(leq) && x in s
    ensures i < |StableSort(s, leq)| && StableSort(s, leq)[i] == x
  {
    StableSortSorts(s, leq);
    assert x in multiset(s);
    assert x in multiset(StableSort(s, leq));
    i :| 0 <= i < |StableSort(s, leq)| && StableSort(s, leq)[i] == x;
  }

  lemma LaterInPlan(plan: seq<Action>, i: nat, j: nat)
    requires SortedBy(plan, AtLeq()) && i < |plan| && j < |plan| && plan[i].at < plan[j].at
    ensures i < j
  {
  }

  /** Action i of the plan injects the fault of `c` at its time, on its node. */
  ghost predicate Injects(plan: seq<Action>, i: int, c: Choice) {
    && 0 <= i < |plan| && plan[i].inject
    && plan[i].at == c.at && plan[i].kind == c.spec.fault.kind && plan[i].params == c.spec.fault.params
    && plan[i].node == c.node
  }

  /** Action j of the plan heals the node of action i, `duration` later. */
  ghost predicate HealsLater(plan: seq<Action>, i: int, j: int, duration: int) {
    0 <= i < j < |plan| && !plan[j].inject && plan[j].at == plan[i].at + duration && plan[j].node == plan[i].node
  }

  ghost predicate InjectedAndHealed(plan: seq<Action>, i: int, c: Choice) {
    Injects(plan, i, c) && (c.spec.duration > 0 ==> exists j :: HealsLater(plan, i, j, c.spec.duration))
  }

  ghost predicate Carries(plan: seq<Action>, c: Choice) {
    exists i :: InjectedAndHealed(plan, i, c)
  }

  /** What an inject does, and what a choice calls for. */
  function Injected(): Action -> (int, string, string, Node) {
    (a: Action) => (a.at, a.kind, a.params, a.node)
  }

  function InjectDue(): Choice -> (int, string, string, Node) {
    (c: Choice) => (c.at, c.spec.fault.kind, c.spec.fault.params, c.node)
  }

  /** When and where a heal is, and when and where a choice calls for one. */
  function Healed(): Action -> (int, Node) {
    (a: Action) => (a.at, a.node)
  }

  function HealDue(): Choice -> (int, Node) {
    (c: Choice) => (c.at + c.spec.duration, c.node)
  }

  /** Every firing is injected, and healed later in the plan if its duration is positive: on the same
      node, exactly `duration` afterwards. */
  lemma HealFollows(nodes: seq<Node>, specs: seq<FaultSpec>, window: int, seed: bv64, k: nat)
    requires k < |Firings(specs, window)|
    ensures var plan := PlanOf(nodes, specs, window, seed);
            var c := Choices(nodes, Firings(specs, window), seed)[k];
            Carries(plan, c)
  {
    Orders();
    var cs := Choices(nodes, Firings(specs, window), seed);
    var acts := AllActions(cs);
    var plan := StableSort(acts, AtLeq());
    AllActionsHas(cs, k);
    StableSortSorts(acts, AtLeq());
    var i := IndexInSorted(acts, AtLeq(), InjectOf(cs[k]));
    assert Injects(plan, i, cs[k]);
    if cs[k].spec.duration > 0 {
      var j := IndexInSorted(acts, AtLeq(), HealOf(cs[k]));
      LaterInPlan(plan, i, j);
      assert HealsLater(plan, i, j, cs[k].spec.duration);
    }
    assert InjectedAndHealed(plan, i, cs[k]);
    assert Carries(plan, cs[k]);
  }

  lemma MapCompose<A, B, C>(f: B -> C, g: A -> B, h: A -> C, s: seq<A>)
    requires forall i | 0 <= i < |s| :: f(g(s[i])) == h(s[i])
    ensures Map(f, Map(g, s)) == Map(h, s)
  {
  }

  lemma SortedPart<T>(acts: seq<Action>, p: Action -> bool, f: Action -> T)
    ensures multiset(Map(f, Filter(StableSort(acts, AtLeq()), p))) == multiset(Map(f, Filter(acts, p)))
  {
    Orders();
    var sorted := StableSort(acts, AtLeq());
    StableSortSorts(acts, AtLeq());
    FilterPermutation(sorted, acts, p);
    MapPermutation(f, Filter(sorted, p), Filter(acts, p));
  }

  lemma InjectParts(cs: seq<Choice>)
    ensures Map(Injected(), Filter(AllActions(cs), IsInject())) == Map(InjectDue(), cs)
  {
    InjectsAre(cs);
    MapCompose(Injected(), ToInject(), InjectDue(), cs);
  }

  lemma HealParts(cs: seq<Choice>)
    ensures Map(Healed(), Filter(AllActions(cs), IsHeal())) == Map(HealDue(), Filter(cs, Lasting()))
  {
    HealsAre(cs);
    MapCompose(Healed(), ToHeal(), HealDue(), Filter(cs, Lasting()));
  }

  /** The plan holds nothing else: its injects are, as a multiset, what the choices call for, and its
      heals what the choices of positive duration call for. */
  lemma PlanExact(nodes: seq<Node>, specs: seq<FaultSpec>, window: int, seed: bv64)
    ensures var plan := PlanOf(nodes, specs, window, seed);
            var cs := Choices(nodes, Firings(specs, window), seed);
            && multiset(Map(Injected(), Filter(plan, IsInject()))) == multiset(Map(InjectDue(), cs))
            && multiset(Map(Healed(), Filter(plan, IsHeal()))) == multiset(Map(HealDue(), Filter(cs, Lasting())))
  {
    var cs := Choices(nodes, Firings(specs, window), seed);
    InjectParts(cs);
    HealParts(cs);
    SortedPart(AllActions(cs), IsInject(), Injected());
    SortedPart(AllActions(cs), IsHeal(), Healed());
  }

  function ActsAt(t: int): Action -> bool {
    (a: Action) => a.at == t
  }

  /** What the choices call for at offset t, in their order. */
  function DueActions(cs: seq<Choice>, t: int): seq<(bool, Node)> {
    if cs == [] then [] else
    (if cs[0].at == t then [(true, cs[0].node)] else []) +
    (if cs[0].spec.duration > 0 && cs[0].at + cs[0].spec.duration == t then [(false, cs[0].node)] else []) +
    DueActions(cs[1..], t)
  }

  function KindAndNode(): Action -> (bool, Node) {
    (a: Action) => (a.inject, a.node)
  }

  lemma {:induction false} SortSame(s: seq<Action>, t: int)
    requires forall a | a in s :: a.at == t
    ensures StableSort(s, AtLeq()) == s
  {
    if s != [] {
      assert forall a | a in s[1..] :: a in s;
      SortSame(s[1..], t);
      assert s[0] in s && (|s| > 1 ==> s[1] in s);
      assert s == [s[0]] + s[1..];
    }
  }

  lemma DueOne(c: Choice, t: int)
    ensures Map(KindAndNode(), Filter(ActionsOf(c), ActsAt(t))) ==
            (if c.at == t then [(true, c.node)] else []) +
            (if c.spec.duration > 0 && c.at + c.spec.duration == t then [(false, c.node)] else [])
  {
    var rest := if c.spec.duration > 0 then [HealOf(c)] else [];
    FilterCons(InjectOf(c), rest, ActsAt(t));
    if c.spec.duration > 0 {
      assert [HealOf(c)][1..] == [];
    }
  }

  lemma {:induction false} DueAll(cs: seq<Choice>, t: int)
    ensures Map(KindAndNode(), Filter(AllActions(cs), ActsAt(t))) == DueActions(cs, t)
  {
    if cs != [] {
      DueAll(cs[1..], t);
      DueOne(cs[0], t);
      FilterConcat(ActionsOf(cs[0]), AllActions(cs[1..]), ActsAt(t));
      MapConcat(KindAndNode(), Filter(ActionsOf(cs[0]), ActsAt(t)), Filter(AllActions(cs[1..]), ActsAt(t)));
    }
  }

  ghost predicate ByTime(cs: seq<Choice>) {
    forall i, j | 0 <= i < j < |cs| :: cs[i].at <= cs[j].at
  }

  lemma {:induction false} DueHealsFirst(cs: seq<Choice>, t: int)
    requires ByTime(cs)
    ensures forall i, j | 0 <= i < j < |DueActions(cs, t)| :: DueActions(cs, t)[i].0 ==> DueActions(cs, t)[j].0
    ensures (forall c | c in cs :: c.at >= t) ==> forall x | x in DueActions(cs, t) :: x.0
  {
    if cs != [] {
      var rest := cs[1..];
      DueHealsFirst(rest, t);
      assert forall c | c in rest :: c in cs && cs[0].at <= c.at;
      assert cs[0] in cs;
    }
  }

  lemma ChoicesByTime(nodes: seq<Node>, specs: seq<FaultSpec>, window: int, seed: bv64)
    ensures ByTime(Choices(nodes, Firings(specs, window), seed))
  {
    Orders();
    var occs := AllOccs(specs, window);
    StableSortSorts(occs, OccLeq());
    var fs, sorted := Firings(specs, window), StableSort(occs, OccLeq());
    var cs := Choices(nodes, fs, seed);
    forall i, j | 0 <= i < j < |cs| ensures cs[i].at <= cs[j].at {
      ChoiceAtIndex(nodes, fs, seed, i);
      ChoiceAtIndex(nodes, fs, seed, j);
      assert OccLeq()(sorted[i], sorted[j]);
    }
  }

  /** At one offset the plan acts in the order of the firings, and everything it heals there comes
      before anything it injects: no fault is undone at the moment it begins. */
  lemma TiesInOrder(nodes: seq<Node>, specs: seq<FaultSpec>, window: int, seed: bv64, t: int)
    ensures var plan := PlanOf(nodes, specs, window, seed);
            var now := Map(KindAndNode(), Filter(plan, ActsAt(t)));
            && now == DueActions(Choices(nodes, Firings(specs, window), seed), t)
            && forall i, j | 0 <= i < j < |now| :: now[i].0 ==> now[j].0
  {
    Orders();
    ChoicesByTime(nodes, specs, window, seed);
    DueHealsFirst(Choices(nodes, Firings(specs, window), seed), t);
    var acts := AllActions(Choices(nodes, Firings(specs, window), seed));
    FilterStableSort(acts, AtLeq(), ActsAt(t));
    forall a | a in Filter(acts, ActsAt(t)) ensures a.at == t {
      FilterIn(acts, ActsAt(t), a);
    }
    SortSame(Filter(acts, ActsAt(t)), t);
    DueAll(Choices(nodes, Firings(specs, window), seed), t);
  }

  /** `n` is the first node named `id`, or a bare one when no node is. */
  ghost predicate FirstNamed(nodes: seq<Node>, id: string, n: Node) {
    || (exists i :: 0 <= i < |nodes| && nodes[i] == n && n.id == id && forall j | 0 <= j < i :: nodes[j].id != id)
    || (n == Node(id, "") && forall m | m in nodes :: m.id != id)
  }

  /** The generator state after d draws. */
  function StateAfter(state: bv64, d: nat): bv64
    decreases d
  {
    if d == 0 then state else StateAfter(state + GAMMA, d - 1)
  }

  /** The node that a fault names, and any node when it names none. */
  ghost predicate Suits(nodes: seq<Node>, f: Fault, n: Node) {
    if f.target != "" then FirstNamed(nodes, f.target, n)
    else if nodes == [] then n == Node("", "") else n in nodes
  }

  lemma PickSuits(nodes: seq<Node>, f: Fault, state: bv64)
    ensures Suits(nodes, f, PickNode(nodes, f, state).0)
  {
    if f.target != "" {
      FindNodeFirst(nodes, f.target);
    }
  }

  lemma ChoicesNext(nodes: seq<Node>, fs: seq<Firing>, state: bv64, k: nat)
    requires k < |fs|
    ensures Choices(nodes, fs, state)[k] ==
            var (node, next) := PickNode(nodes, fs[0].spec.fault, state);
            if k == 0 then Choice(fs[0].at, fs[0].spec, node) else Choices(nodes, fs[1..], next)[k - 1]
  {
  }

  /** Each choice carries its firing and hits the node its fault names. */
  lemma {:induction false} ChoiceAtIndex(nodes: seq<Node>, fs: seq<Firing>, state: bv64, k: nat)
    requires k < |fs|
    ensures var c := Choices(nodes, fs, state)[k];
            c.at == fs[k].at && c.spec == fs[k].spec && Suits(nodes, c.spec.fault, c.node)
  {
    ChoicesNext(nodes, fs, state, k);
    if k == 0 {
      PickSuits(nodes, fs[0].spec.fault, state);
    } else {
      ChoiceAtIndex(nodes, fs[1..], PickNode(nodes, fs[0].spec.fault, state).1, k - 1);
    }
  }

  function DrawFrom(nodes: seq<Node>, state: bv64): Node
    requires nodes != []
  {
    nodes[Mix(state) as int % |nodes|]
  }

  /** How often the first k firings draw. */
  function DrawsBefore(fs: seq<Firing>, k: nat): nat
    requires k <= |fs|
  {
    |Filter(fs[..k], UntargetedFiring())|
  }

  lemma DrawsNext(fs: seq<Firing>, k: nat)
    requires 0 < k <= |fs|
    ensures DrawsBefore(fs, k) == DrawsBefore(fs[1..], k - 1) + if fs[0].spec.fault.target == "" then 1 else 0
  {
    assert fs[..k] == [fs[0]] + fs[1..][..k - 1];
    FilterCons(fs[0], fs[1..][..k - 1], UntargetedFiring());
  }

  lemma NextState(nodes: seq<Node>, f: Fault, state: bv64, d: nat)
    requires nodes != []
    ensures StateAfter(PickNode(nodes, f, state).1, d) == StateAfter(state, d + if f.target == "" then 1 else 0)
  {
  }

  /** Every choice is made in the state that the draws before it leave. */
  lemma {:induction false} PickedInTurn(nodes: seq<Node>, fs: seq<Firing>, state: bv64, k: nat)
    requires k < |fs| && nodes != []
    ensures Choices(nodes, fs, state)[k].node ==
            PickNode(nodes, fs[k].spec.fault, StateAfter(state, DrawsBefore(fs, k))).0
  {
    ChoicesNext(nodes, fs, state, k);
    if k == 0 {
      assert fs[..0] == [];
    } else {
      var next := PickNode(nodes, fs[0].spec.fault, state).1;
      PickedInTurn(nodes, fs[1..], next, k - 1);
      DrawsNext(fs, k);
      NextState(nodes, fs[0].spec.fault, state, DrawsBefore(fs[1..], k - 1));
    }
  }

  lemma {:induction false} OneMoreDraw(state: bv64, d: nat)
    ensures StateAfter(state, d) + GAMMA == StateAfter(state, d + 1)
    decreases d
  {
    if d > 0 {
      OneMoreDraw(state + GAMMA, d - 1);
    }
  }

  /** The d-th untargeted firing takes the node of the d-th draw, whatever targeted firings lie
      between. */
  lemma DrawAtIndex(nodes: seq<Node>, fs: seq<Firing>, state: bv64, k: nat)
    requires k < |fs| && nodes != [] && fs[k].spec.fault.target == ""
    ensures Choices(nodes, fs, state)[k].node == DrawFrom(nodes, StateAfter(state, DrawsBefore(fs, k) + 1))
  {
    PickedInTurn(nodes, fs, state, k);
    OneMoreDraw(state, DrawsBefore(fs, k));
  }

  lemma {:induction false} FindNodeFirst(nodes: seq<Node>, id: string)
    ensures FirstNamed(nodes, id, FindNode(nodes, id))
  {
    if nodes != [] {
      if nodes[0].id == id {
        assert nodes[0].id == id;
      } else {
        FindNodeFirst(nodes[1..], id);
        var n := FindNode(nodes[1..], id);
        if i :| 0 <= i < |nodes[1..]| && nodes[1..][i] == n && n.id == id &&
                forall j | 0 <= j < i :: nodes[1..][j].id != id {
          assert nodes[i + 1] == n;
          forall j | 0 <= j < i + 1 ensures nodes[j].id != id {
            assert j > 0 ==> nodes[j] == nodes[1..][j - 1];
          }
        } else {
          assert forall m | m in nodes :: m == nodes[0] || m in nodes[1..];
        }
      }
    }
  }

  /** The published SplitMix64 stream of seed 0 begins with this value. */
  lemma FirstOfSeedZero()
    ensures Mix(StateAfter(0, 1)) == 0xE220_A839_7B1D_CDAF
  {
    assert StateAfter(0, 1) == StateAfter(GAMMA, 0) == GAMMA;
  }

  // ----- the measure window

  function LatestEnd(specs: seq<FaultSpec>): (w: int)
    ensures w >= 0
    ensures forall sp | sp in specs :: sp.at + sp.duration <= w
    ensures w > 0 ==> exists sp | sp in specs :: sp.at + sp.duration == w
  {
    if specs == [] then 0
    else
      var front, sp := specs[..|specs| - 1], specs[|specs| - 1];
      assert specs == front + [sp];
      var w := LatestEnd(front);
      if sp.at + sp.duration > w then sp.at + sp.duration else w
  }

  /** The time to the deadline when there is one, never negative; else the latest end. */
  function WindowOf(deadline: Option<int>, specs: seq<FaultSpec>): int {
    match deadline
    case None => LatestEnd(specs)
    case Some(d) => if d > 0 then d else 0
  }

  /** `window`. */
  method Window(deadline: Option<int>, specs: seq<FaultSpec>) returns (w: int)
    ensures w == WindowOf(deadline, specs)
    ensures deadline.Some? ==> w == if deadline.value < 0 then 0 else deadline.value
    ensures deadline.None? ==> w >= 0 && (forall sp | sp in specs :: sp.at + sp.duration <= w) &&
                               (w > 0 ==> exists sp :: sp in specs && sp.at + sp.duration == w)
  {
    if deadline.Some? {
      return if deadline.value > 0 then deadline.value else 0;
    }
    w := 0;
    for i := 0 to |specs|
      invariant w == LatestEnd(specs[..i])
    {
      assert specs[..i + 1][..i] == specs[..i];
      var end := specs[i].at + specs[i].duration;
      if end > w {
        w := end;
      }
    }
    assert specs[..|specs|] == specs;
  }

  /** Without a deadline a spec is dropped exactly when some spec ends after the run start and no spec
      ends after this one starts; so every spec of positive duration is planned at least once. */
  lemma {:induction false} DroppedExactly(specs: seq<FaultSpec>, i: nat)
    requires i < |specs|
    ensures OccsOf(specs[i], i, LatestEnd(specs)) == []
            <==> && (exists sp | sp in specs :: sp.at + sp.duration > 0)
                 && (forall sp | sp in specs :: sp.at + sp.duration <= specs[i].at)
    ensures specs[i].duration > 0 ==> OccsOf(specs[i], i, LatestEnd(specs)) != []
  {
    assert specs[i] in specs;
  }

  /** A lone instantaneous fault is never injected when the run has no deadline. */
  lemma LoneInstantDropped(nodes: seq<Node>, fault: Fault, at: int, seed: bv64)
    requires at > 0
    ensures var specs := [FaultSpec(fault, at, 0, 0)];
            PlanOf(nodes, specs, LatestEnd(specs), seed) == []
  {
    var specs := [FaultSpec(fault, at, 0, 0)];
    assert specs[..0] == [];
    assert forall sp | sp in specs :: sp == specs[0];
    DroppedExactly(specs, 0);
    assert AllOccs(specs, LatestEnd(specs)) == [];
  }

  // ----- targeted faults do not disturb the others

  function Untargeted(): FaultSpec -> bool {
    (sp: FaultSpec) => sp.fault.target == ""
  }

  function UntargetedFiring(): Firing -> bool {
    (f: Firing) => f.spec.fault.target == ""
  }

  function UntargetedChoice(): Choice -> bool {
    (c: Choice) => c.spec.fault.target == ""
  }

  function FiringLeq(): (Firing, Firing) -> bool {
    (a: Firing, b: Firing) => a.at <= b.at
  }

  /** Only untargeted firings draw, so dropping the others leaves every draw as it was. */
  lemma {:induction false} FilterChoices(nodes: seq<Node>, fs: seq<Firing>, state: bv64)
    ensures Filter(Choices(nodes, fs, state), UntargetedChoice())
            == Choices(nodes, Filter(fs, UntargetedFiring()), state)
  {
    if fs != [] {
      var (node, next) := PickNode(nodes, fs[0].spec.fault, state);
      var c := Choice(fs[0].at, fs[0].spec, node);
      FilterChoices(nodes, fs[1..], next);
      FilterCons(c, Choices(nodes, fs[1..], next), UntargetedChoice());
      assert fs == [fs[0]] + fs[1..];
      FilterCons(fs[0], fs[1..], UntargetedFiring());
      var rest := Filter(fs[1..], UntargetedFiring());
      assert ([fs[0]] + rest)[1..] == rest;
    }
  }

  lemma UntagCons(o: Occ, s: seq<Occ>)
    ensures Untag([o] + s) == [o.f] + Untag(s)
  {
  }

  /** Inserting a firing of an earlier spec goes by time alone. */
  lemma {:induction false} InsertUntag(o: Occ, s: seq<Occ>)
    requires forall y | y in s :: o.idx <= y.idx
    ensures Untag(Insert(o, s, OccLeq())) == Insert(o.f, Untag(s), FiringLeq())
  {
    if s == [] {
    } else if OccLeq()(o, s[0]) {
      UntagCons(o, s);
    } else {
      assert s[0] in s && !FiringLeq()(o.f, s[0].f);
      InsertUntag(o, s[1..]);
      UntagCons(s[0], Insert(o, s[1..], OccLeq()));
      assert Untag(s)[1..] == Untag(s[1..]);
    }
  }

  ghost predicate InSpecOrder(s: seq<Occ>) {
    forall i, j | 0 <= i < j < |s| :: s[i].idx <= s[j].idx
  }

  lemma SortedAfter(x: Occ, s: seq<Occ>)
    requires InSpecOrder([x] + s)
    ensures forall y | y in StableSort(s, OccLeq()) :: x.idx <= y.idx
  {
    Orders();
    StableSortSorts(s, OccLeq());
    forall y | y in StableSort(s, OccLeq()) ensures x.idx <= y.idx {
      assert y in multiset(StableSort(s, OccLeq()));
      assert y in multiset(s);
      var k :| 0 <= k < |s| && s[k] == y;
      assert ([x] + s)[0] == x && ([x] + s)[k + 1] == y;
    }
  }

  /** Ties by spec position come for free: the order is the stable sort of the firings by time. */
  lemma {:induction false} SortUntag(s: seq<Occ>)
    requires InSpecOrder(s)
    ensures Untag(StableSort(s, OccLeq())) == StableSort(Untag(s), FiringLeq())
  {
    if s != [] {
      SortUntag(s[1..]);
      assert s == [s[0]] + s[1..];
      SortedAfter(s[0], s[1..]);
      InsertUntag(s[0], StableSort(s[1..], OccLeq()));
      assert Untag(s)[1..] == Untag(s[1..]);
    }
  }

  lemma {:induction false} OccsFromIdx(sp: FaultSpec, i: nat, j: nat, at: int, window: int)
    ensures Untag(OccsFrom(sp, i, at, window)) == Untag(OccsFrom(sp, j, at, window))
    ensures forall o | o in OccsFrom(sp, i, at, window) :: o.idx == i && o.f.spec == sp
    decreases window - at
  {
    if !(window > 0 && at >= window) && sp.repeat > 0 && window > 0 {
      OccsFromIdx(sp, i, j, at + sp.repeat, window);
      UntagCons(Occ(i, Firing(at, sp)), OccsFrom(sp, i, at + sp.repeat, window));
      UntagCons(Occ(j, Firing(at, sp)), OccsFrom(sp, j, at + sp.repeat, window));
    }
  }

  lemma {:induction false} AllOccsInOrder(specs: seq<FaultSpec>, window: int)
    ensures InSpecOrder(AllOccs(specs, window))
    ensures forall o | o in AllOccs(specs, window) :: o.idx < |specs|
  {
    if specs != [] {
      var front, sp := specs[..|specs| - 1], specs[|specs| - 1];
      AllOccsInOrder(front, window);
      OccsFromIdx(sp, |front|, |front|, sp.at, window);
      InSpecOrderConcat(AllOccs(front, window), OccsOf(sp, |front|, window), |front|);
    }
  }

  lemma InSpecOrderConcat(a: seq<Occ>, b: seq<Occ>, n: nat)
    requires InSpecOrder(a) && (forall o | o in a :: o.idx < n) && (forall o | o in b :: o.idx == n)
    ensures InSpecOrder(a + b) && forall o | o in a + b :: o.idx < n + 1
  {
    var s := a + b;
    forall i, j | 0 <= i < j < |s| ensures s[i].idx <= s[j].idx {
      if j >= |a| {
        assert s[j] in b;
        assert s[i] in a || s[i] in b;
      }
    }
  }

  lemma UntagConcat(a: seq<Occ>, b: seq<Occ>)
    ensures Untag(a + b) == Untag(a) + Untag(b)
  {
  }

  /** The firings of the untargeted specs are the untargeted firings. */
  lemma {:induction false} FilterAllOccs(specs: seq<FaultSpec>, window: int)
    ensures Filter(Untag(AllOccs(specs, window)), UntargetedFiring())
            == Untag(AllOccs(Filter(specs, Untargeted()), window))
  {
    if specs != [] {
      var front, sp := specs[..|specs| - 1], specs[|specs| - 1];
      assert specs == front + [sp];
      FilterAllOccs(front, window);
      FilterSnoc(front, sp, Untargeted());
      var kept := Filter(front, Untargeted());
      var own := OccsOf(sp, |front|, window);
      UntagConcat(AllOccs(front, window), own);
      FilterConcat(Untag(AllOccs(front, window)), Untag(own), UntargetedFiring());
      OccsFromIdx(sp, |front|, |kept|, sp.at, window);
      forall f | f in Untag(own) ensures f.spec == sp {
        var k :| 0 <= k < |own| && Untag(own)[k] == f;
        assert own[k] in own;
      }
      if sp.fault.target == "" {
        FilterAll(Untag(own), UntargetedFiring());
        assert (kept + [sp])[..|kept|] == kept;
        UntagConcat(AllOccs(kept, window), OccsOf(sp, |kept|, window));
      } else {
        FilterNone(Untag(own), UntargetedFiring());
        assert Filter(specs, Untargeted()) == kept;
      }
    }
  }

  lemma FiringsByTime(specs: seq<FaultSpec>, window: int)
    ensures Firings(specs, window) == StableSort(Untag(AllOccs(specs, window)), FiringLeq())
  {
    AllOccsInOrder(specs, window);
    SortUntag(AllOccs(specs, window));
  }

  /** For a fixed window and seed, the untargeted faults strike when and where they would with every
      targeted spec removed. */
  lemma UntargetedAlone(nodes: seq<Node>, specs: seq<FaultSpec>, window: int, seed: bv64)
    ensures Filter(Choices(nodes, Firings(specs, window), seed), UntargetedChoice())
            == Choices(nodes, Firings(Filter(specs, Untargeted()), window), seed)
  {
    FilterChoices(nodes, Firings(specs, window), seed);
    FiringsByTime(specs, window);
    FiringsByTime(Filter(specs, Untargeted()), window);
    FilterStableSort(Untag(AllOccs(specs, window)), FiringLeq(), UntargetedFiring());
    FilterAllOccs(specs, window);
  }

  /** Removing, inserting or moving targeted specs leaves all untargeted choices unchanged. */
  lemma NonInterference(nodes: seq<Node>, a: seq<FaultSpec>, b: seq<FaultSpec>, window: int, seed: bv64)
    requires Filter(a, Untargeted()) == Filter(b, Untargeted())
    ensures Filter(Choices(nodes, Firings(a, window), seed), UntargetedChoice())
            == Filter(Choices(nodes, Firings(b, window), seed), UntargetedChoice())
  {
    UntargetedAlone(nodes, a, window, seed);
    UntargetedAlone(nodes, b, window, seed);
  }
}

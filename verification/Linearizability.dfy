/** Linearizability of a store of independent read/write registers, and exactly when checking the
    keys one by one decides it. */
module Linearizability {
  import opened Sorting

  /** Who ran an operation, on which key, and from when to when. Clocks may run backwards, so
      nothing relates `call` and `ret`. */
  datatype Span = Span(client: int, key: int, call: int, ret: int)

  /** One completed operation. A write carries `value`; a read observed `output`. */
  datatype Op = Op(span: Span, write: bool, value: nat, output: nat)

  predicate WellFormed(s: seq<Op>) {
    forall x | x in s :: x.span.call <= x.span.ret
  }

  // ----- the sequential specifications

  /** Step of the single-register model: a write always succeeds, a read must see the state. */
  function RegisterStep(state: nat, op: Op): (bool, nat) {
    if op.write then (true, op.value) else (op.output == state, state)
  }

  predicate RegisterLegal(s: seq<Op>, state: nat) {
    s == [] ||
    var (ok, next) := RegisterStep(state, s[0]);
    ok && RegisterLegal(s[1..], next)
  }

  /** A store of registers, each 0 until first written. */
  function Lookup(store: map<int, nat>, key: int): nat {
    if key in store then store[key] else 0
  }

  predicate StoreLegal(s: seq<Op>, store: map<int, nat>) {
    s == [] ||
    if s[0].write then StoreLegal(s[1..], store[s[0].span.key := s[0].value])
    else s[0].output == Lookup(store, s[0].span.key) && StoreLegal(s[1..], store)
  }

  // ----- linearizability

  /** `x` returned before `y` was called. */
  predicate Before(x: Span, y: Span) {
    x.ret < y.call
  }

  function MayPrecede(): (Op, Op) -> bool {
    (x: Op, y: Op) => !Before(y.span, x.span)
  }

  /** `order` arranges the operations `ops` and never contradicts real time. */
  ghost predicate Arranges(order: seq<Op>, ops: seq<Op>) {
    multiset(order) == multiset(ops) && SortedBy(order, MayPrecede())
  }

  ghost predicate RegisterLinearizable(ops: seq<Op>) {
    exists order :: Arranges(order, ops) && RegisterLegal(order, 0)
  }

  ghost predicate StoreLinearizable(ops: seq<Op>) {
    exists order :: Arranges(order, ops) && StoreLegal(order, map[])
  }

  function HasKey(key: int): Op -> bool {
    (x: Op) => x.span.key == key
  }

  function OnKey(s: seq<Op>, key: int): seq<Op> {
    Filter(s, HasKey(key))
  }

  ghost predicate KeysLinearizable(ops: seq<Op>) {
    forall key :: RegisterLinearizable(OnKey(ops, key))
  }

  // ----- a store history is legal exactly when each key's part is

  lemma OnKeyCons(s: seq<Op>, key: int)
    requires s != []
    ensures OnKey(s, key) == if s[0].span.key == key then [s[0]] + OnKey(s[1..], key) else OnKey(s[1..], key)
  {
    FilterCons(s[0], s[1..], HasKey(key));
    assert [s[0]] + s[1..] == s;
  }

  lemma RegisterLegalCons(x: Op, s: seq<Op>, state: nat)
    ensures RegisterLegal([x] + s, state) <==> RegisterStep(state, x).0 && RegisterLegal(s, RegisterStep(state, x).1)
  {
    assert ([x] + s)[1..] == s;
  }

  lemma {:induction false} StoreLegalByKey(s: seq<Op>, store: map<int, nat>)
    ensures StoreLegal(s, store) <==> forall key :: RegisterLegal(OnKey(s, key), Lookup(store, key))
  {
    if s != [] {
      var x, t := s[0], s[1..];
      var after := if x.write then store[x.span.key := x.value] else store;
      StoreLegalByKey(t, after);
      forall key
        ensures RegisterLegal(OnKey(s, key), Lookup(store, key)) <==>
                (key == x.span.key ==> RegisterStep(Lookup(store, key), x).0)
                && RegisterLegal(OnKey(t, key), Lookup(after, key))
      {
        OnKeyCons(s, key);
        RegisterLegalCons(x, OnKey(t, key), Lookup(store, key));
      }
      if forall key :: RegisterLegal(OnKey(s, key), Lookup(store, key)) {
        assert RegisterLegal(OnKey(s, x.span.key), Lookup(store, x.span.key));
      }
    }
  }

  /** One direction of locality: project the global order onto the key. */
  lemma StoreImpliesKey(ops: seq<Op>, key: int)
    requires StoreLinearizable(ops)
    ensures RegisterLinearizable(OnKey(ops, key))
  {
    var order: seq<Op> :| Arranges(order, ops) && StoreLegal(order, map[]);
    var part := OnKey(order, key);
    FilterPermutation(order, ops, HasKey(key));
    FilterSorted(order, HasKey(key), MayPrecede());
    assert Arranges(part, OnKey(ops, key));
    StoreLegalByKey(order, map[]);
    assert RegisterLegal(part, Lookup(map[], key));
  }

  // ----- the condition: it speaks of spans alone

  function ToSpan(): Op -> Span {
    (x: Op) => x.span
  }

  function Spans(s: seq<Op>): seq<Span> {
    Map(ToSpan(), s)
  }

  function SpanMayPrecede(): (Span, Span) -> bool {
    (x: Span, y: Span) => !Before(y, x)
  }

  function SpanHasKey(key: int): Span -> bool {
    (x: Span) => x.key == key
  }

  ghost predicate SpansArrange(order: seq<Span>, spans: seq<Span>) {
    multiset(order) == multiset(spans) && SortedBy(order, SpanMayPrecede())
  }

  ghost predicate Precedes(order: seq<Span>, z: Span, w: Span) {
    forall i, j | 0 <= i < |order| && 0 <= j < |order| && order[i] == z && order[j] == w :: i < j
  }

  /** `z` is not `w` and stands before it in every real-time arrangement of `spans`. */
  ghost predicate AlwaysBefore(spans: seq<Span>, z: Span, w: Span) {
    z != w && forall order | SpansArrange(order, spans) :: Precedes(order, z, w)
  }

  /** Whenever an operation on another key lies after `z` and before `w`, their own key already
      puts `z` before `w`. */
  ghost predicate Composable(spans: seq<Span>) {
    forall z, y, w | z in spans && y in spans && w in spans && z.key == w.key != y.key
                     && Before(z, y) && Before(y, w) ::
      AlwaysBefore(Filter(spans, SpanHasKey(z.key)), z, w)
  }

  /** Every key, by itself, can be put in an order that respects real time. */
  ghost predicate KeysArrangeable(spans: seq<Span>) {
    forall key :: Arrangeable(Filter(spans, SpanHasKey(key)))
  }

  ghost predicate Arrangeable(spans: seq<Span>) {
    exists order :: SpansArrange(order, spans)
  }

  lemma SpansOnKey(s: seq<Op>, key: int)
    ensures Filter(Spans(s), SpanHasKey(key)) == Spans(OnKey(s, key))
  {
    MapFilter(ToSpan(), s, HasKey(key), SpanHasKey(key));
  }

  lemma SpansOfOrder(order: seq<Op>, ops: seq<Op>)
    requires Arranges(order, ops)
    ensures SpansArrange(Spans(order), Spans(ops))
  {
    MapPermutation(ToSpan(), order, ops);
    forall i, j | 0 <= i < j < |order| ensures SpanMayPrecede()(Spans(order)[i], Spans(order)[j]) {
      assert MayPrecede()(order[i], order[j]);
    }
  }

  /** Intervals that never run backwards are composable. */
  lemma {:induction false} WellFormedComposable(ops: seq<Op>)
    requires WellFormed(ops)
    ensures Composable(Spans(ops))
  {
    var spans := Spans(ops);
    forall z | z in spans ensures z.call <= z.ret {
      var i :| 0 <= i < |spans| && spans[i] == z;
      assert ops[i] in ops;
    }
    forall z, y, w | z in spans && y in spans && w in spans && z.key == w.key != y.key && Before(z, y) && Before(y, w)
      ensures AlwaysBefore(Filter(spans, SpanHasKey(z.key)), z, w)
    {
      EarlierFirst(Filter(spans, SpanHasKey(z.key)), z, w);
    }
  }

  lemma EarlierFirst(spans: seq<Span>, z: Span, w: Span)
    requires Before(z, w) && z != w
    ensures AlwaysBefore(spans, z, w)
  {
    forall order | SpansArrange(order, spans) ensures Precedes(order, z, w) {
    }
  }

  // ----- weaving: key by key orders of composable operations make one order

  /** No operation on another key lies after a later and before an earlier (or the same) one. */
  ghost predicate Uncrossed(part: seq<Op>, y: Op) {
    forall i, j | 0 <= i <= j < |part| :: !(Before(part[j].span, y.span) && Before(y.span, part[i].span))
  }

  ghost predicate Weavable(s: seq<Op>) {
    && (forall key :: SortedBy(OnKey(s, key), MayPrecede()))
    && (forall key, y | y in s && y.span.key != key :: Uncrossed(OnKey(s, key), y))
  }

  /** The first operation of `key` in `s`, and what is left without it. */
  lemma {:induction false} HeadSplit(s: seq<Op>, key: int) returns (u: seq<Op>, h: Op, v: seq<Op>)
    requires OnKey(s, key) != []
    ensures s == u + [h] + v && h.span.key == key && OnKey(u, key) == [] && h == OnKey(s, key)[0]
  {
    if s[0].span.key == key {
      u, h, v := [], s[0], s[1..];
    } else {
      u, h, v := HeadSplit(s[1..], key);
      FilterCons(s[0], u, HasKey(key));
      u := [s[0]] + u;
    }
  }

  lemma WithoutHead(u: seq<Op>, h: Op, v: seq<Op>, key: int)
    requires OnKey(u, h.span.key) == []
    ensures OnKey(u + [h] + v, key) == (if key == h.span.key then [h] else []) + OnKey(u + v, key)
  {
    FilterConcat(u + [h], v, HasKey(key));
    FilterSnoc(u, h, HasKey(key));
    FilterConcat(u, v, HasKey(key));
  }

  lemma InOnKey(s: seq<Op>, x: Op) returns (i: nat)
    requires x in s
    ensures i < |OnKey(s, x.span.key)| && OnKey(s, x.span.key)[i] == x
  {
    FilterIn(s, HasKey(x.span.key), x);
    i :| 0 <= i < |OnKey(s, x.span.key)| && OnKey(s, x.span.key)[i] == x;
  }

  lemma {:induction false} FirstToReturn(s: seq<Op>) returns (m: Op)
    requires s != []
    ensures m in s && forall x | x in s :: m.span.ret <= x.span.ret
  {
    m := s[0];
    if |s| > 1 {
      var rest := FirstToReturn(s[1..]);
      assert s == [s[0]] + s[1..];
      if rest.span.ret < m.span.ret {
        m := rest;
      }
    }
  }

  /** No operation on another key has to stand before the first one on `key`. */
  ghost predicate Free(s: seq<Op>, key: int) {
    OnKey(s, key) != [] && forall x | x in s && x.span.key != key :: !Before(x.span, OnKey(s, key)[0].span)
  }

  /** Some key is always free: the key of the operation that returned first, or the key of
      whatever has to stand before it. */
  lemma SomeKeyFree(s: seq<Op>) returns (key: int)
    requires Weavable(s) && s != []
    ensures Free(s, key)
  {
    var m := FirstToReturn(s);
    key := m.span.key;
    var i := InOnKey(s, m);
    if b: Op :| b in s && b.span.key != key && Before(b.span, OnKey(s, key)[0].span) {
      assert OnKey(s, key)[0] == m;
      var j := InOnKey(s, b);
      BlockerFree(s, m, b.span.key, j);
      key := b.span.key;
    }
  }

  lemma BlockerFree(s: seq<Op>, m: Op, key: int, j: nat)
    requires Weavable(s) && m in s && m.span.key != key && j < |OnKey(s, key)|
    requires forall x | x in s :: m.span.ret <= x.span.ret
    requires Before(OnKey(s, key)[j].span, m.span)
    ensures Free(s, key)
  {
    assert Uncrossed(OnKey(s, key), m);
  }

  lemma UncrossedRest(part: seq<Op>, rest: seq<Op>, y: Op)
    requires Uncrossed(part, y) && OnlyRest(part, rest)
    ensures Uncrossed(rest, y)
  {
  }

  lemma WeavableWithout(u: seq<Op>, h: Op, v: seq<Op>)
    requires Weavable(u + [h] + v) && OnKey(u, h.span.key) == []
    ensures Weavable(u + v)
  {
    var s, r := u + [h] + v, u + v;
    forall key ensures OnlyRest(OnKey(s, key), OnKey(r, key)) {
      WithoutHead(u, h, v, key);
      assert [] + OnKey(r, key) == OnKey(r, key) && ([h] + OnKey(r, key))[1..] == OnKey(r, key);
    }
    forall key ensures SortedBy(OnKey(r, key), MayPrecede()) {
      assert OnlyRest(OnKey(s, key), OnKey(r, key)) && SortedBy(OnKey(s, key), MayPrecede());
    }
    forall key, y | y in r && y.span.key != key ensures Uncrossed(OnKey(r, key), y) {
      assert y in s && Uncrossed(OnKey(s, key), y) && OnlyRest(OnKey(s, key), OnKey(r, key));
      UncrossedRest(OnKey(s, key), OnKey(r, key), y);
    }
  }

  ghost predicate OnlyRest(part: seq<Op>, rest: seq<Op>) {
    rest == part || (part != [] && rest == part[1..])
  }

  /** One real-time order in which every key keeps its own. */
  lemma {:induction false} Weave(s: seq<Op>) returns (order: seq<Op>)
    requires Weavable(s)
    ensures Arranges(order, s) && forall key :: OnKey(order, key) == OnKey(s, key)
    decreases |s|
  {
    if s == [] {
      order := [];
    } else {
      var key := SomeKeyFree(s);
      var u, h, v := HeadSplit(s, key);
      WeavableWithout(u, h, v);
      var rest := Weave(u + v);
      order := [h] + rest;
      forall k ensures OnKey(order, k) == OnKey(s, k) {
        WithoutHead(u, h, v, k);
        FilterCons(h, rest, HasKey(k));
      }
      WeaveArranges(s, u, h, v, rest);
    }
  }

  lemma WeaveArranges(s: seq<Op>, u: seq<Op>, h: Op, v: seq<Op>, rest: seq<Op>)
    requires s == u + [h] + v && OnKey(u, h.span.key) == [] && Weavable(s) && Free(s, h.span.key)
    requires Arranges(rest, u + v)
    ensures Arranges([h] + rest, s)
  {
    forall j | 0 <= j < |rest| ensures MayPrecede()(h, rest[j]) {
      assert rest[j] in multiset(u + v);
      HeadFirst(s, u, h, v, rest[j]);
    }
    MovedToFront(u, h, v, rest);
    SortedCons(h, rest, MayPrecede());
  }

  lemma HeadFirst(s: seq<Op>, u: seq<Op>, h: Op, v: seq<Op>, x: Op)
    requires s == u + [h] + v && OnKey(u, h.span.key) == [] && Weavable(s) && Free(s, h.span.key) && x in u + v
    ensures MayPrecede()(h, x)
  {
    var key := h.span.key;
    WithoutHead(u, h, v, key);
    assert x in s;
    if x.span.key == key {
      var i := InOnKey(u + v, x);
      assert MayPrecede()(OnKey(s, key)[0], OnKey(s, key)[i + 1]);
    }
  }

  /** The operations of `ops` on `keys`, key after key, each key legal and in real-time order. */
  ghost predicate Stacked(s: seq<Op>, ops: seq<Op>, keys: set<int>) {
    forall key ::
      if key in keys then Arranges(OnKey(s, key), OnKey(ops, key)) && RegisterLegal(OnKey(s, key), 0)
      else OnKey(s, key) == []
  }

  lemma OrderOnKey(order: seq<Op>, ops: seq<Op>, own: int, key: int)
    requires multiset(order) == multiset(OnKey(ops, own))
    ensures OnKey(order, key) == if key == own then order else []
  {
    forall x | x in order ensures x.span.key == own {
      assert x in multiset(OnKey(ops, own));
      FilterIn(ops, HasKey(own), x);
    }
    if key == own {
      FilterAll(order, HasKey(key));
    } else {
      FilterNone(order, HasKey(key));
    }
  }

  lemma {:induction false} Stack(ops: seq<Op>, keys: set<int>) returns (s: seq<Op>)
    requires KeysLinearizable(ops)
    ensures Stacked(s, ops, keys)
  {
    if own: int :| own in keys {
      var others := keys - {own};
      var rest := Stack(ops, others);
      assert RegisterLinearizable(OnKey(ops, own));
      var order: seq<Op> :| Arranges(order, OnKey(ops, own)) && RegisterLegal(order, 0);
      s := rest + order;
      forall key ensures OnKey(s, key) == if key == own then order else OnKey(rest, key) {
        FilterConcat(rest, order, HasKey(key));
        OrderOnKey(order, ops, own, key);
      }
    } else {
      s := [];
    }
  }

  lemma StackedHasAllOps(s: seq<Op>, ops: seq<Op>, keys: set<int>)
    requires Stacked(s, ops, keys) && forall x | x in ops :: x.span.key in keys
    ensures multiset(s) == multiset(ops)
  {
    forall x: Op ensures multiset(s)[x] == multiset(ops)[x] {
      FilterMultiset(s, HasKey(x.span.key), x);
      FilterMultiset(ops, HasKey(x.span.key), x);
      if x.span.key !in keys {
        assert x !in ops;
      }
    }
  }

  lemma StackedWeavable(s: seq<Op>, ops: seq<Op>, keys: set<int>)
    requires Stacked(s, ops, keys) && multiset(s) == multiset(ops) && Composable(Spans(ops))
    ensures Weavable(s)
  {
    forall key, y | y in s && y.span.key != key ensures Uncrossed(OnKey(s, key), y) {
      assert y in multiset(ops);
      FilterPermutation(s, ops, HasKey(key));
      if key in keys {
        NotCrossed(OnKey(s, key), ops, key, y);
      }
    }
  }

  lemma SpanIn(ops: seq<Op>, x: Op)
    requires x in ops
    ensures x.span in Spans(ops)
  {
    var i :| 0 <= i < |ops| && ops[i] == x;
    assert Spans(ops)[i] == x.span;
  }

  lemma NotAlwaysBefore(spans: seq<Span>, order: seq<Span>, i: nat, j: nat)
    requires SpansArrange(order, spans) && i <= j < |order|
    ensures !AlwaysBefore(spans, order[j], order[i])
  {
  }

  lemma NotCrossed(part: seq<Op>, ops: seq<Op>, key: int, y: Op)
    requires Arranges(part, OnKey(ops, key)) && Composable(Spans(ops)) && y in ops && y.span.key != key
    ensures Uncrossed(part, y)
  {
    var spans := Spans(ops);
    SpansOfOrder(part, OnKey(ops, key));
    SpansOnKey(ops, key);
    SpanIn(ops, y);
    forall i, j | 0 <= i <= j < |part| ensures !(Before(part[j].span, y.span) && Before(y.span, part[i].span)) {
      var z, w := part[j], part[i];
      assert z in multiset(part) && w in multiset(part);
      FilterIn(ops, HasKey(key), z);
      FilterIn(ops, HasKey(key), w);
      SpanIn(ops, z);
      SpanIn(ops, w);
      NotAlwaysBefore(Filter(spans, SpanHasKey(key)), Spans(part), i, j);
    }
  }

  /** The other direction of locality: weave the keys' orders together. */
  lemma KeysImplyStore(ops: seq<Op>)
    requires Composable(Spans(ops)) && KeysLinearizable(ops)
    ensures StoreLinearizable(ops)
  {
    var keys := set x | x in ops :: x.span.key;
    var s := Stack(ops, keys);
    StackedHasAllOps(s, ops, keys);
    StackedWeavable(s, ops, keys);
    var order := Weave(s);
    forall key ensures RegisterLegal(OnKey(order, key), Lookup(map[], key)) {
    }
    StoreLegalByKey(order, map[]);
    assert Arranges(order, ops);
  }

  /** Locality. */
  lemma Locality(ops: seq<Op>)
    requires Composable(Spans(ops))
    ensures StoreLinearizable(ops) <==> KeysLinearizable(ops)
  {
    if StoreLinearizable(ops) {
      forall key ensures RegisterLinearizable(OnKey(ops, key)) {
        StoreImpliesKey(ops, key);
      }
    }
    if KeysLinearizable(ops) {
      KeysImplyStore(ops);
    }
  }

  // ----- outside the condition the keys mislead

  function ReadOf(value: nat): Span -> Op {
    (x: Span) => Op(x, false, 0, value)
  }

  /** Reads over the given spans, all observing `value`. */
  function Reads(spans: seq<Span>, value: nat): seq<Op> {
    Map(ReadOf(value), spans)
  }

  lemma SpansOfReads(spans: seq<Span>, value: nat)
    ensures Spans(Reads(spans, value)) == spans
  {
  }

  lemma {:induction false} ReadsLegal(spans: seq<Span>, value: nat, rest: seq<Op>)
    requires RegisterLegal(rest, value)
    ensures RegisterLegal(Reads(spans, value) + rest, value)
  {
    if spans == [] {
      assert Reads(spans, value) + rest == rest;
    } else {
      ReadsLegal(spans[1..], value, rest);
      assert Reads(spans, value) + rest == [ReadOf(value)(spans[0])] + (Reads(spans[1..], value) + rest);
      RegisterLegalCons(ReadOf(value)(spans[0]), Reads(spans[1..], value) + rest, value);
    }
  }

  /** An order of operations respects real time when the order of their spans does. */
  lemma SortedBySpans(order: seq<Op>)
    requires SortedBy(Spans(order), SpanMayPrecede())
    ensures SortedBy(order, MayPrecede())
  {
    forall i, j | 0 <= i < j < |order| ensures MayPrecede()(order[i], order[j]) {
      assert SpanMayPrecede()(Spans(order)[i], Spans(order)[j]);
    }
  }

  lemma ReadsLinearizable(spans: seq<Span>, order: seq<Span>)
    requires SpansArrange(order, spans)
    ensures RegisterLinearizable(Reads(spans, 0))
  {
    MapPermutation(ReadOf(0), order, spans);
    SpansOfReads(order, 0);
    SortedBySpans(Reads(order, 0));
    ReadsLegal(order, 0, []);
    assert Reads(order, 0) + [] == Reads(order, 0);
    assert Arranges(Reads(order, 0), Reads(spans, 0));
  }

  lemma PermutedLinearizable(a: seq<Op>, b: seq<Op>)
    requires multiset(a) == multiset(b) && RegisterLinearizable(a)
    ensures RegisterLinearizable(b)
  {
    var order: seq<Op> :| Arranges(order, a) && RegisterLegal(order, 0);
    assert Arranges(order, b);
  }

  lemma ReadsOnKey(spans: seq<Span>, key: int)
    ensures OnKey(Reads(spans, 0), key) == Reads(Filter(spans, SpanHasKey(key)), 0)
  {
    MapFilter(ReadOf(0), spans, SpanHasKey(key), HasKey(key));
  }

  lemma Clash(order: seq<Op>, i: nat, j: nat)
    requires i < |order| && j < |order| && i != j
    requires Before(order[i].span, order[j].span) && Before(order[j].span, order[i].span)
    ensures !SortedBy(order, MayPrecede())
  {
    if i < j {
      assert !MayPrecede()(order[i], order[j]);
    } else {
      assert !MayPrecede()(order[j], order[i]);
    }
  }

  /** Two operations that each returned before the other was called leave no order at all. */
  lemma NoOrder(ops: seq<Op>, order: seq<Op>, z: Span, y: Span)
    requires z in Spans(ops) && y in Spans(ops) && z != y && Before(z, y) && Before(y, z)
    requires multiset(order) == multiset(ops)
    ensures !SortedBy(order, MayPrecede())
  {
    MapPermutation(ToSpan(), order, ops);
    assert z in multiset(Spans(order)) && y in multiset(Spans(order));
    var i: nat :| i < |order| && Spans(order)[i] == z;
    var j: nat :| j < |order| && Spans(order)[j] == y;
    Clash(order, i, j);
  }

  /** With a forced contradiction between two keys, all reads of 0 mislead. */
  lemma MisleadByConflict(spans: seq<Span>, z: Span, y: Span) returns (ops: seq<Op>)
    requires z in spans && y in spans && z.key != y.key && Before(z, y) && Before(y, z) && KeysArrangeable(spans)
    ensures Spans(ops) == spans && KeysLinearizable(ops) && !StoreLinearizable(ops)
  {
    ops := Reads(spans, 0);
    SpansOfReads(spans, 0);
    forall key ensures RegisterLinearizable(OnKey(ops, key)) {
      ReadsOnKey(spans, key);
      assert Arrangeable(Filter(spans, SpanHasKey(key)));
      var order :| SpansArrange(order, Filter(spans, SpanHasKey(key)));
      ReadsLinearizable(Filter(spans, SpanHasKey(key)), order);
    }
    forall order: seq<Op> | multiset(order) == multiset(ops) ensures !SortedBy(order, MayPrecede()) {
      NoOrder(ops, order, z, y);
    }
  }

  /** Reads of 0, one write of 1 at `cut`, reads of 1: whoever reads 1 comes after the write. */
  function Marked(order: seq<Span>, cut: nat): seq<Op>
    requires cut < |order|
  {
    Reads(order[..cut], 0) + ([Op(order[cut], true, 1, 0)] + Reads(order[cut + 1..], 1))
  }

  lemma MarkedLegal(order: seq<Span>, cut: nat)
    requires cut < |order|
    ensures RegisterLegal(Marked(order, cut), 0)
  {
    var x, b := Op(order[cut], true, 1, 0), Reads(order[cut + 1..], 1);
    ReadsLegal(order[cut + 1..], 1, []);
    assert b + [] == b;
    RegisterLegalCons(x, b, 0);
    ReadsLegal(order[..cut], 0, [x] + b);
  }

  lemma SpansOfMarked(order: seq<Span>, cut: nat)
    requires cut < |order|
    ensures Spans(Marked(order, cut)) == order
  {
  }

  lemma {:induction false} ReadNeedsWrite(order: seq<Op>, store: map<int, nat>, p: nat) returns (b: nat)
    requires StoreLegal(order, store) && p < |order| && !order[p].write
    requires order[p].output != Lookup(store, order[p].span.key)
    ensures b < p && order[b].write && order[b].span.key == order[p].span.key
  {
    if order[0].write && order[0].span.key == order[p].span.key {
      b := 0;
    } else {
      var after := if order[0].write then store[order[0].span.key := order[0].value] else store;
      b := ReadNeedsWrite(order[1..], after, p - 1);
      b := b + 1;
    }
  }

  /** In no legal real-time order can a read of 1 precede everything that must precede its write. */
  lemma NoLegalOrder(ops: seq<Op>, order: seq<Op>, z: Span, y: Span, w: Span)
    requires Op(z, false, 0, 1) in ops && y in Spans(ops) && z.key == w.key != y.key && Before(z, y) && Before(y, w)
    requires forall x | x in ops && x.write :: x == Op(w, true, 1, 0)
    requires multiset(order) == multiset(ops) && StoreLegal(order, map[])
    ensures !SortedBy(order, MayPrecede())
  {
    assert Op(z, false, 0, 1) in multiset(order);
    var p: nat :| p < |order| && order[p] == Op(z, false, 0, 1);
    var b := ReadNeedsWrite(order, map[], p);
    assert order[b] in multiset(ops);
    MapPermutation(ToSpan(), order, ops);
    assert y in multiset(Spans(order));
    var q: nat :| q < |order| && Spans(order)[q] == y;
    OutOfOrder(order, b, p, q);
  }

  lemma OutOfOrder(order: seq<Op>, b: nat, p: nat, q: nat)
    requires b < p < |order| && q < |order| && b != q && q != p
    requires Before(order[p].span, order[q].span) && Before(order[q].span, order[b].span)
    ensures !SortedBy(order, MayPrecede())
  {
    if q < p {
      assert !MayPrecede()(order[q], order[p]);
    } else {
      assert !MayPrecede()(order[b], order[q]);
    }
  }

  /** Where a key may put `w` before `z`, write at `w`, read it at `z`, and let nothing else show. */
  lemma MisleadByOrder(spans: seq<Span>, z: Span, y: Span, w: Span, order: seq<Span>, cut: nat, i: nat)
    returns (ops: seq<Op>)
    requires y in spans && z.key == w.key != y.key && Before(z, y) && Before(y, w) && KeysArrangeable(spans)
    requires SpansArrange(order, Filter(spans, SpanHasKey(z.key))) && cut < i < |order|
    requires order[cut] == w && order[i] == z
    ensures Spans(ops) == spans && KeysLinearizable(ops) && !StoreLinearizable(ops)
  {
    var all := MarkedStore(spans, z.key, order, cut);
    MarkedStoreSpans(spans, z.key, order, cut);
    ops := Realign(ToSpan(), all, spans);
    MarkedKeysLinearizable(spans, z.key, order, cut, ops);
    MarkedStoreOps(spans, z.key, order, cut, ops);
    MarkedRead(spans, z.key, order, cut, i);
    NotStoreLinearizable(ops, z, y, w);
  }

  lemma NotStoreLinearizable(ops: seq<Op>, z: Span, y: Span, w: Span)
    requires Op(z, false, 0, 1) in ops && y in Spans(ops) && z.key == w.key != y.key && Before(z, y) && Before(y, w)
    requires forall x | x in ops && x.write :: x == Op(w, true, 1, 0)
    ensures !StoreLinearizable(ops)
  {
    forall order: seq<Op> | multiset(order) == multiset(ops) && StoreLegal(order, map[])
      ensures !SortedBy(order, MayPrecede())
    {
      NoLegalOrder(ops, order, z, y, w);
    }
  }

  /** The marked key, and reads of 0 on every other. */
  function MarkedStore(spans: seq<Span>, own: int, order: seq<Span>, cut: nat): seq<Op>
    requires cut < |order|
  {
    Marked(order, cut) + Reads(Filter(spans, Not(SpanHasKey(own))), 0)
  }

  lemma MarkedRead(spans: seq<Span>, own: int, order: seq<Span>, cut: nat, i: nat)
    requires cut < i < |order|
    ensures Op(order[i], false, 0, 1) in MarkedStore(spans, own, order, cut)
  {
    assert Reads(order[cut + 1..], 1)[i - cut - 1] == Op(order[i], false, 0, 1);
    assert Op(order[i], false, 0, 1) in Marked(order, cut);
  }

  lemma MarkedStoreSpans(spans: seq<Span>, own: int, order: seq<Span>, cut: nat)
    requires cut < |order| && multiset(order) == multiset(Filter(spans, SpanHasKey(own)))
    ensures multiset(Spans(MarkedStore(spans, own, order, cut))) == multiset(spans)
  {
    var rest := Filter(spans, Not(SpanHasKey(own)));
    SpansOfMarked(order, cut);
    SpansOfReads(rest, 0);
    MapConcat(ToSpan(), Marked(order, cut), Reads(rest, 0));
    FilterSplit(spans, SpanHasKey(own));
  }

  lemma MarkedStoreOps(spans: seq<Span>, own: int, order: seq<Span>, cut: nat, ops: seq<Op>)
    requires cut < |order| && multiset(ops) == multiset(MarkedStore(spans, own, order, cut))
    ensures forall x | x in MarkedStore(spans, own, order, cut) :: x in ops
    ensures forall x | x in ops && x.write :: x == Op(order[cut], true, 1, 0)
  {
    var all := MarkedStore(spans, own, order, cut);
    forall x ensures x in ops <==> x in all {
      assert x in ops <==> x in multiset(ops);
      assert x in all <==> x in multiset(all);
    }
    var mark, rest := Op(order[cut], true, 1, 0), Filter(spans, Not(SpanHasKey(own)));
    ReadsAreReads(order[..cut], 0);
    ReadsAreReads(order[cut + 1..], 1);
    ReadsAreReads(rest, 0);
    OneWrite(Reads(order[..cut], 0), mark, Reads(order[cut + 1..], 1), Reads(rest, 0));
  }

  lemma ReadsAreReads(spans: seq<Span>, value: nat)
    ensures forall x | x in Reads(spans, value) :: !x.write
  {
  }

  lemma OneWrite(a: seq<Op>, mark: Op, b: seq<Op>, c: seq<Op>)
    requires forall x | x in a || x in b || x in c :: !x.write
    ensures forall x | x in a + ([mark] + b) + c && x.write :: x == mark
  {
  }

  lemma MarkedKeysLinearizable(spans: seq<Span>, own: int, order: seq<Span>, cut: nat, ops: seq<Op>)
    requires KeysArrangeable(spans) && SpansArrange(order, Filter(spans, SpanHasKey(own))) && cut < |order|
    requires multiset(ops) == multiset(MarkedStore(spans, own, order, cut))
    ensures KeysLinearizable(ops)
  {
    var all := MarkedStore(spans, own, order, cut);
    forall key ensures RegisterLinearizable(OnKey(ops, key)) {
      FilterPermutation(all, ops, HasKey(key));
      KeyOfMarked(spans, own, order, cut, key);
      PermutedLinearizable(OnKey(all, key), OnKey(ops, key));
    }
  }

  lemma KeyOfMarked(spans: seq<Span>, own: int, order: seq<Span>, cut: nat, key: int)
    requires KeysArrangeable(spans) && SpansArrange(order, Filter(spans, SpanHasKey(own))) && cut < |order|
    ensures RegisterLinearizable(OnKey(MarkedStore(spans, own, order, cut), key))
  {
    var marked, rest := Marked(order, cut), Filter(spans, Not(SpanHasKey(own)));
    MarkedLegal(order, cut);
    SpansOfMarked(order, cut);
    FilterConcat(marked, Reads(rest, 0), HasKey(key));
    ReadsOnKey(rest, key);
    forall x | x in marked ensures x.span.key == own {
      SpanIn(marked, x);
      assert x.span in multiset(Filter(spans, SpanHasKey(own)));
      FilterIn(spans, SpanHasKey(own), x.span);
    }
    if key == own {
      FilterAll(marked, HasKey(key));
      forall x | x in rest ensures !SpanHasKey(key)(x) {
        FilterIn(spans, Not(SpanHasKey(own)), x);
      }
      FilterNone(rest, SpanHasKey(key));
      SortedBySpans(marked);
      assert marked + [] == marked;
      assert Arranges(marked, marked);
    } else {
      FilterNone(marked, HasKey(key));
      FilterFilter(spans, Not(SpanHasKey(own)), SpanHasKey(key));
      var part := Filter(spans, SpanHasKey(key));
      assert Arrangeable(part);
      var other :| SpansArrange(other, part);
      ReadsLinearizable(part, other);
      assert [] + Reads(part, 0) == Reads(part, 0);
    }
  }

  lemma Misleading(spans: seq<Span>) returns (ops: seq<Op>)
    requires !Composable(spans) && KeysArrangeable(spans)
    ensures Spans(ops) == spans && KeysLinearizable(ops) && !StoreLinearizable(ops)
  {
    var z, y, w :| && z in spans && y in spans && w in spans && z.key == w.key != y.key && Before(z, y) && Before(y, w)
                   && !AlwaysBefore(Filter(spans, SpanHasKey(z.key)), z, w);
    if z == w {
      ops := MisleadByConflict(spans, z, y);
    } else {
      var order :| SpansArrange(order, Filter(spans, SpanHasKey(z.key))) && !Precedes(order, z, w);
      var i, j :| 0 <= i < |order| && 0 <= j < |order| && order[i] == z && order[j] == w && !(i < j);
      ops := MisleadByOrder(spans, z, y, w, order, j, i);
    }
  }

  ghost predicate Local(ops: seq<Op>) {
    StoreLinearizable(ops) <==> KeysLinearizable(ops)
  }

  lemma ArrangeableKeys(ops: seq<Op>)
    requires KeysLinearizable(ops)
    ensures KeysArrangeable(Spans(ops))
  {
    forall key ensures Arrangeable(Filter(Spans(ops), SpanHasKey(key))) {
      assert RegisterLinearizable(OnKey(ops, key));
      var order: seq<Op> :| Arranges(order, OnKey(ops, key)) && RegisterLegal(order, 0);
      SpansOfOrder(order, OnKey(ops, key));
      SpansOnKey(ops, key);
    }
  }

  /** Exactly when checking key by key is right whatever was read and written: when the spans are
      composable, or when some key has no order at all, so that both sides always fail. */
  lemma LocalityExactly(spans: seq<Span>)
    ensures (forall ops | Spans(ops) == spans :: Local(ops)) <==> Composable(spans) || !KeysArrangeable(spans)
  {
    if Composable(spans) {
      forall ops | Spans(ops) == spans ensures Local(ops) {
        Locality(ops);
      }
    } else if KeysArrangeable(spans) {
      var ops := Misleading(spans);
      assert !Local(ops);
    } else {
      forall ops | Spans(ops) == spans ensures Local(ops) {
        NothingLinearizable(ops);
      }
    }
  }

  // ----- the condition in closed form

  /** No two operations each returned before the other was called. */
  predicate NoConflict(spans: seq<Span>) {
    forall i, j | 0 <= i < j < |spans| :: !(Before(spans[i], spans[j]) && Before(spans[j], spans[i]))
  }

  /** `z` returned before `w` was called, or before something that returned before `w` was called. */
  predicate Bridged(spans: seq<Span>, z: Span, w: Span) {
    Before(z, w) || exists p | p in spans :: Before(z, p) && Before(p, w)
  }

  lemma {:induction false} EarliestReturn(spans: seq<Span>) returns (i: nat)
    requires spans != []
    ensures i < |spans| && forall j | 0 <= j < |spans| :: spans[i].ret <= spans[j].ret
  {
    i := 0;
    if |spans| > 1 {
      var k := EarliestReturn(spans[1..]);
      assert forall j | 1 <= j < |spans| :: spans[j] == spans[1..][j - 1];
      if spans[1..][k].ret < spans[0].ret {
        i := k + 1;
      }
    }
  }

  /** Without conflicts some operation may stand first. */
  lemma SomeFirst(spans: seq<Span>) returns (f: nat)
    requires spans != [] && NoConflict(spans)
    ensures f < |spans| && forall j | 0 <= j < |spans| && j != f :: !Before(spans[j], spans[f])
  {
    f := EarliestReturn(spans);
    if b: nat :| b < |spans| && b != f && Before(spans[b], spans[f]) {
      BlockerMayBeFirst(spans, f, b);
      f := b;
    }
  }

  lemma BlockerMayBeFirst(spans: seq<Span>, m: nat, b: nat)
    requires NoConflict(spans) && m < |spans| && b < |spans| && b != m && Before(spans[b], spans[m])
    requires forall j | 0 <= j < |spans| :: spans[m].ret <= spans[j].ret
    ensures forall j | 0 <= j < |spans| && j != b :: !Before(spans[j], spans[b])
  {
  }

  lemma NoConflictWithout(u: seq<Span>, x: Span, v: seq<Span>)
    requires NoConflict(u + [x] + v)
    ensures NoConflict(u + v)
  {
    var all, rest := u + [x] + v, u + v;
    assert forall i | 0 <= i < |rest| :: rest[i] == all[if i < |u| then i else i + 1];
  }

  lemma FirstOfRest(u: seq<Span>, x: Span, v: seq<Span>, y: Span)
    requires forall j | 0 <= j < |u + [x] + v| && j != |u| :: !Before((u + [x] + v)[j], x)
    requires y in u + v
    ensures SpanMayPrecede()(x, y)
  {
    var k :| 0 <= k < |u + v| && (u + v)[k] == y;
    assert (u + [x] + v)[if k < |u| then k else k + 1] == y;
  }

  lemma {:induction false} ArrangeAll(spans: seq<Span>) returns (order: seq<Span>)
    requires NoConflict(spans)
    ensures SpansArrange(order, spans)
    decreases |spans|
  {
    order := [];
    if spans != [] {
      var f := SomeFirst(spans);
      var u, x, v := spans[..f], spans[f], spans[f + 1..];
      assert spans == u + [x] + v;
      NoConflictWithout(u, x, v);
      var rest := ArrangeAll(u + v);
      forall j | 0 <= j < |rest| ensures SpanMayPrecede()(x, rest[j]) {
        assert rest[j] in multiset(u + v);
        FirstOfRest(u, x, v, rest[j]);
      }
      SortedCons(x, rest, SpanMayPrecede());
      MovedToFront(u, x, v, rest);
      order := [x] + rest;
    }
  }

  lemma TwoPlaces(s: seq<Span>, x: Span, y: Span) returns (i: nat, j: nat)
    requires x in s && y in s && (x == y ==> multiset(s)[x] >= 2)
    ensures i < |s| && j < |s| && i != j && s[i] == x && s[j] == y
  {
    var u, v := SplitAt(s, x);
    i := |u|;
    if x == y {
      MiddleMultiset(u, x, v);
      assert x in multiset(u + v);
      var k: nat :| k < |u + v| && (u + v)[k] == x;
      j := if k < |u| then k else k + 1;
    } else {
      j :| j < |s| && s[j] == y;
    }
  }

  lemma ConflictNotArranged(spans: seq<Span>, order: seq<Span>, i: nat, j: nat)
    requires i < j < |spans| && Before(spans[i], spans[j]) && Before(spans[j], spans[i])
    requires multiset(order) == multiset(spans)
    ensures !SortedBy(order, SpanMayPrecede())
  {
    var x, y := spans[i], spans[j];
    if x == y {
      TwoCopies(spans, i, j);
    }
    assert x in multiset(order) && y in multiset(order);
    var a, b := TwoPlaces(order, x, y);
    if a < b {
      assert !SpanMayPrecede()(order[a], order[b]);
    } else {
      assert !SpanMayPrecede()(order[b], order[a]);
    }
  }

  /** Operations can be arranged exactly when no two of them conflict. */
  lemma ArrangeableExactly(spans: seq<Span>)
    ensures Arrangeable(spans) <==> NoConflict(spans)
  {
    if NoConflict(spans) {
      var order := ArrangeAll(spans);
    } else {
      var i: nat, j: nat :| i < j < |spans| && Before(spans[i], spans[j]) && Before(spans[j], spans[i]);
      forall order: seq<Span> | multiset(order) == multiset(spans) ensures !SortedBy(order, SpanMayPrecede()) {
        ConflictNotArranged(spans, order, i, j);
      }
    }
  }

  function Follows(spans: seq<Span>, z: Span): Span -> bool {
    (x: Span) => x == z || Bridged(spans, z, x)
  }

  lemma Unconflicted(spans: seq<Span>, x: Span, y: Span)
    requires NoConflict(spans) && x in spans && y in spans && x != y
    ensures !(Before(x, y) && Before(y, x))
  {
    var i :| 0 <= i < |spans| && spans[i] == x;
    var j :| 0 <= j < |spans| && spans[j] == y;
  }

  /** Two steps reach everything that any number of steps reaches. */
  lemma FollowsClosed(spans: seq<Span>, z: Span, y: Span, x: Span)
    requires NoConflict(spans) && y in spans && x in spans && Follows(spans, z)(y) && Before(y, x)
    ensures Follows(spans, z)(x)
  {
    if y != z && !Before(z, y) {
      var p :| p in spans && Before(z, p) && Before(p, y);
      if p != y {
        Unconflicted(spans, p, y);
      }
    }
  }

  /** Everything that does not follow `z`, then everything that does: still a real-time order. */
  lemma Postponed(spans: seq<Span>, z: Span, order: seq<Span>)
    requires NoConflict(spans) && SpansArrange(order, spans)
    ensures SpansArrange(Filter(order, Not(Follows(spans, z))) + Filter(order, Follows(spans, z)), spans)
  {
    var p := Follows(spans, z);
    var a, b := Filter(order, Not(p)), Filter(order, p);
    FilterSplit(order, p);
    assert multiset(a + b) == multiset(b + a);
    FilterSorted(order, p, SpanMayPrecede());
    FilterSorted(order, Not(p), SpanMayPrecede());
    forall x, y | x in a && y in b ensures SpanMayPrecede()(x, y) {
      FilterIn(order, Not(p), x);
      FilterIn(order, p, y);
      assert x in multiset(spans) && y in multiset(spans);
      if Before(y, x) {
        FollowsClosed(spans, z, y, x);
      }
    }
    var t := a + b;
    forall i, j | 0 <= i < j < |t| ensures SpanMayPrecede()(t[i], t[j]) {
      if i < |a| <= j {
        assert t[i] in a && t[j] in b;
      }
    }
  }

  lemma WithoutBridge(spans: seq<Span>, z: Span, w: Span)
    requires NoConflict(spans) && z in spans && w in spans && z != w && !Bridged(spans, z, w)
    ensures !AlwaysBefore(spans, z, w)
  {
    var p := Follows(spans, z);
    var order := ArrangeAll(spans);
    var a, b := Filter(order, Not(p)), Filter(order, p);
    Postponed(spans, z, order);
    assert z in multiset(order) && w in multiset(order);
    FilterIn(order, p, z);
    FilterIn(order, Not(p), w);
    InOrder(a, b, w, z);
  }

  lemma InOrder(a: seq<Span>, b: seq<Span>, w: Span, z: Span)
    requires w in a && z in b
    ensures !Precedes(a + b, z, w)
  {
    var i :| 0 <= i < |a| && a[i] == w;
    var j :| 0 <= j < |b| && b[j] == z;
    assert (a + b)[i] == w && (a + b)[|a| + j] == z;
  }

  lemma OverBridge(spans: seq<Span>, z: Span, p: Span, w: Span)
    requires p in spans && p != z && p != w && z != w && Before(z, p) && Before(p, w)
    ensures AlwaysBefore(spans, z, w)
  {
    forall order | SpansArrange(order, spans) ensures Precedes(order, z, w) {
      assert p in multiset(order);
      var k :| 0 <= k < |order| && order[k] == p;
      EarlierFirst(spans, z, p);
      EarlierFirst(spans, p, w);
      assert Precedes(order, z, p) && Precedes(order, p, w);
    }
  }

  /** What it means that a key always puts `z` before `w`: directly, or over one other operation. */
  lemma AlwaysBeforeExactly(spans: seq<Span>, z: Span, w: Span)
    requires NoConflict(spans) && z in spans && w in spans
    ensures AlwaysBefore(spans, z, w) <==> z != w && Bridged(spans, z, w)
  {
    if z != w {
      if !Bridged(spans, z, w) {
        WithoutBridge(spans, z, w);
      } else if Before(z, w) {
        EarlierFirst(spans, z, w);
      } else {
        var p :| p in spans && Before(z, p) && Before(p, w);
        OverBridge(spans, z, p, w);
      }
    }
  }

  /** Composability as a check on the spans: no arrangement is quantified over. */
  predicate Bridges(spans: seq<Span>) {
    forall z, y, w | z in spans && y in spans && w in spans
                     && z.key == w.key != y.key && Before(z, y) && Before(y, w) ::
      z != w && Bridged(Filter(spans, SpanHasKey(z.key)), z, w)
  }

  lemma ComposableExactly(spans: seq<Span>)
    requires forall key :: NoConflict(Filter(spans, SpanHasKey(key)))
    ensures Composable(spans) <==> Bridges(spans)
  {
    forall z, w | z in spans && w in spans && z.key == w.key
      ensures AlwaysBefore(Filter(spans, SpanHasKey(z.key)), z, w)
              <==> z != w && Bridged(Filter(spans, SpanHasKey(z.key)), z, w)
    {
      FilterIn(spans, SpanHasKey(z.key), z);
      FilterIn(spans, SpanHasKey(z.key), w);
      AlwaysBeforeExactly(Filter(spans, SpanHasKey(z.key)), z, w);
    }
  }

  /** The exact condition in closed form: some key holds two conflicting operations, or every
      crossing by another key is bridged on its own. */
  lemma LocalityChecked(spans: seq<Span>)
    ensures (forall ops | Spans(ops) == spans :: Local(ops)) <==>
            || Bridges(spans)
            || exists key :: !NoConflict(Filter(spans, SpanHasKey(key)))
  {
    LocalityExactly(spans);
    forall key ensures Arrangeable(Filter(spans, SpanHasKey(key))) <==> NoConflict(Filter(spans, SpanHasKey(key))) {
      ArrangeableExactly(Filter(spans, SpanHasKey(key)));
    }
    if forall key :: NoConflict(Filter(spans, SpanHasKey(key))) {
      ComposableExactly(spans);
    }
  }

  lemma NothingLinearizable(ops: seq<Op>)
    requires !KeysArrangeable(Spans(ops))
    ensures !KeysLinearizable(ops) && !StoreLinearizable(ops)
  {
    if KeysLinearizable(ops) {
      ArrangeableKeys(ops);
    }
    if StoreLinearizable(ops) {
      forall key ensures RegisterLinearizable(OnKey(ops, key)) {
        StoreImpliesKey(ops, key);
      }
    }
  }

  /** Smallest case: an operation whose clock ran backwards, forced both before and after an
      operation on another key. */
  lemma BackwardIntervalBreaksLocality() returns (ops: seq<Op>)
    ensures |ops| == 2 && !WellFormed(ops) && KeysLinearizable(ops) && !StoreLinearizable(ops)
  {
    var z, y := Span(0, 1, 10, 0), Span(1, 2, 5, 7);
    var spans := [z, y];
    forall key ensures Arrangeable(Filter(spans, SpanHasKey(key))) {
      var part := Filter(spans, SpanHasKey(key));
      assert spans[1..] == [y] && [y][1..] == [];
      assert Filter([y], SpanHasKey(key)) == if key == 2 then [y] else [];
      assert |part| <= 1;
      assert SpansArrange(part, part);
    }
    ops := MisleadByConflict(spans, z, y);
    assert |Spans(ops)| == 2 && ops[0].span == z && ops[0] in ops;
  }
}

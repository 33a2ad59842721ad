/** Sequences: filtering, stable sorting, and when a sorted arrangement is unique.

    The source sorts with the Go library (`sort.Slice`, `sort.SliceStable`, `sort.Strings`).
    `StableSort` stands for the stable sort; the unstable one is specified by `IsSortOf` alone. */
module Sorting {

  ghost predicate TotalPreorder<T(!new)>(leq: (T, T) -> bool) {
    && (forall x, y :: leq(x, y) || leq(y, x))
    && (forall x, y, z :: leq(x, y) && leq(y, z) ==> leq(x, z))
  }

  ghost predicate SortedBy<T>(s: seq<T>, leq: (T, T) -> bool) {
    forall i, j | 0 <= i < j < |s| :: leq(s[i], s[j])
  }

  /** `t` is some arrangement of `s` in `leq` order: all that an unstable sort promises. */
  ghost predicate IsSortOf<T>(t: seq<T>, s: seq<T>, leq: (T, T) -> bool) {
    multiset(t) == multiset(s) && SortedBy(t, leq)
  }

  function Filter<T>(s: seq<T>, p: T -> bool): seq<T> {
    if s == [] then []
    else if p(s[0]) then [s[0]] + Filter(s[1..], p)
    else Filter(s[1..], p)
  }

  function Insert<T>(x: T, s: seq<T>, leq: (T, T) -> bool): seq<T> {
    if s == [] || leq(x, s[0]) then [x] + s else [s[0]] + Insert(x, s[1..], leq)
  }

  function StableSort<T>(s: seq<T>, leq: (T, T) -> bool): seq<T> {
    if s == [] then [] else Insert(s[0], StableSort(s[1..], leq), leq)
  }

  // ----- filtering

  lemma {:induction false} FilterMultiset<T>(s: seq<T>, p: T -> bool, x: T)
    ensures multiset(Filter(s, p))[x] == if p(x) then multiset(s)[x] else 0
  {
    if s != [] {
      assert s == [s[0]] + s[1..];
      FilterMultiset(s[1..], p, x);
    }
  }

  lemma FilterIn<T>(s: seq<T>, p: T -> bool, x: T)
    ensures x in Filter(s, p) <==> x in s && p(x)
  {
    FilterMultiset(s, p, x);
    assert x in Filter(s, p) <==> x in multiset(Filter(s, p));
    assert x in s <==> x in multiset(s);
  }

  lemma {:induction false} FilterConcat<T>(a: seq<T>, b: seq<T>, p: T -> bool)
    ensures Filter(a + b, p) == Filter(a, p) + Filter(b, p)
  {
    if a == [] {
      assert a + b == b;
    } else {
      assert (a + b)[1..] == a[1..] + b;
      FilterConcat(a[1..], b, p);
    }
  }

  lemma FilterSnoc<T>(s: seq<T>, x: T, p: T -> bool)
    ensures Filter(s + [x], p) == Filter(s, p) + if p(x) then [x] else []
  {
    FilterConcat(s, [x], p);
  }

  lemma MiddleMultiset<T>(u: seq<T>, x: T, v: seq<T>)
    ensures multiset(u + v) == multiset(u + [x] + v) - multiset{x}
  {
  }

  lemma SplitAt<T>(s: seq<T>, x: T) returns (u: seq<T>, v: seq<T>)
    requires x in s
    ensures s == u + [x] + v
  {
    var i :| 0 <= i < |s| && s[i] == x;
    u, v := s[..i], s[i + 1..];
  }

  lemma FilterMiddle<T>(u: seq<T>, x: T, v: seq<T>, p: T -> bool)
    ensures multiset(Filter(u + [x] + v, p))
            == if p(x) then multiset(Filter(u + v, p)) + multiset{x} else multiset(Filter(u + v, p))
  {
    FilterConcat(u + [x], v, p);
    FilterSnoc(u, x, p);
    FilterConcat(u, v, p);
  }

  lemma {:induction false} FilterPermutation<T>(a: seq<T>, b: seq<T>, p: T -> bool)
    requires multiset(a) == multiset(b)
    ensures multiset(Filter(a, p)) == multiset(Filter(b, p))
    decreases |a|
  {
    assert |b| == |multiset(b)| == |multiset(a)| == |a|;
    if a != [] {
      var x, t := a[0], a[1..];
      assert x in multiset(b);
      var u, v := SplitAt(b, x);
      assert a == [] + [x] + t && [] + t == t;
      MiddleMultiset([], x, t);
      MiddleMultiset(u, x, v);
      FilterPermutation(t, u + v, p);
      FilterMiddle([], x, t, p);
      FilterMiddle(u, x, v, p);
    }
  }

  lemma {:induction false} FilterNone<T>(s: seq<T>, p: T -> bool)
    requires forall x | x in s :: !p(x)
    ensures Filter(s, p) == []
  {
    if s != [] {
      FilterNone(s[1..], p);
    }
  }

  lemma {:induction false} FilterAll<T>(s: seq<T>, p: T -> bool)
    requires forall x | x in s :: p(x)
    ensures Filter(s, p) == s
  {
    if s != [] {
      FilterAll(s[1..], p);
    }
  }

  /** Whatever holds of every ordered pair of `s` holds of every ordered pair of a filtered `s`. */
  lemma {:induction false} FilterSorted<T>(s: seq<T>, p: T -> bool, leq: (T, T) -> bool)
    requires SortedBy(s, leq)
    ensures SortedBy(Filter(s, p), leq)
  {
    if s != [] {
      FilterSorted(s[1..], p, leq);
      var t := Filter(s[1..], p);
      forall j | 0 <= j < |t| ensures leq(s[0], t[j]) {
        FilterIn(s[1..], p, t[j]);
        var k :| 0 <= k < |s[1..]| && s[1..][k] == t[j];
        assert s[k + 1] == t[j];
      }
    }
  }

  function Not<T>(p: T -> bool): T -> bool {
    (x: T) => !p(x)
  }

  lemma {:induction false} FilterSplit<T>(s: seq<T>, p: T -> bool)
    ensures multiset(Filter(s, p) + Filter(s, Not(p))) == multiset(s)
  {
    if s != [] {
      FilterSplit(s[1..], p);
      assert s == [s[0]] + s[1..];
    }
  }

  lemma {:induction false} FilterFilter<T>(s: seq<T>, p: T -> bool, q: T -> bool)
    requires forall x | x in s && q(x) :: p(x)
    ensures Filter(Filter(s, p), q) == Filter(s, q)
  {
    if s != [] {
      assert s[0] in s;
      FilterFilter(s[1..], p, q);
      if p(s[0]) {
        FilterCons(s[0], Filter(s[1..], p), q);
      }
    }
  }

  // ----- mapping

  function Map<A, B>(f: A -> B, s: seq<A>): (t: seq<B>)
    ensures |t| == |s| && forall i | 0 <= i < |s| :: t[i] == f(s[i])
  {
    if s == [] then [] else [f(s[0])] + Map(f, s[1..])
  }

  lemma MapConcat<A, B>(f: A -> B, a: seq<A>, b: seq<A>)
    ensures Map(f, a + b) == Map(f, a) + Map(f, b)
  {
  }

  lemma MapMiddle<A, B>(f: A -> B, u: seq<A>, x: A, v: seq<A>)
    ensures multiset(Map(f, u + [x] + v)) == multiset(Map(f, u + v)) + multiset{f(x)}
  {
    MapConcat(f, u + [x], v);
    MapConcat(f, u, [x]);
    MapConcat(f, u, v);
  }

  lemma {:induction false} MapPermutation<A, B>(f: A -> B, a: seq<A>, b: seq<A>)
    requires multiset(a) == multiset(b)
    ensures multiset(Map(f, a)) == multiset(Map(f, b))
    decreases |a|
  {
    assert |b| == |multiset(b)| == |multiset(a)| == |a|;
    if a != [] {
      var x, t := a[0], a[1..];
      assert x in multiset(b);
      var u, v := SplitAt(b, x);
      assert a == [] + [x] + t && [] + t == t;
      MiddleMultiset([], x, t);
      MiddleMultiset(u, x, v);
      MapPermutation(f, t, u + v);
      MapMiddle(f, [], x, t);
      MapMiddle(f, u, x, v);
    }
  }

  /** Filtering the images is mapping the filtered elements. */
  lemma {:induction false} MapFilter<A, B>(f: A -> B, s: seq<A>, p: A -> bool, q: B -> bool)
    requires forall x | x in s :: p(x) <==> q(f(x))
    ensures Filter(Map(f, s), q) == Map(f, Filter(s, p))
  {
    if s != [] {
      assert s[0] in s;
      assert Map(f, s)[1..] == Map(f, s[1..]);
      MapFilter(f, s[1..], p, q);
    }
  }

  lemma MapSplit<A, B>(f: A -> B, s: seq<A>, y: B) returns (u: seq<A>, x: A, v: seq<A>)
    requires y in Map(f, s)
    ensures s == u + [x] + v && f(x) == y
  {
    var i :| 0 <= i < |s| && Map(f, s)[i] == y;
    u, x, v := s[..i], s[i], s[i + 1..];
  }

  lemma Cancel<T>(a: multiset<T>, b: multiset<T>, x: T)
    requires a + multiset{x} == b + multiset{x}
    ensures a == b
  {
    assert a == (a + multiset{x}) - multiset{x};
    assert b == (b + multiset{x}) - multiset{x};
  }

  lemma MovedToFront<T>(u: seq<T>, x: T, v: seq<T>, tail: seq<T>)
    requires multiset(tail) == multiset(u + v)
    ensures multiset([x] + tail) == multiset(u + [x] + v)
  {
  }

  lemma ImagesWithout<A, B>(f: A -> B, u: seq<A>, x: A, v: seq<A>, rest: seq<B>)
    requires multiset(Map(f, u + [x] + v)) == multiset([f(x)] + rest)
    ensures multiset(Map(f, u + v)) == multiset(rest)
  {
    MapMiddle(f, u, x, v);
    Cancel(multiset(Map(f, u + v)), multiset(rest), f(x));
  }

  lemma MapCons<A, B>(f: A -> B, x: A, s: seq<A>)
    ensures Map(f, [x] + s) == [f(x)] + Map(f, s)
  {
    assert ([x] + s)[1..] == s;
  }

  /** Elements whose images are those of `t` in some order can be put in the order of `t`. */
  lemma {:induction false} Realign<A, B>(f: A -> B, s: seq<A>, t: seq<B>) returns (r: seq<A>)
    requires multiset(Map(f, s)) == multiset(t)
    ensures multiset(r) == multiset(s) && Map(f, r) == t
    decreases |s|
  {
    assert |t| == |multiset(t)| == |multiset(Map(f, s))| == |s|;
    r := [];
    if s != [] {
      var y, rest := t[0], t[1..];
      assert t == [y] + rest;
      assert y in multiset(Map(f, s));
      var u, x, v := MapSplit(f, s, y);
      ImagesWithout(f, u, x, v, rest);
      var tail := Realign(f, u + v, rest);
      MapCons(f, x, tail);
      MovedToFront(u, x, v, tail);
      r := [x] + tail;
    }
  }

  function FlatMap<A, B>(f: A -> seq<B>, s: seq<A>): seq<B> {
    if s == [] then [] else FlatMap(f, s[..|s| - 1]) + f(s[|s| - 1])
  }

  lemma FlatMapSnoc<A, B>(f: A -> seq<B>, s: seq<A>, x: A)
    ensures FlatMap(f, s + [x]) == FlatMap(f, s) + f(x)
  {
    assert (s + [x])[..|s|] == s;
  }

  lemma {:induction false} FlatMapConcat<A, B>(f: A -> seq<B>, a: seq<A>, b: seq<A>)
    ensures FlatMap(f, a + b) == FlatMap(f, a) + FlatMap(f, b)
  {
    if b == [] {
      assert a + b == a;
    } else {
      assert (a + b)[..|a + b| - 1] == a + b[..|b| - 1];
      FlatMapConcat(f, a, b[..|b| - 1]);
    }
  }

  lemma FlatMapMiddle<A, B>(f: A -> seq<B>, u: seq<A>, x: A, v: seq<A>)
    ensures multiset(FlatMap(f, u + [x] + v)) == multiset(FlatMap(f, u + v)) + multiset(f(x))
  {
    FlatMapConcat(f, u + [x], v);
    FlatMapSnoc(f, u, x);
    FlatMapConcat(f, u, v);
  }

  lemma {:induction false} FlatMapPermutation<A, B>(f: A -> seq<B>, a: seq<A>, b: seq<A>)
    requires multiset(a) == multiset(b)
    ensures multiset(FlatMap(f, a)) == multiset(FlatMap(f, b))
    decreases |a|
  {
    assert |b| == |multiset(b)| == |multiset(a)| == |a|;
    if a != [] {
      var x, t := a[0], a[1..];
      assert x in multiset(b);
      var u, v := SplitAt(b, x);
      assert a == [] + [x] + t && [] + t == t;
      MiddleMultiset([], x, t);
      MiddleMultiset(u, x, v);
      FlatMapPermutation(f, t, u + v);
      FlatMapMiddle(f, [], x, t);
      FlatMapMiddle(f, u, x, v);
    }
  }

  lemma {:induction false} FlatMapSingletons<A, B>(f: A -> seq<B>, s: seq<A>, t: seq<B>)
    requires |s| == |t| && forall i | 0 <= i < |s| :: f(s[i]) == [t[i]]
    ensures FlatMap(f, s) == t
  {
    if s != [] {
      var n := |s| - 1;
      FlatMapSingletons(f, s[..n], t[..n]);
      assert t == t[..n] + [t[n]];
    }
  }

  lemma {:induction false} FlatMapNone<A, B>(f: A -> seq<B>, s: seq<A>)
    requires forall x | x in s :: f(x) == []
    ensures FlatMap(f, s) == []
  {
    if s != [] {
      FlatMapNone(f, s[..|s| - 1]);
    }
  }

  // ----- sorting

  lemma SortedCons<T>(x: T, s: seq<T>, leq: (T, T) -> bool)
    requires SortedBy(s, leq) && forall j | 0 <= j < |s| :: leq(x, s[j])
    ensures SortedBy([x] + s, leq)
  {
  }

  lemma {:induction false} InsertPermutes<T>(x: T, s: seq<T>, leq: (T, T) -> bool)
    ensures multiset(Insert(x, s, leq)) == multiset(s) + multiset{x}
  {
    if s != [] && !leq(x, s[0]) {
      InsertPermutes(x, s[1..], leq);
      assert s == [s[0]] + s[1..];
    }
  }

  lemma {:induction false} InsertSorted<T(!new)>(x: T, s: seq<T>, leq: (T, T) -> bool)
    requires TotalPreorder(leq) && SortedBy(s, leq)
    ensures SortedBy(Insert(x, s, leq), leq)
  {
    if s == [] {
    } else if leq(x, s[0]) {
      var r := [x] + s;
      forall i, j | 0 <= i < j < |r| ensures leq(r[i], r[j]) {
        if i == 0 && j > 1 {
          assert leq(s[0], s[j - 1]);
        }
      }
    } else {
      InsertSorted(x, s[1..], leq);
      var t := Insert(x, s[1..], leq);
      InsertPermutes(x, s[1..], leq);
      forall j | 0 <= j < |t| ensures leq(s[0], t[j]) {
        assert t[j] in multiset(t);
        if t[j] != x {
          assert t[j] in multiset(s[1..]);
          var k :| 0 <= k < |s[1..]| && s[1..][k] == t[j];
          assert s[k + 1] == t[j];
        }
      }
    }
  }

  lemma {:induction false} StableSortSorts<T(!new)>(s: seq<T>, leq: (T, T) -> bool)
    requires TotalPreorder(leq)
    ensures IsSortOf(StableSort(s, leq), s, leq)
  {
    if s != [] {
      StableSortSorts(s[1..], leq);
      InsertSorted(s[0], StableSort(s[1..], leq), leq);
      InsertPermutes(s[0], StableSort(s[1..], leq), leq);
      assert s == [s[0]] + s[1..];
    }
  }

  lemma {:induction false} FilterInsert<T(!new)>(x: T, s: seq<T>, leq: (T, T) -> bool, p: T -> bool)
    requires TotalPreorder(leq) && SortedBy(s, leq)
    ensures Filter(Insert(x, s, leq), p) == if p(x) then Insert(x, Filter(s, p), leq) else Filter(s, p)
  {
    if s == [] {
    } else if leq(x, s[0]) {
      assert ([x] + s)[1..] == s;
      var t := Filter(s, p);
      if t != [] {
        FilterIn(s, p, t[0]);
        var k :| 0 <= k < |s| && s[k] == t[0];
        assert k == 0 || leq(s[0], s[k]);
        assert leq(x, t[0]);
      }
    } else {
      FilterInsert(x, s[1..], leq, p);
      var r := Insert(x, s[1..], leq);
      assert ([s[0]] + r)[1..] == r;
      FilterCons(s[0], r, p);
      FilterCons(s[0], s[1..], p);
      assert [s[0]] + s[1..] == s;
    }
  }

  lemma FilterCons<T>(x: T, s: seq<T>, p: T -> bool)
    ensures Filter([x] + s, p) == if p(x) then [x] + Filter(s, p) else Filter(s, p)
  {
    assert ([x] + s)[1..] == s;
  }

  lemma StableSortCons<T>(x: T, s: seq<T>, leq: (T, T) -> bool)
    ensures StableSort([x] + s, leq) == Insert(x, StableSort(s, leq), leq)
  {
    assert ([x] + s)[1..] == s;
  }

  /** A stable sort commutes with every filter: leaving elements out never reorders the others. */
  lemma {:induction false} FilterStableSort<T(!new)>(s: seq<T>, leq: (T, T) -> bool, p: T -> bool)
    requires TotalPreorder(leq)
    ensures Filter(StableSort(s, leq), p) == StableSort(Filter(s, p), leq)
  {
    if s != [] {
      StableSortSorts(s[1..], leq);
      FilterInsert(s[0], StableSort(s[1..], leq), leq, p);
      FilterStableSort(s[1..], leq, p);
      FilterCons(s[0], s[1..], p);
      assert [s[0]] + s[1..] == s;
      if p(s[0]) {
        StableSortCons(s[0], Filter(s[1..], p), leq);
      }
    }
  }

  lemma TailMultiset<T>(s: seq<T>)
    requires s != []
    ensures multiset(s[1..]) == multiset(s) - multiset{s[0]}
  {
    assert s == [s[0]] + s[1..];
  }

  lemma SortedHead<T>(a: seq<T>, b: seq<T>, leq: (T, T) -> bool)
    requires multiset(a) == multiset(b) && SortedBy(b, leq) && a != []
    ensures b != [] && (b[0] == a[0] || leq(b[0], a[0]))
  {
    assert a[0] in multiset(b);
    var i :| 0 <= i < |b| && b[i] == a[0];
  }

  /** Where no two different elements tie, there is only one sorted arrangement. */
  lemma {:induction false} SortedUnique<T>(a: seq<T>, b: seq<T>, leq: (T, T) -> bool)
    requires multiset(a) == multiset(b) && SortedBy(a, leq) && SortedBy(b, leq)
    requires forall x, y | x in a && y in a && leq(x, y) && leq(y, x) :: x == y
    ensures a == b
  {
    assert |a| == |multiset(a)| == |multiset(b)| == |b|;
    if a != [] {
      SortedHead(a, b, leq);
      SortedHead(b, a, leq);
      assert b[0] in multiset(a);
      assert a[0] == b[0];
      TailMultiset(a);
      TailMultiset(b);
      SortedUnique(a[1..], b[1..], leq);
      assert a == [a[0]] + a[1..] && b == [b[0]] + b[1..];
    }
  }

  // ----- sets, and sequences without repetition

  /** Some element of a non-empty set. */
  ghost function Pick<T>(s: set<T>): (x: T)
    requires s != {}
    ensures x in s
  {
    var x :| x in s;
    x
  }

  lemma {:induction false} DistinctCount<T>(s: seq<T>, x: T)
    requires x in s && forall i, j | 0 <= i < j < |s| :: s[i] != s[j]
    ensures multiset(s)[x] == 1
  {
    var front, z := s[..|s| - 1], s[|s| - 1];
    assert s == front + [z];
    assert z !in front;
    if x != z {
      DistinctCount(front, x);
    }
  }

  lemma TwoCopies<T>(s: seq<T>, i: nat, j: nat)
    requires i < j < |s| && s[i] == s[j]
    ensures multiset(s)[s[i]] >= 2
  {
    var front := s[..j];
    assert s == front + [s[j]] + s[j + 1..];
    assert front[i] in multiset(front);
  }

  lemma DistinctMultiset<T>(s: seq<T>)
    ensures (forall i, j | 0 <= i < j < |s| :: s[i] != s[j]) <==> (forall x | x in s :: multiset(s)[x] == 1)
  {
    if forall i, j | 0 <= i < j < |s| :: s[i] != s[j] {
      forall x | x in s ensures multiset(s)[x] == 1 {
        DistinctCount(s, x);
      }
    } else {
      var i, j :| 0 <= i < j < |s| && s[i] == s[j];
      TwoCopies(s, i, j);
      assert s[i] in s;
    }
  }

  lemma DistinctPermutation<T>(a: seq<T>, b: seq<T>)
    requires multiset(a) == multiset(b)
    requires forall i, j | 0 <= i < j < |a| :: a[i] != a[j]
    ensures forall i, j | 0 <= i < j < |b| :: b[i] != b[j]
  {
    DistinctMultiset(a);
    DistinctMultiset(b);
    forall x | x in b ensures multiset(b)[x] == 1 {
      assert x in multiset(a);
    }
  }

  lemma {:induction false} SameSize<T>(s: seq<T>, elements: set<T>)
    requires forall i, j | 0 <= i < j < |s| :: s[i] != s[j]
    requires forall x :: x in s <==> x in elements
    ensures |s| == |elements|
  {
    if s == [] {
      assert elements == {};
    } else {
      assert forall x :: x in s[1..] <==> x in elements - {s[0]};
      SameSize(s[1..], elements - {s[0]});
    }
  }
}

/** Sums over finite sets, and the least and greatest element of a set. */
module Sums {
  import opened Sorting

  ghost function Sum<K>(keys: set<K>, f: K -> int): int {
    if keys == {} then 0 else
    var k := Pick(keys);
    f(k) + Sum(keys - {k}, f)
  }

  /** The sum does not depend on which element is taken first. */
  lemma {:induction false} SumRemove<K>(keys: set<K>, f: K -> int, k: K)
    requires k in keys
    ensures Sum(keys, f) == f(k) + Sum(keys - {k}, f)
  {
    var first := Pick(keys);
    if first != k {
      SumRemove(keys - {first}, f, k);
      SumRemove(keys - {k}, f, first);
      assert keys - {first} - {k} == keys - {k} - {first};
    }
  }

  lemma {:induction false} SumAdd<K>(keys: set<K>, f: K -> int, g: K -> int, h: K -> int)
    requires forall k | k in keys :: h(k) == f(k) + g(k)
    ensures Sum(keys, h) == Sum(keys, f) + Sum(keys, g)
  {
    if keys != {} {
      var k := Pick(keys);
      SumRemove(keys, f, k);
      SumRemove(keys, g, k);
      SumRemove(keys, h, k);
      SumAdd(keys - {k}, f, g, h);
    }
  }

  lemma {:induction false} SumSame<K>(keys: set<K>, f: K -> int, g: K -> int)
    requires forall k | k in keys :: f(k) == g(k)
    ensures Sum(keys, f) == Sum(keys, g)
  {
    if keys != {} {
      var k := Pick(keys);
      SumRemove(keys, f, k);
      SumRemove(keys, g, k);
      SumSame(keys - {k}, f, g);
    }
  }

  /** Changing the summand at one key changes the sum by as much. */
  lemma SumUpdate<K>(keys: set<K>, f: K -> int, g: K -> int, k: K)
    requires k in keys && forall x | x in keys && x != k :: f(x) == g(x)
    ensures Sum(keys, g) == Sum(keys, f) - f(k) + g(k)
  {
    SumRemove(keys, f, k);
    SumRemove(keys, g, k);
    SumSame(keys - {k}, f, g);
  }

  lemma {:induction false} SumMono<K>(keys: set<K>, f: K -> int, g: K -> int)
    requires forall k | k in keys :: f(k) <= g(k)
    ensures Sum(keys, f) <= Sum(keys, g)
  {
    if keys != {} {
      var k := Pick(keys);
      SumRemove(keys, f, k);
      SumRemove(keys, g, k);
      SumMono(keys - {k}, f, g);
    }
  }

  /** A sum of naturals is natural, and zero only when every summand is. */
  lemma {:induction false} SumOfNats<K>(keys: set<K>, f: K -> int)
    requires forall k | k in keys :: f(k) >= 0
    ensures Sum(keys, f) >= 0
    ensures Sum(keys, f) == 0 <==> forall k | k in keys :: f(k) == 0
    ensures forall k | k in keys :: f(k) <= Sum(keys, f)
  {
    if keys != {} {
      var k := Pick(keys);
      SumRemove(keys, f, k);
      SumOfNats(keys - {k}, f);
      assert forall x | x in keys :: x == k || x in keys - {k};
    }
  }

  ghost function Least(s: set<int>): (m: int)
    requires s != {}
    ensures m in s && forall x | x in s :: m <= x
  {
    var x := Pick(s);
    if s == {x} then x else
    var rest := s - {x};
    assert s == rest + {x};
    var m := Least(rest);
    if x < m then x else m
  }

  ghost function Greatest(s: set<int>): (m: int)
    requires s != {}
    ensures m in s && forall x | x in s :: x <= m
  {
    var x := Pick(s);
    if s == {x} then x else
    var rest := s - {x};
    assert s == rest + {x};
    var m := Greatest(rest);
    if m < x then x else m
  }

  ghost function Interval(lo: int, hi: int): (s: set<int>)
    ensures forall x :: x in s <==> lo <= x <= hi
    ensures lo <= hi + 1 ==> |s| == hi - lo + 1
    decreases hi - lo + 1
  {
    if lo > hi then {} else Interval(lo, hi - 1) + {hi}
  }

  lemma Shrinks<K>(s: set<K>, x: K)
    requires x in s
    ensures |s - {x}| == |s| - 1
  {
  }

  lemma SubsetSize(a: set<int>, b: set<int>)
    requires a <= b
    ensures |b - a| == |b| - |a|
  {
    assert b == a + (b - a);
  }
}

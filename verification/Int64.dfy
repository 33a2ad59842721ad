/** Go's 64-bit signed arithmetic: results are taken modulo 2^64 into [-2^63, 2^63). */
module Int64s {

  const TWO63: int := 0x8000_0000_0000_0000
  const TWO64: int := 0x1_0000_0000_0000_0000

  type Int64 = x: int | -TWO63 <= x < TWO63

  function Wrap(x: int): (r: Int64)
    ensures -TWO63 <= x < TWO63 ==> r == x
    decreases if x < 0 then -x - 1 else x
  {
    if x < -TWO63 then Wrap(x + TWO64) else if x < TWO63 then x else Wrap(x - TWO64)
  }

  /** Wrapping adds some multiple of 2^64. */
  lemma {:induction false} WrapMultiple(x: int) returns (k: int)
    ensures Wrap(x) == x + k * 0x1_0000_0000_0000_0000
    decreases if x < 0 then -x - 1 else x
  {
    k := 0;
    if x < -TWO63 {
      k := WrapMultiple(x + TWO64);
      k := k + 1;
    } else if x >= TWO63 {
      k := WrapMultiple(x - TWO64);
      k := k - 1;
    }
  }

  lemma {:induction false} WrapShift(x: int, k: int)
    ensures Wrap(x + k * 0x1_0000_0000_0000_0000) == Wrap(x)
    decreases if k < 0 then -k else k
  {
    if k > 0 {
      WrapShift(x, k - 1);
      WrapNext(x + (k - 1) * 0x1_0000_0000_0000_0000);
    } else if k < 0 {
      WrapShift(x, k + 1);
      WrapNext(x + k * 0x1_0000_0000_0000_0000);
    }
  }

  lemma WrapNext(x: int)
    ensures Wrap(x + TWO64) == Wrap(x)
  {
  }

  lemma WrapAdd(x: int, y: int)
    ensures Wrap(Wrap(x) + y) == Wrap(x + y)
  {
    var k := WrapMultiple(x);
    WrapShift(x + y, k);
  }

  lemma WrapZero(x: int)
    ensures Wrap(x) == 0 <==> x % 0x1_0000_0000_0000_0000 == 0
  {
    var k := WrapMultiple(x);
  }

  /** Go's integer division and remainder truncate toward zero. */
  function Quo(x: int, y: int): int
    requires y > 0
  {
    if x >= 0 then x / y else -((-x) / y)
  }

  function Rem(x: int, y: int): int
    requires y > 0
  {
    x - Quo(x, y) * y
  }
}

/** Two's-complement 32-bit integers, as C#'s `int` behaves inside `unchecked`. */
module Int32Arith {

  const TwoTo32: int := 0x1_0000_0000
  const TwoTo31: int := 0x8000_0000

  type Int32 = x: int | -TwoTo31 <= x < TwoTo31

  /** The `int` that an unbounded value wraps to: equal to `x` modulo 2^32, and in range. */
  function Wrap32(x: int): (w: Int32)
    ensures (x - w) % TwoTo32 == 0
    ensures -TwoTo31 <= x < TwoTo31 ==> w == x
  {
    var m := x % TwoTo32;
    if m >= TwoTo31 then m - TwoTo32 else m
  }

  /** Two values that differ by a multiple of 2^32 wrap to the same `int`. */
  lemma WrapCongruent(x: int, y: int, k: int)
    requires x - y == k * TwoTo32
    ensures Wrap32(x) == Wrap32(y)
  {
    var q := y / TwoTo32;
    var r := y % TwoTo32;
    assert y == q * TwoTo32 + r;
    assert x == (q + k) * TwoTo32 + r;
    ModUnique(x, q + k, r);
  }

  lemma ModUnique(x: int, q: int, r: int)
    requires 0 <= r < TwoTo32 && x == q * TwoTo32 + r
    ensures x % TwoTo32 == r
  {
  }

  /** Wrapping a summand or a factor early does not change the wrapped result:
      `Wrap32(Wrap32(a) * c + b) == Wrap32(a * c + b)`. */
  lemma WrapMulAdd(a: int, c: int, b: int)
    ensures Wrap32(Wrap32(a) * c + b) == Wrap32(a * c + b)
    ensures Wrap32(a * c + Wrap32(b)) == Wrap32(a * c + b)
  {
    var k := (a - Wrap32(a)) / TwoTo32;
    assert a - Wrap32(a) == k * TwoTo32;
    assert (a * c + b) - (Wrap32(a) * c + b) == (k * c) * TwoTo32 by {
      assert (a - Wrap32(a)) * c == (k * TwoTo32) * c;
    }
    WrapCongruent(a * c + b, Wrap32(a) * c + b, k * c);
    var j := (b - Wrap32(b)) / TwoTo32;
    WrapCongruent(a * c + b, a * c + Wrap32(b), j);
  }

  /** Adding two different values below 2^32 to the same base never wraps to the same `int`. */
  lemma WrapShiftInjective(c: int, x: int, y: int)
    requires 0 <= x < TwoTo32 && 0 <= y < TwoTo32 && x != y
    ensures Wrap32(c + x) != Wrap32(c + y)
  {
    var w1, w2 := Wrap32(c + x), Wrap32(c + y);
    var i := (c + x - w1) / TwoTo32;
    var j := (c + y - w2) / TwoTo32;
    assert c + x - w1 == i * TwoTo32;
    assert c + y - w2 == j * TwoTo32;
    assert x - y == (w1 - w2) + (i - j) * TwoTo32;
    assert i - j >= 1 ==> (i - j) * TwoTo32 >= TwoTo32;
    assert i - j <= -1 ==> (i - j) * TwoTo32 <= -TwoTo32;
  }
}

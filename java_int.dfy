/** Java's 32-bit `int`: its range and the two's-complement wrap-around of its arithmetic. */
module JavaInt {

  const TWO32: int := 0x1_0000_0000
  const MIN_INT: int := -0x8000_0000
  const MAX_INT: int := 0x7fff_ffff

  /** A value of Java type `int`. */
  type Int32 = x: int | MIN_INT <= x <= MAX_INT

  /** A value of Java type `long`. */
  type Int64 = x: int | -0x8000_0000_0000_0000 <= x <= 0x7fff_ffff_ffff_ffff

  /** The `int` that Java's overflowing arithmetic yields for the mathematical value `x`:
      the unique `int` congruent to `x` modulo 2^32. */
  function Wrap(x: int): (r: Int32)
    ensures (r - x) % TWO32 == 0
  {
    var m := x % TWO32;
    if m <= MAX_INT then m else m - TWO32
  }

  /** Two congruent values wrap to the same `int`, and only they do. */
  lemma WrapCongruent(x: int, y: int)
    ensures Wrap(x) == Wrap(y) <==> (x - y) % TWO32 == 0
  {
    var rx, ry := Wrap(x), Wrap(y);
    assert (rx - x) % TWO32 == 0 && (ry - y) % TWO32 == 0;
    if (x - y) % TWO32 == 0 {
      assert (rx - ry) % TWO32 == 0 by {
        ModSum(rx - x, x - y, y - ry);
      }
      assert -TWO32 < rx - ry < TWO32;
    }
    if rx == ry {
      assert (x - y) % TWO32 == 0 by {
        ModSum(x - rx, 0, ry - y);
      }
    }
  }

  /** Adding one fixed `int` with wrap-around is injective on `int`s. */
  lemma WrapAddInjective(s: int, x: Int32, y: Int32)
    ensures Wrap(s + x) == Wrap(s + y) <==> x == y
  {
    WrapCongruent(s + x, s + y);
    assert (s + x) - (s + y) == x - y;
    assert -TWO32 < x - y < TWO32;
  }

  /** A helper on multiples of 2^32: a sum of three multiples is a multiple. */
  lemma ModSum(a: int, b: int, c: int)
    requires a % TWO32 == 0 && b % TWO32 == 0 && c % TWO32 == 0
    ensures (a + b + c) % TWO32 == 0
  {
    assert a == (a / TWO32) * TWO32;
    assert b == (b / TWO32) * TWO32;
    assert c == (c / TWO32) * TWO32;
    assert a + b + c == (a / TWO32 + b / TWO32 + c / TWO32) * TWO32;
  }
}

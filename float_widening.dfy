/** Java's widening conversion of an `int` to `float` (JLS 5.1.2): the value is rounded to the
    nearest IEEE 754 single-precision value, ties going to the even significand. A float obtained
    from an `int` is always an integer, so it is represented here by that exact integer value. */
module FloatWidening {

  /** 2^24: a float's significand holds 24 bits. */
  const SIGNIFICAND: nat := 0x100_0000

  predicate IsPowerOfTwo(p: nat)
  {
    p == 1 || (p >= 2 && p % 2 == 0 && IsPowerOfTwo(p / 2))
  }

  function Abs(x: int): nat
  {
    if x >= 0 then x else -x
  }

  /** The gap between adjacent floats around the magnitude `m`: the least power of two `p`
      with `m < 2^24 * p`. */
  function Spacing(m: nat): (p: nat)
    ensures p >= 1 && IsPowerOfTwo(p)
    ensures m < SIGNIFICAND * p
    ensures p == 1 || SIGNIFICAND * p <= 2 * m
  {
    if m < SIGNIFICAND then 1 else 2 * Spacing(m / 2)
  }

  /** The number of steps of size `p` nearest to `m`; a tie goes to the even count. */
  function RoundedSteps(m: nat, p: nat): (k: nat)
    requires p >= 1
    ensures -(p as int) <= 2 * (k * p - m) <= p
    ensures 2 * (k * p - m) == p || 2 * (m - k * p) == p ==> k % 2 == 0
  {
    StepsWithinHalf(m, p);
    Nearer(m / p, m % p, p)
  }

  /** The quotient `q` rounded by its remainder `rem`: `q` below half a step, `q + 1` above it,
      and on a tie whichever of the two is even. */
  function Nearer(q: nat, rem: nat, p: nat): nat
  {
    if 2 * rem < p then q
    else if 2 * rem > p then q + 1
    else if q % 2 == 0 then q
    else q + 1
  }

  lemma StepsWithinHalf(m: nat, p: nat)
    requires p >= 1
    ensures var k := Nearer(m / p, m % p, p);
      && -(p as int) <= 2 * (k * p - m) <= p
      && (2 * (k * p - m) == p || 2 * (m - k * p) == p ==> k % 2 == 0)
  {
    var q, rem := m / p, m % p;
    var s := q * p;
    assert m == s + rem;
    assert (q + 1) * p == s + p;
    var k := Nearer(q, rem, p);
    assert k * p == if k == q then s else s + p;
  }

  /** The magnitude of `(float) n` when `n` has magnitude `m`: the nearest whole number of
      steps of the spacing at `m`. */
  function RoundedMagnitude(m: nat): nat
  {
    var p := Spacing(m);
    var k := RoundedSteps(m, p);
    MulLeq(0, k, p);
    k * p
  }

  /** `(float) n` for an `int` `n`, as the exact value of the resulting float. */
  function IntToFloat(n: int): int
  {
    if n >= 0 then RoundedMagnitude(n) as int else -(RoundedMagnitude(-n) as int)
  }

  lemma MulLeq(a: int, b: int, p: nat)
    requires a <= b
    ensures a * p <= b * p
  {
    assert b * p - a * p == (b - a) * p;
  }

  /** One or two more steps cover at least one or two more step sizes. */
  lemma MulSteps(x: int, y: int, p: nat)
    ensures x + 1 <= y ==> x * p + p <= y * p
    ensures x + 2 <= y ==> x * p + 2 * p <= y * p
  {
    if x + 1 <= y {
      MulLeq(x + 1, y, p);
      assert (x + 1) * p == x * p + p;
    }
    if x + 2 <= y {
      MulLeq(x + 2, y, p);
      assert (x + 2) * p == x * p + 2 * p;
    }
  }

  lemma LessFromMul(a: int, b: int, p: nat)
    requires p >= 1 && a * p < b * p
    ensures a < b
  {
    if b <= a {
      MulLeq(b, a, p);
    }
  }

  /** Every magnitude up to 2^24 converts exactly. */
  lemma IntToFloatExact(n: int)
    requires -(SIGNIFICAND as int) <= n <= SIGNIFICAND
    ensures IntToFloat(n) == n
  {
    var m := Abs(n);
    if m == SIGNIFICAND {
      assert Spacing(m) == 2 * Spacing(m / 2);
      assert Spacing(m / 2) == 1;
      assert RoundedSteps(m, 2) == m / 2;
    } else {
      assert Spacing(m) == 1;
      assert RoundedSteps(m, 1) == m;
    }
  }

  /** The result is a float: its magnitude is `k` steps of the spacing at `n`, with `k` at
      most 2^24, the largest 24-bit significand at that spacing. */
  lemma IntToFloatIsFloat(n: int)
    ensures var p, k := Spacing(Abs(n)), RoundedSteps(Abs(n), Spacing(Abs(n)));
      Abs(IntToFloat(n)) == k * p && k <= SIGNIFICAND
  {
    var m := Abs(n);
    var p := Spacing(m);
    var k := RoundedSteps(m, p);
    assert 0 <= k * p by { MulLeq(0, k, p); }
    StepsBelowLimit(m, p);
  }

  lemma StepsBelowLimit(m: nat, p: nat)
    requires p >= 1 && m < SIGNIFICAND * p
    ensures RoundedSteps(m, p) <= SIGNIFICAND
  {
    MulSteps(SIGNIFICAND, RoundedSteps(m, p), p);
  }

  /** No float at the spacing of `n` is nearer to `n` than the conversion's result. */
  lemma IntToFloatNearest(n: int, g: int)
    ensures Abs(IntToFloat(n) - n) <= Abs(g * Spacing(Abs(n)) - n)
  {
    var m := Abs(n);
    var p := Spacing(m);
    var k := RoundedSteps(m, p);
    if n >= 0 {
      NearestSteps(m, p, k, g);
    } else {
      NearestSteps(m, p, k, -g);
      assert (-g) * p == -(g * p);
    }
  }

  /** `k` steps within half a step of `m` are at least as near as any other whole number of steps. */
  lemma NearestSteps(m: int, p: nat, k: int, j: int)
    requires p >= 1 && -(p as int) <= 2 * (k * p - m) <= p
    ensures Abs(k * p - m) <= Abs(j * p - m)
  {
    if j > k {
      MulLeq(k + 1, j, p);
      assert (k + 1) * p == k * p + p;
    } else if j < k {
      MulLeq(j, k - 1, p);
      assert (k - 1) * p == k * p - p;
    }
  }

  /** Above 2^24 distinct `int`s can convert to the same float: 16777217 becomes 16777216. */
  lemma IntToFloatLosesPrecision()
    ensures IntToFloat(SIGNIFICAND + 1) == SIGNIFICAND == IntToFloat(SIGNIFICAND)
  {
    IntToFloatExact(SIGNIFICAND);
    var m := SIGNIFICAND + 1;
    assert Spacing(m) == 2 * Spacing(m / 2);
    assert Spacing(m / 2) == 1;
    assert RoundedSteps(m, 2) == SIGNIFICAND / 2;
  }

  /** Conversion keeps the order of its arguments, though not strictly. */
  lemma IntToFloatMonotone(a: int, b: int)
    requires a <= b
    ensures IntToFloat(a) <= IntToFloat(b)
  {
    if 0 <= a {
      MagnitudeMonotone(a, b);
    } else if b < 0 {
      MagnitudeMonotone(-b, -a);
    }
  }

  lemma MagnitudeMonotone(a: nat, b: nat)
    requires a <= b
    ensures RoundedMagnitude(a) <= RoundedMagnitude(b)
  {
    var pa, pb := Spacing(a), Spacing(b);
    SpacingMonotone(a, b);
    if pa == pb {
      StepsMonotone(a, b, pa);
    } else {
      PowerOfTwoGap(pa, pb);
      StepsBelowLimit(a, pa);
      MulLeq(RoundedSteps(a, pa), SIGNIFICAND, pa);
      StepsAboveHalfLimit(b, pb);
      MulLeq(SIGNIFICAND / 2, RoundedSteps(b, pb), pb);
      assert SIGNIFICAND * pa <= (SIGNIFICAND / 2) * pb by {
        MulLeq(2 * pa, pb, SIGNIFICAND / 2);
      }
    }
  }

  lemma {:induction false} SpacingMonotone(a: nat, b: nat)
    requires a <= b
    ensures Spacing(a) <= Spacing(b)
  {
    if a >= SIGNIFICAND {
      SpacingMonotone(a / 2, b / 2);
    }
  }

  /** Rounding to whole steps never reverses order: a larger value is at least as many steps. */
  lemma StepsMonotone(a: nat, b: nat, p: nat)
    requires a <= b && p >= 1
    ensures RoundedSteps(a, p) <= RoundedSteps(b, p)
    ensures RoundedSteps(a, p) * p <= RoundedSteps(b, p) * p
  {
    var ka, kb := RoundedSteps(a, p), RoundedSteps(b, p);
    MulSteps(kb, ka, p);
    assert ka <= kb;
    MulLeq(ka, kb, p);
  }

  lemma {:induction false} PowerOfTwoGap(x: nat, y: nat)
    requires IsPowerOfTwo(x) && IsPowerOfTwo(y) && x < y
    ensures 2 * x <= y
  {
    if x != 1 {
      PowerOfTwoGap(x / 2, y / 2);
    }
  }

  lemma StepsAboveHalfLimit(m: nat, p: nat)
    requires p >= 2 && SIGNIFICAND * p <= 2 * m
    ensures SIGNIFICAND / 2 <= RoundedSteps(m, p)
  {
    var k := RoundedSteps(m, p);
    assert (SIGNIFICAND - 1) * p < (2 * k) * p + p;
    assert (SIGNIFICAND - 1) * p < (2 * k + 1) * p;
    LessFromMul(SIGNIFICAND - 1, 2 * k + 1, p);
  }
}

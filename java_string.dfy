/** Java strings as the JDK sees them: sequences of UTF-16 code units, and `String.hashCode()`. */
module JavaString {
  import opened JavaInt

  /** The UTF-16 code units of one character: the character itself below U+10000,
      otherwise a high surrogate followed by a low surrogate. */
  function CodeUnits(c: char): (u: seq<int>)
    ensures 1 <= |u| <= 2
    ensures forall i :: 0 <= i < |u| ==> 0 <= u[i] < 0x1_0000
    ensures |u| == 1 <==> c as int < 0x1_0000
    ensures |u| == 1 ==> u[0] == c as int
    ensures |u| == 2 ==>
      && 0xD800 <= u[0] < 0xDC00 <= u[1] < 0xE000
      && 0x1_0000 + (u[0] - 0xD800) * 0x400 + (u[1] - 0xDC00) == c as int
  {
    if c as int < 0x1_0000 then [c as int]
    else
      var v := c as int - 0x1_0000;
      [0xD800 + v / 0x400, 0xDC00 + v % 0x400]
  }

  /** The code units of a string, the representation Java's `String` holds. */
  function Utf16(s: string): (u: seq<int>)
    ensures |s| <= |u| <= 2 * |s|
    ensures forall i :: 0 <= i < |u| ==> 0 <= u[i] < 0x1_0000
  {
    if |s| == 0 then [] else CodeUnits(s[0]) + Utf16(s[1..])
  }

  /** The hash loop of `String.hashCode()`: `h = 31 * h + unit` for each code unit in turn,
      in overflowing `int` arithmetic. */
  function HashUnits(u: seq<int>): Int32
  {
    if |u| == 0 then 0 else Wrap(31 * HashUnits(u[..|u| - 1]) + u[|u| - 1])
  }

  /** `String.hashCode()`. */
  function HashCode(s: string): Int32
  {
    HashUnits(Utf16(s))
  }

  function Pow31(k: nat): (r: nat)
    ensures r >= 1
  {
    if k == 0 then 1 else 31 * Pow31(k - 1)
  }

  /** The documented value of the hash, `s[0]*31^(n-1) + s[1]*31^(n-2) + ... + s[n-1]`,
      before reduction to 32 bits. */
  function Polynomial(u: seq<int>): int
  {
    if |u| == 0 then 0 else u[0] * Pow31(|u| - 1) + Polynomial(u[1..])
  }

  lemma {:induction false} PolynomialSnoc(u: seq<int>, c: int)
    ensures Polynomial(u + [c]) == 31 * Polynomial(u) + c
  {
    if |u| == 0 {
      assert u + [c] == [c];
    } else {
      var w := u[1..];
      assert (u + [c])[1..] == w + [c];
      PolynomialSnoc(w, c);
      calc {
        Polynomial(u + [c]);
        u[0] * Pow31(|w| + 1) + Polynomial(w + [c]);
        u[0] * (31 * Pow31(|w|)) + 31 * Polynomial(w) + c;
        { assert u[0] * (31 * Pow31(|w|)) == 31 * (u[0] * Pow31(|w|)); }
        31 * (u[0] * Pow31(|w|) + Polynomial(w)) + c;
      }
    }
  }

  /** One step of the hash loop keeps the running hash congruent to the polynomial. */
  lemma HashStep(h: int, poly: int, c: int)
    requires (h - poly) % TWO32 == 0
    ensures Wrap(31 * h + c) == Wrap(31 * poly + c)
  {
    var d := h - poly;
    ModSum(d, d, d);
    ModSum(3 * d, 3 * d, 3 * d);
    ModSum(9 * d, 9 * d, 9 * d);
    ModSum(27 * d, 3 * d, d);
    assert (31 * h + c) - (31 * poly + c) == 31 * d;
    WrapCongruent(31 * h + c, 31 * poly + c);
  }

  /** The hash loop computes the documented polynomial modulo 2^32. */
  lemma {:induction false} HashMatchesFormula(u: seq<int>)
    ensures HashUnits(u) == Wrap(Polynomial(u))
  {
    if |u| > 0 {
      var p, c := u[..|u| - 1], u[|u| - 1];
      assert u == p + [c];
      HashMatchesFormula(p);
      PolynomialSnoc(p, c);
      HashStep(HashUnits(p), Polynomial(p), c);
    }
  }
}

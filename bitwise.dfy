/**
 * The C bit operators `&`, `|`, `<<` and `>>` on non-negative integers, written out
 * bit by bit, with the arithmetic facts the address computations rely on.
 */
module Bitwise {

  function Pow2(k: nat): (r: nat)
    ensures r >= 1
  {
    if k == 0 then 1 else 2 * Pow2(k - 1)
  }

  /** `x & y`: bit i of the result is set iff bit i is set in both. */
  function BitAnd(x: nat, y: nat): (r: nat)
    decreases x
  {
    if x == 0 || y == 0 then 0
    else 2 * BitAnd(x / 2, y / 2) + (if x % 2 == 1 && y % 2 == 1 then 1 else 0)
  }

  /** `x | y`: bit i of the result is set iff bit i is set in either. */
  function BitOr(x: nat, y: nat): (r: nat)
    decreases x + y
  {
    if x == 0 then y
    else if y == 0 then x
    else 2 * BitOr(x / 2, y / 2) + (if x % 2 == 1 || y % 2 == 1 then 1 else 0)
  }

  /** `x << k`. */
  function ShiftLeft(x: nat, k: nat): (r: nat)
  {
    if k == 0 then x else 2 * ShiftLeft(x, k - 1)
  }

  /** `x >> k` on a non-negative `x`. */
  function ShiftRight(x: nat, k: nat): (r: nat)
  {
    if k == 0 then x else ShiftRight(x / 2, k - 1)
  }

  lemma MulAtLeast(m: int, d: int)
    requires m > 0 && d >= 1
    ensures m * d >= m
  {
    assert m * d == m * (d - 1) + m;
    assert m * (d - 1) >= 0;
  }

  /** Euclidean quotient and remainder are determined by `x == m * a + c`, `0 <= c < m`. */
  lemma UniqueDivMod(x: int, m: int, a: int, c: int)
    requires m > 0 && x == m * a + c && 0 <= c < m
    ensures x / m == a && x % m == c
  {
    var a', c' := x / m, x % m;
    assert x == m * a' + c';
    assert m * a - m * a' == m * (a - a');
    if a' < a {
      MulAtLeast(m, a - a');
      assert false;
    } else if a' > a {
      assert m * a' - m * a == m * (a' - a);
      MulAtLeast(m, a' - a);
      assert false;
    }
  }

  lemma DivModHalf(x: nat, p: nat)
    requires p >= 1
    ensures x % (2 * p) == 2 * ((x / 2) % p) + x % 2
    ensures x / (2 * p) == (x / 2) / p
  {
    var q, r := x / 2, x % 2;
    var a, b := q / p, q % p;
    assert q == p * a + b;
    assert x == (2 * p) * a + (2 * b + r);
    UniqueDivMod(x, 2 * p, a, 2 * b + r);
  }

  /** The lowest bit of a mask `2p - 1` is set, and the rest of it is `p - 1`. */
  lemma AndOddMask(x: nat, p: nat)
    requires p >= 1
    ensures BitAnd(x, 2 * p - 1) == 2 * BitAnd(x / 2, p - 1) + x % 2
  {
    var m := 2 * p - 1;
    assert m % 2 == 1 && m / 2 == p - 1;
    if x == 0 {
      assert BitAnd(x / 2, p - 1) == 0;
    }
  }

  /** One bit of the induction of AndLowMask. */
  lemma AndLowMaskStep(x: nat, k: nat)
    requires k > 0 && BitAnd(x / 2, Pow2(k - 1) - 1) == (x / 2) % Pow2(k - 1)
    ensures BitAnd(x, Pow2(k) - 1) == x % Pow2(k)
  {
    var p := Pow2(k - 1);
    AndOddMask(x, p);
    DivModHalf(x, p);
  }

  /** Masking with k one-bits keeps the remainder modulo 2^k. */
  lemma {:induction false} AndLowMask(x: nat, k: nat)
    ensures BitAnd(x, Pow2(k) - 1) == x % Pow2(k)
  {
    if k > 0 {
      AndLowMask(x / 2, k - 1);
      AndLowMaskStep(x, k);
    } else {
      assert Pow2(k) == 1 && BitAnd(x, 0) == 0;
    }
  }

  lemma {:induction false} ShiftLeftZero(k: nat)
    ensures ShiftLeft(0, k) == 0
  {
    if k > 0 {
      ShiftLeftZero(k - 1);
    }
  }

  lemma {:induction false} ShiftLeftPositive(x: nat, k: nat)
    requires x > 0
    ensures ShiftLeft(x, k) > 0
  {
    if k > 0 {
      ShiftLeftPositive(x, k - 1);
    }
  }

  /** Masking with a shifted mask is masking the shifted-down value, shifted back up. */
  lemma {:induction false} AndShiftedMask(x: nat, m: nat, k: nat)
    ensures BitAnd(x, ShiftLeft(m, k)) == ShiftLeft(BitAnd(ShiftRight(x, k), m), k)
  {
    if k > 0 {
      AndShiftedMask(x / 2, m, k - 1);
      ShiftLeftZero(k);
      ShiftLeftZero(k - 1);
      if x != 0 && m != 0 {
        ShiftLeftPositive(m, k - 1);
        assert BitAnd(x, ShiftLeft(m, k)) == 2 * BitAnd(x / 2, ShiftLeft(m, k - 1));
      }
    }
  }

  lemma {:induction false} ShiftRightIsDiv(x: nat, k: nat)
    ensures ShiftRight(x, k) == x / Pow2(k)
  {
    if k > 0 {
      ShiftRightIsDiv(x / 2, k - 1);
      DivModHalf(x, Pow2(k - 1));
    }
  }

  lemma {:induction false} ShiftLeftIsMul(x: nat, k: nat)
    ensures ShiftLeft(x, k) == x * Pow2(k)
  {
    if k > 0 {
      ShiftLeftIsMul(x, k - 1);
      assert x * Pow2(k) == 2 * (x * Pow2(k - 1));
    }
  }

  lemma {:induction false} ShiftRightOfShiftLeft(x: nat, k: nat)
    ensures ShiftRight(ShiftLeft(x, k), k) == x
  {
    ShiftLeftIsMul(x, k);
    ShiftRightIsDiv(ShiftLeft(x, k), k);
    UniqueDivMod(x * Pow2(k), Pow2(k), x, 0);
  }

  /** Or-ing a value below 2^k into a value shifted left by k is adding it. */
  lemma {:induction false} OrShifted(x: nat, y: nat, k: nat)
    requires y < Pow2(k)
    ensures BitOr(ShiftLeft(x, k), y) == ShiftLeft(x, k) + y
  {
    if x == 0 {
      ShiftLeftZero(k);
    } else if k > 0 && y != 0 {
      ShiftLeftPositive(x, k - 1);
      OrShifted(x, y / 2, k - 1);
    }
  }
}

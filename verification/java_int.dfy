/**
 * Java's fixed-width integer arithmetic, written out over Dafny's unbounded
 * integers: the ranges of int and long, two's-complement wrap-around of an
 * int result, Math.abs on an int, and the truncating division and remainder
 * of Java's `/` and `%` (Dafny's own are Euclidean).
 */
module JavaInt {

  const MinInt: int := -0x8000_0000
  const MaxInt: int := 0x7fff_ffff
  const MinLong: int := -0x8000_0000_0000_0000
  const MaxLong: int := 0x7fff_ffff_ffff_ffff

  /** 2^32, the number of distinct int values */
  const IntModulus: int := 0x1_0000_0000

  predicate IsInt(x: int) { MinInt <= x <= MaxInt }

  predicate IsLong(x: int) { MinLong <= x <= MaxLong }

  function Abs(x: int): (r: nat)
    ensures r == x || r == -x
  {
    if x < 0 then -x else x
  }

  /**
   * The int that Java's 32-bit arithmetic yields for an exact result x:
   * x moved by multiples of 2^32 into the int range.
   */
  function Wrap32(x: int): (r: int)
    ensures IsInt(r)
    ensures IsInt(x) ==> r == x
    decreases if x > MaxInt then x - MaxInt else if x < MinInt then MinInt - x else 0
  {
    if x > MaxInt then Wrap32(x - IntModulus)
    else if x < MinInt then Wrap32(x + IntModulus)
    else x
  }

  /** Wrapping is two's-complement reduction: the int congruent to x modulo 2^32. */
  lemma {:induction false} WrapIsModulo(x: int)
    ensures Wrap32(x) == (x - MinInt) % IntModulus + MinInt
    ensures (Wrap32(x) - x) % IntModulus == 0
    decreases if x > MaxInt then x - MaxInt else if x < MinInt then MinInt - x else 0
  {
    if x > MaxInt {
      WrapIsModulo(x - IntModulus);
      ModuloShift(x - IntModulus - MinInt);
    } else if x < MinInt {
      WrapIsModulo(x + IntModulus);
      ModuloShift(x - MinInt);
    }
  }

  /** Adding 2^32 does not change a value modulo 2^32. */
  lemma ModuloShift(y: int)
    ensures (y + IntModulus) % IntModulus == y % IntModulus
  {
    var q, r := y / IntModulus, y % IntModulus;
    assert y + IntModulus == (q + 1) * IntModulus + r;
  }

  /**
   * Equal exact results wrap to the same int. Callers pass the two
   * arguments as they appear, so that the solver matches the Wrap32 terms
   * directly instead of unfolding the recursion on a rewritten argument.
   */
  lemma WrapArg(x: int, y: int)
    requires x == y
    ensures Wrap32(x) == Wrap32(y)
  {
  }

  /** The remainder modulo 2^32 of q * 2^32 + r is r, for 0 <= r < 2^32. */
  lemma ModuloOfDecomposition(x: int, q: int, r: int)
    requires 0 <= r < IntModulus && x == IntModulus * q + r
    ensures x % IntModulus == r
  {
  }

  /** Two values that differ by a multiple of 2^32 wrap to the same int. */
  lemma WrapCongruent(x: int, y: int)
    requires (x - y) % IntModulus == 0
    ensures Wrap32(x) == Wrap32(y)
  {
    WrapIsModulo(x);
    WrapIsModulo(y);
    var k := (x - y) / IntModulus;
    assert x - y == IntModulus * k;
    var q, r := (y - MinInt) / IntModulus, (y - MinInt) % IntModulus;
    assert y - MinInt == IntModulus * q + r;
    ModuloOfDecomposition(x - MinInt, q + k, r);
  }

  /** Wrapping after each step equals wrapping once: negating a wrapped value. */
  lemma WrapNegate(x: int)
    ensures Wrap32(-Wrap32(x)) == Wrap32(-x)
  {
    WrapIsModulo(x);
    WrapCongruent(-Wrap32(x), -x);
  }

  /** Math.abs(int): the negation wraps, so Math.abs(Integer.MIN_VALUE) is negative. */
  function AbsInt(x: int): (r: int)
    requires IsInt(x)
    ensures IsInt(r)
    ensures x != MinInt ==> r == Abs(x)
    ensures x == MinInt ==> r == MinInt
  {
    if x < 0 then Wrap32(-x) else x
  }

  /** Java's `a / b` for a positive divisor: the quotient truncated toward zero. */
  function Quot(a: int, b: int): (q: int)
    requires b > 0
    ensures a >= 0 ==> 0 <= a - q * b < b
    ensures a < 0 ==> 0 <= q * b - a < b
  {
    if a >= 0 then a / b else -((-a) / b)
  }

  /** Java's `a % b` for a positive divisor: the remainder takes the sign of a. */
  function Rem(a: int, b: int): (r: int)
    requires b > 0
    ensures a >= 0 ==> r == a % b
    ensures a < 0 ==> r == -(Abs(a) % b)
  {
    var q := Quot(a, b);
    assert a < 0 ==> -a == b * ((-a) / b) + (-a) % b;
    a - q * b
  }

  /** Truncating division is odd: the quotient and remainder of -a are those of a, negated. */
  lemma QuotRemOdd(a: int, b: int)
    requires b > 0
    ensures Quot(-a, b) == -Quot(a, b)
    ensures Rem(-a, b) == -Rem(a, b)
  {
    if a > 0 {
      assert Quot(-a, b) == -(a / b);
    } else if a < 0 {
      assert Quot(a, b) == -((-a) / b);
    }
    assert Quot(-a, b) * b == -(Quot(a, b) * b);
  }
}

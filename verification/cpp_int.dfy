/** The C++ `int` type as the calculator uses it: a 32-bit two's-complement
    integer whose signed overflow is undefined, and whose `/` truncates the
    quotient toward zero (ISO/IEC 14882, section [expr.mul]). Dafny's `/` on
    `int` is Euclidean, so the truncating quotient is defined here explicitly.
 */
module CppInt {

  const MIN: int := -0x8000_0000
  const MAX: int := 0x7fff_ffff

  /** A value of C++ `int`. */
  newtype int32 = x: int | -0x8000_0000 <= x < 0x8000_0000

  /** True when the mathematical value `x` is representable as an `int`, so that
      an operation producing it has defined behaviour. */
  predicate InRange(x: int) {
    MIN <= x <= MAX
  }

  function Abs(x: int): (r: nat)
    ensures r == x || r == -x
  {
    if x < 0 then -x else x
  }

  /** A remainder `r` of `a` by `b` is admissible for truncating division when
      it is smaller than the divisor in magnitude and is zero or carries the
      sign of the dividend. */
  predicate TruncRemainder(a: int, b: int, r: int) {
    Abs(r) < Abs(b) && (r == 0 || (r < 0 <==> a < 0))
  }

  /** The magnitude of a product is the product of the magnitudes. */
  lemma AbsMul(x: int, y: int)
    ensures Abs(x * y) == Abs(x) * Abs(y)
  {
    if x < 0 && y < 0 {
      assert x * y == (-x) * (-y);
    } else if x < 0 {
      assert x * y == -((-x) * y);
    } else if y < 0 {
      assert x * y == -(x * (-y));
    }
  }

  lemma NegMul(x: int, y: int)
    ensures (-x) * y == -(x * y)
  {
  }

  lemma SubMul(x: int, y: int, z: int)
    ensures x * z - y * z == (x - y) * z
  {
  }

  lemma {:induction false} ScaleAtLeast(x: nat, y: nat)
    requires x >= 1
    ensures x * y >= y
  {
    if x > 1 {
      ScaleAtLeast(x - 1, y);
      assert x * y == (x - 1) * y + y;
    }
  }

  /** Multiplying by a larger factor gives a product no smaller. */
  lemma {:induction false} ScaleMonotone(x: nat, y: int, z: int)
    requires y <= z
    ensures x * y <= x * z
  {
    if x > 0 {
      ScaleMonotone(x - 1, y, z);
      assert x * y == (x - 1) * y + y;
      assert x * z == (x - 1) * z + z;
    }
  }

  /** A non-zero multiple of `b` is at least as large as `b` in magnitude. */
  lemma MultipleAtLeast(d: int, b: int)
    requires d != 0
    ensures Abs(d * b) >= Abs(b)
  {
    AbsMul(d, b);
    ScaleAtLeast(Abs(d), Abs(b));
  }

  /** The Euclidean quotient of a non-negative dividend times the divisor is
      non-negative and at most the dividend. */
  lemma EuclideanNonNegative(a: int, b: int)
    requires a >= 0 && b != 0
    ensures 0 <= (a / b) * b <= a
    ensures 0 <= a % b < Abs(b)
  {
    var p := (a / b) * b;
    assert p == a - a % b;
    if p < 0 {
      MultipleAtLeast(a / b, b);
      assert false;
    }
  }

  /** The quotient of C++ integer division. For a non-negative dividend the
      Euclidean quotient already rounds toward zero, because its remainder is
      non-negative; a negative dividend is divided in magnitude and negated.
      Its remainder is admissible for truncating division, and the quotient
      times the divisor never exceeds the dividend in magnitude. */
  function TruncDiv(a: int, b: int): (q: int)
    requires b != 0
    ensures TruncRemainder(a, b, a - q * b)
    ensures Abs(q * b) <= Abs(a)
  {
    if a >= 0 then
      EuclideanNonNegative(a, b);
      a / b
    else
      var q' := (-a) / b;
      EuclideanNonNegative(-a, b);
      NegMul(q', b);
      -q'
  }

  /** Truncating division is the only quotient whose remainder is admissible:
      together with the contract of `TruncDiv` this makes the admissibility
      predicate an independent definition of C++ division. */
  lemma {:induction false} TruncDivUnique(a: int, b: int, q: int)
    requires b != 0
    requires TruncRemainder(a, b, a - q * b)
    ensures q == TruncDiv(a, b)
  {
    var q0 := TruncDiv(a, b);
    var r0, r := a - q0 * b, a - q * b;
    SubMul(q, q0, b);
    assert r0 - r == (q - q0) * b;
    assert Abs(r0 - r) < Abs(b);
    if q != q0 {
      MultipleAtLeast(q - q0, b);
      assert false;
    }
  }

  /** The truncating quotient of two `int`s is an `int` again, except for
      `MIN / -1`, whose mathematical value `MAX + 1` is not. */
  lemma {:induction false} TruncDivInRange(a: int, b: int)
    requires InRange(a) && InRange(b) && b != 0
    ensures InRange(TruncDiv(a, b)) <==> !(a == MIN && b == -1)
  {
    var q := TruncDiv(a, b);
    AbsMul(q, b);
    if b == 1 || b == -1 {
      assert q * b == a;
    } else {
      ScaleMonotone(Abs(q), 2, Abs(b));
      assert Abs(q) * 2 <= Abs(a) <= MAX + 1;
    }
  }

  /** For a non-negative dividend, C++ and Dafny agree on both the quotient
      and the remainder: the Euclidean remainder is admissible, so the
      Euclidean quotient is the truncating one. */
  lemma {:induction false} TruncDivMatchesEuclidean(a: int, b: int)
    requires a >= 0 && b != 0
    ensures TruncRemainder(a, b, a % b)
    ensures TruncDiv(a, b) == a / b
    ensures a - TruncDiv(a, b) * b == a % b
  {
    EuclideanNonNegative(a, b);
    assert a - (a / b) * b == a % b;
    TruncDivUnique(a, b, a / b);
  }

  /** -7 / 2 is -3 with remainder -1 in C++, whereas Dafny's Euclidean
      division gives -4 with remainder 1. */
  lemma TruncDivRoundsTowardZero()
    ensures TruncDiv(-7, 2) == -3 && -7 - TruncDiv(-7, 2) * 2 == -1
    ensures -7 / 2 == -4 && -7 % 2 == 1
  {
  }
}

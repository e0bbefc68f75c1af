/** The calculator: four arithmetic operations over C++ `int`. The C++ class
    keeps no state (its implementation object is empty and every operation is
    a static function of its two arguments), so the operations are modelled as
    plain functions without a receiver.
 */
module Calculator {
  import opened CppInt

  /** The one error of the calculator, raised as `std::invalid_argument`. */
  datatype Error = InvalidArgument(what: string)

  /** The outcome of `divide`: a quotient, or the exception it throws. */
  datatype Result<T> = Success(value: T) | Failure(error: Error)

  const DivisionByZero: string := "Division by zero"

  /** `add`: the mathematical sum. Signed overflow is undefined in C++, so the
      sum must be representable. */
  function Add(lhs: int32, rhs: int32): (r: int32)
    requires InRange(lhs as int + rhs as int)
    ensures r as int == lhs as int + rhs as int
  {
    lhs + rhs
  }

  /** `subtract`: the first operand minus the second. */
  function Subtract(lhs: int32, rhs: int32): (r: int32)
    requires InRange(lhs as int - rhs as int)
    ensures r as int == lhs as int - rhs as int
  {
    lhs - rhs
  }

  /** `multiply`: the mathematical product. */
  function Multiply(lhs: int32, rhs: int32): (r: int32)
    requires InRange(lhs as int * rhs as int)
    ensures r as int == lhs as int * rhs as int
  {
    lhs * rhs
  }

  /** `divide`: fails with "Division by zero" exactly when the divisor is
      zero; otherwise returns the quotient truncated toward zero. `MIN / -1`
      overflows, which is undefined in C++, so it is excluded. */
  function Divide(lhs: int32, rhs: int32): (r: Result<int32>)
    requires !(lhs as int == MIN && rhs as int == -1)
    ensures r.Failure? <==> rhs == 0
    ensures r.Failure? ==> r.error == InvalidArgument(DivisionByZero)
    ensures r.Success? ==> TruncRemainder(lhs as int, rhs as int, lhs as int - r.value as int * rhs as int)
    ensures r.Success? ==> Abs(r.value as int * rhs as int) <= Abs(lhs as int)
  {
    if rhs == 0 then
      Failure(InvalidArgument(DivisionByZero))
    else
      TruncDivInRange(lhs as int, rhs as int);
      Success(TruncDiv(lhs as int, rhs as int) as int32)
  }

  /** The quotient `divide` returns is C++'s `/`, and on non-negative operands
      it is Dafny's Euclidean quotient. */
  lemma DivideIsTruncDiv(lhs: int32, rhs: int32)
    requires rhs != 0 && !(lhs as int == MIN && rhs as int == -1)
    ensures Divide(lhs, rhs) == Success(TruncDiv(lhs as int, rhs as int) as int32)
    ensures lhs >= 0 && rhs > 0 ==> Divide(lhs, rhs) == Success(lhs / rhs)
  {
    var q := Divide(lhs, rhs).value;
    TruncDivUnique(lhs as int, rhs as int, q as int);
  }

  /** Subtraction undoes addition. */
  lemma SubtractUndoesAdd(a: int32, b: int32)
    requires InRange(a as int + b as int)
    ensures Subtract(Add(a, b), b) == a
  {
  }

  /** Addition does not depend on operand order. */
  lemma AddCommutes(a: int32, b: int32)
    requires InRange(a as int + b as int)
    ensures Add(a, b) == Add(b, a)
  {
  }

  /** Multiplication does not depend on operand order. */
  lemma MultiplyCommutes(a: int32, b: int32)
    requires InRange(a as int * b as int)
    ensures Multiply(a, b) == Multiply(b, a)
  {
  }

  /** Subtraction depends on operand order: swapping the operands gives the
      same difference only when they are equal, and otherwise its negation. */
  lemma SubtractOrderMatters(a: int32, b: int32)
    requires InRange(a as int - b as int) && InRange(b as int - a as int)
    ensures Subtract(a, b) == Subtract(b, a) <==> a == b
    ensures Subtract(a, b) as int == -(Subtract(b, a) as int)
  {
  }

  /** The quotient is truncated toward zero whatever the operands' signs. */
  lemma DivideTruncatesTowardZero()
    ensures Divide(-7, 2) == Success(-3) && Divide(7, -2) == Success(-3)
    ensures Divide(-7, -2) == Success(3) && Divide(7, 2) == Success(3)
  {
    DivideIsTruncDiv(-7, 2);
    DivideIsTruncDiv(7, -2);
    DivideIsTruncDiv(-7, -2);
    DivideIsTruncDiv(7, 2);
  }

  /** Dividing a product by one of its factors gives back the other factor. */
  lemma {:induction false} DivideUndoesMultiply(a: int32, b: int32)
    requires b != 0 && InRange(a as int * b as int)
    ensures !(Multiply(a, b) as int == MIN && b as int == -1)
    ensures Divide(Multiply(a, b), b) == Success(a)
  {
    var p := Multiply(a, b);
    var q := Divide(p, b).value;
    assert TruncRemainder(p as int, b as int, p as int - a as int * b as int);
    TruncDivUnique(p as int, b as int, a as int);
    TruncDivUnique(p as int, b as int, q as int);
  }
}

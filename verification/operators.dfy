/**
  Exact rational arithmetic for the digit-expression search (Euler259.cpp). Dafny's `real`
  is an exact rational, so it stands for `boost::rational`; a value is an integer exactly
  when it equals its own floor.
 */
module Operators {

  /** Why an evaluation stopped: a zero divisor (the `overflow_error` the source throws),
      or a pop from an empty stack (undefined behaviour in the source, reached only on
      malformed text). */
  datatype Fault = DivisionByZero | StackUnderflow

  datatype Result<T> = Ok(value: T) | Err(fault: Fault)

  predicate IsOperator(c: char) {
    c == '+' || c == '-' || c == '*' || c == '/'
  }

  predicate IsInteger(r: real) {
    r == r.Floor as real
  }

  /** One binary step of the evaluator. Any character that is not one of the four
      operators falls through the `switch` and yields 0. */
  function ApplyOperator(a: real, b: real, op: char): (r: Result<real>)
    ensures r.Err? <==> op == '/' && b == 0.0
    ensures r.Err? ==> r.fault == DivisionByZero
    ensures op == '+' ==> r == Ok(a + b)
    ensures op == '-' ==> r == Ok(a - b) && r.value + b == a
    ensures op == '*' ==> r == Ok(a * b)
    ensures op == '/' && r.Ok? ==> r.value * b == a
    ensures !IsOperator(op) ==> r == Ok(0.0)
  {
    match op
    case '+' => Ok(a + b)
    case '-' => Ok(a - b)
    case '*' => Ok(a * b)
    case '/' => if b != 0.0 then Ok(a / b) else Err(DivisionByZero)
    case _ => Ok(0.0)
  }
}

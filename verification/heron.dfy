/**
  The integer Heron iteration of Euler255.cpp: from a starting guess fixed by the number of
  decimal digits of `n`, step `x := (x + ceil(n / x)) / 2` until the step leaves `x`
  unchanged, and report how many steps were taken. The fixed point reached is the rounded
  square root of `n`: the one `x` with x^2 - x < n <= x^2 + x.
 */
module Heron {
  import opened Decimal
  import opened Numbers

  // ---------------------------------------------------------------------------
  // Digit count and starting guess

  /** `numberOfDigits`: the length of the decimal text of `n`. */
  function NumberOfDigits(n: nat): (d: nat)
    ensures d >= 1
  {
    |ToDecimal(n)|
  }

  lemma {:induction false} Pow10Monotone(j: nat, k: nat)
    requires j <= k
    ensures Pow10(j) <= Pow10(k)
    decreases k - j
  {
    if j < k {
      Pow10Monotone(j, k - 1);
    }
  }

  /** The digit count of 0 is 1; for n >= 1 it is the one k with 10^(k-1) <= n < 10^k. */
  lemma DigitCount(n: nat, k: nat)
    ensures n == 0 ==> NumberOfDigits(n) == 1
    ensures n >= 1 ==> (NumberOfDigits(n) == k <==> k >= 1 && Pow10(k - 1) <= n < Pow10(k))
  {
    if n >= 1 {
      var d := NumberOfDigits(n);
      ToDecimalLength(n);
      if k >= 1 && Pow10(k - 1) <= n < Pow10(k) {
        if k < d {
          Pow10Monotone(k, d - 1);
        } else if k > d {
          Pow10Monotone(d, k - 1);
        }
      }
    }
  }

  /** The starting guess: 2 * 10^((d - 1) / 2) for an odd digit count d, 7 * 10^((d - 2) / 2)
      for an even one. */
  function InitialGuess(n: nat): (x: nat)
    ensures x >= 2
  {
    var d := NumberOfDigits(n);
    if d % 2 == 1 then 2 * Pow10((d - 1) / 2) else 7 * Pow10((d - 2) / 2)
  }

  /** The guess has as many digits as the square root of an d-digit number: ceil(d / 2). */
  lemma InitialGuessDigits(n: nat)
    ensures NumberOfDigits(InitialGuess(n)) == (NumberOfDigits(n) + 1) / 2
  {
    var d := NumberOfDigits(n);
    var k := if d % 2 == 1 then (d - 1) / 2 else (d - 2) / 2;
    var x := InitialGuess(n);
    assert x == (if d % 2 == 1 then 2 else 7) * Pow10(k);
    assert Pow10(k + 1) == 10 * Pow10(k);
    DigitCount(x, k + 1);
    assert k + 1 == (d + 1) / 2;
  }

  // ---------------------------------------------------------------------------
  // The step

  /** `(n + x - 1) / x`, the quotient rounded up. */
  function CeilDiv(n: nat, x: nat): nat
    requires x >= 1
  {
    (n + x - 1) / x
  }

  /** `CeilDiv(n, x)` is the least c with x * c >= n. */
  lemma CeilDivSpec(n: nat, x: nat)
    requires x >= 1
    ensures x * CeilDiv(n, x) >= n && x * (CeilDiv(n, x) - 1) < n
  {
    var c, m := CeilDiv(n, x), n + x - 1;
    assert m == c * x + m % x;
  }

  /** The rounded-up quotient is at most y exactly when n <= x * y. */
  lemma CeilDivAtMost(n: nat, x: nat, y: int)
    requires x >= 1
    ensures CeilDiv(n, x) <= y <==> n <= x * y
  {
    var c := CeilDiv(n, x);
    CeilDivSpec(n, x);
    if c <= y {
      MulMonotone(c, y, x);
    } else {
      MulMonotone(y, c - 1, x);
    }
  }

  /** `x_k1 = (x_k + (n + x_k - 1) / x_k) / 2`. */
  function Step(n: nat, x: nat): nat
    requires x >= 1
  {
    (x + CeilDiv(n, x)) / 2
  }

  /** `x` is a rounded square root of `n`: (x - 1/2)^2 < n < (x + 1/2)^2. */
  predicate IsRoundedRoot(n: nat, x: nat) {
    x >= 1 && x * x - x < n <= x * x + x
  }

  /** A number has at most one rounded square root. */
  lemma RoundedRootUnique(n: nat, x: nat, y: nat)
    requires IsRoundedRoot(n, x) && IsRoundedRoot(n, y)
    ensures x == y
  {
    if x < y {
      MulMonotone(x + 1, y, x);
      MulMonotone(x, y - 1, y);
    } else if y < x {
      MulMonotone(y + 1, x, y);
      MulMonotone(y, x - 1, x);
    }
  }

  /** The step leaves `x` unchanged exactly when `x` is the rounded square root of `n`. */
  lemma FixedPointIsRoundedRoot(n: nat, x: nat)
    requires x >= 1
    ensures Step(n, x) == x <==> IsRoundedRoot(n, x)
  {
    CeilDivAtMost(n, x, x + 1);
    CeilDivAtMost(n, x, x - 1);
    assert x * (x + 1) == x * x + x && x * (x - 1) == x * x - x;
  }

  /** With n >= 1 the step never reaches 0, so the next division is defined. */
  lemma StepPositive(n: nat, x: nat)
    requires n >= 1 && x >= 1
    ensures Step(n, x) >= 1
  {
    CeilDivAtMost(n, x, 0);
  }

  /** Whatever it starts from, one step lands on an `x` with n <= x (x + 1): at or above the
      rounded square root. */
  lemma StepNotBelowRoot(n: nat, x: nat)
    requires x >= 1
    ensures n <= Step(n, x) * (Step(n, x) + 1)
  {
    var c := CeilDiv(n, x);
    var s := Step(n, x);
    CeilDivSpec(n, x);
    assert 2 * s + 1 >= x + c;
    SquareMonotone(x + c, 2 * s + 1);
    ProductBelowSquare(x, c);
    OddSquare(s);
  }

  lemma SquareMonotone(a: nat, b: nat)
    requires a <= b
    ensures a * a <= b * b
  {
    MulMonotone(a, b, a);
    MulMonotone(a, b, b);
  }

  /** 4xc <= (x + c)^2, since the difference is (x - c)^2. */
  lemma ProductBelowSquare(x: int, c: int)
    ensures 4 * (x * c) <= (x + c) * (x + c)
  {
    assert (x + c) * (x + c) == 4 * (x * c) + (x - c) * (x - c);
  }

  lemma OddSquare(s: int)
    ensures (2 * s + 1) * (2 * s + 1) == 4 * (s * (s + 1)) + 1
  {
  }

  /** At or above the rounded square root, a step that moves goes down. */
  lemma StepDecreases(n: nat, x: nat)
    requires x >= 1 && n <= x * (x + 1)
    ensures Step(n, x) <= x
  {
    CeilDivAtMost(n, x, x + 1);
  }

  // ---------------------------------------------------------------------------
  // The iteration

  /** `k` steps from `x`. */
  function Iterate(n: nat, x: nat, k: nat): (y: nat)
    requires n >= 1 && x >= 1
    ensures y >= 1
    decreases k
  {
    if k == 0 then x
    else
      StepPositive(n, x);
      Iterate(n, Step(n, x), k - 1)
  }

  lemma {:induction false} IterateLast(n: nat, x: nat, k: nat)
    requires n >= 1 && x >= 1
    ensures Iterate(n, x, k + 1) == Step(n, Iterate(n, x, k))
    decreases k
  {
    StepPositive(n, x);
    if k > 0 {
      IterateLast(n, Step(n, x), k - 1);
    }
  }

  datatype HeronOutcome =
    | Converged(iterations: nat, root: nat)
    | DivisionByZero

  /** `roundedSquareRoot(n)`. For n >= 1 it stops at the first fixed point of the step, which
      is the rounded square root of `n`, and reports how many steps it took, the last one
      being the step that changed nothing. For n = 0 the guess sinks 2, 1, 0 and the next
      step divides by zero. */
  method RoundedSquareRoot(n: nat) returns (r: HeronOutcome)
    ensures r.DivisionByZero? <==> n == 0
    ensures r.Converged? ==>
      && r.iterations >= 1
      && IsRoundedRoot(n, r.root)
      && r.root == Iterate(n, InitialGuess(n), r.iterations - 1)
      && Step(n, r.root) == r.root
      && forall k :: 0 <= k < r.iterations - 1 ==> Step(n, Iterate(n, InitialGuess(n), k)) != Iterate(n, InitialGuess(n), k)
  {
    var guess := InitialGuess(n);
    var x := guess;
    var iterations: nat := 0;
    while true
      invariant n >= 1 ==> x >= 1 && x == Iterate(n, guess, iterations)
      invariant n >= 1 ==> NoFixedPointBefore(n, guess, iterations)
      invariant iterations >= 1 ==> NotBelowRoot(n, x)
      decreases if iterations == 0 then 1 else 0, x
    {
      if x == 0 {
        return DivisionByZero;
      }
      var next := Step(n, x);
      HeronStep(n, x, iterations);
      if n >= 1 {
        IterateLast(n, guess, iterations);
        NoFixedPointExtend(n, guess, iterations);
      }
      if x == next {
        return Converged(iterations + 1, x);
      }
      iterations := iterations + 1;
      x := next;
    }
  }

  /** What one pass of the loop learns about the step from `x`: it lands at or above the
      rounded root, it does not go up once `x` is there, and it stays put only at the root. */
  lemma HeronStep(n: nat, x: nat, iterations: nat)
    requires x >= 1 && (iterations >= 1 ==> NotBelowRoot(n, x))
    ensures NotBelowRoot(n, Step(n, x))
    ensures iterations >= 1 ==> Step(n, x) <= x
    ensures Step(n, x) == x <==> IsRoundedRoot(n, x)
    ensures Step(n, x) == x ==> n >= 1
  {
    StepNotBelowRoot(n, x);
    FixedPointIsRoundedRoot(n, x);
    MulMonotone(1, x, x);
    if iterations >= 1 {
      StepDecreases(n, x);
    }
  }

  /** `x` is at or above the rounded square root of `n`: n <= x (x + 1). */
  predicate NotBelowRoot(n: nat, x: nat) {
    n <= x * (x + 1)
  }

  /** None of the first `k` iterates from `guess` is a fixed point of the step. */
  predicate NoFixedPointBefore(n: nat, guess: nat, k: nat)
    requires n >= 1 && guess >= 1
  {
    forall j :: 0 <= j < k ==> Step(n, Iterate(n, guess, j)) != Iterate(n, guess, j)
  }

  lemma NoFixedPointExtend(n: nat, guess: nat, k: nat)
    requires n >= 1 && guess >= 1 && NoFixedPointBefore(n, guess, k)
    ensures Step(n, Iterate(n, guess, k)) != Iterate(n, guess, k) ==> NoFixedPointBefore(n, guess, k + 1)
  {
  }
}

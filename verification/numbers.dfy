/**
  Integer facts shared by the programs: primality, powers, and the few steps of
  non-linear arithmetic (monotonicity of products, exact division) the proofs need.
 */
module Numbers {

  predicate IsPrime(p: int) {
    p >= 2 && forall d :: 2 <= d < p ==> p % d != 0
  }

  function Pow(b: nat, e: nat): nat
    decreases e
  {
    if e == 0 then 1 else b * Pow(b, e - 1)
  }

  lemma {:induction false} PowAdd(b: nat, e: nat, f: nat)
    ensures Pow(b, e + f) == Pow(b, e) * Pow(b, f)
    decreases e
  {
    if e > 0 {
      PowAdd(b, e - 1, f);
      MulAssoc(b, Pow(b, e - 1), Pow(b, f));
    }
  }

  lemma {:induction false} PowPositive(b: nat, e: nat)
    requires b >= 1
    ensures Pow(b, e) >= 1
    decreases e
  {
    if e > 0 {
      PowPositive(b, e - 1);
      MulMonotone(1, b, Pow(b, e - 1));
    }
  }

  lemma MulAssoc(a: int, b: int, c: int)
    ensures a * b * c == a * (b * c)
  {
  }

  lemma MulMonotone(a: int, b: int, k: nat)
    requires a <= b
    ensures a * k <= b * k
  {
    var d := b - a;
    assert b * k == a * k + d * k;
  }

  lemma DivMonotone(a: nat, b: nat, k: nat)
    requires k >= 1 && a <= b
    ensures a / k <= b / k
  {
    var qa, qb := a / k, b / k;
    assert a == qa * k + a % k;
    assert b == qb * k + b % k;
    if qa > qb {
      MulMonotone(qb + 1, qa, k);
    }
  }

  /** Division of `q * k + r` by `k` when `0 <= r < k`. */
  lemma DivOf(q: int, k: nat, r: nat)
    requires k >= 1 && r < k
    ensures (q * k + r) / k == q
    ensures (q * k + r) % k == r
  {
    var n := q * k + r;
    var q', r' := n / k, n % k;
    assert n == q' * k + r';
    if q' > q {
      MulMonotone(q + 1, q', k);
    } else if q' < q {
      MulMonotone(q' + 1, q, k);
    }
  }

  /** A divisor of `q` divides every multiple of `q`. */
  lemma DividesMultiple(d: nat, q: nat, k: nat)
    requires d >= 1 && q % d == 0
    ensures (q * k) % d == 0
  {
    var t := q / d;
    assert q == t * d;
    assert q * k == (t * k) * d;
    DivOf(t * k, d, 0);
  }

  /** Reducing modulo `m` before a step `x * 10 + d` does not change the result modulo `m`. */
  lemma ModMulAdd(x: nat, d: nat, m: nat)
    requires m >= 1
    ensures ((x % m) * 10 + d) % m == (x * 10 + d) % m
  {
    var q, r := x / m, x % m;
    var t := r * 10 + d;
    var q2, r2 := t / m, t % m;
    assert x == q * m + r;
    assert t == q2 * m + r2;
    assert x * 10 == (q * m) * 10 + r * 10;
    assert (q * m) * 10 == (q * 10) * m;
    assert x * 10 + d == (q * 10) * m + q2 * m + r2;
    assert (q * 10) * m + q2 * m == (q * 10 + q2) * m;
    DivOf(q * 10 + q2, m, r2);
    DivOf(q2, m, r2);
  }
}

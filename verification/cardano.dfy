/**
  The Cardano-triplet search of Euler251.cpp: the decimal reader and writer of its 128-bit
  unsigned integers, exponentiation by squaring, trial-division factorization, the split of
  N / 27 into b^2 * c, the sweep over a = 2 (mod 3), and the division of that sweep into
  one range per thread.
 */
module Cardano {
  import opened Decimal
  import opened Numbers
  import opened Threads
  import Sums

  // ---------------------------------------------------------------------------
  // Reading and writing 128-bit values

  /** Arithmetic on `__uint128_t` is modulo 2^128. */
  const Modulus128: nat := 0x1_0000_0000_0000_0000_0000_0000_0000_0000

  /** The length of the run of digits that starts the text. */
  function LeadingDigits(s: string): (k: nat)
    ensures k <= |s| && AllDigits(s[..k])
    ensures k < |s| ==> !IsDigit(s[k])
    decreases |s|
  {
    if s == [] || !IsDigit(s[0]) then 0
    else
      var k := 1 + LeadingDigits(s[1..]);
      assert forall j :: 1 <= j < k ==> s[..k][j] == s[1..][..k - 1][j - 1];
      k
  }

  /** The value `operator>>` stores and whether it sets the stream's failbit. */
  datatype ReadResult = ReadResult(value: nat, failed: bool)

  /** The loop of `operator>>` from character `i` on, with `value` accumulated so far. */
  function ReadFrom(token: string, i: nat, value: nat): ReadResult
    requires i <= |token|
    decreases |token| - i
  {
    if i == |token| then ReadResult(value, false)
    else if IsDigit(token[i]) then ReadFrom(token, i + 1, (value * 10 + DigitValue(token[i])) % Modulus128)
    else ReadResult(value, true)
  }

  /** `operator>>` applied to the whitespace-free token the stream extracts. */
  function Read(token: string): ReadResult {
    ReadFrom(token, 0, 0)
  }

  lemma {:induction false} ReadFromSpec(token: string, i: nat, value: nat)
    requires i <= LeadingDigits(token)
    requires value == ValueOf(token[..i]) % Modulus128
    ensures ReadFrom(token, i, value) ==
      ReadResult(ValueOf(token[..LeadingDigits(token)]) % Modulus128, LeadingDigits(token) < |token|)
    decreases |token| - i
  {
    if i < LeadingDigits(token) {
      ReadStep(token, i);
      var d := DigitValue(token[i]);
      ModMulAdd(ValueOf(token[..i]), d, Modulus128);
      ReadFromSpec(token, i + 1, (value * 10 + d) % Modulus128);
    }
  }

  /** One more leading digit appends one decimal place to the value read so far. */
  lemma ReadStep(token: string, i: nat)
    requires i < LeadingDigits(token)
    ensures IsDigit(token[i]) && AllDigits(token[..i]) && AllDigits(token[..i + 1])
    ensures ValueOf(token[..i + 1]) == ValueOf(token[..i]) * 10 + DigitValue(token[i])
  {
    var k := LeadingDigits(token);
    var p := token[..k];
    assert p[i] == token[i];
    assert token[..i + 1] == p[..i + 1] && token[..i] == p[..i];
    PrefixDigits(p, i + 1);
    PrefixDigits(p, i);
    assert token[..i + 1][..i] == token[..i];
  }

  lemma PrefixDigits(s: string, j: nat)
    requires AllDigits(s) && j <= |s|
    ensures AllDigits(s[..j])
  {
    assert forall n :: 0 <= n < j ==> s[..j][n] == s[n];
  }

  /** `operator>>` folds `value * 10 + digit` over the leading digits, modulo 2^128, and
      fails exactly when a character that is not a digit stops it. */
  lemma ReadSpec(token: string)
    ensures Read(token) ==
      ReadResult(ValueOf(token[..LeadingDigits(token)]) % Modulus128, LeadingDigits(token) < |token|)
    ensures AllDigits(token) ==> Read(token) == ReadResult(ValueOf(token) % Modulus128, false)
  {
    assert token[..0] == [];
    ReadFromSpec(token, 0, 0);
    if AllDigits(token) {
      assert token[..|token|] == token;
    }
  }

  /** The digits `operator<<` appends in its do-while loop, least significant first. */
  function LowDigitsFirst(v: nat): string
    decreases v
  {
    [DigitChar(v % 10)] + (if v / 10 > 0 then LowDigitsFirst(v / 10) else [])
  }

  function Reverse(s: string): string
    decreases |s|
  {
    if s == [] then [] else Reverse(s[1..]) + [s[0]]
  }

  /** `operator<<`: the collected digits, reversed. */
  function Write(v: nat): string {
    Reverse(LowDigitsFirst(v))
  }

  /** `operator<<` prints the canonical decimal text. */
  lemma {:induction false} WriteIsDecimal(v: nat)
    ensures Write(v) == ToDecimal(v)
    decreases v
  {
    var low := LowDigitsFirst(v);
    var c := DigitChar(v % 10);
    assert low[0] == c && low[1..] == (if v / 10 > 0 then LowDigitsFirst(v / 10) else []);
    assert Write(v) == Reverse(low[1..]) + [c];
    if v / 10 > 0 {
      WriteIsDecimal(v / 10);
      assert ToDecimal(v) == ToDecimal(v / 10) + [c];
    } else {
      assert Reverse(low[1..]) == [];
      assert ToDecimal(v) == [c];
    }
  }

  /** At least one character, all digits, "0" for zero and no leading zero otherwise. */
  lemma WriteText(v: nat)
    ensures |Write(v)| >= 1 && AllDigits(Write(v))
    ensures v == 0 ==> Write(v) == "0"
    ensures v > 0 ==> Write(v)[0] != '0'
  {
    WriteIsDecimal(v);
  }

  /** Reading what was written gives the value back, without failure. */
  lemma ReadWrite(v: nat)
    requires v < Modulus128
    ensures Read(Write(v)) == ReadResult(v, false)
  {
    WriteIsDecimal(v);
    ReadDigits(ToDecimal(v), v);
  }

  /** Text of digits only is read without failure, as its value when that is below 2^128. */
  lemma ReadDigits(t: string, v: nat)
    requires AllDigits(t) && ValueOf(t) == v && v < Modulus128
    ensures Read(t) == ReadResult(v, false)
  {
    ReadSpec(t);
    BelowModulus(v);
  }

  lemma BelowModulus(v: nat)
    requires v < Modulus128
    ensures v % Modulus128 == v
  {
  }

  /** Writing what was read from canonical text gives the text back. */
  lemma WriteRead(t: string)
    requires Canonical(t) && ValueOf(t) < Modulus128
    ensures Read(t) == ReadResult(ValueOf(t), false)
    ensures Write(Read(t).value) == t
  {
    var v := ValueOf(t);
    ReadDigits(t, v);
    ToDecimalOfValue(t);
    WriteIsDecimal(v);
  }

  // ---------------------------------------------------------------------------
  // int_pow

  /** Squaring the base halves the exponent. */
  lemma {:induction false} PowSquare(b: nat, e: nat)
    ensures Pow(b * b, e / 2) * (if e % 2 == 1 then b else 1) == Pow(b, e)
    decreases e
  {
    var h := e / 2;
    PowOfSquare(b, h);
    if e % 2 == 1 {
      assert e == 2 * h + 1;
      PowAdd(b, 2 * h, 1);
    } else {
      assert e == 2 * h;
    }
  }

  lemma {:induction false} PowOfSquare(b: nat, h: nat)
    ensures Pow(b * b, h) == Pow(b, 2 * h)
    decreases h
  {
    if h > 0 {
      PowOfSquare(b, h - 1);
      PowAdd(b, 2, 2 * (h - 1));
      assert Pow(b, 2) == b * b;
    }
  }

  /** `int_pow`: exponentiation by squaring. */
  method IntPow(base: nat, exp: nat) returns (result: nat)
    ensures result == Pow(base, exp)
  {
    result := 1;
    var b, e := base, exp;
    while e > 0
      invariant result * Pow(b, e) == Pow(base, exp)
      decreases e
    {
      PowSquare(b, e);
      MulAssoc(result, if e % 2 == 1 then b else 1, Pow(b * b, e / 2));
      if e % 2 == 1 {
        result := result * b;
      }
      b := b * b;
      e := e / 2;
    }
  }

  // ---------------------------------------------------------------------------
  // factorize

  /** One entry of the factor list: a prime and its exponent. */
  datatype Factor = Factor(prime: nat, exponent: nat)

  /** The number a factor list stands for. */
  function FactorValue(fs: seq<Factor>): nat
    decreases |fs|
  {
    if fs == [] then 1 else Pow(fs[0].prime, fs[0].exponent) * FactorValue(fs[1..])
  }

  predicate StrictlyIncreasing(fs: seq<Factor>) {
    forall j, l :: 0 <= j < l < |fs| ==> fs[j].prime < fs[l].prime
  }

  /** The inner `while (n % i == 0)` loop: the part of `m` left once every factor `i` is
      divided out, and how many were. */
  function DivideOut(m: nat, i: nat): (r: (nat, nat))
    requires m >= 1 && i >= 2
    ensures 1 <= r.0 <= m
    decreases m
  {
    if m % i == 0 then
      ExactQuotient(m, i);
      var r := DivideOut(m / i, i);
      (r.0, r.1 + 1)
    else (m, 0)
  }

  lemma ExactQuotient(m: nat, i: nat)
    requires m >= 1 && i >= 2 && m % i == 0
    ensures m == (m / i) * i && 1 <= m / i < m
  {
    var t := m / i;
    assert m == t * i;
    if t < 1 {
      MulMonotone(t, 0, i);
    }
    MulMonotone(2, i, t);
  }

  /** The divided-out part is free of `i`, and multiplying the `i`s back gives `m`. */
  lemma {:induction false} DivideOutSpec(m: nat, i: nat)
    requires m >= 1 && i >= 2
    ensures DivideOut(m, i).0 % i != 0
    ensures DivideOut(m, i).0 * Pow(i, DivideOut(m, i).1) == m
    decreases m
  {
    if m % i == 0 {
      ExactQuotient(m, i);
      var t := m / i;
      DivideOutSpec(t, i);
      var r := DivideOut(t, i);
      var p := Pow(i, r.1);
      assert Pow(i, r.1 + 1) == i * p;
      MulSwap(r.0, i, p);
      assert r.0 * (i * p) == i * t;
    }
  }

  lemma MulSwap(a: int, b: int, c: int)
    ensures a * (b * c) == b * (a * c)
  {
  }

  /** The outer loop of `factorize`, from trial divisor `i` on, with `m` left to factor. */
  function FactorLoop(m: nat, i: nat): seq<Factor>
    requires i >= 2
    decreases m - i
  {
    if i * i > m then (if m > 1 then [Factor(m, 1)] else [])
    else
      MulMonotone(1, i, i);
      var r := DivideOut(m, i);
      (if r.1 > 0 then [Factor(i, r.1)] else []) + FactorLoop(r.0, i + 1)
  }

  /** `factorize(n)`. */
  function Factorize(n: nat): seq<Factor> {
    FactorLoop(n, 2)
  }

  predicate NoDivisorBelow(m: nat, i: nat) {
    forall d :: 2 <= d < i ==> m % d != 0
  }

  /** A number above 1 with no divisor below `i`, where `i * i` exceeds it, is prime and at
      least `i`. */
  lemma LeftoverIsPrime(m: nat, i: nat)
    requires i >= 2 && m > 1 && i * i > m && NoDivisorBelow(m, i)
    ensures IsPrime(m) && m >= i
  {
    if m < i {
      DivOf(1, m, 0);
    }
    forall d | 2 <= d < m
      ensures m % d != 0
    {
      if d >= i {
        LargeDivisorAbsent(m, i, d);
      }
    }
  }

  /** Below `m`, no `d >= i` divides it: the cofactor would be a divisor below `i`. */
  lemma LargeDivisorAbsent(m: nat, i: nat, d: nat)
    requires i >= 2 && i * i > m && i <= d < m && NoDivisorBelow(m, i)
    ensures m % d != 0
  {
    if m % d == 0 {
      var e := m / d;
      assert m == d * e + 0;
      if e < 2 {
        MulMonotone(e, 1, d);
      } else if e >= i {
        MulMonotone(i, e, d);
        MulMonotone(i, d, i);
      } else {
        DivOf(d, e, 0);
      }
    }
  }

  /** A trial divisor that divides `m`, with no smaller divisor of `m` left, is prime. */
  lemma DivisorIsPrime(m: nat, i: nat, q: nat, c: nat)
    requires i >= 2 && c >= 1 && q * Pow(i, c) == m && NoDivisorBelow(m, i)
    ensures IsPrime(i)
  {
    forall d | 2 <= d < i
      ensures i % d != 0
    {
      if i % d == 0 {
        var p := Pow(i, c - 1);
        assert Pow(i, c) == i * p;
        MulSwap(q, i, p);
        DividesMultiple(d, i, q * p);
      }
    }
  }

  /** What is left after dividing out `i` has no divisor up to `i`. */
  lemma QuotientHasNoDivisor(m: nat, i: nat, q: nat, c: nat)
    requires i >= 2 && q % i != 0 && q * Pow(i, c) == m && NoDivisorBelow(m, i)
    ensures NoDivisorBelow(q, i + 1)
  {
    forall d | 2 <= d < i + 1
      ensures q % d != 0
    {
      if d < i && q % d == 0 {
        DividesMultiple(d, q, Pow(i, c));
      }
    }
  }

  /** A factor list as `factorize` produces it: increasing primes, all at least `low`, each
      with a positive exponent. */
  predicate WellFactored(fs: seq<Factor>, low: nat) {
    && StrictlyIncreasing(fs)
    && forall j :: 0 <= j < |fs| ==> IsPrime(fs[j].prime) && fs[j].prime >= low && fs[j].exponent >= 1
  }

  lemma {:induction false} FactorLoopSpec(m: nat, i: nat)
    requires i >= 2 && m >= 1 && NoDivisorBelow(m, i)
    ensures FactorValue(FactorLoop(m, i)) == m && WellFactored(FactorLoop(m, i), i)
    decreases m - i
  {
    if i * i > m {
      LeftoverSpec(m, i);
    } else {
      MulMonotone(1, i, i);
      var q := DivideOut(m, i).0;
      DivideOutSpec(m, i);
      QuotientHasNoDivisor(m, i, q, DivideOut(m, i).1);
      FactorLoopSpec(q, i + 1);
      TrialStepSpec(m, i);
    }
  }

  /** One trial divisor: the factor it contributes, if any, goes in front of the rest. */
  lemma TrialStepSpec(m: nat, i: nat)
    requires i >= 2 && m >= 1 && NoDivisorBelow(m, i) && i * i <= m
    requires var q := DivideOut(m, i).0;
      FactorValue(FactorLoop(q, i + 1)) == q && WellFactored(FactorLoop(q, i + 1), i + 1)
    ensures FactorValue(FactorLoop(m, i)) == m && WellFactored(FactorLoop(m, i), i)
  {
    var r := DivideOut(m, i);
    var q, c := r.0, r.1;
    var rest := FactorLoop(q, i + 1);
    if c > 0 {
      assert FactorLoop(m, i) == [Factor(i, c)] + rest;
      DivideOutSpec(m, i);
      FoundFactor(m, i, q, c, rest);
    } else {
      assert FactorLoop(m, i) == [] + rest == rest;
      DivideOutSpec(m, i);
      assert q == m;
    }
  }

  lemma FoundFactor(m: nat, i: nat, q: nat, c: nat, rest: seq<Factor>)
    requires i >= 2 && NoDivisorBelow(m, i) && c >= 1 && q * Pow(i, c) == m
    requires FactorValue(rest) == q && WellFactored(rest, i + 1)
    ensures FactorValue([Factor(i, c)] + rest) == m
    ensures WellFactored([Factor(i, c)] + rest, i)
  {
    DivisorIsPrime(m, i, q, c);
    PrependFactor(i, c, rest);
  }

  lemma LeftoverSpec(m: nat, i: nat)
    requires i >= 2 && m >= 1 && NoDivisorBelow(m, i) && i * i > m
    ensures FactorValue(FactorLoop(m, i)) == m && WellFactored(FactorLoop(m, i), i)
  {
    if m > 1 {
      LeftoverIsPrime(m, i);
      var fs := FactorLoop(m, i);
      assert fs == [Factor(m, 1)];
      assert fs[1..] == [];
      assert FactorValue(fs) == Pow(m, 1) * FactorValue([]);
    }
  }

  /** Putting a smaller prime in front keeps a factor list ordered and multiplies its value. */
  lemma PrependFactor(i: nat, c: nat, rest: seq<Factor>)
    requires IsPrime(i) && c >= 1 && WellFactored(rest, i + 1)
    ensures FactorValue([Factor(i, c)] + rest) == Pow(i, c) * FactorValue(rest)
    ensures WellFactored([Factor(i, c)] + rest, i)
  {
    var fs := [Factor(i, c)] + rest;
    assert fs[1..] == rest;
    forall j, l | 0 <= j < l < |fs|
      ensures fs[j].prime < fs[l].prime
    {
      assert fs[l] == rest[l - 1];
      if j > 0 {
        assert fs[j] == rest[j - 1];
      }
    }
  }

  /** `factorize(n)` lists primes in increasing order, each with a positive exponent, whose
      powers multiply to `n`; for `n <= 1` the list is empty. */
  lemma FactorizeSpec(n: nat)
    ensures n <= 1 ==> Factorize(n) == []
    ensures n >= 1 ==> FactorValue(Factorize(n)) == n
    ensures WellFactored(Factorize(n), 2)
  {
    if n >= 1 {
      FactorLoopSpec(n, 2);
    }
  }

  // ---------------------------------------------------------------------------
  // generate_bc

  /** The (b, c) pairs `generate_bc` reaches at its leaves, in order: for each factor p^e in
      turn, p^k goes to b and p^(e - 2k) to c, for k = 0 .. e / 2. */
  function Pairs(fs: seq<Factor>, idx: nat, b: nat, c: nat): seq<(nat, nat)>
    requires idx <= |fs|
    decreases |fs| - idx, 1
  {
    if idx == |fs| then [(b, c)] else PairsFrom(fs, idx, b, c, 0)
  }

  /** The loop over `k` at level `idx`, from `k` on. */
  function PairsFrom(fs: seq<Factor>, idx: nat, b: nat, c: nat, k: nat): seq<(nat, nat)>
    requires idx < |fs| && k <= fs[idx].exponent / 2 + 1
    decreases |fs| - idx, 0, fs[idx].exponent / 2 + 1 - k
  {
    var p, e := fs[idx].prime, fs[idx].exponent;
    if k > e / 2 then []
    else Pairs(fs, idx + 1, b * Pow(p, k), c * Pow(p, e - 2 * k)) + PairsFrom(fs, idx, b, c, k + 1)
  }

  /** The test at a leaf: the triplet is within the bound and both parts are positive. */
  predicate Kept(a: nat, maxSum: nat, pair: (nat, nat)) {
    a + pair.0 + pair.1 <= maxSum && pair.0 > 0 && pair.1 > 0
  }

  function CountKept(a: nat, maxSum: nat, pairs: seq<(nat, nat)>): nat
    decreases |pairs|
  {
    if pairs == [] then 0 else (if Kept(a, maxSum, pairs[0]) then 1 else 0) + CountKept(a, maxSum, pairs[1..])
  }

  /** `generate_bc`: how many times it increments `total_triplet_count`. The swap that puts
      the smaller of b and c first changes nothing that is counted. */
  function GenerateBC(fs: seq<Factor>, idx: nat, b: nat, c: nat, maxSum: nat, a: nat): nat
    requires idx <= |fs|
    decreases |fs| - idx, 1
  {
    if idx == |fs| then (if a + b + c <= maxSum && b > 0 && c > 0 then 1 else 0)
    else SplitsFrom(fs, idx, b, c, maxSum, a, 0)
  }

  function SplitsFrom(fs: seq<Factor>, idx: nat, b: nat, c: nat, maxSum: nat, a: nat, k: nat): nat
    requires idx < |fs| && k <= fs[idx].exponent / 2 + 1
    decreases |fs| - idx, 0, fs[idx].exponent / 2 + 1 - k
  {
    var p, e := fs[idx].prime, fs[idx].exponent;
    if k > e / 2 then 0
    else GenerateBC(fs, idx + 1, b * Pow(p, k), c * Pow(p, e - 2 * k), maxSum, a) + SplitsFrom(fs, idx, b, c, maxSum, a, k + 1)
  }

  lemma {:induction false} CountKeptAppend(a: nat, maxSum: nat, x: seq<(nat, nat)>, y: seq<(nat, nat)>)
    ensures CountKept(a, maxSum, x + y) == CountKept(a, maxSum, x) + CountKept(a, maxSum, y)
    decreases |x|
  {
    if x == [] {
      assert x + y == y;
    } else {
      assert (x + y)[1..] == x[1..] + y;
      CountKeptAppend(a, maxSum, x[1..], y);
    }
  }

  /** `generate_bc` counts exactly the leaves that pass the test. */
  lemma {:induction false} GenerateBCCounts(fs: seq<Factor>, idx: nat, b: nat, c: nat, maxSum: nat, a: nat)
    requires idx <= |fs|
    ensures GenerateBC(fs, idx, b, c, maxSum, a) == CountKept(a, maxSum, Pairs(fs, idx, b, c))
    decreases |fs| - idx, 1
  {
    if idx < |fs| {
      SplitsFromCounts(fs, idx, b, c, maxSum, a, 0);
    } else {
      assert Pairs(fs, idx, b, c)[1..] == [];
    }
  }

  lemma {:induction false} SplitsFromCounts(fs: seq<Factor>, idx: nat, b: nat, c: nat, maxSum: nat, a: nat, k: nat)
    requires idx < |fs| && k <= fs[idx].exponent / 2 + 1
    ensures SplitsFrom(fs, idx, b, c, maxSum, a, k) == CountKept(a, maxSum, PairsFrom(fs, idx, b, c, k))
    decreases |fs| - idx, 0, fs[idx].exponent / 2 + 1 - k
  {
    var p, e := fs[idx].prime, fs[idx].exponent;
    if k <= e / 2 {
      var b', c' := b * Pow(p, k), c * Pow(p, e - 2 * k);
      GenerateBCCounts(fs, idx + 1, b', c', maxSum, a);
      SplitsFromCounts(fs, idx, b, c, maxSum, a, k + 1);
      CountKeptAppend(a, maxSum, Pairs(fs, idx + 1, b', c'), PairsFrom(fs, idx, b, c, k + 1));
    }
  }

  /** The number of ways to split the factors from `idx` on: the product of e / 2 + 1. */
  function SplitCount(fs: seq<Factor>, idx: nat): nat
    requires idx <= |fs|
    decreases |fs| - idx
  {
    if idx == |fs| then 1 else (fs[idx].exponent / 2 + 1) * SplitCount(fs, idx + 1)
  }

  /** `generate_bc` reaches one leaf per choice of k at every level. */
  lemma {:induction false} PairsLength(fs: seq<Factor>, idx: nat, b: nat, c: nat)
    requires idx <= |fs|
    ensures |Pairs(fs, idx, b, c)| == SplitCount(fs, idx)
    decreases |fs| - idx, 1
  {
    if idx < |fs| {
      PairsFromLength(fs, idx, b, c, 0);
    }
  }

  lemma {:induction false} PairsFromLength(fs: seq<Factor>, idx: nat, b: nat, c: nat, k: nat)
    requires idx < |fs| && k <= fs[idx].exponent / 2 + 1
    ensures |PairsFrom(fs, idx, b, c, k)| == (fs[idx].exponent / 2 + 1 - k) * SplitCount(fs, idx + 1)
    decreases |fs| - idx, 0, fs[idx].exponent / 2 + 1 - k
  {
    var p, e := fs[idx].prime, fs[idx].exponent;
    if k <= e / 2 {
      var first := Pairs(fs, idx + 1, b * Pow(p, k), c * Pow(p, e - 2 * k));
      PairsLength(fs, idx + 1, b * Pow(p, k), c * Pow(p, e - 2 * k));
      PairsFromLength(fs, idx, b, c, k + 1);
      assert PairsFrom(fs, idx, b, c, k) == first + PairsFrom(fs, idx, b, c, k + 1);
      MulStep(e / 2 + 1 - k, SplitCount(fs, idx + 1));
    }
  }

  lemma MulStep(n: int, s: int)
    ensures n * s == s + (n - 1) * s
  {
  }

  /** Moving p^k into b and p^(e - 2k) into c multiplies b^2 * c by p^e. */
  lemma LeafProduct(b: nat, c: nat, p: nat, e: nat, k: nat)
    requires 2 * k <= e
    ensures (b * Pow(p, k)) * (b * Pow(p, k)) * (c * Pow(p, e - 2 * k)) == b * b * c * Pow(p, e)
  {
    var x, y := Pow(p, k), Pow(p, e - 2 * k);
    PowAdd(p, k, k);
    PowAdd(p, 2 * k, e - 2 * k);
    assert Pow(p, e) == x * x * y;
    SquareOfProduct(b, x);
    var u, v := b * b, x * x;
    Interchange(u, v, c, y);
  }

  lemma SquareOfProduct(b: int, x: int)
    ensures (b * x) * (b * x) == (b * b) * (x * x)
  {
  }

  lemma Interchange(u: int, v: int, c: int, y: int)
    ensures (u * v) * (c * y) == (u * c) * (v * y)
  {
  }

  /** Every leaf satisfies b^2 * c == (b0^2 * c0) * (the product of the remaining factors). */
  lemma {:induction false} PairsProduct(fs: seq<Factor>, idx: nat, b: nat, c: nat)
    requires idx <= |fs|
    ensures forall pr :: pr in Pairs(fs, idx, b, c) ==> pr.0 * pr.0 * pr.1 == b * b * c * FactorValue(fs[idx..])
    decreases |fs| - idx, 1
  {
    if idx < |fs| {
      PairsFromProduct(fs, idx, b, c, 0);
    } else {
      assert fs[idx..] == [];
    }
  }

  lemma {:induction false} PairsFromProduct(fs: seq<Factor>, idx: nat, b: nat, c: nat, k: nat)
    requires idx < |fs| && k <= fs[idx].exponent / 2 + 1
    ensures forall pr :: pr in PairsFrom(fs, idx, b, c, k) ==> pr.0 * pr.0 * pr.1 == b * b * c * FactorValue(fs[idx..])
    decreases |fs| - idx, 0, fs[idx].exponent / 2 + 1 - k
  {
    var p, e := fs[idx].prime, fs[idx].exponent;
    if k <= e / 2 {
      var b', c' := b * Pow(p, k), c * Pow(p, e - 2 * k);
      PairsProduct(fs, idx + 1, b', c');
      PairsFromProduct(fs, idx, b, c, k + 1);
      LeafProduct(b, c, p, e, k);
      assert fs[idx..][1..] == fs[idx + 1..];
      var rest := FactorValue(fs[idx + 1..]);
      assert FactorValue(fs[idx..]) == Pow(p, e) * rest;
      assert b' * b' * c' * rest == b * b * c * (Pow(p, e) * rest);
    }
  }

  // ---------------------------------------------------------------------------
  // find_cardano_triplets

  /** `N = (1 + a) * (1 + a) * (8 * a - 1)`. */
  function CardanoN(a: nat): int {
    (1 + a) * (1 + a) * (8 * a - 1)
  }

  /** The sign of N: -1 for a = 0 (where the unsigned source wraps instead), positive
      otherwise. */
  lemma CardanoNSign(a: nat)
    ensures a == 0 ==> CardanoN(a) == -1
    ensures a >= 1 ==> CardanoN(a) >= 1
  {
    if a >= 1 {
      var s, t := (1 + a) * (1 + a), 8 * a - 1;
      MulMonotone(1, 1 + a, 1 + a);
      MulMonotone(1, s, t);
    }
  }

  /** For a = 0 the source computes 8 * 0 - 1 as 2^128 - 1, which 27 does not divide, so it
      skips a = 0 just as the model does. */
  lemma WrappedZeroSkipped()
    ensures (Modulus128 - 1) % 27 != 0 && CardanoN(0) % 27 != 0
  {
  }

  /** `N_div`, defined when 27 divides N. */
  function CardanoQuotient(a: nat): (q: nat)
    requires CardanoN(a) % 27 == 0
    ensures 27 * q == CardanoN(a)
  {
    CardanoNSign(a);
    CardanoN(a) / 27
  }

  /** The body of the loop of `find_cardano_triplets` for one `a`: the number of pairs
      (b, c) counted for it. */
  function TripletsFor(a: nat, maxSum: nat): nat {
    if CardanoN(a) % 27 != 0 then 0
    else GenerateBC(Factorize(CardanoQuotient(a)), 0, 1, 1, maxSum, a)
  }

  /** For a = 2 (mod 3), 27 always divides N: with a = 3k + 2, N / 27 = (k + 1)^2 (8k + 5). */
  lemma AlignedAIsProcessed(a: nat)
    requires a % 3 == 2
    ensures CardanoN(a) % 27 == 0
    ensures CardanoQuotient(a) == (a / 3 + 1) * (a / 3 + 1) * (8 * (a / 3) + 5)
  {
    var k := a / 3;
    var x, y := k + 1, 8 * k + 5;
    assert 1 + a == 3 * x && 8 * a - 1 == 3 * y;
    assert CardanoN(a) == (3 * x) * (3 * x) * (3 * y);
    assert (3 * x) * (3 * x) * (3 * y) == (x * x * y) * 27;
    DivOf(x * x * y, 27, 0);
  }

  /** A product b^2 * c that is positive has positive factors. */
  lemma PositiveFactors(b: nat, c: nat, q: nat)
    requires b * b * c == q && q >= 1
    ensures b >= 1 && c >= 1
  {
  }

  /** Starting from (1, 1), every leaf of the split of a positive q is a pair of positive
      b, c with b^2 * c == q. */
  lemma LeavesSplit(fs: seq<Factor>, q: nat)
    requires q >= 1 && FactorValue(fs) == q
    ensures forall pr :: pr in Pairs(fs, 0, 1, 1) ==> pr.0 * pr.0 * pr.1 == q && pr.0 >= 1 && pr.1 >= 1
  {
    PairsProduct(fs, 0, 1, 1);
    assert fs[0..] == fs;
    forall pr | pr in Pairs(fs, 0, 1, 1)
      ensures pr.0 * pr.0 * pr.1 == q && pr.0 >= 1 && pr.1 >= 1
    {
      PositiveFactors(pr.0, pr.1, q);
    }
  }

  /** What is counted for `a`: exactly the leaves of the split of N / 27 that pass the
      test, and every leaf (b, c) is a Cardano pair, 27 * b^2 * c == (1 + a)^2 (8a - 1),
      with b and c positive. */
  lemma TripletsSpec(a: nat, maxSum: nat)
    ensures CardanoN(a) % 27 != 0 ==> TripletsFor(a, maxSum) == 0
    ensures CardanoN(a) % 27 == 0 ==>
      var pairs := Pairs(Factorize(CardanoQuotient(a)), 0, 1, 1);
      && TripletsFor(a, maxSum) == CountKept(a, maxSum, pairs)
      && forall pr :: pr in pairs ==> 27 * (pr.0 * pr.0 * pr.1) == CardanoN(a) && pr.0 >= 1 && pr.1 >= 1
  {
    if CardanoN(a) % 27 == 0 {
      var q := CardanoQuotient(a);
      var fs := Factorize(q);
      CardanoNSign(a);
      FactorizeSpec(q);
      GenerateBCCounts(fs, 0, 1, 1, maxSum, a);
      LeavesSplit(fs, q);
    }
  }

  /** The values of `a` the loop visits: `start`, `start + 3`, ... while at most `end`. */
  function Visits(start: nat, end: int): seq<nat>
    decreases end + 1 - start
  {
    if start > end then [] else [start] + Visits(start + 3, end)
  }

  /** The loop visits start + 3i for i = 0, 1, ..., as many as fit below `end`. */
  lemma {:induction false} VisitsShape(start: nat, end: int)
    ensures |Visits(start, end)| == if start > end then 0 else (end - start) / 3 + 1
    ensures forall i :: 0 <= i < |Visits(start, end)| ==> Visits(start, end)[i] == start + 3 * i
    decreases end + 1 - start
  {
    if start <= end {
      VisitsShape(start + 3, end);
      var v := Visits(start, end);
      assert v[1..] == Visits(start + 3, end);
      forall i | 1 <= i < |v|
        ensures v[i] == start + 3 * i
      {
        assert v[i] == v[1..][i - 1];
      }
    }
  }

  /** Each value from `start` to `end` that is `start` modulo 3 is visited exactly once, and
      nothing else is visited. */
  lemma {:induction false} VisitsOnce(start: nat, end: int, a: nat)
    ensures multiset(Visits(start, end))[a] == if start <= a <= end && (a - start) % 3 == 0 then 1 else 0
    decreases end + 1 - start
  {
    if start <= end {
      var first: seq<nat>, rest := [start], Visits(start + 3, end);
      VisitsOnce(start + 3, end, a);
      HitStep(start, end, a);
      assert Visits(start, end) == first + rest;
      assert multiset(first + rest) == multiset(first) + multiset(rest);
      assert multiset(first)[a] == if a == start then 1 else 0;
    }
  }

  /** `a` is on the grid from `start` exactly when it is `start` or on the grid from `start + 3`. */
  lemma HitStep(start: nat, end: int, a: nat)
    requires start <= end
    ensures (start <= a <= end && (a - start) % 3 == 0) <==>
      (a == start || (start + 3 <= a <= end && (a - (start + 3)) % 3 == 0))
  {
    ShiftByThree(a - start);
    if start < a < start + 3 {
      assert (a - start) % 3 != 0;
    }
  }

  lemma ShiftByThree(d: int)
    ensures (d - 3) % 3 == d % 3
  {
  }

  function CountOver(visits: seq<nat>, maxSum: nat): nat
    decreases |visits|
  {
    if visits == [] then 0 else TripletsFor(visits[0], maxSum) + CountOver(visits[1..], maxSum)
  }

  /** `find_cardano_triplets(start_a, end_a, max_sum)`: the increments it makes. */
  function FindCardano(start: nat, end: int, maxSum: nat): nat {
    CountOver(Visits(start, end), maxSum)
  }

  lemma {:induction false} CountOverAppend(x: seq<nat>, y: seq<nat>, maxSum: nat)
    ensures CountOver(x + y, maxSum) == CountOver(x, maxSum) + CountOver(y, maxSum)
    decreases |x|
  {
    if x == [] {
      assert x + y == y;
    } else {
      assert (x + y)[1..] == x[1..] + y;
      CountOverAppend(x[1..], y, maxSum);
    }
  }

  /** Taking one value out of the visits takes its count out of the total. */
  lemma CountOverRemove(y: seq<nat>, i: nat, maxSum: nat)
    requires i < |y|
    ensures CountOver(y, maxSum) == TripletsFor(y[i], maxSum) + CountOver(y[..i] + y[i + 1..], maxSum)
  {
    var left, right := y[..i], y[i + 1..];
    assert y == left + ([y[i]] + right);
    assert ([y[i]] + right)[1..] == right;
    CountOverAppend(left, [y[i]] + right, maxSum);
    CountOverAppend(left, right, maxSum);
  }

  /** The count over a list of values of `a` depends only on how often each is visited. */
  lemma {:induction false} CountOverPermutation(x: seq<nat>, y: seq<nat>, maxSum: nat)
    requires multiset(x) == multiset(y)
    ensures CountOver(x, maxSum) == CountOver(y, maxSum)
    decreases |x|
  {
    if x != [] {
      var i := Sums.MatchFirst(x, y);
      CountOverPermutation(x[1..], y[..i] + y[i + 1..], maxSum);
      CountOverRemove(y, i, maxSum);
    }
  }

  // ---------------------------------------------------------------------------
  // The split of the range of `a` over the threads

  function Min(x: int, y: int): int {
    if x <= y then x else y
  }

  /** The adjustment of `start_a` to the next value that is 2 modulo 3. */
  function Aligned(s: nat): (r: nat)
    ensures r % 3 == 2 && s <= r <= s + 2
  {
    if s % 3 != 2 then s + (3 - s % 3 + 2) % 3 else s
  }

  /** `Aligned(s)` is the only value 2 modulo 3 among s, s + 1, s + 2. */
  lemma AlignedUnique(s: nat, r: nat)
    requires r % 3 == 2 && s <= r <= s + 2
    ensures Aligned(s) == r
  {
  }

  /** `range = MAX_A / num_threads + 1`. */
  function RangeSize(maxA: nat, threads: nat): nat
    requires threads >= 1
  {
    maxA / threads + 1
  }

  function ThreadStart(range: nat, i: nat): nat {
    Aligned(2 + i * range)
  }

  /** The values thread `i` visits as written: its range ends `range - 1` after the
      adjusted start. A thread whose start lies past its end is not started. */
  function ThreadVisits(maxA: nat, range: nat, i: nat): seq<nat>
    requires range >= 1
  {
    var s := ThreadStart(range, i);
    var e := Min(s + range - 1, maxA);
    if s > e then [] else Visits(s, e)
  }

  /** The values thread `i` visits when its range ends where the next thread's begins,
      before the adjustment. */
  function ThreadVisitsCorrected(maxA: nat, range: nat, i: nat): seq<nat>
    requires range >= 1
  {
    var s := ThreadStart(range, i);
    var e := Min(2 + (i + 1) * range - 1, maxA);
    if s > e then [] else Visits(s, e)
  }

  /** The visits of threads 0 .. n - 1, one after another. */
  function AllVisits(maxA: nat, range: nat, n: nat): seq<nat>
    requires range >= 1
  {
    if n == 0 then [] else AllVisits(maxA, range, n - 1) + ThreadVisits(maxA, range, n - 1)
  }

  function AllVisitsCorrected(maxA: nat, range: nat, n: nat): seq<nat>
    requires range >= 1
  {
    if n == 0 then [] else AllVisitsCorrected(maxA, range, n - 1) + ThreadVisitsCorrected(maxA, range, n - 1)
  }

  /** `total_triplet_count` after `main` has joined its threads, with `MAX_A = max_sum`. */
  function Search(maxSum: nat, detected: nat): nat {
    var threads := ThreadCount(detected);
    CountOver(AllVisits(maxSum, RangeSize(maxSum, threads), threads), maxSum)
  }

  function SearchCorrected(maxSum: nat, detected: nat): nat {
    var threads := ThreadCount(detected);
    CountOver(AllVisitsCorrected(maxSum, RangeSize(maxSum, threads), threads), maxSum)
  }

  /** Visiting from the aligned start of `[l, m)` and then from the aligned start of
      `[m, r]` is one sweep from the aligned start of `[l, r]`. */
  lemma {:induction false} VisitsSplit(l: nat, m: nat, r: int)
    requires l <= m <= r + 1
    ensures Visits(Aligned(l), m - 1) + Visits(Aligned(m), r) == Visits(Aligned(l), r)
    decreases m - l
  {
    var s := Aligned(l);
    if s >= m {
      AlignedUnique(m, s);
      assert Visits(s, m - 1) == [];
    } else {
      AlignedNext(s);
      VisitsSplit(s + 1, m, r);
      VisitsCons(s, m - 1, Visits(Aligned(m), r));
    }
  }

  lemma AlignedNext(s: nat)
    requires s % 3 == 2
    ensures Aligned(s + 1) == s + 3
  {
    AlignedUnique(s + 1, s + 3);
  }

  lemma VisitsCons(s: nat, e: int, y: seq<nat>)
    requires s <= e
    ensures Visits(s, e) + y == [s] + (Visits(s + 3, e) + y)
  {
    assert Visits(s, e) == [s] + Visits(s + 3, e);
  }

  /** The same, with both ends cut off at `maxA`. */
  lemma VisitsSplitClipped(l: nat, m: nat, r: int, maxA: nat)
    requires l <= m <= r + 1
    ensures Visits(Aligned(l), Min(m - 1, maxA)) + Visits(Aligned(m), Min(r, maxA)) == Visits(Aligned(l), Min(r, maxA))
  {
    if m - 1 >= maxA {
      assert Visits(Aligned(m), Min(r, maxA)) == [];
    } else {
      VisitsSplit(l, m, Min(r, maxA));
    }
  }

  /** With the corrected ends, threads 0 .. n - 1 together sweep `[2, 1 + n * range]`
      once, in order. */
  lemma {:induction false} CorrectedThreadsSweep(maxA: nat, range: nat, n: nat)
    requires range >= 1
    ensures AllVisitsCorrected(maxA, range, n) == Visits(2, Min(1 + n * range, maxA))
  {
    if n > 0 {
      CorrectedThreadsSweep(maxA, range, n - 1);
      var m := 2 + (n - 1) * range;
      assert (n - 1) * range + range == n * range;
      VisitsSplitClipped(2, m, 1 + n * range, maxA);
      assert ThreadVisitsCorrected(maxA, range, n - 1) == Visits(Aligned(m), Min(1 + n * range, maxA));
    }
  }

  /** With the corrected ends the threads visit exactly what one sequential sweep over
      `[2, MAX_A]` visits, so the total is that of the sweep, and every a = 2 (mod 3) in
      `[2, MAX_A]` is processed exactly once. */
  lemma CorrectedSplitIsSweep(maxSum: nat, detected: nat, a: nat)
    ensures var threads := ThreadCount(detected);
      AllVisitsCorrected(maxSum, RangeSize(maxSum, threads), threads) == Visits(2, maxSum)
    ensures SearchCorrected(maxSum, detected) == FindCardano(2, maxSum, maxSum)
    ensures var threads := ThreadCount(detected);
      multiset(AllVisitsCorrected(maxSum, RangeSize(maxSum, threads), threads))[a] ==
        if 2 <= a <= maxSum && a % 3 == 2 then 1 else 0
  {
    var threads := ThreadCount(detected);
    var range := RangeSize(maxSum, threads);
    CorrectedThreadsSweep(maxSum, range, threads);
    RangesReachMax(maxSum, threads);
    assert Min(1 + threads * range, maxSum) == maxSum;
    SweepVisitsOnce(maxSum, a);
  }

  /** The sequential sweep visits each a = 2 (mod 3) in `[2, maxA]` once and nothing else. */
  lemma SweepVisitsOnce(maxA: nat, a: nat)
    ensures multiset(Visits(2, maxA))[a] == if 2 <= a <= maxA && a % 3 == 2 then 1 else 0
  {
    VisitsOnce(2, maxA, a);
    if 2 <= a {
      assert (a - 2) % 3 == 0 <==> a % 3 == 2;
    }
  }

  /** `num_threads` ranges of `MAX_A / num_threads + 1` values reach past `MAX_A`. */
  lemma RangesReachMax(maxA: nat, threads: nat)
    requires threads >= 1
    ensures threads * RangeSize(maxA, threads) > maxA
  {
    var q, r := maxA / threads, maxA % threads;
    assert maxA == q * threads + r;
    assert threads * (q + 1) == q * threads + threads;
  }

  /** A visit list that stops earlier is contained in one that stops later. */
  lemma {:induction false} VisitsGrow(s: nat, e1: int, e2: int)
    requires e1 <= e2
    ensures multiset(Visits(s, e1)) <= multiset(Visits(s, e2))
    decreases e1 + 1 - s
  {
    if s <= e1 {
      VisitsGrow(s + 3, e1, e2);
    }
  }

  /** As written, each thread visits at least what the corrected thread visits. */
  lemma AsWrittenContainsCorrected(maxA: nat, range: nat, n: nat)
    requires range >= 1
    ensures multiset(AllVisitsCorrected(maxA, range, n)) <= multiset(AllVisits(maxA, range, n))
  {
    NoThreads(maxA, range);
    var k := 0;
    while k < n
      invariant k <= n
      invariant multiset(AllVisitsCorrected(maxA, range, k)) <= multiset(AllVisits(maxA, range, k))
    {
      ContainsStep(maxA, range, k + 1);
      k := k + 1;
    }
  }

  lemma NoThreads(maxA: nat, range: nat)
    requires range >= 1
    ensures AllVisitsCorrected(maxA, range, 0) == [] == AllVisits(maxA, range, 0)
  {
  }

  lemma ContainsStep(maxA: nat, range: nat, n: nat)
    requires range >= 1 && n >= 1
    requires multiset(AllVisitsCorrected(maxA, range, n - 1)) <= multiset(AllVisits(maxA, range, n - 1))
    ensures multiset(AllVisitsCorrected(maxA, range, n)) <= multiset(AllVisits(maxA, range, n))
  {
    ThreadContainsCorrected(maxA, range, n - 1);
    ConcatContains(AllVisitsCorrected(maxA, range, n - 1), ThreadVisitsCorrected(maxA, range, n - 1),
      AllVisits(maxA, range, n - 1), ThreadVisits(maxA, range, n - 1));
  }

  lemma ConcatContains(x1: seq<nat>, y1: seq<nat>, x2: seq<nat>, y2: seq<nat>)
    requires multiset(x1) <= multiset(x2) && multiset(y1) <= multiset(y2)
    ensures multiset(x1 + y1) <= multiset(x2 + y2)
  {
  }

  lemma ThreadContainsCorrected(maxA: nat, range: nat, i: nat)
    requires range >= 1
    ensures multiset(ThreadVisitsCorrected(maxA, range, i)) <= multiset(ThreadVisits(maxA, range, i))
  {
    var s := ThreadStart(range, i);
    assert i * range + range == (i + 1) * range;
    var e1, e2 := Min(2 + (i + 1) * range - 1, maxA), Min(s + range - 1, maxA);
    assert ThreadVisitsCorrected(maxA, range, i) == Visits(s, e1);
    assert ThreadVisits(maxA, range, i) == Visits(s, e2);
    VisitsGrow(s, e1, e2);
  }

  /** As written the threads still reach every a = 2 (mod 3) in `[2, MAX_A]`, as the comment
      on `range` promises. */
  lemma AsWrittenCovers(maxSum: nat, detected: nat, a: nat)
    requires 2 <= a <= maxSum && a % 3 == 2
    ensures var threads := ThreadCount(detected);
      a in AllVisits(maxSum, RangeSize(maxSum, threads), threads)
  {
    var threads := ThreadCount(detected);
    ThreadsCover(maxSum, threads, a);
  }

  lemma ThreadsCover(maxSum: nat, threads: nat, a: nat)
    requires threads >= 1 && 2 <= a <= maxSum && a % 3 == 2
    ensures a in AllVisits(maxSum, RangeSize(maxSum, threads), threads)
  {
    var range := RangeSize(maxSum, threads);
    CorrectedThreadsSweep(maxSum, range, threads);
    RangesReachMax(maxSum, threads);
    assert Min(1 + threads * range, maxSum) == maxSum;
    SweepVisitsOnce(maxSum, a);
    AsWrittenContainsCorrected(maxSum, range, threads);
    ContainedOccurs(AllVisitsCorrected(maxSum, range, threads), AllVisits(maxSum, range, threads), a);
  }

  lemma ContainedOccurs(x: seq<nat>, y: seq<nat>, a: nat)
    requires multiset(x)[a] == 1 && multiset(x) <= multiset(y)
    ensures a in y
  {
    assert a in multiset(x);
  }

  // ---------------------------------------------------------------------------
  // As written, neighbouring threads share a value of `a`

  /** The factor list of N / 27 for a = 17: 1620 = 2^2 * 3^4 * 5. */
  lemma FactorizeOf1620()
    ensures Factorize(1620) == [Factor(2, 2), Factor(3, 4), Factor(5, 1)]
  {
    assert DivideOut(405, 2) == (405, 0);
    assert DivideOut(810, 2) == (405, 1);
    assert DivideOut(1620, 2) == (405, 2);
    assert DivideOut(5, 3) == (5, 0);
    assert DivideOut(15, 3) == (5, 1);
    assert DivideOut(45, 3) == (5, 2);
    assert DivideOut(135, 3) == (5, 3);
    assert DivideOut(405, 3) == (5, 4);
    assert FactorLoop(5, 4) == [Factor(5, 1)];
    assert FactorLoop(405, 3) == [Factor(3, 4)] + FactorLoop(5, 4);
    assert FactorLoop(1620, 2) == [Factor(2, 2)] + FactorLoop(405, 3);
  }

  /** The last level of the split of 1620: the factor 5^1 goes to c. */
  lemma LastLevelOf1620(fs: seq<Factor>, b: nat, c: nat)
    requires fs == [Factor(2, 2), Factor(3, 4), Factor(5, 1)]
    ensures PairsFrom(fs, 2, b, c, 0) == [(b, c * 5)]
  {
    assert Pow(5, 0) == 1 && Pow(5, 1) == 5;
    assert Pairs(fs, 3, b, c * 5) == [(b, c * 5)];
    assert PairsFrom(fs, 2, b, c, 1) == [];
  }

  /** The middle level: 3^4 is split as 1 * 3^4, 3 * 3^2 and 9 * 1. */
  lemma MiddleLevelOf1620(fs: seq<Factor>, b: nat, c: nat)
    requires fs == [Factor(2, 2), Factor(3, 4), Factor(5, 1)]
    ensures PairsFrom(fs, 1, b, c, 0) == [(b, c * 81 * 5), (b * 3, c * 9 * 5), (b * 9, c * 5)]
  {
    assert Pow(3, 0) == 1 && Pow(3, 1) == 3 && Pow(3, 2) == 9 && Pow(3, 4) == 81;
    LastLevelOf1620(fs, b, c * 81);
    LastLevelOf1620(fs, b * 3, c * 9);
    LastLevelOf1620(fs, b * 9, c * 1);
    assert PairsFrom(fs, 1, b, c, 3) == [];
    assert PairsFrom(fs, 1, b, c, 2) == [(b * 9, c * 5)];
    assert PairsFrom(fs, 1, b, c, 1) == [(b * 3, c * 9 * 5), (b * 9, c * 5)];
  }

  /** The leaves `generate_bc` reaches for 1620 = 2^2 * 3^4 * 5. */
  lemma PairsOf1620(fs: seq<Factor>)
    requires fs == [Factor(2, 2), Factor(3, 4), Factor(5, 1)]
    ensures Pairs(fs, 0, 1, 1) == [(1, 1620), (3, 180), (9, 20), (2, 405), (6, 45), (18, 5)]
  {
    assert Pow(2, 0) == 1 && Pow(2, 1) == 2 && Pow(2, 2) == 4;
    MiddleLevelOf1620(fs, 1, 4);
    MiddleLevelOf1620(fs, 2, 1);
    assert Pairs(fs, 1, 1, 4) == [(1, 1620), (3, 180), (9, 20)];
    assert Pairs(fs, 1, 2, 1) == [(2, 405), (6, 45), (18, 5)];
    assert PairsFrom(fs, 0, 1, 1, 2) == [];
    assert PairsFrom(fs, 0, 1, 1, 1) == Pairs(fs, 1, 2, 1) + [];
    assert PairsFrom(fs, 0, 1, 1, 0) == Pairs(fs, 1, 1, 4) + PairsFrom(fs, 0, 1, 1, 1);
  }

  /** Of those leaves only (18, 5) passes the test for a = 17 and a bound of 40. */
  lemma KeptOf1620()
    ensures CountKept(17, 40, [(1, 1620), (3, 180), (9, 20), (2, 405), (6, 45), (18, 5)]) == 1
  {
    var q := [(1, 1620), (3, 180), (9, 20), (2, 405), (6, 45), (18, 5)];
    assert q[1..][1..][1..][1..][1..] == [(18, 5)];
  }

  /** For a = 17 and a bound of 40 exactly one pair is counted: (b, c) = (18, 5), since
      17 + 18 + 5 = 40 and 27 * 18^2 * 5 = 18^2 * 135. */
  lemma TripletsFor17()
    ensures CardanoN(17) == 27 * 1620
    ensures TripletsFor(17, 40) == 1
  {
    assert CardanoN(17) == 43740;
    assert CardanoQuotient(17) == 1620;
    FactorizeOf1620();
    var fs := [Factor(2, 2), Factor(3, 4), Factor(5, 1)];
    PairsOf1620(fs);
    KeptOf1620();
    GenerateBCCounts(fs, 0, 1, 1, 40, 17);
  }

  /** The first three as-written threads for `max_sum = 40`: range 7 from 2, 9 and 16. */
  lemma LowThreads40()
    ensures ThreadVisits(40, 7, 0) == [2, 5, 8]
    ensures ThreadVisits(40, 7, 1) == [11, 14, 17]
    ensures ThreadVisits(40, 7, 2) == [17, 20, 23]
  {
    assert Visits(11, 17) == [11, 14, 17];
  }

  /** The last three: from 23, 30 and 37, the last one cut off at 40. */
  lemma HighThreads40()
    ensures ThreadVisits(40, 7, 3) == [23, 26, 29]
    ensures ThreadVisits(40, 7, 4) == [32, 35, 38]
    ensures ThreadVisits(40, 7, 5) == [38]
  {
  }

  /** The pieces of the sequential sweep over `[2, 40]` that the as-written threads revisit
      17, 23 and 38 between. */
  const Low40: seq<nat> := [2, 5, 8, 11, 14, 17]
  const Mid40: seq<nat> := [20, 23]
  const High40: seq<nat> := [26, 29, 32, 35, 38]

  /** The values the six as-written threads visit for `max_sum = 40`, in thread order. */
  lemma AsWrittenVisits40()
    ensures ThreadCount(6) == 6 && RangeSize(40, 6) == 7
    ensures ThreadVisits(40, 7, 1) == [11, 14, 17] && ThreadVisits(40, 7, 2) == [17, 20, 23]
    ensures AllVisits(40, 7, 6) == Low40 + [17] + Mid40 + [23] + High40 + [38]
  {
    LowThreads40();
    HighThreads40();
    var v := AllVisits(40, 7, 6);
    assert v == [2, 5, 8] + [11, 14, 17] + [17, 20, 23] + [23, 26, 29] + [32, 35, 38] + [38];
    Regroup40();
  }

  lemma Regroup40()
    ensures [2, 5, 8] + [11, 14, 17] + [17, 20, 23] + [23, 26, 29] + [32, 35, 38] + [38]
      == Low40 + [17] + Mid40 + [23] + High40 + [38]
  {
  }

  /** Visiting three extra values adds their counts to the total. */
  lemma {:induction false} CountOverInserted(p1: seq<nat>, p2: seq<nat>, p3: seq<nat>, x: nat, y: nat, z: nat, maxSum: nat)
    ensures CountOver(p1 + [x] + p2 + [y] + p3 + [z], maxSum) ==
      CountOver(p1 + p2 + p3, maxSum) + TripletsFor(x, maxSum) + TripletsFor(y, maxSum) + TripletsFor(z, maxSum)
  {
    CountOverAppend(p1 + [x] + p2 + [y] + p3, [z], maxSum);
    CountOverAppend(p1 + [x] + p2 + [y], p3, maxSum);
    CountOverAppend(p1 + [x] + p2, [y], maxSum);
    CountOverAppend(p1 + [x], p2, maxSum);
    CountOverAppend(p1, [x], maxSum);
    CountOverAppend(p1 + p2, p3, maxSum);
    CountOverAppend(p1, p2, maxSum);
    assert [x][1..] == [] && [y][1..] == [] && [z][1..] == [];
  }

  /** How often `v` occurs in a list with three values inserted. */
  lemma MultisetInserted(p1: seq<nat>, p2: seq<nat>, p3: seq<nat>, x: nat, y: nat, z: nat, v: nat)
    ensures multiset(p1 + [x] + p2 + [y] + p3 + [z])[v] ==
      multiset(p1)[v] + multiset(p2)[v] + multiset(p3)[v]
        + (if x == v then 1 else 0) + (if y == v then 1 else 0) + (if z == v then 1 else 0)
  {
  }

  /** The as-written visit list for `max_sum = 40` holds 17 twice. */
  lemma SeventeenTwice(p1: seq<nat>, p2: seq<nat>, p3: seq<nat>)
    requires p1 == [2, 5, 8, 11, 14, 17] && p2 == [20, 23] && p3 == [26, 29, 32, 35, 38]
    ensures multiset(p1 + [17] + p2 + [23] + p3 + [38])[17] == 2
  {
    SeventeenEndsPrefix(p1);
    CountAbsent(p2, 17);
    CountAbsent(p3, 17);
    DoubledCount(p1, p2, p3);
  }

  lemma DoubledCount(p1: seq<nat>, p2: seq<nat>, p3: seq<nat>)
    requires multiset(p1)[17] == 1 && multiset(p2)[17] == 0 && multiset(p3)[17] == 0
    ensures multiset(p1 + [17] + p2 + [23] + p3 + [38])[17] == 2
  {
    MultisetInserted(p1, p2, p3, 17, 23, 38, 17);
  }

  lemma SeventeenEndsPrefix(p1: seq<nat>)
    requires p1 == [2, 5, 8, 11, 14, 17]
    ensures multiset(p1)[17] == 1
  {
    var a := [2, 5, 8, 11, 14];
    assert p1 == a + [17];
    CountAbsent(a, 17);
  }

  lemma CountAbsent(x: seq<nat>, v: nat)
    requires forall i :: 0 <= i < |x| ==> x[i] != v
    ensures multiset(x)[v] == 0
  {
  }

  /** With `max_sum = 40` and six hardware threads the as-written ends make threads 1 and 2
      both visit 17, threads 2 and 3 both visit 23, and threads 4 and 5 both visit 38. The
      total then exceeds the sweep's total: the triplet (17, 18, 5) is counted twice. */
  lemma OverlapCountsTwice()
    ensures Search(40, 6) == SearchCorrected(40, 6) + TripletsFor(17, 40) + TripletsFor(23, 40) + TripletsFor(38, 40)
    ensures Search(40, 6) > SearchCorrected(40, 6)
  {
    SearchExcess40(40, 6);
    TripletsFor17();
  }

  /** With `max_sum = 40` and six hardware threads, `range` is 7, and the as-written ends make
      threads 1 and 2 both visit 17, so the visit list holds it twice. */
  lemma ThreadsOverlap40()
    ensures RangeSize(40, ThreadCount(6)) == 7
    ensures ThreadVisits(40, 7, 1) == [11, 14, 17] && ThreadVisits(40, 7, 2) == [17, 20, 23]
    ensures multiset(AllVisits(40, 7, 6))[17] == 2
  {
    AsWrittenVisits40();
    SeventeenTwice(Low40, Mid40, High40);
  }

  lemma SearchExcess40(maxSum: nat, detected: nat)
    requires maxSum == 40 && detected == 6
    ensures Search(maxSum, detected) ==
      SearchCorrected(maxSum, detected) + TripletsFor(17, maxSum) + TripletsFor(23, maxSum) + TripletsFor(38, maxSum)
  {
    var p1, p2, p3 := Pieces40();
    ExcessOfInserted(p1, p2, p3, 17, 23, 38, maxSum, detected, 6, 7);
  }

  /** The as-written visits for `max_sum = 40` are the sweep's, split in three pieces, with
      17, 23 and 38 visited once more. */
  lemma Pieces40() returns (p1: seq<nat>, p2: seq<nat>, p3: seq<nat>)
    ensures AllVisits(40, 7, 6) == p1 + [17] + p2 + [23] + p3 + [38]
    ensures Visits(2, 40) == p1 + p2 + p3
  {
    AsWrittenVisits40();
    SweepVisits40();
    p1, p2, p3 := Low40, Mid40, High40;
  }

  /** When the as-written threads visit the sweep's values with `x`, `y` and `z` visited once
      more, their total exceeds the sweep's by the counts of those three values. */
  lemma ExcessOfInserted(p1: seq<nat>, p2: seq<nat>, p3: seq<nat>, x: nat, y: nat, z: nat,
                         maxSum: nat, detected: nat, threads: nat, range: nat)
    requires threads == ThreadCount(detected) && range == RangeSize(maxSum, threads)
    requires AllVisits(maxSum, range, threads) == p1 + [x] + p2 + [y] + p3 + [z]
    requires Visits(2, maxSum) == p1 + p2 + p3
    ensures Search(maxSum, detected) ==
      SearchCorrected(maxSum, detected) + TripletsFor(x, maxSum) + TripletsFor(y, maxSum) + TripletsFor(z, maxSum)
  {
    CorrectedSplitIsSweep(maxSum, detected, 0);
    CountOverInserted(p1, p2, p3, x, y, z, maxSum);
  }

  lemma SweepVisits40()
    ensures Visits(2, 40) == Low40 + Mid40 + High40
  {
  }
}

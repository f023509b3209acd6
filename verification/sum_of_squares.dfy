/**
  The sum-of-two-squares enumeration of Euler273.cpp. Every square-free product N of the
  sixteen primes p = 1 (mod 4) below 150 is written as a^2 + b^2 by multiplying the
  Gaussian integers of its prime factors, each in one of its two conjugate forms; the
  program sums the `a` of every normalized pair found, splitting the list of N
  round-robin over threads.
 */
module SumOfSquares {
  import opened Sums
  import opened Numbers
  import opened Threads

  /** A Gaussian integer `re + i*im`, also used for a normalized pair `(a, b)`. */
  datatype Gaussian = Gaussian(re: int, im: int)

  function Norm(z: Gaussian): int {
    z.re * z.re + z.im * z.im
  }

  function Conjugate(z: Gaussian): Gaussian {
    Gaussian(z.re, -z.im)
  }

  function Abs(x: int): (r: nat)
    ensures r == x || r == -x
  {
    if x < 0 then -x else x
  }

  /** `multiplyGaussian`: the product of two Gaussian integers. The norm is
      multiplicative, which is why the products below represent N. */
  function MultiplyGaussian(x: Gaussian, y: Gaussian): (r: Gaussian)
    ensures Norm(r) == Norm(x) * Norm(y)
  {
    var r := Gaussian(x.re * y.re - x.im * y.im, x.re * y.im + y.re * x.im);
    NormProduct(x.re, x.im, y.re, y.im);
    r
  }

  /** The two-squares identity of Brahmagupta and Fibonacci. */
  lemma NormProduct(a: int, b: int, c: int, d: int)
    ensures (a * c - b * d) * (a * c - b * d) + (a * d + c * b) * (a * d + c * b)
         == (a * a + b * b) * (c * c + d * d)
  {
    calc {
      (a * c - b * d) * (a * c - b * d) + (a * d + c * b) * (a * d + c * b);
      == { Square2(a * c, b * d); Square1(a * d, c * b); }
      (a * c) * (a * c) - 2 * (a * c) * (b * d) + (b * d) * (b * d)
        + (a * d) * (a * d) + 2 * (a * d) * (c * b) + (c * b) * (c * b);
      == { Regroup(a, b, c, d); }
      (a * a + b * b) * (c * c + d * d);
    }
  }

  lemma Square1(x: int, y: int)
    ensures (x + y) * (x + y) == x * x + 2 * x * y + y * y
  {
  }

  lemma Square2(x: int, y: int)
    ensures (x - y) * (x - y) == x * x - 2 * x * y + y * y
  {
  }

  lemma Regroup(a: int, b: int, c: int, d: int)
    ensures 2 * (a * c) * (b * d) == 2 * (a * d) * (c * b)
    ensures (a * c) * (a * c) + (b * d) * (b * d) + (a * d) * (a * d) + (c * b) * (c * b)
         == (a * a + b * b) * (c * c + d * d)
  {
  }

  /** The pair kept for a product: absolute values, smaller one first. */
  function Normalize(z: Gaussian): (r: Gaussian)
    ensures 0 <= r.re <= r.im
    ensures Norm(r) == Norm(z)
    ensures (r.re == Abs(z.re) && r.im == Abs(z.im)) || (r.re == Abs(z.im) && r.im == Abs(z.re))
  {
    var a, b := Abs(z.re), Abs(z.im);
    if a > b then Gaussian(b, a) else Gaussian(a, b)
  }

  /** `computeRepresentations(reps, index, current, results)`: the pairs it inserts. */
  function Representations(reps: seq<Gaussian>, index: nat, current: Gaussian): set<Gaussian>
    requires index <= |reps|
    decreases |reps| - index
  {
    if index == |reps| then {Normalize(current)}
    else
      Representations(reps, index + 1, MultiplyGaussian(current, reps[index]))
      + Representations(reps, index + 1, MultiplyGaussian(current, Conjugate(reps[index])))
  }

  function NormsProduct(reps: seq<Gaussian>): int
    decreases |reps|
  {
    if reps == [] then 1 else Norm(reps[0]) * NormsProduct(reps[1..])
  }

  function Pow2(k: nat): (p: nat)
    ensures p >= 1
  {
    if k == 0 then 1 else 2 * Pow2(k - 1)
  }

  lemma NormsProductSuffix(reps: seq<Gaussian>, index: nat)
    requires index < |reps|
    ensures NormsProduct(reps[index..]) == Norm(reps[index]) * NormsProduct(reps[index + 1..])
  {
    assert reps[index..][1..] == reps[index + 1..];
  }

  lemma NormConjugate(z: Gaussian)
    ensures Norm(Conjugate(z)) == Norm(z)
  {
  }

  /** Every pair found is normalized, and its squares add up to the norm of the starting
      value times the norms of the remaining factors. */
  lemma {:induction false} RepresentationsNorm(reps: seq<Gaussian>, index: nat, current: Gaussian)
    requires index <= |reps|
    ensures forall r :: r in Representations(reps, index, current) ==>
      0 <= r.re <= r.im && Norm(r) == Norm(current) * NormsProduct(reps[index..])
    decreases |reps| - index
  {
    if index < |reps| {
      var z := reps[index];
      NormsProductSuffix(reps, index);
      NormConjugate(z);
      RepresentationsNorm(reps, index + 1, MultiplyGaussian(current, z));
      RepresentationsNorm(reps, index + 1, MultiplyGaussian(current, Conjugate(z)));
      MulAssoc(Norm(current), Norm(z), NormsProduct(reps[index + 1..]));
    } else {
      assert reps[index..] == [];
    }
  }

  /** Two branches per factor: at most 2^k pairs for k remaining factors. */
  lemma {:induction false} RepresentationsCount(reps: seq<Gaussian>, index: nat, current: Gaussian)
    requires index <= |reps|
    ensures 1 <= |Representations(reps, index, current)| <= Pow2(|reps| - index)
    decreases |reps| - index
  {
    if index < |reps| {
      var z := reps[index];
      var a := Representations(reps, index + 1, MultiplyGaussian(current, z));
      var b := Representations(reps, index + 1, MultiplyGaussian(current, Conjugate(z)));
      RepresentationsCount(reps, index + 1, MultiplyGaussian(current, z));
      RepresentationsCount(reps, index + 1, MultiplyGaussian(current, Conjugate(z)));
      assert |a + b| <= |a| + |b|;
      assert a <= a + b;
    }
  }

  // ---------------------------------------------------------------------------
  // Reference definition: one sign choice per factor

  /** The product of `current` with each remaining factor, conjugated where `signs` says. */
  function SignedProduct(reps: seq<Gaussian>, index: nat, current: Gaussian, signs: seq<bool>): Gaussian
    requires index <= |reps| && |signs| == |reps| - index
    decreases |reps| - index
  {
    if index == |reps| then current
    else
      var z := if signs[0] then reps[index] else Conjugate(reps[index]);
      SignedProduct(reps, index + 1, MultiplyGaussian(current, z), signs[1..])
  }

  /** The pairs the recursion inserts are exactly the normalized products over all sign
      choices. */
  lemma RepresentationsBySigns(reps: seq<Gaussian>, index: nat, current: Gaussian, r: Gaussian)
    requires index <= |reps|
    ensures r in Representations(reps, index, current) <==>
      exists signs :: |signs| == |reps| - index && r == Normalize(SignedProduct(reps, index, current, signs))
  {
    if r in Representations(reps, index, current) {
      var signs := SignsOfRepresentation(reps, index, current, r);
    }
    if exists signs :: |signs| == |reps| - index && r == Normalize(SignedProduct(reps, index, current, signs)) {
      var signs :| |signs| == |reps| - index && r == Normalize(SignedProduct(reps, index, current, signs));
      SignsReachRepresentation(reps, index, current, signs);
    }
  }

  /** Every inserted pair comes from some choice of signs. */
  lemma {:induction false} SignsOfRepresentation(reps: seq<Gaussian>, index: nat, current: Gaussian, r: Gaussian)
    returns (signs: seq<bool>)
    requires index <= |reps| && r in Representations(reps, index, current)
    ensures |signs| == |reps| - index && r == Normalize(SignedProduct(reps, index, current, signs))
    decreases |reps| - index
  {
    if index == |reps| {
      signs := [];
    } else {
      var z := reps[index];
      var up, down := MultiplyGaussian(current, z), MultiplyGaussian(current, Conjugate(z));
      var first := r in Representations(reps, index + 1, up);
      var rest := SignsOfRepresentation(reps, index + 1, if first then up else down, r);
      SignsPrepend(reps, index, current, first, rest);
      signs := [first] + rest;
    }
  }

  /** Every choice of signs gives an inserted pair. */
  lemma {:induction false} SignsReachRepresentation(reps: seq<Gaussian>, index: nat, current: Gaussian, signs: seq<bool>)
    requires index <= |reps| && |signs| == |reps| - index
    ensures Normalize(SignedProduct(reps, index, current, signs)) in Representations(reps, index, current)
    decreases |reps| - index
  {
    if index < |reps| {
      var z := if signs[0] then reps[index] else Conjugate(reps[index]);
      SignsReachRepresentation(reps, index + 1, MultiplyGaussian(current, z), signs[1..]);
    }
  }

  /** Choosing the sign of factor `index` first and the rest after is choosing them all. */
  lemma SignsPrepend(reps: seq<Gaussian>, index: nat, current: Gaussian, first: bool, rest: seq<bool>)
    requires index < |reps| && |rest| == |reps| - (index + 1)
    ensures var z := if first then reps[index] else Conjugate(reps[index]);
      SignedProduct(reps, index, current, [first] + rest) == SignedProduct(reps, index + 1, MultiplyGaussian(current, z), rest)
  {
    assert ([first] + rest)[0] == first && ([first] + rest)[1..] == rest;
  }

  // ---------------------------------------------------------------------------
  // The prime table

  /** The primes of the form 4k + 1 below 150, in the order of the source's list. */
  const Primes: seq<int> := [5, 13, 17, 29, 37, 41, 53, 61, 73, 89, 97, 101, 109, 113, 137, 149]

  /** The hard-coded representation of each prime. */
  const PrimeReps: map<int, Gaussian> := map[
    5 := Gaussian(1, 2), 13 := Gaussian(2, 3), 17 := Gaussian(1, 4), 29 := Gaussian(2, 5),
    37 := Gaussian(1, 6), 41 := Gaussian(4, 5), 53 := Gaussian(2, 7), 61 := Gaussian(5, 6),
    73 := Gaussian(3, 8), 89 := Gaussian(5, 8), 97 := Gaussian(4, 9), 101 := Gaussian(1, 10),
    109 := Gaussian(3, 10), 113 := Gaussian(7, 8), 137 := Gaussian(4, 11), 149 := Gaussian(7, 10)]

  /** No divisor from `d` up to the square root. */
  predicate NoSmallDivisorFrom(p: int, d: nat)
    requires d >= 2
    decreases p - d * d
  {
    d * d > p || (p % d != 0 && NoSmallDivisorFrom(p, d + 1))
  }

  lemma {:induction false} NoSmallDivisorFromSound(p: int, d: nat, e: int)
    requires d >= 2 && NoSmallDivisorFrom(p, d) && d <= e && e * e <= p
    ensures p % e != 0
    decreases p - d * d
  {
    if d < e {
      assert d * d < e * e;
      NoSmallDivisorFromSound(p, d + 1, e);
    }
  }

  /** A number with no divisor up to its square root is prime. */
  lemma PrimeBySquareRoot(p: nat)
    requires p >= 2 && NoSmallDivisorFrom(p, 2)
    ensures IsPrime(p)
  {
    forall d | 2 <= d < p
      ensures p % d != 0
    {
      if d * d <= p {
        NoSmallDivisorFromSound(p, 2, d);
      } else if p % d == 0 {
        var e := Cofactor(p, d);
        NoSmallDivisorFromSound(p, 2, e);
      }
    }
  }

  /** A divisor above the square root has a cofactor at or below it. */
  lemma Cofactor(p: nat, d: nat) returns (e: nat)
    requires 2 <= d < p && d * d > p && p % d == 0
    ensures 2 <= e && e * e <= p && p % e == 0
  {
    e := p / d;
    assert p == e * d;
    if e < 2 {
      MulMonotone(e, 1, d);
    }
    if e >= d {
      MulMonotone(d, e, d);
    }
    MulMonotone(e, d, e);
    DivOf(d, e, 0);
  }

  /** Every entry of the table is a prime p = 1 (mod 4) written as a^2 + b^2 with
      0 < a <= b, and the table's keys are exactly the listed primes. */
  lemma PrimeTableValid()
    ensures forall p :: p in PrimeReps ==>
      0 < PrimeReps[p].re <= PrimeReps[p].im && Norm(PrimeReps[p]) == p && p % 4 == 1 && IsPrime(p)
    ensures forall j :: 0 <= j < |Primes| ==> Primes[j] in PrimeReps
    ensures forall p :: p in PrimeReps ==> p in Primes
    ensures forall i, j :: 0 <= i < j < |Primes| ==> Primes[i] < Primes[j]
  {
    TableNorms();
    TablePrimes();
    TableKeys();
    PrimesIncreasing();
  }

  lemma TableNorms()
    ensures forall p :: p in PrimeReps ==>
      0 < PrimeReps[p].re <= PrimeReps[p].im && Norm(PrimeReps[p]) == p && p % 4 == 1
  {
  }

  lemma TablePrimes()
    ensures forall p :: p in PrimeReps ==> IsPrime(p)
  {
    forall p | p in PrimeReps
      ensures IsPrime(p)
    {
      assert NoSmallDivisorFrom(p, 2);
      PrimeBySquareRoot(p);
    }
  }

  lemma TableKeys()
    ensures forall j :: 0 <= j < |Primes| ==> Primes[j] in PrimeReps
    ensures forall p :: p in PrimeReps ==> p in Primes
  {
  }

  lemma PrimesIncreasing()
    ensures forall i, j :: 0 <= i < j < |Primes| ==> Primes[i] < Primes[j]
  {
  }

  // ---------------------------------------------------------------------------
  // Square-free products as bitmasks

  /** Bit `j` of `mask`: the source's `i & (1 << j)`. */
  predicate Bit(mask: nat, j: nat) {
    (mask / Pow2(j)) % 2 == 1
  }

  /** The factors chosen by `mask` among `primes[j..]`, in list order. */
  function Selected(primes: seq<int>, mask: nat, j: nat): seq<int>
    requires j <= |primes|
    decreases |primes| - j
  {
    if j == |primes| then []
    else (if Bit(mask, j) then [primes[j]] else []) + Selected(primes, mask, j + 1)
  }

  function Product(xs: seq<int>): int
    decreases |xs|
  {
    if xs == [] then 1 else xs[0] * Product(xs[1..])
  }

  /** One entry of `Ns_with_factors`: a square-free N and its prime factors. */
  datatype Job = Job(n: int, factors: seq<int>)

  /** The entry built for `mask`: the primes whose bits are set, in list order, and their
      product. */
  function JobFor(mask: nat): (job: Job)
    ensures forall a, b :: 0 <= a < b < |job.factors| ==> job.factors[a] < job.factors[b]
    ensures forall j :: 0 <= j < |Primes| ==> (Primes[j] in job.factors <==> Bit(mask, j))
    ensures forall x :: x in job.factors ==> x in Primes
    ensures job.n == Product(job.factors)
  {
    var fs := ChosenPrimes(mask);
    Job(Product(fs), fs)
  }

  /** The primes whose bits are set in `mask`, in list order. */
  function ChosenPrimes(mask: nat): (fs: seq<int>)
    ensures fs == Selected(Primes, mask, 0)
    ensures forall a, b :: 0 <= a < b < |fs| ==> fs[a] < fs[b]
    ensures forall j :: 0 <= j < |Primes| ==> (Primes[j] in fs <==> Bit(mask, j))
    ensures forall x :: x in fs ==> x in Primes
  {
    PrimesIncreasing();
    SelectedSpec(Primes, mask, 0);
    Selected(Primes, mask, 0)
  }

  /** The inner loop of `main` for one mask: for each set bit j, N is multiplied by the
      j-th prime and the prime is appended to the factor list. */
  method BuildJob(mask: nat) returns (job: Job)
    ensures job.factors == Selected(Primes, mask, 0)
    ensures job.n == Product(job.factors)
    ensures job == JobFor(mask)
  {
    var n := 1;
    var factors: seq<int> := [];
    var j := 0;
    while j < |Primes|
      invariant j <= |Primes|
      invariant factors + Selected(Primes, mask, j) == ChosenPrimes(mask)
      invariant n == Product(factors)
    {
      SelectStep(Primes, factors, mask, j, ChosenPrimes(mask));
      if Bit(mask, j) {
        ProductAppend(factors, Primes[j]);
        n := n * Primes[j];
        factors := factors + [Primes[j]];
      }
      j := j + 1;
    }
    assert factors + [] == factors;
    job := Job(n, factors);
  }

  /** One pass of the inner loop keeps "chosen so far, then the rest" equal to the choice. */
  lemma SelectStep(primes: seq<int>, factors: seq<int>, mask: nat, j: nat, whole: seq<int>)
    requires j < |primes| && factors + Selected(primes, mask, j) == whole
    ensures Bit(mask, j) ==> (factors + [primes[j]]) + Selected(primes, mask, j + 1) == whole
    ensures !Bit(mask, j) ==> factors + Selected(primes, mask, j + 1) == whole
  {
    if Bit(mask, j) {
      SelectSet(primes, factors, mask, j, whole);
    } else {
      SelectClear(primes, factors, mask, j, whole);
    }
  }

  lemma SelectSet(primes: seq<int>, factors: seq<int>, mask: nat, j: nat, whole: seq<int>)
    requires j < |primes| && Bit(mask, j) && factors + Selected(primes, mask, j) == whole
    ensures (factors + [primes[j]]) + Selected(primes, mask, j + 1) == whole
  {
    var rest := Selected(primes, mask, j + 1);
    assert Selected(primes, mask, j) == [primes[j]] + rest;
    AppendAssoc(factors, [primes[j]], rest);
  }

  lemma SelectClear(primes: seq<int>, factors: seq<int>, mask: nat, j: nat, whole: seq<int>)
    requires j < |primes| && !Bit(mask, j) && factors + Selected(primes, mask, j) == whole
    ensures factors + Selected(primes, mask, j + 1) == whole
  {
    var rest := Selected(primes, mask, j + 1);
    EmptyAppend(rest);
    assert Selected(primes, mask, j) == rest;
  }

  lemma EmptyAppend(s: seq<int>)
    ensures [] + s == s
  {
  }

  lemma AppendAssoc(a: seq<int>, b: seq<int>, c: seq<int>)
    ensures a + (b + c) == (a + b) + c
  {
  }

  lemma {:induction false} ProductAppend(xs: seq<int>, x: int)
    ensures Product(xs + [x]) == Product(xs) * x
    decreases |xs|
  {
    if xs != [] {
      assert (xs + [x])[1..] == xs[1..] + [x];
      ProductAppend(xs[1..], x);
      MulAssoc(xs[0], Product(xs[1..]), x);
    }
  }

  /** `Ns_with_factors` before the sort: the entries for masks 1 .. 2^16 - 1, in mask
      order. */
  function Jobs(): (js: seq<Job>)
    ensures |js| == Pow2(|Primes|) - 1
    ensures forall i :: 0 <= i < |js| ==> js[i] == JobFor(i + 1)
  {
    EntriesBelow(Pow2(|Primes|) - 1)
  }

  /** The entries for masks 1 .. count. */
  function EntriesBelow(count: nat): (js: seq<Job>)
    ensures |js| == count
    ensures forall i :: 0 <= i < |js| ==> js[i] == JobFor(i + 1)
    decreases count
  {
    if count == 0 then [] else EntriesBelow(count - 1) + [JobFor(count)]
  }

  /** The selected factors are some of the listed primes, in ascending order, and a prime
      is selected exactly when its bit is set. */
  lemma {:induction false} SelectedSpec(primes: seq<int>, mask: nat, j: nat)
    requires j <= |primes|
    requires forall a, b :: 0 <= a < b < |primes| ==> primes[a] < primes[b]
    ensures forall a, b :: 0 <= a < b < |Selected(primes, mask, j)| ==>
      Selected(primes, mask, j)[a] < Selected(primes, mask, j)[b]
    ensures forall k :: j <= k < |primes| ==> (primes[k] in Selected(primes, mask, j) <==> Bit(mask, k))
    ensures forall x :: x in Selected(primes, mask, j) ==> exists k :: j <= k < |primes| && primes[k] == x
    decreases |primes| - j
  {
    if j < |primes| {
      SelectedSpec(primes, mask, j + 1);
      var rest := Selected(primes, mask, j + 1);
      forall x | x in rest
        ensures primes[j] < x
      {
        var k :| j + 1 <= k < |primes| && primes[k] == x;
      }
      var s := Selected(primes, mask, j);
      if Bit(mask, j) {
        assert s == [primes[j]] + rest;
        forall a, b | 0 <= a < b < |s|
          ensures s[a] < s[b]
        {
          if a == 0 {
            assert s[b] == rest[b - 1] && s[b] in rest;
          } else {
            assert s[a] == rest[a - 1] && s[b] == rest[b - 1];
          }
        }
      } else {
        assert s == rest;
        assert primes[j] !in rest;
      }
      forall k | j < k < |primes|
        ensures primes[k] in s <==> primes[k] in rest
      {
        assert primes[k] != primes[j];
      }
    }
  }

  /** The bits of `mask` below `n`, lowest first. */
  function Bits(mask: nat, n: nat): (bs: seq<bool>)
    ensures |bs| == n
  {
    if n == 0 then [] else [mask % 2 == 1] + Bits(mask / 2, n - 1)
  }

  /** The mask whose bits are `bs`, lowest first. */
  function FromBits(bs: seq<bool>): (mask: nat)
    ensures mask < Pow2(|bs|)
  {
    if bs == [] then 0 else (if bs[0] then 1 else 0) + 2 * FromBits(bs[1..])
  }

  /** Masks below 2^n and bit lists of length n are in one-to-one correspondence, so the
      loop over `[1, 2^n)` meets every non-empty choice of primes exactly once. */
  lemma {:induction false} BitsRoundTrip(mask: nat, n: nat, bs: seq<bool>)
    requires mask < Pow2(n) && |bs| == n
    ensures FromBits(Bits(mask, n)) == mask
    ensures Bits(FromBits(bs), n) == bs
    decreases n
  {
    if n > 0 {
      BitsRoundTrip(mask / 2, n - 1, bs[1..]);
      var m := FromBits(bs);
      var low := if bs[0] then 1 else 0;
      assert m == low + 2 * FromBits(bs[1..]);
      assert m % 2 == low && m / 2 == FromBits(bs[1..]);
      assert bs == [bs[0]] + bs[1..];
    }
  }

  /** Bit `j` of a mask is entry `j` of its bit list. */
  lemma {:induction false} BitIsBits(mask: nat, n: nat, j: nat)
    requires j < n
    ensures Bit(mask, j) <==> Bits(mask, n)[j]
    decreases j
  {
    if j > 0 {
      BitIsBits(mask / 2, n - 1, j - 1);
      DivDiv(mask, Pow2(j - 1));
    }
  }

  lemma DivDiv(mask: nat, p: nat)
    requires p >= 1
    ensures mask / 2 / p == mask / (2 * p)
  {
    var q := mask / 2;
    var r := q / p;
    var rest := 2 * (q % p) + mask % 2;
    assert q == r * p + q % p;
    assert mask == 2 * q + mask % 2;
    assert 2 * (r * p) == r * (2 * p);
    assert mask == r * (2 * p) + rest;
    DivOf(r, 2 * p, rest);
  }

  /** Two masks below 2^n with the same bits below n are equal. */
  lemma SameBitsSameMask(m1: nat, m2: nat, n: nat)
    requires m1 < Pow2(n) && m2 < Pow2(n)
    requires forall j :: 0 <= j < n ==> (Bit(m1, j) <==> Bit(m2, j))
    ensures m1 == m2
  {
    forall j | 0 <= j < n
      ensures Bits(m1, n)[j] == Bits(m2, n)[j]
    {
      BitIsBits(m1, n, j);
      BitIsBits(m2, n, j);
    }
    BitsRoundTrip(m1, n, Bits(m1, n));
    BitsRoundTrip(m2, n, Bits(m2, n));
    assert Bits(m1, n) == Bits(m2, n);
  }

  /** Every bit vector of length n is the bits of a mask below 2^n. */
  lemma MaskOfBits(bs: seq<bool>) returns (mask: nat)
    ensures mask < Pow2(|bs|)
    ensures forall j :: 0 <= j < |bs| ==> (Bit(mask, j) <==> bs[j])
  {
    mask := FromBits(bs);
    BitsRoundTrip(mask, |bs|, bs);
    forall j | 0 <= j < |bs|
      ensures Bit(mask, j) <==> bs[j]
    {
      BitIsBits(mask, |bs|, j);
    }
  }

  /** A mask below 2^n other than 0 has a bit set below n. */
  lemma SomeBitSet(mask: nat, n: nat) returns (j: nat)
    requires 1 <= mask < Pow2(n)
    ensures j < n && Bit(mask, j)
  {
    var bs := Bits(mask, n);
    BitsRoundTrip(mask, n, bs);
    if forall k :: 0 <= k < n ==> !bs[k] {
      FromBitsOfClear(bs);
      assert false;
    }
    j :| 0 <= j < n && bs[j];
    BitIsBits(mask, n, j);
  }

  lemma {:induction false} FromBitsOfClear(bs: seq<bool>)
    requires forall k :: 0 <= k < |bs| ==> !bs[k]
    ensures FromBits(bs) == 0
    decreases |bs|
  {
    if bs != [] {
      FromBitsOfClear(bs[1..]);
    }
  }

  lemma NoBitOfZero(j: nat)
    ensures !Bit(0, j)
  {
    PowPositive2(j);
  }

  lemma PowPositive2(j: nat)
    ensures Pow2(j) >= 1
  {
  }

  /** The primes of an entry, as a set. */
  function FactorSet(job: Job): set<int> {
    set x | x in job.factors
  }

  /** Every non-empty set of the listed primes is the factor set of some entry of
      `Ns_with_factors`. */
  lemma SubsetHasEntry(s: set<int>) returns (i: nat)
    requires s != {} && forall x :: x in s ==> x in Primes
    ensures i < |Jobs()| && FactorSet(Jobs()[i]) == s
  {
    var j := PrimeOfSubset(s);
    var mask := MaskOfBits(ChosenBits(s));
    assert Bit(mask, j);
    NoBitOfZero(j);
    i := mask - 1;
    FactorSetIs(mask, s);
  }

  /** The bit vector that chooses the primes in `s`. */
  function ChosenBits(s: set<int>): (bs: seq<bool>)
    ensures |bs| == |Primes| && forall j :: 0 <= j < |Primes| ==> (bs[j] <==> Primes[j] in s)
  {
    seq(|Primes|, j requires 0 <= j < |Primes| => Primes[j] in s)
  }

  lemma PrimeOfSubset(s: set<int>) returns (j: nat)
    requires s != {} && forall x :: x in s ==> x in Primes
    ensures j < |Primes| && Primes[j] in s
  {
    if forall k :: 0 <= k < |Primes| ==> Primes[k] !in s {
      assert forall x :: x !in s;
    }
    j :| j < |Primes| && Primes[j] in s;
  }

  /** A mask whose bits choose exactly the primes of `s` has `s` as its factor set. */
  lemma FactorSetIs(mask: nat, s: set<int>)
    requires forall x :: x in s ==> x in Primes
    requires forall j :: 0 <= j < |Primes| ==> (Bit(mask, j) <==> Primes[j] in s)
    ensures FactorSet(JobFor(mask)) == s
  {
    var job := JobFor(mask);
    forall y | y in job.factors || y in s
      ensures y in job.factors <==> y in s
    {
      var k :| 0 <= k < |Primes| && Primes[k] == y;
    }
  }

  /** Different entries of `Ns_with_factors` have different, non-empty factor sets. */
  lemma EntriesDistinct(i1: nat, i2: nat)
    requires i1 < |Jobs()| && i2 < |Jobs()|
    ensures Jobs()[i1].factors != []
    ensures i1 != i2 ==> FactorSet(Jobs()[i1]) != FactorSet(Jobs()[i2])
  {
    var m1, m2 := i1 + 1, i2 + 1;
    var n := |Primes|;
    var f1, f2 := Jobs()[i1], Jobs()[i2];
    assert f1 == JobFor(m1) && f2 == JobFor(m2);
    var j := SomeBitSet(m1, n);
    assert Primes[j] in f1.factors;
    if FactorSet(f1) == FactorSet(f2) {
      forall k | 0 <= k < n
        ensures Bit(m1, k) <==> Bit(m2, k)
      {
        assert Primes[k] in f1.factors <==> Primes[k] in FactorSet(f1);
        assert Primes[k] in f2.factors <==> Primes[k] in FactorSet(f2);
      }
      SameBitsSameMask(m1, m2, n);
    }
  }

  // ---------------------------------------------------------------------------
  // Round-robin split and the per-thread sums

  /** `Ns_per_thread`: item `i` goes to the end of bucket `i % k`. */
  function RoundRobin<T>(items: seq<T>, k: nat): (bs: seq<seq<T>>)
    requires k >= 1
    ensures |bs| == k
    decreases |items|
  {
    if items == [] then seq(k, _ => [])
    else
      var bs := RoundRobin(items[..|items| - 1], k);
      var t := (|items| - 1) % k;
      bs[t := bs[t] + [items[|items| - 1]]]
  }

  /** How many of the indices below `n` leave remainder `t` when divided by `k`. */
  function IndicesWithRemainder(n: nat, k: nat, t: nat): nat
    requires k >= 1
  {
    if n == 0 then 0 else IndicesWithRemainder(n - 1, k, t) + (if (n - 1) % k == t then 1 else 0)
  }

  /** Those indices number `(n + k - 1 - t) / k`; in particular bucket `n % k` holds `n / k`
      of them. */
  lemma {:induction false} IndicesWithRemainderCount(n: nat, k: nat, t: nat)
    requires k >= 1 && t < k
    ensures IndicesWithRemainder(n, k, t) == (n + k - 1 - t) / k
  {
    if n == 0 {
      DivOf(0, k, k - 1 - t);
    } else {
      IndicesWithRemainderCount(n - 1, k, t);
      CountStep(n - 1, k, t);
    }
  }

  /** Bucket `t` holds one item for each index below `|items|` that leaves remainder `t`. */
  lemma {:induction false} RoundRobinLengths<T>(items: seq<T>, k: nat, t: nat)
    requires k >= 1 && t < k
    ensures |RoundRobin(items, k)[t]| == IndicesWithRemainder(|items|, k, t)
    decreases |items|
  {
    if items != [] {
      RoundRobinLengths(items[..|items| - 1], k, t);
    }
  }

  /** The next item goes to the end of its bucket, at position `n / k`. */
  lemma NextPosition<T>(prefix: seq<T>, k: nat)
    requires k >= 1
    ensures |RoundRobin(prefix, k)[|prefix| % k]| == |prefix| / k
  {
    var n := |prefix|;
    RoundRobinLengths(prefix, k, n % k);
    IndicesWithRemainderCount(n, k, n % k);
    CountStep(n, k, n % k);
  }

  /** Every item sits in bucket `i % k` at position `i / k`: each item lands in exactly one
      bucket, and within it the items keep their order. */
  lemma {:induction false} RoundRobinPlacement<T>(items: seq<T>, k: nat, i: nat)
    requires k >= 1 && i < |items|
    ensures i / k < |RoundRobin(items, k)[i % k]| && RoundRobin(items, k)[i % k][i / k] == items[i]
    decreases |items|
  {
    var n := |items| - 1;
    var prefix := items[..n];
    var bs := RoundRobin(prefix, k);
    var t := n % k;
    var u, p := i % k, i / k;
    assert RoundRobin(items, k) == bs[t := bs[t] + [items[n]]];
    if i == n {
      NextPosition(prefix, k);
      assert RoundRobin(items, k)[t] == bs[t] + [items[n]];
    } else {
      RoundRobinPlacement(prefix, k, i);
      assert prefix[i] == items[i];
      if u == t {
        assert RoundRobin(items, k)[u] == bs[u] + [items[n]];
      } else {
        assert RoundRobin(items, k)[u] == bs[u];
      }
    }
  }

  /** Bucket `u` holds one more item after item `n` exactly when `n % k == u`. */
  lemma CountStep(n: nat, k: nat, u: nat)
    requires k >= 1 && u < k
    ensures (n + 1 + k - 1 - u) / k == (n + k - 1 - u) / k + (if n % k == u then 1 else 0)
    ensures n % k == u ==> (n + k - 1 - u) / k == n / k
  {
    var q, t := n / k, n % k;
    assert n == q * k + t;
    if t == u {
      assert n + k - 1 - u == q * k + (k - 1);
      DivOf(q, k, k - 1);
      assert n + k - u == (q + 1) * k + 0;
      DivOf(q + 1, k, 0);
    } else if t > u {
      assert n + k - 1 - u == (q + 1) * k + (t - u - 1);
      DivOf(q + 1, k, t - u - 1);
      assert n + k - u == (q + 1) * k + (t - u);
      DivOf(q + 1, k, t - u);
    } else {
      assert n + k - 1 - u == q * k + (k - 1 - (u - t));
      DivOf(q, k, k - 1 - (u - t));
      assert n + k - u == q * k + (k - (u - t));
      DivOf(q, k, k - (u - t));
    }
  }

  /** All buckets, one after another. */
  function Flatten<T>(bs: seq<seq<T>>): seq<T>
    decreases |bs|
  {
    if bs == [] then [] else bs[0] + Flatten(bs[1..])
  }

  lemma {:induction false} FlattenAppendAt<T>(bs: seq<seq<T>>, t: nat, x: T)
    requires t < |bs|
    ensures multiset(Flatten(bs[t := bs[t] + [x]])) == multiset(Flatten(bs)) + multiset{x}
    decreases |bs|
  {
    var bs' := bs[t := bs[t] + [x]];
    if t == 0 {
      assert bs'[1..] == bs[1..];
      AddToFirst(bs[0], x, Flatten(bs[1..]));
    } else {
      assert bs'[1..] == bs[1..][t - 1 := bs[1..][t - 1] + [x]];
      FlattenAppendAt(bs[1..], t - 1, x);
      AddToRest(bs[0], Flatten(bs'[1..]), Flatten(bs[1..]), x);
    }
  }

  lemma AddToFirst<T>(a: seq<T>, x: T, rest: seq<T>)
    ensures multiset((a + [x]) + rest) == multiset(a + rest) + multiset{x}
  {
  }

  lemma AddToRest<T>(a: seq<T>, f1: seq<T>, f2: seq<T>, x: T)
    requires multiset(f1) == multiset(f2) + multiset{x}
    ensures multiset(a + f1) == multiset(a + f2) + multiset{x}
  {
  }

  /** The buckets hold exactly the items, each as often as in the list. */
  lemma {:induction false} RoundRobinPermutation<T>(items: seq<T>, k: nat)
    requires k >= 1
    ensures multiset(Flatten(RoundRobin(items, k))) == multiset(items)
    decreases |items|
  {
    if items == [] {
      EmptyBuckets<T>(k);
    } else {
      var prefix := items[..|items| - 1];
      RoundRobinPermutation(prefix, k);
      FlattenAppendAt(RoundRobin(prefix, k), (|items| - 1) % k, items[|items| - 1]);
      assert items == prefix + [items[|items| - 1]];
    }
  }

  lemma {:induction false} EmptyBuckets<T>(k: nat)
    ensures Flatten<T>(seq(k, _ => [])) == []
    decreases k
  {
    if k > 0 {
      var bs: seq<seq<T>> := seq(k, _ => []);
      assert bs[1..] == seq(k - 1, _ => []);
      EmptyBuckets<T>(k - 1);
    }
  }

  // ---------------------------------------------------------------------------
  // processNs

  datatype Lookup = Found(rep: Gaussian) | Missing

  /** `primeReps.at(p)`, which throws for a prime missing from the table. */
  function At(p: int): (r: Lookup)
    ensures r.Found? <==> p in PrimeReps
  {
    if p in PrimeReps then Found(PrimeReps[p]) else Missing
  }

  /** The representations of the factors, or `Missing` if a factor is not in the table. */
  function RepsOf(factors: seq<int>): (r: seq<Lookup>)
    ensures |r| == |factors|
    decreases |factors|
  {
    if factors == [] then [] else [At(factors[0])] + RepsOf(factors[1..])
  }

  /** The sum of the first components of a finite set of pairs. */
  ghost function SumOfFirsts(s: set<Gaussian>): int
    decreases |s|
  {
    if s == {} then 0 else var x :| x in s; x.re + SumOfFirsts(s - {x})
  }

  /** The sum does not depend on which element is taken first. */
  lemma {:induction false} SumOfFirstsRemove(s: set<Gaussian>, y: Gaussian)
    requires y in s
    ensures SumOfFirsts(s) == y.re + SumOfFirsts(s - {y})
    decreases |s|
  {
    var x :| x in s && SumOfFirsts(s) == x.re + SumOfFirsts(s - {x});
    if x != y {
      SumOfFirstsRemove(s - {x}, y);
      SumOfFirstsRemove(s - {y}, x);
      assert s - {x} - {y} == s - {y} - {x};
    }
  }

  lemma {:induction false} SumOfFirstsNonNegative(s: set<Gaussian>)
    requires forall r :: r in s ==> r.re >= 0
    ensures SumOfFirsts(s) >= 0
    decreases |s|
  {
    if s != {} {
      var x :| x in s && SumOfFirsts(s) == x.re + SumOfFirsts(s - {x});
      SumOfFirstsNonNegative(s - {x});
    }
  }

  /** A sum of `a` values, or the `out_of_range` exception a missing prime raises. */
  datatype Outcome = Total(total: int) | OutOfRange

  /** Adding two partial results; an exception on either side propagates. */
  function Combine(x: Outcome, y: Outcome): (r: Outcome)
    ensures r.Total? <==> x.Total? && y.Total?
    ensures r.Total? ==> r.total == x.total + y.total
  {
    if x.Total? && y.Total? then Total(x.total + y.total) else OutOfRange
  }

  function Unwrap(ls: seq<Lookup>): (gs: seq<Gaussian>)
    requires forall j :: 0 <= j < |ls| ==> ls[j].Found?
    ensures |gs| == |ls| && forall j :: 0 <= j < |ls| ==> gs[j] == ls[j].rep
    decreases |ls|
  {
    if ls == [] then [] else [ls[0].rep] + Unwrap(ls[1..])
  }

  /** The `a` values contributed by one N, from the start value `(1, 0)`. */
  ghost function SumForJob(job: Job): Outcome {
    var ls := RepsOf(job.factors);
    if exists j :: 0 <= j < |ls| && ls[j].Missing? then OutOfRange
    else Total(SumOfFirsts(Representations(Unwrap(ls), 0, Gaussian(1, 0))))
  }

  /** The outcomes of `f` over `items`, added up from the front. */
  function Accumulate<T>(f: T -> Outcome, items: seq<T>): Outcome
    decreases |items|
  {
    if items == [] then Total(0) else Combine(f(items[0]), Accumulate(f, items[1..]))
  }

  /** `processNs` over a list of entries: its `localSumOfAs`. */
  ghost function ProcessNs(jobs: seq<Job>): Outcome {
    Accumulate(SumForJob, jobs)
  }

  /** `sumOfAs` after every thread has added its local sum. */
  ghost function ThreadTotals(bs: seq<seq<Job>>): Outcome
    decreases |bs|
  {
    if bs == [] then Total(0) else Combine(ProcessNs(bs[0]), ThreadTotals(bs[1..]))
  }

  lemma {:induction false} AccumulateAppend<T>(f: T -> Outcome, a: seq<T>, b: seq<T>)
    ensures Accumulate(f, a + b) == Combine(Accumulate(f, a), Accumulate(f, b))
    decreases |a|
  {
    if a == [] {
      assert a + b == b;
    } else {
      assert (a + b)[1..] == a[1..] + b;
      AccumulateAppend(f, a[1..], b);
    }
  }

  /** The sum over a list does not depend on the order of its items. */
  lemma {:induction false} AccumulatePermutation<T>(f: T -> Outcome, a: seq<T>, b: seq<T>)
    requires multiset(a) == multiset(b)
    ensures Accumulate(f, a) == Accumulate(f, b)
    decreases |a|
  {
    if a != [] {
      var x := a[0];
      assert x in multiset(b);
      var i :| 0 <= i < |b| && b[i] == x;
      var left, right := b[..i], b[i + 1..];
      var rest := left + right;
      assert b == left + ([x] + right);
      assert a == [x] + a[1..];
      assert multiset(b) == multiset(left) + multiset{x} + multiset(right);
      assert multiset(rest) == multiset(left) + multiset(right);
      assert multiset(a) == multiset{x} + multiset(a[1..]);
      assert multiset(a[1..]) == multiset(a) - multiset{x};
      assert multiset(rest) == multiset(b) - multiset{x};
      AccumulatePermutation(f, a[1..], rest);
      AccumulateAppend(f, left, [x] + right);
      AccumulateAppend(f, left, right);
      var pl, pr := Accumulate(f, left), Accumulate(f, right);
      assert ([x] + right)[1..] == right;
      assert Accumulate(f, [x] + right) == Combine(f(x), pr);
      CombineSwap(pl, f(x), pr);
    }
  }

  lemma CombineSwap(x: Outcome, y: Outcome, z: Outcome)
    ensures Combine(x, Combine(y, z)) == Combine(y, Combine(x, z))
  {
  }

  /** The sum over a list of entries does not depend on their order. */
  lemma ProcessNsPermutation(a: seq<Job>, b: seq<Job>)
    requires multiset(a) == multiset(b)
    ensures ProcessNs(a) == ProcessNs(b)
  {
    AccumulatePermutation(SumForJob, a, b);
  }

  lemma {:induction false} ThreadTotalsFlatten(bs: seq<seq<Job>>)
    ensures ThreadTotals(bs) == ProcessNs(Flatten(bs))
    decreases |bs|
  {
    if bs != [] {
      ThreadTotalsFlatten(bs[1..]);
      AccumulateAppend(SumForJob, bs[0], Flatten(bs[1..]));
    }
  }

  /** Splitting the entries round-robin over the threads, however many the hardware
      reports, leaves `sumOfAs` equal to the sum over the whole list. */
  lemma ThreadSumsAddUp(jobs: seq<Job>, detected: nat)
    ensures ThreadTotals(RoundRobin(jobs, ThreadCount(detected))) == ProcessNs(jobs)
  {
    var bs := RoundRobin(jobs, ThreadCount(detected));
    RoundRobinPermutation(jobs, ThreadCount(detected));
    ThreadTotalsFlatten(bs);
    ProcessNsPermutation(Flatten(bs), jobs);
  }

  /** The factors of every entry are keys of the table, each the norm of its entry. */
  lemma FactorsInTable(mask: nat)
    ensures forall j :: 0 <= j < |JobFor(mask).factors| ==>
      JobFor(mask).factors[j] in PrimeReps && Norm(PrimeReps[JobFor(mask).factors[j]]) == JobFor(mask).factors[j]
  {
    var fs := JobFor(mask).factors;
    PrimeTableValid();
    SelectedSpec(Primes, mask, 0);
    forall j | 0 <= j < |fs|
      ensures fs[j] in PrimeReps
    {
      assert fs[j] in fs;
    }
  }

  /** When every lookup succeeds, the entry contributes the sum over the pairs found. */
  lemma SumForFoundJob(job: Job)
    requires forall j :: 0 <= j < |RepsOf(job.factors)| ==> RepsOf(job.factors)[j].Found?
    ensures SumForJob(job) == Total(SumOfFirsts(Representations(Unwrap(RepsOf(job.factors)), 0, Gaussian(1, 0))))
  {
  }

  /** For the entries the program builds, no lookup fails, every pair found for N
      satisfies a^2 + b^2 == N with 0 <= a <= b, and the contribution is non-negative. */
  lemma JobSum(mask: nat) returns (reps: seq<Gaussian>)
    ensures forall j :: 0 <= j < |RepsOf(JobFor(mask).factors)| ==> RepsOf(JobFor(mask).factors)[j].Found?
    ensures reps == Unwrap(RepsOf(JobFor(mask).factors))
    ensures forall r :: r in Representations(reps, 0, Gaussian(1, 0)) ==>
      0 <= r.re <= r.im && Norm(r) == JobFor(mask).n
    ensures SumForJob(JobFor(mask)) == Total(SumOfFirsts(Representations(reps, 0, Gaussian(1, 0))))
    ensures SumForJob(JobFor(mask)).total >= 0
  {
    var job := JobFor(mask);
    var fs := job.factors;
    FactorsInTable(mask);
    LookupsFound(fs);
    var ls := RepsOf(fs);
    reps := Unwrap(ls);
    var start := Gaussian(1, 0);
    RepresentationsNorm(reps, 0, start);
    NormsOfFactors(fs, reps);
    assert reps[0..] == reps;
    assert Norm(start) == 1;
    assert NormsProduct(reps) == job.n;
    SumForFoundJob(job);
    SumOfFirstsNonNegative(Representations(reps, 0, start));
  }

  lemma {:induction false} LookupsFound(fs: seq<int>)
    requires forall j :: 0 <= j < |fs| ==> fs[j] in PrimeReps
    ensures forall j :: 0 <= j < |RepsOf(fs)| ==> RepsOf(fs)[j].Found? && RepsOf(fs)[j].rep == PrimeReps[fs[j]]
    decreases |fs|
  {
    if fs != [] {
      LookupsFound(fs[1..]);
    }
  }

  lemma {:induction false} NormsOfFactors(fs: seq<int>, reps: seq<Gaussian>)
    requires |reps| == |fs|
    requires forall j :: 0 <= j < |fs| ==> fs[j] in PrimeReps && reps[j] == PrimeReps[fs[j]] && Norm(reps[j]) == fs[j]
    ensures NormsProduct(reps) == Product(fs)
    decreases |fs|
  {
    if fs != [] {
      NormsOfFactors(fs[1..], reps[1..]);
    }
  }

  // ---------------------------------------------------------------------------
  // main

  /** `main` of Euler273.cpp: the entries for every mask, rearranged by the sort, dealt
      round-robin to the threads. No thread meets the `out_of_range` exception, and
      `sumOfAs` ends as the non-negative sum over all entries, whatever thread count the
      hardware reports. */
  lemma MainSum(sorted: seq<Job>, detected: nat)
    requires multiset(sorted) == multiset(Jobs())
    ensures ProcessNs(Jobs()).Total? && ProcessNs(Jobs()).total >= 0
    ensures ThreadTotals(RoundRobin(sorted, ThreadCount(detected))) == ProcessNs(Jobs())
  {
    JobsTotal(Jobs());
    ThreadSumsAddUp(sorted, detected);
    ProcessNsPermutation(sorted, Jobs());
  }

  /** A list of entries built from masks sums without an exception to a non-negative
      total. */
  lemma JobsTotal(js: seq<Job>)
    requires forall i :: 0 <= i < |js| ==> js[i] == JobFor(i + 1)
    ensures ProcessNs(js).Total? && ProcessNs(js).total >= 0
  {
    EntriesTotal(js);
    AccumulateTotal(SumForJob, js);
  }

  lemma EntriesTotal(js: seq<Job>)
    requires forall i :: 0 <= i < |js| ==> js[i] == JobFor(i + 1)
    ensures forall i :: 0 <= i < |js| ==> SumForJob(js[i]).Total? && SumForJob(js[i]).total >= 0
  {
    forall i | 0 <= i < |js|
      ensures SumForJob(js[i]).Total? && SumForJob(js[i]).total >= 0
    {
      EntryTotal(i + 1);
    }
  }

  lemma EntryTotal(mask: nat)
    ensures SumForJob(JobFor(mask)).Total? && SumForJob(JobFor(mask)).total >= 0
  {
    var _ := JobSum(mask);
  }

  /** Items that each contribute a non-negative total add up to one. */
  lemma {:induction false} AccumulateTotal<T>(f: T -> Outcome, items: seq<T>)
    requires forall i :: 0 <= i < |items| ==> f(items[i]).Total? && f(items[i]).total >= 0
    ensures Accumulate(f, items).Total? && Accumulate(f, items).total >= 0
    decreases |items|
  {
    if items != [] {
      assert forall i :: 0 <= i < |items[1..]| ==> items[1..][i] == items[i + 1];
      AccumulateTotal(f, items[1..]);
    }
  }
}

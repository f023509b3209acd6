# Project Euler solvers, modelled in Dafny

This project models the computational core of six multithreaded C++ Project Euler programs
and proves properties of the model:

- **Euler259** (reachable numbers). It interleaves the digits `123456789` with `+ - * /` or
  nothing, brackets every resulting expression in every possible way, and evaluates each
  bracketing exactly with a two-stack evaluator. It keeps the positive integers, keeping
  the first text seen for each, and sums them. Modules: `Operators`, `ExprTree`,
  `Evaluator`, `Generator`, `Parenthesize`, `StringOrder`, `SearchDriver`.
- **Euler273** (sums of squares). Each square-free product N of the primes p ≡ 1 (mod 4)
  below 150 is written as a² + b² in every way, by multiplying Gaussian integers with both
  sign choices per prime. The work is split round-robin over threads, and every `a` is
  summed. Module `SumOfSquares`.
- **Euler251** (Cardano triplets). For each a ≡ 2 (mod 3) it factorizes
  (1 + a)²(8a − 1) / 27 and enumerates the splits into b²·c. Values of `a` are split into
  per-thread ranges. Also modelled: the 128-bit decimal reader and writer, and `int_pow`.
  Module `Cardano`.
- **Euler255** (rounded square roots). The integer Heron iteration starts from a guess
  fixed by the digit count and counts steps until it reaches a fixed point. Module `Heron`.
- **Euler253 / Euler253Random123** (the caterpillar puzzle). Pieces 1..n are placed in a
  random order and the number of placed segments is tracked, along with its peak. The
  Random123 variant shuffles with Fisher–Yates, drawing its words from a counter-based
  generator. Module `Segments`.

Shared modules:

| module | contents |
|---|---|
| `Decimal` | digit strings and their values |
| `Numbers` | powers, primality, arithmetic facts |
| `Sums` | sums of sequences, invariant under permutation |
| `Threads` | `hardware_concurrency()` with its fallback |

Modelling choices:

- Integers are unbounded. Exact rationals are Dafny `real`s.
- Every thread split is modelled as the sequential composition of the per-thread work, in
  thread order 0, 1, …. For Euler273 and Euler251 the model proves that the total does not
  depend on that order or on the split (`SumOfSquares.ThreadSumsAddUp`,
  `SumOfSquares.ProcessNsPermutation`, `Cardano.CountOverPermutation`). For Euler259 the kept
  text for a value does depend on the order. What is proved for any order of the candidates
  is the set of values reached, their count and their sum (`SearchDriver.RecordAllValues`,
  `SearchDriver.ReportTotals`).
- The detected hardware thread count is a parameter, not a call.

Two facts about the code that the model follows:

- Euler259.cpp:191-193 has no fallback when the hardware reports 0 threads, unlike
  Euler251.cpp:121-122 and Euler273.cpp:135. The chunk size then divides by zero, and
  `SearchDriver.Chunks` returns an error.
- The comment at Euler259.cpp:74 says earlier operators of higher precedence are applied
  first. The test on lines 75-76 does something else (see Findings).

## Model

| member | source | states |
|---|---|---|
| `Operators.ApplyOperator` | Euler259.cpp:23-35 | fails exactly for `/` with a zero divisor; otherwise the exact sum, difference, product or a quotient q with q·b = a; any other character gives 0 |
| `ExprTree.TreeValueFailsIffDividesByZero` | Euler259.cpp:28-33 | a bracketed tree's value is an error exactly when some division in it has a zero-valued right side |
| `Evaluator.EvaluateRender` | Euler259.cpp:39-96 | the stack evaluator, run on the fully bracketed text of any tree, returns the tree's value (or its division-by-zero error), under either precedence test |
| `Evaluator.RenderedInputsIgnorePrecedence` | Euler259.cpp:75-76 | on fully bracketed input the as-written precedence test and the conventional one agree, and both equal the tree's value |
| `Evaluator.EvaluateFlat3` | Euler259.cpp:73-93 | under either test, unbracketed `x o1 y o2 z` gets the value of the grouping `(x o1 y) o2 z` exactly when the test reduces `o1` on reading `o2`, and of `x o1 (y o2 z)` otherwise |
| `Evaluator.EvaluateFlat3Conventional` | Euler259.cpp:73-93 | with the conventional test, `x o1 y o2 z` is grouped to the left exactly when `o1` binds at least as tightly as `o2` |
| `Evaluator.AsWrittenPrecedenceCounterexample` | Euler259.cpp:75-76 | as written, `1+2*3` evaluates to 9; with conventional precedence it evaluates to 7 |
| `Evaluator.RunDigits` | Euler259.cpp:49-52 | a run of digits only accumulates the literal's decimal value |
| `Generator.ExpressionsCount` | Euler259.cpp:99-114 | n digits give exactly 5^(n−1) expressions, one per choice of gap filler |
| `Generator.ExpressionsMembership` | Euler259.cpp:99-114 | an expression is generated exactly when it is the digits interleaved with n−1 fillers, each of `+ - * /` or nothing |
| `Generator.ExpressionsShape` | Euler259.cpp:99-114 | every generated expression starts and ends with a digit, has no two adjacent operators, and gives back the digits once its operators are deleted |
| `Parenthesize.ParensCharacterization` | Euler259.cpp:117-147 | the bracketings of a raw expression are exactly the renderings of the binary trees whose flat text is that expression |
| `Parenthesize.ParenthesizedValue` | Euler259.cpp:153-158 | each bracketing the search evaluates has the value of some tree over the raw expression, under either precedence test |
| `Parenthesize.ParensNonEmpty` | Euler259.cpp:120-124 | every raw expression has at least one bracketing |
| `Parenthesize.ParensAtMostCatalan` | Euler259.cpp:117-146 | a raw expression with k operators has at most C(k) bracketings, C the Catalan numbers, because each split at an operator joins at most C(a)·C(k−1−a) pairs |
| `Parenthesize.RootedBeforeSize` | Euler259.cpp:117-146 | the bracketings whose root operator lies before position n are at most the sum, over those operators, of C(a)·C(k−1−a), a being the operators to the left |
| `Parenthesize.RootBoundSum` | Euler259.cpp:117-146 | summed over every operator of the expression, C(a)·C(k−1−a) gives C(k) by the Catalan recurrence, a being the operators to the left of each |
| `Parenthesize.ParensText` | Euler259.cpp:127-141 | erasing a bracketing's parentheses gives the expression back; it has one `(` and one `)` per operator, and an outer pair unless it is a single literal |
| `Parenthesize.ParensOfLiteral` | Euler259.cpp:121-123 | a literal without operators is its own only bracketing |
| `StringOrder.BeforeTotal` | Euler259.cpp:156 | the order `std::set<std::string>` iterates in is total |
| `StringOrder.BeforeTransitive` | Euler259.cpp:156 | that order is transitive |
| `StringOrder.BeforeAsymmetric` | Euler259.cpp:156 | of two different strings, exactly one sorts first |
| `StringOrder.Ascending` | Euler259.cpp:156 | iterating a set of strings visits each element exactly once, in strictly ascending order |
| `SearchDriver.Record` | Euler259.cpp:161-167 | a positive integer value is added to the set and appended to the list only when new; any other outcome leaves both unchanged |
| `SearchDriver.IntegerOf` | Euler259.cpp:161-163 | the recorded integer is positive and equals the exact value |
| `SearchDriver.RecordAllValues` | Euler259.cpp:150-174 | after any list of candidates the set holds the old values plus every reached positive integer, and the list matches the set one-to-one |
| `SearchDriver.RecordAllSpec` | Euler259.cpp:164-166 | first writer wins: old entries are unchanged, and each new entry's text is the first candidate reaching its value |
| `SearchDriver.EvaluateRangeSplit` | Euler259.cpp:151-173 | evaluating [lo, hi) is evaluating [lo, mid) and then [mid, hi) |
| `SearchDriver.ReachedCandidates` | Euler259.cpp:151-156 | the values reached from a range's bracketings are exactly those reachable from its expressions |
| `SearchDriver.Chunks` | Euler259.cpp:191-200 | fails with division by zero exactly when there are 0 threads; otherwise one chunk per thread, contiguous, covering [0, total), with the last absorbing the remainder |
| `SearchDriver.ChunksPartition` | Euler259.cpp:193-198 | every expression index lies in exactly one thread's chunk |
| `SearchDriver.RunChunksSequential` | Euler259.cpp:196-205 | running the chunks one after another equals one pass over the expressions up to the last chunk's end |
| `SearchDriver.SearchOutcome` | Euler259.cpp:184-205 | with at least one thread, the search finds exactly the positive integers some bracketing of some expression evaluates to, each with the first bracketing reaching it |
| `SearchDriver.SearchIgnoresPrecedence` | Euler259.cpp:75-76 | the whole search gives the same results with the as-written and the conventional precedence test |
| `SearchDriver.GeneratedAreRaw` | Euler259.cpp:99-114 | every generated expression is a raw expression, the input the search assumes |
| `SearchDriver.MainSearch` | Euler259.cpp:177-205 | for any digit string, the search over the generated expressions is the same under both precedence tests, fails exactly with 0 threads, and otherwise lists once each positive integer some bracketing of some generated expression reaches |
| `SearchDriver.ValuesPermutation` | Euler259.cpp:208 | sorting the entries keeps the same multiset of values |
| `SearchDriver.ReportTotals` | Euler259.cpp:208-227 | after sorting, the reported count is the number of distinct integers and the reported sum is the sum of the found values |
| `SumOfSquares.MultiplyGaussian` | Euler273.cpp:21-25 | the norm of a product is the product of the norms |
| `SumOfSquares.Normalize` | Euler273.cpp:32-35 | the stored pair is the absolute values of the parts, smaller first, with the norm unchanged |
| `SumOfSquares.RepresentationsNorm` | Euler273.cpp:28-46 | every pair produced is (a, b) with 0 ≤ a ≤ b and a² + b² = the norm of the start times the norms of the remaining primes |
| `SumOfSquares.RepresentationsCount` | Euler273.cpp:28-46 | the set holds at least one and at most 2^k pairs for k remaining primes |
| `SumOfSquares.RepresentationsBySigns` | Euler273.cpp:38-45 | a pair is produced exactly when it is the normalized product for some choice of sign on each prime's imaginary part |
| `SumOfSquares.PrimeTableValid` | Euler273.cpp:86-108 | every table entry is (a, b) with 0 < a ≤ b and a² + b² = p for a prime p ≡ 1 (mod 4); the list and the table hold the same primes, and the list is increasing |
| `SumOfSquares.SelectedSpec` | Euler273.cpp:115-123 | mask bit j selects the j-th prime: the factor list is increasing and holds exactly the primes whose bits are set |
| `SumOfSquares.BitsRoundTrip` | Euler273.cpp:115-119 | masks below 2^n and bit vectors of length n correspond one-to-one |
| `SumOfSquares.JobFor` | Euler273.cpp:115-124 | the entry for a mask holds, in increasing order, exactly the primes whose bits are set, and N is their product |
| `SumOfSquares.BuildJob` | Euler273.cpp:116-124 | the loop that multiplies N by each selected prime and appends it yields the list of the primes whose bits are set and their product |
| `SumOfSquares.Jobs` | Euler273.cpp:113-125 | `Ns_with_factors` has 2^16 − 1 entries, entry i being the one for mask i + 1 |
| `SumOfSquares.SubsetHasEntry` | Euler273.cpp:115-125 | every non-empty set of the listed primes is the factor set of some entry |
| `SumOfSquares.EntriesDistinct` | Euler273.cpp:115-125 | every entry has at least one factor, and different entries have different factor sets |
| `SumOfSquares.RoundRobinLengths` | Euler273.cpp:137-141 | thread t receives exactly the number of indices congruent to t modulo the thread count |
| `SumOfSquares.RoundRobinPlacement` | Euler273.cpp:139-141 | item i lands in bucket i mod k at position i div k |
| `SumOfSquares.RoundRobinPermutation` | Euler273.cpp:137-141 | the buckets together hold exactly the items |
| `SumOfSquares.JobSum` | Euler273.cpp:55-72 | every prime lookup succeeds, and a job sums the smaller parts of pairs whose squares add to its N |
| `SumOfSquares.LookupsFound` | Euler273.cpp:58-60 | looking up table primes always finds their entries |
| `SumOfSquares.AccumulatePermutation` | Euler273.cpp:55-78 | the accumulated total does not depend on the order of the jobs |
| `SumOfSquares.ProcessNsPermutation` | Euler273.cpp:127-131 | sorting the jobs does not change the total |
| `SumOfSquares.ThreadSumsAddUp` | Euler273.cpp:133-149 | the per-thread totals, added under the lock, equal one sequential pass over all jobs |
| `SumOfSquares.MainSum` | Euler273.cpp:113-149 | for the entries of every mask, in any order the sort leaves them and any thread count, no lookup throws and `sumOfAs` ends as the non-negative sum over all entries |
| `Threads.ThreadCount` | Euler273.cpp:134-135 | the detected count when non-zero, else 4; always at least 1 |
| `Cardano.ReadSpec` | Euler251.cpp:17-30 | reading folds value·10 + digit over the leading digits modulo 2^128, and fails exactly when a non-digit stops it |
| `Cardano.WriteIsDecimal` | Euler251.cpp:33-42 | writing produces the canonical decimal text of the value ("0" for zero) |
| `Cardano.ReadWrite` | Euler251.cpp:17-42 | reading what was written gives the value back without failure, for values below 2^128 |
| `Cardano.WriteRead` | Euler251.cpp:17-42 | writing what was read from canonical text gives the text back |
| `Cardano.IntPow` | Euler251.cpp:45-54 | exponentiation by squaring returns base^exp |
| `Cardano.FactorizeSpec` | Euler251.cpp:57-71 | the factor list is empty for n ≤ 1; otherwise its primes are increasing with positive exponents, and their powers multiply to n |
| `Cardano.GenerateBCCounts` | Euler251.cpp:74-93 | the recursion counts exactly the leaves (b, c) with b, c > 0 and a + b + c ≤ max_sum |
| `Cardano.PairsLength` | Euler251.cpp:84-92 | one leaf is reached per choice of k ≤ e/2 at every level |
| `Cardano.PairsProduct` | Euler251.cpp:88-91 | every leaf satisfies b²·c = (b0²·c0) · the product of the remaining prime powers |
| `Cardano.CardanoNSign` | Euler251.cpp:98 | N is −1 for a = 0 and positive otherwise |
| `Cardano.WrappedZeroSkipped` | Euler251.cpp:98-100 | the 128-bit wrap of N at a = 0 is not divisible by 27, so a = 0 is skipped as in the model |
| `Cardano.CardanoQuotient` | Euler251.cpp:101 | N_div · 27 = N |
| `Cardano.AlignedAIsProcessed` | Euler251.cpp:97-101 | for a ≡ 2 (mod 3), 27 divides N and N / 27 = (k + 1)²(8k + 5) with a = 3k + 2 |
| `Cardano.TripletsSpec` | Euler251.cpp:96-110 | what is counted for one `a` is exactly the kept leaves of the split of N / 27, and each leaf has 27·b²·c = (1 + a)²(8a − 1) with b, c ≥ 1 |
| `Cardano.VisitsShape` | Euler251.cpp:97 | the loop visits start, start + 3, … up to end, and no more |
| `Cardano.VisitsOnce` | Euler251.cpp:97 | each value from start to end congruent to start mod 3 is visited exactly once; nothing else is visited |
| `Cardano.CountOverPermutation` | Euler251.cpp:141-146 | the total depends only on how often each `a` is visited, not on the order of the threads |
| `Cardano.AlignedUnique` | Euler251.cpp:133-135 | the adjusted start is the one value ≡ 2 (mod 3) among s, s + 1, s + 2 |
| `Cardano.AsWrittenCovers` | Euler251.cpp:127-139 | as written, the threads still reach every a ≡ 2 (mod 3) in [2, MAX_A] |
| `Cardano.AsWrittenContainsCorrected` | Euler251.cpp:133-139 | each as-written thread visits a superset (as multisets) of what the corrected thread visits |
| `Cardano.ThreadsOverlap40` | Euler251.cpp:129-139 | for max_sum = 40 and 6 threads, range is 7 and threads 1 and 2 both visit a = 17, so 17 occurs twice among the visits |
| `Cardano.OverlapCountsTwice` | Euler251.cpp:129-146 | for max_sum = 40 and 6 threads, the total is the sweep's plus the counts of the revisited 17, 23 and 38, so (17, 18, 5) is counted twice and the total exceeds the sweep's |
| `Cardano.TripletsFor17` | Euler251.cpp:96-110 | for a = 17, N = 27 · 1620 and exactly one pair is counted under max_sum = 40 |
| `Cardano.PairsOf1620` | Euler251.cpp:74-93 | the six leaves of 1620 = 2²·3⁴·5, in recursion order |
| `Cardano.FactorizeOf1620` | Euler251.cpp:57-71 | the factor list of 1620 is 2², 3⁴, 5 |
| `Cardano.CorrectedSplitIsSweep` | Euler251.cpp:127-142 | with per-thread ends 2 + (i + 1)·range − 1, the threads together visit each a ≡ 2 (mod 3) in [2, MAX_A] exactly once, and the total equals one sequential sweep |
| `Heron.DigitCount` | Euler255.cpp:8-10 | 0 has one digit; for n ≥ 1 the count is the k with 10^(k−1) ≤ n < 10^k |
| `Heron.InitialGuessDigits` | Euler255.cpp:17-22 | the starting guess has ⌈d/2⌉ digits when n has d |
| `Heron.InitialGuess` | Euler255.cpp:18-22 | the starting guess is at least 2 |
| `Heron.CeilDivSpec` | Euler255.cpp:28 | (n + x − 1) / x is the least c with x·c ≥ n |
| `Heron.FixedPointIsRoundedRoot` | Euler255.cpp:28-31 | a step leaves x unchanged exactly when x² − x < n ≤ x² + x, that is, x is the rounded square root |
| `Heron.RoundedRootUnique` | Euler255.cpp:28-31 | n has at most one rounded square root |
| `Heron.StepNotBelowRoot` | Euler255.cpp:28 | after one step from any x ≥ 1, n ≤ x(x + 1) |
| `Heron.StepDecreases` | Euler255.cpp:28-32 | once n ≤ x(x + 1), a step never increases x |
| `Heron.RoundedSquareRoot` | Euler255.cpp:13-36 | for n ≥ 1 the loop stops at the first fixed point, which is the rounded square root, after at least one step; for n = 0 the guess reaches 0 and the next step divides by zero |
| `Segments.PlaceDelta` | Euler253.cpp:42-50 | placing a piece changes the run count by −1 when both neighbours are placed, +1 when neither is, else 0, as the source's update does |
| `Segments.PlaceAllSpec` | Euler253.cpp:42-44 | after the placements a slot is placed exactly when it was before or is one of the pieces |
| `Segments.PlayTracksRuns` | Euler253.cpp:39-53 | while no read goes past the end (or it reads "not placed"), the running counter is the number of placed runs, and the maximum is the peak of that number |
| `Segments.PermutationFacts` | Euler253.cpp:34-36 | an ordering of 1..n has n distinct entries, each in 1..n, and contains every piece |
| `Segments.AllPlaced` | Euler253.cpp:42-53 | once every piece is placed, exactly slots 1..n are placed, forming one run (none for n = 0) |
| `Segments.PeakBounds` | Euler253.cpp:52 | the peak is at least the run count after every non-empty prefix |
| `Segments.PeakAttained` | Euler253.cpp:52 | the peak equals the run count after some non-empty prefix |
| `Segments.AsWrittenWithClearSlot` | Euler253.cpp:38-53 | as written, if the read past the end yields "not placed", the loop ends with one segment (none for n = 0) and its maximum is the peak run count over n + 1 slots, which equals the peak over n + 2 slots that `Segments.CountSegments` reports |
| `Segments.PeakPadded` | Euler253.cpp:38 | a never-placed slot past the end changes neither the run count nor the peak of the run counts |
| `Segments.AsWrittenStraySlotCounterexample` | Euler253.cpp:46 | as written, with n = 1 and the read past the end yielding "placed", the counter ends at 0 with a peak of 0, though one segment exists |
| `Segments.CountSegments` | Euler253Random123.cpp:52-67 | with a slot past n, the loop ends with one segment (none for n = 0), and its maximum is the peak run count |
| `Segments.RandIndex` | Euler253Random123.cpp:48 | the swap partner of position j lies in [0, j] |
| `Segments.SwapPermutes` | Euler253Random123.cpp:49 | a swap keeps the same pieces |
| `Segments.Shuffle` | Euler253Random123.cpp:33-50 | whatever words the generator returns, the shuffle yields an ordering of 1..n |
| `Segments.Simulate` | Euler253Random123.cpp:33-67 | one simulation produces an ordering of 1..n and its peak segment count, which is at least 1 when n ≥ 1 |

## Left out

- Threads and the mutexes are left out. The thread splits of Euler259, Euler273 and Euler251
  are modelled as the per-thread work run in sequence, in thread order.
  - Independence of the order and of the split is proved only for Euler273
    (`SumOfSquares.ThreadSumsAddUp`, `SumOfSquares.ProcessNsPermutation`) and Euler251
    (`Cardano.CountOverPermutation`, apart from the overlap in Findings).
  - For Euler259 only the set of values, their count and their sum are proved for any
    order (`SearchDriver.RecordAllValues`, `SearchDriver.ReportTotals`). The kept text
    depends on the order.
- The OpenMP loops of Euler253 (over simulations) and Euler255 (over n) are left out. The
  model covers one simulation and one call of `roundedSquareRoot`.
- Timing, console and file output are left out: `result.txt`, `SumofSquares.txt`, elapsed
  times, and the averages printed by Euler253 and Euler255.
- Fixed-width arithmetic is not modelled: `rational<int>`, `int`, `unsigned long long` and
  `__uint128_t` are unbounded here. Overflow of `num * 10 + digit` in the evaluator, of
  `n + x - 1` in Euler255, and of `N` and the b, c products in Euler251 is outside the model.
  The exception is the 128-bit wrap of the reader, which is modelled.
- `rational<int>` normalization is left out: values are exact reals, and "denominator 1" is
  read as "is an integer".
- `pow` returns a double in Euler255's starting guess. It is modelled as the exact power of
  10, which is what it returns for these exponents.
- `Evaluator.EvaluateWith`: popping an empty stack is undefined behaviour in the source. The
  model reports a stack-underflow error instead; the search never reaches it.
- The leading-zero question for concatenated digits does not arise for `123456789`. The
  model accepts any digit string.
- `std::sort` in Euler259 and Euler273 is modelled by its promise only: the output is a
  permutation of the input.
- The thread completion order is not modelled. Under concurrency the list order in Euler259
  (and so which text is kept for a value) depends on it. The model fixes thread order
  0, 1, …, and the proofs about the set, the count and the sum do not depend on the order.
- Euler273's merge of per-thread maps into `combinedResults`, and the sort of the N values,
  only feed the output file, so they are left out.
- The `std::swap(b, c)` in `generate_bc` has no effect on the count, so it is left out.
- Euler251's 128-bit arithmetic in `int_pow`, `factorize` and `find_cardano_triplets` is
  left out, with the wrap at a = 0 as the one exception.
- `Cardano.ReadSpec`: the `in >> str` tokenization and end-of-input are left out; the model
  reads one token.
- `std::shuffle` with `mt19937` in Euler253.cpp is not modelled. The pieces are any
  ordering of 1..n (the `IsPermutation` precondition).
- Philox4x32 in Euler253Random123.cpp is a parameter: an arbitrary function from the
  position j to a random word. The shuffle is proved correct for every such function, not
  just for Philox's output.
- `Parenthesize.ParensAtMostCatalan`: the Catalan number is proved as an upper bound only. The
  count is exact once different splits give different texts, and that is not proved.
- Euler255's `main` loop over [10^13, 10^14) and its average are left out; the model covers
  one call of `roundedSquareRoot`.

## Findings

| source | as written | input that shows it | evidently intended | confidence | as-written member | corrected member |
|---|---|---|---|---|---|---|
| Euler259.cpp:75-76 | the loop condition parses as `(ch is + or -) or (ch is *) or (ch is / and top is * or /)`, so a `*` reduces a pending `+` or `-` | the unbracketed text `1+2*3` evaluates to 9 | `*` and `/` reduce only a pending `*` or `/`, giving 7; the search itself is unaffected because it evaluates only fully bracketed text (`SearchDriver.SearchIgnoresPrecedence`) | not executed | `Evaluator.AsWrittenPrecedenceCounterexample` | `Evaluator.EvaluateFlat3Conventional` |
| Euler251.cpp:136 | `end_a = min(start_a + range - 1, MAX_A)` measures from the adjusted start, so neighbouring threads can overlap | max_sum = 40 on 6 hardware threads: threads 1 and 2 both visit a = 17, so (17, 18, 5) is counted twice, giving 5 instead of 4 | each thread ends at `2 + (i + 1) * range - 1`, so every aligned a is processed once | not executed | `Cardano.OverlapCountsTwice` | `Cardano.CorrectedSplitIsSweep` |
| Euler253.cpp:38 | `placed` has n + 1 slots (0..n), but placing piece n reads `placed[n + 1]` at line 46 (and Euler253Random123.cpp:29, 60) | n = 1 when the bit past the end reads as `true`: the counter ends at 0 and the peak is 0 instead of 1 | n + 2 slots, so slot n + 1 is always "not placed" | not executed | `Segments.AsWrittenStraySlotCounterexample` | `Segments.CountSegments` |

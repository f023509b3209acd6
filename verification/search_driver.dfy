/**
  The single-threaded logic of the Euler259.cpp driver: each thread walks its slice of
  the raw expressions, evaluates every bracketing of each (in the set's ascending order),
  skips divisions by zero, and keeps the first text that reaches each positive integer;
  `main` cuts the expression list into contiguous slices, one per thread, and finally
  reports how many values were reached and their total.
 */
module SearchDriver {
  import opened Decimal
  import opened Operators
  import opened Evaluator
  import opened Parenthesize
  import opened StringOrder
  import opened Sums
  import opened Generator

  /** One line of the report: a reached value and the first text found for it. */
  datatype Entry = Entry(value: int, text: string)

  /** The shared `results` list and the `uniqueResults` set. */
  datatype Found = Found(results: seq<Entry>, unique: set<int>)

  const NoneFound := Found([], {})

  /** The filter of the source: the text evaluates without a zero divisor to a rational
      whose denominator is 1 and whose numerator is positive. */
  predicate Accepts(eval: string -> Result<real>, text: string) {
    var v := eval(text);
    v.Ok? && IsInteger(v.value) && v.value > 0.0
  }

  /** The numerator of an accepted value. */
  function IntegerOf(eval: string -> Result<real>, text: string): (n: int)
    requires Accepts(eval, text)
    ensures n > 0 && n as real == eval(text).value
  {
    eval(text).value.Floor
  }

  /** One candidate: a value is added to the set and the list only the first time. */
  function Record(eval: string -> Result<real>, acc: Found, text: string): (r: Found)
    ensures Accepts(eval, text) ==> r.unique == acc.unique + {IntegerOf(eval, text)}
    ensures !Accepts(eval, text) ==> r == acc
    ensures r.results == acc.results ||
      (Accepts(eval, text) && IntegerOf(eval, text) !in acc.unique && r.results == acc.results + [Entry(IntegerOf(eval, text), text)])
  {
    match eval(text)
    case Err(_) => acc
    case Ok(v) =>
      if IsInteger(v) && v > 0.0 then
        var n := v.Floor;
        if n in acc.unique then acc else Found(acc.results + [Entry(n, text)], acc.unique + {n})
      else acc
  }

  /** The candidates in order. */
  function RecordAll(eval: string -> Result<real>, acc: Found, texts: seq<string>): Found
    decreases |texts|
  {
    if texts == [] then acc
    else Record(eval, RecordAll(eval, acc, texts[..|texts| - 1]), texts[|texts| - 1])
  }

  /** The values some text of the list reaches: a set, so independent of the order. */
  function Reached(eval: string -> Result<real>, texts: seq<string>): set<int> {
    set j | 0 <= j < |texts| && Accepts(eval, texts[j]) :: IntegerOf(eval, texts[j])
  }

  /** The list and the set describe the same values, once each. */
  predicate Consistent(f: Found) {
    && |f.results| == |f.unique|
    && (forall k :: 0 <= k < |f.results| ==> f.results[k].value in f.unique)
    && (forall i, j :: 0 <= i < j < |f.results| ==> f.results[i].value != f.results[j].value)
  }

  /** `e` was entered by the first text of the list that reaches its value, and that value
      was not known before the list started. */
  predicate FirstWitness(eval: string -> Result<real>, known: set<int>, texts: seq<string>, e: Entry) {
    e.value !in known &&
    exists j :: 0 <= j < |texts| && texts[j] == e.text && Accepts(eval, texts[j]) &&
      IntegerOf(eval, texts[j]) == e.value && e.value !in Reached(eval, texts[..j])
  }

  lemma ReachedSnoc(eval: string -> Result<real>, texts: seq<string>, t: string)
    ensures Reached(eval, texts + [t]) == Reached(eval, texts) + (if Accepts(eval, t) then {IntegerOf(eval, t)} else {})
  {
    var s := texts + [t];
    assert forall j :: 0 <= j < |texts| ==> s[j] == texts[j];
    assert s[|texts|] == t;
  }

  lemma RecordConsistent(eval: string -> Result<real>, acc: Found, text: string)
    requires Consistent(acc)
    ensures Consistent(Record(eval, acc, text))
  {
  }

  lemma WitnessExtends(eval: string -> Result<real>, known: set<int>, texts: seq<string>, t: string, e: Entry)
    requires FirstWitness(eval, known, texts, e)
    ensures FirstWitness(eval, known, texts + [t], e)
  {
    var j :| 0 <= j < |texts| && texts[j] == e.text && Accepts(eval, texts[j]) &&
      IntegerOf(eval, texts[j]) == e.value && e.value !in Reached(eval, texts[..j]);
    var s := texts + [t];
    assert s[j] == texts[j] && s[..j] == texts[..j];
  }

  /** The step of `RecordAllSpec`: one more candidate keeps every promise. */
  lemma RecordStep(eval: string -> Result<real>, acc: Found, prefix: seq<string>, t: string, prev: Found)
    requires Consistent(acc) && Consistent(prev)
    requires prev.unique == acc.unique + Reached(eval, prefix)
    requires |acc.results| <= |prev.results| && prev.results[..|acc.results|] == acc.results
    requires forall k :: |acc.results| <= k < |prev.results| ==> FirstWitness(eval, acc.unique, prefix, prev.results[k])
    ensures var r := Record(eval, prev, t);
      && |acc.results| <= |r.results| && r.results[..|acc.results|] == acc.results
      && forall k :: |acc.results| <= k < |r.results| ==> FirstWitness(eval, acc.unique, prefix + [t], r.results[k])
  {
    var r := Record(eval, prev, t);
    var texts := prefix + [t];
    assert r.results[..|prev.results|] == prev.results;
    forall k | |acc.results| <= k < |r.results|
      ensures FirstWitness(eval, acc.unique, texts, r.results[k])
    {
      if k < |prev.results| {
        assert r.results[k] == prev.results[k];
        WitnessExtends(eval, acc.unique, prefix, t, prev.results[k]);
      } else {
        var j := |texts| - 1;
        assert texts[..j] == prefix && texts[j] == t;
        assert r.results[k] == Entry(IntegerOf(eval, t), t);
      }
    }
  }

  /** After a list of candidates the set holds the values known before and every value
      the list reaches, and the list still records each of them once. */
  lemma {:induction false} RecordAllValues(eval: string -> Result<real>, acc: Found, texts: seq<string>)
    requires Consistent(acc)
    ensures Consistent(RecordAll(eval, acc, texts))
    ensures RecordAll(eval, acc, texts).unique == acc.unique + Reached(eval, texts)
    decreases |texts|
  {
    if texts == [] {
      assert Reached(eval, texts) == {};
    } else {
      var prefix, t := texts[..|texts| - 1], texts[|texts| - 1];
      assert texts == prefix + [t];
      RecordAllValues(eval, acc, prefix);
      RecordValuesStep(eval, acc, prefix, t, RecordAll(eval, acc, prefix));
    }
  }

  /** The step of `RecordAllValues`. */
  lemma RecordValuesStep(eval: string -> Result<real>, acc: Found, prefix: seq<string>, t: string, prev: Found)
    requires Consistent(prev) && prev.unique == acc.unique + Reached(eval, prefix)
    ensures Consistent(Record(eval, prev, t))
    ensures Record(eval, prev, t).unique == acc.unique + Reached(eval, prefix + [t])
  {
    RecordConsistent(eval, prev, t);
    ReachedSnoc(eval, prefix, t);
  }

  /** First writer wins: the old entries are untouched, and each new entry is a newly
      reached value together with the first text of the list that reached it. */
  lemma {:induction false} RecordAllSpec(eval: string -> Result<real>, acc: Found, texts: seq<string>)
    requires Consistent(acc)
    ensures |acc.results| <= |RecordAll(eval, acc, texts).results|
    ensures RecordAll(eval, acc, texts).results[..|acc.results|] == acc.results
    ensures forall k :: |acc.results| <= k < |RecordAll(eval, acc, texts).results| ==>
      FirstWitness(eval, acc.unique, texts, RecordAll(eval, acc, texts).results[k])
    decreases |texts|
  {
    if texts != [] {
      var prefix, t := texts[..|texts| - 1], texts[|texts| - 1];
      assert texts == prefix + [t];
      RecordAllSpec(eval, acc, prefix);
      RecordAllValues(eval, acc, prefix);
      RecordStep(eval, acc, prefix, t, RecordAll(eval, acc, prefix));
    }
  }

  // ---------------------------------------------------------------------------
  // One thread: a slice of the raw expressions

  /** The bracketings of one raw expression, in the order the set yields them. */
  ghost function CandidatesOf(e: string): seq<string> {
    Ascending(Parens(e))
  }

  /** Every candidate of the expressions `lo .. hi-1`, expression by expression. */
  ghost function Candidates(exprs: seq<string>, lo: nat, hi: nat): seq<string>
    requires lo <= hi <= |exprs|
    decreases hi - lo
  {
    if hi == lo then [] else Candidates(exprs, lo, hi - 1) + CandidatesOf(exprs[hi - 1])
  }

  /** `evaluateInThread(expressions, …, start, end)`. */
  ghost function EvaluateRange(eval: string -> Result<real>, acc: Found, exprs: seq<string>, start: nat, end: nat): Found
    requires start <= end <= |exprs|
    decreases end - start
  {
    if end == start then acc else RecordAll(eval, EvaluateRange(eval, acc, exprs, start, end - 1), CandidatesOf(exprs[end - 1]))
  }

  /** The positive integers reached by some bracketing of some expression in the slice. */
  ghost function ReachableFrom(eval: string -> Result<real>, exprs: seq<string>, lo: nat, hi: nat): set<int>
    requires lo <= hi <= |exprs|
  {
    set i, p | lo <= i < hi && p in Parens(exprs[i]) && Accepts(eval, p) :: IntegerOf(eval, p)
  }

  lemma {:induction false} RecordAllAppend(eval: string -> Result<real>, acc: Found, a: seq<string>, b: seq<string>)
    ensures RecordAll(eval, acc, a + b) == RecordAll(eval, RecordAll(eval, acc, a), b)
    decreases |b|
  {
    if b == [] {
      assert a + b == a;
    } else {
      var b' := b[..|b| - 1];
      assert (a + b)[..|a + b| - 1] == a + b';
      RecordAllAppend(eval, acc, a, b');
    }
  }

  /** A thread's work is the fold over the concatenation of its expressions' candidates. */
  lemma {:induction false} EvaluateRangeIsRecordAll(eval: string -> Result<real>, acc: Found, exprs: seq<string>, start: nat, end: nat)
    requires start <= end <= |exprs|
    ensures EvaluateRange(eval, acc, exprs, start, end) == RecordAll(eval, acc, Candidates(exprs, start, end))
    decreases end - start
  {
    if end > start {
      EvaluateRangeIsRecordAll(eval, acc, exprs, start, end - 1);
      RecordAllAppend(eval, acc, Candidates(exprs, start, end - 1), CandidatesOf(exprs[end - 1]));
    }
  }

  /** The values one expression's bracketings reach. */
  ghost function ReachedBy(eval: string -> Result<real>, e: string): set<int> {
    set p | p in Parens(e) && Accepts(eval, p) :: IntegerOf(eval, p)
  }

  /** What a concatenation of candidate lists reaches is what either part reaches. */
  lemma ReachedAppend(eval: string -> Result<real>, a: seq<string>, b: seq<string>)
    ensures Reached(eval, a + b) == Reached(eval, a) + Reached(eval, b)
  {
    var s := a + b;
    forall n | n in Reached(eval, s)
      ensures n in Reached(eval, a) + Reached(eval, b)
    {
      var j :| 0 <= j < |s| && Accepts(eval, s[j]) && IntegerOf(eval, s[j]) == n;
      if j < |a| {
        assert s[j] == a[j];
      } else {
        assert s[j] == b[j - |a|];
      }
    }
    forall n | n in Reached(eval, a)
      ensures n in Reached(eval, s)
    {
      var j :| 0 <= j < |a| && Accepts(eval, a[j]) && IntegerOf(eval, a[j]) == n;
      assert s[j] == a[j];
    }
    forall n | n in Reached(eval, b)
      ensures n in Reached(eval, s)
    {
      var j :| 0 <= j < |b| && Accepts(eval, b[j]) && IntegerOf(eval, b[j]) == n;
      assert s[|a| + j] == b[j];
    }
  }

  /** Walking the set of bracketings in order reaches what the set reaches. */
  lemma ReachedOfCandidates(eval: string -> Result<real>, e: string)
    ensures Reached(eval, CandidatesOf(e)) == ReachedBy(eval, e)
  {
    var q := CandidatesOf(e);
    forall n | n in Reached(eval, q)
      ensures n in ReachedBy(eval, e)
    {
      var j :| 0 <= j < |q| && Accepts(eval, q[j]) && IntegerOf(eval, q[j]) == n;
      assert q[j] in Parens(e);
    }
    forall n | n in ReachedBy(eval, e)
      ensures n in Reached(eval, q)
    {
      var p :| p in Parens(e) && Accepts(eval, p) && IntegerOf(eval, p) == n;
      assert p in q;
      var j :| 0 <= j < |q| && q[j] == p;
    }
  }

  /** The slice `lo .. hi-1` reaches what `lo .. hi-2` reaches and what its last expression reaches. */
  lemma ReachableSnoc(eval: string -> Result<real>, exprs: seq<string>, lo: nat, hi: nat)
    requires lo < hi <= |exprs|
    ensures ReachableFrom(eval, exprs, lo, hi) == ReachableFrom(eval, exprs, lo, hi - 1) + ReachedBy(eval, exprs[hi - 1])
  {
    forall n | n in ReachableFrom(eval, exprs, lo, hi)
      ensures n in ReachableFrom(eval, exprs, lo, hi - 1) + ReachedBy(eval, exprs[hi - 1])
    {
      var i, p :| lo <= i < hi && p in Parens(exprs[i]) && Accepts(eval, p) && IntegerOf(eval, p) == n;
    }
  }

  /** The values the candidate list reaches are the values the expressions reach. */
  lemma {:induction false} ReachedCandidates(eval: string -> Result<real>, exprs: seq<string>, lo: nat, hi: nat)
    requires lo <= hi <= |exprs|
    ensures Reached(eval, Candidates(exprs, lo, hi)) == ReachableFrom(eval, exprs, lo, hi)
    decreases hi - lo
  {
    if hi > lo {
      ReachedCandidates(eval, exprs, lo, hi - 1);
      ReachedAppend(eval, Candidates(exprs, lo, hi - 1), CandidatesOf(exprs[hi - 1]));
      ReachedOfCandidates(eval, exprs[hi - 1]);
      ReachableSnoc(eval, exprs, lo, hi);
    } else {
      assert Candidates(exprs, lo, hi) == [];
    }
  }

  lemma {:induction false} EvaluateRangeSplit(eval: string -> Result<real>, acc: Found, exprs: seq<string>, lo: nat, mid: nat, hi: nat)
    requires lo <= mid <= hi <= |exprs|
    ensures EvaluateRange(eval, acc, exprs, lo, hi) == EvaluateRange(eval, EvaluateRange(eval, acc, exprs, lo, mid), exprs, mid, hi)
    decreases hi - mid
  {
    if hi > mid {
      EvaluateRangeSplit(eval, acc, exprs, lo, mid, hi - 1);
    }
  }

  // ---------------------------------------------------------------------------
  // The split into threads

  /** The half-open slice `[start, end)` of the expression list one thread processes. */
  datatype Chunk = Chunk(start: nat, end: nat)

  /** Thread `t`'s slice: `total / threads` expressions from `t * (total / threads)` on,
      and for the last thread everything up to the end. */
  function ChunkAt(total: nat, threads: nat, t: nat): (c: Chunk)
    requires t < threads
    ensures c.start <= c.end <= total
  {
    var q := total / threads;
    ChunkArithmetic(total, threads, t);
    Chunk(t * q, if t == threads - 1 then total else t * q + q)
  }

  /** `main`'s split of `total` expressions over `threads` threads. There is no fallback
      for a zero thread count, so the division then fails. */
  function Chunks(total: nat, threads: nat): (r: Result<seq<Chunk>>)
    ensures r.Err? <==> threads == 0
    ensures r.Err? ==> r.fault == DivisionByZero
    ensures r.Ok? ==> |r.value| == threads && r.value[0].start == 0 && r.value[threads - 1].end == total
    ensures r.Ok? ==> forall t :: 0 <= t < threads - 1 ==>
      r.value[t].end == r.value[t + 1].start && r.value[t].end - r.value[t].start == total / threads
    ensures r.Ok? ==> forall t :: 0 <= t < threads ==> r.value[t].start <= r.value[t].end <= total
  {
    if threads == 0 then Err(DivisionByZero)
    else
      var cs := seq(threads, t requires 0 <= t < threads => ChunkAt(total, threads, t));
      ChunksConsecutive(total, threads, cs);
      Ok(cs)
  }

  lemma ChunksConsecutive(total: nat, threads: nat, cs: seq<Chunk>)
    requires threads >= 1 && |cs| == threads
    requires forall t :: 0 <= t < threads ==> cs[t] == ChunkAt(total, threads, t)
    ensures forall t :: 0 <= t < threads - 1 ==>
      cs[t].end == cs[t + 1].start && cs[t].end - cs[t].start == total / threads
  {
    var q := total / threads;
    forall t | 0 <= t < threads - 1
      ensures cs[t].end == cs[t + 1].start && cs[t].end - cs[t].start == q
    {
      assert cs[t].end == t * q + q;
      assert cs[t + 1].start == (t + 1) * q;
      assert (t + 1) * q == t * q + q;
    }
  }

  lemma ChunkArithmetic(total: nat, threads: nat, t: nat)
    requires t < threads
    ensures t * (total / threads) + total / threads <= total
  {
    var q := total / threads;
    assert threads * q <= total;
    assert t * q + q == (t + 1) * q;
    MultiplyMonotone(t + 1, threads, q);
  }

  lemma MultiplyMonotone(a: nat, b: nat, q: nat)
    requires a <= b
    ensures a * q <= b * q
  {
  }

  /** Contiguous chunks that start at 0 cover every expression, each exactly once. */
  lemma ChunksPartition(cs: seq<Chunk>, total: nat, i: nat) returns (t: nat)
    requires |cs| >= 1 && cs[0].start == 0 && cs[|cs| - 1].end == total
    requires forall k :: 0 <= k < |cs| - 1 ==> cs[k].end == cs[k + 1].start
    requires forall k :: 0 <= k < |cs| ==> cs[k].start <= cs[k].end
    requires i < total
    ensures t < |cs| && cs[t].start <= i < cs[t].end
    ensures forall u :: 0 <= u < |cs| && cs[u].start <= i < cs[u].end ==> u == t
  {
    t := 0;
    while cs[t].end <= i
      invariant t < |cs| && cs[t].start <= i
      decreases |cs| - t
    {
      t := t + 1;
    }
    forall u | 0 <= u < |cs| && u != t
      ensures !(cs[u].start <= i < cs[u].end)
    {
      if u < t {
        EndBeforeStart(cs, u, t);
      } else {
        EndBeforeStart(cs, t, u);
      }
    }
  }

  /** A chunk ends no later than any later chunk starts. */
  lemma {:induction false} EndBeforeStart(cs: seq<Chunk>, a: nat, b: nat)
    requires forall k :: 0 <= k < |cs| - 1 ==> cs[k].end == cs[k + 1].start
    requires forall k :: 0 <= k < |cs| ==> cs[k].start <= cs[k].end
    requires a < b < |cs|
    ensures cs[a].end <= cs[b].start
    decreases b - a
  {
    if b > a + 1 {
      EndBeforeStart(cs, a, b - 1);
    }
  }

  /** The threads in order of their index. */
  ghost function RunChunks(eval: string -> Result<real>, acc: Found, exprs: seq<string>, cs: seq<Chunk>, k: nat): Found
    requires k <= |cs|
    requires forall t :: 0 <= t < |cs| ==> cs[t].start <= cs[t].end <= |exprs|
  {
    if k == 0 then acc else EvaluateRange(eval, RunChunks(eval, acc, exprs, cs, k - 1), exprs, cs[k - 1].start, cs[k - 1].end)
  }

  lemma {:induction false} RunChunksSequential(eval: string -> Result<real>, acc: Found, exprs: seq<string>, cs: seq<Chunk>, k: nat)
    requires 1 <= k <= |cs| && cs[0].start == 0
    requires forall t :: 0 <= t < |cs| - 1 ==> cs[t].end == cs[t + 1].start
    requires forall t :: 0 <= t < |cs| ==> cs[t].start <= cs[t].end <= |exprs|
    ensures RunChunks(eval, acc, exprs, cs, k) == EvaluateRange(eval, acc, exprs, 0, cs[k - 1].end)
  {
    if k > 1 {
      RunChunksSequential(eval, acc, exprs, cs, k - 1);
      EvaluateRangeSplit(eval, acc, exprs, 0, cs[k - 2].end, cs[k - 1].end);
    }
  }

  /** `evaluateExpression` under a precedence rule, as a value the driver can be given. */
  function EvaluatorFor(rule: Precedence): string -> Result<real> {
    s => EvaluateWith(rule, s)
  }

  /** The whole search over a list of raw expressions with `threads` threads. */
  ghost function Search(rule: Precedence, exprs: seq<string>, threads: nat): Result<Found> {
    match Chunks(|exprs|, threads)
    case Err(f) => Err(f)
    case Ok(cs) => Ok(RunChunks(EvaluatorFor(rule), NoneFound, exprs, cs, |cs|))
  }

  /** With at least one thread the search finds exactly the positive integers some
      bracketing of some expression reaches, lists each once, and keeps for each the first
      bracketing that reached it in the threads' order; with none it fails. */
  lemma SearchOutcome(rule: Precedence, exprs: seq<string>, threads: nat)
    ensures Search(rule, exprs, threads).Err? <==> threads == 0
    ensures threads >= 1 ==>
      var f := Search(rule, exprs, threads).value;
      var eval := EvaluatorFor(rule);
      && Consistent(f)
      && f.unique == ReachableFrom(eval, exprs, 0, |exprs|)
      && forall k :: 0 <= k < |f.results| ==> FirstWitness(eval, {}, Candidates(exprs, 0, |exprs|), f.results[k])
  {
    if threads >= 1 {
      var eval := EvaluatorFor(rule);
      var cs := Chunks(|exprs|, threads).value;
      RunChunksSequential(eval, NoneFound, exprs, cs, |cs|);
      EvaluateRangeIsRecordAll(eval, NoneFound, exprs, 0, |exprs|);
      RecordedOutcome(eval, exprs, Search(rule, exprs, threads).value);
    }
  }

  /** Recording every candidate of every expression from nothing found yields each reachable
      value once, with its first witness. */
  lemma RecordedOutcome(eval: string -> Result<real>, exprs: seq<string>, f: Found)
    requires f == RecordAll(eval, NoneFound, Candidates(exprs, 0, |exprs|))
    ensures Consistent(f) && f.unique == ReachableFrom(eval, exprs, 0, |exprs|)
    ensures forall k :: 0 <= k < |f.results| ==> FirstWitness(eval, {}, Candidates(exprs, 0, |exprs|), f.results[k])
  {
    var texts := Candidates(exprs, 0, |exprs|);
    RecordedValues(eval, texts, f);
    RecordedWitnesses(eval, texts, f);
    ReachedCandidates(eval, exprs, 0, |exprs|);
  }

  lemma RecordedWitnesses(eval: string -> Result<real>, texts: seq<string>, f: Found)
    requires f == RecordAll(eval, NoneFound, texts)
    ensures forall k :: 0 <= k < |f.results| ==> FirstWitness(eval, {}, texts, f.results[k])
  {
    RecordAllSpec(eval, NoneFound, texts);
    assert NoneFound.unique == {} && |NoneFound.results| == 0;
  }

  lemma RecordedValues(eval: string -> Result<real>, texts: seq<string>, f: Found)
    requires f == RecordAll(eval, NoneFound, texts)
    ensures Consistent(f) && f.unique == Reached(eval, texts)
  {
    RecordAllValues(eval, NoneFound, texts);
    assert NoneFound.unique + Reached(eval, texts) == Reached(eval, texts);
  }

  // ---------------------------------------------------------------------------
  // The precedence defect does not change the search

  lemma {:induction false} RecordAllAgree(e1: string -> Result<real>, e2: string -> Result<real>, acc: Found, texts: seq<string>)
    requires forall j :: 0 <= j < |texts| ==> e1(texts[j]) == e2(texts[j])
    ensures RecordAll(e1, acc, texts) == RecordAll(e2, acc, texts)
    decreases |texts|
  {
    if texts != [] {
      var prefix := texts[..|texts| - 1];
      assert forall j :: 0 <= j < |prefix| ==> prefix[j] == texts[j];
      RecordAllAgree(e1, e2, acc, prefix);
    }
  }

  lemma {:induction false} EvaluateRangeAgree(e1: string -> Result<real>, e2: string -> Result<real>, acc: Found,
                                              exprs: seq<string>, start: nat, end: nat)
    requires start <= end <= |exprs|
    requires forall i, p :: start <= i < end && p in Parens(exprs[i]) ==> e1(p) == e2(p)
    ensures EvaluateRange(e1, acc, exprs, start, end) == EvaluateRange(e2, acc, exprs, start, end)
    decreases end - start
  {
    if end > start {
      EvaluateRangeAgree(e1, e2, acc, exprs, start, end - 1);
      var texts := CandidatesOf(exprs[end - 1]);
      assert forall j :: 0 <= j < |texts| ==> texts[j] in Parens(exprs[end - 1]);
      RecordAllAgree(e1, e2, EvaluateRange(e1, acc, exprs, start, end - 1), texts);
    }
  }

  predicate AllRaw(exprs: seq<string>) {
    forall i :: 0 <= i < |exprs| ==> IsRawExpression(exprs[i])
  }

  /** On raw expressions the search reports the same results whether the evaluator uses
      the precedence test as written or the corrected one. */
  lemma SearchIgnoresPrecedence(exprs: seq<string>, threads: nat)
    requires AllRaw(exprs)
    ensures Search(AsWritten, exprs, threads) == Search(Conventional, exprs, threads)
  {
    var e1, e2 := EvaluatorFor(AsWritten), EvaluatorFor(Conventional);
    forall i, p | 0 <= i < |exprs| && p in Parens(exprs[i])
      ensures e1(p) == e2(p)
    {
      var _ := ParenthesizedValue(exprs[i], p);
    }
    if threads >= 1 {
      var cs := Chunks(|exprs|, threads).value;
      RunChunksSequential(e1, NoneFound, exprs, cs, |cs|);
      RunChunksSequential(e2, NoneFound, exprs, cs, |cs|);
      EvaluateRangeAgree(e1, e2, NoneFound, exprs, 0, |exprs|);
    }
  }

  /** Every expression `generateOperatorPermutations` produces is raw. */
  lemma GeneratedAreRaw(digits: string)
    requires |digits| >= 1 && AllDigits(digits)
    ensures AllRaw(Expressions(digits))
  {
    forall i | 0 <= i < |Expressions(digits)|
      ensures IsRawExpression(Expressions(digits)[i])
    {
      ExpressionsShape(digits, Expressions(digits)[i]);
    }
  }

  /** `main` of Euler259.cpp over any digit string: the expressions it generates are raw,
      so the precedence defect does not change what the search finds; the search fails
      exactly when no thread is reported, and otherwise lists once each positive integer
      that some bracketing of some generated expression reaches. */
  lemma MainSearch(digits: string, threads: nat)
    requires |digits| >= 1 && AllDigits(digits)
    ensures Search(AsWritten, Expressions(digits), threads) == Search(Conventional, Expressions(digits), threads)
    ensures Search(AsWritten, Expressions(digits), threads).Err? <==> threads == 0
    ensures threads >= 1 ==>
      var f := Search(AsWritten, Expressions(digits), threads).value;
      && Consistent(f)
      && f.unique == ReachableFrom(EvaluatorFor(AsWritten), Expressions(digits), 0, |Expressions(digits)|)
  {
    GeneratedAreRaw(digits);
    SearchIgnoresPrecedence(Expressions(digits), threads);
    SearchOutcome(AsWritten, Expressions(digits), threads);
  }

  // ---------------------------------------------------------------------------
  // The report

  function Values(es: seq<Entry>): (vs: seq<int>)
    ensures |vs| == |es| && forall k :: 0 <= k < |es| ==> vs[k] == es[k].value
  {
    if es == [] then [] else [es[0].value] + Values(es[1..])
  }

  /** Taking one entry out of a list takes its value out of the values. */
  lemma ValuesRemove(b: seq<Entry>, i: nat)
    requires i < |b|
    ensures multiset(Values(b)) == multiset(Values(b[..i] + b[i + 1..])) + multiset{b[i].value}
  {
    var vs, r := Values(b), b[..i] + b[i + 1..];
    var w, u := Values(r), vs[..i] + vs[i + 1..];
    forall k | 0 <= k < |w|
      ensures w[k] == u[k]
    {
      if k < i {
        assert r[k] == b[k] && u[k] == vs[k];
      } else {
        assert r[k] == b[k + 1] && u[k] == vs[k + 1];
      }
    }
    assert w == u;
    RemoveOne(vs, i);
  }

  /** Rearranging the entries rearranges their values. */
  lemma {:induction false} ValuesPermutation(a: seq<Entry>, b: seq<Entry>)
    requires multiset(a) == multiset(b)
    ensures multiset(Values(a)) == multiset(Values(b))
    decreases |a|
  {
    if a != [] {
      var i := MatchFirst(a, b);
      ValuesPermutation(a[1..], b[..i] + b[i + 1..]);
      ValuesRemove(b, i);
      ValuesRemove(a, 0);
      assert a[..0] + a[1..] == a[1..];
    }
  }

  /** The count and total `main` prints do not depend on how the report is ordered: any
      rearrangement of the results, such as the sort by value, has the same length and the
      same sum, and the count is the number of distinct values reached. */
  lemma ReportTotals(f: Found, sorted: seq<Entry>)
    requires Consistent(f) && multiset(sorted) == multiset(f.results)
    ensures |sorted| == |f.unique|
    ensures Sum(Values(sorted)) == Sum(Values(f.results))
  {
    assert |sorted| == |multiset(sorted)| == |f.results|;
    ValuesPermutation(sorted, f.results);
    SumPermutation(Values(sorted), Values(f.results));
  }
}

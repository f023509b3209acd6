/**
  Decimal digit strings: the textual form of non-negative integers shared by the
  expression evaluator's literal accumulation, the 128-bit reader and writer of the
  Cardano search, and the digit count of the Heron iteration.
 */
module Decimal {

  predicate IsDigit(c: char) {
    '0' <= c <= '9'
  }

  function DigitValue(c: char): nat
    requires IsDigit(c)
  {
    c as int - '0' as int
  }

  function DigitChar(d: nat): (c: char)
    requires d < 10
    ensures IsDigit(c) && DigitValue(c) == d
  {
    ('0' as int + d) as char
  }

  predicate AllDigits(s: string) {
    forall i :: 0 <= i < |s| ==> IsDigit(s[i])
  }

  function Pow10(k: nat): (p: nat)
    ensures p >= 1
  {
    if k == 0 then 1 else 10 * Pow10(k - 1)
  }

  /** The value of a digit string read left to right, each digit folded in as `value * 10 + digit`. */
  function ValueOf(s: string): (v: nat)
    requires AllDigits(s)
    ensures v < Pow10(|s|)
    decreases |s|
  {
    if s == [] then 0 else ValueOf(s[..|s| - 1]) * 10 + DigitValue(s[|s| - 1])
  }

  /** The canonical decimal text of `n`: at least one digit, no leading zero unless `n` is 0. */
  function ToDecimal(n: nat): (s: string)
    ensures |s| >= 1 && AllDigits(s)
    ensures ValueOf(s) == n
    ensures s[0] == '0' <==> n == 0
    ensures n == 0 ==> s == "0"
    decreases n
  {
    if n < 10 then [DigitChar(n)]
    else
      var s := ToDecimal(n / 10) + [DigitChar(n % 10)];
      assert s[..|s| - 1] == ToDecimal(n / 10);
      s
  }

  /** A digit string without a superfluous leading zero. */
  predicate Canonical(s: string) {
    |s| >= 1 && AllDigits(s) && (s[0] == '0' ==> |s| == 1)
  }

  lemma {:induction false} ValueOfAppend(a: string, b: string)
    requires AllDigits(a) && AllDigits(b)
    ensures AllDigits(a + b)
    ensures ValueOf(a + b) == ValueOf(a) * Pow10(|b|) + ValueOf(b)
    decreases |b|
  {
    if b == [] {
      assert a + b == a;
    } else {
      var b' := b[..|b| - 1];
      var d := DigitValue(b[|b| - 1]);
      assert (a + b)[..|a + b| - 1] == a + b';
      ValueOfAppend(a, b');
      assert ValueOf(a + b) == ValueOf(a + b') * 10 + d;
      assert ValueOf(b) == ValueOf(b') * 10 + d;
      var x, p := ValueOf(a), Pow10(|b'|);
      assert Pow10(|b|) == p * 10;
      MulTen(x, p);
    }
  }

  lemma MulTen(x: int, p: int)
    ensures (x * p) * 10 == x * (p * 10)
  {
  }

  /** A canonical digit string is at least 10^(length-1) unless it is "0". */
  lemma {:induction false} CanonicalLowerBound(s: string)
    requires Canonical(s) && s[0] != '0'
    ensures Pow10(|s| - 1) <= ValueOf(s)
    decreases |s|
  {
    if |s| > 1 {
      var s' := s[..|s| - 1];
      assert s'[0] == s[0];
      CanonicalLowerBound(s');
    } else {
      assert s[..0] == [];
    }
  }

  /** Every canonical digit string is the decimal text of its own value. */
  lemma {:induction false} ToDecimalOfValue(s: string)
    requires Canonical(s)
    ensures ToDecimal(ValueOf(s)) == s
    decreases |s|
  {
    var v := ValueOf(s);
    if |s| == 1 {
      assert s[..0] == [];
      assert ToDecimal(v) == [DigitChar(v)];
    } else {
      var s', c := s[..|s| - 1], s[|s| - 1];
      assert s'[0] == s[0];
      CanonicalLowerBound(s');
      ToDecimalOfValue(s');
      AppendDigitText(s', c, ValueOf(s'), v);
      SplitLast(s);
    }
  }

  lemma SplitLast(s: string)
    requires |s| >= 1
    ensures s == s[..|s| - 1] + [s[|s| - 1]]
  {
  }

  /** Appending a digit to the decimal text of a positive `w` gives the text of w * 10 + d. */
  lemma AppendDigitText(t: string, c: char, w: nat, v: nat)
    requires IsDigit(c) && w >= 1 && ToDecimal(w) == t && v == w * 10 + DigitValue(c)
    ensures ToDecimal(v) == t + [c]
  {
    LastDigit(w, DigitValue(c));
    DigitRoundTrip(c);
    ToDecimalStep(v);
  }

  lemma ToDecimalStep(n: nat)
    requires n >= 10
    ensures ToDecimal(n) == ToDecimal(n / 10) + [DigitChar(n % 10)]
  {
  }

  lemma DigitRoundTrip(c: char)
    requires IsDigit(c)
    ensures DigitChar(DigitValue(c)) == c
  {
  }

  /** Appending digit `d` to the text of `x` gives a value whose quotient by ten is `x` and
      whose remainder is `d`. */
  lemma LastDigit(x: nat, d: nat)
    requires d < 10
    ensures (x * 10 + d) / 10 == x && (x * 10 + d) % 10 == d
  {
  }

  /** The decimal text of `n` has `k` digits exactly when 10^(k-1) <= n < 10^k (n >= 1). */
  lemma ToDecimalLength(n: nat)
    requires n >= 1
    ensures Pow10(|ToDecimal(n)| - 1) <= n < Pow10(|ToDecimal(n)|)
  {
    CanonicalLowerBound(ToDecimal(n));
  }
}

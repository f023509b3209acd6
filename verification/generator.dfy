/**
  The expression generator of Euler259.cpp (`generateOperatorPermutations`): between every
  two consecutive digits it places one of `+`, `-`, `*`, `/` or nothing (concatenation).
 */
module Generator {
  import opened Decimal
  import opened Operators

  /** The strings placed after a digit, in the order the source tries them; "" concatenates. */
  const Choices: seq<string> := ["+", "-", "*", "/", ""]

  predicate IsChoice(s: string) {
    s == "+" || s == "-" || s == "*" || s == "/" || s == ""
  }

  function Pow5(k: nat): (p: nat)
    ensures p >= 1
  {
    if k == 0 then 1 else 5 * Pow5(k - 1)
  }

  /** The expressions `generateOperatorPermutations(digits, expressions, current, index)`
      appends to `expressions`, in order. The source needs `index < |digits|`: with an empty
      digit string its `digits.length() - 1` wraps around and the recursion never meets it. */
  function Permutations(digits: string, current: string, index: nat): seq<string>
    requires index < |digits|
    decreases |digits| - index, 6
  {
    if index == |digits| - 1 then [current + [digits[index]]]
    else TryChoices(digits, current, index, 0)
  }

  /** The loop over the operator list, from choice `j` on. */
  function TryChoices(digits: string, current: string, index: nat, j: nat): seq<string>
    requires index < |digits| - 1 && j <= 5
    decreases |digits| - index, 5 - j
  {
    if j == 5 then []
    else Permutations(digits, current + [digits[index]] + Choices[j], index + 1) + TryChoices(digits, current, index, j + 1)
  }

  /** All raw expressions over `digits`: the call `main` makes. */
  function Expressions(digits: string): seq<string>
    requires |digits| >= 1
  {
    Permutations(digits, "", 0)
  }

  /** Reference definition: the expression for one list of choices, one per gap. */
  function Interleave(ds: string, c: seq<string>): string
    requires |ds| >= 1 && |c| == |ds| - 1
    decreases |ds|
  {
    if |ds| == 1 then [ds[0]] else [ds[0]] + c[0] + Interleave(ds[1..], c[1..])
  }

  predicate ValidChoices(c: seq<string>) {
    forall k :: 0 <= k < |c| ==> IsChoice(c[k])
  }

  // ---------------------------------------------------------------------------
  // Counting

  lemma {:induction false} PermutationsCount(digits: string, current: string, index: nat)
    requires index < |digits|
    ensures |Permutations(digits, current, index)| == Pow5(|digits| - 1 - index)
    decreases |digits| - index, 1
  {
    if index < |digits| - 1 {
      TryChoicesCount(digits, current, index, 0);
    }
  }

  lemma {:induction false} TryChoicesCount(digits: string, current: string, index: nat, j: nat)
    requires index < |digits| - 1 && j <= 5
    ensures |TryChoices(digits, current, index, j)| == (5 - j) * Pow5(|digits| - 2 - index)
    decreases |digits| - index, 0, 5 - j
  {
    if j < 5 {
      PermutationsCount(digits, current + [digits[index]] + Choices[j], index + 1);
      TryChoicesCount(digits, current, index, j + 1);
    }
  }

  /** The generator yields exactly 5^(n-1) expressions for n digits. */
  lemma ExpressionsCount(digits: string)
    requires |digits| >= 1
    ensures |Expressions(digits)| == Pow5(|digits| - 1)
  {
    PermutationsCount(digits, "", 0);
  }

  // ---------------------------------------------------------------------------
  // Membership: the generated list holds exactly the interleavings

  lemma {:induction false} TryChoicesMember(digits: string, current: string, index: nat, j: nat, e: string)
    requires index < |digits| - 1 && j <= 5
    ensures e in TryChoices(digits, current, index, j) <==>
      exists k :: j <= k < 5 && e in Permutations(digits, current + [digits[index]] + Choices[k], index + 1)
    decreases 5 - j
  {
    if j < 5 {
      TryChoicesMember(digits, current, index, j + 1, e);
    }
  }

  lemma ChoicesAreChoices(k: nat)
    requires k < 5
    ensures IsChoice(Choices[k])
  {
  }

  lemma ChoiceIndex(s: string) returns (k: nat)
    requires IsChoice(s)
    ensures k < 5 && Choices[k] == s
  {
    k := if s == "+" then 0 else if s == "-" then 1 else if s == "*" then 2 else if s == "/" then 3 else 4;
  }

  /** Every generated expression is `current` followed by the interleaving of the remaining
      digits with some list of choices. */
  lemma {:induction false} PermutationsSound(digits: string, current: string, index: nat, e: string)
    returns (c: seq<string>)
    requires index < |digits| && e in Permutations(digits, current, index)
    ensures |c| == |digits| - 1 - index && ValidChoices(c) && e == current + Interleave(digits[index..], c)
    decreases |digits| - index
  {
    var ds := digits[index..];
    if index == |digits| - 1 {
      c := [];
      assert e == current + Interleave(ds, []);
    } else {
      TryChoicesMember(digits, current, index, 0, e);
      var k :| 0 <= k < 5 && e in Permutations(digits, current + [digits[index]] + Choices[k], index + 1);
      var c' := PermutationsSound(digits, current + [digits[index]] + Choices[k], index + 1, e);
      ChoicesAreChoices(k);
      c := ChoicePrepend(Choices[k], c');
      var tail := Interleave(digits[index + 1..], c');
      assert ds[1..] == digits[index + 1..];
      assert Interleave(ds, c) == [digits[index]] + Choices[k] + tail;
      Regroup(current, [digits[index]], Choices[k], tail);
    }
  }

  /** One more valid choice in front of valid choices. */
  lemma ChoicePrepend(first: string, rest: seq<string>) returns (c: seq<string>)
    requires IsChoice(first) && ValidChoices(rest)
    ensures c == [first] + rest && ValidChoices(c) && c[1..] == rest
  {
    c := [first] + rest;
    assert forall k :: 1 <= k < |c| ==> c[k] == rest[k - 1];
  }

  lemma Regroup(a: string, b: string, c: string, d: string)
    ensures a + b + c + d == a + (b + c + d)
  {
  }

  /** Every interleaving of the remaining digits, after `current`, is generated. */
  lemma {:induction false} PermutationsComplete(digits: string, current: string, index: nat, c: seq<string>)
    requires index < |digits| && |c| == |digits| - 1 - index && ValidChoices(c)
    ensures current + Interleave(digits[index..], c) in Permutations(digits, current, index)
    decreases |digits| - index
  {
    var ds := digits[index..];
    if index < |digits| - 1 {
      var k := ChoiceIndex(c[0]);
      var next := current + [digits[index]] + Choices[k];
      assert ds[1..] == digits[index + 1..];
      PermutationsComplete(digits, next, index + 1, c[1..]);
      assert current + Interleave(ds, c) == next + Interleave(digits[index + 1..], c[1..]);
      TryChoicesMember(digits, current, index, 0, current + Interleave(ds, c));
    }
  }

  /** An expression is generated from `digits` exactly when it interleaves them with one
      choice per gap. */
  lemma ExpressionsMembership(digits: string, e: string)
    requires |digits| >= 1
    ensures e in Expressions(digits) <==>
      exists c :: |c| == |digits| - 1 && ValidChoices(c) && e == Interleave(digits, c)
  {
    assert digits[0..] == digits;
    if e in Expressions(digits) {
      var c := PermutationsSound(digits, "", 0, e);
      assert "" + Interleave(digits, c) == Interleave(digits, c);
    }
    if exists c :: |c| == |digits| - 1 && ValidChoices(c) && e == Interleave(digits, c) {
      var c :| |c| == |digits| - 1 && ValidChoices(c) && e == Interleave(digits, c);
      PermutationsComplete(digits, "", 0, c);
      assert "" + Interleave(digits, c) == e;
    }
  }

  // ---------------------------------------------------------------------------
  // Shape of an interleaving

  /** The characters that are not operators, in order. */
  function StripOperators(s: string): string
    decreases |s|
  {
    if s == [] then []
    else (if IsOperator(s[0]) then [] else [s[0]]) + StripOperators(s[1..])
  }

  lemma {:induction false} StripAppend(a: string, b: string)
    ensures StripOperators(a + b) == StripOperators(a) + StripOperators(b)
    decreases |a|
  {
    if a != [] {
      assert (a + b)[1..] == a[1..] + b;
      StripAppend(a[1..], b);
    } else {
      assert a + b == b;
    }
  }

  /** A raw expression: digits and operators only, starting and ending with a digit, with
      no two operators side by side. */
  predicate IsRawExpression(e: string) {
    && |e| >= 1
    && IsDigit(e[0]) && IsDigit(e[|e| - 1])
    && (forall k :: 0 <= k < |e| ==> IsDigit(e[k]) || IsOperator(e[k]))
    && (forall k :: 0 <= k < |e| - 1 ==> IsOperator(e[k]) ==> IsDigit(e[k + 1]))
  }

  /** A digit and a choice put in front of a raw expression give a raw expression. */
  lemma RawPrepend(d: char, op: string, rest: string)
    requires IsDigit(d) && IsChoice(op) && IsRawExpression(rest)
    ensures IsRawExpression([d] + op + rest)
  {
    var e := [d] + op + rest;
    if op == "" {
      assert e == [d] + rest;
      assert forall k :: 1 <= k < |e| ==> e[k] == rest[k - 1];
    } else {
      assert e == [d, op[0]] + rest;
      assert forall k :: 2 <= k < |e| ==> e[k] == rest[k - 2];
    }
  }

  lemma {:induction false} InterleaveShape(ds: string, c: seq<string>)
    requires |ds| >= 1 && |c| == |ds| - 1 && AllDigits(ds) && ValidChoices(c)
    ensures IsRawExpression(Interleave(ds, c))
    ensures StripOperators(Interleave(ds, c)) == ds
    decreases |ds|
  {
    if |ds| == 1 {
      StripDigit(ds[0]);
    } else {
      var rest := Interleave(ds[1..], c[1..]);
      assert IsChoice(c[0]);
      InterleaveShape(ds[1..], c[1..]);
      RawPrepend(ds[0], c[0], rest);
      StripPrepend(ds[0], c[0], rest);
      assert ds == [ds[0]] + ds[1..];
    }
  }

  /** Deleting the operators from a digit, a choice and the rest keeps the digit and the
      rest's digits. */
  lemma StripPrepend(d: char, op: string, rest: string)
    requires IsDigit(d) && IsChoice(op)
    ensures StripOperators([d] + op + rest) == [d] + StripOperators(rest)
  {
    StripAppend([d] + op, rest);
    StripAppend([d], op);
    StripDigit(d);
    if op != "" {
      assert StripOperators(op) == StripOperators(op[1..]);
      assert op[1..] == [];
    }
  }

  lemma StripDigit(d: char)
    requires IsDigit(d)
    ensures StripOperators([d]) == [d]
  {
    assert StripOperators([d]) == [d] + StripOperators([]);
  }

  /** Every generated expression is a raw expression whose digits, read with the operators
      deleted, are the input digits in order. */
  lemma ExpressionsShape(digits: string, e: string)
    requires |digits| >= 1 && AllDigits(digits) && e in Expressions(digits)
    ensures IsRawExpression(e)
    ensures StripOperators(e) == digits
  {
    ExpressionsMembership(digits, e);
    var c :| |c| == |digits| - 1 && ValidChoices(c) && e == Interleave(digits, c);
    InterleaveShape(digits, c);
  }
}

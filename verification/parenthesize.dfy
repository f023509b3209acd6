/**
  The bracketing generator of Euler259.cpp (`generateAllParentheses`): a raw expression is
  split at every operator, both sides are bracketed recursively, and every pair of results
  is joined as `(left op right)`. The bracketings of a raw expression are exactly the
  renderings of the binary trees whose flat text is that expression.
 */
module Parenthesize {
  import opened Decimal
  import opened Operators
  import opened ExprTree
  import opened Evaluator
  import opened Generator
  import opened Numbers

  /** The base-case test of the source: some character is one of the four operators. */
  predicate HasOperator(e: string) {
    exists k :: 0 <= k < |e| && IsOperator(e[k])
  }

  /** The set the source returns. Text without an operator is its own only bracketing;
      otherwise every character that is not a digit is taken as the root operator. */
  function Parens(e: string): set<string>
    decreases |e|
  {
    if !HasOperator(e) then {e}
    else
      set i, l, r | 0 <= i < |e| && !IsDigit(e[i]) && l in Parens(e[..i]) && r in Parens(e[i + 1..])
        :: "(" + l + [e[i]] + r + ")"
  }

  // ---------------------------------------------------------------------------
  // Every tree over the expression is produced

  lemma YieldOfLeafHasNoOperator(d: string)
    requires AllDigits(d)
    ensures !HasOperator(d)
  {
  }

  /** The rendering of every well-formed tree is among the bracketings of its flat text. */
  lemma {:induction false} RenderInParens(t: Tree)
    requires WellFormed(t)
    ensures Render(t) in Parens(Yield(t))
  {
    match t
    case Leaf(d) =>
      YieldOfLeafHasNoOperator(d);
    case Node(l, o, r) =>
      var e := Yield(t);
      var i := |Yield(l)|;
      assert e == Yield(l) + [o] + Yield(r);
      assert e[i] == o;
      assert e[..i] == Yield(l);
      assert e[i + 1..] == Yield(r);
      assert HasOperator(e);
      RenderInParens(l);
      RenderInParens(r);
      assert !IsDigit(e[i]);
      assert Render(t) == "(" + Render(l) + [e[i]] + Render(r) + ")";
  }

  // ---------------------------------------------------------------------------
  // Every bracketing of a raw expression renders a tree over it

  /** The text before an operator of a raw expression is itself a raw expression. */
  lemma RawLeftPart(e: string, i: nat)
    requires IsRawExpression(e) && i < |e| && !IsDigit(e[i])
    ensures IsRawExpression(e[..i])
  {
    assert IsOperator(e[i]);
    assert i > 0 && !IsOperator(e[i - 1]);
  }

  /** The text after an operator of a raw expression is itself a raw expression. */
  lemma RawRightPart(e: string, i: nat)
    requires IsRawExpression(e) && i < |e| && !IsDigit(e[i])
    ensures IsRawExpression(e[i + 1..])
  {
    assert IsOperator(e[i]);
    assert i < |e| - 1;
    var s := e[i + 1..];
    assert forall k :: 0 <= k < |s| ==> s[k] == e[i + 1 + k];
  }

  lemma SplitAround(e: string, i: nat)
    requires i < |e|
    ensures e == e[..i] + [e[i]] + e[i + 1..]
  {
  }

  lemma RawWithoutOperatorIsLiteral(e: string)
    requires IsRawExpression(e) && !HasOperator(e)
    ensures AllDigits(e)
  {
    forall k | 0 <= k < |e|
      ensures IsDigit(e[k])
    {
      assert !IsOperator(e[k]);
    }
  }

  /** Each bracketing of a raw expression is the rendering of a well-formed tree whose
      flat text is that expression. */
  lemma {:induction false} ParseParens(e: string, p: string) returns (t: Tree)
    requires IsRawExpression(e) && p in Parens(e)
    ensures WellFormed(t) && Yield(t) == e && Render(t) == p
    decreases |e|
  {
    if !HasOperator(e) {
      RawWithoutOperatorIsLiteral(e);
      t := Leaf(e);
    } else {
      var i, l, r :| 0 <= i < |e| && !IsDigit(e[i]) && l in Parens(e[..i]) && r in Parens(e[i + 1..])
        && p == "(" + l + [e[i]] + r + ")";
      RawLeftPart(e, i);
      RawRightPart(e, i);
      var lt := ParseParens(e[..i], l);
      var rt := ParseParens(e[i + 1..], r);
      t := Node(lt, e[i], rt);
      SplitAround(e, i);
    }
  }

  /** The bracketings of a raw expression are exactly the renderings of the well-formed
      trees that flatten to it. */
  lemma ParensCharacterization(e: string, p: string)
    requires IsRawExpression(e)
    ensures p in Parens(e) <==> exists t :: WellFormed(t) && Yield(t) == e && Render(t) == p
  {
    if p in Parens(e) {
      var t := ParseParens(e, p);
    }
    if exists t :: WellFormed(t) && Yield(t) == e && Render(t) == p {
      var t :| WellFormed(t) && Yield(t) == e && Render(t) == p;
      RenderInParens(t);
    }
  }

  /** Every bracketing the search evaluates has the value of a tree over the raw expression,
      whichever precedence rule the evaluator applies. */
  lemma ParenthesizedValue(e: string, p: string) returns (t: Tree)
    requires IsRawExpression(e) && p in Parens(e)
    ensures WellFormed(t) && Yield(t) == e
    ensures Evaluate(p) == TreeValue(t) && EvaluateAsWritten(p) == TreeValue(t)
  {
    t := ParseParens(e, p);
    RenderedInputsIgnorePrecedence(t);
  }

  /** A raw expression has at least one bracketing. */
  lemma {:induction false} ParensNonEmpty(e: string) returns (p: string)
    requires IsRawExpression(e)
    ensures p in Parens(e)
    decreases |e|
  {
    if !HasOperator(e) {
      p := e;
    } else {
      var i :| 0 <= i < |e| && IsOperator(e[i]);
      RawLeftPart(e, i);
      RawRightPart(e, i);
      var l := ParensNonEmpty(e[..i]);
      var r := ParensNonEmpty(e[i + 1..]);
      p := "(" + l + [e[i]] + r + ")";
    }
  }

  // ---------------------------------------------------------------------------
  // The text of a bracketing

  /** The text with every `(` and `)` deleted. */
  function EraseParens(s: string): string
    decreases |s|
  {
    if s == [] then []
    else (if s[0] == '(' || s[0] == ')' then [] else [s[0]]) + EraseParens(s[1..])
  }

  function Count(s: string, c: char): nat
    decreases |s|
  {
    if s == [] then 0 else (if s[0] == c then 1 else 0) + Count(s[1..], c)
  }

  function CountOperators(s: string): nat
    decreases |s|
  {
    if s == [] then 0 else (if IsOperator(s[0]) then 1 else 0) + CountOperators(s[1..])
  }

  lemma {:induction false} TextAppend(a: string, b: string)
    ensures EraseParens(a + b) == EraseParens(a) + EraseParens(b)
    ensures Count(a + b, '(') == Count(a, '(') + Count(b, '(')
    ensures Count(a + b, ')') == Count(a, ')') + Count(b, ')')
    ensures CountOperators(a + b) == CountOperators(a) + CountOperators(b)
    decreases |a|
  {
    if a == [] {
      assert a + b == b;
    } else {
      assert (a + b)[1..] == a[1..] + b;
      TextAppend(a[1..], b);
    }
  }

  lemma {:induction false} LiteralText(d: string)
    requires AllDigits(d)
    ensures EraseParens(d) == d && Count(d, '(') == 0 && Count(d, ')') == 0 && CountOperators(d) == 0
    decreases |d|
  {
    if d != [] {
      assert d == [d[0]] + d[1..];
      LiteralText(d[1..]);
    }
  }

  lemma CharText(c: char)
    ensures EraseParens([c]) == (if c == '(' || c == ')' then [] else [c])
    ensures Count([c], '(') == (if c == '(' then 1 else 0) && Count([c], ')') == (if c == ')' then 1 else 0)
    ensures CountOperators([c]) == (if IsOperator(c) then 1 else 0)
  {
    assert [c][1..] == [];
  }

  /** The rendering of a tree, with its parentheses erased, is its flat text. */
  lemma {:induction false} RenderErase(t: Tree)
    requires WellFormed(t)
    ensures EraseParens(Render(t)) == Yield(t)
  {
    match t
    case Leaf(d) =>
      LiteralText(d);
    case Node(l, o, r) =>
      RenderErase(l);
      RenderErase(r);
      var rl, rr := Render(l), Render(r);
      TextAppend("(" + rl + [o] + rr, ")");
      TextAppend("(" + rl + [o], rr);
      TextAppend("(" + rl, [o]);
      TextAppend("(", rl);
      CharText('(');
      CharText(')');
      CharText(o);
  }

  /** The rendering of a tree holds one `(` and one `)` per operator. */
  lemma {:induction false} RenderCounts(t: Tree)
    requires WellFormed(t)
    ensures Count(Render(t), '(') == OperatorCount(t) == Count(Render(t), ')')
  {
    match t
    case Leaf(d) =>
      LiteralText(d);
    case Node(l, o, r) =>
      RenderCounts(l);
      RenderCounts(r);
      var rl, rr := Render(l), Render(r);
      TextAppend("(" + rl + [o] + rr, ")");
      TextAppend("(" + rl + [o], rr);
      TextAppend("(" + rl, [o]);
      TextAppend("(", rl);
      CharText('(');
      CharText(')');
      CharText(o);
  }

  /** A tree has as many inner nodes as its flat text has operators. */
  lemma {:induction false} YieldOperators(t: Tree)
    requires WellFormed(t)
    ensures CountOperators(Yield(t)) == OperatorCount(t)
  {
    match t
    case Leaf(d) =>
      LiteralText(d);
    case Node(l, o, r) =>
      YieldOperators(l);
      YieldOperators(r);
      TextAppend(Yield(l) + [o], Yield(r));
      TextAppend(Yield(l), [o]);
      CharText(o);
  }

  /** A bracketing of a raw expression with k operators gives the expression back once its
      parentheses are erased, holds exactly k of each parenthesis, and is wrapped in a pair
      unless the expression is a single literal. */
  lemma ParensText(e: string, p: string)
    requires IsRawExpression(e) && p in Parens(e)
    ensures EraseParens(p) == e
    ensures Count(p, '(') == CountOperators(e) == Count(p, ')')
    ensures HasOperator(e) ==> p[0] == '(' && p[|p| - 1] == ')'
  {
    var t := ParseParens(e, p);
    RenderErase(t);
    RenderCounts(t);
    YieldOperators(t);
    if HasOperator(e) && t.Leaf? {
      YieldOfLeafHasNoOperator(t.digits);
    }
  }

  /** Text without an operator is its own only bracketing. */
  lemma ParensOfLiteral(e: string, p: string)
    requires AllDigits(e)
    ensures p in Parens(e) <==> p == e
  {
    YieldOfLeafHasNoOperator(e);
  }

  // ---------------------------------------------------------------------------
  // How many bracketings

  /** The Catalan numbers: C(0) = 1 and C(k + 1) = sum over a <= k of C(a) C(k - a). */
  function Catalan(k: nat): nat
    decreases k, k + 1
  {
    if k == 0 then 1 else CatalanSum(k - 1, k)
  }

  /** The sum over a < i of C(a) C(m - a). */
  function CatalanSum(m: nat, i: nat): nat
    requires i <= m + 1
    decreases m + 1, i
  {
    if i == 0 then 0 else CatalanSum(m, i - 1) + CatalanPair(i - 1, m - (i - 1))
  }

  /** C(a) C(b): the bracketings with a left subtree of a operators and a right one of b. */
  function CatalanPair(a: nat, b: nat): nat
    decreases a + b + 1, 0
  {
    Catalan(a) * Catalan(b)
  }

  /** Every pair of a left and a right bracketing, joined as `(left op right)`. */
  function Join(ls: set<string>, o: char, rs: set<string>): set<string> {
    set l, r | l in ls && r in rs :: "(" + l + [o] + r + ")"
  }

  /** The bracketings whose root operator is the one at position i. */
  function RootedAt(e: string, i: nat): set<string>
    requires i < |e|
  {
    Join(Parens(e[..i]), e[i], Parens(e[i + 1..]))
  }

  /** The bracketings whose root operator lies before position n. */
  function RootedBefore(e: string, n: nat): set<string>
    requires n <= |e|
  {
    if n == 0 then {}
    else RootedBefore(e, n - 1) + (if IsDigit(e[n - 1]) then {} else RootedAt(e, n - 1))
  }

  /** A raw expression with k operators has at most C(k) bracketings, the number of binary
      trees with k inner nodes. */
  lemma {:induction false} ParensAtMostCatalan(e: string)
    requires IsRawExpression(e)
    ensures |Parens(e)| <= Catalan(CountOperators(e))
    decreases |e|, |e| + 1, 0
  {
    if !HasOperator(e) {
      RawWithoutOperatorIsLiteral(e);
      LiteralText(e);
    } else {
      OperatorCounted(e);
      OperatorsBeforeCount(e, |e|);
      assert e[..|e|] == e;
      ParensRooted(e, |e|);
      RootedBeforeSize(e, |e|);
      RootBoundSum(e, |e|);
      SubsetSize(Parens(e), RootedBefore(e, |e|));
    }
  }

  lemma {:induction false} SubsetSize(a: set<string>, b: set<string>)
    requires a <= b
    ensures |a| <= |b|
    decreases |b|
  {
    if a != {} {
      var x := PickText(a);
      SubsetSize(a - {x}, b - {x});
    }
  }

  /** Text with an operator counts at least one. */
  lemma {:induction false} OperatorCounted(e: string)
    requires HasOperator(e)
    ensures CountOperators(e) >= 1
    decreases |e|
  {
    if !IsOperator(e[0]) {
      var k :| 0 <= k < |e| && IsOperator(e[k]);
      assert IsOperator(e[1..][k - 1]);
      OperatorCounted(e[1..]);
    }
  }

  /** Every bracketing of text with an operator has its root at some non-digit. */
  lemma ParensRooted(e: string, n: nat)
    requires HasOperator(e) && n == |e|
    ensures Parens(e) <= RootedBefore(e, n)
  {
    forall p | p in Parens(e)
      ensures p in RootedBefore(e, n)
    {
      var i, l, r :| 0 <= i < |e| && !IsDigit(e[i]) && l in Parens(e[..i]) && r in Parens(e[i + 1..])
        && p == "(" + l + [e[i]] + r + ")";
      assert p in RootedAt(e, i);
      RootedAtIncluded(e, i, n);
    }
  }

  lemma {:induction false} RootedAtIncluded(e: string, i: nat, n: nat)
    requires i < n <= |e| && !IsDigit(e[i])
    ensures RootedAt(e, i) <= RootedBefore(e, n)
    decreases n
  {
    if i < n - 1 {
      RootedAtIncluded(e, i, n - 1);
    }
  }

  /** The number of operators among the first n characters, counted from the front. */
  function OperatorsBefore(e: string, n: nat): nat
    requires n <= |e|
  {
    if n == 0 then 0 else OperatorsBefore(e, n - 1) + (if IsOperator(e[n - 1]) then 1 else 0)
  }

  lemma {:induction false} OperatorsBeforeCount(e: string, n: nat)
    requires n <= |e|
    ensures OperatorsBefore(e, n) == CountOperators(e[..n])
  {
    if n == 0 {
      assert e[..0] == [];
    } else {
      OperatorsBeforeCount(e, n - 1);
      PrefixCounts(e, n - 1);
      assert e[..n - 1 + 1] == e[..n];
    }
  }

  /** An operator at position i splits the operator count into the ones before it, itself
      and the ones after it. */
  lemma OperatorSplit(e: string, i: nat)
    requires i < |e| && IsOperator(e[i])
    ensures OperatorsBefore(e, i) == CountOperators(e[..i])
    ensures CountOperators(e) == OperatorsBefore(e, i) + 1 + CountOperators(e[i + 1..])
  {
    OperatorsBeforeCount(e, i);
    PrefixCounts(e, i);
  }

  /** The bracketings rooted before position n number at most the sum of C(a) C(k - 1 - a)
      over the operators before n, a being the number of operators to the left of each. */
  lemma {:induction false} RootedBeforeSize(e: string, n: nat)
    requires IsRawExpression(e) && n <= |e|
    ensures |RootedBefore(e, n)| <= RootBound(e, n)
    decreases |e|, n, 2
  {
    if n > 0 {
      RootedBeforeSize(e, n - 1);
      if IsDigit(e[n - 1]) {
        RootedBeforeDigit(e, n);
      } else {
        RootedBeforeGrows(e, n);
      }
    }
  }

  /** The sum of C(a) C(k - 1 - a) over the operators before position n, for a operators to
      the left of each and k in all. */
  function RootBound(e: string, n: nat): nat
    requires n <= |e|
  {
    if n == 0 then 0 else RootBound(e, n - 1) + (if IsOperator(e[n - 1]) then PairAt(e, n - 1) else 0)
  }

  /** C(a) C(k - 1 - a) for the a operators before position i and k in all. */
  function PairAt(e: string, i: nat): nat
    requires i < |e|
  {
    var a, k := OperatorsBefore(e, i), OperatorsBefore(e, |e|);
    if a < k then CatalanPair(a, k - 1 - a) else 0
  }

  /** Summed over every operator, the bound is C(k). */
  lemma {:induction false} RootBoundSum(e: string, n: nat)
    requires n <= |e| && OperatorsBefore(e, |e|) >= 1
    ensures OperatorsBefore(e, n) <= OperatorsBefore(e, |e|)
    ensures RootBound(e, n) == CatalanSum(OperatorsBefore(e, |e|) - 1, OperatorsBefore(e, n))
  {
    OperatorsBeforeGrow(e, n);
    if n > 0 {
      RootBoundSum(e, n - 1);
      if IsOperator(e[n - 1]) {
        CatalanStep(OperatorsBefore(e, |e|) - 1, OperatorsBefore(e, n - 1));
      }
    }
  }

  /** The count from the front only grows. */
  lemma {:induction false} OperatorsBeforeGrow(e: string, n: nat)
    requires n <= |e|
    ensures OperatorsBefore(e, n) <= OperatorsBefore(e, |e|)
    decreases |e| - n
  {
    if n < |e| {
      OperatorsBeforeGrow(e, n + 1);
    }
  }

  /** The operator at position n - 1 adds at most C(c) C(k - 1 - c) bracketings, for c operators
      before it out of k. */
  lemma {:induction false} RootedBeforeGrows(e: string, n: nat)
    requires IsRawExpression(e) && 1 <= n <= |e| && !IsDigit(e[n - 1])
    ensures OperatorsBefore(e, n - 1) < OperatorsBefore(e, |e|)
    ensures |RootedBefore(e, n)| <= |RootedBefore(e, n - 1)|
      + CatalanPair(OperatorsBefore(e, n - 1), OperatorsBefore(e, |e|) - 1 - OperatorsBefore(e, n - 1))
    decreases |e|, n, 1
  {
    var i := n - 1;
    assert IsOperator(e[i]);
    RootedBeforeNext(e, n);
    RootedAtSize(e, i);
    OperatorTotals(e, i);
  }

  /** The operator counts on either side of an operator, from the front-to-back count. */
  lemma OperatorTotals(e: string, i: nat)
    requires i < |e| && IsOperator(e[i])
    ensures CountOperators(e[..i]) == OperatorsBefore(e, i)
    ensures OperatorsBefore(e, i) < OperatorsBefore(e, |e|)
    ensures CountOperators(e[i + 1..]) == OperatorsBefore(e, |e|) - 1 - OperatorsBefore(e, i)
  {
    OperatorSplit(e, i);
    OperatorsBeforeCount(e, |e|);
    assert e[..|e|] == e;
  }

  lemma RootedBeforeDigit(e: string, n: nat)
    requires 1 <= n <= |e| && IsDigit(e[n - 1])
    ensures RootedBefore(e, n) == RootedBefore(e, n - 1)
    ensures OperatorsBefore(e, n) == OperatorsBefore(e, n - 1)
  {
  }

  lemma RootedBeforeNext(e: string, n: nat)
    requires 1 <= n <= |e| && !IsDigit(e[n - 1])
    ensures |RootedBefore(e, n)| <= |RootedBefore(e, n - 1)| + |RootedAt(e, n - 1)|
  {
    UnionSize(RootedBefore(e, n - 1), RootedAt(e, n - 1));
  }

  /** How the operator count of a prefix grows by one character, and how it splits the
      whole count. */
  lemma PrefixCounts(e: string, i: nat)
    requires i < |e|
    ensures CountOperators(e[..i + 1]) == CountOperators(e[..i]) + (if IsOperator(e[i]) then 1 else 0)
    ensures CountOperators(e) == CountOperators(e[..i + 1]) + CountOperators(e[i + 1..])
  {
    assert e[..i + 1] == e[..i] + [e[i]];
    TextAppend(e[..i], [e[i]]);
    CharText(e[i]);
    assert e == e[..i + 1] + e[i + 1..];
    TextAppend(e[..i + 1], e[i + 1..]);
  }

  lemma CatalanStep(m: nat, c: nat)
    requires c <= m
    ensures CatalanSum(m, c + 1) == CatalanSum(m, c) + CatalanPair(c, m - c)
  {
  }

  /** The bracketings rooted at operator i number at most C(a) C(b), for a operators to
      its left and b to its right. */
  lemma {:induction false} RootedAtSize(e: string, i: nat)
    requires IsRawExpression(e) && i < |e| && IsOperator(e[i])
    ensures |RootedAt(e, i)| <= CatalanPair(CountOperators(e[..i]), CountOperators(e[i + 1..]))
    decreases |e|, 0, 0
  {
    var left, right := e[..i], e[i + 1..];
    RawLeftPart(e, i);
    RawRightPart(e, i);
    ParensAtMostCatalan(left);
    ParensAtMostCatalan(right);
    JoinSize(Parens(left), e[i], Parens(right));
    MulBoth(|Parens(left)|, Catalan(CountOperators(left)), |Parens(right)|, Catalan(CountOperators(right)));
  }

  lemma MulBoth(a: nat, x: nat, b: nat, y: nat)
    requires a <= x && b <= y
    ensures a * b <= x * y
  {
    MulMonotone(a, x, b);
    MulMonotone(b, y, x);
  }

  /** Joining ls with rs gives at most |ls| |rs| texts. */
  lemma {:induction false} JoinSize(ls: set<string>, o: char, rs: set<string>)
    ensures |Join(ls, o, rs)| <= |ls| * |rs|
    decreases |ls|
  {
    if ls != {} {
      var l := PickText(ls);
      var rest := ls - {l};
      JoinSize(rest, o, rs);
      JoinOneSize(l, o, rs);
      JoinSplit(ls, l, o, rs);
      UnionSize(Join(rest, o, rs), Join({l}, o, rs));
      assert |ls| == |rest| + 1;
      SizeStep(|Join(ls, o, rs)|, |Join(rest, o, rs)|, |Join({l}, o, rs)|, |rest|, |rs|, |ls|);
    }
  }

  lemma UnionSize(a: set<string>, b: set<string>)
    ensures |a + b| <= |a| + |b|
  {
  }

  lemma SizeStep(x: nat, y: nat, z: nat, a: nat, b: nat, c: nat)
    requires x <= y + z && y <= a * b && z <= b && c == a + 1
    ensures x <= c * b
  {
  }

  lemma JoinSplit(ls: set<string>, l: string, o: char, rs: set<string>)
    requires l in ls
    ensures Join(ls, o, rs) == Join(ls - {l}, o, rs) + Join({l}, o, rs)
  {
    forall p | p in Join(ls, o, rs)
      ensures p in Join(ls - {l}, o, rs) + Join({l}, o, rs)
    {
      var l', r' :| l' in ls && r' in rs && p == "(" + l' + [o] + r' + ")";
      if l' == l {
        assert p in Join({l}, o, rs);
      } else {
        assert p in Join(ls - {l}, o, rs);
      }
    }
  }

  /** One left bracketing joined with rs gives at most |rs| texts. */
  lemma {:induction false} JoinOneSize(l: string, o: char, rs: set<string>)
    ensures |Join({l}, o, rs)| <= |rs|
    decreases |rs|
  {
    if rs != {} {
      var r := PickText(rs);
      JoinOneSize(l, o, rs - {r});
      JoinOneSplit(l, o, rs, r);
    }
  }

  lemma JoinOneSplit(l: string, o: char, rs: set<string>, r: string)
    requires r in rs
    ensures Join({l}, o, rs) == Join({l}, o, rs - {r}) + {"(" + l + [o] + r + ")"}
  {
    forall p | p in Join({l}, o, rs)
      ensures p in Join({l}, o, rs - {r}) + {"(" + l + [o] + r + ")"}
    {
      var l', r' :| l' in {l} && r' in rs && p == "(" + l' + [o] + r' + ")";
      if r' != r {
        assert l' == l && r' in rs - {r};
        assert p in Join({l}, o, rs - {r});
      }
    }
  }

  lemma PickText(s: set<string>) returns (x: string)
    requires s != {}
    ensures x in s
  {
    x :| x in s;
  }
}

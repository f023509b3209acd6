/**
  The two-stack shift-reduce evaluator of Euler259.cpp (`evaluateExpression`), written as a
  step machine over the characters of the expression. The machine keeps the operand stack,
  the operator stack and the literal being accumulated; a stack's top is its last element.
 */
module Evaluator {
  import opened Decimal
  import opened Operators
  import opened ExprTree

  /** The test that decides whether a pending operator is reduced before an incoming one.
      `AsWritten` is the source's condition, in which `&&` binds tighter than `||`: every
      incoming `+`, `-` or `*` reduces, and an incoming `/` reduces only after `*` or `/`.
      `Conventional` is the evidently intended rule: `*` and `/` bind tighter than `+` and `-`,
      and operators of equal precedence associate to the left. */
  datatype Precedence = AsWritten | Conventional

  predicate ReducesBefore(rule: Precedence, incoming: char, top: char) {
    match rule
    case AsWritten =>
      (incoming == '+' || incoming == '-') || (incoming == '*' || (incoming == '/' && (top == '*' || top == '/')))
    case Conventional =>
      (incoming == '+' || incoming == '-') || ((incoming == '*' || incoming == '/') && (top == '*' || top == '/'))
  }

  datatype Machine = Machine(values: seq<real>, ops: seq<char>, num: nat, hasNum: bool)

  datatype State = Running(m: Machine) | Stopped(fault: Fault)

  const Start := Machine([], [], 0, false)

  function Top(s: seq<char>): char
    requires |s| > 0
  {
    s[|s| - 1]
  }

  /** Pushes the accumulated literal, if there is one, onto the operand stack. */
  function Flushed(m: Machine): Machine {
    if m.hasNum then m.(values := m.values + [m.num as real], num := 0, hasNum := false) else m
  }

  /** Pops two operands and one operator and pushes the operator's result. */
  function ReduceTop(m: Machine): (s: State)
    requires |m.ops| > 0
    ensures s.Running? ==> s.m.ops == m.ops[..|m.ops| - 1] && |s.m.values| == |m.values| - 1
  {
    if |m.values| < 2 then Stopped(StackUnderflow)
    else
      var n := |m.values|;
      match ApplyOperator(m.values[n - 2], m.values[n - 1], Top(m.ops))
      case Err(f) => Stopped(f)
      case Ok(v) => Running(m.(values := m.values[..n - 2] + [v], ops := m.ops[..|m.ops| - 1]))
  }

  /** On `)`: reduce down to the nearest `(` and pop it. */
  function CloseGroup(m: Machine): State
    decreases |m.ops|
  {
    if |m.ops| == 0 then Stopped(StackUnderflow)
    else if Top(m.ops) == '(' then Running(m.(ops := m.ops[..|m.ops| - 1]))
    else
      match ReduceTop(m)
      case Stopped(f) => Stopped(f)
      case Running(m') => CloseGroup(m')
  }

  /** Before pushing operator `ch`: reduce while the top operator is not `(` and the rule fires. */
  function ReduceFor(rule: Precedence, m: Machine, ch: char): State
    decreases |m.ops|
  {
    if |m.ops| == 0 || Top(m.ops) == '(' || !ReducesBefore(rule, ch, Top(m.ops)) then Running(m)
    else
      match ReduceTop(m)
      case Stopped(f) => Stopped(f)
      case Running(m') => ReduceFor(rule, m', ch)
  }

  /** After the last character: reduce until the operator stack is empty. */
  function Drain(m: Machine): State
    decreases |m.ops|
  {
    if |m.ops| == 0 then Running(m)
    else
      match ReduceTop(m)
      case Stopped(f) => Stopped(f)
      case Running(m') => Drain(m')
  }

  /** One iteration of the character loop; `isLast` says whether `ch` ends the expression. */
  function Step(rule: Precedence, m: Machine, ch: char, isLast: bool): State {
    var m1 := if IsDigit(ch) then m.(num := m.num * 10 + DigitValue(ch), hasNum := true) else m;
    if IsDigit(ch) && !isLast then Running(m1)
    else
      var m2 := Flushed(m1);
      if ch == '(' then Running(m2.(ops := m2.ops + [ch]))
      else if ch == ')' then CloseGroup(m2)
      else if IsOperator(ch) then
        match ReduceFor(rule, m2, ch)
        case Stopped(f) => Stopped(f)
        case Running(m3) => Running(m3.(ops := m3.ops + [ch]))
      else Running(m2)
  }

  /** The machine after the characters of `s`; the last of them is the end of the
      expression when `final` holds. */
  function Run(rule: Precedence, m: Machine, s: string, final: bool): State
    decreases |s|
  {
    if s == [] then Running(m)
    else
      match Run(rule, m, s[..|s| - 1], false)
      case Stopped(f) => Stopped(f)
      case Running(m') => Step(rule, m', s[|s| - 1], final)
  }

  function EvaluateWith(rule: Precedence, expr: string): Result<real> {
    match Run(rule, Start, expr, true)
    case Stopped(f) => Err(f)
    case Running(m) =>
      match Drain(m)
      case Stopped(f) => Err(f)
      case Running(m') =>
        if |m'.values| == 0 then Err(StackUnderflow) else Ok(m'.values[|m'.values| - 1])
  }

  /** `evaluateExpression` exactly as written. */
  function EvaluateAsWritten(expr: string): Result<real> {
    EvaluateWith(AsWritten, expr)
  }

  /** `evaluateExpression` with the precedence test corrected; on every input the search
      feeds it, it agrees with the code as written (`RenderedInputsIgnorePrecedence`). */
  function Evaluate(expr: string): Result<real> {
    EvaluateWith(Conventional, expr)
  }

  // ---------------------------------------------------------------------------
  // Composition

  lemma {:induction false} RunAppend(rule: Precedence, m: Machine, a: string, b: string, final: bool)
    requires |b| > 0
    ensures Run(rule, m, a + b, final) ==
      match Run(rule, m, a, false)
      case Stopped(f) => Stopped(f)
      case Running(m') => Run(rule, m', b, final)
    decreases |b|
  {
    assert (a + b)[..|a + b| - 1] == a + b[..|b| - 1];
    if |b| > 1 {
      RunAppend(rule, m, a, b[..|b| - 1], false);
    } else {
      assert a + b[..|b| - 1] == a;
    }
  }

  /** A run of digits only accumulates the literal. */
  lemma {:induction false} RunDigits(rule: Precedence, m: Machine, s: string)
    requires AllDigits(s) && m.num == 0 && !m.hasNum
    ensures Run(rule, m, s, false) == Running(m.(num := ValueOf(s), hasNum := |s| > 0))
    decreases |s|
  {
    if s != [] {
      RunDigits(rule, m, s[..|s| - 1]);
    }
  }

  /** Whether a character ends the expression matters only for digits. */
  lemma StepNonDigitIgnoresEnd(rule: Precedence, m: Machine, ch: char)
    requires !IsDigit(ch)
    ensures Step(rule, m, ch, true) == Step(rule, m, ch, false)
  {
  }

  // ---------------------------------------------------------------------------
  // Rendered trees

  /** The effect of reading one rendered operand: either the evaluation stops with the
      tree's fault, or, once the pending literal is pushed, exactly the tree's value has
      been added to the operand stack and nothing else has changed. */
  predicate ReadsOperand(s: State, m: Machine, v: Result<real>) {
    match v
    case Err(f) => s == Stopped(f)
    case Ok(x) => s.Running? && Flushed(s.m) == m.(values := m.values + [x])
  }

  lemma {:induction false} OperandRun(rule: Precedence, m: Machine, t: Tree)
    requires WellFormed(t) && m.num == 0 && !m.hasNum
    ensures ReadsOperand(Run(rule, m, Render(t), false), m, TreeValue(t))
    ensures t.Node? ==> Run(rule, m, Render(t), false).Running? ==> !Run(rule, m, Render(t), false).m.hasNum
    decreases t
  {
    match t
    case Leaf(d) =>
      RunDigits(rule, m, d);
    case Node(l, o, r) =>
      NodeRun(rule, m, l, o, r, false);
  }

  /** The machine `m` with `v` pushed on its operand stack, or the fault that stopped it. */
  function Pushed(v: Result<real>, m: Machine): State {
    match v
    case Err(f) => Stopped(f)
    case Ok(x) => Running(m.(values := m.values + [x]))
  }

  /** Reading one more character after `p`. */
  lemma RunSnoc(rule: Precedence, m: Machine, p: string, c: char, final: bool)
    ensures Run(rule, m, p, false).Stopped? ==> Run(rule, m, p + [c], final) == Run(rule, m, p, false)
    ensures Run(rule, m, p, false).Running? ==>
      Run(rule, m, p + [c], final) == Step(rule, Run(rule, m, p, false).m, c, final)
  {
    assert (p + [c])[..|p + [c]| - 1] == p;
  }

  /** An operator read right after `(` and an operand is pushed without any reduction. */
  lemma OperatorAfterOperand(rule: Precedence, m: Machine, x: Machine, a: real, o: char)
    requires IsOperator(o) && m.num == 0 && !m.hasNum
    requires Flushed(x) == Machine(m.values + [a], m.ops + ['('], 0, false)
    ensures Step(rule, x, o, false) == Running(Machine(m.values + [a], m.ops + ['(', o], 0, false))
  {
    assert ReduceFor(rule, Flushed(x), o) == Running(Flushed(x));
    assert m.ops + ['('] + [o] == m.ops + ['(', o];
  }

  /** The `)` that closes `(a o b)` applies `o` once and pops the `(`. */
  lemma CloseAfterOperands(rule: Precedence, m: Machine, y: Machine, a: real, o: char, b: real, final: bool)
    requires IsOperator(o) && m.num == 0 && !m.hasNum
    requires Flushed(y) == Machine(m.values + [a, b], m.ops + ['(', o], 0, false)
    ensures Step(rule, y, ')', final) == Pushed(ApplyOperator(a, b, o), m)
  {
    var m3 := Flushed(y);
    assert Step(rule, y, ')', final) == CloseGroup(m3);
    assert m3.values[..|m3.values| - 2] == m.values;
    assert m3.ops[..|m3.ops| - 1] == m.ops + ['('];
    assert (m.ops + ['('])[..|m.ops|] == m.ops;
    match ApplyOperator(a, b, o)
    case Err(f) =>
      assert ReduceTop(m3) == Stopped(f);
    case Ok(v) =>
      var m4 := Machine(m.values + [v], m.ops + ['('], 0, false);
      assert ReduceTop(m3) == Running(m4);
      assert CloseGroup(m4) == Running(m.(values := m.values + [v]));
  }

  lemma {:induction false} NodeRun(rule: Precedence, m: Machine, l: Tree, o: char, r: Tree, final: bool)
    requires WellFormed(Node(l, o, r)) && m.num == 0 && !m.hasNum
    ensures Run(rule, m, Render(Node(l, o, r)), final) == Pushed(TreeValue(Node(l, o, r)), m)
    decreases Node(l, o, r), 0
  {
    OperandRun(rule, OpenedGroup(m), l);
    if TreeValue(l).Ok? {
      OperandRun(rule, AfterLeft(m, TreeValue(l).value, o), r);
    }
    NodeSteps(rule, m, l, o, r, final);
  }

  /** The machine after `(`. */
  function OpenedGroup(m: Machine): Machine {
    m.(ops := m.ops + ['('])
  }

  /** The machine after `(`, a left operand of value `a` and the operator `o`. */
  function AfterLeft(m: Machine, a: real, o: char): Machine {
    Machine(m.values + [a], m.ops + ['(', o], 0, false)
  }

  /** The steps of `NodeRun` around the two operands, given what reading each operand does. */
  lemma NodeSteps(rule: Precedence, m: Machine, l: Tree, o: char, r: Tree, final: bool)
    requires WellFormed(Node(l, o, r)) && m.num == 0 && !m.hasNum
    requires ReadsOperand(Run(rule, OpenedGroup(m), Render(l), false), OpenedGroup(m), TreeValue(l))
    requires TreeValue(l).Ok? ==>
      ReadsOperand(Run(rule, AfterLeft(m, TreeValue(l).value, o), Render(r), false), AfterLeft(m, TreeValue(l).value, o), TreeValue(r))
    ensures Run(rule, m, Render(Node(l, o, r)), final) == Pushed(TreeValue(Node(l, o, r)), m)
  {
    var L, R := Render(l), Render(r);
    var p1 := "(" + L;
    var p2 := p1 + [o];
    var p3 := p2 + R;
    assert p3 + ")" == Render(Node(l, o, r));
    var m1 := OpenedGroup(m);
    assert Run(rule, m, "(", false) == Running(m1) by {
      RunSnoc(rule, m, [], '(', false);
      assert [] + ['('] == "(";
    }
    RunAppend(rule, m, "(", L, false);
    RunSnoc(rule, m, p1, o, false);
    RunAppend(rule, m, p2, R, false);
    RunSnoc(rule, m, p3, ')', final);
    match TreeValue(l)
    case Err(f) =>
    case Ok(a) =>
      var x := Run(rule, m1, L, false).m;
      OperatorAfterOperand(rule, m, x, a, o);
      var m2 := AfterLeft(m, a, o);
      match TreeValue(r)
      case Err(f) =>
      case Ok(b) =>
        var y := Run(rule, m2, R, false).m;
        assert m.values + [a] + [b] == m.values + [a, b];
        CloseAfterOperands(rule, m, y, a, o, b, final);
  }

  /** Evaluating the rendering of any well-formed tree yields the tree's value, whichever
      precedence rule the evaluator uses. */
  lemma {:induction false} EvaluateRender(rule: Precedence, t: Tree)
    requires WellFormed(t)
    ensures EvaluateWith(rule, Render(t)) == TreeValue(t)
  {
    match t
    case Leaf(d) =>
      var d' := d[..|d| - 1];
      assert AllDigits(d');
      RunDigits(rule, Start, d');
      assert ValueOf(d) == ValueOf(d') * 10 + DigitValue(d[|d| - 1]);
      assert Run(rule, Start, d, true) == Running(Machine([ValueOf(d) as real], [], 0, false));
    case Node(l, o, r) =>
      NodeRun(rule, Start, l, o, r, true);
  }

  /** The precedence defect of the source never shows on fully parenthesized input: there
      the code as written and the corrected rule compute the same outcome. */
  lemma RenderedInputsIgnorePrecedence(t: Tree)
    requires WellFormed(t)
    ensures EvaluateAsWritten(Render(t)) == Evaluate(Render(t)) == TreeValue(t)
  {
    EvaluateRender(AsWritten, t);
    EvaluateRender(Conventional, t);
  }

  // ---------------------------------------------------------------------------
  // Flat input: the precedence rule decides the grouping

  /** A literal that ends the expression is pushed as soon as its last digit is read. */
  lemma FinalLiteral(rule: Precedence, m: Machine, z: string)
    requires |z| >= 1 && AllDigits(z) && m.num == 0 && !m.hasNum
    ensures Run(rule, m, z, true) == Running(m.(values := m.values + [ValueOf(z) as real]))
  {
    var z' := z[..|z| - 1];
    assert AllDigits(z');
    RunDigits(rule, m, z');
  }

  /** The two ways to group `x o1 y o2 z`: `(x o1 y) o2 z` or `x o1 (y o2 z)`. */
  function Flat3Tree(leftFirst: bool, x: string, o1: char, y: string, o2: char, z: string): (t: Tree)
    requires |x| >= 1 && AllDigits(x) && |y| >= 1 && AllDigits(y) && |z| >= 1 && AllDigits(z)
    requires IsOperator(o1) && IsOperator(o2)
    ensures WellFormed(t) && Yield(t) == x + [o1] + y + [o2] + z
  {
    assert WellFormed(Leaf(x)) && WellFormed(Leaf(y)) && WellFormed(Leaf(z));
    if leftFirst then
      var l := Node(Leaf(x), o1, Leaf(y));
      assert WellFormed(l) && Yield(l) == x + [o1] + y;
      assert WellFormed(Node(l, o2, Leaf(z)));
      assert Yield(Node(l, o2, Leaf(z))) == x + [o1] + y + [o2] + z;
      Node(l, o2, Leaf(z))
    else
      var r := Node(Leaf(y), o2, Leaf(z));
      assert WellFormed(r) && Yield(r) == y + [o2] + z;
      assert x + [o1] + (y + [o2] + z) == x + [o1] + y + [o2] + z;
      assert WellFormed(Node(Leaf(x), o1, r));
      assert Yield(Node(Leaf(x), o1, r)) == x + [o1] + y + [o2] + z;
      Node(Leaf(x), o1, r)
  }

  /** Precedence levels of the conventional rule. */
  function Level(o: char): nat {
    if o == '*' || o == '/' then 2 else 1
  }

  /** The machine once `x o1 y o2` has been read. */
  function AfterTwoOperators(rule: Precedence, vx: real, o1: char, vy: real, o2: char): State {
    if ReducesBefore(rule, o2, o1) then
      match ApplyOperator(vx, vy, o1)
      case Err(f) => Stopped(f)
      case Ok(w) => Running(Machine([w], [o2], 0, false))
    else Running(Machine([vx, vy], [o1, o2], 0, false))
  }

  /** `x o1` read from the start: `x` is on the operand stack and `o1` on the operator stack. */
  lemma FirstOperand(rule: Precedence, x: string, o1: char)
    requires |x| >= 1 && AllDigits(x) && IsOperator(o1)
    ensures Run(rule, Start, x + [o1], false) == Running(Machine([ValueOf(x) as real], [o1], 0, false))
  {
    RunDigits(rule, Start, x);
    RunSnoc(rule, Start, x, o1, false);
    assert Flushed(Start.(num := ValueOf(x), hasNum := true)) == Machine([ValueOf(x) as real], [], 0, false);
  }

  /** Reading an operator that does not end the expression: flush the literal, reduce, push. */
  lemma StepOnOperator(rule: Precedence, m: Machine, o: char)
    requires IsOperator(o)
    ensures Step(rule, m, o, false) ==
      match ReduceFor(rule, Flushed(m), o)
      case Stopped(f) => Stopped(f)
      case Running(m3) => Running(m3.(ops := m3.ops + [o]))
  {
    assert !IsDigit(o);
  }

  /** The reductions before the second operator, with two operands and one pending operator. */
  lemma ReduceForTwo(rule: Precedence, vx: real, vy: real, o1: char, o2: char)
    requires IsOperator(o1)
    ensures ReduceFor(rule, Machine([vx, vy], [o1], 0, false), o2) ==
      if !ReducesBefore(rule, o2, o1) then Running(Machine([vx, vy], [o1], 0, false))
      else match ApplyOperator(vx, vy, o1)
        case Err(f) => Stopped(f)
        case Ok(w) => Running(Machine([w], [], 0, false))
  {
    var mf := Machine([vx, vy], [o1], 0, false);
    assert Top(mf.ops) == o1 && o1 != '(';
    if ReducesBefore(rule, o2, o1) {
      assert mf.values[..0] == [];
      match ApplyOperator(vx, vy, o1)
      case Err(f) =>
      case Ok(w) =>
        assert ReduceTop(mf) == Running(Machine([w], [], 0, false));
    }
  }

  /** The second operator arrives with `x` on the stack, `o1` pending and `y` accumulated. */
  lemma SecondOperator(rule: Precedence, vx: real, o1: char, y: nat, o2: char)
    requires IsOperator(o1) && IsOperator(o2)
    ensures Step(rule, Machine([vx], [o1], y, true), o2, false) == AfterTwoOperators(rule, vx, o1, y as real, o2)
  {
    var vy := y as real;
    assert Flushed(Machine([vx], [o1], y, true)) == Machine([vx, vy], [o1], 0, false);
    StepOnOperator(rule, Machine([vx], [o1], y, true), o2);
    ReduceForTwo(rule, vx, vy, o1, o2);
    assert [] + [o2] == [o2];
    assert [o1] + [o2] == [o1, o2];
  }

  lemma {:induction false} FlatPrefix(rule: Precedence, x: string, o1: char, y: string, o2: char)
    requires |x| >= 1 && AllDigits(x) && |y| >= 1 && AllDigits(y) && IsOperator(o1) && IsOperator(o2)
    ensures Run(rule, Start, x + [o1] + y + [o2], false) ==
      AfterTwoOperators(rule, ValueOf(x) as real, o1, ValueOf(y) as real, o2)
  {
    var p1 := x + [o1];
    var m1 := Machine([ValueOf(x) as real], [o1], 0, false);
    FirstOperand(rule, x, o1);
    RunDigits(rule, m1, y);
    RunAppend(rule, Start, p1, y, false);
    RunSnoc(rule, Start, p1 + y, o2, false);
    SecondOperator(rule, ValueOf(x) as real, o1, ValueOf(y), o2);
  }

  /** The final reductions of `x o1 y o2 z` when `o1` was reduced before `o2` arrived. */
  lemma DrainLeftFirst(w: real, o2: char, vz: real)
    ensures Drain(Machine([w, vz], [o2], 0, false)) == Pushed(ApplyOperator(w, vz, o2), Start)
  {
    var m := Machine([w, vz], [o2], 0, false);
    assert m.values[..0] == [];
    match ApplyOperator(w, vz, o2)
    case Err(f) =>
    case Ok(u) =>
      assert ReduceTop(m) == Running(Machine([u], [], 0, false));
  }

  /** The final reductions of `x o1 y o2 z` when both operators were still pending. */
  lemma DrainRightFirst(vx: real, o1: char, vy: real, o2: char, vz: real)
    ensures Drain(Machine([vx, vy, vz], [o1, o2], 0, false)) ==
      match ApplyOperator(vy, vz, o2)
      case Err(f) => Stopped(f)
      case Ok(v) => Pushed(ApplyOperator(vx, v, o1), Start)
  {
    var m := Machine([vx, vy, vz], [o1, o2], 0, false);
    assert m.values[..1] == [vx];
    match ApplyOperator(vy, vz, o2)
    case Err(f) =>
    case Ok(v) =>
      assert ReduceTop(m) == Running(Machine([vx, v], [o1], 0, false));
      DrainLeftFirst(vx, o1, v);
  }

  /** On a flat expression of three literals the evaluator groups the first two operands
      together exactly when the reduce test fires for the second operator. */
  lemma EvaluateFlat3(rule: Precedence, x: string, o1: char, y: string, o2: char, z: string)
    requires |x| >= 1 && AllDigits(x) && |y| >= 1 && AllDigits(y) && |z| >= 1 && AllDigits(z)
    requires IsOperator(o1) && IsOperator(o2)
    ensures EvaluateWith(rule, x + [o1] + y + [o2] + z) ==
      TreeValue(Flat3Tree(ReducesBefore(rule, o2, o1), x, o1, y, o2, z))
  {
    if ReducesBefore(rule, o2, o1) {
      Flat3Grouped(rule, x, o1, y, o2, z);
    } else {
      Flat3Ungrouped(rule, x, o1, y, o2, z);
    }
  }

  /** The case where the reduce test fires: `x o1 y` is applied before `o2` is pushed. */
  lemma Flat3Grouped(rule: Precedence, x: string, o1: char, y: string, o2: char, z: string)
    requires |x| >= 1 && AllDigits(x) && |y| >= 1 && AllDigits(y) && |z| >= 1 && AllDigits(z)
    requires IsOperator(o1) && IsOperator(o2) && ReducesBefore(rule, o2, o1)
    ensures EvaluateWith(rule, x + [o1] + y + [o2] + z) == TreeValue(Flat3Tree(true, x, o1, y, o2, z))
  {
    var vx, vy, vz := ValueOf(x) as real, ValueOf(y) as real, ValueOf(z) as real;
    var t := Flat3Tree(true, x, o1, y, o2, z);
    FlatPrefix(rule, x, o1, y, o2);
    RunAppend(rule, Start, x + [o1] + y + [o2], z, true);
    assert TreeValue(t.left) == ApplyOperator(vx, vy, o1);
    match ApplyOperator(vx, vy, o1)
    case Err(f) =>
    case Ok(w) =>
      FinalLiteral(rule, Machine([w], [o2], 0, false), z);
      assert [w] + [vz] == [w, vz];
      DrainLeftFirst(w, o2, vz);
  }

  /** The case where it does not: both operators wait on the stack until the end. */
  lemma Flat3Ungrouped(rule: Precedence, x: string, o1: char, y: string, o2: char, z: string)
    requires |x| >= 1 && AllDigits(x) && |y| >= 1 && AllDigits(y) && |z| >= 1 && AllDigits(z)
    requires IsOperator(o1) && IsOperator(o2) && !ReducesBefore(rule, o2, o1)
    ensures EvaluateWith(rule, x + [o1] + y + [o2] + z) == TreeValue(Flat3Tree(false, x, o1, y, o2, z))
  {
    var vx, vy, vz := ValueOf(x) as real, ValueOf(y) as real, ValueOf(z) as real;
    var t := Flat3Tree(false, x, o1, y, o2, z);
    FlatPrefix(rule, x, o1, y, o2);
    RunAppend(rule, Start, x + [o1] + y + [o2], z, true);
    assert TreeValue(t.right) == ApplyOperator(vy, vz, o2);
    FinalLiteral(rule, Machine([vx, vy], [o1, o2], 0, false), z);
    assert [vx, vy] + [vz] == [vx, vy, vz];
    DrainRightFirst(vx, o1, vy, o2, vz);
  }

  /** With the corrected test, a flat expression of three literals is evaluated with the
      conventional precedence: the first operator is applied first unless the second one
      has the higher level. */
  lemma EvaluateFlat3Conventional(x: string, o1: char, y: string, o2: char, z: string)
    requires |x| >= 1 && AllDigits(x) && |y| >= 1 && AllDigits(y) && |z| >= 1 && AllDigits(z)
    requires IsOperator(o1) && IsOperator(o2)
    ensures Evaluate(x + [o1] + y + [o2] + z) == TreeValue(Flat3Tree(Level(o1) >= Level(o2), x, o1, y, o2, z))
  {
    EvaluateFlat3(Conventional, x, o1, y, o2, z);
  }

  /** The source's test groups `1+2*3` as `(1+2)*3`, giving 9 where 7 is intended. */
  lemma AsWrittenPrecedenceCounterexample()
    ensures EvaluateAsWritten("1+2*3") == Ok(9.0)
    ensures Evaluate("1+2*3") == Ok(7.0)
  {
    assert "1+2*3" == "1" + ['+'] + "2" + ['*'] + "3";
    assert ValueOf("1") == 1 && ValueOf("2") == 2 && ValueOf("3") == 3 by {
      assert "1"[..0] == [] && "2"[..0] == [] && "3"[..0] == [];
    }
    EvaluateFlat3(AsWritten, "1", '+', "2", '*', "3");
    EvaluateFlat3(Conventional, "1", '+', "2", '*', "3");
  }
}

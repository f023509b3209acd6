/**
  Binary expression trees over decimal literals: the evaluation orders that a fully
  parenthesized expression of Euler259.cpp spells out, and their exact values.
 */
module ExprTree {
  import opened Decimal
  import opened Operators

  datatype Tree = Leaf(digits: string) | Node(left: Tree, op: char, right: Tree)

  /** Leaves are non-empty digit runs and inner nodes carry one of the four operators. */
  predicate WellFormed(t: Tree) {
    match t
    case Leaf(d) => |d| >= 1 && AllDigits(d)
    case Node(l, o, r) => IsOperator(o) && WellFormed(l) && WellFormed(r)
  }

  /** The fully parenthesized text of a tree: every inner node wrapped as `(left op right)`. */
  function Render(t: Tree): string {
    match t
    case Leaf(d) => d
    case Node(l, o, r) => "(" + Render(l) + [o] + Render(r) + ")"
  }

  /** The flat text of a tree: its literals and operators left to right, without parentheses. */
  function Yield(t: Tree): string {
    match t
    case Leaf(d) => d
    case Node(l, o, r) => Yield(l) + [o] + Yield(r)
  }

  function OperatorCount(t: Tree): nat {
    match t
    case Leaf(_) => 0
    case Node(l, _, r) => OperatorCount(l) + 1 + OperatorCount(r)
  }

  /** The exact value of a tree: left operand first, then right, then the node's operator. */
  function TreeValue(t: Tree): Result<real>
    requires WellFormed(t)
  {
    match t
    case Leaf(d) => Ok(ValueOf(d) as real)
    case Node(l, o, r) =>
      match TreeValue(l)
      case Err(f) => Err(f)
      case Ok(a) =>
        match TreeValue(r)
        case Err(f) => Err(f)
        case Ok(b) => ApplyOperator(a, b, o)
  }

  /** Some node of the tree divides by a right operand whose value is zero. */
  predicate DividesByZero(t: Tree)
    requires WellFormed(t)
  {
    match t
    case Leaf(_) => false
    case Node(l, o, r) =>
      DividesByZero(l) || DividesByZero(r) || (o == '/' && TreeValue(r) == Ok(0.0))
  }

  /** A tree's evaluation fails exactly when one of its nodes divides by zero, and the
      failure is then always the division-by-zero fault. */
  lemma {:induction false} TreeValueFailsIffDividesByZero(t: Tree)
    requires WellFormed(t)
    ensures TreeValue(t).Err? <==> DividesByZero(t)
    ensures TreeValue(t).Err? ==> TreeValue(t).fault == DivisionByZero
  {
    match t
    case Leaf(_) =>
    case Node(l, o, r) =>
      TreeValueFailsIffDividesByZero(l);
      TreeValueFailsIffDividesByZero(r);
  }
}

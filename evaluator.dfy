/** The interpreter of expression trees against one item. Its result is a
    dynamic value, a number or a boolean, combined with Python's rules: a
    boolean counts as 1 or 0 in arithmetic and comparisons, and `and`/`or`
    return one of their operands according to its truthiness. Numbers are
    exact reals. */
module Evaluator {
  import opened Expressions

  datatype Value = Num(x: real) | Bool(b: bool)

  /** A knapsack item: weight, value and time. */
  datatype Item = Item(weight: int, value: int, time: int)

  /** The number a value stands for in arithmetic: `True` is 1, `False` is 0. */
  function AsNumber(v: Value): real {
    match v
    case Num(x) => x
    case Bool(b) => if b then 1.0 else 0.0
  }

  /** Truthiness: a number is truthy when it is nonzero, a boolean when it is `True`. */
  predicate Truthy(v: Value) {
    match v
    case Num(x) => x != 0.0
    case Bool(b) => b
  }

  /** The item property that a `w`, `v` or `t` leaf names. */
  function PropertyOf(item: Item, p: Prop): real {
    match p
    case W => item.weight as real
    case V => item.value as real
    case T => item.time as real
  }

  /** One operator applied to the values of both children. */
  function Apply(op: BinOp, a: Value, b: Value): (r: Value)
    ensures (op == Add || op == Sub || op == Mul || op == Div) ==> r.Num?
    ensures (op == Gt || op == Lt) ==> r.Bool?
    ensures op == Div && AsNumber(b) == 0.0 ==> r == Num(1.0)
    ensures op == Div && AsNumber(b) != 0.0 ==> AsNumber(r) * AsNumber(b) == AsNumber(a)
    ensures op == Gt ==> (Truthy(r) <==> AsNumber(b) < AsNumber(a))
    ensures op == Lt ==> (Truthy(r) <==> AsNumber(a) < AsNumber(b))
    ensures op == And ==> (r == a || r == b) && (Truthy(r) <==> Truthy(a) && Truthy(b))
    ensures op == Or ==> (r == a || r == b) && (Truthy(r) <==> Truthy(a) || Truthy(b))
    ensures op == And && !Truthy(a) ==> r == a
    ensures op == And && Truthy(a) ==> r == b
    ensures op == Or && Truthy(a) ==> r == a
    ensures op == Or && !Truthy(a) ==> r == b
  {
    var x, y := AsNumber(a), AsNumber(b);
    match op
    case Add => Num(x + y)
    case Sub => Num(x - y)
    case Mul => Num(x * y)
    case Div => if y != 0.0 then Num(x / y) else Num(1.0)
    case Gt => Bool(x > y)
    case Lt => Bool(x < y)
    case And => if !Truthy(a) then a else b
    case Or => if Truthy(a) then a else b
  }

  /** `evaluate_expression`: both children are always evaluated, then combined.
      A boolean can only come out of a tree that compares somewhere: arithmetic
      makes numbers, and `and`/`or` only pass on a value from below. */
  function Evaluate(e: Expr, item: Item): (r: Value)
    ensures r.Bool? ==> HasComparison(e)
  {
    match e
    case Op(op, l, rt) => Apply(op, Evaluate(l, item), Evaluate(rt, item))
    case Var(p) => Num(PropertyOf(item, p))
    case Lit(n) => Num(n as real)
  }

  /** Trees built from comparisons joined by `and`/`or`. */
  predicate IsCondition(e: Expr) {
    match e
    case Op(op, l, r) =>
      op == Gt || op == Lt || ((op == And || op == Or) && IsCondition(l) && IsCondition(r))
    case _ => false
  }

  /** Classical two-valued reading of a condition on an item. */
  predicate Holds(e: Expr, item: Item)
    requires IsCondition(e)
  {
    match e
    case Op(op, l, r) =>
      if op == Gt then AsNumber(Evaluate(l, item)) > AsNumber(Evaluate(r, item))
      else if op == Lt then AsNumber(Evaluate(l, item)) < AsNumber(Evaluate(r, item))
      else if op == And then Holds(l, item) && Holds(r, item)
      else Holds(l, item) || Holds(r, item)
  }

  /** A condition always evaluates to a boolean: the one its classical reading gives. */
  lemma {:induction false} ConditionIsBoolean(e: Expr, item: Item)
    requires IsCondition(e)
    ensures Evaluate(e, item) == Bool(Holds(e, item))
  {
    match e
    case Op(op, l, r) =>
      if op == And || op == Or {
        ConditionIsBoolean(l, item);
        ConditionIsBoolean(r, item);
      }
  }
}

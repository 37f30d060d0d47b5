/** Expression trees of the genetic-programming engine: binary operator nodes
    over item-property references and small integer literals. The program keeps
    a tree as a list `[op, left, right]` or a terminal string; here it is a
    datatype, so a malformed node cannot be built. */
module Expressions {

  /** The operators of FUNCTIONS. */
  datatype BinOp = Add | Sub | Mul | Div | Gt | Lt | And | Or

  /** The item-property names `w` (weight), `v` (value) and `t` (time). */
  datatype Prop = W | V | T

  datatype Expr =
    | Op(op: BinOp, left: Expr, right: Expr)
    | Var(prop: Prop)
    | Lit(n: int)

  /** FUNCTIONS, in the program's order. */
  const Functions: seq<BinOp> := [Add, Sub, Mul, Div, Gt, Lt, And, Or]

  /** TERMINALS: the three property names, then the integers -10..10 without 0,
      in increasing order. */
  const Terminals: seq<Expr> :=
    [Var(W), Var(V), Var(T),
     Lit(-10), Lit(-9), Lit(-8), Lit(-7), Lit(-6), Lit(-5), Lit(-4), Lit(-3), Lit(-2), Lit(-1),
     Lit(1), Lit(2), Lit(3), Lit(4), Lit(5), Lit(6), Lit(7), Lit(8), Lit(9), Lit(10)]

  predicate IsTerminal(e: Expr) {
    !e.Op?
  }

  /** A leaf the program's tables can produce. */
  predicate IsTableTerminal(e: Expr) {
    match e
    case Op(_, _, _) => false
    case Var(_) => true
    case Lit(n) => -10 <= n <= 10 && n != 0
  }

  /** Every leaf of the tree is one of TERMINALS. */
  predicate WellFormed(e: Expr) {
    match e
    case Op(_, l, r) => WellFormed(l) && WellFormed(r)
    case _ => IsTableTerminal(e)
  }

  /** Does some node of the tree compare (`>` or `<`)? */
  predicate HasComparison(e: Expr) {
    match e
    case Op(op, l, r) => op == Gt || op == Lt || HasComparison(l) || HasComparison(r)
    case _ => false
  }

  /** The leaves of the tree, as a set. */
  function Leaves(e: Expr): set<Expr> {
    match e
    case Op(_, l, r) => Leaves(l) + Leaves(r)
    case _ => {e}
  }

  function Max(a: nat, b: nat): nat {
    if a < b then b else a
  }

  /** Number of nodes. */
  function Size(e: Expr): nat {
    match e
    case Op(_, l, r) => 1 + Size(l) + Size(r)
    case _ => 1
  }

  /** Number of edges on the longest root-to-leaf path. */
  function Height(e: Expr): nat {
    match e
    case Op(_, l, r) => 1 + Max(Height(l), Height(r))
    case _ => 0
  }

  /** `b` has an operator node exactly where `a` has one, and a leaf where `a` has a leaf. */
  predicate SameShape(a: Expr, b: Expr) {
    match a
    case Op(_, al, ar) => b.Op? && SameShape(al, b.left) && SameShape(ar, b.right)
    case _ => !b.Op?
  }

  /** Trees of the same shape have the same node count and the same height. */
  lemma {:induction false} SameShapeSizeHeight(a: Expr, b: Expr)
    requires SameShape(a, b)
    ensures Size(a) == Size(b) && Height(a) == Height(b)
  {
    match a
    case Op(_, al, ar) =>
      SameShapeSizeHeight(al, b.left);
      SameShapeSizeHeight(ar, b.right);
    case _ =>
  }

  /** TERMINALS holds exactly the table terminals: the property names and the
      nonzero literals between -10 and 10. */
  lemma TerminalsTable(e: Expr)
    ensures |Terminals| == 23
    ensures e in Terminals <==> IsTableTerminal(e)
  {
    match e
    case Op(_, _, _) =>
    case Var(p) =>
      var k := match p case W => 0 case V => 1 case T => 2;
      assert Terminals[k] == e;
    case Lit(n) =>
      if IsTableTerminal(e) {
        var k := if n < 0 then n + 13 else n + 12;
        assert Terminals[k] == e;
      }
  }

  /** Every entry of TERMINALS is a table terminal. */
  lemma TerminalsWellFormed()
    ensures |Terminals| == 23
    ensures forall k :: 0 <= k < |Terminals| ==> IsTableTerminal(Terminals[k])
  {
    forall k | 0 <= k < |Terminals|
      ensures IsTableTerminal(Terminals[k])
    {
      TerminalsTable(Terminals[k]);
    }
  }
}

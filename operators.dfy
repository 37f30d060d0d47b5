/** The stochastic operators on trees: random generation, mutation and
    crossover. Each reads its draws from an explicit stream, in the order the
    program makes them, and returns the position after the last draw it used. */
module GeneticOperators {
  import opened Expressions
  import opened Draws

  const GenomeDepth: nat := 5
  const MutationRate: real := 0.1
  const CrossoverRate: real := 0.9
  /** Chance of stopping early with a leaf below the root. */
  const LeafRate: real := 0.3

  /** `random.choice(TERMINALS)` */
  function RandomTerminal(u: Uniform): (t: Expr)
    ensures IsTableTerminal(t)
  {
    TerminalsWellFormed();
    Terminals[Choose(u, |Terminals|)]
  }

  /** `random.choice(FUNCTIONS)` */
  function RandomFunction(u: Uniform): (f: BinOp)
    ensures exists k :: 0 <= k < |Functions| && Functions[k] == f &&
                        k as real <= u * |Functions| as real < k as real + 1.0
  {
    Functions[Choose(u, |Functions|)]
  }

  /** Every operator of FUNCTIONS is drawn, from the draws in its eighth of [0, 1). */
  lemma EveryFunctionDrawable(k: nat)
    requires k < |Functions|
    ensures RandomFunction(k as real / |Functions| as real) == Functions[k]
  {
    var u: Uniform := k as real / |Functions| as real;
    assert u * |Functions| as real == k as real;
  }

  /** `create_random_expression`: a leaf past the depth bound, or below the root
      when the coin says so; otherwise an operator over two random subtrees.
      The root is always an operator, every leaf comes from TERMINALS, and no
      path runs deeper than GenomeDepth + 1 from the root. Below the root and
      within the bound, a node is a leaf exactly when the first draw is under
      LeafRate; the node's label is then taken from the next draw. */
  function CreateRandomExpression(rng: Rng, pos: nat, depth: nat): (r: (Expr, nat))
    ensures WellFormed(r.0)
    ensures depth == 0 ==> r.0.Op?
    ensures depth > GenomeDepth ==> IsTerminal(r.0)
    ensures 0 < depth <= GenomeDepth ==> (IsTerminal(r.0) <==> rng(pos) < LeafRate)
    ensures 0 < depth <= GenomeDepth && rng(pos) < LeafRate ==> r.0 == RandomTerminal(rng(pos + 1))
    ensures 0 < depth <= GenomeDepth && rng(pos) >= LeafRate ==> r.0.op == RandomFunction(rng(pos + 1))
    ensures depth == 0 ==> r.0.op == RandomFunction(rng(pos))
    ensures Height(r.0) <= if depth > GenomeDepth then 0 else GenomeDepth + 1 - depth
    ensures r.1 > pos
    decreases if depth > GenomeDepth then 0 else GenomeDepth + 1 - depth
  {
    if depth > GenomeDepth then
      (RandomTerminal(rng(pos)), pos + 1)
    else if depth > 0 && rng(pos) < LeafRate then
      (RandomTerminal(rng(pos + 1)), pos + 2)
    else
      var at := if depth > 0 then pos + 1 else pos;
      var func := RandomFunction(rng(at));
      var l := CreateRandomExpression(rng, at + 1, depth + 1);
      var r := CreateRandomExpression(rng, l.1, depth + 1);
      (Op(func, l.0, r.0), r.1)
  }

  /** `mutate`: each operator symbol and each leaf is replaced, with chance
      MutationRate, by a random one of its kind; the children are always visited.
      The tree keeps its shape, and its leaves stay in TERMINALS. The root keeps
      its operator or leaf when its draw misses, and takes the next draw's pick
      when it hits. */
  function Mutate(e: Expr, rng: Rng, pos: nat): (r: (Expr, nat))
    ensures SameShape(e, r.0)
    ensures rng(pos) >= MutationRate ==> (e.Op? ==> r.0.op == e.op) && (!e.Op? ==> r.0 == e)
    ensures rng(pos) < MutationRate ==>
              (e.Op? ==> r.0.op == RandomFunction(rng(pos + 1))) &&
              (!e.Op? ==> r.0 == RandomTerminal(rng(pos + 1)))
    ensures WellFormed(e) ==> WellFormed(r.0)
    ensures r.1 > pos
  {
    match e
    case Op(op, l, rt) =>
      var mutated := rng(pos) < MutationRate;
      var func := if mutated then RandomFunction(rng(pos + 1)) else op;
      var l' := Mutate(l, rng, if mutated then pos + 2 else pos + 1);
      var r' := Mutate(rt, rng, l'.1);
      (Op(func, l'.0, r'.0), r'.1)
    case _ =>
      if rng(pos) < MutationRate then (RandomTerminal(rng(pos + 1)), pos + 2) else (e, pos + 1)
  }

  /** One step of mutation at an operator node whose draw misses: its own
      operator over the mutated children. */
  lemma MutateStep(e: Expr, rng: Rng, pos: nat, l: (Expr, nat), r: (Expr, nat))
    requires rng(pos) >= MutationRate && e.Op?
    requires l == Mutate(e.left, rng, pos + 1)
    requires r == Mutate(e.right, rng, l.1)
    ensures Mutate(e, rng, pos) == (Op(e.op, l.0, r.0), r.1)
  {
  }

  /** When none of the draws a tree uses hits, mutation returns the tree
      unchanged, after one draw per node. */
  lemma {:induction false} MutateWithoutHits(e: Expr, rng: Rng, pos: nat)
    requires forall k :: pos <= k < pos + Size(e) ==> rng(k) >= MutationRate
    ensures Mutate(e, rng, pos).0 == e
    ensures Mutate(e, rng, pos).1 == pos + Size(e)
  {
    assert rng(pos) >= MutationRate;
    if e.Op? {
      var mid := pos + 1 + Size(e.left);
      MutateWithoutHits(e.left, rng, pos + 1);
      MutateWithoutHits(e.right, rng, mid);
      MutateStep(e, rng, pos, Mutate(e.left, rng, pos + 1), Mutate(e.right, rng, mid));
    }
  }

  /** Mutation keeps the node count and the height. */
  lemma MutateKeepsSizeAndHeight(e: Expr, rng: Rng, pos: nat)
    ensures Size(Mutate(e, rng, pos).0) == Size(e)
    ensures Height(Mutate(e, rng, pos).0) == Height(e)
  {
    SameShapeSizeHeight(e, Mutate(e, rng, pos).0);
  }

  /** `crossover`: walking both parents in step, a successful coin above
      GenomeDepth takes the second parent's subtree when both are operator nodes;
      otherwise the first parent's operator is kept and the walk goes on into
      both children. Wherever either side is a leaf, the first parent's subtree
      is kept.
      The result has the first parent's kind of root; an operator result is the
      second parent itself or carries the first parent's operator; at or below
      GenomeDepth nothing changes; leaves come from the parents, and the result
      is no taller than the taller parent. */
  function Crossover(e1: Expr, e2: Expr, rng: Rng, pos: nat, depth: nat): (r: (Expr, nat))
    ensures IsTerminal(e1) ==> r.0 == e1
    ensures rng(pos) < CrossoverRate && depth < GenomeDepth && e1.Op? && e2.Op? ==> r.0 == e2
    ensures rng(pos) >= CrossoverRate && e1.Op? ==> r.0.Op? && r.0.op == e1.op
    ensures r.0.Op? <==> e1.Op?
    ensures r.0.Op? ==> r.0 == e2 || r.0.op == e1.op
    ensures depth >= GenomeDepth ==> r.0 == e1
    ensures WellFormed(e1) && WellFormed(e2) ==> WellFormed(r.0)
    ensures Height(r.0) <= Max(Height(e1), Height(e2))
    ensures r.1 > pos
  {
    if rng(pos) < CrossoverRate && depth < GenomeDepth then
      (if e1.Op? && e2.Op? then e2 else e1, pos + 1)
    else if e1.Op? && e2.Op? then
      var l := Crossover(e1.left, e2.left, rng, pos + 1, depth + 1);
      var r := Crossover(e1.right, e2.right, rng, l.1, depth + 1);
      (Op(e1.op, l.0, r.0), r.1)
    else
      (e1, pos + 1)
  }

  /** The draws crossover makes when no coin hits: one per pair of nodes the
      walk visits in step. */
  function Consumed(e1: Expr, e2: Expr): nat {
    if e1.Op? && e2.Op? then 1 + Consumed(e1.left, e2.left) + Consumed(e1.right, e2.right) else 1
  }

  /** One step of the walk when the coin misses over two operator nodes: the
      first parent's operator over the crossed children. */
  lemma CrossoverStep(e1: Expr, e2: Expr, rng: Rng, pos: nat, depth: nat, l: (Expr, nat), r: (Expr, nat))
    requires rng(pos) >= CrossoverRate && e1.Op? && e2.Op?
    requires l == Crossover(e1.left, e2.left, rng, pos + 1, depth + 1)
    requires r == Crossover(e1.right, e2.right, rng, l.1, depth + 1)
    ensures Crossover(e1, e2, rng, pos, depth) == (Op(e1.op, l.0, r.0), r.1)
  {
  }

  /** When none of the coins the walk draws hits, crossover returns the first
      parent unchanged. */
  lemma {:induction false} CrossoverWithoutHits(e1: Expr, e2: Expr, rng: Rng, pos: nat, depth: nat)
    requires forall k :: pos <= k < pos + Consumed(e1, e2) ==> rng(k) >= CrossoverRate
    ensures Crossover(e1, e2, rng, pos, depth).0 == e1
    ensures Crossover(e1, e2, rng, pos, depth).1 == pos + Consumed(e1, e2)
  {
    assert rng(pos) >= CrossoverRate;
    if e1.Op? && e2.Op? {
      var mid := pos + 1 + Consumed(e1.left, e2.left);
      CrossoverWithoutHits(e1.left, e2.left, rng, pos + 1, depth + 1);
      CrossoverWithoutHits(e1.right, e2.right, rng, mid, depth + 1);
      CrossoverStep(e1, e2, rng, pos, depth, Crossover(e1.left, e2.left, rng, pos + 1, depth + 1),
                    Crossover(e1.right, e2.right, rng, mid, depth + 1));
    }
  }

  /** Every leaf of a crossover child is a leaf of one of its parents. */
  lemma {:induction false} CrossoverLeaves(e1: Expr, e2: Expr, rng: Rng, pos: nat, depth: nat)
    ensures Leaves(Crossover(e1, e2, rng, pos, depth).0) <= Leaves(e1) + Leaves(e2)
  {
    if !(rng(pos) < CrossoverRate && depth < GenomeDepth) && e1.Op? && e2.Op? {
      var l := Crossover(e1.left, e2.left, rng, pos + 1, depth + 1);
      CrossoverLeaves(e1.left, e2.left, rng, pos + 1, depth + 1);
      CrossoverLeaves(e1.right, e2.right, rng, l.1, depth + 1);
    }
  }
}

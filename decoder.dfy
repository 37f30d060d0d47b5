/** The decoder, which turns an expression tree into a selection of items under
    the knapsack's weight and time bounds, and the fitness built on it. */
module Decoder {
  import opened Expressions
  import opened Evaluator

  const KnapsackCapacity: int := 15
  const TimeLimit: int := 15

  /** The program's item list, as (weight, value, time). */
  const Items: seq<Item> :=
    [Item(2, 3, 2), Item(3, 4, 3), Item(4, 5, 4), Item(5, 8, 5),
     Item(8, 10, 8), Item(4, 7, 4), Item(2, 6, 2), Item(1, 2, 1)]

  /** What the decoder returns: the chosen item indices and their total weight and time. */
  datatype Decoded = Decoded(included: seq<nat>, totalWeight: int, totalTime: int)

  datatype Measure = ByWeight | ByValue | ByTime

  function Amount(item: Item, m: Measure): int {
    match m
    case ByWeight => item.weight
    case ByValue => item.value
    case ByTime => item.time
  }

  predicate IndicesBelow(idx: seq<nat>, n: nat) {
    forall k :: 0 <= k < |idx| ==> idx[k] < n
  }

  predicate StrictlyIncreasing(idx: seq<nat>) {
    forall j, k :: 0 <= j < k < |idx| ==> idx[j] < idx[k]
  }

  /** Sum of one measure over the items at the given indices. */
  function SumOf(items: seq<Item>, idx: seq<nat>, m: Measure): int
    requires IndicesBelow(idx, |items|)
  {
    if idx == [] then 0
    else SumOf(items, idx[..|idx| - 1], m) + Amount(items[idx[|idx| - 1]], m)
  }

  /** The indices below `n`, in increasing order, of the items on which the tree
      evaluates to the boolean `True`. */
  function Chosen(e: Expr, items: seq<Item>, n: nat): (r: seq<nat>)
    requires n <= |items|
    ensures IndicesBelow(r, n)
  {
    if n == 0 then []
    else if Evaluate(e, items[n - 1]) == Bool(true) then Chosen(e, items, n - 1) + [n - 1]
    else Chosen(e, items, n - 1)
  }

  /** `get_included_items`, as a value: the chosen items with their totals when
      both totals are within bounds, and nothing at all otherwise. */
  function Decode(e: Expr, items: seq<Item>): (r: Decoded)
    ensures IndicesBelow(r.included, |items|)
    ensures r.totalWeight == SumOf(items, r.included, ByWeight) <= KnapsackCapacity
    ensures r.totalTime == SumOf(items, r.included, ByTime) <= TimeLimit
    ensures r.included == [] || r.included == Chosen(e, items, |items|)
    ensures (SumOf(items, Chosen(e, items, |items|), ByWeight) <= KnapsackCapacity &&
             SumOf(items, Chosen(e, items, |items|), ByTime) <= TimeLimit)
            <==> r.included == Chosen(e, items, |items|)
  {
    var chosen := Chosen(e, items, |items|);
    var weight := SumOf(items, chosen, ByWeight);
    var time := SumOf(items, chosen, ByTime);
    if weight > KnapsackCapacity || time > TimeLimit then Decoded([], 0, 0)
    else Decoded(chosen, weight, time)
  }

  /** `get_included_items`: one pass over the items, accumulating the chosen
      indices and their weight and time, then the all-or-nothing bound check. */
  method GetIncludedItems(e: Expr, items: seq<Item>) returns (included: seq<nat>, totalWeight: int, totalTime: int)
    ensures Decoded(included, totalWeight, totalTime) == Decode(e, items)
  {
    included, totalWeight, totalTime := [], 0, 0;
    var index := 0;
    while index < |items|
      invariant index <= |items|
      invariant included == Chosen(e, items, index)
      invariant totalWeight == SumOf(items, included, ByWeight)
      invariant totalTime == SumOf(items, included, ByTime)
    {
      var item := items[index];
      var result := Evaluate(e, item);
      if result.Bool? && result.b {
        included := included + [index];
        totalWeight := totalWeight + item.weight;
        totalTime := totalTime + item.time;
      }
      index := index + 1;
    }
    if totalWeight > KnapsackCapacity || totalTime > TimeLimit {
      included, totalWeight, totalTime := [], 0, 0;
    }
  }

  predicate NonNegativeValues(items: seq<Item>) {
    forall i :: 0 <= i < |items| ==> items[i].value >= 0
  }

  /** `fitness`: the total value of the decoded selection. A rejected or empty
      selection scores 0, and the score is never negative when no item has a
      negative value. Both branches compute the same sum; the first only
      calls `SumNonNegative` so that the second ensures is proved. */
  function Fitness(e: Expr, items: seq<Item>): (f: int)
    ensures Decode(e, items).included == [] ==> f == 0
    ensures NonNegativeValues(items) ==> f >= 0
  {
    if NonNegativeValues(items) then
      SumNonNegative(items, Decode(e, items).included);
      SumOf(items, Decode(e, items).included, ByValue)
    else
      SumOf(items, Decode(e, items).included, ByValue)
  }

  // ---------------------------------------------------------------------------
  // Properties

  /** Index `i` is chosen exactly when the tree evaluates to `True` on item `i`,
      and the chosen indices come in item order. */
  lemma {:induction false} ChosenExactly(e: Expr, items: seq<Item>, n: nat)
    requires n <= |items|
    ensures StrictlyIncreasing(Chosen(e, items, n))
    ensures forall i: nat :: i in Chosen(e, items, n) <==> i < n && Evaluate(e, items[i]) == Bool(true)
  {
    if n > 0 {
      ChosenExactly(e, items, n - 1);
    }
  }

  /** The decoder only ever includes an item on which the tree is `True`; a
      number, however nonzero, never includes one. When the candidate is
      accepted, every such item is included. */
  lemma DecodeIncludesOnlyTrue(e: Expr, items: seq<Item>, i: nat)
    requires i < |items|
    ensures StrictlyIncreasing(Decode(e, items).included)
    ensures i in Decode(e, items).included ==> Evaluate(e, items[i]) == Bool(true)
    ensures Evaluate(e, items[i]).Num? ==> i !in Decode(e, items).included
    ensures Decode(e, items).included != [] ==>
              (i in Decode(e, items).included <==> Evaluate(e, items[i]) == Bool(true))
  {
    ChosenExactly(e, items, |items|);
  }

  /** A tree without a comparison can never produce `True`, so it selects nothing
      and scores 0. */
  lemma NoComparisonSelectsNothing(e: Expr, items: seq<Item>)
    requires !HasComparison(e)
    ensures Decode(e, items).included == [] && Fitness(e, items) == 0
  {
    NoComparisonChoosesNothing(e, items, |items|);
  }

  lemma {:induction false} NoComparisonChoosesNothing(e: Expr, items: seq<Item>, n: nat)
    requires n <= |items|
    requires !HasComparison(e)
    ensures Chosen(e, items, n) == []
  {
    if n > 0 {
      NoComparisonChoosesNothing(e, items, n - 1);
    }
  }

  lemma {:induction false} SumNonNegative(items: seq<Item>, idx: seq<nat>)
    requires IndicesBelow(idx, |items|)
    requires NonNegativeValues(items)
    ensures SumOf(items, idx, ByValue) >= 0
  {
    if idx != [] {
      SumNonNegative(items, idx[..|idx| - 1]);
    }
  }

  /** No item of the program has a negative value. */
  lemma ItemsHaveNonNegativeValues()
    ensures NonNegativeValues(Items)
  {
  }

  /** On the program's items no tree has a negative fitness. */
  lemma ProgramFitnessNonNegative(e: Expr)
    ensures Fitness(e, Items) >= 0
  {
    ItemsHaveNonNegativeValues();
  }

  lemma ValueAboveThreeChooses()
    ensures Chosen(Op(Gt, Var(V), Lit(3)), Items, |Items|) == [1, 2, 3, 4, 5, 6]
  {
    var e := Op(Gt, Var(V), Lit(3));
    assert Chosen(e, Items, 1) == [];
    assert Chosen(e, Items, 2) == [1];
    assert Chosen(e, Items, 3) == [1, 2];
    assert Chosen(e, Items, 4) == [1, 2, 3];
    assert Chosen(e, Items, 5) == [1, 2, 3, 4];
    assert Chosen(e, Items, 6) == [1, 2, 3, 4, 5];
    assert Chosen(e, Items, 7) == [1, 2, 3, 4, 5, 6];
  }

  lemma WeightOfItemsOneToSix()
    ensures SumOf(Items, [1, 2, 3, 4, 5, 6], ByWeight) == 26
  {
    assert [1][..0] == [];
    assert [1, 2][..1] == [1];
    assert SumOf(Items, [1, 2], ByWeight) == 7;
    assert [1, 2, 3][..2] == [1, 2];
    assert SumOf(Items, [1, 2, 3], ByWeight) == 12;
    assert [1, 2, 3, 4][..3] == [1, 2, 3];
    assert SumOf(Items, [1, 2, 3, 4], ByWeight) == 20;
    assert [1, 2, 3, 4, 5][..4] == [1, 2, 3, 4];
    assert SumOf(Items, [1, 2, 3, 4, 5], ByWeight) == 24;
    assert [1, 2, 3, 4, 5, 6][..5] == [1, 2, 3, 4, 5];
  }

  /** The rule `(v > 3)` picks items 1 to 6, whose weights add up to 26, over the
      capacity of 15: the whole candidate is rejected and scores 0. */
  lemma ValueAboveThreeIsRejected()
    ensures Chosen(Op(Gt, Var(V), Lit(3)), Items, |Items|) == [1, 2, 3, 4, 5, 6]
    ensures SumOf(Items, [1, 2, 3, 4, 5, 6], ByWeight) == 26
    ensures Decode(Op(Gt, Var(V), Lit(3)), Items) == Decoded([], 0, 0)
    ensures Fitness(Op(Gt, Var(V), Lit(3)), Items) == 0
  {
    ValueAboveThreeChooses();
    WeightOfItemsOneToSix();
  }
}

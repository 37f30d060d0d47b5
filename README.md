# A genetic-programming knapsack solver, modelled in Dafny

The program evolves expression trees that decide, item by item, whether to pack
a knapsack item. Each item has a weight, a value and a time. A tree is a binary
operator (`+ - * / > < and or`) over smaller trees, or a leaf: one of the item
properties `w`, `v`, `t`, or an integer literal from -10 to 10 other than 0.

The decoder evaluates a tree on every item and includes the items on which the
result is the boolean `True`. It rejects the whole candidate when the packed
weight exceeds the capacity of 15 or the packed time exceeds the limit of 15.
The fitness of a tree is the total value of the items it packs.

One generation does the following:
- ranks the population by fitness;
- keeps the two best individuals (the elites);
- draws a mating pool of 20 individuals, with chances proportional to fitness,
  or uniformly when the total fitness is 0;
- fills the rest of the population with crossover offspring of that pool,
  each then mutated.

The model is split into modules:

- `Expressions` (expressions.dfy): the tree datatype, the FUNCTIONS and
  TERMINALS tables, and size, height and shape.
- `Printer` (printer.dfy): `print_expression`, plus a parser used as its
  partner. Printing then parsing gives the tree back.
- `Evaluator` (evaluator.dfy): `evaluate_expression` over dynamic values that
  are either a number or a boolean, with Python's rules.
  - A boolean counts as 1 or 0 in arithmetic and in comparisons.
  - `/` by zero gives 1.
  - `and` returns its left operand when that is falsy and its right operand
    otherwise; `or` returns its left operand when that is truthy and its right
    operand otherwise.
- `Decoder` (decoder.dfy): `get_included_items`, written as a loop that is
  proved equal to a specification function `Decode`, and `fitness`.
- `Draws` (draws.dfy): the random source, made explicit. It is an endless
  stream of uniform reals in [0, 1), read at a position.
- `GeneticOperators` (operators.dfy): `create_random_expression`, `mutate`
  and `crossover`. Each takes the stream and a position, makes its draws in
  the program's order, and returns the position after its last draw.
- `Evolution` (evolution.dfy): ranking, `selection` and `evolve`. The
  breeding loop of `evolve` is a method proved against the specification
  function `Breed`.

Randomness is a parameter. `random.random() < p` reads as `rng(pos) < p`.
`random.choice(L)` and the unweighted `random.choices` pick `L[floor(u * |L|)]`.
The weighted `random.choices` in `selection` uses a roulette wheel over the
normalised fitnesses. It picks the first individual whose cumulative share
exceeds the draw, or the last individual if none does. For non-negative
fitnesses this is what the standard library's bisection over cumulative
weights returns.

The crossover in the code works on both parents in step, position by position:
it takes a whole subtree of the second parent, or it keeps the first parent's
node and goes on into the children. So an offspring is never taller than the
taller parent, and repeated generations cannot grow trees past the height
bound of `create_random_expression`. The model follows the code here. It
proves this bound, and it proves that a population whose trees are all within
a height bound keeps to it.

## Model

| member | source | states |
|---|---|---|
| `Expressions.TerminalsTable` | gep_knapsack.py:17 | TERMINALS has 23 entries; a tree is in TERMINALS exactly when it is `w`, `v`, `t` or a literal from -10 to 10 other than 0 |
| `Expressions.TerminalsWellFormed` | gep_knapsack.py:17 | every entry of TERMINALS is such a leaf |
| `Expressions.SameShapeSizeHeight` | gep_knapsack.py:84-95 | two trees with operator nodes and leaves in the same places have the same node count and height |
| `Printer.PrintExpression` | gep_knapsack.py:131-135 | the printed text is nonempty and starts with `(` exactly for an operator node; `Printer.PrintParse` and `Printer.PrintInjective` give its meaning |
| `Printer.NatName` | gep_knapsack.py:17 | the decimal text of a natural number is nonempty and made of digits |
| `Printer.NatRoundTrip` | gep_knapsack.py:17 | reading back the decimal text of `n` gives `n` |
| `Printer.IntRoundTrip` | gep_knapsack.py:17 | reading back `str(i)` of an integer, with its minus sign, gives `i` |
| `Printer.Token` | gep_knapsack.py:131-135 | the token the parser reads is a prefix of the text |
| `Printer.TokenOfConcat` | gep_knapsack.py:131-135 | a name without blanks or `)` followed by a delimiter reads back as that name |
| `Printer.LeafRoundTrip` | gep_knapsack.py:131-135 | a printed leaf is nonempty, contains no delimiter, and reads back as that leaf |
| `Printer.OpNameRoundTrip` | gep_knapsack.py:16 | each operator's text has no delimiter and reads back as that operator |
| `Printer.ParsePrinted` | gep_knapsack.py:131-135 | parsing `print_expression(e)` followed by text starting with a delimiter gives `e` and leaves exactly that text |
| `Printer.PrintParse` | gep_knapsack.py:131-135 | parsing the printed text of a tree gives the tree and consumes all of the text |
| `Printer.PrintInjective` | gep_knapsack.py:131-135 | two trees with the same printed text are the same tree |
| `Evaluator.Apply` | gep_knapsack.py:34-50 | the operator table: arithmetic gives a number; `/` by a zero divisor (`False` included) gives 1 and otherwise a quotient; `>` and `<` give a boolean that is true exactly when the comparison of the numeric values holds; `and` returns the left operand when it is falsy and the right one otherwise, `or` the left operand when it is truthy and the right one otherwise, so each is truthy exactly as the logical connective |
| `Evaluator.Evaluate` | gep_knapsack.py:29-62 | evaluation is total, and a boolean can only come out of a tree that contains `>` or `<` |
| `Evaluator.ConditionIsBoolean` | gep_knapsack.py:43-50 | a tree of comparisons joined by `and`/`or` evaluates to the boolean its two-valued reading gives |
| `Decoder.Chosen` | gep_knapsack.py:68-74 | the selected indices are indices of items |
| `Decoder.ChosenExactly` | gep_knapsack.py:68-74 | index `i` is selected exactly when the tree gives `Bool(true)` on item `i`; the indices come out strictly increasing |
| `Decoder.Decode` | gep_knapsack.py:64-77 | feasibility: the result is either the selected indices with their weight and time sums, both within bounds, or `([], 0, 0)`; the selection is kept exactly when its weight and its time are both within their bounds |
| `Decoder.GetIncludedItems` | gep_knapsack.py:64-77 | the loop, with its running list and totals, returns exactly `Decode` |
| `Decoder.DecodeIncludesOnlyTrue` | gep_knapsack.py:68-77 | an included item is one where the tree is `True`; a numeric result, even a nonzero one, never includes an item; an accepted candidate includes every such item |
| `Decoder.NoComparisonChoosesNothing` | gep_knapsack.py:68-74 | a tree without a comparison selects no item |
| `Decoder.NoComparisonSelectsNothing` | gep_knapsack.py:64-82 | a tree without a comparison decodes to nothing and has fitness 0 |
| `Decoder.SumNonNegative` | gep_knapsack.py:81 | a sum of values over non-negative values is non-negative |
| `Decoder.Fitness` | gep_knapsack.py:79-82 | a rejected or empty selection has fitness 0, and fitness is never negative when no value is; `Decoder.ValueAboveThreeIsRejected` works one candidate through |
| `Decoder.ItemsHaveNonNegativeValues` | gep_knapsack.py:13-14 | every item of the program has a non-negative value |
| `Decoder.ProgramFitnessNonNegative` | gep_knapsack.py:13-14 | on the program's items, no tree has a negative fitness |
| `Decoder.ValueAboveThreeChooses` | gep_knapsack.py:13-14 | on the program's items, `(v > 3)` selects indices 1 to 6 |
| `Decoder.WeightOfItemsOneToSix` | gep_knapsack.py:13-14 | items 1 to 6 weigh 26 in total |
| `Decoder.ValueAboveThreeIsRejected` | gep_knapsack.py:64-82 | `(v > 3)` selects items weighing 26 > 15, so it decodes to `([], 0, 0)` and has fitness 0 |
| `Draws.Choose` | gep_knapsack.py:21-23 | the index drawn for a list of length `n` is below `n`, and is `floor(u * n)` |
| `GeneticOperators.RandomTerminal` | gep_knapsack.py:21 | a random terminal is a leaf of TERMINALS |
| `GeneticOperators.RandomFunction` | gep_knapsack.py:23 | the operator drawn is the entry of FUNCTIONS whose eighth of [0, 1) holds the draw |
| `GeneticOperators.EveryFunctionDrawable` | gep_knapsack.py:16 | every operator of FUNCTIONS is drawn by some draw |
| `GeneticOperators.CreateRandomExpression` | gep_knapsack.py:19-27 | the root of a tree generated at depth 0 is an operator, drawn from the first draw; past GENOME_DEPTH the result is a leaf; below the root and within GENOME_DEPTH the node is a leaf exactly when its first draw is under 0.3, and then it is the terminal picked by the next draw, otherwise its operator is picked by the next draw; every leaf comes from TERMINALS; the height is at most GENOME_DEPTH + 1 - depth; at least one draw is used |
| `GeneticOperators.Mutate` | gep_knapsack.py:84-95 | the result has the same shape, operator nodes where the input has them and leaves where it has leaves; leaves from TERMINALS stay in TERMINALS; when the root's draw is at least MUTATION_RATE its operator or leaf is kept, otherwise it is the operator or terminal picked by the next draw |
| `GeneticOperators.MutateWithoutHits` | gep_knapsack.py:84-95 | when none of the draws a tree uses is under MUTATION_RATE, mutation returns the tree unchanged after one draw per node |
| `GeneticOperators.MutateKeepsSizeAndHeight` | gep_knapsack.py:84-95 | mutation keeps the node count and the height |
| `GeneticOperators.Crossover` | gep_knapsack.py:97-109 | a leaf first parent is returned unchanged; at depth GENOME_DEPTH or more the first parent is returned whatever the draws; the result is an operator node exactly when the first parent is, and then it is the second parent or has the first parent's operator; a successful first coin below GENOME_DEPTH with two operator parents gives the second parent itself; a failed first coin over an operator first parent keeps its operator; the height is at most the taller parent's |
| `GeneticOperators.CrossoverWithoutHits` | gep_knapsack.py:97-109 | when none of the coins the walk draws succeeds, crossover returns the first parent unchanged, after one draw per pair of nodes visited |
| `GeneticOperators.CrossoverLeaves` | gep_knapsack.py:97-109 | every leaf of a crossover child is a leaf of the first or the second parent |
| `Evolution.InsertDescendingAdds` | gep_knapsack.py:120 | inserting into the ranking adds exactly that individual |
| `Evolution.InsertDescendingRanks` | gep_knapsack.py:120 | inserting into a ranking gives a ranking, with fitness never increasing |
| `Evolution.SortDescending` | gep_knapsack.py:120 | `sorted(..., reverse=True)` gives a permutation of the population with fitness never increasing |
| `Evolution.MaxKey` | gep_knapsack.py:120-121 | the best fitness bounds every individual and is reached by one of them |
| `Evolution.PermutationIndex` | gep_knapsack.py:120 | of two sequences with the same elements (the population and its ranking), each entry of one sits at some index of the other |
| `Evolution.FrontIsBest` | gep_knapsack.py:120-121 | the first individual of the ranking has the best fitness of the population |
| `Evolution.EliteCount` | gep_knapsack.py:121 | the slice `[:ELITISM_COUNT]` keeps ELITISM_COUNT individuals, or the whole population when it is smaller |
| `Evolution.ElitesAreBest` | gep_knapsack.py:120-121 | the elites and the rest together are the population, and no elite has lower fitness than any individual left behind |
| `Evolution.ShareOrder` | gep_knapsack.py:115 | with a positive total, the shares `sum / total` are ordered as the sums are, from 0 to 1 |
| `Evolution.RouletteIndex` | gep_knapsack.py:116 | the wheel stops on an individual of the population; `Evolution.RouletteLands` gives where |
| `Evolution.RouletteLands` | gep_knapsack.py:115-116 | with a positive total, the wheel stops at the first individual whose cumulative share exceeds the draw: the draw lies in that individual's share interval and past the end of every interval before it |
| `Evolution.PickLands` | gep_knapsack.py:115-116 | a weighted draw picks the individual whose interval of cumulative shares holds the draw, so, when no fitness is negative (`Decoder.ProgramFitnessNonNegative`), each is picked with chance equal to its share of the total fitness |
| `Evolution.PickIndex` | gep_knapsack.py:113-116 | one draw of `random.choices`, weighted or not, picks an individual of the population |
| `Evolution.Picks` | gep_knapsack.py:113-116 | POPULATION_SIZE draws with replacement, each from the population |
| `Evolution.Selection` | gep_knapsack.py:111-117 | `selection` returns exactly POPULATION_SIZE individuals, each a member of the population |
| `Evolution.RouletteHitsPositive` | gep_knapsack.py:115-116 | with a positive total fitness, the wheel never stops on an individual of fitness 0 or less |
| `Evolution.PickIsPositive` | gep_knapsack.py:115-116 | a weighted draw with a positive total picks an individual of positive fitness |
| `Evolution.PicksPositive` | gep_knapsack.py:115-116 | with a positive total, all draws pick individuals of positive fitness |
| `Evolution.SelectionPicksPositive` | gep_knapsack.py:111-117 | when the total fitness is positive, every selected parent has positive fitness |
| `Evolution.Offspring` | gep_knapsack.py:124-127 | a child of a well-formed pool is well formed, and no taller than the tallest tree in the pool |
| `Evolution.Breed` | gep_knapsack.py:123-128 | `n` passes of the loop give `n` children, well formed and within the pool's height bound |
| `Evolution.FillWithOffspring` | gep_knapsack.py:123-128 | the loop leaves the elites in front, stops at exactly POPULATION_SIZE, and appends exactly the children that `Breed` gives |
| `Evolution.Evolve` | gep_knapsack.py:119-129 | the new population has POPULATION_SIZE individuals; its first ELITISM_COUNT are the front of the fitness ranking; the rest are the bred children of the selected pool; its first individual has the old population's best fitness, so the best fitness never drops; well-formedness and height bounds carry over |
| `Evolution.NewPopulationKeepsBest` | gep_knapsack.py:120-121 | a population that starts with the elites has the old best at its front, and its best is no worse |
| `Evolution.RankingInherits` | gep_knapsack.py:120 | the ranking keeps well-formedness and height bounds, since it holds the same individuals |
| `Evolution.NewPopulationInherits` | gep_knapsack.py:119-129 | elites followed by offspring are all well formed, and all within a height bound, when the population and the offspring are |

## Left out

- The run at the end of the file is not modelled: the initial population, the
  generation loop, the final `max`, and printing the best rule and its items
  (gep_knapsack.py:137-154). It is reporting around the modelled operations.
- GENERATIONS (gep_knapsack.py:6) is used only by that run.
- The unused `math` import (gep_knapsack.py:2) is not modelled.
- Numbers are exact reals, not floats. Rounding, overflow to infinity and NaN
  are not modelled.
- The `except` branches of `evaluate_expression` (gep_knapsack.py:53-54, 61-62)
  cannot be reached once leaves are typed.
- The unknown-operator branch at gep_knapsack.py:51-52 cannot be reached either.
- The fitnesses are kept as integers, not as the float probabilities
  `fitness / total` built at gep_knapsack.py:115. The wheel compares the
  draw with exact shares of the total.
- The internals of the random generator are not modelled. Each draw is a
  parameter: a uniform real in [0, 1).
- `random.choice` (gep_knapsack.py:21, 23, 87, 93, 124-125) is taken as
  `floor(u * n)` over one draw. The standard library uses rejection sampling
  on random bits instead, so it may consume a different number of draws.
- `Evolution.RouletteIndex`: follows bisection over cumulative weights only when
  all fitnesses are non-negative. With negative fitnesses the cumulative shares
  are not monotone; the standard library's bisection then depends on the
  search order.
  The program's items all have non-negative values, so no fitness is negative
  for them (`Decoder.ProgramFitnessNonNegative`).
- `Evolution.SortDescending`: is a stable insertion sort, not Timsort. It is
  proved to be a non-increasing permutation; its stability (equal fitnesses
  keep their input order) is not proved.
- `Evolution.Evolve`: requires a nonempty population. With an empty one, the
  program's `selection` fails inside `random.choices`.
- The `depth` parameter of `mutate` (gep_knapsack.py:84) is passed down but
  never read, so the model leaves it out.
- Trees are a datatype. Lists with a wrong arity or an unknown operator
  string, which Python would allow, cannot be built.

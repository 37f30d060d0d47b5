/** One generation of the search: rank the population by fitness, keep the
    elites, draw a mating pool by fitness-proportionate selection, and fill the
    new population with mutated crossover offspring of that pool. */
module Evolution {
  import opened Expressions
  import opened Evaluator
  import opened Decoder
  import opened Draws
  import opened GeneticOperators

  const PopulationSize: nat := 20
  const ElitismCount: nat := 2

  predicate AllWellFormed(pop: seq<Expr>) {
    forall k :: 0 <= k < |pop| ==> WellFormed(pop[k])
  }

  predicate HeightsAtMost(pop: seq<Expr>, h: nat) {
    forall k :: 0 <= k < |pop| ==> Height(pop[k]) <= h
  }

  // ---------------------------------------------------------------------------
  // Ranking, by any key; the program ranks by fitness

  /** `fitness` as a key, the way `sorted`, `max` and `selection` use it. */
  function FitnessKey(items: seq<Item>): Expr -> int {
    e => Fitness(e, items)
  }

  predicate NonIncreasing(s: seq<Expr>, key: Expr -> int) {
    forall i, j :: 0 <= i < j < |s| ==> key(s[i]) >= key(s[j])
  }

  /** Places `x` after every element with at least its key, so that elements
      with equal keys keep their original order. */
  function InsertDescending(x: Expr, s: seq<Expr>, key: Expr -> int): seq<Expr> {
    if s == [] then [x]
    else if key(s[0]) >= key(x) then [s[0]] + InsertDescending(x, s[1..], key)
    else [x] + s
  }

  /** Insertion adds exactly `x` to the elements. */
  lemma {:induction false} InsertDescendingAdds(x: Expr, s: seq<Expr>, key: Expr -> int)
    ensures |InsertDescending(x, s, key)| == |s| + 1
    ensures multiset(InsertDescending(x, s, key)) == multiset(s) + multiset{x}
  {
    if s != [] && key(s[0]) >= key(x) {
      InsertDescendingAdds(x, s[1..], key);
      assert s == [s[0]] + s[1..];
    }
  }

  /** Insertion into a ranking gives a ranking. */
  lemma {:induction false} InsertDescendingRanks(x: Expr, s: seq<Expr>, key: Expr -> int)
    requires NonIncreasing(s, key)
    ensures NonIncreasing(InsertDescending(x, s, key), key)
  {
    if s != [] {
      if key(s[0]) >= key(x) {
        var tail := s[1..];
        var rest := InsertDescending(x, tail, key);
        assert NonIncreasing(tail, key) by {
          forall i, j | 0 <= i < j < |tail| ensures key(tail[i]) >= key(tail[j]) {
            assert tail[i] == s[i + 1] && tail[j] == s[j + 1];
          }
        }
        InsertDescendingRanks(x, tail, key);
        InsertDescendingAdds(x, tail, key);
        forall j | 0 <= j < |rest| ensures key(rest[j]) <= key(s[0]) {
          assert rest[j] in multiset(rest);
          if rest[j] != x {
            assert rest[j] in multiset(tail);
            var i :| 0 <= i < |tail| && tail[i] == rest[j];
            assert tail[i] == s[i + 1];
          }
        }
        var r := [s[0]] + rest;
        forall i, j | 0 <= i < j < |r| ensures key(r[i]) >= key(r[j]) {
          assert r[j] == rest[j - 1];
          if i > 0 {
            assert r[i] == rest[i - 1];
          }
        }
      } else {
        var r := [x] + s;
        forall i, j | 0 <= i < j < |r| ensures key(r[i]) >= key(r[j]) {
          assert r[j] == s[j - 1];
          if i > 0 {
            assert r[i] == s[i - 1];
          } else if j > 1 {
            assert key(s[0]) >= key(s[j - 1]);
          }
        }
      }
    }
  }

  /** `sorted(population, key=..., reverse=True)`, as a stable insertion sort:
      a permutation of the input whose keys never increase. */
  function SortDescending(pop: seq<Expr>, key: Expr -> int): (r: seq<Expr>)
    ensures |r| == |pop|
    ensures multiset(r) == multiset(pop)
    ensures NonIncreasing(r, key)
  {
    if pop == [] then []
    else
      var init := pop[..|pop| - 1];
      var last := pop[|pop| - 1];
      assert pop == init + [last];
      var sortedInit := SortDescending(init, key);
      InsertDescendingAdds(last, sortedInit, key);
      InsertDescendingRanks(last, sortedInit, key);
      InsertDescending(last, sortedInit, key)
  }

  /** The largest key in a nonempty population. */
  function MaxKey(pop: seq<Expr>, key: Expr -> int): (m: int)
    requires |pop| > 0
    ensures forall k :: 0 <= k < |pop| ==> key(pop[k]) <= m
    ensures exists k :: 0 <= k < |pop| && key(pop[k]) == m
  {
    if |pop| == 1 then key(pop[0])
    else
      var rest := MaxKey(pop[1..], key);
      assert forall k :: 1 <= k < |pop| ==> pop[k] == pop[1..][k - 1];
      if key(pop[0]) >= rest then key(pop[0]) else rest
  }

  /** Every element of a sequence sits somewhere in any permutation of it. */
  lemma PermutationIndex(a: seq<Expr>, b: seq<Expr>, i: nat) returns (j: nat)
    requires multiset(a) == multiset(b) && i < |a|
    ensures j < |b| && b[j] == a[i]
  {
    assert a[i] in multiset(a);
    assert a[i] in b;
    j :| 0 <= j < |b| && b[j] == a[i];
  }

  /** The first element of the ranking has the largest key. */
  lemma FrontIsBest(pop: seq<Expr>, key: Expr -> int)
    requires |pop| > 0
    ensures key(SortDescending(pop, key)[0]) == MaxKey(pop, key)
  {
    var s := SortDescending(pop, key);
    var m := MaxKey(pop, key);
    var k :| 0 <= k < |pop| && key(pop[k]) == m;
    var j := PermutationIndex(pop, s, k);
    var i := PermutationIndex(s, pop, 0);
    assert key(pop[i]) <= m;
    if j > 0 {
      assert key(s[0]) >= key(s[j]);
    }
  }

  /** Number of elites kept: ELITISM_COUNT, or the whole population if it is smaller. */
  function EliteCount(pop: seq<Expr>): (k: nat)
    ensures k <= |pop| && k <= ElitismCount
    ensures k == |pop| || k == ElitismCount
  {
    if |pop| < ElitismCount then |pop| else ElitismCount
  }

  /** The elites are the best: split at the elite count, the ranking keeps every
      individual of the population, and no elite has a smaller key than any
      individual left behind. */
  lemma ElitesAreBest(pop: seq<Expr>, key: Expr -> int)
    ensures var s := SortDescending(pop, key);
            var k := EliteCount(pop);
            && k <= |s|
            && multiset(s[..k]) + multiset(s[k..]) == multiset(pop)
            && forall i, j :: 0 <= i < k <= j < |s| ==> key(s[i]) >= key(s[j])
  {
    var s := SortDescending(pop, key);
    assert s == s[..EliteCount(pop)] + s[EliteCount(pop)..];
  }

  // ---------------------------------------------------------------------------
  // Selection

  /** Sum of the keys of the first `n` individuals. */
  function PrefixSum(pop: seq<Expr>, key: Expr -> int, n: nat): int
    requires n <= |pop|
  {
    if n == 0 then 0 else PrefixSum(pop, key, n - 1) + key(pop[n - 1])
  }

  /** `a / total`: a running sum of keys as a share of the total, one entry
      of the cumulative selection probabilities. */
  function Share(a: int, total: int): real
    requires total != 0
  {
    a as real / total as real
  }

  /** With a positive total, shares are ordered as the sums are, the empty sum
      is share 0 and the total is share 1. */
  lemma ShareOrder(a: int, b: int, total: int)
    requires total > 0
    ensures Share(a, total) < Share(b, total) <==> a < b
    ensures Share(0, total) == 0.0 && Share(total, total) == 1.0
  {
    var t := total as real;
    assert Share(a, total) * t == a as real;
    assert Share(b, total) * t == b as real;
    assert (Share(b, total) - Share(a, total)) * t == b as real - a as real;
  }

  /** The roulette wheel of `random.choices` over the normalised weights: the
      first index from `j` on whose cumulative probability exceeds the draw, or
      the last index if none before it does. */
  function RouletteIndex(pop: seq<Expr>, key: Expr -> int, total: int, u: Uniform, j: nat): (k: nat)
    requires j < |pop| && total != 0
    ensures j <= k < |pop|
    decreases |pop| - j
  {
    if j == |pop| - 1 || u < Share(PrefixSum(pop, key, j + 1), total) then j
    else RouletteIndex(pop, key, total, u, j + 1)
  }

  /** With a positive total, the wheel stops at the first individual from `j`
      on whose cumulative share exceeds the draw: the draw lies in that
      individual's share interval, and it is at or past the end of every
      interval before it. So each individual is picked for draws in an
      interval as wide as its share of the total. */
  lemma {:induction false} RouletteLands(pop: seq<Expr>, key: Expr -> int, total: int, u: Uniform, j: nat)
    requires j < |pop| && total == PrefixSum(pop, key, |pop|) > 0
    requires Share(PrefixSum(pop, key, j), total) <= u
    ensures var k := RouletteIndex(pop, key, total, u, j);
            && Share(PrefixSum(pop, key, k), total) <= u < Share(PrefixSum(pop, key, k + 1), total)
            && forall i :: j < i <= k ==> Share(PrefixSum(pop, key, i), total) <= u
    decreases |pop| - j
  {
    if j == |pop| - 1 {
      ShareOrder(total, total, total);
    } else if Share(PrefixSum(pop, key, j + 1), total) <= u {
      RouletteLands(pop, key, total, u, j + 1);
    }
  }

  /** One weighted draw lands in the share interval of the individual it picks,
      and past the intervals of all individuals before it. */
  lemma PickLands(pop: seq<Expr>, key: Expr -> int, u: Uniform)
    requires |pop| > 0 && PrefixSum(pop, key, |pop|) > 0
    ensures var total := PrefixSum(pop, key, |pop|);
            var k := PickIndex(pop, key, total, u);
            && Share(PrefixSum(pop, key, k), total) <= u < Share(PrefixSum(pop, key, k + 1), total)
            && forall i :: 0 < i <= k ==> Share(PrefixSum(pop, key, i), total) <= u
  {
    var total := PrefixSum(pop, key, |pop|);
    ShareOrder(0, 0, total);
    RouletteLands(pop, key, total, u, 0);
  }

  /** One draw of `random.choices`: uniform when the total is 0, by the
      normalised keys otherwise. */
  function PickIndex(pop: seq<Expr>, key: Expr -> int, total: int, u: Uniform): (k: nat)
    requires |pop| > 0
    ensures k < |pop|
  {
    if total == 0 then Choose(u, |pop|) else RouletteIndex(pop, key, total, u, 0)
  }

  /** POPULATION_SIZE draws with replacement, by key, from consecutive
      positions of the stream. */
  function Picks(pop: seq<Expr>, key: Expr -> int, rng: Rng, pos: nat): (r: seq<Expr>)
    requires |pop| > 0
    ensures |r| == PopulationSize
    ensures forall k :: 0 <= k < |r| ==> r[k] in pop
  {
    var total := PrefixSum(pop, key, |pop|);
    var r := seq(PopulationSize, k requires 0 <= k < PopulationSize => pop[PickIndex(pop, key, total, rng(pos + k))]);
    assert forall k :: 0 <= k < |r| ==> r[k] == pop[PickIndex(pop, key, total, rng(pos + k))];
    r
  }

  /** `selection`: POPULATION_SIZE draws with replacement from the population,
      proportional to fitness, or uniform when the total fitness is 0. */
  function Selection(pop: seq<Expr>, items: seq<Item>, rng: Rng, pos: nat): (r: seq<Expr>)
    requires |pop| > 0
    ensures |r| == PopulationSize
    ensures forall k :: 0 <= k < |r| ==> r[k] in pop
  {
    Picks(pop, FitnessKey(items), rng, pos)
  }

  /** With a positive total, a draw past the shares before `j` lands on an
      individual with a positive key. */
  lemma {:induction false} RouletteHitsPositive(pop: seq<Expr>, key: Expr -> int, total: int, u: Uniform, j: nat)
    requires j < |pop| && total == PrefixSum(pop, key, |pop|) > 0
    requires Share(PrefixSum(pop, key, j), total) <= u
    ensures key(pop[RouletteIndex(pop, key, total, u, j)]) > 0
    decreases |pop| - j
  {
    if j < |pop| - 1 && Share(PrefixSum(pop, key, j + 1), total) <= u {
      RouletteHitsPositive(pop, key, total, u, j + 1);
    } else {
      ShareOrder(PrefixSum(pop, key, j), PrefixSum(pop, key, j + 1), total);
    }
  }

  /** With a positive total, no draw picks an individual whose key is 0 or less. */
  lemma PicksPositive(pop: seq<Expr>, key: Expr -> int, rng: Rng, pos: nat)
    requires |pop| > 0
    requires PrefixSum(pop, key, |pop|) > 0
    ensures forall k :: 0 <= k < PopulationSize ==> key(Picks(pop, key, rng, pos)[k]) > 0
  {
    var total := PrefixSum(pop, key, |pop|);
    var r := Picks(pop, key, rng, pos);
    forall k | 0 <= k < PopulationSize
      ensures key(r[k]) > 0
    {
      PickIsPositive(pop, key, total, rng(pos + k));
      assert r[k] == pop[PickIndex(pop, key, total, rng(pos + k))];
    }
  }

  /** One draw with a positive total lands on an individual with a positive key. */
  lemma PickIsPositive(pop: seq<Expr>, key: Expr -> int, total: int, u: Uniform)
    requires |pop| > 0
    requires total == PrefixSum(pop, key, |pop|) > 0
    ensures key(pop[PickIndex(pop, key, total, u)]) > 0
  {
    ShareOrder(0, 0, total);
    RouletteHitsPositive(pop, key, total, u, 0);
  }

  /** When the total fitness is positive, selection never picks an individual
      of fitness 0 or less. */
  lemma SelectionPicksPositive(pop: seq<Expr>, items: seq<Item>, rng: Rng, pos: nat)
    requires |pop| > 0
    requires PrefixSum(pop, FitnessKey(items), |pop|) > 0
    ensures forall k :: 0 <= k < PopulationSize ==> Fitness(Selection(pop, items, rng, pos)[k], items) > 0
  {
    PicksPositive(pop, FitnessKey(items), rng, pos);
  }

  // ---------------------------------------------------------------------------
  // Offspring

  /** One pass of the breeding loop: two parents drawn from the pool, crossed
      over, then mutated. Offspring of well-formed parents are well formed and
      no taller than the tallest of the pool. */
  function Offspring(pool: seq<Expr>, rng: Rng, pos: nat): (r: (Expr, nat))
    requires |pool| > 0
    ensures AllWellFormed(pool) ==> WellFormed(r.0)
    ensures forall h: nat :: HeightsAtMost(pool, h) ==> Height(r.0) <= h
  {
    var parent1 := pool[Choose(rng(pos), |pool|)];
    var parent2 := pool[Choose(rng(pos + 1), |pool|)];
    var child := Crossover(parent1, parent2, rng, pos + 2, 0);
    MutateKeepsSizeAndHeight(child.0, rng, child.1);
    Mutate(child.0, rng, child.1)
  }

  /** The first `n` offspring bred from the pool, with the position after them. */
  function Breed(pool: seq<Expr>, rng: Rng, pos: nat, n: nat): (r: (seq<Expr>, nat))
    requires |pool| > 0
    ensures |r.0| == n
    ensures AllWellFormed(pool) ==> AllWellFormed(r.0)
    ensures forall h: nat :: HeightsAtMost(pool, h) ==> HeightsAtMost(r.0, h)
  {
    if n == 0 then ([], pos)
    else
      var prev := Breed(pool, rng, pos, n - 1);
      var child := Offspring(pool, rng, prev.1);
      (prev.0 + [child.0], child.1)
  }

  /** The breeding loop of `evolve`: offspring of the pool are appended until
      the population is full. */
  method FillWithOffspring(front: seq<Expr>, pool: seq<Expr>, rng: Rng, pos: nat)
    returns (newPopulation: seq<Expr>, next: nat)
    requires |pool| > 0 && |front| <= PopulationSize
    ensures |newPopulation| == PopulationSize
    ensures newPopulation[..|front|] == front
    ensures (newPopulation[|front|..], next) == Breed(pool, rng, pos, PopulationSize - |front|)
  {
    newPopulation, next := front, pos;
    assert newPopulation[|front|..] == [];
    while |newPopulation| < PopulationSize
      invariant |front| <= |newPopulation| <= PopulationSize
      invariant newPopulation[..|front|] == front
      invariant (newPopulation[|front|..], next) == Breed(pool, rng, pos, |newPopulation| - |front|)
      decreases PopulationSize - |newPopulation|
    {
      var parent1 := pool[Choose(rng(next), |pool|)];
      var parent2 := pool[Choose(rng(next + 1), |pool|)];
      var child := Crossover(parent1, parent2, rng, next + 2, 0);
      child := Mutate(child.0, rng, child.1);
      assert child == Offspring(pool, rng, next);
      assert (newPopulation + [child.0])[|front|..] == newPopulation[|front|..] + [child.0];
      newPopulation := newPopulation + [child.0];
      next := child.1;
    }
  }

  /** `evolve`: the elites of the ranking, then offspring of the mating pool
      until the population is full. The new population has POPULATION_SIZE
      individuals, its front is the old population's best, so the best fitness
      never drops; well-formedness and height bounds carry over. */
  method Evolve(population: seq<Expr>, items: seq<Item>, rng: Rng, pos: nat)
    returns (newPopulation: seq<Expr>, next: nat)
    requires |population| > 0
    ensures |newPopulation| == PopulationSize
    ensures newPopulation[..EliteCount(population)] == SortDescending(population, FitnessKey(items))[..EliteCount(population)]
    ensures (newPopulation[EliteCount(population)..], next)
            == Breed(Selection(population, items, rng, pos), rng, pos + PopulationSize,
                     PopulationSize - EliteCount(population))
    ensures Fitness(newPopulation[0], items) == MaxKey(population, FitnessKey(items))
    ensures MaxKey(newPopulation, FitnessKey(items)) >= MaxKey(population, FitnessKey(items))
    ensures AllWellFormed(population) ==> AllWellFormed(newPopulation)
    ensures forall h: nat :: HeightsAtMost(population, h) ==> HeightsAtMost(newPopulation, h)
  {
    var key := FitnessKey(items);
    var sorted := SortDescending(population, key);
    var elites := EliteCount(population);
    var selectedParents := Selection(population, items, rng, pos);
    var front := sorted[..elites];
    assert |front| == elites;
    newPopulation, next := FillWithOffspring(front, selectedParents, rng, pos + PopulationSize);
    PoolInherits(population, selectedParents);
    NewPopulationKeepsBest(population, key, newPopulation);
    RankingInherits(population, key);
    NewPopulationInherits(population, sorted, elites, newPopulation);
  }

  /** A population that starts with the elites of the ranking has the old best
      at its front, so its best is no worse. */
  lemma NewPopulationKeepsBest(population: seq<Expr>, key: Expr -> int, newPopulation: seq<Expr>)
    requires |population| > 0
    requires EliteCount(population) <= |newPopulation|
    requires newPopulation[..EliteCount(population)] == SortDescending(population, key)[..EliteCount(population)]
    ensures key(newPopulation[0]) == MaxKey(population, key)
    ensures MaxKey(newPopulation, key) >= MaxKey(population, key)
  {
    FrontIsBest(population, key);
    var elites := EliteCount(population);
    assert newPopulation[0] == newPopulation[..elites][0];
  }

  /** A population that starts with a prefix of the ranking and goes on with
      offspring is well formed, and within a height bound, whenever the old
      population, its ranking and the offspring are. */
  lemma NewPopulationInherits(population: seq<Expr>, ranked: seq<Expr>, elites: nat, newPopulation: seq<Expr>)
    requires elites <= |newPopulation| && elites <= |ranked|
    requires newPopulation[..elites] == ranked[..elites]
    requires AllWellFormed(population) ==> AllWellFormed(ranked) && AllWellFormed(newPopulation[elites..])
    requires forall h: nat :: HeightsAtMost(population, h) ==>
               HeightsAtMost(ranked, h) && HeightsAtMost(newPopulation[elites..], h)
    ensures AllWellFormed(population) ==> AllWellFormed(newPopulation)
    ensures forall h: nat :: HeightsAtMost(population, h) ==> HeightsAtMost(newPopulation, h)
  {
    var front := newPopulation[..elites];
    var offspring := newPopulation[elites..];
    assert newPopulation == front + offspring;
    if AllWellFormed(population) {
      assert AllWellFormed(front) by {
        assert forall k :: 0 <= k < elites ==> front[k] == ranked[k];
      }
      WellFormedConcat(front, offspring);
    }
    forall h: nat | HeightsAtMost(population, h) ensures HeightsAtMost(newPopulation, h) {
      assert HeightsAtMost(front, h) by {
        assert forall k :: 0 <= k < elites ==> front[k] == ranked[k];
      }
      HeightsConcat(front, offspring, h);
    }
  }

  /** The ranking holds the same individuals, so it keeps what holds of each of them. */
  lemma RankingInherits(pop: seq<Expr>, key: Expr -> int)
    ensures AllWellFormed(pop) ==> AllWellFormed(SortDescending(pop, key))
    ensures forall h: nat :: HeightsAtMost(pop, h) ==> HeightsAtMost(SortDescending(pop, key), h)
  {
    var s := SortDescending(pop, key);
    forall k | 0 <= k < |s| ensures exists i :: 0 <= i < |pop| && pop[i] == s[k] {
      var i := PermutationIndex(s, pop, k);
    }
  }

  lemma WellFormedConcat(a: seq<Expr>, b: seq<Expr>)
    requires AllWellFormed(a) && AllWellFormed(b)
    ensures AllWellFormed(a + b)
  {
    forall k | 0 <= k < |a + b| ensures WellFormed((a + b)[k]) {
      if k >= |a| {
        assert (a + b)[k] == b[k - |a|];
      }
    }
  }

  lemma HeightsConcat(a: seq<Expr>, b: seq<Expr>, h: nat)
    requires HeightsAtMost(a, h) && HeightsAtMost(b, h)
    ensures HeightsAtMost(a + b, h)
  {
    forall k | 0 <= k < |a + b| ensures Height((a + b)[k]) <= h {
      if k >= |a| {
        assert (a + b)[k] == b[k - |a|];
      }
    }
  }

  /** The mating pool is drawn from the population. */
  lemma PoolInherits(population: seq<Expr>, pool: seq<Expr>)
    requires forall k :: 0 <= k < |pool| ==> pool[k] in population
    ensures AllWellFormed(population) ==> AllWellFormed(pool)
    ensures forall h: nat :: HeightsAtMost(population, h) ==> HeightsAtMost(pool, h)
  {
  }
}

/**
 * The genetic algorithm's driver (backend/app/algorithm/scheduler_main.py):
 * the population sort, elitism, roulette selection, single-gene crossover,
 * the greedy re-draw mutation, the rotation and swap mutations, and the
 * generation loop. Every random number is a parameter: `random.random()`
 * is a 53-bit draw, and `randrange(n)` and `random.choice` take a draw
 * modulo the range.
 */
module Scheduler {
  import opened Common
  import opened Pool
  import opened Gene
  import opened Chromosome

  /** `_custom_mutation` gives up after this many attempts. */
  const MaxAttempts := 500000
  /** `select_parent_best` picks among at most this many chromosomes. */
  const BestPool := 100
  /** `random.random()` returns a multiple of 2^-53 in [0, 1). */
  const RandomScale := 0x20_0000_0000_0000

  datatype Settings = Settings(cfg: Config, populationSize: nat, maxGenerations: nat, crossoverRate: real)

  function Min(a: int, b: int): int {
    if a <= b then a else b
  }

  /** `random.random()` for the draw d. */
  function Unit(d: nat): (u: real)
    ensures 0.0 <= u < 1.0
  {
    (d % RandomScale) as real / RandomScale as real
  }

  /** One gene per group, each covering the week. */
  predicate Fits(cfg: Config, c: Chromosome) {
    |c.genes| == cfg.groups && Covers(c.genes, Slots(cfg))
  }

  /** Every chromosome fits the configuration. */
  predicate Shaped(cfg: Config, xs: seq<Chromosome>) {
    forall k :: 0 <= k < |xs| ==> Fits(cfg, xs[k])
  }

  /** Every chromosome's genes are permutations of their groups' pool ranges. */
  ghost predicate AllWellFormed(cfg: Config, xs: seq<Chromosome>) {
    forall k :: 0 <= k < |xs| ==> WellFormed(cfg, xs[k].genes)
  }

  // Sorting: `sort(reverse=True)` with the inverted `__lt__`.

  /** No chromosome is `<` a later one: the order `sort(reverse=True)` produces. */
  predicate ReverseSorted(xs: seq<Chromosome>) {
    forall i, j :: 0 <= i < j < |xs| ==> !Less(xs[i], xs[j])
  }

  predicate Ascending(xs: seq<Chromosome>) {
    forall i, j :: 0 <= i < j < |xs| ==> xs[i].fitness <= xs[j].fitness
  }

  /** Because `a < b` means higher fitness, the reverse-sorted order is ascending fitness: the worst come first. */
  lemma ReverseSortedIsAscending(xs: seq<Chromosome>)
    ensures ReverseSorted(xs) <==> Ascending(xs)
  {
  }

  /** Puts x before the first chromosome that is not `<` it, after all that are. */
  function Insert(x: Chromosome, xs: seq<Chromosome>): (r: seq<Chromosome>)
    ensures multiset(r) == multiset{x} + multiset(xs)
  {
    if |xs| == 0 then [x]
    else if !Less(x, xs[0]) then [x] + xs
    else
      assert xs == [xs[0]] + xs[1..];
      [xs[0]] + Insert(x, xs[1..])
  }

  lemma {:induction false} InsertSorted(x: Chromosome, xs: seq<Chromosome>)
    requires ReverseSorted(xs)
    ensures ReverseSorted(Insert(x, xs))
    decreases |xs|
  {
    var r := Insert(x, xs);
    if |xs| > 0 && Less(x, xs[0]) {
      var tail := Insert(x, xs[1..]);
      InsertSorted(x, xs[1..]);
      assert r == [xs[0]] + tail;
      forall j | 1 <= j < |r|
        ensures !Less(xs[0], r[j])
      {
        var y := r[j];
        assert y == tail[j - 1];
        assert y in multiset(tail);
        if y != x {
          assert y in multiset(xs[1..]);
          var m :| 0 <= m < |xs[1..]| && xs[1..][m] == y;
          assert y == xs[m + 1];
        }
      }
    } else if |xs| > 0 {
      forall j | 1 <= j < |r|
        ensures !Less(x, r[j])
      {
        assert r[j] == xs[j - 1];
      }
    }
  }

  /** `list.sort(reverse=True)` with chromosome comparison. */
  function SortReverse(xs: seq<Chromosome>): (r: seq<Chromosome>)
    ensures multiset(r) == multiset(xs)
    ensures ReverseSorted(r)
  {
    if |xs| == 0 then []
    else
      assert xs == [xs[0]] + xs[1..];
      InsertSorted(xs[0], SortReverse(xs[1..]));
      Insert(xs[0], SortReverse(xs[1..]))
  }

  lemma SortReverseFacts(xs: seq<Chromosome>)
    ensures |SortReverse(xs)| == |xs|
    ensures Ascending(SortReverse(xs))
    ensures forall y :: y in SortReverse(xs) <==> y in xs
  {
    var r := SortReverse(xs);
    assert |multiset(r)| == |multiset(xs)|;
    forall y
      ensures y in r <==> y in xs
    {
      assert y in r <==> y in multiset(r);
      assert y in xs <==> y in multiset(xs);
    }
  }

  // Selection.

  /** `first_list[:population_size // 10]`: slicing stops at the list's end. */
  function EliteList(s: Settings, first: seq<Chromosome>): (r: seq<Chromosome>)
    ensures |r| == Min(s.populationSize / 10, |first|)
    ensures r == first[..|r|]
  {
    first[..Min(s.populationSize / 10, |first|)]
  }

  /** The fitness total of xs, summed from the front. */
  function SumFitness(xs: seq<Chromosome>): real {
    if |xs| == 0 then 0.0 else SumFitness(xs[..|xs| - 1]) + xs[|xs| - 1].fitness
  }

  /** One roulette spin: the `random.choice` draw and the `random.uniform` draw. */
  datatype Spin = Spin(pick: nat, wheel: nat)

  /** `current_sum` once element q has been added. */
  function RunningSum(xs: seq<Chromosome>, q: nat): real
    requires q < |xs|
  {
    SumFitness(xs[..q + 1])
  }

  /** The roulette loop from index k; the last index if no running sum reaches `target`. */
  function RouletteScan(xs: seq<Chromosome>, target: real, k: nat): (r: nat)
    requires |xs| > 0 && k < |xs|
    ensures k <= r < |xs|
    ensures RunningSum(xs, r) >= target || r == |xs| - 1
    ensures forall q :: k <= q < r ==> RunningSum(xs, q) < target
    decreases |xs| - k
  {
    if RunningSum(xs, k) >= target || k == |xs| - 1 then k
    else RouletteScan(xs, target, k + 1)
  }

  /**
   * `_select_parent_roulette`'s index into the elite list: uniform by the
   * choice draw when the elite's total fitness is 0; otherwise the first
   * index whose running sum reaches a point drawn uniformly in [0, total).
   */
  function RouletteIndex(elite: seq<Chromosome>, spin: Spin): (k: nat)
    requires |elite| > 0
    ensures k < |elite|
    ensures SumFitness(elite) == 0.0 ==> k == spin.pick % |elite|
    ensures SumFitness(elite) > 0.0 ==>
      var target := SumFitness(elite) * Unit(spin.wheel);
      RunningSum(elite, k) >= target &&
      forall q :: 0 <= q < k ==> RunningSum(elite, q) < target
  {
    var total := SumFitness(elite);
    if total == 0.0 then spin.pick % |elite|
    else
      var target := total * Unit(spin.wheel);
      var k := RouletteScan(elite, target, 0);
      if total > 0.0 then RouletteReaches(elite, spin); k else k
  }

  /** The chromosome roulette selection returns: a copy of an elite member; the population is left as it was. */
  function Roulette(s: Settings, first: seq<Chromosome>, spin: Spin): (c: Chromosome)
    requires |EliteList(s, first)| > 0
    ensures c in EliteList(s, first)
  {
    var elite := EliteList(s, first);
    elite[RouletteIndex(elite, spin)]
  }

  /** With a positive total, a running sum always reaches the drawn point, so the fallback to the last element is dead. */
  lemma RouletteReaches(elite: seq<Chromosome>, spin: Spin)
    requires |elite| > 0 && SumFitness(elite) > 0.0
    ensures RunningSum(elite, |elite| - 1) >= SumFitness(elite) * Unit(spin.wheel)
  {
    var total := SumFitness(elite);
    assert elite[..|elite|] == elite;
    assert total * Unit(spin.wheel) <= total * 1.0;
  }

  /** `select_parent_best`: a copy of one of the first (at most) 100 chromosomes. */
  function SelectParentBest(xs: seq<Chromosome>, d: nat): (c: Chromosome)
    requires |xs| > 0
    ensures exists k :: 0 <= k < Min(BestPool, |xs|) && c == xs[k]
  {
    xs[d % Min(BestPool, |xs|)]
  }

  // Crossover.

  /** Replaces gene k of `into` with gene k of `from` and recomputes the fitness. */
  function TakeGene(cfg: Config, into: Chromosome, from: Chromosome, k: nat): (c: Chromosome)
    requires Fits(cfg, into) && Fits(cfg, from) && k < cfg.groups
    ensures Fits(cfg, c) && Evaluated(cfg, c)
    ensures c.genes[k] == from.genes[k]
    ensures forall j :: 0 <= j < cfg.groups && j != k ==> c.genes[j] == into.genes[j]
  {
    Evaluate(cfg, into.genes[k := from.genes[k]])
  }

  /**
   * `_crossover`: gene `randrange(nostudentgroup)` is exchanged between the
   * parents, and the father's child is returned only when it is strictly
   * fitter than the mother's.
   */
  function Crossover(cfg: Config, father: Chromosome, mother: Chromosome, d: nat): (c: Chromosome)
    requires cfg.groups > 0 && Fits(cfg, father) && Fits(cfg, mother)
    ensures var k := d % cfg.groups;
      var sonOfFather := TakeGene(cfg, father, mother, k);
      var sonOfMother := TakeGene(cfg, mother, father, k);
      (c == sonOfFather && c.fitness > sonOfMother.fitness) ||
      (c == sonOfMother && c.fitness >= sonOfFather.fitness)
  {
    var k := d % cfg.groups;
    var f := TakeGene(cfg, father, mother, k);
    var m := TakeGene(cfg, mother, father, k);
    if f.fitness > m.fitness then f else m
  }

  /** Each gene of the crossover child is the same-index gene of one of the parents. */
  lemma CrossoverMixesParents(cfg: Config, father: Chromosome, mother: Chromosome, d: nat)
    requires cfg.groups > 0 && Fits(cfg, father) && Fits(cfg, mother)
    ensures var c := Crossover(cfg, father, mother, d);
      Fits(cfg, c) && Evaluated(cfg, c) &&
      forall j :: 0 <= j < cfg.groups ==> c.genes[j] == father.genes[j] || c.genes[j] == mother.genes[j]
  {
  }

  // Mutation.

  /** The draws of `_custom_mutation`: which gene, and the draws for each new gene it tries. */
  datatype MutationDraws = MutationDraws(gene: nat, attempts: nat -> GeneDraws)

  /** The gene each attempt would build for group k: `Gene(...)` from that attempt's draws. */
  function FreshGenes(cfg: Config, k: nat, draws: nat -> GeneDraws): (attempt: nat -> Gene)
  {
    (a: nat) => NewGene(cfg.pool, k, cfg.days, cfg.hours, cfg.lunch, draws(a))
  }

  lemma FreshGenesSize(cfg: Config, k: nat, draws: nat -> GeneDraws)
    ensures forall a: nat :: |FreshGenes(cfg, k, draws)(a).slotno| == Slots(cfg)
  {
    forall a: nat
      ensures |FreshGenes(cfg, k, draws)(a).slotno| == Slots(cfg)
    {
      assert FreshGenes(cfg, k, draws)(a) == NewGene(cfg.pool, k, cfg.days, cfg.hours, cfg.lunch, draws(a));
    }
  }

  /**
   * The mutation loop from attempt `tried`: gene k is replaced by the
   * attempt's fresh gene until the fitness is at least `target` or the
   * attempts run out. Returns the chromosome and the number of attempts made.
   */
  function MutateFrom(cfg: Config, c: Chromosome, target: real, k: nat, attempt: nat -> Gene, tried: nat): (r: (Chromosome, nat))
    requires Fits(cfg, c) && k < cfg.groups
    requires forall a: nat :: |attempt(a).slotno| == Slots(cfg)
    requires tried < MaxAttempts
    ensures tried < r.1 <= MaxAttempts
    ensures Fits(cfg, r.0) && Evaluated(cfg, r.0)
    ensures forall j :: 0 <= j < cfg.groups && j != k ==> r.0.genes[j] == c.genes[j]
    ensures exists a :: tried <= a < r.1 && r.0.genes[k] == attempt(a)
    ensures r.1 < MaxAttempts ==> r.0.fitness >= target
    decreases MaxAttempts - tried
  {
    var genes := c.genes[k := attempt(tried)];
    var next := Evaluate(cfg, genes);
    if next.fitness >= target || tried + 1 >= MaxAttempts then (next, tried + 1)
    else
      MutateFrom(cfg, next, target, k, attempt, tried + 1)
  }

  /**
   * `_custom_mutation`: only gene `randrange(nostudentgroup)` changes; at most
   * 500000 attempts; unless the cap is what stopped it, the new fitness is at
   * least the old one.
   */
  function CustomMutation(cfg: Config, c: Chromosome, d: MutationDraws): (r: (Chromosome, nat))
    requires cfg.groups > 0 && Fits(cfg, c)
    ensures 1 <= r.1 <= MaxAttempts
    ensures Fits(cfg, r.0) && Evaluated(cfg, r.0)
    ensures forall j :: 0 <= j < cfg.groups && j != d.gene % cfg.groups ==> r.0.genes[j] == c.genes[j]
    ensures r.1 < MaxAttempts ==> r.0.fitness >= Fitness(cfg, c.genes)
  {
    var k := d.gene % cfg.groups;
    FreshGenesSize(cfg, k, d.attempts);
    MutateFrom(cfg, c, Fitness(cfg, c.genes), k, FreshGenes(cfg, k, d.attempts), 0)
  }

  /** The mutated gene is a fresh gene for its own group, so a well-formed chromosome stays well-formed. */
  lemma CustomMutationWellFormed(cfg: Config, c: Chromosome, d: MutationDraws)
    requires cfg.groups > 0 && Fits(cfg, c) && WellFormed(cfg, c.genes)
    ensures WellFormed(cfg, CustomMutation(cfg, c, d).0.genes)
  {
    var k := d.gene % cfg.groups;
    var attempt := FreshGenes(cfg, k, d.attempts);
    FreshGenesSize(cfg, k, d.attempts);
    var r := MutateFrom(cfg, c, Fitness(cfg, c.genes), k, attempt, 0);
    var a :| 0 <= a < r.1 && r.0.genes[k] == attempt(a);
    assert attempt(a) == NewGene(cfg.pool, k, cfg.days, cfg.hours, cfg.lunch, d.attempts(a));
    GeneIsPermutation(cfg.pool, k, cfg.days, cfg.hours, cfg.lunch, d.attempts(a));
    WellFormedFromParents(cfg, c.genes, c.genes, r.0.genes, k);
  }

  /** Moves the first entry to the end. */
  function Rotate(s: seq<int>): (r: seq<int>)
    requires |s| > 0
    ensures |r| == |s|
    ensures r[|s| - 1] == s[0]
    ensures forall i :: 0 <= i < |s| - 1 ==> r[i] == s[i + 1]
  {
    s[1..] + [s[0]]
  }

  /** A rotation is a permutation. */
  lemma RotatePermutes(s: seq<int>)
    requires |s| > 0
    ensures multiset(Rotate(s)) == multiset(s)
  {
    assert s == [s[0]] + s[1..];
  }

  function RotateTimes(s: seq<int>, n: nat): (r: seq<int>)
    requires |s| > 0
    ensures |r| == |s|
  {
    if n == 0 then s else Rotate(RotateTimes(s, n - 1))
  }

  /** n rotations move the first n entries to the end; |s| rotations restore the gene. */
  lemma {:induction false} RotateTimesSplit(s: seq<int>, n: nat)
    requires 0 < |s| && n <= |s|
    ensures RotateTimes(s, n) == s[n..] + s[..n]
  {
    if n > 0 {
      RotateTimesSplit(s, n - 1);
      RotateStep(s, n);
    }
  }

  lemma RotateStep(s: seq<int>, n: nat)
    requires 0 < n <= |s|
    ensures Rotate(s[n - 1..] + s[..n - 1]) == s[n..] + s[..n]
  {
    var t := s[n - 1..] + s[..n - 1];
    assert t[1..] == s[n..] + s[..n - 1];
    assert s[..n] == s[..n - 1] + [s[n - 1]];
    calc {
      Rotate(t);
      t[1..] + [t[0]];
      (s[n..] + s[..n - 1]) + [s[n - 1]];
      { SeqAssoc(s[n..], s[..n - 1], [s[n - 1]]); }
      s[n..] + s[..n];
    }
  }

  lemma RotateFullCircle(s: seq<int>)
    requires |s| > 0
    ensures RotateTimes(s, |s|) == s
  {
    RotateTimesSplit(s, |s|);
  }

  /** `mutation_simple`: gene `randrange(nostudentgroup)` is rotated left by one, and the fitness recomputed. */
  function MutationSimple(cfg: Config, c: Chromosome, d: nat): (r: Chromosome)
    requires cfg.groups > 0 && Fits(cfg, c)
    requires |c.genes[d % cfg.groups].slotno| > 0
    ensures Fits(cfg, r) && Evaluated(cfg, r)
    ensures forall j :: 0 <= j < cfg.groups && j != d % cfg.groups ==> r.genes[j] == c.genes[j]
    ensures multiset(r.genes[d % cfg.groups].slotno) == multiset(c.genes[d % cfg.groups].slotno)
  {
    var k := d % cfg.groups;
    RotatePermutes(c.genes[k].slotno);
    Evaluate(cfg, c.genes[k := Gene(Rotate(c.genes[k].slotno))])
  }

  /** Exchanges entries p and q. */
  function Swap(s: seq<int>, p: nat, q: nat): (r: seq<int>)
    requires p < |s| && q < |s|
    ensures |r| == |s| && multiset(r) == multiset(s)
    ensures r[p] == s[q] && r[q] == s[p]
    ensures forall i :: 0 <= i < |s| && i != p && i != q ==> r[i] == s[i]
  {
    s[p := s[q]][q := s[p]]
  }

  lemma SwapTwice(s: seq<int>, p: nat, q: nat)
    requires p < |s| && q < |s|
    ensures Swap(Swap(s, p, q), p, q) == s
  {
  }

  /** `swap_mutation`: two entries `randrange(total_slots)` of gene `randrange(nostudentgroup)` are exchanged. */
  function SwapMutation(cfg: Config, c: Chromosome, d: nat, d1: nat, d2: nat): (r: Chromosome)
    requires cfg.groups > 0 && Slots(cfg) > 0
    requires Fits(cfg, c)
    ensures Fits(cfg, r) && Evaluated(cfg, r)
    ensures forall j :: 0 <= j < cfg.groups && j != d % cfg.groups ==> r.genes[j] == c.genes[j]
    ensures multiset(r.genes[d % cfg.groups].slotno) == multiset(c.genes[d % cfg.groups].slotno)
  {
    var k := d % cfg.groups;
    var genes := c.genes[k := Gene(Swap(c.genes[k].slotno, d1 % Slots(cfg), d2 % Slots(cfg)))];
    Evaluate(cfg, genes)
  }

  /** Rotation and swap keep every gene a permutation of its group's range. */
  lemma SimpleMutationsWellFormed(cfg: Config, c: Chromosome, d: nat, d1: nat, d2: nat)
    requires cfg.groups > 0 && Slots(cfg) > 0 && Fits(cfg, c)
    requires WellFormed(cfg, c.genes)
    ensures WellFormed(cfg, MutationSimple(cfg, c, d).genes) && WellFormed(cfg, SwapMutation(cfg, c, d, d1, d2).genes)
  {
    var k := d % cfg.groups;
    assert GeneWellFormed(cfg, c.genes, k);
    WellFormedFromParents(cfg, c.genes, c.genes, MutationSimple(cfg, c, d).genes, k);
    WellFormedFromParents(cfg, c.genes, c.genes, SwapMutation(cfg, c, d, d1, d2).genes, k);
  }

  // The generation loop.

  /** The draws for one new chromosome. */
  datatype ChildDraws = ChildDraws(father: Spin, mother: Spin, coin: nat, crossIndex: nat, mutation: MutationDraws)

  /** What roulette selection needs: a non-empty elite, and chromosomes of the right shape. */
  predicate CanSelect(s: Settings, first: seq<Chromosome>) {
    s.cfg.groups > 0 && |EliteList(s, first)| > 0 && Shaped(s.cfg, first)
  }

  lemma EliteShaped(s: Settings, first: seq<Chromosome>, a: Chromosome, b: Chromosome)
    requires Shaped(s.cfg, first) && a in EliteList(s, first) && b in EliteList(s, first)
    ensures Fits(s.cfg, a) && Fits(s.cfg, b)
  {
    var e := EliteList(s, first);
    var i :| 0 <= i < |e| && e[i] == a;
    var j :| 0 <= j < |e| && e[j] == b;
    assert first[i] == a && first[j] == b;
  }

  /** Selection, crossover with probability `crossover_rate`, then mutation. */
  function Child(s: Settings, first: seq<Chromosome>, d: ChildDraws): (c: Chromosome)
    requires CanSelect(s, first)
    ensures Fits(s.cfg, c) && Evaluated(s.cfg, c)
  {
    var father := Roulette(s, first, d.father);
    var mother := Roulette(s, first, d.mother);
    EliteShaped(s, first, father, mother);
    var son := if Unit(d.coin) < s.crossoverRate then Crossover(s.cfg, father, mother, d.crossIndex) else father;
    CustomMutation(s.cfg, son, d.mutation).0
  }

  /** The children the reproduction loop would make at each counter value. */
  function Children(s: Settings, first: seq<Chromosome>, draws: nat -> ChildDraws): (child: nat -> Chromosome)
    requires CanSelect(s, first)
  {
    (j: nat) => Child(s, first, draws(j))
  }

  lemma ChildrenFit(s: Settings, first: seq<Chromosome>, draws: nat -> ChildDraws)
    requires CanSelect(s, first)
    ensures forall j: nat :: Fits(s.cfg, Children(s, first, draws)(j)) && Evaluated(s.cfg, Children(s, first, draws)(j))
  {
    forall j: nat
      ensures Fits(s.cfg, Children(s, first, draws)(j)) && Evaluated(s.cfg, Children(s, first, draws)(j))
    {
      assert Children(s, first, draws)(j) == Child(s, first, draws(j));
    }
  }

  /**
   * The reproduction loop from counter i over the children `child(i)`,
   * `child(i + 1)`, ...: children are appended until the counter reaches
   * pop, or a child of fitness 1 stops it.
   */
  function BreedFrom(pop: nat, i: nat, child: nat -> Chromosome): (r: (seq<Chromosome>, Option<Chromosome>))
    ensures r.1.None? ==> |r.0| == if i <= pop then pop - i else 0
    ensures r.1.Some? ==> r.1.value.fitness == 1.0
    decreases pop - i
  {
    if i >= pop then ([], None)
    else if child(i).fitness == 1.0 then ([], Some(child(i)))
    else
      var r := BreedFrom(pop, i + 1, child);
      ([child(i)] + r.0, r.1)
  }

  /** Whatever holds of every child holds of every chromosome the loop yields. */
  lemma {:induction false} BreedFromKeeps(pop: nat, i: nat, child: nat -> Chromosome, P: Chromosome -> bool)
    requires forall j: nat :: P(child(j))
    ensures var r := BreedFrom(pop, i, child);
      (forall k :: 0 <= k < |r.0| ==> P(r.0[k])) && (r.1.Some? ==> P(r.1.value))
    decreases pop - i
  {
    if i < pop && child(i).fitness != 1.0 {
      BreedFromKeeps(pop, i + 1, child, P);
      var r := BreedFrom(pop, i + 1, child);
      forall k | 0 <= k < |r.0| + 1
        ensures P(([child(i)] + r.0)[k])
      {
        if k > 0 {
          assert ([child(i)] + r.0)[k] == r.0[k - 1];
        }
      }
    }
  }

  /** The reproduction loop of `_create_new_generations` from counter i. */
  function Breed(s: Settings, first: seq<Chromosome>, i: nat, draws: nat -> ChildDraws): (r: (seq<Chromosome>, Option<Chromosome>))
    requires CanSelect(s, first)
    ensures r.1.None? ==> |r.0| == if i <= s.populationSize then s.populationSize - i else 0
    ensures r.1.Some? ==> r.1.value.fitness == 1.0 && Fits(s.cfg, r.1.value) && Evaluated(s.cfg, r.1.value)
    ensures Shaped(s.cfg, r.0)
  {
    var child := Children(s, first, draws);
    ChildrenFit(s, first, draws);
    BreedFromKeeps(s.populationSize, i, child, (c: Chromosome) => Fits(s.cfg, c) && Evaluated(s.cfg, c));
    BreedFrom(s.populationSize, i, child)
  }

  lemma ShapedCons(cfg: Config, c: Chromosome, xs: seq<Chromosome>)
    requires Fits(cfg, c) && Shaped(cfg, xs)
    ensures Shaped(cfg, [c] + xs)
  {
    forall k | 0 <= k < |xs| + 1
      ensures Fits(cfg, ([c] + xs)[k])
    {
      if k > 0 {
        assert ([c] + xs)[k] == xs[k - 1];
      }
    }
  }

  lemma ShapedConcat(cfg: Config, xs: seq<Chromosome>, e: nat, ys: seq<Chromosome>)
    requires Shaped(cfg, xs) && Shaped(cfg, ys) && e <= |xs|
    ensures Shaped(cfg, xs[..e] + ys)
  {
    var zs := xs[..e] + ys;
    forall k | 0 <= k < |zs|
      ensures Fits(cfg, zs[k])
    {
      if k < e {
        assert zs[k] == xs[k];
      } else {
        assert zs[k] == ys[k - e];
      }
    }
  }

  /** A population of the right shape stays so when reordered. */
  lemma ShapedPermutation(cfg: Config, xs: seq<Chromosome>, ys: seq<Chromosome>)
    requires Shaped(cfg, xs) && multiset(xs) == multiset(ys)
    ensures Shaped(cfg, ys)
  {
    forall k | 0 <= k < |ys|
      ensures Fits(cfg, ys[k])
    {
      assert ys[k] in multiset(xs);
      var m :| 0 <= m < |xs| && xs[m] == ys[k];
    }
  }

  /** The result of one generation: a solution, or the new population before and after sorting. */
  datatype Outcome = Solved(son: Chromosome) | Continued(bred: seq<Chromosome>, next: seq<Chromosome>)

  /** `population_size // 10` capped by the population: how many chromosomes are carried over. */
  function EliteSize(s: Settings, first: seq<Chromosome>): nat {
    Min(s.populationSize / 10, |first|)
  }

  /**
   * One pass of `_create_new_generations`. After `for i in range(elite_size)`
   * the counter holds `elite_size - 1`, not `elite_size`, so the loop
   * breeds one chromosome more than the elite leaves room for.
   */
  function Generation(s: Settings, first: seq<Chromosome>, draws: nat -> ChildDraws): (r: Outcome)
    requires s.populationSize == 0 || CanSelect(s, first)
    ensures r.Solved? ==> r.son.fitness == 1.0 && Fits(s.cfg, r.son) && Evaluated(s.cfg, r.son)
    ensures r.Continued? ==> |r.bred| == if EliteSize(s, first) >= 1 then s.populationSize + 1 else s.populationSize
    ensures r.Continued? ==> r.bred[..EliteSize(s, first)] == first[..EliteSize(s, first)]
    ensures r.Continued? ==> multiset(r.next) == multiset(r.bred) && ReverseSorted(r.next)
    ensures r.Continued? ==> Shaped(s.cfg, r.next)
  {
    var e := EliteSize(s, first);
    var elite := first[..e];
    if s.populationSize == 0 then
      assert elite == [];
      Continued(elite, SortReverse(elite))
    else
      var start := if e >= 1 then e - 1 else 0;
      var (children, found) := Breed(s, first, start, draws);
      match found
      case Some(son) => Solved(son)
      case None =>
        var bred := elite + children;
        assert bred[..e] == elite;
        ShapedConcat(s.cfg, first, e, children);
        ShapedPermutation(s.cfg, bred, SortReverse(bred));
        Continued(bred, SortReverse(bred))
  }

  /** With no population to breed, a generation hands on nothing. */
  lemma GenerationEmpty(s: Settings, first: seq<Chromosome>, draws: nat -> ChildDraws)
    requires s.populationSize == 0
    ensures Generation(s, first, draws) == Continued([], [])
  {
    assert first[..EliteSize(s, first)] == [];
  }

  /** Every generation after the first carries `population_size + 1` chromosomes. */
  lemma GenerationGrows(s: Settings, first: seq<Chromosome>, draws: nat -> ChildDraws)
    requires CanSelect(s, first) && s.populationSize > 0
    ensures var r := Generation(s, first, draws);
      r.Continued? ==> |r.next| == s.populationSize + 1
  {
    var r := Generation(s, first, draws);
    if r.Continued? {
      assert |multiset(r.next)| == |multiset(r.bred)|;
    }
  }

  /**
   * The carried-over prefix is the lowest-fitness tenth of a reverse-sorted
   * population: no chromosome after it has a lower fitness.
   */
  lemma EliteIsWorst(s: Settings, first: seq<Chromosome>, i: nat, j: nat)
    requires ReverseSorted(first)
    requires i < EliteSize(s, first) <= j < |first|
    ensures first[i].fitness <= first[j].fitness
  {
  }

  /** The population stays of the right shape from one generation to the next. */
  lemma GenerationShaped(s: Settings, first: seq<Chromosome>, draws: nat -> ChildDraws)
    requires CanSelect(s, first) && s.populationSize > 0
    ensures var r := Generation(s, first, draws);
      r.Continued? ==> Shaped(s.cfg, r.next) && |r.next| >= 1
  {
    GenerationGrows(s, first, draws);
  }

  /** `_create_new_generations` from generation counter `gen`: the final son (if any) and the generations completed. */
  function Evolve(s: Settings, first: seq<Chromosome>, gen: nat, draws: nat -> nat -> ChildDraws): (r: (Option<Chromosome>, nat))
    requires s.populationSize == 0 || CanSelect(s, first)
    ensures gen <= r.1 <= s.maxGenerations || (gen > s.maxGenerations && r.1 == gen)
    ensures r.0.Some? ==> r.0.value.fitness == 1.0 && r.1 < s.maxGenerations
    ensures r.0.Some? ==> Fits(s.cfg, r.0.value) && Evaluated(s.cfg, r.0.value)
    ensures AllWellFormed(s.cfg, first) && r.0.Some? ==> WellFormed(s.cfg, r.0.value.genes)
    decreases s.maxGenerations - gen
  {
    if gen >= s.maxGenerations then (None, gen)
    else match Generation(s, first, draws(gen))
      case Solved(son) =>
        assert AllWellFormed(s.cfg, first) ==> WellFormed(s.cfg, son.genes) by {
          if AllWellFormed(s.cfg, first) {
            GenerationKeepsWellFormed(s, first, draws(gen));
          }
        }
        (Some(son), gen)
      case Continued(_, next) =>
        assert s.populationSize > 0 ==> CanSelect(s, next) by {
          if s.populationSize > 0 {
            GenerationShaped(s, first, draws(gen));
            assert |EliteList(s, next)| >= 1;
          }
        }
        assert AllWellFormed(s.cfg, first) ==> AllWellFormed(s.cfg, next) by {
          if AllWellFormed(s.cfg, first) {
            GenerationKeepsWellFormed(s, first, draws(gen));
          }
        }
        Evolve(s, next, gen + 1, draws)
  }

  /** `_initialise_population`: `population_size` new chromosomes, sorted. */
  function InitialPopulation(s: Settings, draws: nat -> nat -> GeneDraws): (r: seq<Chromosome>)
    ensures |r| == s.populationSize && Shaped(s.cfg, r) && ReverseSorted(r)
  {
    var xs := seq(s.populationSize, k requires 0 <= k < s.populationSize => NewChromosome(s.cfg, draws(k)));
    assert Shaped(s.cfg, xs) by {
      forall k | 0 <= k < |xs|
        ensures Fits(s.cfg, xs[k])
      {
        assert xs[k] == NewChromosome(s.cfg, draws(k));
      }
    }
    ShapedPermutation(s.cfg, xs, SortReverse(xs));
    assert |multiset(SortReverse(xs))| == |multiset(xs)|;
    SortReverse(xs)
  }

  /** The whole run: the initial population, then at most `max_generations` generations. */
  function Run(s: Settings, init: nat -> nat -> GeneDraws, draws: nat -> nat -> ChildDraws): (r: (Option<Chromosome>, nat))
    requires s.populationSize == 0 || (s.populationSize >= 10 && s.cfg.groups > 0)
    ensures r.1 <= s.maxGenerations
    ensures r.0.Some? ==> r.0.value.fitness == 1.0 && Fits(s.cfg, r.0.value) && Evaluated(s.cfg, r.0.value)
  {
    var first := InitialPopulation(s, init);
    assert s.populationSize == 0 || CanSelect(s, first);
    Evolve(s, first, 0, draws)
  }

  // The permutation invariant across the run.

  lemma CrossoverWellFormed(cfg: Config, father: Chromosome, mother: Chromosome, d: nat)
    requires cfg.groups > 0 && Fits(cfg, father) && Fits(cfg, mother)
    requires WellFormed(cfg, father.genes) && WellFormed(cfg, mother.genes)
    ensures WellFormed(cfg, Crossover(cfg, father, mother, d).genes)
  {
    CrossoverMixesParents(cfg, father, mother, d);
    WellFormedFromParents(cfg, father.genes, mother.genes, Crossover(cfg, father, mother, d).genes, -1);
  }

  lemma EliteWellFormed(s: Settings, first: seq<Chromosome>, c: Chromosome)
    requires AllWellFormed(s.cfg, first) && c in EliteList(s, first)
    ensures WellFormed(s.cfg, c.genes)
  {
    var e := EliteList(s, first);
    var i :| 0 <= i < |e| && e[i] == c;
    assert first[i] == c;
  }

  lemma ChildWellFormed(s: Settings, first: seq<Chromosome>, d: ChildDraws)
    requires CanSelect(s, first) && AllWellFormed(s.cfg, first)
    ensures WellFormed(s.cfg, Child(s, first, d).genes)
  {
    var father := Roulette(s, first, d.father);
    var mother := Roulette(s, first, d.mother);
    EliteShaped(s, first, father, mother);
    EliteWellFormed(s, first, father);
    EliteWellFormed(s, first, mother);
    var son := if Unit(d.coin) < s.crossoverRate then Crossover(s.cfg, father, mother, d.crossIndex) else father;
    if Unit(d.coin) < s.crossoverRate {
      CrossoverWellFormed(s.cfg, father, mother, d.crossIndex);
    }
    CustomMutationWellFormed(s.cfg, son, d.mutation);
  }

  lemma BreedWellFormed(s: Settings, first: seq<Chromosome>, i: nat, draws: nat -> ChildDraws)
    requires CanSelect(s, first) && AllWellFormed(s.cfg, first)
    ensures var r := Breed(s, first, i, draws);
      AllWellFormed(s.cfg, r.0) && (r.1.Some? ==> WellFormed(s.cfg, r.1.value.genes))
  {
    var child := Children(s, first, draws);
    forall j: nat
      ensures WellFormed(s.cfg, child(j).genes)
    {
      ChildWellFormed(s, first, draws(j));
    }
    BreedFromKeeps(s.populationSize, i, child, (c: Chromosome) => WellFormed(s.cfg, c.genes));
  }

  lemma AllWellFormedConcat(cfg: Config, xs: seq<Chromosome>, e: nat, ys: seq<Chromosome>)
    requires AllWellFormed(cfg, xs) && AllWellFormed(cfg, ys) && e <= |xs|
    ensures AllWellFormed(cfg, xs[..e] + ys)
  {
    var zs := xs[..e] + ys;
    forall k | 0 <= k < |zs|
      ensures WellFormed(cfg, zs[k].genes)
    {
      if k < e {
        assert zs[k] == xs[k];
      } else {
        assert zs[k] == ys[k - e];
      }
    }
  }

  lemma AllWellFormedPermutation(cfg: Config, xs: seq<Chromosome>, ys: seq<Chromosome>)
    requires AllWellFormed(cfg, xs) && multiset(xs) == multiset(ys)
    ensures AllWellFormed(cfg, ys)
  {
    forall k | 0 <= k < |ys|
      ensures WellFormed(cfg, ys[k].genes)
    {
      assert ys[k] in multiset(xs);
      var m :| 0 <= m < |xs| && xs[m] == ys[k];
    }
  }

  lemma AllWellFormedCons(cfg: Config, c: Chromosome, xs: seq<Chromosome>)
    requires WellFormed(cfg, c.genes) && AllWellFormed(cfg, xs)
    ensures AllWellFormed(cfg, [c] + xs)
  {
    forall k | 0 <= k < |xs| + 1
      ensures WellFormed(cfg, ([c] + xs)[k].genes)
    {
      if k > 0 {
        assert ([c] + xs)[k] == xs[k - 1];
      }
    }
  }

  /**
   * Every chromosome of the next generation, and the solution when one is
   * found, still has each gene a permutation of its group's pool range.
   */
  lemma GenerationWellFormed(s: Settings, first: seq<Chromosome>, draws: nat -> ChildDraws)
    requires CanSelect(s, first) && s.populationSize > 0 && AllWellFormed(s.cfg, first)
    ensures var r := Generation(s, first, draws);
      (r.Solved? ==> WellFormed(s.cfg, r.son.genes)) &&
      (r.Continued? ==> AllWellFormed(s.cfg, r.next))
  {
    var e := EliteSize(s, first);
    var start := if e >= 1 then e - 1 else 0;
    BreedWellFormed(s, first, start, draws);
    var b := Breed(s, first, start, draws);
    var r := Generation(s, first, draws);
    if b.1.None? {
      var bred := first[..e] + b.0;
      assert r == Continued(bred, SortReverse(bred));
      AllWellFormedConcat(s.cfg, first, e, b.0);
      AllWellFormedPermutation(s.cfg, bred, SortReverse(bred));
    } else {
      assert r == Solved(b.1.value);
    }
  }

  /** With or without a population to breed, a generation keeps every chromosome well formed. */
  lemma GenerationKeepsWellFormed(s: Settings, first: seq<Chromosome>, draws: nat -> ChildDraws)
    requires s.populationSize == 0 || CanSelect(s, first)
    requires AllWellFormed(s.cfg, first)
    ensures var r := Generation(s, first, draws);
      (r.Solved? ==> WellFormed(s.cfg, r.son.genes)) &&
      (r.Continued? ==> AllWellFormed(s.cfg, r.next))
  {
    if s.populationSize == 0 {
      GenerationEmpty(s, first, draws);
    } else {
      GenerationWellFormed(s, first, draws);
    }
  }

  lemma InitialPopulationWellFormed(s: Settings, draws: nat -> nat -> GeneDraws)
    ensures AllWellFormed(s.cfg, InitialPopulation(s, draws))
  {
    var xs := seq(s.populationSize, k requires 0 <= k < s.populationSize => NewChromosome(s.cfg, draws(k)));
    var r := InitialPopulation(s, draws);
    assert r == SortReverse(xs);
    forall k | 0 <= k < |xs|
      ensures WellFormed(s.cfg, xs[k].genes)
    {
      NewChromosomeWellFormed(s.cfg, draws(k));
    }
    AllWellFormedPermutation(s.cfg, xs, r);
  }

  /**
   * A timetable the run reports is clash-free: at every hour of the week no
   * teacher is unavailable and none teaches two groups; and each group's
   * gene is a permutation of its pool range.
   */
  lemma RunSolution(s: Settings, init: nat -> nat -> GeneDraws, draws: nat -> nat -> ChildDraws)
    requires s.populationSize == 0 || (s.populationSize >= 10 && s.cfg.groups > 0)
    ensures var r := Run(s, init, draws);
      r.0.Some? ==>
        WellFormed(s.cfg, r.0.value.genes) &&
        forall i :: 0 <= i < Slots(s.cfg) ==> Clean(s.cfg, r.0.value.genes, i)
  {
    var r := Run(s, init, draws);
    var first := InitialPopulation(s, init);
    InitialPopulationWellFormed(s, init);
    assert s.populationSize == 0 || CanSelect(s, first);
    if r.0.Some? {
      FitnessOneIffClean(s.cfg, r.0.value.genes);
    }
  }
}

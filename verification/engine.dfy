/** The generational engine (lib/genetical.js): the constructor's defaults,
    `solve`'s validation, the initial population, `evolve`, and the loop
    that runs generations until the termination condition holds. */
module Engine {
  import opened Outcomes
  import opened Numbers
  import opened Draws
  import opened Candidates
  import opened Sorting
  import opened Statistics
  import opened Roulette
  import opened Sampling
  import opened Reproduction
  import opened Runs

  const ROULETTE_WHEEL_SELECTION: int := 1
  const STOCHASTIC_UNIVERSAL_SAMPLING: int := 2
  const RANK: int := 3

  /** `populationFactory(generator, callback)`: the payload the callback
      receives, and the generator afterwards. */
  type Factory<!P> = Rng -> (P, Rng)

  /** `terminationCondition(stats)`. */
  type Termination<!P> = Stats<P> -> bool

  /** The options object handed to the constructor; every field may be
      missing. */
  datatype Options<!P> = Options(
    populationSize: Option<real>,
    populationFactory: Option<Factory<P>>,
    fitnessEvaluator: Option<P -> real>,
    natural: Option<bool>,
    terminationCondition: Option<Termination<P>>,
    elitism: Option<real>,
    selectionStrategy: Option<int>,
    evolutionOptions: EvolutionOptions<P>)

  /** The engine's configuration after the constructor has filled in its
      defaults. */
  datatype Genetical<!P> = Genetical(
    populationSize: Option<real>,
    populationFactory: Option<Factory<P>>,
    fitnessEvaluator: Option<P -> real>,
    natural: bool,
    terminationCondition: Option<Termination<P>>,
    elitism: real,
    selectionStrategy: int,
    evolutionOptions: EvolutionOptions<P>)

  /** `new Genetical(options)`: `natural` defaults to true, `elitism` to 0
      and the selection strategy (missing or 0) to the roulette wheel. */
  function NewGenetical<P>(o: Options<P>): (e: Genetical<P>)
    ensures e.natural <==> o.natural != Some(false)
    ensures o.elitism.None? ==> e.elitism == 0.0
    ensures o.elitism.Some? ==> e.elitism == o.elitism.value
    ensures e.selectionStrategy != 0
    ensures o.selectionStrategy.None? || o.selectionStrategy == Some(0) ==> e.selectionStrategy == ROULETTE_WHEEL_SELECTION
    ensures o.selectionStrategy.Some? && o.selectionStrategy.value != 0 ==> e.selectionStrategy == o.selectionStrategy.value
  {
    Genetical(
      o.populationSize, o.populationFactory, o.fitnessEvaluator,
      o.natural.GetOr(true),
      o.terminationCondition,
      o.elitism.GetOr(0.0),
      if o.selectionStrategy.None? || o.selectionStrategy.value == 0 then ROULETTE_WHEEL_SELECTION
      else o.selectionStrategy.value,
      o.evolutionOptions)
  }

  /** A configuration `solve` accepts: every callback present. */
  datatype Config<!P> = Config(
    populationSize: real,
    factory: Factory<P>,
    fitness: P -> real,
    natural: bool,
    termination: Termination<P>,
    elitism: real,
    strategy: int,
    evolution: EvolutionOptions<P>)

  ghost predicate WellFormed<P>(c: Config<P>)
  {
    0.0 < c.populationSize && 0.0 <= c.elitism < 1.0
  }

  /** `solve`'s checks, in the order it makes them. */
  function Validate<P>(e: Genetical<P>): (r: Result<Config<P>>)
    ensures r.Ok? <==>
      e.populationSize.Some? && 0.0 < e.populationSize.value
      && e.populationFactory.Some? && e.fitnessEvaluator.Some? && e.terminationCondition.Some?
      && 0.0 <= e.elitism < 1.0
    ensures r.Ok? ==> WellFormed(r.value)
    ensures e.populationSize.None? || e.populationSize.value <= 0.0 ==> r == Err(PopulationSizeInvalid)
    ensures r.Err? && r.error == PopulationFactoryMissing ==> e.populationFactory.None?
    ensures r.Err? && r.error == FitnessEvaluatorMissing ==> e.fitnessEvaluator.None?
    ensures r.Err? && r.error == TerminationConditionMissing ==> e.terminationCondition.None?
    ensures r.Err? && r.error == ElitismOutOfRange ==> !(0.0 <= e.elitism < 1.0)
  {
    if e.populationSize.None? || e.populationSize.value <= 0.0 then Err(PopulationSizeInvalid)
    else if e.populationFactory.None? then Err(PopulationFactoryMissing)
    else if e.fitnessEvaluator.None? then Err(FitnessEvaluatorMissing)
    else if e.terminationCondition.None? then Err(TerminationConditionMissing)
    else if e.elitism < 0.0 || e.elitism >= 1.0 then Err(ElitismOutOfRange)
    else Ok(Config(e.populationSize.value, e.populationFactory.value, e.fitnessEvaluator.value,
                   e.natural, e.terminationCondition.value, e.elitism, e.selectionStrategy,
                   e.evolutionOptions))
  }

  /** `generateInitialPopulation`: one factory call per slot, in order. */
  function GenerateInitialPopulation<P>(factory: Factory<P>, n: nat, g: Rng): (r: (seq<P>, Rng))
    ensures |r.0| == n
    decreases n
  {
    if n == 0 then ([], g)
    else
      var (x, g1) := factory(g);
      var (rest, g2) := GenerateInitialPopulation(factory, n - 1, g1);
      ([x] + rest, g2)
  }

  /** Payload `k` is what the factory makes from the generator as the
      first `k` calls left it. */
  lemma {:induction false} InitialPopulationFromFactory<P>(factory: Factory<P>, n: nat, g: Rng)
    ensures forall k :: 0 <= k < n ==>
      GenerateInitialPopulation(factory, n, g).0[k] == factory(GenerateInitialPopulation(factory, k, g).1).0
    decreases n
  {
    if n > 0 {
      var g1 := factory(g).1;
      InitialPopulationFromFactory(factory, n - 1, g1);
      var xs := GenerateInitialPopulation(factory, n, g).0;
      assert xs[0] == factory(g).0;
      forall k | 1 <= k < n
        ensures xs[k] == factory(GenerateInitialPopulation(factory, k, g).1).0
      {
        assert xs[k] == GenerateInitialPopulation(factory, n - 1, g1).0[k - 1];
        assert GenerateInitialPopulation(factory, k, g).1 == GenerateInitialPopulation(factory, k - 1, g1).1;
      }
    }
  }

  /** The engine between generations. */
  datatype State<P> = State(population: seq<Candidate<P>>, stats: Stats<P>, generation: nat, rng: Rng)

  /** What `solve` keeps between generations: the population sorted best
      first and scored by the evaluator, and the statistics of exactly that
      population and generation. */
  ghost predicate Consistent<P>(c: Config<P>, s: State<P>)
  {
    |s.population| > 0
    && SortedBy(c.natural, s.population)
    && Evaluated(c.fitness, s.population)
    && s.stats == UpdateStats(s.population, s.generation)
  }

  lemma SortKeepsEvaluated<P>(c: Config<P>, pop: seq<Candidate<P>>)
    requires Evaluated(c.fitness, pop)
    ensures Evaluated(c.fitness, SortPopulation(c.natural, pop))
    ensures |SortPopulation(c.natural, pop)| == |pop|
  {
    var r := SortPopulation(c.natural, pop);
    assert |multiset(r)| == |multiset(pop)|;
    forall i | 0 <= i < |r|
      ensures r[i].score == c.fitness(r[i].payload)
    {
      assert r[i] in multiset(pop);
    }
  }

  /** The first four steps of `solve`: generate, evaluate, sort, and
      summarise generation 0. */
  function Initial<P>(c: Config<P>, g: Rng): (s: State<P>)
    requires WellFormed(c)
    ensures Consistent(c, s) && s.generation == 0
    ensures |s.population| == Slots(c.populationSize)
  {
    var (xs, g1) := GenerateInitialPopulation(c.factory, Slots(c.populationSize), g);
    var evaluated := EvaluatePopulation(c.fitness, xs);
    SortKeepsEvaluated(c, evaluated);
    var pop := SortPopulation(c.natural, evaluated);
    State(pop, UpdateStats(pop, 0), 0, g1)
  }

  /** The number of elites: `populationSize * elitism`, not rounded, so the
      copying loop takes its ceiling. */
  function EliteCount<P>(c: Config<P>): (n: nat)
    ensures c.populationSize * c.elitism <= 0.0 ==> n == 0
    ensures 0.0 < c.populationSize * c.elitism ==>
      c.populationSize * c.elitism <= n as real < c.populationSize * c.elitism + 1.0
  {
    Slots(c.populationSize * c.elitism)
  }

  /** How many selected candidates the strategies are asked for:
      `populationSize - eliteCount`. */
  function SelectionSize<P>(c: Config<P>): (size: real)
    ensures size + c.populationSize * c.elitism == c.populationSize
    ensures WellFormed(c) ==> 0.0 < size <= c.populationSize
  {
    SelectionBounds(c);
    c.populationSize - c.populationSize * c.elitism
  }

  /** The `switch` on the selection strategy, followed by the second run of
      stochastic universal sampling that replaces the first one's result. */
  function Select<P>(c: Config<P>, pop: seq<Candidate<P>>, g: Rng): (r: Result<(seq<Candidate<P>>, Rng)>)
    requires c.strategy in {ROULETTE_WHEEL_SELECTION, STOCHASTIC_UNIVERSAL_SAMPLING, RANK}
    ensures r.Ok? ==> forall k :: 0 <= k < |r.value.0| ==> r.value.0[k].payload in Payloads(pop)
    ensures r.Ok? && c.strategy == ROULETTE_WHEEL_SELECTION ==> Advanced(g, r.value.1, Slots(SelectionSize(c)))
    ensures r.Ok? && c.strategy == STOCHASTIC_UNIVERSAL_SAMPLING ==> Advanced(g, r.value.1, 2)
    ensures r.Ok? && c.strategy == RANK ==> Advanced(g, r.value.1, 1)
  {
    if c.strategy == ROULETTE_WHEEL_SELECTION then
      RouletteWheelSelection(c.natural, pop, SelectionSize(c), g)
    else if c.strategy == STOCHASTIC_UNIVERSAL_SAMPLING then
      match StochasticUniversalSampling(c.natural, pop, SelectionSize(c), g)
      case Err(e) => Err(e)
      case Ok((_, g1)) => StochasticUniversalSampling(c.natural, pop, SelectionSize(c), g1)
    else
      RankSelection(c.natural, pop, SelectionSize(c), g)
  }

  /** Under stochastic universal sampling the first run only spends a draw:
      when it returns, the selection is a second run starting one draw
      later. */
  lemma SusSelectionRunsTwice<P>(c: Config<P>, pop: seq<Candidate<P>>, g: Rng)
    requires c.strategy == STOCHASTIC_UNIVERSAL_SAMPLING
    requires StochasticUniversalSampling(c.natural, pop, SelectionSize(c), g).Ok?
    ensures Select(c, pop, g) == StochasticUniversalSampling(c.natural, pop, SelectionSize(c), Rng(g.draw, g.pos + 1))
  {
  }

  /** `evolve`: check the strategy, select, cross over, mutate, append the
      elites (the first `eliteCount` members of the sorted population), and
      evaluate.  An elite slot past the end of the population is
      `undefined`, on which evaluation fails. */
  function Evolve<P>(c: Config<P>, pop: seq<Candidate<P>>, g: Rng): (r: Result<(seq<Candidate<P>>, Rng)>)
    ensures c.strategy !in {ROULETTE_WHEEL_SELECTION, STOCHASTIC_UNIVERSAL_SAMPLING, RANK}
      ==> r == Err(SelectionStrategyUnknown)
    ensures r.Ok? ==> EliteCount(c) <= |pop| && EliteCount(c) <= |r.value.0|
    ensures r.Ok? ==> Payloads(r.value.0)[|r.value.0| - EliteCount(c)..] == Payloads(pop[..EliteCount(c)])
    ensures r.Ok? ==> Evaluated(c.fitness, r.value.0)
  {
    if c.strategy !in {ROULETTE_WHEEL_SELECTION, STOCHASTIC_UNIVERSAL_SAMPLING, RANK} then
      Err(SelectionStrategyUnknown)
    else
      match Select(c, pop, g)
      case Err(e) => Err(e)
      case Ok((selected, g1)) =>
        match Crossover(c.evolution, Payloads(selected), g1)
        case Err(e) => Err(e)
        case Ok((crossed, g2)) =>
          match Mutate(c.evolution, crossed, g2)
          case Err(e) => Err(e)
          case Ok((mutated, g3)) =>
            if |pop| < EliteCount(c) then Err(UndefinedCandidate)
            else
              var elites := Payloads(pop[..EliteCount(c)]);
              var next := mutated + elites;
              var evaluated := EvaluatePopulation(c.fitness, next);
              assert |evaluated| - EliteCount(c) == |mutated|;
              AppendSuffix(mutated, elites);
              Ok((evaluated, g3))
  }

  lemma AppendSuffix<T>(a: seq<T>, b: seq<T>)
    ensures (a + b)[|a|..] == b
  {
  }

  /** The payloads the new population is built from, before evaluation:
      the mutated offspring of the selection followed by the elites. */
  lemma EvolveAppendsElites<P>(c: Config<P>, pop: seq<Candidate<P>>, g: Rng)
    requires Evolve(c, pop, g).Ok?
    ensures c.strategy in {ROULETTE_WHEEL_SELECTION, STOCHASTIC_UNIVERSAL_SAMPLING, RANK}
    ensures var selected := Select(c, pop, g).value;
      var crossed := Crossover(c.evolution, Payloads(selected.0), selected.1).value;
      var mutated := Mutate(c.evolution, crossed.0, crossed.1).value;
      Payloads(Evolve(c, pop, g).value.0) == mutated.0 + Payloads(pop[..EliteCount(c)])
  {
  }

  /** With the roulette wheel and a two-child crossover operator the new
      population holds one offspring per spin plus the elites. */
  lemma RouletteNextSize<P(!new)>(c: Config<P>, pop: seq<Candidate<P>>, g: Rng)
    requires c.strategy == ROULETTE_WHEEL_SELECTION
    requires c.evolution.crossover.Some? && TwoChildren(c.evolution.crossover.value)
    requires Evolve(c, pop, g).Ok?
    ensures |Evolve(c, pop, g).value.0| == Slots(SelectionSize(c)) + EliteCount(c)
  {
    EvolveAppendsElites(c, pop, g);
    var selected := Select(c, pop, g).value;
    var points := OrOne(c.evolution.crossoverPoints);
    PairsShape(c.evolution.crossover.value, points, Payloads(selected.0), selected.1);
  }

  /** With a whole population size the selection and the elites add up to
      the population size when `populationSize * elitism` is whole, and to
      one more when it is not, since both counts are rounded up. */
  lemma NextSizeRoundsUp<P>(c: Config<P>, n: nat)
    requires WellFormed(c) && c.populationSize == n as real
    ensures var e := c.populationSize * c.elitism;
      e == e.Floor as real ==> Slots(SelectionSize(c)) + EliteCount(c) == n
    ensures var e := c.populationSize * c.elitism;
      e != e.Floor as real ==> Slots(SelectionSize(c)) + EliteCount(c) == n + 1
  {
    var e := c.populationSize * c.elitism;
    ProductBounds(c.populationSize, c.elitism);
    SlotsSplit(n, e);
    assert EliteCount(c) == Slots(e);
    assert SelectionSize(c) == n as real - e;
  }

  /** Splitting `n` slots at `e`: the two parts add up to `n` at a whole
      `e`, and to one more otherwise. */
  lemma SlotsSplit(n: nat, e: real)
    requires 0.0 <= e < n as real
    ensures e == e.Floor as real ==> Slots(e) + Slots(n as real - e) == n
    ensures e != e.Floor as real ==> Slots(e) + Slots(n as real - e) == n + 1
  {
    if e == e.Floor as real {
      SlotsSplitWhole(n, e);
    } else {
      SlotsSplitFraction(n, e);
    }
  }

  /** Splitting `n` slots at a whole `e`: the two parts add up to `n`. */
  lemma SlotsSplitWhole(n: nat, e: real)
    requires 0.0 <= e < n as real && e == e.Floor as real
    ensures Slots(e) + Slots(n as real - e) == n
  {
    var k := e.Floor;
    SlotsOfWhole(k);
    assert n as real - e == (n - k) as real;
    SlotsOfWhole(n - k);
  }

  /** Splitting `n` slots inside a slot: both parts round up, and together
      they take one slot more than `n`. */
  lemma SlotsSplitFraction(n: nat, e: real)
    requires 0.0 <= e < n as real && e != e.Floor as real
    ensures Slots(e) + Slots(n as real - e) == n + 1
  {
    var a := Slots(e);
    var b := Slots(n as real - e);
    var d := n as real - e;
    assert 0.0 < e by {
      if e == 0.0 {
        WholeFloor(0);
      }
    }
    assert e < a as real < e + 1.0 by {
      if a as real == e {
        WholeFloor(a);
      }
    }
    assert d < b as real < d + 1.0 by {
      if b as real == d {
        WholeFloor(n - b);
        assert false;
      }
    }
  }

  /** The floor of a whole number is that number. */
  lemma WholeFloor(k: int)
    ensures (k as real).Floor == k
  {
  }

  lemma SelectionBounds<P>(c: Config<P>)
    ensures WellFormed(c) ==> 0.0 <= c.populationSize * c.elitism < c.populationSize
  {
    if WellFormed(c) {
      ProductBounds(c.populationSize, c.elitism);
    }
  }

  lemma ProductBounds(n: real, x: real)
    requires 0.0 < n && 0.0 <= x < 1.0
    ensures 0.0 <= n * x < n
  {
  }

  /** One turn of `solve`'s loop: `generation++`, `evolve`, sort, and
      summarise.  An empty new population fails where the statistics read
      `population[0]`. */
  function Step<P>(c: Config<P>, s: State<P>): (r: Result<State<P>>)
    ensures r.Ok? ==> r.value.generation == s.generation + 1
  {
    match Evolve(c, s.population, s.rng)
    case Err(e) => Err(e)
    case Ok((next, g)) =>
      var sorted := SortPopulation(c.natural, next);
      if |sorted| == 0 then Err(UndefinedCandidate)
      else Ok(State(sorted, UpdateStats(sorted, s.generation + 1), s.generation + 1, g))
  }

  /** Every turn leaves the engine consistent: the new population is sorted
      and scored, and its statistics are its own. */
  lemma StepConsistent<P>(c: Config<P>, s: State<P>)
    requires Step(c, s).Ok?
    ensures Consistent(c, Step(c, s).value)
  {
    var next := Evolve(c, s.population, s.rng).value.0;
    SortKeepsEvaluated(c, next);
  }

  /** `shouldTerminate`, as a condition on the engine. */
  function Done<P>(c: Config<P>): State<P> -> bool
  {
    (s: State<P>) => c.termination(s.stats)
  }

  /** One turn of the loop, as a step on the engine. */
  function StepOf<P>(c: Config<P>): State<P> -> Result<State<P>>
  {
    (s: State<P>) => Step(c, s)
  }

  function GenerationOf<P>(): State<P> -> nat
  {
    (s: State<P>) => s.generation
  }

  lemma StepCounts<P(!new)>(c: Config<P>)
    ensures Counts(StepOf(c), GenerationOf())
  {
  }

  lemma StepKeepsConsistent<P(!new)>(c: Config<P>)
    ensures Keeps(StepOf(c), (s: State<P>) => Consistent(c, s))
  {
    forall s: State<P> | Consistent(c, s) && Step(c, s).Ok?
      ensures Consistent(c, Step(c, s).value)
    {
      StepConsistent(c, s);
    }
  }

  /** `solve`: validate, build generation 0, then loop until the
      termination condition holds.  The callback receives the best
      candidate of the last statistics (`BestCandidate`). */
  function Solve<P(!new)>(e: Genetical<P>, g: Rng, fuel: nat): (r: Result<Run<State<P>>>)
    ensures Validate(e).Err? ==> r == Err(Validate(e).error)
    ensures r.Ok? ==> Validate(e).Ok? && Consistent(Validate(e).value, r.value.state)
    ensures r.Ok? && r.value.Finished? ==> Validate(e).value.termination(r.value.state.stats)
    ensures r.Ok? && r.value.OutOfFuel? ==> !Validate(e).value.termination(r.value.state.stats)
  {
    match Validate(e)
    case Err(err) => Err(err)
    case Ok(c) =>
      var s := Initial(c, g);
      StepKeepsConsistent(c);
      LoopKeeps(Done(c), StepOf(c), (s: State<P>) => Consistent(c, s), s, fuel);
      Loop(Done(c), StepOf(c), s, fuel)
  }

  /** What `solve` runs once validation has passed. */
  lemma SolveLoops<P(!new)>(e: Genetical<P>, g: Rng, fuel: nat)
    requires Validate(e).Ok?
    ensures var c := Validate(e).value;
      WellFormed(c) && Solve(e, g, fuel) == Loop(Done(c), StepOf(c), Initial(c, g), fuel)
  {
  }

  /** Conversely, when the condition first holds at generation `n` and the
      fuel reaches it, `solve` finishes exactly there. */
  lemma SolveFindsFirst<P(!new)>(e: Genetical<P>, g: Rng, fuel: nat, n: nat)
    requires Validate(e).Ok?
    requires var c := Validate(e).value;
      var it := Iterate(StepOf(c), Initial(c, g), n);
      n <= fuel && it.Ok? && c.termination(it.value.stats)
      && forall m :: 0 <= m < n ==>
           Iterate(StepOf(c), Initial(c, g), m).Ok? && !c.termination(Iterate(StepOf(c), Initial(c, g), m).value.stats)
    ensures var c := Validate(e).value;
      var it := Iterate(StepOf(c), Initial(c, g), n);
      Solve(e, g, fuel) == Ok(Finished(it.value)) && it.value.generation == n
  {
    var c := Validate(e).value;
    SolveLoops(e, g, fuel);
    StepCounts(c);
    IterateCounts(StepOf(c), GenerationOf(), Initial(c, g), n);
    LoopFindsFirst(Done(c), StepOf(c), Initial(c, g), fuel, n);
  }

  /** The candidate `solve` passes to its callback: the best of the last
      generation. */
  function BestCandidate<P>(run: Run<State<P>>): Candidate<P>
  {
    run.state.stats.bestCandidate
  }

  /** The callback's candidate is first in the sorted final population, so
      no member beats it. */
  lemma BestCandidateIsBest<P(!new)>(e: Genetical<P>, g: Rng, fuel: nat)
    requires Solve(e, g, fuel).Ok?
    ensures var run := Solve(e, g, fuel).value;
      BestCandidate(run) == run.state.population[0]
      && forall i :: 0 <= i < |run.state.population| ==>
        Key(e.natural, BestCandidate(run)) <= Key(e.natural, run.state.population[i])
  {
  }
}

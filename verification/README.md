# Genetical in Dafny

A model of the `Genetical` genetic-algorithm engine (`lib/genetical.js`) and
of the "HELLO WORLD" string example that drives it
(`test/helloWorldStringTest.js`), with proofs about both.

The engine keeps a population of scored candidates. `solve` validates the
options and builds generation 0 with the caller's factory. It then scores,
sorts and summarises the population, and repeats `evolve` until the caller's
termination condition holds on the statistics. `evolve` does these steps in
order:

- keep the first `populationSize * elitism` candidates as elites;
- select candidates by roulette wheel, stochastic universal sampling (SUS) or
  rank;
- pair the selected candidates through the caller's crossover operator;
- pass each one through the caller's mutation operator;
- append the elites and evaluate.

The selection strategies weigh each candidate by `adjustScore`. That is the
score itself under the natural convention (higher is better), and its
reciprocal under the inverted one (lower is better).

How the model is built:

- **Randomness.** The Mersenne-Twister generator is an explicit stream of
  draws in [0, 1), `Draws.Rng`. Every consumer takes draws from the front of
  the stream, and the contracts say which draw decides what.
- **Callbacks.** The caller's callbacks are Dafny functions: factory,
  evaluator, termination condition, crossover and mutate. Each one threads
  the generator it receives.
- **JavaScript numbers.** Where an infinity or NaN changes control flow, the
  arithmetic is the extended reals of `Extended`: `+Infinity` from
  `adjustScore`, division by a zero aggregate, and NaN comparisons in the
  binary search. Elsewhere numbers are exact reals.
- **Errors.** Every `throw` becomes an `Err` of `Outcomes.Error`. So do the
  points where the engine would read past the end of an array and fail on
  `undefined`, and the one inner loop of SUS that never ends.
- **The main loop.** `solve`'s `while` loop runs under a `fuel` bound. The
  generic loop lemmas of `Runs` connect the bounded loop to the unbounded
  one: when it finishes, it finishes at the first generation that satisfies
  the termination condition, and conversely.

Modules follow the source:

| module | what it covers |
|---|---|
| `Candidates` | candidates and `evaluatePopulation` |
| `Weights` | `adjustScore` |
| `Sorting` | `sortPopulation` |
| `Statistics`, `Moments` | `updateStats` |
| `Roulette` | `rouletteWheelSelection` and its `binaryIndexOf` |
| `Sampling` | `stochasticUniversalSampling` and `rankSelection` |
| `Reproduction` | `crossover` and `mutate` |
| `Engine` | the constructor, `solve` and `evolve` |
| `Runs` | `solve`'s loop, stated generically |
| `HelloWorld` | the example's operators and options |

## Model

| member | source | states |
|---|---|---|
| Candidates.EvaluatePopulation | lib/genetical.js:33-42 | the payloads stay in place and in order, and every candidate carries the evaluator's score of its own payload |
| Candidates.ReEvaluateIsIdentity | lib/genetical.js:33-42 | evaluating an already evaluated population again changes nothing |
| Weights.AdjustScore | lib/genetical.js:142-147 | natural: the weight is the score; inverted: a score of 0 weighs +Infinity and any other score's weight times the score is 1 |
| Weights.InvertedWeightsReverseOrder | lib/genetical.js:142-147 | in inverted mode a strictly lower positive score earns a strictly higher weight |
| Weights.InvertedWeightKeepsSign | lib/genetical.js:146 | an inverted weight has the sign of its non-zero score |
| Weights.WeightsFinite | lib/genetical.js:142-147 | all weights are finite exactly when the mode is natural or no score is 0 |
| Extended.Compare | lib/genetical.js:163-165 | the comparator answers -1, 0 or 1; on finite values it is the sign of the difference, and NaN compares equal to everything |
| Extended.LessIsStrictOrder | lib/genetical.js:163-165 | the `<` the comparator uses is irreflexive, transitive and asymmetric, and NaN is unordered |
| Draws.Next | lib/genetical.js:185 | `generator.random()` returns the draw at the cursor and moves the cursor on by exactly one |
| Numbers.Slots | lib/genetical.js:100-103 | the number of passes of `for (i = 0; i < x; i++)`: none when x <= 0, otherwise the least whole number not below x |
| Numbers.SlotsBelow | lib/genetical.js:100-103 | pass k of such a loop runs exactly when k < x |
| Sorting.SortPopulation | lib/genetical.js:44-49 | the result is ascending in the key (`-score` natural, `score` inverted) and is a permutation of the population |
| Sorting.SortIsStable | lib/genetical.js:44-49 | candidates with equal keys keep their relative order, as lodash's stable `sortBy` does |
| Sorting.SortedBest | lib/genetical.js:44-49 | the first candidate has the highest score in natural mode and the lowest in inverted mode |
| Statistics.TallyAll | lib/genetical.js:63-71 | the `forEach` pass appends every score to the data set, counts them and adds them up |
| Statistics.AddScore | lib/genetical.js:64-70 | one pass of the `forEach` body appends and counts the score, keeps the minimum at most and the maximum at least both the score and the old value (each being one of them), and the reciprocal sum stays finite only while no score is 0 |
| Statistics.TallyProduct | lib/genetical.js:67 | the running product is the seed times the product of the scores |
| Statistics.TallyReciprocal | lib/genetical.js:68 | the reciprocal sum stays finite exactly when no score is 0, and is then the sum of the reciprocals |
| Statistics.TallyMinimum | lib/genetical.js:69 | the running minimum is at most every score and its seed, and is one of them |
| Statistics.TallyMaximum | lib/genetical.js:70 | the running maximum is at least every score and its seed, and is one of them |
| Statistics.UpdateStats | lib/genetical.js:51-89 | the summary holds the scores, their count, total, product, reciprocal sum, bounds, the first candidate as best, the mean, the population variance and the generation |
| Statistics.MeanBetweenExtremes | lib/genetical.js:63-75 | the reported mean lies between the reported minimum and maximum |
| Statistics.MaximumSeedOverstates | lib/genetical.js:59-70 | with every score at most 0 the maximum stays at `Number.MIN_VALUE`, above every score |
| Moments.Mean | lib/genetical.js:75 | the mean times the count is the total |
| Moments.Variance | lib/genetical.js:77-84 | the variance times the count is the sum of squared deviations from the mean |
| Moments.SquaredDiffsExpand | lib/genetical.js:77-84 | the squared deviations from any m expand to `sum of squares - 2 m total + n m^2` |
| Moments.VarianceFromMoments | lib/genetical.js:77-84 | the variance is the mean of the squares minus the square of the mean |
| Moments.VarianceNonNegative | lib/genetical.js:84-85 | the variance is never negative, so its square root exists |
| Moments.UniformMoments | lib/genetical.js:75-84 | when all scores are equal the mean is that score and the variance is 0 |
| Moments.MeanWithin | lib/genetical.js:75 | the mean of values within [lo, hi] is within [lo, hi] |
| Roulette.CumulativeIsPrefixSums | lib/genetical.js:150-156 | with finite weights, running total i is the sum of the first i + 1 weights |
| Roulette.Cumulative | lib/genetical.js:150-156 | one running total per weight, starting from the first weight; that total i is the sum of the first i + 1 weights is `Roulette.CumulativeIsPrefixSums` |
| Roulette.CumulativeAscending | lib/genetical.js:150-156 | non-negative finite weights give finite, ascending, non-negative running totals |
| Roulette.Mid | lib/genetical.js:168 | the probe lies inside the non-empty window |
| Roulette.MidIsHalfSum | lib/genetical.js:168 | the probe is the sum of the bounds halved and rounded down |
| Roulette.Search | lib/genetical.js:167-178 | given the comparator's answers, a hit is an index in the window answered 0, and a miss `-p - 1` has p between the bounds |
| Roulette.IndexOf | lib/genetical.js:158-179 | a hit is an entry the comparator calls equal to the key, and a miss `-p - 1` has p between the bounds |
| Roulette.IndexOfIsSearch | lib/genetical.js:163-177 | searching the entries gives what searching the comparator's answers for them gives |
| Roulette.MissAfterBelow | lib/genetical.js:167-178 | whatever the entries, a miss `~p` with p past the window's start sits just after an entry below the key |
| Roulette.MissAtAbove | lib/genetical.js:167-178 | whatever the entries, a miss `~p` with p inside the window sits at an entry above the key |
| Roulette.IndexOfSorted | lib/genetical.js:158-179 | on ascending finite entries a hit holds the key, and a miss reports the insertion point: entries below the key before it, above it from it on |
| Roulette.BinaryIndexOf | lib/genetical.js:158-179 | the loop returns what the recursive search defines, and on ascending finite entries a miss is the insertion point |
| Roulette.Landing | lib/genetical.js:186-189 | the search result is turned into an index in [0, length]: a hit as it is, a miss `~l` back into `l` |
| Roulette.LandingInSlice | lib/genetical.js:186-189 | a key no larger than the last total lands on the entry whose slice holds it |
| Roulette.PickInSlice | lib/genetical.js:182-192 | on ascending non-negative totals a spin points at the draw times the grand total, and lands inside the population on the slice holding that point |
| Roulette.Spins | lib/genetical.js:182-193 | n spins take n draws in order; spin k lands where draw k points, and the spins fail exactly when some spin lands past the last slice |
| Roulette.SpinsSucceed | lib/genetical.js:182-193 | the spins succeed once every draw points inside the wheel |
| Roulette.RouletteWheelSelection | lib/genetical.js:149-196 | an empty population fails; otherwise the result has one member of the population per pass of the loop and takes that many draws |
| Roulette.SpinsInSlices | lib/genetical.js:182-193 | on ascending non-negative totals every spin succeeds and lands on the slice of its own draw |
| Roulette.RouletteIsProportionate | lib/genetical.js:149-196 | with non-negative finite weights the selection succeeds, and pick k is the candidate whose slice holds draw k times the total |
| Sampling.Rest | lib/genetical.js:201 | sampling looks only at the candidates after the first |
| Sampling.Aggregate | lib/genetical.js:200-203 | `aggregateFitness`, the weights added left to right from 0; its value is stated by `Sampling.AggregateOfFinite`, `Sampling.AggregateInfinite` and `Sampling.AggregateNaN` |
| Sampling.AggregateNaN | lib/genetical.js:200-203 | a NaN weight makes the aggregate NaN |
| Sampling.Expectations | lib/genetical.js:212 | expectation i is `weight / aggregateFitness * selectionSize` in IEEE arithmetic; on finite weights and a non-zero aggregate that is the real share, by `Sampling.ExpectationsAreShares` |
| Sampling.ReachCounts | lib/genetical.js:214-218 | the inner loop stops at the first pointer at or past a finite running expectation, and at once on NaN or -Infinity |
| Sampling.Walk | lib/genetical.js:211-219 | the walk fails exactly when a running expectation is +Infinity; otherwise it copies indices from the stretch walked, in ascending order |
| Sampling.SusIndices | lib/genetical.js:200-219 | the copied indices are ascending and all at least 1, so `population[0]` is never among them; the only error is divergence |
| Sampling.StochasticUniversalSampling | lib/genetical.js:198-221 | one draw is the start offset; the result copies, in population order, the candidates the pointers fall on, never `population[0]` |
| Sampling.SusDivergesExactly | lib/genetical.js:211-219 | SUS fails exactly when some running expectation is +Infinity, where the source loops forever |
| Sampling.AggregateOfFinite | lib/genetical.js:200-203 | with finite weights the aggregate is their sum |
| Sampling.ExpectationsAreShares | lib/genetical.js:212 | with finite weights and a non-zero aggregate every expectation is the weight over the aggregate times `selectionSize` |
| Sampling.WalkCount | lib/genetical.js:211-219 | over non-negative finite expectations the walk copies one candidate per pointer below the final running expectation |
| Sampling.WalkFromZero | lib/genetical.js:206-219 | non-negative finite expectations adding up to `selectionSize`, walked from 0, give one copy per pointer below `selectionSize` |
| Sampling.WalkOneSigned | lib/genetical.js:200-219 | weights of one sign with a non-zero total give one copy per pointer below `selectionSize` |
| Sampling.SusExactCount | lib/genetical.js:198-221 | one-signed finite weights give as many copies as pointers below `selectionSize`, and exactly `selectionSize` when it is whole |
| Sampling.SusDivergesOnZeroAggregate | lib/genetical.js:200-218 | natural scores after the first that cancel out, with the first of them positive, send the inner loop on forever |
| Sampling.AggregateInfinite | lib/genetical.js:200-203 | inverted weights add up to a finite value or +Infinity, and to +Infinity as soon as one weight is |
| Sampling.WalkQuiet | lib/genetical.js:211-219 | running expectations that are only 0 or NaN copy nothing |
| Sampling.SusEmptyOnPerfectScore | lib/genetical.js:198-221 | in inverted mode a perfect score after the first candidate makes SUS select nothing at all |
| Sampling.RankedPopulation | lib/genetical.js:224-230 | the ranked copy holds the candidates after the first, in order, with strictly rising scores in [-n, -2] |
| Sampling.RankScores | lib/genetical.js:228 | the ranks are `-n, -n + 1, ..., -2` for a population of n |
| Sampling.RankSelection | lib/genetical.js:223-232 | rank selection takes one draw and only ever copies candidates from the third on |
| Sampling.RankExactCount | lib/genetical.js:223-232 | with three or more candidates rank selection always succeeds, with one copy per pointer below `selectionSize` |
| Reproduction.OrOne | lib/genetical.js:240 | `x || 1` gives 1 for a missing value, keeps any non-zero one, and is never 0 |
| Reproduction.Crossover | lib/genetical.js:234-266 | a missing operator, then a non-positive `crossoverPoints || 1`, are the errors, in that order |
| Reproduction.Pairs | lib/genetical.js:245-263 | the parents taken two at a time, an odd last parent passed on as it is; its shape is stated by `Reproduction.PairsShape` |
| Reproduction.PairsShape | lib/genetical.js:245-263 | with a two-child operator the output keeps the size, an odd last parent passes through, and output pair i is the operator's children of parents 2i and 2i + 1, made from the generator as the first i pairs left it |
| Reproduction.MutateAllInOrder | lib/genetical.js:279-286 | output k is the operator's mutant of input k, made from the generator as the first k calls left it |
| Reproduction.MutateAll | lib/genetical.js:279-286 | one output per input; which output comes from which input is `Reproduction.MutateAllInOrder` |
| Reproduction.Mutate | lib/genetical.js:268-289 | a missing operator, then `mutationProbability || 1` outside (0, 1], are the errors; otherwise the size is kept and member k is the operator's mutant of input k, from the generator the first k calls left |
| Engine.NewGenetical | lib/genetical.js:8-18 | `natural` defaults to true, `elitism` to 0, and a missing (`undefined`) or zero strategy to the roulette wheel; any other strategy is kept |
| Engine.Validate | lib/genetical.js:330-349 | `solve` accepts exactly a positive size, the three callbacks and an elitism in [0, 1); a bad size is reported first, and every other error names an option that is missing or out of range |
| Engine.GenerateInitialPopulation | lib/genetical.js:20-31 | one payload per pass of the loop |
| Engine.InitialPopulationFromFactory | lib/genetical.js:20-31 | payload k is what the factory makes from the generator as the first k factory calls left it |
| Engine.Initial | lib/genetical.js:357-363 | generation 0 is sorted, evaluated and summarised, with one candidate per pass of the factory loop |
| Engine.EliteCount | lib/genetical.js:99-103 | the number of elites copied is the number of passes of the copying loop: 0 for a non-positive product, otherwise the least whole number not below `populationSize * elitism` |
| Engine.SelectionSize | lib/genetical.js:208 | the selection size and `populationSize * elitism` add up to the population size, and for valid options the selection size is positive and at most the population size |
| Engine.Select | lib/genetical.js:109-123 | every selected payload comes from the population; the roulette wheel takes one draw per spin, SUS two (one per run) and rank selection one |
| Engine.SortKeepsEvaluated | lib/genetical.js:44-49 | sorting keeps the size and every candidate's evaluated score |
| Engine.SusSelectionRunsTwice | lib/genetical.js:109-123 | under SUS the first run only spends a draw, and the selection is a second run one draw later |
| Engine.Evolve | lib/genetical.js:95-139 | an unknown strategy fails; otherwise the new population is evaluated and ends with the payloads of the first `eliteCount` candidates |
| Engine.EvolveAppendsElites | lib/genetical.js:125-136 | the new population is the mutated crossover of the selection followed by the elites |
| Engine.RouletteNextSize | lib/genetical.js:95-139 | with the roulette wheel and a two-child operator the new population holds one candidate per spin plus the elites |
| Engine.NextSizeRoundsUp | lib/genetical.js:99-103 | selection plus elites add up to the population size when `populationSize * elitism` is whole, and to one more otherwise |
| Engine.Step | lib/genetical.js:366-369 | one turn of the loop moves the generation on by one |
| Engine.StepConsistent | lib/genetical.js:366-369 | every turn leaves the population sorted and evaluated, with its own statistics |
| Engine.StepCounts | lib/genetical.js:366 | every successful turn counts exactly one generation |
| Engine.StepKeepsConsistent | lib/genetical.js:365-370 | consistency is an invariant of the turn |
| Engine.Solve | lib/genetical.js:329-373 | invalid options fail with the validation error; a finished run satisfies the termination condition and is consistent |
| Engine.SolveLoops | lib/genetical.js:357-370 | a validated `solve` runs the generation loop from generation 0 |
| Engine.SolveFindsFirst | lib/genetical.js:365-370 | when the condition first holds at generation n, `solve` finishes exactly there |
| Engine.BestCandidateIsBest | lib/genetical.js:372 | the callback's candidate is first in the final population, and no member has a better key |
| Runs.Loop | lib/genetical.js:365-370 | a finished loop ends on a state satisfying the condition |
| Runs.IterateCounts | lib/genetical.js:366 | n successful steps move the counter on by n |
| Runs.LoopStopsAtFirst | lib/genetical.js:365-370 | a finished loop took as many steps as the counter says, and no earlier state satisfied the condition |
| Runs.LoopFindsFirst | lib/genetical.js:365-370 | when the condition first holds after n steps within the fuel, the loop finishes exactly there |
| Runs.LoopKeeps | lib/genetical.js:365-370 | an invariant kept by every step holds where the loop ends |
| HelloWorld.SetCharAt | test/helloWorldStringTest.js:131-133 | one character inside the string replaces that position only; past the end it is appended; an empty one changes nothing |
| HelloWorld.GetRandomInt | test/helloWorldStringTest.js:135-137 | one draw, and a result in [min, max]; an empty range (`max = min - 1`) gives `min` |
| HelloWorld.GetRandomIntSlices | test/helloWorldStringTest.js:135-137 | the result is the one of `max - min + 1` equal slices of [0, 1) the draw falls in |
| HelloWorld.LetterInAlphabet | test/helloWorldStringTest.js:76 | every draw picks a letter of the alphabet |
| HelloWorld.LetterSlice | test/helloWorldStringTest.js:76 | the letters take equal slices of [0, 1), in alphabet order |
| HelloWorld.RandomLettersFromDraws | test/helloWorldStringTest.js:75-77 | letter i is the one draw i picks |
| HelloWorld.PopulationFactory | test/helloWorldStringTest.js:72-80 | a string as long as the solution, over the alphabet, letter i picked by draw i |
| HelloWorld.RandomLetter | test/helloWorldStringTest.js:87-88 | one draw picks one letter of the alphabet |
| HelloWorld.MutateFrom | test/helloWorldStringTest.js:83-91 | the length is kept, positions already passed are untouched, and every position keeps its character or gets an alphabet letter |
| HelloWorld.Mutate | test/helloWorldStringTest.js:82-94 | the length is kept and each character is the old one or an alphabet letter |
| HelloWorld.MutateKeepsOnHighDraw | test/helloWorldStringTest.js:85 | a position whose draw is not below the probability keeps its character |
| HelloWorld.MutateReplacesOnLowDraw | test/helloWorldStringTest.js:85-90 | a position whose draw is below the probability ends with the letter drawn for it |
| HelloWorld.MutateNeverBelowZero | test/helloWorldStringTest.js:83-91 | with a probability of at most 0 the string comes back unchanged |
| HelloWorld.MutateKeepsAlphabet | test/helloWorldStringTest.js:82-94 | strings over the alphabet stay over the alphabet |
| HelloWorld.FitnessEvaluator | test/helloWorldStringTest.js:96-107 | the score is a whole number between 0 and the length |
| HelloWorld.MismatchesZero | test/helloWorldStringTest.js:98-104 | no mistakes from position i on exactly when every position from i on is right |
| HelloWorld.MismatchesCount | test/helloWorldStringTest.js:96-107 | the score counts exactly the positions that are not right |
| HelloWorld.FitnessZeroIffPrefix | test/helloWorldStringTest.js:96-107 | the score is 0 exactly when the string is a prefix of the solution, so for a full-length string exactly when it is the solution |
| HelloWorld.StopsOnSolution | test/helloWorldStringTest.js:109-111 | on a scored population of full-length strings the example stops exactly when the best string is the solution or the generation is 5000 |
| HelloWorld.TerminationCondition | test/helloWorldStringTest.js:109-111 | generation 5000 always stops the run; when the best score is 0 is stated by `HelloWorld.StopsOnSolution` |
| HelloWorld.SwapFromTrades | test/helloWorldStringTest.js:120-125 | the inner loop trades positions j to k - 1 between the children and leaves the rest alone |
| HelloWorld.SwapFrom | test/helloWorldStringTest.js:120-125 | on strings of one length, with the end within them, the loop keeps both lengths; what it trades is `HelloWorld.SwapFromTrades` |
| HelloWorld.SwapPrefix | test/helloWorldStringTest.js:120-125 | one point from position 0 exchanges the first k characters of the two strings |
| HelloWorld.PointLength | test/helloWorldStringTest.js:119 | the traded prefix length is `1 + getRandomInt(0, len - 1)`: within [1, len], and 1 on an empty string |
| HelloWorld.Crossover | test/helloWorldStringTest.js:113-129 | crossover always hands back two children and takes one draw per pass of the points loop |
| HelloWorld.CrossPointsKeepPairs | test/helloWorldStringTest.js:117-126 | every point keeps both lengths and the pair of characters at each position |
| HelloWorld.CrossPoints | test/helloWorldStringTest.js:117-126 | the points loop takes exactly one draw per point; what it keeps is `HelloWorld.CrossPointsKeepPairs` |
| HelloWorld.CrossoverKeepsPairs | test/helloWorldStringTest.js:113-129 | the children of parents of one length have that length and hold the parents' two characters at every position |
| HelloWorld.OnePointSwapsPrefix | test/helloWorldStringTest.js:113-129 | with one point the children are the parents with a random prefix of length in [1, len] exchanged |
| HelloWorld.HelloWorldValidates | test/helloWorldStringTest.js:3-16 | the example's options pass validation and give the example's configuration: 100 candidates, elitism 0.05, the inverted convention and the roulette wheel |
| HelloWorld.HelloWorldOptions | test/helloWorldStringTest.js:3-16 | the options object: 100 candidates, lower scores better, elitism 0.05, no strategy given, mutation probability 0.02 |
| HelloWorld.CrossoverHasTwoChildren | test/helloWorldStringTest.js:128 | the string crossover always hands back exactly two children |
| HelloWorld.HelloWorldSizes | test/helloWorldStringTest.js:4-14 | the example keeps 5 elites and asks the selection for 95 |
| HelloWorld.HelloWorldKeepsSize | test/helloWorldStringTest.js:3-16 | every generation of the example again holds 100 strings |

## Left out

- The Mersenne-Twister generator and the `seed` option (lib/genetical.js:351-355): the generator is an external library. The model takes the stream of draws as a parameter, so the seed's validation is not modelled either.
- The `EventEmitter` events (`emit` calls) and `shouldTerminate`'s indirection: they do not change the engine's state.
- The standard deviation's `Math.sqrt` (lib/genetical.js:85): the summary keeps the variance instead. Floating-point rounding, overflow and the sign of zero are also out: finite numbers are exact reals.
- Aliasing: the source passes candidate objects by reference, and the model passes values. Three places depend on this:
  - `rankSelection` writes the rank into the candidate objects themselves (lib/genetical.js:228). Every object in the new population is scored again at the end of `evolve`, so these writes change no score the model reports.
  - `crossover` passes an odd last parent on as the same object (lib/genetical.js:261).
  - The string example's `mutate` rewrites the object it receives (test/helloWorldStringTest.js:89).
- Engine.EvolveAppendsElites: the model proves that the elites are appended unchanged. That holds only under value semantics. In the source, an odd-sized selection (95 in the example, `HelloWorld.HelloWorldSizes`) ends with a candidate that bypasses crossover and is still an object of the old population. When that object is also one of the elites, the example's in-place `mutate` changes the elite before `evolve` appends it. The source's appended elite can then differ from the old candidate. The model has no object identity and does not reproduce this.
- Engine.Evolve: its ensures about the last `eliteCount` payloads holds only under value semantics, for the same reason.
- The asynchronous form of the callbacks: every callback in the model returns its result directly.
- `crossoverPoints` or `mutationProbability` set to NaN: the model's numbers have no NaN there, so only the `<= 0` and `> 1` checks are modelled.
- Engine.Solve: the source's `while` loop is unbounded. The model runs it under `fuel` and reports `OutOfFuel` when the fuel ends first. `Runs.LoopFindsFirst` shows that enough fuel always reaches the generation where the condition first holds.
- Roulette.RouletteWheelSelection: a spin past the last slice makes the source push `undefined`, which fails later. The model reports it at once as `Err(UndefinedCandidate)`.
- Roulette.Mid: `(l + h) >>> 1` is modelled as halving rounded down. That matches the unsigned shift for the non-negative sums below 2^32 that occur.
- Moments.UniformMoments: only this direction is proved; that zero variance forces equal scores is not stated.
- The driver lines of test/helloWorldStringTest.js:18-70, which log events and rerun the example with other strategies. The last of these runs sets `Genetical.TOURNAMENT`, which the engine never defines. The option is therefore `undefined`, and the constructor's default at lib/genetical.js:15 turns it into the roulette wheel (`Engine.NewGenetical`). The `selectionStrategyOptions` set alongside it is read nowhere in the engine. The other test files are not part of this model.

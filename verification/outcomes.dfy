/** Optional values and the engine's error outcomes.

    Every `throw` of the engine, every point where the engine would go on
    with `undefined` and then fail, and the one loop that can run forever
    become an `Err` carrying one `Error` kind. */
module Outcomes {

  datatype Option<+T> = None | Some(value: T) {

    /** The value, or `default` when absent (JavaScript's `x || default`
        for an `x` that is missing). */
    function GetOr(default: T): T
    {
      match this
      case Some(v) => v
      case None => default
    }
  }

  datatype Error =
    | PopulationSizeInvalid          // 'populationSize' must be defined and > 0
    | PopulationFactoryMissing       // 'populationFactory' must be a function
    | FitnessEvaluatorMissing        // 'fitnessEvaluator' must be a function
    | TerminationConditionMissing    // 'terminationCondition' must be a function
    | ElitismOutOfRange              // 'elitism' must be in [0, 1)
    | SelectionStrategyUnknown       // 'selectionStrategy' must be 1, 2 or 3
    | CrossoverMissing               // 'evolutionOptions.crossover' must be a function
    | CrossoverPointsInvalid         // 'evolutionOptions.crossoverPoints' must be > 0
    | MutateMissing                  // 'evolutionOptions.mutate' must be a function
    | MutationProbabilityOutOfRange  // 'evolutionOptions.mutationProbability' must be in (0, 1]
    | UndefinedCandidate             // a population slot that does not exist is read
    | SelectionDiverges              // the sampling loop chases an infinite expectation forever

  datatype Result<+T> = Ok(value: T) | Err(error: Error)
}

/** Scored candidates and the fitness evaluation pass
    (lib/genetical.js, `evaluatePopulation`). */
module Candidates {

  /** A candidate: the caller's opaque payload plus the score the fitness
      evaluator gave it. */
  datatype Candidate<P> = Candidate(payload: P, score: real)

  function Scores<P>(pop: seq<Candidate<P>>): (s: seq<real>)
    ensures |s| == |pop|
    ensures forall i :: 0 <= i < |pop| ==> s[i] == pop[i].score
  {
    seq(|pop|, i requires 0 <= i < |pop| => pop[i].score)
  }

  function Payloads<P>(pop: seq<Candidate<P>>): (xs: seq<P>)
    ensures |xs| == |pop|
    ensures forall i :: 0 <= i < |pop| ==> xs[i] == pop[i].payload
  {
    seq(|pop|, i requires 0 <= i < |pop| => pop[i].payload)
  }

  /** Every candidate carries the score the evaluator gives its payload. */
  ghost predicate Evaluated<P>(fitness: P -> real, pop: seq<Candidate<P>>)
  {
    forall i :: 0 <= i < |pop| ==> pop[i].score == fitness(pop[i].payload)
  }

  /** `evaluatePopulation`: every candidate, in place and in order, gets the
      evaluator's score for its own payload. */
  function EvaluatePopulation<P>(fitness: P -> real, xs: seq<P>): (pop: seq<Candidate<P>>)
    ensures Payloads(pop) == xs
    ensures Evaluated(fitness, pop)
  {
    seq(|xs|, i requires 0 <= i < |xs| => Candidate(xs[i], fitness(xs[i])))
  }

  /** Evaluating the payloads of an evaluated population gives it back. */
  lemma ReEvaluateIsIdentity<P>(fitness: P -> real, pop: seq<Candidate<P>>)
    requires Evaluated(fitness, pop)
    ensures EvaluatePopulation(fitness, Payloads(pop)) == pop
  {
  }
}

/** The reproduction pipeline (lib/genetical.js, `crossover` and `mutate`):
    the caller's operators applied to the selected payloads, pairwise and
    then one by one, threading the shared generator. */
module Reproduction {
  import opened Outcomes
  import opened Draws

  /** `crossover(parent1, parent2, points, generator, callback)`: the
      children the callback receives, and the generator afterwards. */
  type CrossoverOp<!P> = (P, P, real, Rng) -> (seq<P>, Rng)

  /** `mutate(candidate, probability, generator, callback)`: the candidate
      the callback receives, and the generator afterwards. */
  type MutateOp<!P> = (P, real, Rng) -> (P, Rng)

  /** `evolutionOptions`: every field may be missing. */
  datatype EvolutionOptions<!P> = EvolutionOptions(
    crossover: Option<CrossoverOp<P>>,
    crossoverPoints: Option<real>,
    mutate: Option<MutateOp<P>>,
    mutationProbability: Option<real>)

  /** `x || 1` for a number that may be missing: a missing value and 0 both
      become 1. */
  function OrOne(x: Option<real>): (r: real)
    ensures x.None? ==> r == 1.0
    ensures x.Some? && x.value != 0.0 ==> r == x.value
    ensures r != 0.0
  {
    if x.None? || x.value == 0.0 then 1.0 else x.value
  }

  /** The parents taken two at a time: each pair is replaced by the
      operator's children, and an odd last member is passed on as it is. */
  function Pairs<P>(op: CrossoverOp<P>, points: real, pop: seq<P>, g: Rng): (r: (seq<P>, Rng))
    ensures |pop| % 2 == 1 ==> |r.0| > 0 && r.0[|r.0| - 1] == pop[|pop| - 1]
    decreases |pop|
  {
    if |pop| == 0 then ([], g)
    else if |pop| == 1 then ([pop[0]], g)
    else
      var (children, g1) := op(pop[0], pop[1], points, g);
      var (rest, g2) := Pairs(op, points, pop[2..], g1);
      (children + rest, g2)
  }

  /** `crossover(population)`: the operator must be present and
      `crossoverPoints || 1` positive. */
  function Crossover<P>(opts: EvolutionOptions<P>, pop: seq<P>, g: Rng): (r: Result<(seq<P>, Rng)>)
    ensures opts.crossover.None? ==> r == Err(CrossoverMissing)
    ensures opts.crossover.Some? ==> (r.Err? <==> OrOne(opts.crossoverPoints) <= 0.0)
    ensures r.Err? && opts.crossover.Some? ==> r.error == CrossoverPointsInvalid
    ensures r.Ok? ==> opts.crossover.Some? && 0.0 < OrOne(opts.crossoverPoints)
  {
    if opts.crossover.None? then Err(CrossoverMissing)
    else
      var points := OrOne(opts.crossoverPoints);
      if points <= 0.0 then Err(CrossoverPointsInvalid)
      else Ok(Pairs(opts.crossover.value, points, pop, g))
  }

  /** The operator always hands back exactly two children. */
  ghost predicate TwoChildren<P(!new)>(op: CrossoverOp<P>)
  {
    forall a: P, b: P, points: real, g: Rng :: |op(a, b, points, g).0| == 2
  }

  /** With a two-child operator the pairing keeps the population size, an
      odd last member comes out unchanged at the end, and pair `i` of the
      output is the operator's children of parents `2i` and `2i + 1`, made
      from the generator as the first `i` pairs left it. */
  lemma {:induction false} PairsShape<P(!new)>(op: CrossoverOp<P>, points: real, pop: seq<P>, g: Rng)
    requires TwoChildren(op)
    ensures |Pairs(op, points, pop, g).0| == |pop|
    ensures |pop| % 2 == 1 ==> Pairs(op, points, pop, g).0[|pop| - 1] == pop[|pop| - 1]
    ensures forall i :: 0 <= i < |pop| / 2 ==>
      Pairs(op, points, pop, g).0[2 * i..2 * i + 2]
        == op(pop[2 * i], pop[2 * i + 1], points, Pairs(op, points, pop[..2 * i], g).1).0
    decreases |pop|
  {
    if |pop| >= 2 {
      var children := op(pop[0], pop[1], points, g).0;
      var g1 := op(pop[0], pop[1], points, g).1;
      var rest := Pairs(op, points, pop[2..], g1).0;
      PairsShape(op, points, pop[2..], g1);
      var out := Pairs(op, points, pop, g).0;
      assert out == children + rest;
      assert |children| == 2;
      forall i | 0 <= i < |pop| / 2
        ensures out[2 * i..2 * i + 2] == op(pop[2 * i], pop[2 * i + 1], points, Pairs(op, points, pop[..2 * i], g).1).0
      {
        if i == 0 {
          assert out[0..2] == children;
        } else {
          var tail := pop[2..];
          assert out[2 * i..2 * i + 2] == rest[2 * (i - 1)..2 * (i - 1) + 2];
          assert tail[2 * (i - 1)] == pop[2 * i] && tail[2 * (i - 1) + 1] == pop[2 * i + 1];
          assert pop[..2 * i][2..] == tail[..2 * (i - 1)];
          assert Pairs(op, points, pop[..2 * i], g).1 == Pairs(op, points, tail[..2 * (i - 1)], g1).1;
        }
      }
    }
  }

  /** Each member mutated in turn, in order. */
  function MutateAll<P>(op: MutateOp<P>, probability: real, pop: seq<P>, g: Rng): (r: (seq<P>, Rng))
    ensures |r.0| == |pop|
    decreases |pop|
  {
    if |pop| == 0 then ([], g)
    else
      var (x, g1) := op(pop[0], probability, g);
      var (rest, g2) := MutateAll(op, probability, pop[1..], g1);
      ([x] + rest, g2)
  }

  /** Output `k` is the operator's mutant of input `k`, made from the
      generator as the first `k` calls left it. */
  lemma {:induction false} MutateAllInOrder<P>(op: MutateOp<P>, probability: real, pop: seq<P>, g: Rng)
    ensures forall k :: 0 <= k < |pop| ==>
      MutateAll(op, probability, pop, g).0[k] == op(pop[k], probability, MutateAll(op, probability, pop[..k], g).1).0
    decreases |pop|
  {
    if |pop| > 0 {
      var g1 := op(pop[0], probability, g).1;
      MutateAllInOrder(op, probability, pop[1..], g1);
      var out := MutateAll(op, probability, pop, g).0;
      assert out[0] == op(pop[0], probability, g).0;
      forall k | 1 <= k < |pop|
        ensures out[k] == op(pop[k], probability, MutateAll(op, probability, pop[..k], g).1).0
      {
        var tail := pop[1..];
        assert out[k] == MutateAll(op, probability, tail, g1).0[k - 1];
        assert tail[k - 1] == pop[k];
        assert pop[..k][1..] == tail[..k - 1];
        assert MutateAll(op, probability, pop[..k], g).1 == MutateAll(op, probability, tail[..k - 1], g1).1;
      }
    }
  }

  /** `mutate(population)`: the operator must be present and
      `mutationProbability || 1` must lie in (0, 1]. */
  function Mutate<P>(opts: EvolutionOptions<P>, pop: seq<P>, g: Rng): (r: Result<(seq<P>, Rng)>)
    ensures opts.mutate.None? ==> r == Err(MutateMissing)
    ensures opts.mutate.Some? ==>
      (r.Err? <==> !(0.0 < OrOne(opts.mutationProbability) <= 1.0))
    ensures r.Err? && opts.mutate.Some? ==> r.error == MutationProbabilityOutOfRange
    ensures r.Ok? ==> |r.value.0| == |pop|
    ensures r.Ok? ==> forall k :: 0 <= k < |pop| ==>
      r.value.0[k] == opts.mutate.value(pop[k], OrOne(opts.mutationProbability),
        MutateAll(opts.mutate.value, OrOne(opts.mutationProbability), pop[..k], g).1).0
  {
    if opts.mutate.None? then Err(MutateMissing)
    else
      var probability := OrOne(opts.mutationProbability);
      if probability <= 0.0 || probability > 1.0 then Err(MutationProbabilityOutOfRange)
      else
        MutateAllInOrder(opts.mutate.value, probability, pop, g);
        Ok(MutateAll(opts.mutate.value, probability, pop, g))
  }
}

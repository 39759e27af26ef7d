/** `updateStats` (lib/genetical.js): the per-generation summary of the
    sorted population that the termination condition reads. */
module Statistics {
  import opened Outcomes
  import opened Numbers
  import opened Candidates
  import opened Moments

  /** `Number.MAX_VALUE`, the largest finite double: (2^53 - 1) * 2^971. */
  const MAX_VALUE: real := 179769313486231570814527423731704356798070567525844996598917476803157260780028538760589558632766878171540458953514382464234321326889464182768467546703537516986049910576551282076245490090389328944075868508455133942304583236903222948165808559332123348274797826204144723168738177180919299881250404026184124858368.0

  /** 2^1074. */
  const TWO_TO_1074: real := 202402253307310618352495346718917307049556649764142118356901358027430339567995346891960383701437124495187077864316811911389808737385793476867013399940738509921517424276566361364466907742093216341239767678472745068562007483424692698618103355649159556340810056512358769552333414615230502532186327508646006263307707741093494784.0

  /** `Number.MIN_VALUE`, the least POSITIVE double: 2^-1074.  The engine
      seeds the running maximum with it. */
  const MIN_VALUE: real := 1.0 / TWO_TO_1074

  function RealMin(a: real, b: real): real { if a <= b then a else b }
  function RealMax(a: real, b: real): real { if a >= b then a else b }

  /** The summary `updateStats` publishes.  The standard deviation is kept as
      its square, the population variance. */
  datatype Stats<P> = Stats(
    dataSet: seq<real>,
    dataSetSize: nat,
    total: real,
    product: real,
    reciprocalSum: Option<real>,  // None once a score is 0 (the double sum is no longer finite)
    minimum: real,
    maximum: real,
    bestCandidate: Candidate<P>,
    bestScore: real,
    mean: real,
    variance: real,
    generation: nat)

  /** The running accumulators of the `forEach` pass over the population. */
  datatype Tally = Tally(
    dataSet: seq<real>,
    size: nat,
    total: real,
    product: real,
    reciprocalSum: Option<real>,
    minimum: real,
    maximum: real)

  /** The accumulators before the first candidate. */
  function Start(): Tally
  {
    Tally([], 0, 0.0, 1.0, Some(0.0), MAX_VALUE, MIN_VALUE)
  }

  function Product(xs: seq<real>): real
  {
    if |xs| == 0 then 1.0 else Times(xs[0], Product(xs[1..]))
  }

  /** The sum of reciprocals, defined when no score is 0. */
  function ReciprocalSum(xs: seq<real>): real
    requires forall i :: 0 <= i < |xs| ==> xs[i] != 0.0
  {
    if |xs| == 0 then 0.0 else 1.0 / xs[0] + ReciprocalSum(xs[1..])
  }

  /** One iteration of the `forEach` body. */
  function AddScore(t: Tally, x: real): (r: Tally)
    ensures r.dataSet == t.dataSet + [x] && r.size == t.size + 1
    ensures r.minimum <= t.minimum && r.minimum <= x && (r.minimum == t.minimum || r.minimum == x)
    ensures t.maximum <= r.maximum && x <= r.maximum && (r.maximum == t.maximum || r.maximum == x)
    ensures r.reciprocalSum.Some? <==> t.reciprocalSum.Some? && x != 0.0
  {
    Tally(t.dataSet + [x], t.size + 1, t.total + x, Times(t.product, x),
          if x == 0.0 || t.reciprocalSum.None? then None else Some(t.reciprocalSum.value + 1.0 / x),
          RealMin(t.minimum, x), RealMax(t.maximum, x))
  }

  /** The whole `forEach` pass, left to right. */
  function TallyAll(t: Tally, xs: seq<real>): (r: Tally)
    ensures r.dataSet == t.dataSet + xs
    ensures r.size == t.size + |xs|
    ensures r.total == t.total + Sum(xs)
    decreases |xs|
  {
    if |xs| == 0 then t
    else
      assert t.dataSet + [xs[0]] + xs[1..] == t.dataSet + xs;
      TallyAll(AddScore(t, xs[0]), xs[1..])
  }

  /** Multiplication, kept behind a name so that the solver treats the
      running product by its equations rather than by nonlinear search. */
  function Times(a: real, b: real): real
  {
    a * b
  }

  /** Folding one more factor into the running product first, or into the
      rest of the product first, gives the same value. */
  lemma TimesAssociates(a: real, b: real, c: real)
    ensures Times(Times(a, b), c) == Times(a, Times(b, c))
  {
  }

  lemma {:induction false} TallyProduct(t: Tally, xs: seq<real>)
    ensures TallyAll(t, xs).product == Times(t.product, Product(xs))
    decreases |xs|
  {
    if |xs| > 0 {
      var t' := AddScore(t, xs[0]);
      assert TallyAll(t, xs).product == TallyAll(t', xs[1..]).product;
      TallyProduct(t', xs[1..]);
      TimesAssociates(t.product, xs[0], Product(xs[1..]));
    }
  }

  lemma {:induction false} TallyReciprocal(t: Tally, xs: seq<real>)
    ensures TallyAll(t, xs).reciprocalSum.Some?
        <==> t.reciprocalSum.Some? && forall i :: 0 <= i < |xs| ==> xs[i] != 0.0
    ensures TallyAll(t, xs).reciprocalSum.Some?
        ==> TallyAll(t, xs).reciprocalSum.value == t.reciprocalSum.value + ReciprocalSum(xs)
    decreases |xs|
  {
    if |xs| > 0 {
      TallyReciprocal(AddScore(t, xs[0]), xs[1..]);
      assert forall i :: 0 < i < |xs| ==> xs[i] == xs[1..][i - 1];
    }
  }

  /** The running minimum ends at or below every score and at or below its
      seed, and is one of them. */
  lemma {:induction false} TallyMinimum(t: Tally, xs: seq<real>)
    ensures TallyAll(t, xs).minimum <= t.minimum
    ensures forall i :: 0 <= i < |xs| ==> TallyAll(t, xs).minimum <= xs[i]
    ensures TallyAll(t, xs).minimum == t.minimum || exists i :: 0 <= i < |xs| && TallyAll(t, xs).minimum == xs[i]
    decreases |xs|
  {
    if |xs| > 0 {
      TallyMinimum(AddScore(t, xs[0]), xs[1..]);
      assert forall i :: 0 < i < |xs| ==> xs[i] == xs[1..][i - 1];
    }
  }

  /** The running maximum ends at or above every score and at or above its
      seed, and is one of them. */
  lemma {:induction false} TallyMaximum(t: Tally, xs: seq<real>)
    ensures t.maximum <= TallyAll(t, xs).maximum
    ensures forall i :: 0 <= i < |xs| ==> xs[i] <= TallyAll(t, xs).maximum
    ensures TallyAll(t, xs).maximum == t.maximum || exists i :: 0 <= i < |xs| && TallyAll(t, xs).maximum == xs[i]
    decreases |xs|
  {
    if |xs| > 0 {
      TallyMaximum(AddScore(t, xs[0]), xs[1..]);
      assert forall i :: 0 < i < |xs| ==> xs[i] == xs[1..][i - 1];
    }
  }

  /** `updateStats`: accumulate, take the first (best, once sorted)
      candidate, then the mean and the population variance. */
  function UpdateStats<P>(pop: seq<Candidate<P>>, generation: nat): (s: Stats<P>)
    requires |pop| > 0
    ensures s.dataSet == Scores(pop) && s.dataSetSize == |pop|
    ensures s.total == Sum(Scores(pop))
    ensures s.product == Product(Scores(pop))
    ensures s.reciprocalSum.Some? <==> forall i :: 0 <= i < |pop| ==> pop[i].score != 0.0
    ensures s.reciprocalSum.Some? ==> s.reciprocalSum.value == ReciprocalSum(Scores(pop))
    ensures s.minimum <= MAX_VALUE && forall i :: 0 <= i < |pop| ==> s.minimum <= pop[i].score
    ensures s.minimum == MAX_VALUE || exists i :: 0 <= i < |pop| && s.minimum == pop[i].score
    ensures MIN_VALUE <= s.maximum && forall i :: 0 <= i < |pop| ==> pop[i].score <= s.maximum
    ensures s.maximum == MIN_VALUE || exists i :: 0 <= i < |pop| && s.maximum == pop[i].score
    ensures s.bestCandidate == pop[0] && s.bestScore == pop[0].score
    ensures s.mean == Mean(Scores(pop))
    ensures s.variance == Variance(Scores(pop))
    ensures s.generation == generation
  {
    var t := TallyAll(Start(), Scores(pop));
    TallyProduct(Start(), Scores(pop));
    TallyReciprocal(Start(), Scores(pop));
    TallyMinimum(Start(), Scores(pop));
    TallyMaximum(Start(), Scores(pop));
    assert t.dataSet == Scores(pop) && t.size == |pop| && t.total == Sum(Scores(pop));
    Stats(t.dataSet, t.size, t.total, t.product, t.reciprocalSum, t.minimum, t.maximum,
          pop[0], pop[0].score, Mean(t.dataSet), Variance(t.dataSet), generation)
  }

  /** The mean lies between the reported minimum and maximum. */
  lemma MeanBetweenExtremes<P>(pop: seq<Candidate<P>>, generation: nat)
    requires |pop| > 0
    ensures UpdateStats(pop, generation).minimum <= UpdateStats(pop, generation).mean <= UpdateStats(pop, generation).maximum
  {
    var s := UpdateStats(pop, generation);
    MeanWithin(Scores(pop), s.minimum, s.maximum);
  }

  lemma MinValuePositive()
    ensures 0.0 < MIN_VALUE
  {
  }

  /** The running maximum is seeded with the least positive double, so a
      population whose scores are all at most 0 reports a maximum above every
      score. */
  lemma MaximumSeedOverstates<P>(pop: seq<Candidate<P>>, generation: nat)
    requires |pop| > 0
    requires forall i :: 0 <= i < |pop| ==> pop[i].score <= 0.0
    ensures UpdateStats(pop, generation).maximum == MIN_VALUE
    ensures forall i :: 0 <= i < |pop| ==> pop[i].score < UpdateStats(pop, generation).maximum
  {
    MinValuePositive();
  }
}

/** The example operators of test/helloWorldStringTest.js: candidates are
    strings over a 27-letter alphabet, evolved towards "HELLO WORLD" under
    the inverted convention (the score counts mistakes). */
module HelloWorld {
  import opened Outcomes
  import opened Numbers
  import opened Draws
  import opened Statistics
  import opened Reproduction
  import opened Candidates
  import opened Engine

  const ALPHABET: string := "ABCDEFGHIJKLMNOPQRSTUVWXYZ "
  const SOLUTION: string := "HELLO WORLD"

  function Min(a: nat, b: nat): nat
  {
    if a <= b then a else b
  }

  /** `s.charAt(i)`: the one-character string at `i`, or "" out of range. */
  function CharAt(s: string, i: int): (c: string)
    ensures 0 <= i < |s| ==> c == [s[i]]
    ensures !(0 <= i < |s|) ==> c == ""
  {
    if 0 <= i < |s| then [s[i]] else ""
  }

  /** `s.substr(start, length)` for non-negative arguments: clamped to the
      string. */
  function Substr(s: string, start: nat, length: nat): string
  {
    s[Min(start, |s|)..Min(start + length, |s|)]
  }

  /** `s.substr(start)`. */
  function SubstrFrom(s: string, start: nat): string
  {
    s[Min(start, |s|)..]
  }

  /** `setCharAt(string, index, char)`: the text before `index`, then
      `char`, then the text after the `|char|` characters it replaces.  A
      single character inside the string replaces one position; past the end
      it is appended; an empty `char` changes nothing. */
  function SetCharAt(s: string, index: nat, c: string): (r: string)
    ensures |c| == 1 && index < |s| ==>
      |r| == |s| && r[index] == c[0] && forall j :: 0 <= j < |s| && j != index ==> r[j] == s[j]
    ensures |s| <= index ==> r == s + c
    ensures c == "" ==> r == s
  {
    Substr(s, 0, index) + c + SubstrFrom(s, index + |c|)
  }

  lemma ScaledDraw(u: real, n: int)
    requires 0.0 <= u < 1.0 && 1 <= n
    ensures 0.0 <= u * n as real < n as real
  {
  }

  /** `getRandomInt(min, max, generator)`: `Math.floor(random() * (max - min + 1)) + min`. */
  function GetRandomInt(min: int, max: int, g: Rng): (r: (int, Rng))
    ensures Advanced(g, r.1, 1)
    ensures min <= max ==> min <= r.0 <= max
    ensures max == min - 1 ==> r.0 == min
  {
    var (u, g1) := Next(g);
    if min <= max then
      ScaledDraw(u, max - min + 1);
      ((u * (max - min + 1) as real).Floor + min, g1)
    else
      ((u * (max - min + 1) as real).Floor + min, g1)
  }

  /** The draw behind `getRandomInt` decides it: the result is the
      `max - min + 1` equal slices of [0, 1) the draw falls in, counted from
      `min`. */
  lemma GetRandomIntSlices(min: int, max: int, g: Rng)
    requires min <= max
    ensures var k := GetRandomInt(min, max, g).0 - min;
      k as real <= Ahead(g, 0) * (max - min + 1) as real < (k + 1) as real
  {
  }

  // ---------------------------------------------------------------------
  // populationFactory

  /** The letter a draw picks:
      `alphabet.charAt(Math.floor(random() * alphabet.length))`. */
  function Letter(u: Unit): char
  {
    ScaledDraw(u, |ALPHABET|);
    ALPHABET[(u * |ALPHABET| as real).Floor]
  }

  /** Each draw picks a letter of the alphabet. */
  lemma LetterInAlphabet(u: Unit)
    ensures Letter(u) in ALPHABET
  {
  }

  /** The letters in order take equal slices of [0, 1). */
  lemma LetterSlice(u: Unit, k: nat)
    requires k < |ALPHABET| && k as real <= u * |ALPHABET| as real < (k + 1) as real
    ensures Letter(u) == ALPHABET[k]
  {
    assert (u * |ALPHABET| as real).Floor == k;
  }

  /** `n` letters, one draw each. */
  function RandomLetters(n: nat, g: Rng): (r: (string, Rng))
    ensures |r.0| == n && Advanced(g, r.1, n)
    decreases n
  {
    if n == 0 then ("", g)
    else
      var (u, g1) := Next(g);
      var (rest, g2) := RandomLetters(n - 1, g1);
      ([Letter(u)] + rest, g2)
  }

  /** Past the first letter the string is the one the next draws make. */
  lemma RandomLettersShift(n: nat, g: Rng, i: nat)
    requires 1 <= i < n
    ensures RandomLetters(n, g).0[i] == RandomLetters(n - 1, Next(g).1).0[i - 1]
    ensures Ahead(g, i) == Ahead(Next(g).1, i - 1)
  {
  }

  /** Letter `i` is the one the `i`-th draw picks. */
  lemma {:induction false} RandomLettersFromDraws(n: nat, g: Rng)
    ensures forall i :: 0 <= i < n ==> RandomLetters(n, g).0[i] == Letter(Ahead(g, i))
    decreases n
  {
    if n > 0 {
      RandomLettersFromDraws(n - 1, Next(g).1);
      forall i | 0 <= i < n
        ensures RandomLetters(n, g).0[i] == Letter(Ahead(g, i))
      {
        if i > 0 {
          RandomLettersShift(n, g, i);
        }
      }
    }
  }

  /** `populationFactory(generator, callback)`: a random string as long as
      the solution, its letters picked by consecutive draws. */
  function PopulationFactory(g: Rng): (r: (string, Rng))
    ensures |r.0| == |SOLUTION| && Advanced(g, r.1, |SOLUTION|)
    ensures forall i :: 0 <= i < |r.0| ==> r.0[i] == Letter(Ahead(g, i)) && r.0[i] in ALPHABET
  {
    RandomLettersFromDraws(|SOLUTION|, g);
    forall i | 0 <= i < |SOLUTION|
      ensures Letter(Ahead(g, i)) in ALPHABET
    {
      LetterInAlphabet(Ahead(g, i));
    }
    RandomLetters(|SOLUTION|, g)
  }

  // ---------------------------------------------------------------------
  // mutate

  /** The alphabet letter `getRandomInt(0, alphabet.length - 1)` picks. */
  function RandomLetter(g: Rng): (r: (string, Rng))
    ensures |r.0| == 1 && r.0[0] in ALPHABET && Advanced(g, r.1, 1)
  {
    var (k, g1) := GetRandomInt(0, |ALPHABET| - 1, g);
    (CharAt(ALPHABET, k), g1)
  }

  /** The mutation loop from position `i` on: each position takes a draw
      and, when it falls below the probability, a random letter. */
  function MutateFrom(value: string, i: nat, probability: real, g: Rng): (r: (string, Rng))
    ensures |r.0| == |value|
    ensures forall j :: 0 <= j < |value| && j < i ==> r.0[j] == value[j]
    ensures forall j :: 0 <= j < |value| ==> r.0[j] == value[j] || r.0[j] in ALPHABET
    decreases |value| - i
  {
    if i >= |value| then (value, g)
    else
      var (u, g1) := Next(g);
      if u < probability then
        var (c, g2) := RandomLetter(g1);
        MutateFrom(SetCharAt(value, i, c), i + 1, probability, g2)
      else
        MutateFrom(value, i + 1, probability, g1)
  }

  /** `mutate(candidate, mutationProbability, generator, callback)`. */
  function Mutate(value: string, probability: real, g: Rng): (r: (string, Rng))
    ensures |r.0| == |value|
    ensures forall j :: 0 <= j < |value| ==> r.0[j] == value[j] || r.0[j] in ALPHABET
  {
    MutateFrom(value, 0, probability, g)
  }

  /** A position whose draw is not below the probability keeps its
      character. */
  lemma MutateKeepsOnHighDraw(value: string, i: nat, probability: real, g: Rng)
    requires i < |value| && probability <= Ahead(g, 0)
    ensures MutateFrom(value, i, probability, g).0[i] == value[i]
  {
    assert MutateFrom(value, i, probability, g) == MutateFrom(value, i + 1, probability, Next(g).1);
  }

  /** A position whose draw is below the probability ends up holding the
      letter drawn for it. */
  lemma MutateReplacesOnLowDraw(value: string, i: nat, probability: real, g: Rng)
    requires i < |value| && Ahead(g, 0) < probability
    ensures MutateFrom(value, i, probability, g).0[i] == RandomLetter(Next(g).1).0[0]
  {
    var c := RandomLetter(Next(g).1).0;
    assert MutateFrom(value, i, probability, g)
      == MutateFrom(SetCharAt(value, i, c), i + 1, probability, RandomLetter(Next(g).1).1);
  }

  /** With a probability of at most 0 no draw falls below it and the string
      comes back unchanged. */
  lemma {:induction false} MutateNeverBelowZero(value: string, i: nat, probability: real, g: Rng)
    requires probability <= 0.0
    ensures MutateFrom(value, i, probability, g).0 == value
    decreases |value| - i
  {
    if i < |value| {
      MutateNeverBelowZero(value, i + 1, probability, Next(g).1);
    }
  }

  /** Strings over the alphabet stay over the alphabet. */
  lemma MutateKeepsAlphabet(value: string, probability: real, g: Rng)
    requires forall j :: 0 <= j < |value| ==> value[j] in ALPHABET
    ensures forall j :: 0 <= j < |value| ==> Mutate(value, probability, g).0[j] in ALPHABET
  {
  }

  // ---------------------------------------------------------------------
  // fitnessEvaluator

  /** The positions from `i` on where `value` differs from the solution,
      compared with `charAt` on both sides. */
  function Mismatches(value: string, i: nat): (n: nat)
    ensures n <= |value| - i || i >= |value|
    decreases |value| - i
  {
    if i >= |value| then 0
    else (if CharAt(value, i) != CharAt(SOLUTION, i) then 1 else 0) + Mismatches(value, i + 1)
  }

  /** `fitnessEvaluator(candidate, callback)`: the number of mistakes. */
  function FitnessEvaluator(value: string): (score: real)
    ensures 0.0 <= score <= |value| as real
    ensures score == score.Floor as real
  {
    Mismatches(value, 0) as real
  }

  /** Position `j` of `value` is right: inside the solution and equal to it. */
  predicate RightAt(value: string, j: nat)
    requires j < |value|
  {
    j < |SOLUTION| && value[j] == SOLUTION[j]
  }

  lemma {:induction false} MismatchesZero(value: string, i: nat)
    requires i <= |value|
    ensures Mismatches(value, i) == 0 <==> forall j :: i <= j < |value| ==> RightAt(value, j)
    decreases |value| - i
  {
    if i < |value| {
      MismatchesZero(value, i + 1);
      assert (forall j :: i <= j < |value| ==> RightAt(value, j))
        <==> RightAt(value, i) && forall j :: i + 1 <= j < |value| ==> RightAt(value, j);
      MismatchAt(value, i);
    }
  }

  /** No mistakes exactly when the string is a prefix of the solution; for
      a string as long as the solution, exactly when it is the solution. */
  lemma FitnessZeroIffPrefix(value: string)
    ensures FitnessEvaluator(value) == 0.0 <==> |value| <= |SOLUTION| && value == SOLUTION[..|value|]
    ensures |value| == |SOLUTION| ==> (FitnessEvaluator(value) == 0.0 <==> value == SOLUTION)
  {
    MismatchesZero(value, 0);
    if |value| <= |SOLUTION| {
      if forall j :: 0 <= j < |value| ==> RightAt(value, j) {
        assert |SOLUTION[..|value|]| == |value|;
        forall j | 0 <= j < |value|
          ensures value[j] == SOLUTION[..|value|][j]
        {
          assert RightAt(value, j);
        }
      }
    } else {
      assert !RightAt(value, |SOLUTION|);
    }
  }

  /** `charAt` tells a position apart exactly when it is not right. */
  lemma MismatchAt(value: string, j: nat)
    requires j < |value|
    ensures CharAt(value, j) != CharAt(SOLUTION, j) <==> !RightAt(value, j)
  {
    if j < |SOLUTION| {
      assert CharAt(value, j)[0] == value[j] && CharAt(SOLUTION, j)[0] == SOLUTION[j];
    }
  }

  /** The positions from `i` on that are not right. */
  ghost function Wrong(value: string, i: nat): set<nat>
  {
    set j: nat | i <= j < |value| && !RightAt(value, j)
  }

  /** Each position that is not right counts once, and no other does. */
  lemma {:induction false} MismatchesCount(value: string, i: nat)
    requires i <= |value|
    ensures Mismatches(value, i) == |Wrong(value, i)|
    decreases |value| - i
  {
    if i < |value| {
      MismatchesCount(value, i + 1);
      MismatchAt(value, i);
      if RightAt(value, i) {
        assert Wrong(value, i) == Wrong(value, i + 1);
      } else {
        assert Wrong(value, i) == Wrong(value, i + 1) + {i};
      }
    }
  }

  // ---------------------------------------------------------------------
  // terminationCondition

  /** `terminationCondition(stats)`: a perfect string, or generation 5000. */
  function TerminationCondition(stats: Stats<string>): (stop: bool)
    ensures stats.generation == 5000 ==> stop
  {
    stats.bestScore == 0.0 || stats.generation == 5000
  }

  /** On an evaluated population of strings as long as the solution, the
      example stops exactly when the best candidate is the solution or the
      generation is 5000. */
  lemma StopsOnSolution(pop: seq<Candidate<string>>, generation: nat)
    requires |pop| > 0 && Evaluated(FitnessEvaluator, pop)
    requires |pop[0].payload| == |SOLUTION|
    ensures TerminationCondition(UpdateStats(pop, generation))
        <==> pop[0].payload == SOLUTION || generation == 5000
  {
    FitnessZeroIffPrefix(pop[0].payload);
  }

  // ---------------------------------------------------------------------
  // crossover

  /** The inner loop for one point: positions `j` up to `k` traded
      between the two children. */
  function SwapFrom(c1: string, c2: string, j: nat, k: nat): (r: (string, string))
    ensures |c1| == |c2| && k <= |c1| ==> |r.0| == |c1| && |r.1| == |c1|
    decreases k - j
  {
    if j >= k then (c1, c2)
    else
      var temp := CharAt(c1, j);
      SwapFrom(SetCharAt(c1, j, CharAt(c2, j)), SetCharAt(c2, j, temp), j + 1, k)
  }

  /** On strings of one length the loop trades positions `j` to `k - 1`
      and leaves the rest alone. */
  lemma {:induction false} SwapFromTrades(c1: string, c2: string, j: nat, k: nat)
    requires |c1| == |c2| && j <= k <= |c1|
    ensures var r := SwapFrom(c1, c2, j, k);
      |r.0| == |c1| && |r.1| == |c1|
      && (forall p :: 0 <= p < |c1| ==> r.0[p] == if j <= p < k then c2[p] else c1[p])
      && (forall p :: 0 <= p < |c1| ==> r.1[p] == if j <= p < k then c1[p] else c2[p])
    decreases k - j
  {
    if j < k {
      var d1 := SetCharAt(c1, j, [c2[j]]);
      var d2 := SetCharAt(c2, j, [c1[j]]);
      assert SwapFrom(c1, c2, j, k) == SwapFrom(d1, d2, j + 1, k);
      SwapFromTrades(d1, d2, j + 1, k);
      var r := SwapFrom(d1, d2, j + 1, k);
      forall p | 0 <= p < |c1|
        ensures r.0[p] == (if j <= p < k then c2[p] else c1[p])
        ensures r.1[p] == (if j <= p < k then c1[p] else c2[p])
      {
        if p != j {
          assert d1[p] == c1[p] && d2[p] == c2[p];
        }
      }
    }
  }

  /** A string that agrees with `b` below `k` and with `a` from `k` on is
      `b`'s prefix followed by `a`'s suffix. */
  lemma Splice(a: string, b: string, k: nat, r: string)
    requires |a| == |b| == |r| && k <= |a|
    requires forall p :: 0 <= p < |a| ==> r[p] == if p < k then b[p] else a[p]
    ensures r == b[..k] + a[k..]
  {
    var e := b[..k] + a[k..];
    assert |e| == |r|;
    forall p | 0 <= p < |r|
      ensures e[p] == r[p]
    {
      if p < k {
        assert e[p] == b[p];
      } else {
        assert e[p] == a[p];
      }
    }
  }

  /** One point from position 0: the two strings with their first `k`
      characters exchanged. */
  lemma SwapPrefix(c1: string, c2: string, k: nat)
    requires |c1| == |c2| && k <= |c1|
    ensures SwapFrom(c1, c2, 0, k) == (c2[..k] + c1[k..], c1[..k] + c2[k..])
  {
    SwapFromTrades(c1, c2, 0, k);
    var r := SwapFrom(c1, c2, 0, k);
    Splice(c1, c2, k, r.0);
    Splice(c2, c1, k, r.1);
  }

  /** On empty strings the loop has nothing to trade. */
  lemma {:induction false} SwapFromEmpty(j: nat, k: nat)
    ensures SwapFrom("", "", j, k) == ("", "")
    decreases k - j
  {
    if j < k {
      SwapFromEmpty(j + 1, k);
    }
  }

  /** The prefix length one point trades: `1 + getRandomInt(0, len - 1)`.
      On an empty string the range is empty and the length is 1. */
  function PointLength(len: nat, g: Rng): (k: nat)
    ensures k == 1 + GetRandomInt(0, len - 1, g).0
    ensures 1 <= k && (1 <= len ==> k <= len)
  {
    1 + GetRandomInt(0, len - 1, g).0
  }

  /** The outer loop: `n` points, each trading a random prefix. */
  function CrossPoints(c1: string, c2: string, len: nat, n: nat, g: Rng): (r: (string, string, Rng))
    ensures Advanced(g, r.2, n)
    decreases n
  {
    if n == 0 then (c1, c2, g)
    else
      var d := SwapFrom(c1, c2, 0, PointLength(len, g));
      CrossPoints(d.0, d.1, len, n - 1, GetRandomInt(0, len - 1, g).1)
  }

  /** `crossover(parent1, parent2, points, generator, callback)`: two
      children, each point trading a fresh prefix. */
  function Crossover(p1: string, p2: string, points: real, g: Rng): (r: (seq<string>, Rng))
    ensures |r.0| == 2
    ensures Advanced(g, r.1, Slots(points))
  {
    var (c1, c2, g') := CrossPoints(p1, p2, |p1|, Slots(points), g);
    ([c1, c2], g')
  }

  /** Two strings hold the same pair of characters at every position. */
  ghost predicate SamePairs(a1: string, a2: string, b1: string, b2: string)
  {
    |a1| == |a2| == |b1| == |b2|
    && forall j :: 0 <= j < |a1| ==>
         (a1[j] == b1[j] && a2[j] == b2[j]) || (a1[j] == b2[j] && a2[j] == b1[j])
  }

  lemma SamePairsTransitive(a1: string, a2: string, b1: string, b2: string, c1: string, c2: string)
    requires SamePairs(a1, a2, b1, b2) && SamePairs(b1, b2, c1, c2)
    ensures SamePairs(a1, a2, c1, c2)
  {
  }

  /** One point keeps both lengths and the pair at every position. */
  lemma SwapKeepsPairs(c1: string, c2: string, k: nat)
    requires |c1| == |c2| && (k <= |c1| || |c1| == 0)
    ensures var d := SwapFrom(c1, c2, 0, k);
      SamePairs(d.0, d.1, c1, c2)
  {
    if |c1| == 0 {
      SwapFromEmpty(0, k);
    } else {
      SwapFromTrades(c1, c2, 0, k);
    }
  }

  /** On parents of one length every point keeps both lengths and the pair
      of characters at each position. */
  lemma {:induction false} CrossPointsKeepPairs(c1: string, c2: string, len: nat, n: nat, g: Rng)
    requires |c1| == |c2| == len
    ensures var r := CrossPoints(c1, c2, len, n, g);
      SamePairs(r.0, r.1, c1, c2)
    decreases n
  {
    if n > 0 {
      var d := SwapFrom(c1, c2, 0, PointLength(len, g));
      var g1 := GetRandomInt(0, len - 1, g).1;
      SwapKeepsPairs(c1, c2, PointLength(len, g));
      CrossPointsKeepPairs(d.0, d.1, len, n - 1, g1);
      var r := CrossPoints(d.0, d.1, len, n - 1, g1);
      SamePairsTransitive(r.0, r.1, d.0, d.1, c1, c2);
    }
  }

  /** Crossover of parents of one length: two children of that length,
      together holding the parents' two characters at every position. */
  lemma CrossoverKeepsPairs(p1: string, p2: string, points: real, g: Rng)
    requires |p1| == |p2|
    ensures var r := Crossover(p1, p2, points, g).0;
      |r| == 2 && |r[0]| == |p1| && |r[1]| == |p1| && SamePairs(r[0], r[1], p1, p2)
  {
    CrossPointsKeepPairs(p1, p2, |p1|, Slots(points), g);
  }

  /** With one point the children are the parents with a prefix of length
      `1 + getRandomInt(0, len - 1)` swapped. */
  lemma OnePointSwapsPrefix(p1: string, p2: string, g: Rng)
    requires |p1| == |p2| >= 1
    ensures var k := 1 + GetRandomInt(0, |p1| - 1, g).0;
      1 <= k <= |p1|
      && Crossover(p1, p2, 1.0, g).0 == [p2[..k] + p1[k..], p1[..k] + p2[k..]]
  {
    SlotsOfWhole(1);
    SwapPrefix(p1, p2, PointLength(|p1|, g));
  }

  // ---------------------------------------------------------------------
  // The example's configuration

  /** The options object of the example: 100 candidates, lower scores
      better, 5% elitism, a 2% mutation probability and the default
      roulette wheel. */
  function HelloWorldOptions(): (o: Options<string>)
    ensures o.populationSize == Some(100.0) && o.natural == Some(false) && o.elitism == Some(0.05)
    ensures o.selectionStrategy.None? && o.evolutionOptions.mutationProbability == Some(0.02)
  {
    Options(
      Some(100.0), Some(PopulationFactory), Some(FitnessEvaluator), Some(false),
      Some(TerminationCondition), Some(0.05), None,
      EvolutionOptions(Some(Crossover), None, Some(Mutate), Some(0.02)))
  }

  /** The configuration `solve` builds from those options. */
  function HelloWorldConfig(): Config<string>
  {
    Config(100.0, PopulationFactory, FitnessEvaluator, false, TerminationCondition, 0.05,
      ROULETTE_WHEEL_SELECTION, EvolutionOptions(Some(Crossover), None, Some(Mutate), Some(0.02)))
  }

  /** The example passes `solve`'s checks with the default strategy, the
      roulette wheel, and the inverted score convention. */
  lemma HelloWorldValidates()
    ensures Validate(NewGenetical(HelloWorldOptions())) == Ok(HelloWorldConfig())
  {
    var e := NewGenetical(HelloWorldOptions());
    assert e.selectionStrategy == ROULETTE_WHEEL_SELECTION && !e.natural && e.elitism == 0.05;
  }

  /** The string crossover always hands back two children. */
  lemma CrossoverHasTwoChildren()
    ensures TwoChildren(Crossover)
  {
    forall a: string, b: string, points: real, h: Rng
      ensures |Crossover(a, b, points, h).0| == 2
    {
    }
  }

  /** The example keeps `ceil(100 * 0.05) = 5` elites and asks the
      selection for the other 95. */
  lemma HelloWorldSizes()
    ensures EliteCount(HelloWorldConfig()) == 5 && Slots(SelectionSize(HelloWorldConfig())) == 95
  {
    var c := HelloWorldConfig();
    assert c.populationSize * c.elitism == 5.0;
    assert SelectionSize(c) == 95.0;
    SlotsOfWhole(5);
    SlotsOfWhole(95);
  }

  /** Every generation of the example again holds 100 strings. */
  lemma HelloWorldKeepsSize(g: Rng, pop: seq<Candidate<string>>)
    requires Evolve(HelloWorldConfig(), pop, g).Ok?
    ensures |Evolve(HelloWorldConfig(), pop, g).value.0| == 100
  {
    HelloWorldSizes();
    CrossoverHasTwoChildren();
    RouletteNextSize(HelloWorldConfig(), pop, g);
  }
}

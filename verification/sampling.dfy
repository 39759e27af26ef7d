/** Stochastic universal sampling and rank selection (lib/genetical.js,
    `stochasticUniversalSampling` and `rankSelection`).

    Sampling lays the candidates after the first along a line, each taking a
    length equal to its expected number of copies, and walks evenly spaced
    pointers `offset, offset + 1, offset + 2, ...` along it: a candidate is
    copied once for every pointer that falls inside its stretch. */
module Sampling {
  import opened Outcomes
  import opened Numbers
  import opened Draws
  import opened Extended
  import opened Candidates
  import opened Weights

  /** The candidates after the first: the only ones sampling looks at. */
  function Rest<P>(pop: seq<Candidate<P>>): (rest: seq<Candidate<P>>)
    ensures |rest| == if |pop| == 0 then 0 else |pop| - 1
    ensures forall i :: 0 <= i < |rest| ==> rest[i] == pop[i + 1]
  {
    if |pop| == 0 then [] else pop[1..]
  }

  /** `aggregateFitness`: the weights added left to right, starting at 0. */
  function Aggregate(ws: seq<Ext>): (agg: Ext)
  {
    if |ws| == 0 then Fin(0.0) else Add(Aggregate(ws[..|ws| - 1]), ws[|ws| - 1])
  }

  /** A NaN weight makes the aggregate NaN, as IEEE addition never leaves
      NaN behind. */
  lemma {:induction false} AggregateNaN(ws: seq<Ext>, i: nat)
    requires i < |ws| && ws[i].NaN?
    ensures Aggregate(ws).NaN?
    decreases |ws|
  {
    if i < |ws| - 1 {
      AggregateNaN(ws[..|ws| - 1], i);
    }
  }

  /** Each candidate's expected number of copies,
      `weight / aggregateFitness * selectionSize`. */
  function Expectations(ws: seq<Ext>, agg: Ext, size: real): (es: seq<Ext>)
    ensures |es| == |ws|
    ensures forall i :: 0 <= i < |ws| ==> es[i] == Mul(Div(ws[i], agg), Fin(size))
  {
    seq(|ws|, i requires 0 <= i < |ws| => Mul(Div(ws[i], agg), Fin(size)))
  }

  /** The successive values of `cumulativeExpectation` after adding each
      expectation to `acc`. */
  function Running(acc: Ext, es: seq<Ext>): (rs: seq<Ext>)
    ensures |rs| == |es|
    decreases |es|
  {
    if |es| == 0 then [] else [Add(acc, es[0])] + Running(Add(acc, es[0]), es[1..])
  }

  /** `while (cumulativeExpectation > startOffset + index) index++`: the
      counter after the inner loop.  With `c` = +Infinity the loop never
      ends, so that case is excluded here and reported by `Walk`. */
  function Reach(c: Ext, offset: real, index: nat): (r: nat)
    requires !c.PosInf?
    ensures index <= r
    decreases if c.Fin? then Slots(c.v - offset) - index else 0
  {
    if Less(Fin(offset + index as real), c) then
      SlotsBelow(c.v - offset, index);
      Reach(c, offset, index + 1)
    else index
  }

  /** The inner loop stops at the first pointer at or beyond the running
      expectation, or at once when that expectation is NaN or -Infinity. */
  lemma {:induction false} ReachCounts(c: Ext, offset: real, index: nat)
    requires !c.PosInf?
    ensures c.Fin? ==> Reach(c, offset, index) == Max(index, Slots(c.v - offset))
    ensures !c.Fin? ==> Reach(c, offset, index) == index
    decreases if c.Fin? then Slots(c.v - offset) - index else 0
  {
    if Less(Fin(offset + index as real), c) {
      SlotsBelow(c.v - offset, index);
      ReachCounts(c, offset, index + 1);
    } else if c.Fin? {
      SlotsBelow(c.v - offset, index);
    }
  }

  /** The outer loop over the remaining expectations `es`, the first of which
      belongs to population index `first`: the population indices pushed, in
      order.  Reaching +Infinity is the inner loop that never ends. */
  function Walk(es: seq<Ext>, offset: real, acc: Ext, index: nat, first: nat): (r: Result<seq<nat>>)
    ensures r.Err? <==> PosInf in Running(acc, es)
    ensures r.Err? ==> r.error == SelectionDiverges
    ensures r.Ok? ==> forall k :: 0 <= k < |r.value| ==> first <= r.value[k] < first + |es|
    ensures r.Ok? ==> forall j, k :: 0 <= j < k < |r.value| ==> r.value[j] <= r.value[k]
    decreases |es|
  {
    if |es| == 0 then Ok([])
    else
      var acc' := Add(acc, es[0]);
      if acc'.PosInf? then Err(SelectionDiverges)
      else
        var index' := Reach(acc', offset, index);
        match Walk(es[1..], offset, acc', index', first + 1)
        case Err(e) => Err(e)
        case Ok(rest) => Ok(seq(index' - index, _ => first) + rest)
  }

  /** The population indices SUS copies, for start offset `offset`. */
  function SusIndices<P>(natural: bool, pop: seq<Candidate<P>>, size: real, offset: Unit): (r: Result<seq<nat>>)
    ensures r.Ok? ==> forall k :: 0 <= k < |r.value| ==> 1 <= r.value[k] < |pop|
    ensures r.Ok? ==> forall j, k :: 0 <= j < k < |r.value| ==> r.value[j] <= r.value[k]
    ensures r.Err? ==> r.error == SelectionDiverges
  {
    var ws := AdjustedWeights(natural, Rest(pop));
    Walk(Expectations(ws, Aggregate(ws), size), offset, Fin(0.0), 0, 1)
  }

  /** `stochasticUniversalSampling(population, selectionSize)`: one draw for
      the start offset, then the copies `SusIndices` names, in population
      order.  `population[0]` is never copied. */
  function StochasticUniversalSampling<P>(natural: bool, pop: seq<Candidate<P>>, size: real, g: Rng)
    : (r: Result<(seq<Candidate<P>>, Rng)>)
    ensures r.Ok? <==> SusIndices(natural, pop, size, Ahead(g, 0)).Ok?
    ensures r.Err? ==> r.error == SelectionDiverges
    ensures r.Ok? ==> Advanced(g, r.value.1, 1)
    ensures r.Ok? ==> var idx := SusIndices(natural, pop, size, Ahead(g, 0)).value;
      |r.value.0| == |idx| && forall k :: 0 <= k < |idx| ==> r.value.0[k] == pop[idx[k]]
    ensures r.Ok? ==> forall k :: 0 <= k < |r.value.0| ==> r.value.0[k] in pop[1..]
  {
    var (offset, g') := Next(g);
    match SusIndices(natural, pop, size, offset)
    case Err(e) => Err(e)
    case Ok(idx) => Ok((Copies(pop, idx), g'))
  }

  /** The candidates at the given indices, in order. */
  function Copies<P>(pop: seq<Candidate<P>>, idx: seq<nat>): (picked: seq<Candidate<P>>)
    requires forall k :: 0 <= k < |idx| ==> 1 <= idx[k] < |pop|
    ensures |picked| == |idx| && forall k :: 0 <= k < |idx| ==> picked[k] == pop[idx[k]]
    ensures forall k :: 0 <= k < |picked| ==> picked[k] in Rest(pop)
  {
    var picked := seq(|idx|, k requires 0 <= k < |idx| => pop[idx[k]]);
    assert forall k :: 0 <= k < |idx| ==> picked[k] == Rest(pop)[idx[k] - 1];
    picked
  }

  /** SUS fails exactly when some running expectation is +Infinity, the case
      where the source's inner loop never exits. */
  lemma SusDivergesExactly<P>(natural: bool, pop: seq<Candidate<P>>, size: real, g: Rng)
    ensures var ws := AdjustedWeights(natural, Rest(pop));
      (StochasticUniversalSampling(natural, pop, size, g).Err?
       <==> PosInf in Running(Fin(0.0), Expectations(ws, Aggregate(ws), size)))
  {
  }

  // ---------------------------------------------------------------------
  // Finite weights of one sign: exactly `size` copies.

  lemma {:induction false} AggregateOfFinite(ws: seq<Ext>)
    requires AllFinite(ws)
    ensures Aggregate(ws) == Fin(Sum(Values(ws)))
    decreases |ws|
  {
    if |ws| > 0 {
      var init := ws[..|ws| - 1];
      AggregateOfFinite(init);
      assert Values(ws) == Values(init) + [ws[|ws| - 1].v];
      SumSnoc(Values(init), ws[|ws| - 1].v);
    }
  }

  /** One real expectation, `x / s * z`. */
  function Share(x: real, s: real, z: real): real
    requires s != 0.0
  {
    (x / s) * z
  }

  /** The real expectations of all weights. */
  function Shares(xs: seq<real>, s: real, z: real): (ys: seq<real>)
    requires s != 0.0
    ensures |ys| == |xs|
  {
    seq(|xs|, i requires 0 <= i < |xs| => Share(xs[i], s, z))
  }

  lemma ShareStep(a: real, b: real, s: real, z: real)
    requires s != 0.0
    ensures Share(a, s, z) + Share(b, s, z) == Share(a + b, s, z)
  {
  }

  lemma WholeShare(s: real, z: real)
    requires s != 0.0
    ensures Share(s, s, z) == z
  {
  }

  lemma QuotientNonNegative(w: real, s: real)
    requires (0.0 <= w && 0.0 < s) || (w <= 0.0 && s < 0.0)
    ensures 0.0 <= w / s
  {
  }

  lemma ProductNonNegative(a: real, b: real)
    requires 0.0 <= a && 0.0 <= b
    ensures 0.0 <= a * b
  {
  }

  /** The shares add up to the scaled ratio of the totals. */
  lemma {:induction false} SumShares(xs: seq<real>, s: real, z: real)
    requires s != 0.0
    ensures Sum(Shares(xs, s, z)) == Share(Sum(xs), s, z)
    decreases |xs|
  {
    if |xs| == 0 {
      assert Share(0.0, s, z) == 0.0;
    } else {
      assert Shares(xs, s, z)[1..] == Shares(xs[1..], s, z);
      SumShares(xs[1..], s, z);
      ShareStep(xs[0], Sum(xs[1..]), s, z);
    }
  }

  /** With a finite, non-zero aggregate the expectations are finite and are
      the real shares of the weights. */
  lemma ExpectationsAreShares(ws: seq<Ext>, s: real, size: real)
    requires AllFinite(ws) && s != 0.0
    ensures AllFinite(Expectations(ws, Fin(s), size))
    ensures Values(Expectations(ws, Fin(s), size)) == Shares(Values(ws), s, size)
  {
    var es := Expectations(ws, Fin(s), size);
    forall i | 0 <= i < |ws|
      ensures es[i] == Fin(Shares(Values(ws), s, size)[i])
    {
      var x := ws[i].v;
      assert Div(ws[i], Fin(s)) == Fin(x / s);
      assert Mul(Fin(x / s), Fin(size)) == Fin(Share(x, s, size));
      assert Values(ws)[i] == x;
    }
  }

  /** Weights of one sign give expectations that are all at least 0. */
  lemma SharesNonNegative(xs: seq<real>, s: real, z: real)
    requires s != 0.0 && 0.0 <= z
    requires (0.0 < s && forall i :: 0 <= i < |xs| ==> 0.0 <= xs[i])
          || (s < 0.0 && forall i :: 0 <= i < |xs| ==> xs[i] <= 0.0)
    ensures forall i :: 0 <= i < |xs| ==> 0.0 <= Shares(xs, s, z)[i]
  {
    forall i | 0 <= i < |xs|
      ensures 0.0 <= Shares(xs, s, z)[i]
    {
      QuotientNonNegative(xs[i], s);
      ProductNonNegative(xs[i] / s, z);
      assert Shares(xs, s, z)[i] == Share(xs[i], s, z);
    }
  }

  /** Over non-negative finite expectations, with the counter caught up with
      the running expectation `a`, the walk copies one candidate per pointer
      below the final running expectation. */
  lemma {:induction false} WalkCount(es: seq<Ext>, offset: real, a: real, index: nat, first: nat)
    requires AllFinite(es) && forall i :: 0 <= i < |es| ==> 0.0 <= es[i].v
    requires index == Slots(a - offset)
    ensures Walk(es, offset, Fin(a), index, first).Ok?
    ensures |Walk(es, offset, Fin(a), index, first).value| == Slots(a + Sum(Values(es)) - offset) - index
    decreases |es|
  {
    if |es| > 0 {
      var a' := a + es[0].v;
      assert Add(Fin(a), es[0]) == Fin(a');
      var index' := Reach(Fin(a'), offset, index);
      ReachCounts(Fin(a'), offset, index);
      SlotsMonotone(a - offset, a' - offset);
      assert index' == Slots(a' - offset);
      NonNegativeTail(es);
      WalkCount(es[1..], offset, a', index', first + 1);
      var rest := Walk(es[1..], offset, Fin(a'), index', first + 1).value;
      WalkStep(es, offset, Fin(a), index, first);
      var n := Slots(a + Sum(Values(es)) - offset);
      assert a' + Sum(Values(es[1..])) - offset == a + Sum(Values(es)) - offset;
      assert |rest| == n - index';
      assert |seq(index' - index, _ => first) + rest| == (index' - index) + |rest|;
    }
  }

  /** The tail of non-negative finite expectations is again non-negative
      and finite, and the total is the head plus the tail's total. */
  lemma NonNegativeTail(es: seq<Ext>)
    requires |es| > 0 && AllFinite(es) && forall i :: 0 <= i < |es| ==> 0.0 <= es[i].v
    ensures AllFinite(es[1..]) && forall i :: 0 <= i < |es[1..]| ==> 0.0 <= es[1..][i].v
    ensures Sum(Values(es)) == es[0].v + Sum(Values(es[1..]))
  {
    assert Values(es) == [es[0].v] + Values(es[1..]);
  }

  /** `n - offset` for an offset in [0, 1) has exactly `n` naturals below it. */
  lemma SlotsBelowWhole(n: nat, offset: Unit)
    ensures Slots(n as real - offset) == n
  {
    SlotsBelow(n as real - offset, n);
    if n > 0 {
      SlotsBelow(n as real - offset, n - 1);
    }
  }

  /** Finite weights of one sign with a non-zero total. */
  predicate OneSigned(ws: seq<Ext>)
  {
    AllFinite(ws)
    && ((0.0 < Sum(Values(ws)) && forall i :: 0 <= i < |ws| ==> 0.0 <= ws[i].v)
        || (Sum(Values(ws)) < 0.0 && forall i :: 0 <= i < |ws| ==> ws[i].v <= 0.0))
  }

  /** One-signed weights walk to one copy per pointer below `size`. */
  lemma WalkOneSigned(ws: seq<Ext>, size: real, offset: Unit)
    requires OneSigned(ws) && 0.0 <= size
    ensures Walk(Expectations(ws, Aggregate(ws), size), offset, Fin(0.0), 0, 1).Ok?
    ensures |Walk(Expectations(ws, Aggregate(ws), size), offset, Fin(0.0), 0, 1).value| == Slots(size - offset)
  {
    OneSignedExpectations(ws, size);
    WalkFromZero(Expectations(ws, Aggregate(ws), size), size, offset);
  }

  /** Non-negative finite expectations adding up to `size`, walked from 0,
      give one copy per pointer below `size`. */
  lemma WalkFromZero(es: seq<Ext>, size: real, offset: Unit)
    requires AllFinite(es) && (forall i :: 0 <= i < |es| ==> 0.0 <= es[i].v) && Sum(Values(es)) == size
    ensures Walk(es, offset, Fin(0.0), 0, 1).Ok?
    ensures |Walk(es, offset, Fin(0.0), 0, 1).value| == Slots(size - offset)
  {
    assert Slots(0.0 - offset) == 0;
    WalkCount(es, offset, 0.0, 0, 1);
    assert 0.0 + Sum(Values(es)) - offset == size - offset;
  }

  /** One-signed weights have non-negative expectations summing to `size`. */
  lemma OneSignedExpectations(ws: seq<Ext>, size: real)
    requires OneSigned(ws) && 0.0 <= size
    ensures var es := Expectations(ws, Aggregate(ws), size);
      AllFinite(es) && (forall i :: 0 <= i < |es| ==> 0.0 <= es[i].v)
      && Sum(Values(es)) == size
  {
    var xs := Values(ws);
    var s := Sum(xs);
    AggregateOfFinite(ws);
    ExpectationsAreShares(ws, s, size);
    SharesNonNegative(xs, s, size);
    SumShares(xs, s, size);
    WholeShare(s, size);
  }

  /** Weights that are finite, share one sign and have a non-zero aggregate
      give exactly as many copies as pointers below `selectionSize`; for a
      whole `selectionSize` that is `selectionSize` itself. */
  lemma SusExactCount<P>(natural: bool, pop: seq<Candidate<P>>, size: real, g: Rng)
    requires 0.0 <= size
    requires OneSigned(AdjustedWeights(natural, Rest(pop)))
    ensures StochasticUniversalSampling(natural, pop, size, g).Ok?
    ensures |StochasticUniversalSampling(natural, pop, size, g).value.0| == Slots(size - Ahead(g, 0))
    ensures size == size.Floor as real ==> |StochasticUniversalSampling(natural, pop, size, g).value.0| == size.Floor
  {
    WalkOneSigned(AdjustedWeights(natural, Rest(pop)), size, Ahead(g, 0));
    if size == size.Floor as real {
      SlotsBelowWhole(size.Floor, Ahead(g, 0));
    }
  }

  // ---------------------------------------------------------------------
  // Non-finite weights.

  /** Natural scores that cancel out, with a positive first weight, make the
      aggregate 0 and the first expectation +Infinity: the source's inner
      loop never ends. */
  lemma SusDivergesOnZeroAggregate<P>(pop: seq<Candidate<P>>, size: real, g: Rng)
    requires |pop| >= 2 && 0.0 < pop[1].score && 0.0 < size
    requires Sum(Scores(pop[1..])) == 0.0
    ensures StochasticUniversalSampling(true, pop, size, g) == Err(SelectionDiverges)
  {
    var ws := AdjustedWeights(true, Rest(pop));
    NaturalWeights(pop);
    AggregateOfFinite(ws);
    FirstExpectationInfinite(ws, size);
  }

  /** Natural weights are the scores after the first candidate. */
  lemma NaturalWeights<P>(pop: seq<Candidate<P>>)
    requires |pop| >= 1
    ensures AllFinite(AdjustedWeights(true, Rest(pop)))
    ensures Values(AdjustedWeights(true, Rest(pop))) == Scores(pop[1..])
  {
  }

  /** A positive first weight over a zero aggregate expects +Infinity
      copies, so the running expectation is +Infinity at once. */
  lemma FirstExpectationInfinite(ws: seq<Ext>, size: real)
    requires |ws| > 0 && ws[0].Fin? && 0.0 < ws[0].v && 0.0 < size
    requires Aggregate(ws) == Fin(0.0)
    ensures PosInf in Running(Fin(0.0), Expectations(ws, Aggregate(ws), size))
  {
    var es := Expectations(ws, Aggregate(ws), size);
    assert es[0] == PosInf by {
      PositiveInfinities(size, ws[0].v);
    }
    assert Running(Fin(0.0), es)[0] == PosInf by {
      assert Running(Fin(0.0), es)[0] == Add(Fin(0.0), es[0]);
    }
  }

  /** Inverted weights are finite or +Infinity. */
  predicate FiniteOrUp(ws: seq<Ext>)
  {
    forall i :: 0 <= i < |ws| ==> ws[i].Fin? || ws[i].PosInf?
  }

  lemma {:induction false} AggregateInfinite(ws: seq<Ext>)
    requires FiniteOrUp(ws)
    ensures Aggregate(ws).Fin? || Aggregate(ws).PosInf?
    ensures (exists i :: 0 <= i < |ws| && ws[i].PosInf?) ==> Aggregate(ws).PosInf?
    decreases |ws|
  {
    if |ws| > 0 {
      var init := ws[..|ws| - 1];
      AggregateInfinite(init);
      if exists i :: 0 <= i < |ws| && ws[i].PosInf? {
        var i :| 0 <= i < |ws| && ws[i].PosInf?;
        if i < |ws| - 1 {
          assert init[i].PosInf?;
        }
      }
    }
  }

  /** Zero and NaN: the running expectations that hold no pointer. */
  predicate Quiet(e: Ext)
  {
    e == Fin(0.0) || e.NaN?
  }

  lemma QuietAdd(a: Ext, b: Ext)
    requires Quiet(a) && Quiet(b)
    ensures Quiet(Add(a, b))
  {
  }

  /** A quiet running expectation moves no pointer. */
  lemma QuietReach(c: Ext, offset: real, index: nat)
    requires Quiet(c) && 0.0 <= offset
    ensures Reach(c, offset, index) == index
  {
    ReachCounts(c, offset, index);
    if c.Fin? {
      assert Slots(c.v - offset) == 0;
    }
  }

  /** One round of the outer loop: the copies the first expectation earns,
      then the rest of the walk. */
  lemma WalkStep(es: seq<Ext>, offset: real, acc: Ext, index: nat, first: nat)
    requires |es| > 0 && !Add(acc, es[0]).PosInf?
    ensures var acc' := Add(acc, es[0]);
      var index' := Reach(acc', offset, index);
      var rest := Walk(es[1..], offset, acc', index', first + 1);
      Walk(es, offset, acc, index, first)
        == if rest.Err? then rest else Ok(seq(index' - index, _ => first) + rest.value)
  {
  }

  /** From a quiet running expectation, quiet expectations add no copies. */
  lemma {:induction false} WalkQuiet(es: seq<Ext>, offset: real, acc: Ext, index: nat, first: nat)
    requires 0.0 <= offset && Quiet(acc)
    requires forall i :: 0 <= i < |es| ==> Quiet(es[i])
    ensures Walk(es, offset, acc, index, first) == Ok([])
    decreases |es|
  {
    if |es| > 0 {
      var acc' := Add(acc, es[0]);
      assert Quiet(acc') by {
        QuietAdd(acc, es[0]);
      }
      assert Reach(acc', offset, index) == index by {
        QuietReach(acc', offset, index);
      }
      assert Walk(es[1..], offset, acc', index, first + 1) == Ok([]) by {
        WalkQuiet(es[1..], offset, acc', index, first + 1);
      }
      WalkStep(es, offset, acc, index, first);
      assert seq(0, _ => first) + [] == [];
    }
  }

  /** In inverted mode a perfect score of 0 after the first candidate makes
      the aggregate +Infinity, every other expectation 0 and its own NaN:
      SUS then selects nothing at all. */
  lemma SusEmptyOnPerfectScore<P>(pop: seq<Candidate<P>>, size: real, g: Rng, j: nat)
    requires 1 <= j < |pop| && pop[j].score == 0.0
    ensures StochasticUniversalSampling(false, pop, size, g).Ok?
    ensures StochasticUniversalSampling(false, pop, size, g).value.0 == []
  {
    var ws := AdjustedWeights(false, Rest(pop));
    assert ws[j - 1].PosInf?;
    AggregateInfinite(ws);
    var es := Expectations(ws, Aggregate(ws), size);
    forall i | 0 <= i < |es|
      ensures Quiet(es[i])
    {
      if ws[i].Fin? {
        assert Div(ws[i], PosInf) == Fin(0.0);
        assert Mul(Fin(0.0), Fin(size)) == Fin(0.0 * size);
      }
    }
    WalkQuiet(es, Ahead(g, 0), Fin(0.0), 0, 1);
  }

  // ---------------------------------------------------------------------
  // Rank selection.

  /** `rankSelection`'s re-scored copy of `population[1..]`: the candidate at
      position `j` of the copy gets score `j - population.length`.  The source
      writes these scores into the candidates themselves; here they are
      fresh records. */
  function RankedPopulation<P>(pop: seq<Candidate<P>>): (ranked: seq<Candidate<P>>)
    ensures Payloads(ranked) == Payloads(Rest(pop))
    ensures forall j, k :: 0 <= j < k < |ranked| ==> ranked[j].score < ranked[k].score
    ensures forall j :: 0 <= j < |ranked| ==> -(|pop| as real) <= ranked[j].score <= -2.0
  {
    seq(|Rest(pop)|, j requires 0 <= j < |Rest(pop)| => Candidate(pop[j + 1].payload, (j - |pop|) as real))
  }

  /** The ranks run `-n, -n + 1, ..., -2` for a population of `n`. */
  lemma RankScores<P>(pop: seq<Candidate<P>>)
    requires |pop| >= 2
    ensures RankedPopulation(pop)[0].score == -(|pop| as real)
    ensures RankedPopulation(pop)[|pop| - 2].score == -2.0
    ensures forall j :: 0 <= j < |pop| - 2 ==> RankedPopulation(pop)[j + 1].score == RankedPopulation(pop)[j].score + 1.0
  {
  }

  /** `rankSelection`: SUS over the ranked copy with
      `populationSize - eliteCount` copies. */
  function RankSelection<P>(natural: bool, pop: seq<Candidate<P>>, size: real, g: Rng)
    : (r: Result<(seq<Candidate<P>>, Rng)>)
    ensures r.Ok? ==> Advanced(g, r.value.1, 1)
    ensures r.Ok? ==> forall k :: 0 <= k < |r.value.0| ==> 2 < |pop| && r.value.0[k].payload in Payloads(pop)[2..]
  {
    var ranked := RankedPopulation(pop);
    var r := StochasticUniversalSampling(natural, ranked, size, g);
    if r.Ok? then
      assert forall k :: 0 <= k < |r.value.0| ==> 2 < |pop| && r.value.0[k].payload in Payloads(pop)[2..] by {
        forall k | 0 <= k < |r.value.0|
          ensures 2 < |pop| && r.value.0[k].payload in Payloads(pop)[2..]
        {
          var idx := SusIndices(natural, ranked, size, Ahead(g, 0)).value;
          var i := idx[k];
          assert r.value.0[k] == ranked[i];
          assert ranked[i].payload == Payloads(ranked)[i] == pop[i + 1].payload;
          assert Payloads(pop)[2..][i - 1] == pop[i + 1].payload;
        }
      }
      r
    else r
  }

  /** With three or more candidates every rank weight is finite and
      negative, so rank selection always returns exactly as many copies as
      pointers below `selectionSize`. */
  lemma RankExactCount<P>(natural: bool, pop: seq<Candidate<P>>, size: real, g: Rng)
    requires |pop| >= 3 && 0.0 <= size
    ensures RankSelection(natural, pop, size, g).Ok?
    ensures |RankSelection(natural, pop, size, g).value.0| == Slots(size - Ahead(g, 0))
  {
    var ranked := RankedPopulation(pop);
    var ws := AdjustedWeights(natural, Rest(ranked));
    forall i | 0 <= i < |ws|
      ensures ws[i].Fin? && ws[i].v < 0.0
    {
      assert Rest(ranked)[i].score < 0.0;
      if !natural {
        InvertedWeightKeepsSign(Rest(ranked)[i].score);
      }
    }
    SumNegative(Values(ws));
    SusExactCount(natural, ranked, size, g);
  }
}

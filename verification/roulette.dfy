/** Roulette-wheel selection (lib/genetical.js, `rouletteWheelSelection`
    with its inner `binaryIndexOf`): running totals of the weights, one draw
    per pick scaled to the grand total, and a binary search for the slice
    the draw lands in. */
module Roulette {
  import opened Outcomes
  import opened Numbers
  import opened Draws
  import opened Extended
  import opened Candidates
  import opened Weights

  /** The running totals of lines 150-156: the first weight, then each total
      plus the next weight. */
  function Cumulative(ws: seq<Ext>): (c: seq<Ext>)
    ensures |c| == |ws|
    ensures |ws| > 0 ==> c[0] == ws[0]
    decreases |ws|
  {
    if |ws| <= 1 then ws
    else
      var p := Cumulative(ws[..|ws| - 1]);
      p + [Add(p[|p| - 1], ws[|ws| - 1])]
  }

  /** With finite weights the running totals are the prefix sums. */
  lemma {:induction false} CumulativeIsPrefixSums(ws: seq<Ext>)
    requires AllFinite(ws)
    ensures AllFinite(Cumulative(ws))
    ensures forall i :: 0 <= i < |ws| ==> Cumulative(ws)[i] == Fin(Sum(Values(ws)[..i + 1]))
  {
    var c := Cumulative(ws);
    if |ws| == 1 {
      assert Values(ws)[..1] == [ws[0].v];
    } else if |ws| > 1 {
      var n := |ws|;
      var init := ws[..n - 1];
      CumulativeIsPrefixSums(init);
      var p := Cumulative(init);
      assert Values(init) == Values(ws)[..n - 1];
      forall i | 0 <= i < n - 1
        ensures c[i] == Fin(Sum(Values(ws)[..i + 1]))
      {
        assert Values(init)[..i + 1] == Values(ws)[..i + 1];
      }
      assert Values(init)[..n - 1] == Values(ws)[..n - 1];
      assert p[n - 2] == Fin(Sum(Values(ws)[..n - 1]));
      assert c[n - 1] == Fin(Sum(Values(ws)[..n - 1]) + ws[n - 1].v);
      SumSnoc(Values(ws)[..n - 1], ws[n - 1].v);
      assert Values(ws)[..n - 1] + [ws[n - 1].v] == Values(ws)[..n];
    }
  }

  /** Non-negative finite weights give non-decreasing totals. */
  predicate FiniteAscending(a: seq<Ext>)
  {
    AllFinite(a) && forall i, j :: 0 <= i <= j < |a| ==> a[i].v <= a[j].v
  }

  lemma CumulativeAscending(ws: seq<Ext>)
    requires AllFinite(ws)
    requires forall i :: 0 <= i < |ws| ==> 0.0 <= ws[i].v
    ensures FiniteAscending(Cumulative(ws))
    ensures |ws| > 0 ==> 0.0 <= Cumulative(ws)[|ws| - 1].v
  {
    assert AllFinite(Cumulative(ws)) by {
      CumulativeIsPrefixSums(ws);
    }
    forall i, j | 0 <= i <= j < |ws|
      ensures 0.0 <= Cumulative(ws)[i].v <= Cumulative(ws)[j].v
    {
      CumulativePair(ws, i, j);
    }
  }

  /** Two running totals over non-negative finite weights: both at least 0,
      the later one at least the earlier one. */
  lemma CumulativePair(ws: seq<Ext>, i: nat, j: nat)
    requires AllFinite(ws)
    requires forall k :: 0 <= k < |ws| ==> 0.0 <= ws[k].v
    requires i <= j < |ws|
    ensures Cumulative(ws)[i].Fin? && Cumulative(ws)[j].Fin?
    ensures 0.0 <= Cumulative(ws)[i].v <= Cumulative(ws)[j].v
  {
    var xs := Values(ws);
    CumulativeAt(ws, i);
    CumulativeAt(ws, j);
    PrefixSumsGrowFrom(xs, i + 1, j + 1);
  }

  /** One running total is the prefix sum up to it. */
  lemma CumulativeAt(ws: seq<Ext>, i: nat)
    requires AllFinite(ws) && i < |ws|
    ensures Cumulative(ws)[i] == Fin(Sum(Values(ws)[..i + 1]))
  {
    CumulativeIsPrefixSums(ws);
  }

  /** Over non-negative terms the prefix sums start at 0 and grow. */
  lemma PrefixSumsGrowFrom(xs: seq<real>, i: nat, j: nat)
    requires forall k :: 0 <= k < |xs| ==> 0.0 <= xs[k]
    requires i <= j <= |xs|
    ensures 0.0 <= Sum(xs[..i]) <= Sum(xs[..j])
  {
    PrefixSumsGrow(xs, 0, i);
    PrefixSumsGrow(xs, i, j);
    assert xs[..0] == [];
  }

  /** `n` halved and rounded down, counted off two at a time. */
  function Half(n: nat): (r: nat)
    ensures 2 * r <= n <= 2 * r + 1
  {
    if n < 2 then 0 else Half(n - 2) + 1
  }

  /** `(l + h) >>> 1`: the probe in the middle of a non-empty window (the
      unsigned shift is halving for the non-negative sums that occur). */
  function Mid(l: int, h: int): (m: int)
    requires 0 <= l <= h
    ensures l <= m <= h
  {
    l + Half(h - l)
  }

  /** The probe is the sum of the bounds halved and rounded down. */
  lemma MidIsHalfSum(l: int, h: int)
    requires 0 <= l <= h
    ensures Mid(l, h) == (l + h) / 2
  {
  }

  /** What `comparator(array[i], key)` of lines 163-165 answers for each
      entry, in order. */
  function Signs(a: seq<Ext>, key: Ext): (cs: seq<int>)
    ensures |cs| == |a|
  {
    if |a| == 0 then [] else [Compare(a[0], key)] + Signs(a[1..], key)
  }

  /** Entry `i` of the answers is the comparison of entry `i` with the key. */
  lemma {:induction false} SignsAt(a: seq<Ext>, key: Ext, i: int)
    requires 0 <= i < |a|
    ensures Signs(a, key)[i] == Compare(a[i], key)
  {
    if i > 0 {
      SignsAt(a[1..], key, i - 1);
    }
  }

  /** The search of lines 167-177 over the window [l, h], given what each
      comparison answers: probe the middle, move past it or before it, stop
      on an equal entry, and report an empty window as `~l`, that is
      `-l - 1`. */
  function Search(cs: seq<int>, l: int, h: int): (r: int)
    requires 0 <= l <= h + 1 <= |cs|
    ensures r >= 0 ==> l <= r <= h && cs[r] == 0
    ensures r < 0 ==> l <= -r - 1 <= h + 1
    decreases h - l
  {
    if l > h then -l - 1
    else
      var m := Mid(l, h);
      if cs[m] < 0 then Search(cs, m + 1, h)
      else if cs[m] > 0 then Search(cs, l, m - 1)
      else m
  }

  /** The search of lines 167-177 on the entries themselves, over the
      window [l, h]. */
  function IndexOf(a: seq<Ext>, key: Ext, l: int, h: int): (r: int)
    requires 0 <= l <= h + 1 <= |a|
    ensures r >= 0 ==> l <= r <= h && Compare(a[r], key) == 0
    ensures r < 0 ==> l <= -r - 1 <= h + 1
    decreases h - l
  {
    if l > h then -l - 1
    else
      var m := Mid(l, h);
      var c := Compare(a[m], key);
      if c < 0 then IndexOf(a, key, m + 1, h)
      else if c > 0 then IndexOf(a, key, l, m - 1)
      else m
  }

  /** Searching the entries is searching what the comparator answers for
      them. */
  lemma {:induction false} IndexOfIsSearch(a: seq<Ext>, key: Ext, l: int, h: int)
    requires 0 <= l <= h + 1 <= |a|
    ensures IndexOf(a, key, l, h) == Search(Signs(a, key), l, h)
    decreases h - l
  {
    if l <= h {
      var m := Mid(l, h);
      SignsAt(a, key, m);
      if Compare(a[m], key) < 0 {
        IndexOfIsSearch(a, key, m + 1, h);
      } else if Compare(a[m], key) > 0 {
        IndexOfIsSearch(a, key, l, m - 1);
      }
    }
  }

  /** Whatever the comparisons answer, a miss reported as `~p` with `p`
      inside the window is just past an entry below the key. */
  lemma {:induction false} MissAfterBelow(cs: seq<int>, l: int, h: int, p: int)
    requires 0 <= l <= h + 1 <= |cs|
    requires Search(cs, l, h) == -p - 1 && l < p <= h + 1
    ensures cs[p - 1] < 0
    decreases h - l
  {
    var m := Mid(l, h);
    if cs[m] < 0 {
      if m + 1 < p {
        MissAfterBelow(cs, m + 1, h, p);
      }
    } else if cs[m] > 0 {
      MissAfterBelow(cs, l, m - 1, p);
    }
  }

  /** Whatever the comparisons answer, a miss reported as `~p` with `p`
      inside the window is at an entry above the key. */
  lemma {:induction false} MissAtAbove(cs: seq<int>, l: int, h: int, p: int)
    requires 0 <= l <= h + 1 <= |cs|
    requires Search(cs, l, h) == -p - 1 && l <= p <= h
    ensures cs[p] > 0
    decreases h - l
  {
    var m := Mid(l, h);
    if cs[m] < 0 {
      MissAtAbove(cs, m + 1, h, p);
    } else if cs[m] > 0 {
      if p < m {
        MissAtAbove(cs, l, m - 1, p);
      }
    }
  }

  /** `p` is where a finite key belongs among finite entries: every entry
      before it is below the key and every entry from it on is above. */
  predicate InsertionPoint(a: seq<Ext>, key: Ext, p: int)
  {
    AllFinite(a) && key.Fin? && 0 <= p <= |a|
    && (forall i :: 0 <= i < p ==> a[i].v < key.v)
    && (forall i :: p <= i < |a| ==> key.v < a[i].v)
  }

  /** On ascending finite entries a hit holds the key and a miss reports
      the insertion point. */
  lemma IndexOfSorted(a: seq<Ext>, key: Ext)
    requires FiniteAscending(a) && key.Fin?
    ensures var r := IndexOf(a, key, 0, |a| - 1);
      (r >= 0 ==> a[r].v == key.v) && (r < 0 ==> InsertionPoint(a, key, -r - 1))
  {
    var r := IndexOf(a, key, 0, |a| - 1);
    if r < 0 {
      var cs := Signs(a, key);
      IndexOfIsSearch(a, key, 0, |a| - 1);
      var p := -r - 1;
      if p > 0 {
        MissAfterBelow(cs, 0, |a| - 1, p);
        SignsAt(a, key, p - 1);
        BelowUpTo(a, key, p - 1);
      }
      if p < |a| {
        MissAtAbove(cs, 0, |a| - 1, p);
        SignsAt(a, key, p);
        AboveFrom(a, key, p);
      }
    }
  }

  /** An entry below the key has only entries below the key before it. */
  lemma BelowUpTo(a: seq<Ext>, key: Ext, m: int)
    requires FiniteAscending(a) && key.Fin? && 0 <= m < |a|
    requires Compare(a[m], key) < 0
    ensures forall i :: 0 <= i <= m ==> a[i].v < key.v
  {
  }

  /** An entry above the key has only entries above the key after it. */
  lemma AboveFrom(a: seq<Ext>, key: Ext, m: int)
    requires FiniteAscending(a) && key.Fin? && 0 <= m < |a|
    requires Compare(a[m], key) > 0
    ensures forall i :: m <= i < |a| ==> key.v < a[i].v
  {
  }

  /** `binaryIndexOf(array, key)` as the loop the source writes. */
  method BinaryIndexOf(a: seq<Ext>, key: Ext) returns (r: int)
    ensures r == IndexOf(a, key, 0, |a| - 1)
    ensures FiniteAscending(a) && key.Fin? && r < 0 ==> InsertionPoint(a, key, -r - 1)
  {
    var l, h := 0, |a| - 1;
    while l <= h
      invariant 0 <= l <= h + 1 <= |a|
      invariant IndexOf(a, key, l, h) == IndexOf(a, key, 0, |a| - 1)
      decreases h - l
    {
      var m := Mid(l, h);
      var c := Compare(a[m], key);
      if c < 0 {
        l := m + 1;
      } else if c > 0 {
        h := m - 1;
      } else {
        r := m;
        break;
      }
    }
    if l > h {
      r := -l - 1;
    }
    if FiniteAscending(a) && key.Fin? {
      IndexOfSorted(a, key);
    }
  }

  /** Lines 186-189: a miss `~l` is turned back into `l`. */
  function Landing(a: seq<Ext>, key: Ext): (i: nat)
    ensures i <= |a|
  {
    var r := IndexOf(a, key, 0, |a| - 1);
    if r < 0 then -(r + 1) else r
  }

  /** `random() * cumulativeFitnesses[last]`: where one spin points. */
  function Spin(c: seq<Ext>, u: Unit): Ext
    requires |c| > 0
  {
    Mul(Fin(u), c[|c| - 1])
  }

  /** The index one spin lands on. */
  function Pick(c: seq<Ext>, u: Unit): (i: nat)
    requires |c| > 0
    ensures i <= |c|
  {
    Landing(c, Spin(c, u))
  }

  /** Entry `i` of the running totals is the slice holding `key`: the
      total before it is at most the key and its own total at least the key. */
  predicate InSlice(c: seq<Ext>, i: nat, key: real)
    requires FiniteAscending(c)
  {
    i < |c| && (i == 0 || c[i - 1].v <= key) && key <= c[i].v
  }

  /** On ascending non-negative running totals every spin lands inside the
      population, on the slice the scaled draw falls in. */
  lemma PickInSlice(c: seq<Ext>, u: Unit)
    requires |c| > 0 && FiniteAscending(c) && 0.0 <= c[|c| - 1].v
    ensures Spin(c, u) == Fin(u * c[|c| - 1].v)
    ensures InSlice(c, Pick(c, u), Spin(c, u).v)
  {
    var total := c[|c| - 1].v;
    var key := u * total;
    ScaledDrawBelow(u, total, key);
    assert Mul(Fin(u), c[|c| - 1]) == Fin(key);
    LandingInSlice(c, key);
  }

  /** A key no larger than the last entry lands inside the array, on the
      entry whose slice holds it. */
  lemma LandingInSlice(c: seq<Ext>, key: real)
    requires |c| > 0 && FiniteAscending(c) && key <= c[|c| - 1].v
    ensures InSlice(c, Landing(c, Fin(key)), key)
  {
    IndexOfSorted(c, Fin(key));
  }

  lemma ScaledDrawBelow(u: real, total: real, key: real)
    requires 0.0 <= u < 1.0 && 0.0 <= total && key == u * total
    ensures key <= total
  {
    MulNonNegative(1.0 - u, total);
    assert (1.0 - u) * total == total - u * total;
  }

  lemma MulNonNegative(a: real, b: real)
    requires 0.0 <= a && 0.0 <= b
    ensures 0.0 <= a * b
  {
  }

  /** `n` spins, one draw each, in order; a spin past the last slice reads
      a candidate that does not exist. */
  function Spins(c: seq<Ext>, n: nat, g: Rng): (r: Result<(seq<nat>, Rng)>)
    requires |c| > 0
    ensures r.Ok? ==> |r.value.0| == n && Advanced(g, r.value.1, n)
    ensures r.Ok? ==> forall k :: 0 <= k < n ==>
      r.value.0[k] == Pick(c, Ahead(g, k)) && r.value.0[k] < |c|
    ensures r.Err? <==> exists k :: 0 <= k < n && Pick(c, Ahead(g, k)) == |c|
    ensures r.Err? ==> r.error == UndefinedCandidate
  {
    if n == 0 then Ok(([], g))
    else
      var (u, g1) := Next(g);
      var i := Pick(c, u);
      if i == |c| then
        AheadAfterNext(g, 0);
        Err(UndefinedCandidate)
      else
        var rest := Spins(c, n - 1, g1);
        AheadShift(g);
        assert Pick(c, Ahead(g, 0)) != |c|;
        match rest
        case Err(e) =>
          var k :| 0 <= k < n - 1 && Pick(c, Ahead(g1, k)) == |c|;
          assert Pick(c, Ahead(g, k + 1)) == |c|;
          Err(e)
        case Ok((picks, g2)) =>
          var r := [i] + picks;
          assert r[0] == i && r[1..] == picks;
          Ok((r, g2))
  }

  /** `rouletteWheelSelection`: `size` spins (the loop runs while the counter
      is below `populationSize - eliteCount`), each returning the candidate
      its slice belongs to.  An empty population fails on reading
      `population[0].score`. */
  function RouletteWheelSelection<P>(natural: bool, pop: seq<Candidate<P>>, size: real, g: Rng)
    : (r: Result<(seq<Candidate<P>>, Rng)>)
    ensures |pop| == 0 ==> r == Err(UndefinedCandidate)
    ensures r.Ok? ==> |r.value.0| == Slots(size) && Advanced(g, r.value.1, Slots(size))
    ensures r.Ok? ==> forall k :: 0 <= k < |r.value.0| ==> r.value.0[k] in pop
  {
    if |pop| == 0 then Err(UndefinedCandidate)
    else
      var c := Cumulative(AdjustedWeights(natural, pop));
      match Spins(c, Slots(size), g)
      case Err(e) => Err(e)
      case Ok((idx, g')) => Ok((seq(|idx|, k requires 0 <= k < |idx| => pop[idx[k]]), g'))
  }

  /** With non-negative finite weights every spin succeeds and returns the
      candidate whose slice of the running totals holds the scaled draw. */
  lemma RouletteIsProportionate<P>(natural: bool, pop: seq<Candidate<P>>, size: real, g: Rng)
    requires |pop| > 0
    requires AllFinite(AdjustedWeights(natural, pop))
    requires forall i :: 0 <= i < |pop| ==> 0.0 <= AdjustedWeights(natural, pop)[i].v
    ensures FiniteAscending(Cumulative(AdjustedWeights(natural, pop)))
    ensures var r := RouletteWheelSelection(natural, pop, size, g);
      var c := Cumulative(AdjustedWeights(natural, pop));
      r.Ok? && forall k :: 0 <= k < Slots(size) ==>
        r.value.0[k] == pop[Pick(c, Ahead(g, k))] && Spin(c, Ahead(g, k)).Fin? && InSlice(c, Pick(c, Ahead(g, k)), Spin(c, Ahead(g, k)).v)
  {
    var ws := AdjustedWeights(natural, pop);
    var c := Cumulative(ws);
    CumulativeAscending(ws);
    var n := Slots(size);
    SpinsInSlices(c, n, g);
    var idx := Spins(c, n, g).value.0;
    var picked := RouletteWheelSelection(natural, pop, size, g).value.0;
    assert picked == seq(|idx|, k requires 0 <= k < |idx| => pop[idx[k]]);
    forall k | 0 <= k < n
      ensures picked[k] == pop[Pick(c, Ahead(g, k))]
    {
      assert idx[k] == Pick(c, Ahead(g, k));
    }
  }

  /** On ascending non-negative totals no spin fails, and each lands in the
      slice of its own draw. */
  lemma SpinsInSlices(c: seq<Ext>, n: nat, g: Rng)
    requires |c| > 0 && FiniteAscending(c) && 0.0 <= c[|c| - 1].v
    ensures Spins(c, n, g).Ok?
    ensures forall k :: 0 <= k < n ==> Spin(c, Ahead(g, k)).Fin? && InSlice(c, Pick(c, Ahead(g, k)), Spin(c, Ahead(g, k)).v)
  {
    forall k | 0 <= k < n
      ensures Spin(c, Ahead(g, k)).Fin? && InSlice(c, Pick(c, Ahead(g, k)), Spin(c, Ahead(g, k)).v)
    {
      PickInSlice(c, Ahead(g, k));
    }
    SpinsSucceed(c, n, g);
  }

  lemma SpinsSucceed(c: seq<Ext>, n: nat, g: Rng)
    requires |c| > 0
    requires forall k :: 0 <= k < n ==> Pick(c, Ahead(g, k)) < |c|
    ensures Spins(c, n, g).Ok?
  {
  }
}

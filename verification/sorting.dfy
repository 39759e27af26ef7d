/** `sortPopulation` (lib/genetical.js): a stable sort by ascending key, the
    key being `-score` under the natural convention (higher is better) and
    `score` under the inverted one (lower is better).  The library sort it
    calls is stable; it is written here as an insertion sort. */
module Sorting {
  import opened Candidates

  function Key<P>(natural: bool, c: Candidate<P>): real
  {
    if natural then -c.score else c.score
  }

  /** Best first: keys ascend along the population. */
  ghost predicate SortedBy<P>(natural: bool, pop: seq<Candidate<P>>)
  {
    forall i, j :: 0 <= i <= j < |pop| ==> Key(natural, pop[i]) <= Key(natural, pop[j])
  }

  /** Puts `c` in front of the first member whose key is not smaller. */
  function Insert<P>(natural: bool, c: Candidate<P>, sorted: seq<Candidate<P>>): (r: seq<Candidate<P>>)
    requires SortedBy(natural, sorted)
    ensures SortedBy(natural, r)
    ensures multiset(r) == multiset(sorted) + multiset{c}
  {
    if |sorted| == 0 || Key(natural, c) <= Key(natural, sorted[0]) then
      [c] + sorted
    else
      assert sorted == [sorted[0]] + sorted[1..];
      SortedTail(natural, sorted);
      var rest := Insert(natural, c, sorted[1..]);
      LowerBoundCarries(natural, rest, sorted[1..], c, Key(natural, sorted[0]));
      SortedCons(natural, sorted[0], rest);
      [sorted[0]] + rest
  }

  /** A member whose key is at most every key of a sorted population can go
      in front of it. */
  lemma SortedCons<P>(natural: bool, x: Candidate<P>, rest: seq<Candidate<P>>)
    requires SortedBy(natural, rest)
    requires forall i :: 0 <= i < |rest| ==> Key(natural, x) <= Key(natural, rest[i])
    ensures SortedBy(natural, [x] + rest)
  {
  }

  /** The tail of a sorted population is sorted, above its head. */
  lemma SortedTail<P>(natural: bool, sorted: seq<Candidate<P>>)
    requires SortedBy(natural, sorted) && |sorted| > 0
    ensures SortedBy(natural, sorted[1..])
    ensures forall i :: 0 <= i < |sorted[1..]| ==> Key(natural, sorted[0]) <= Key(natural, sorted[1..][i])
  {
  }

  /** A key bound shared by `c` and by every member of `sorted` holds of any
      rearrangement of the two together. */
  lemma LowerBoundCarries<P>(natural: bool, r: seq<Candidate<P>>, sorted: seq<Candidate<P>>, c: Candidate<P>, b: real)
    requires multiset(r) == multiset(sorted) + multiset{c}
    requires b <= Key(natural, c)
    requires forall i :: 0 <= i < |sorted| ==> b <= Key(natural, sorted[i])
    ensures forall i :: 0 <= i < |r| ==> b <= Key(natural, r[i])
  {
    forall i | 0 <= i < |r|
      ensures b <= Key(natural, r[i])
    {
      assert r[i] in multiset(r);
      if r[i] != c {
        assert r[i] in multiset(sorted);
        var j :| 0 <= j < |sorted| && sorted[j] == r[i];
      }
    }
  }

  function SortPopulation<P>(natural: bool, pop: seq<Candidate<P>>): (r: seq<Candidate<P>>)
    ensures SortedBy(natural, r)
    ensures multiset(r) == multiset(pop)
  {
    if |pop| == 0 then []
    else
      assert pop == [pop[0]] + pop[1..];
      Insert(natural, pop[0], SortPopulation(natural, pop[1..]))
  }

  /** The members whose key is `v`, in their order. */
  function WithKey<P>(natural: bool, pop: seq<Candidate<P>>, v: real): seq<Candidate<P>>
  {
    if |pop| == 0 then []
    else (if Key(natural, pop[0]) == v then [pop[0]] else []) + WithKey(natural, pop[1..], v)
  }

  /** `WithKey` of a population with one member in front. */
  lemma WithKeyCons<P>(natural: bool, x: Candidate<P>, pop: seq<Candidate<P>>, v: real)
    ensures WithKey(natural, [x] + pop, v)
         == (if Key(natural, x) == v then [x] else []) + WithKey(natural, pop, v)
  {
    assert ([x] + pop)[1..] == pop;
  }

  /** Passing over a member whose key is below `c`'s does not reorder the
      members with `c`'s key. */
  lemma PassOver<P>(natural: bool, c: Candidate<P>, s0: Candidate<P>, ins: seq<Candidate<P>>, rest: seq<Candidate<P>>, v: real)
    requires Key(natural, s0) < Key(natural, c)
    requires WithKey(natural, ins, v) == (if Key(natural, c) == v then [c] else []) + WithKey(natural, rest, v)
    ensures WithKey(natural, [s0] + ins, v)
         == (if Key(natural, c) == v then [c] else []) + WithKey(natural, [s0] + rest, v)
  {
    WithKeyCons(natural, s0, ins, v);
    WithKeyCons(natural, s0, rest, v);
    var w := WithKey(natural, rest, v);
    if Key(natural, c) == v {
      assert [] + ([c] + w) == [c] + ([] + w);
    }
  }

  lemma {:induction false} InsertKeepsTies<P>(natural: bool, c: Candidate<P>, sorted: seq<Candidate<P>>, v: real)
    requires SortedBy(natural, sorted)
    ensures WithKey(natural, Insert(natural, c, sorted), v)
         == (if Key(natural, c) == v then [c] else []) + WithKey(natural, sorted, v)
  {
    if |sorted| == 0 || Key(natural, c) <= Key(natural, sorted[0]) {
      WithKeyCons(natural, c, sorted, v);
    } else {
      var s0, rest := sorted[0], sorted[1..];
      assert sorted == [s0] + rest;
      SortedTail(natural, sorted);
      InsertKeepsTies(natural, c, rest, v);
      PassOver(natural, c, s0, Insert(natural, c, rest), rest, v);
    }
  }

  /** Stability: candidates with equal keys keep their relative order. */
  lemma {:induction false} SortIsStable<P>(natural: bool, pop: seq<Candidate<P>>, v: real)
    ensures WithKey(natural, SortPopulation(natural, pop), v) == WithKey(natural, pop, v)
  {
    if |pop| > 0 {
      SortIsStable(natural, pop[1..], v);
      InsertKeepsTies(natural, pop[0], SortPopulation(natural, pop[1..]), v);
    }
  }

  /** After the sort the first candidate carries the best score: the highest
      under the natural convention, the lowest under the inverted one. */
  lemma SortedBest<P>(natural: bool, pop: seq<Candidate<P>>)
    requires |pop| > 0
    ensures |SortPopulation(natural, pop)| == |pop|
    ensures natural ==> forall i :: 0 <= i < |pop| ==> pop[i].score <= SortPopulation(natural, pop)[0].score
    ensures !natural ==> forall i :: 0 <= i < |pop| ==> SortPopulation(natural, pop)[0].score <= pop[i].score
  {
    var r := SortPopulation(natural, pop);
    assert |r| == |multiset(r)| == |multiset(pop)| == |pop|;
    forall i | 0 <= i < |pop|
      ensures Key(natural, r[0]) <= Key(natural, pop[i])
    {
      assert pop[i] in multiset(pop);
      assert pop[i] in r;
      var j :| 0 <= j < |r| && r[j] == pop[i];
    }
  }
}

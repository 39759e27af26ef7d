/** `solve`'s generation loop (lib/genetical.js), stated for any state and
    any step: `while (!done(state)) state = step(state)`, where a step may
    fail.  The loop of the source is unbounded; here it carries `fuel`, the
    most steps it may take. */
module Runs {
  import opened Outcomes

  /** How the loop ended: the condition held, or the fuel ran out first. */
  datatype Run<S> = Finished(state: S) | OutOfFuel(state: S)

  /** `n` steps, whatever the condition says. */
  function Iterate<S>(step: S -> Result<S>, s: S, n: nat): Result<S>
    decreases n
  {
    if n == 0 then Ok(s)
    else
      match step(s)
      case Err(e) => Err(e)
      case Ok(s') => Iterate(step, s', n - 1)
  }

  /** Test the condition, stop if it holds, otherwise step and repeat. */
  function Loop<S>(done: S -> bool, step: S -> Result<S>, s: S, fuel: nat): (r: Result<Run<S>>)
    ensures r.Ok? && r.value.Finished? ==> done(r.value.state)
    ensures r.Ok? && r.value.OutOfFuel? ==> !done(r.value.state)
    decreases fuel
  {
    if done(s) then Ok(Finished(s))
    else if fuel == 0 then Ok(OutOfFuel(s))
    else
      match step(s)
      case Err(e) => Err(e)
      case Ok(s') => Loop(done, step, s', fuel - 1)
  }

  /** Every successful step moves the counter `gen` on by exactly one. */
  ghost predicate Counts<S(!new)>(step: S -> Result<S>, gen: S -> nat)
  {
    forall x: S :: step(x).Ok? ==> gen(step(x).value) == gen(x) + 1
  }

  lemma {:induction false} IterateCounts<S(!new)>(step: S -> Result<S>, gen: S -> nat, s: S, n: nat)
    requires Counts(step, gen)
    ensures Iterate(step, s, n).Ok? ==> gen(Iterate(step, s, n).value) == gen(s) + n
    decreases n
  {
    if n > 0 && step(s).Ok? {
      IterateCounts(step, gen, step(s).value, n - 1);
    }
  }

  /** The loop stops at the first state that satisfies the condition: the
      counter says how many steps were taken, and none of the states before
      satisfied it. */
  lemma {:induction false} LoopStopsAtFirst<S(!new)>(done: S -> bool, step: S -> Result<S>, gen: S -> nat, s: S, fuel: nat)
    requires Counts(step, gen)
    ensures var r := Loop(done, step, s, fuel);
      r.Ok? && r.value.Finished? ==>
        gen(s) <= gen(r.value.state) <= gen(s) + fuel
        && Iterate(step, s, gen(r.value.state) - gen(s)) == Ok(r.value.state)
        && forall m :: 0 <= m < gen(r.value.state) - gen(s) ==>
             Iterate(step, s, m).Ok? && !done(Iterate(step, s, m).value)
    decreases fuel
  {
    if !done(s) && fuel > 0 && step(s).Ok? {
      var s' := step(s).value;
      LoopStopsAtFirst(done, step, gen, s', fuel - 1);
      var r := Loop(done, step, s', fuel - 1);
      if r.Ok? && r.value.Finished? {
        var n := gen(r.value.state) - gen(s);
        forall m | 0 <= m < n
          ensures Iterate(step, s, m).Ok? && !done(Iterate(step, s, m).value)
        {
          if m > 0 {
            assert Iterate(step, s, m) == Iterate(step, s', m - 1);
          }
        }
      }
    }
  }

  /** Conversely, when the condition first holds after `n` steps and the
      fuel allows them, the loop finishes exactly there. */
  lemma {:induction false} LoopFindsFirst<S>(done: S -> bool, step: S -> Result<S>, s: S, fuel: nat, n: nat)
    requires n <= fuel && Iterate(step, s, n).Ok? && done(Iterate(step, s, n).value)
    requires forall m :: 0 <= m < n ==> Iterate(step, s, m).Ok? && !done(Iterate(step, s, m).value)
    ensures Loop(done, step, s, fuel) == Ok(Finished(Iterate(step, s, n).value))
    decreases n
  {
    if n > 0 {
      assert Iterate(step, s, 0) == Ok(s);
      var s' := step(s).value;
      forall m | 0 <= m < n - 1
        ensures Iterate(step, s', m).Ok? && !done(Iterate(step, s', m).value)
      {
        assert Iterate(step, s, m + 1) == Iterate(step, s', m);
      }
      LoopFindsFirst(done, step, s', fuel - 1, n - 1);
    }
  }

  /** Every successful step keeps `inv`. */
  ghost predicate Keeps<S(!new)>(step: S -> Result<S>, inv: S -> bool)
  {
    forall x: S :: inv(x) && step(x).Ok? ==> inv(step(x).value)
  }

  lemma {:induction false} LoopKeeps<S(!new)>(done: S -> bool, step: S -> Result<S>, inv: S -> bool, s: S, fuel: nat)
    requires inv(s) && Keeps(step, inv)
    ensures Loop(done, step, s, fuel).Ok? ==> inv(Loop(done, step, s, fuel).value.state)
    decreases fuel
  {
    if !done(s) && fuel > 0 && step(s).Ok? {
      LoopKeeps(done, step, inv, step(s).value, fuel - 1);
    }
  }
}

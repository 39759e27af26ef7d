/** The engine's random number generator as an explicit stream of draws.

    One seeded generator serves the whole run; every consumer takes its draws
    from the front of what is left.  The stream is a total function from
    positions to reals in [0, 1) and the cursor says how much of it has been
    used. */
module Draws {

  /** A uniform draw: a real in [0, 1). */
  type Unit = r: real | 0.0 <= r < 1.0

  datatype Rng = Rng(draw: nat -> Unit, pos: nat)

  /** `g'` is `g` after exactly `n` further draws from the same stream. */
  ghost predicate Advanced(g: Rng, g': Rng, n: nat)
  {
    g'.draw == g.draw && g'.pos == g.pos + n
  }

  /** `generator.random()`: the next draw, and the generator past it. */
  function Next(g: Rng): (r: (Unit, Rng))
    ensures Advanced(g, r.1, 1)
    ensures r.0 == g.draw(g.pos)
  {
    (g.draw(g.pos), Rng(g.draw, g.pos + 1))
  }

  /** The draw `k` places ahead of the cursor. */
  function Ahead(g: Rng, k: nat): Unit
  {
    g.draw(g.pos + k)
  }

  /** Taking one draw moves every later draw one place closer. */
  lemma AheadAfterNext(g: Rng, k: nat)
    ensures Next(g).0 == Ahead(g, 0)
    ensures Ahead(Next(g).1, k) == Ahead(g, k + 1)
  {
  }

  /** The same, for every later draw at once. */
  lemma AheadShift(g: Rng)
    ensures forall k: nat :: Ahead(Next(g).1, k) == Ahead(g, k + 1)
  {
    forall k: nat
      ensures Ahead(Next(g).1, k) == Ahead(g, k + 1)
    {
      AheadAfterNext(g, k);
    }
  }
}

/**
 * The random source. The Python code draws from the global generators of the
 * `random` and `numpy.random` modules; here the draws are an explicit stream that
 * the caller owns and threads through every stochastic operation, so that a fixed
 * stream makes a run reproducible.
 */
module Randomness {

  /** `source(k)` is the k-th raw draw; `pos` is how many draws have been used. */
  datatype Rng = Rng(source: nat -> real, pos: nat)

  /** The fractional part of `r`: it maps any raw draw into [0, 1). */
  function Frac(r: real): (f: real)
    ensures 0.0 <= f < 1.0
    ensures (r - f).Floor as real == r - f
  {
    r - r.Floor as real
  }

  /** The stream with one more draw used. */
  function Advance(g: Rng): (g': Rng)
    ensures g'.source == g.source && g'.pos == g.pos + 1
  {
    g.(pos := g.pos + 1)
  }

  /** `random.random()`: the next draw, a real in [0, 1). */
  function Random(g: Rng): (res: (real, Rng))
    ensures 0.0 <= res.0 < 1.0
    ensures res.1 == Advance(g)
  {
    (Frac(g.source(g.pos)), Advance(g))
  }

  lemma FloorBelow(u: real, n: int)
    requires 0.0 <= u < 1.0 && n >= 1
    ensures 0 <= (u * n as real).Floor < n
  {
    assert 0.0 <= u * n as real < n as real;
  }

  /**
   * `random.randint(lo, hi)`: an integer in [lo, hi], both ends included, obtained by
   * scaling the next draw. `numpy.random.randint(n)` and `numpy.random.choice` over
   * `n` items are `RandInt(g, 0, n - 1)`.
   */
  function RandInt(g: Rng, lo: int, hi: int): (res: (int, Rng))
    requires lo <= hi
    ensures lo <= res.0 <= hi
    ensures res.1 == Advance(g)
  {
    var u := Frac(g.source(g.pos));
    FloorBelow(u, hi - lo + 1);
    (lo + (u * (hi - lo + 1) as real).Floor, Advance(g))
  }
}

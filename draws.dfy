/** The random source, made explicit: an endless stream of uniform draws in
    [0, 1), read at a position that every stochastic operation advances. The
    same stream and starting position always give the same run. */
module Draws {

  /** One result of `random.random()`. */
  type Uniform = u: real | 0.0 <= u < 1.0

  /** A seeded generator: the draw it makes at each position. */
  type Rng = nat -> Uniform

  /** An index chosen uniformly below `n` from one draw: `floor(u * n)`. */
  function Choose(u: Uniform, n: nat): (k: nat)
    requires n > 0
    ensures k < n
    ensures k as real <= u * n as real < k as real + 1.0
  {
    ScaleBelow(u, n as real);
    (u * n as real).Floor
  }

  /** A draw scales a positive bound to a point below it. */
  lemma ScaleBelow(u: real, t: real)
    requires 0.0 <= u < 1.0 && 0.0 < t
    ensures 0.0 <= u * t < t
  {
    assert t - u * t == (1.0 - u) * t;
  }
}

/**
 * The seeded random source that PrimAlgorithm draws from.
 *
 * java.util.Random is a library generator whose internals are not modelled.
 * What the maze generator relies on is only that `nextInt(bound)` returns
 * one value in [0, bound) and advances the generator, and that a seed
 * together with the dimensions fixes the sequence of choices a run makes.
 * A `Random` is that sequence of choices, given as a stream of values
 * together with the number already taken: every sequence of choices is
 * such a stream, and `NextInt` reduces the next value into [0, bound).
 */
module RandomSource {

  datatype Random = Random(stream: nat -> nat, drawn: nat)

  /** `random.nextInt(bound)`: the next value, reduced into [0, bound), and the advanced source. */
  function NextInt(random: Random, bound: int): (r: (nat, Random))
    requires bound > 0
    ensures r.0 < bound
    ensures r.1.stream == random.stream && r.1.drawn == random.drawn + 1
  {
    (random.stream(random.drawn) % bound, random.(drawn := random.drawn + 1))
  }
}

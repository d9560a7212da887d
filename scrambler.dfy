/** The seed-based scramble applied to every data digit, and its inverse. */
module Scrambler {

  /** `(d + seed) % 128`, the value that is mapped to a symbol in `encode_with_seed`. */
  function Scramble(digit: nat, seed: nat): (x: nat)
    ensures x < 128
  {
    (digit + seed) % 128
  }

  /** `(scrambled + 128 - seed) % 128`, as `decode` computes it; the seed comes from the table, so it is below 128. */
  function Unscramble(scrambled: nat, seed: nat): (d: nat)
    requires seed < 128
    ensures d < 128
  {
    (scrambled + 128 - seed) % 128
  }

  /** Unscrambling undoes scrambling for every digit and seed in [0, 127]. */
  lemma UnscrambleScramble(digit: nat, seed: nat)
    requires digit < 128 && seed < 128
    ensures Unscramble(Scramble(digit, seed), seed) == digit
  {
  }

  /** Scrambling undoes unscrambling: both are bijections of [0, 127]. */
  lemma ScrambleUnscramble(scrambled: nat, seed: nat)
    requires scrambled < 128 && seed < 128
    ensures Scramble(Unscramble(scrambled, seed), seed) == scrambled
  {
  }

  /** The digit 0 is written as the seed's own symbol. */
  lemma ScrambleZero(seed: nat)
    requires seed < 128
    ensures Scramble(0, seed) == seed
  {
  }
}

/** 32-bit counters, which start over at 2^32. */
module Counters {

  const TWO_32 := 0x1_0000_0000

  /** A counter one up. */
  function Up(n: nat): nat {
    (n + 1) % TWO_32
  }

  /** Counting up follows the true count. */
  lemma UpCounts(n: nat)
    ensures Up(n % TWO_32) == (n + 1) % TWO_32
  {
  }

}

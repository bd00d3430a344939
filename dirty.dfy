/**
 * The dirty counter of `Update`: a positive counter sends the tick through
 * the dirty branch and is decremented there.
 */
module Dirty {
  /** The counter after one tick that does not set it: one less when positive. */
  function Tick(c: int): (r: int)
    ensures c > 0 ==> r == c - 1
    ensures c <= 0 ==> r == c
  {
    if c > 0 then c - 1 else c
  }

  function Min(a: int, b: int): int {
    if a <= b then a else b
  }

  /** How many of `n` ticks, none of which sets the counter, take the dirty branch from counter `c`. */
  function Relayouts(c: int, n: nat): nat {
    if n == 0 then 0 else (if c > 0 then 1 else 0) + Relayouts(Tick(c), n - 1)
  }

  /** From counter `c`, the dirty branch runs on the first `c` ticks and no others. */
  lemma {:induction false} RelayoutsCount(c: int, n: nat)
    ensures Relayouts(c, n) == if c <= 0 then 0 else Min(c, n)
    decreases n
  {
    if n > 0 {
      RelayoutsCount(Tick(c), n - 1);
    }
  }
}

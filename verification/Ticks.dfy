/**
  The 32-bit tick counter of FreeRTOS, measured against a clock that never wraps.
*/
module Ticks {
  const TICK_RANGE: nat := 0x1_0000_0000

  type Tick = t: nat | t < TICK_RANGE

  /** The counter's value at a time. */
  function At(clock: nat): Tick {
    clock % TICK_RANGE
  }

  /** Unsigned 32-bit subtraction. */
  function Minus(a: Tick, b: Tick): Tick {
    (a + TICK_RANGE - b) % TICK_RANGE
  }

  /** `pdMS_TO_TICKS`. */
  function MsToTicks(ms: nat, hz: nat): nat {
    ms * hz / 1000
  }

  lemma ModOf(x: int, q: int, r: nat)
    requires x == q * TICK_RANGE + r && r < TICK_RANGE
    ensures x % TICK_RANGE == r
  {
  }

  /** Wrapped subtraction gives the time from `since` to `clock` modulo the counter's range, whichever is later. */
  lemma MinusIsElapsed(clock: nat, since: nat)
    ensures Minus(At(clock), At(since)) == (clock - since) % 4_294_967_296
    ensures since <= clock < since + 4_294_967_296 ==> Minus(At(clock), At(since)) == clock - since
    ensures clock < since <= clock + 4_294_967_296 ==> Minus(At(clock), At(since)) == clock - since + 4_294_967_296
  {
    var a, b := At(clock), At(since);
    var q := clock / TICK_RANGE - since / TICK_RANGE;
    assert clock - since == q * TICK_RANGE + (a - b);
    if a >= b {
      ModOf(clock - since, q, a - b);
      ModOf(a + TICK_RANGE - b, 1, a - b);
    } else {
      ModOf(clock - since, q - 1, a - b + TICK_RANGE);
    }
  }

  /** Elapsed time modulo the range goes on counting while it stays below the range. */
  lemma ElapsedGoesOn(elapsed: nat, more: nat)
    requires elapsed % TICK_RANGE + more < TICK_RANGE
    ensures (elapsed + more) % TICK_RANGE == elapsed % TICK_RANGE + more
  {
    ModOf(elapsed + more, elapsed / TICK_RANGE, elapsed % TICK_RANGE + more);
  }
}

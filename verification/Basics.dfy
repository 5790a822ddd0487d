// Shared by all modules: optional values, and unsigned 64-bit arithmetic as a release build does it.
module Basics {
  const U64 := 0x1_0000_0000_0000_0000

  type u64 = n: nat | n < U64

  datatype Option<+T> = None | Some(value: T)

  /** Subtraction wraps around below zero. */
  function WrappingSub(a: nat, b: nat): nat {
    (a - b) % U64
  }

  /** Less than d after `since`, on a 64-bit clock that may have wrapped around in between. */
  predicate Recent(now: u64, since: u64, d: nat) {
    since <= now < since + d || (now < since && now + U64 < since + d)
  }

  lemma ElapsedIff(now: u64, since: u64, d: nat)
    ensures WrappingSub(now, since) < d <==> Recent(now, since, d)
  {
    if now < since {
      assert now - since == -1 * U64 + (now - since + U64);
    }
  }
}

/** What every part of the model uses. */
module Basics {

  datatype Option<+T> = None | Some(value: T)

  type pos = n: int | 1 <= n witness 1

  function Min(a: int, b: int): int { if a <= b then a else b }

  function Max(a: int, b: int): int { if a <= b then b else a }

  /** Subtraction that stops at zero. */
  function Sub(a: nat, b: nat): nat { if a <= b then 0 else a - b }

  // ---- The pool's limits on a share's time ----

  const NTIME_WINDOW_SECS := 7200
  /** The part of the retention that covers a clock set back. */
  const CLOCK_STEP_MARGIN_SECS := 600
  const ACCEPTED_HASH_RETENTION_SECS := 2 * NTIME_WINDOW_SECS + CLOCK_STEP_MARGIN_SECS
  const MAX_ACCEPTED_HASHES := 0x10_0000
}

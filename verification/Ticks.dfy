/**
 The kernel's 32-bit tick arithmetic (TickType_t with configUSE_16_BIT_TICKS == 0).
 */
module Ticks {
  /** The number of distinct tick counts; the counter wraps to zero here. */
  const WRAP: nat := 0x1_0000_0000

  /** portMAX_DELAY */
  const MAX_DELAY: nat := 0xFFFF_FFFF

  /** TickType_t: the tick count held in 32 bits. */
  type Tick = n: nat | n < WRAP

  /** What the 32-bit counter shows at an unbounded time. */
  function Low(time: nat): Tick {
    time % WRAP
  }

  /** TickType_t addition. */
  function Plus(a: Tick, b: Tick): Tick {
    (a + b) % WRAP
  }

  /** TickType_t subtraction. */
  function Minus(a: Tick, b: Tick): Tick {
    (a - b) % WRAP
  }
}

/** Clock readings and the casts the wallet applies to durations. */
module WallClock {
  /** A clock reading in nanoseconds. */
  type Time = int

  const NANOS := 1_000_000_000

  /** `as i64` on a u64. */
  function AsI64(n: nat): int {
    if n < 0x8000_0000_0000_0000 then n else n - 0x1_0000_0000_0000_0000
  }
}

/** Time as the crate sees it: `i64` seconds on one side, chrono's nanosecond
    instants and durations on the other, each with its explicit range. */
module Clock {
  import opened Wrappers

  /** An instant (nanoseconds since the Unix epoch) or a span of nanoseconds. */
  type Nanos = int

  const NANOS_PER_SEC := 1_000_000_000

  const I64_MIN := -0x8000_0000_0000_0000
  const I64_MAX := 0x7fff_ffff_ffff_ffff

  /** chrono's `DateTime<Utc>` runs from -262143-01-01 to +262142-12-31. */
  const MIN_INSTANT_SECS := -8_334_601_228_800
  const MAX_INSTANT_SECS := 8_210_266_876_799

  /** Largest whole number of seconds a chrono duration holds: i64::MAX milliseconds. */
  const MAX_DURATION_SECS := 9_223_372_036_854_775

  predicate IsI64(n: int) {
    I64_MIN <= n <= I64_MAX
  }

  function Saturate(n: int): int {
    if n < I64_MIN then I64_MIN else if n > I64_MAX then I64_MAX else n
  }

  function Min(a: int, b: int): int {
    if a <= b then a else b
  }

  function Max(a: int, b: int): int {
    if a <= b then b else a
  }

  predicate IsInstant(t: Nanos) {
    MIN_INSTANT_SECS * NANOS_PER_SEC <= t < (MAX_INSTANT_SECS + 1) * NANOS_PER_SEC
  }

  /** `Duration::try_seconds`. */
  function TrySeconds(secs: int): Option<Nanos> {
    if -MAX_DURATION_SECS <= secs <= MAX_DURATION_SECS then Some(secs * NANOS_PER_SEC) else None
  }

  /** `DateTime::from_timestamp(secs, 0)`. */
  function FromTimestamp(secs: int): Option<Nanos> {
    if MIN_INSTANT_SECS <= secs <= MAX_INSTANT_SECS then Some(secs * NANOS_PER_SEC) else None
  }

  /** `DateTime::checked_add_signed`. */
  function CheckedAdd(t: Nanos, span: Nanos): Option<Nanos> {
    if IsInstant(t + span) then Some(t + span) else None
  }

  /** `DateTime::timestamp`: whole seconds, rounded down. */
  function Timestamp(t: Nanos): int {
    t / NANOS_PER_SEC
  }

  /** What `Utc::now()` can return: never before the epoch (it panics there), and
      with the minute of headroom without which the skew additions panic. */
  predicate ClockReading(now: Nanos) {
    0 <= now && IsInstant(now + 60 * NANOS_PER_SEC)
  }
}

/** Units, settings and words shared by the Temporal types. */
module TemporalOptions {
  import opened Options
  import opened Rounding

  datatype Unit = Auto | Nanosecond | Microsecond | Millisecond | Second | Minute | Hour | Day | Week | Month | Year

  const INT64_MAX: int := 0x7FFF_FFFF_FFFF_FFFF

  datatype Settings = Settings(smallest: Option<Unit>, largest: Option<Unit>, increment: Option<nat>, mode: Option<Mode>)

  function IncrementOf(s: Settings): nat {
    if s.increment.Some? then s.increment.value else 1
  }

  function ModeOf(s: Settings): Mode {
    if s.mode.Some? then s.mode.value else Trunc
  }

  predicate Int64(x: int) {
    -INT64_MAX - 1 <= x <= INT64_MAX
  }

  /** A narrowing to `int64_t` that keeps the value; every one in the code must. */
  function ToInt64(x: int): int
    requires -INT64_MAX - 1 <= x <= INT64_MAX
  {
    x
  }
}

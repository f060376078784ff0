/** Durations in nanoseconds, as Go counts them. */
module Clock {

  const NANOS_PER_SECOND := 1000000000

  /** int64(d.Seconds()): truncation toward zero. */
  function WholeSeconds(nanos: int): int {
    if nanos >= 0 then nanos / NANOS_PER_SECOND else -((-nanos) / NANOS_PER_SECOND)
  }
}

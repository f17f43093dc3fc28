/**
 * Instants and durations as the lobby packages use them. An instant is
 * `Some(n)`, `n` nanoseconds after the Unix epoch, or `None` for the zero
 * `time.Time{}` (January 1 of year 1). `Time.Sub` saturates at the
 * bounds of a 64-bit `time.Duration`.
 */
module GoTime {
  import opened Wrappers
  import Decimal

  const Millisecond: int := 1_000_000
  const Second: int := 1_000_000_000

  /** The zero `time.Time`, in nanoseconds after the Unix epoch. */
  const ZeroInstant: int := -62_135_596_800 * Second

  function Nanos(t: Option<int>): int
  {
    if t.Some? then t.value else ZeroInstant
  }

  /** `t.Sub(u)`: the duration `t - u`, clamped to the `time.Duration` range. */
  function Sub(t: Option<int>, u: Option<int>): (d: int)
    ensures Decimal.Int64Min <= d <= Decimal.Int64Max
    ensures Decimal.Int64Min <= Nanos(t) - Nanos(u) <= Decimal.Int64Max ==> d == Nanos(t) - Nanos(u)
    ensures Nanos(t) - Nanos(u) < Decimal.Int64Min ==> d == Decimal.Int64Min
    ensures Nanos(t) - Nanos(u) > Decimal.Int64Max ==> d == Decimal.Int64Max
  {
    var exact := Nanos(t) - Nanos(u);
    if exact < Decimal.Int64Min then Decimal.Int64Min
    else if exact > Decimal.Int64Max then Decimal.Int64Max
    else exact
  }
}

/**
 * The date-fns day functions the date filter uses (`startOfDay`, `endOfDay`,
 * `isSameDay`, `isBefore`, `isAfter`), over time values in milliseconds with
 * days of a fixed 86 400 000 ms counted from the epoch.
 */
module DayTime {
  import opened JsValues

  const DayMs: int := 86_400_000

  /** First millisecond of the day holding `t` (`%` is Euclidean, so this floors for negative times too). */
  function DayStart(t: int): int
  {
    t - t % DayMs
  }

  /** Last millisecond of the day holding `t`. */
  function DayEnd(t: int): int
  {
    DayStart(t) + DayMs - 1
  }

  predicate SameDayMs(a: int, b: int)
  {
    DayStart(a) == DayStart(b)
  }

  lemma DayBounds(t: int)
    ensures DayStart(t) <= t <= DayEnd(t)
    ensures DayStart(t) % DayMs == 0
  {
  }

  /** Every instant inside the day of `f` has that day's start as its own day start. */
  lemma DayStartWithin(d: int, f: int)
    requires DayStart(f) <= d <= DayEnd(f)
    ensures DayStart(d) == DayStart(f)
  {
    var q := f / DayMs;
    assert DayStart(f) == q * DayMs;
    assert d - q * DayMs < DayMs && 0 <= d - q * DayMs;
    assert d / DayMs == q;
  }

  /** `isSameDay(d, f)` holds exactly for the instants between the start and the end of the day of `f`. */
  lemma SameDayIffWithin(d: int, f: int)
    ensures SameDayMs(d, f) <==> DayStart(f) <= d <= DayEnd(f)
  {
    DayBounds(d);
    if DayStart(f) <= d <= DayEnd(f) {
      DayStartWithin(d, f);
    }
  }

  /** `startOfDay`: an Invalid Date stays invalid. */
  function StartOfDay(i: Instant): (r: Instant)
    ensures i.At? <==> r.At?
    ensures i.At? ==> r.ms <= i.ms
  {
    match i
    case Invalid => Invalid
    case At(t) => At(DayStart(t))
  }

  /** `endOfDay`. */
  function EndOfDay(i: Instant): (r: Instant)
    ensures i.At? <==> r.At?
    ensures i.At? ==> i.ms <= r.ms
  {
    match i
    case Invalid => Invalid
    case At(t) => At(DayEnd(t))
  }

  /** `isSameDay`: false when either date is invalid. */
  predicate IsSameDay(a: Instant, b: Instant)
  {
    a.At? && b.At? && SameDayMs(a.ms, b.ms)
  }

  /** `isBefore(a, b)`: strictly earlier; false when either date is invalid. */
  predicate IsBefore(a: Instant, b: Instant)
  {
    a.At? && b.At? && a.ms < b.ms
  }

  /** `isAfter(a, b)`: strictly later; false when either date is invalid. */
  predicate IsAfter(a: Instant, b: Instant)
  {
    a.At? && b.At? && a.ms > b.ms
  }
}

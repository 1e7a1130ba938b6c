/** Dates as ticks of 100 nanoseconds, and their rounding to milliseconds before they
    are checksummed.
 */
module Dates {
  import opened Wrappers

  const TICKS_PER_MILLISECOND := 10000
  const MAX_TICKS := 3155378975999999999

  /** The range of `DateTime.Ticks`. */
  type Ticks = t: int | 0 <= t <= MAX_TICKS

  /** `createRoundOffDTVal`; `None` is the exception `DateTime.AddTicks` throws when
      the sum leaves the range of dates. */
  function RoundOff(ticks: Ticks): Option<Ticks> {
    var rest := ticks % TICKS_PER_MILLISECOND;
    var toAdd := if rest >= TICKS_PER_MILLISECOND / 2 then TICKS_PER_MILLISECOND - rest else -rest;
    if ticks + toAdd <= MAX_TICKS then Some(ticks + toAdd) else None
  }

  /** `m` is the whole millisecond nearest to `ticks`, the later one on a tie. */
  ghost predicate IsNearest(ticks: int, m: int) {
    m % TICKS_PER_MILLISECOND == 0 && 2 * (ticks - m) < TICKS_PER_MILLISECOND && 2 * (m - ticks) <= TICKS_PER_MILLISECOND
  }

  lemma NearestUnique(ticks: int, m: int, n: int)
    requires IsNearest(ticks, m) && IsNearest(ticks, n)
    ensures m == n
  {
    assert m == 10000 * (m / 10000) && n == 10000 * (n / 10000);
  }

  /** Every date has a nearest millisecond; rounding yields it, and fails exactly when it
      lies beyond the last date. */
  lemma RoundOffIsNearest(ticks: Ticks) returns (m: int)
    ensures forall n :: IsNearest(ticks, n) <==> n == m
    ensures RoundOff(ticks) == if m <= MAX_TICKS then Some(m) else None
  {
    var rest := ticks % 10000;
    m := ticks + if rest >= 5000 then 10000 - rest else -rest;
    assert IsNearest(ticks, m) by {
      assert ticks == 10000 * (ticks / 10000) + rest;
    }
    forall n | IsNearest(ticks, n) ensures n == m {
      NearestUnique(ticks, m, n);
    }
  }

  lemma RoundOffIdempotent(ticks: Ticks)
    requires RoundOff(ticks).Some?
    ensures RoundOff(RoundOff(ticks).value) == RoundOff(ticks)
  {
    var r := RoundOff(ticks).value;
    assert r % 10000 == 0 by {
      assert ticks == 10000 * (ticks / 10000) + ticks % 10000;
    }
  }

  /** The dates that cannot be rounded are the last half millisecond. */
  lemma RoundOffFails(ticks: Ticks)
    ensures RoundOff(ticks).None? <==> ticks >= 3155378975999995000
  {
    assert ticks == 10000 * (ticks / 10000) + ticks % 10000;
  }
}

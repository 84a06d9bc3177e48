/** The quarter-hour guard: containers are not recreated within a guard time of
    a quarter hour. Times are microseconds, waits are whole seconds. */
module RecreateWindow {
  const SECOND: int := 1_000_000
  const QUARTER: int := 900_000_000
  const MAX_GUARD_SECONDS: int := 300
  const MAX_NAP_SECONDS: int := 30

  /** Position within the quarter hour. */
  function Offset(t: int): int { t % QUARTER }

  /** At least the guard away from the quarter hours on either side. */
  predicate Safe(t: int, guard: int) {
    guard == 0 || guard * SECOND <= Offset(t) < QUARTER - guard * SECOND
  }

  function QuarterHour(k: int): int { k * 900_000_000 }

  /** That is, every quarter hour is the guard past, or more than it ahead. */
  lemma SafeIs(t: int, guard: int)
    requires 0 <= guard <= MAX_GUARD_SECONDS
    ensures Safe(t, guard) <==>
              forall k :: QuarterHour(k) + guard * 1_000_000 <= t || t < QuarterHour(k) - guard * 1_000_000
  {
    var q := t / QUARTER;
    assert QuarterHour(q) + Offset(t) == t < QuarterHour(q + 1);
    forall k ensures k <= q ==> QuarterHour(k) <= QuarterHour(q)
             ensures k > q ==> QuarterHour(q + 1) <= QuarterHour(k) {
    }
  }

  /** The least whole number of seconds that is not less than `micros`. */
  function CeilSeconds(micros: int): int {
    (micros + SECOND - 1) / SECOND
  }

  /** `seconds_until_safe_recreate` */
  function Wait(t: int, guard: int): int
    requires 0 <= guard <= MAX_GUARD_SECONDS
  {
    if guard == 0 then 0
    else if Offset(t) < guard * SECOND then CeilSeconds(guard * SECOND - Offset(t))
    else if Offset(t) >= QUARTER - guard * SECOND then CeilSeconds(QUARTER + guard * SECOND - Offset(t))
    else 0
  }

  lemma OffsetLater(t: int, micros: int)
    requires 0 <= micros <= QUARTER
    ensures Offset(t + micros) == if Offset(t) + micros < QUARTER then Offset(t) + micros
                                  else Offset(t) + micros - QUARTER
  {
    var q := t / QUARTER;
    assert t == q * QUARTER + Offset(t);
    if Offset(t) + micros < QUARTER {
      ModUnique(t + micros, q, Offset(t) + micros);
    } else if Offset(t) + micros - QUARTER < QUARTER {
      ModUnique(t + micros, q + 1, Offset(t) + micros - QUARTER);
    }
  }

  lemma ModUnique(x: int, q: int, r: int)
    requires x == q * QUARTER + r && 0 <= r < QUARTER
    ensures x % QUARTER == r
  {
  }

  /** The wait is zero exactly in the safe zone, never more than twice the
      guard, and the first whole second at which the safe zone is reached. */
  lemma WaitIsLeast(t: int, guard: int)
    requires 0 <= guard <= MAX_GUARD_SECONDS
    ensures Wait(t, guard) == 0 <==> Safe(t, guard)
    ensures 0 <= Wait(t, guard) <= 2 * guard
    ensures Safe(t + Wait(t, guard) * SECOND, guard)
    ensures forall w :: 0 <= w < Wait(t, guard) ==> !Safe(t + w * SECOND, guard)
  {
    var wait := Wait(t, guard);
    if wait > 0 {
      OffsetLater(t, wait * SECOND);
      forall w | 0 <= w < wait ensures !Safe(t + w * SECOND, guard) {
        OffsetLater(t, w * SECOND);
      }
    }
  }

  /** How late a nap may end: anything short of sleeping through the safe zone. */
  function MaxDelay(guard: int): int { QUARTER - 2 * guard * SECOND - SECOND }

  /** A nap of at most thirty seconds, however late it ends within that bound,
      reaches the safe zone or shortens the wait. */
  lemma NapMakesProgress(t: int, guard: int, late: int)
    requires 0 <= guard <= MAX_GUARD_SECONDS && Wait(t, guard) > 0 && 0 <= late < MaxDelay(guard)
    ensures var nap := if Wait(t, guard) < MAX_NAP_SECONDS then Wait(t, guard) else MAX_NAP_SECONDS;
            Wait(t + nap * SECOND + late, guard) < Wait(t, guard)
  {
    var nap := if Wait(t, guard) < MAX_NAP_SECONDS then Wait(t, guard) else MAX_NAP_SECONDS;
    OffsetLater(t, nap * SECOND + late);
    WaitIsLeast(t, guard);
  }

  /** `_wait_for_recreate_window`: ends, and ends in the safe zone. */
  method WaitForWindow(started: int, guard: int) returns (now: int)
    requires 0 <= guard <= MAX_GUARD_SECONDS
    ensures Safe(now, guard) && started <= now
    ensures Safe(started, guard) ==> now == started
  {
    now := started;
    WaitIsLeast(now, guard);
    var wait := Wait(now, guard);
    while wait != 0
      invariant wait == Wait(now, guard) && wait >= 0 && started <= now
      invariant Safe(started, guard) ==> now == started
      decreases wait
    {
      var nap := if wait < MAX_NAP_SECONDS then wait else MAX_NAP_SECONDS;
      var late: int := *;
      if late < 0 || late >= MaxDelay(guard) {
        late := 0;
      }
      NapMakesProgress(now, guard, late);
      WaitIsLeast(now, guard);
      now := now + nap * SECOND + late;
      WaitIsLeast(now, guard);
      wait := Wait(now, guard);
    }
    WaitIsLeast(now, guard);
  }
}

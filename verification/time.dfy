/** Whole-minute and whole-day arithmetic on millisecond instants. */
module Time {
  import opened Database

  const MsPerMinute: int := 60000
  const MsPerDay: int := 86400000

  /**
    The whole minutes elapsed from `from` to `to`, rounded toward negative
    infinity as `Math.floor((to - from) / 60000)` does; negative when `to`
    precedes `from`.
   */
  function FloorMinutes(from: Millis, to: Millis): (m: int)
    ensures m * MsPerMinute <= to - from < (m + 1) * MsPerMinute
  {
    (to - from) / MsPerMinute
  }

  /** The instant a date-only string denotes when parsed: midnight UTC of that day. */
  function DayStart(day: int): (t: Millis)
    ensures DayOf(t) == day
    ensures t % MsPerDay == 0
  {
    day * MsPerDay
  }

  /** The (UTC) day an instant falls on. */
  function DayOf(t: Millis): (day: int)
    ensures day * MsPerDay <= t < (day + 1) * MsPerDay
  {
    t / MsPerDay
  }

  /** The floor is unique: any `m` bracketing the difference is the one `FloorMinutes` returns. */
  lemma FloorMinutesUnique(from: Millis, to: Millis, m: int)
    requires m * MsPerMinute <= to - from < (m + 1) * MsPerMinute
    ensures FloorMinutes(from, to) == m
  {
  }

  /** Whole minutes never decrease as the later instant moves forward. */
  lemma FloorMinutesMonotone(from: Millis, to1: Millis, to2: Millis)
    requires to1 <= to2
    ensures FloorMinutes(from, to1) <= FloorMinutes(from, to2)
  {
  }
}

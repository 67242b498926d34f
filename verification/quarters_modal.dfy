/**
  The quarters dialog (components/modals/quarters-modal.tsx): the quarter
  list and its "Active" badge.

  Quarter dates are date-only strings; `new Date("YYYY-MM-DD")` reads one as
  midnight UTC at the start of that day (`DayStart`).
 */
module QuartersModal {
  import opened Database
  import opened Time
  import opened Seqs
  import opened Queries

  /**
    `fetchQuarters`: every quarter, latest start first. Unlike the roster's
    picker there is no `deleted_at` filter, so soft-deleted quarters are listed
    too. A failed query keeps the previous list.
   */
  function FetchQuarters(previous: seq<Quarter>, quarters: seq<Quarter>, query: Outcome): (r: seq<Quarter>)
    ensures query.Err? ==> r == previous
    ensures query.Ok? ==> multiset(r) == multiset(quarters) && SortedBy(r, ByStartDesc)
    ensures query.Ok? ==> forall q :: q in quarters && q.deletedAt.Some? ==> q in r
  {
    if query.Ok? then
      var r := NewestFirst(quarters);
      SameMembers(r, quarters);
      r
    else previous
  }

  /**
    `isActive` as written: `now` lies between the parsed start and end dates,
    both ends included. Since the end date parses to the first instant of the
    last day, only that instant of the last day counts.
   */
  function IsActive(q: Quarter, now: Millis): (active: bool)
    ensures active <==> DayStart(q.startDay) <= now <= DayStart(q.endDay)
    ensures active ==> q.startDay <= q.endDay
  {
    now >= DayStart(q.startDay) && now <= DayStart(q.endDay)
  }

  /**
    The discrepancy: one millisecond into the quarter's last day, the quarter
    that was active the moment before is no longer shown as active.
   */
  lemma IsActiveMissesLastDay(q: Quarter)
    requires q.startDay <= q.endDay
    ensures IsActive(q, DayStart(q.endDay))
    ensures DayOf(DayStart(q.endDay) + 1) == q.endDay
    ensures !IsActive(q, DayStart(q.endDay) + 1)
  {
  }

  /** The badge as evidently intended: active on every day from the start date through the end date. */
  function IsActiveThroughEndDay(q: Quarter, now: Millis): (active: bool)
    ensures active <==> q.startDay <= DayOf(now) <= q.endDay
  {
    now >= DayStart(q.startDay) && now < DayStart(q.endDay + 1)
  }

  /**
    The corrected badge agrees with the written one except on the last day
    after its first instant, where only the corrected one shows the quarter as active.
   */
  lemma IsActiveThroughEndDayExtends(q: Quarter, now: Millis)
    ensures IsActive(q, now) ==> IsActiveThroughEndDay(q, now)
    ensures IsActiveThroughEndDay(q, now) && !IsActive(q, now) ==>
              DayOf(now) == q.endDay && now > DayStart(q.endDay)
  {
  }

  /** The "Active" badge of each listed quarter at `now`, as the list renders it with `isActive`. */
  function ActiveBadges(quarters: seq<Quarter>, now: Millis): (badges: seq<bool>)
    ensures |badges| == |quarters|
    ensures forall i :: 0 <= i < |quarters| ==>
              (badges[i] <==> DayStart(quarters[i].startDay) <= now <= DayStart(quarters[i].endDay))
  {
    seq(|quarters|, i requires 0 <= i < |quarters| => IsActive(quarters[i], now))
  }

  /**
    The badges with the corrected predicate: a quarter is marked on every day
    from its start date through its end date, and wherever the written list
    marks a quarter, this one marks it too.
   */
  function ActiveBadgesThroughEndDay(quarters: seq<Quarter>, now: Millis): (badges: seq<bool>)
    ensures |badges| == |quarters|
    ensures forall i :: 0 <= i < |quarters| ==>
              (badges[i] <==> quarters[i].startDay <= DayOf(now) <= quarters[i].endDay)
    ensures forall i :: 0 <= i < |quarters| && ActiveBadges(quarters, now)[i] ==> badges[i]
  {
    seq(|quarters|, i requires 0 <= i < |quarters| => IsActiveThroughEndDay(quarters[i], now))
  }
}

/**
  Attendance marking on one session screen
  (components/session/attendance-panel.tsx).

  The `check_ins` table is a map keyed by (user id, session id): the store
  holds at most one check-in per pair and the panel upserts on that key.
 */
module AttendancePanel {
  import opened Database
  import opened Time

  type CheckInTable = map<(Id, Id), CheckIn>

  /** The three buttons the panel offers. */
  datatype Mark = MarkOnTime | MarkLate | MarkMissing

  /** The status a button writes; the panel has no button for an excused absence. */
  function StatusOf(m: Mark): (s: CheckInStatus)
    ensures s != ExcusedAbsence
    ensures s == OnTime <==> m == MarkOnTime
    ensures s == Late <==> m == MarkLate
    ensures s == Missing <==> m == MarkMissing
  {
    match m
    case MarkOnTime => OnTime
    case MarkLate => Late
    case MarkMissing => Missing
  }

  /**
    Minutes late recorded with a mark: for Late, the whole minutes from the
    session's start to `now`, but never below zero; for the other marks, zero.
   */
  function MinutesLate(m: Mark, sessionStart: Millis, now: Millis): (n: int)
    ensures n >= 0
    ensures m != MarkLate ==> n == 0
    ensures now < sessionStart ==> n == 0
    ensures m == MarkLate && now >= sessionStart ==>
              n * MsPerMinute <= now - sessionStart < (n + 1) * MsPerMinute
  {
    if m == MarkLate then
      var elapsed := FloorMinutes(sessionStart, now);
      if elapsed > 0 then elapsed else 0
    else 0
  }

  /** Every row sits under the key of its own user and session. */
  ghost predicate WellKeyed(table: CheckInTable)
  {
    forall k :: k in table ==> table[k].userId == k.0 && table[k].sessionId == k.1
  }

  /**
    `markAttendance`: upsert the check-in of (`user`, `session`) with the mark's
    status, minutes late and `now` as the check-in time. A failed upsert
    changes nothing; a successful one replaces whatever the key held and
    leaves every other key as it was.
   */
  function MarkAttendance(table: CheckInTable, user: Id, session: Session, m: Mark, now: Millis,
                          upsert: Outcome): (r: CheckInTable)
    ensures upsert.Err? ==> r == table
    ensures upsert.Ok? ==> r.Keys == table.Keys + {(user, session.id)}
    ensures upsert.Ok? ==>
              && r[(user, session.id)].userId == user
              && r[(user, session.id)].sessionId == session.id
              && r[(user, session.id)].status == StatusOf(m)
              && r[(user, session.id)].minutesLate == MinutesLate(m, session.start, now)
              && r[(user, session.id)].checkInTime == now
    ensures forall k :: k in table && k != (user, session.id) ==> k in r && r[k] == table[k]
  {
    if upsert.Ok? then
      table[(user, session.id) := CheckIn(user, session.id, StatusOf(m), MinutesLate(m, session.start, now), now)]
    else table
  }

  /** For a fixed session start, a later mark never records fewer minutes late. */
  lemma MinutesLateMonotone(m: Mark, sessionStart: Millis, t1: Millis, t2: Millis)
    requires t1 <= t2
    ensures MinutesLate(m, sessionStart, t1) <= MinutesLate(m, sessionStart, t2)
  {
    FloorMinutesMonotone(sessionStart, t1, t2);
  }

  /** Marking keeps every row under its own key. */
  lemma MarkAttendanceWellKeyed(table: CheckInTable, user: Id, session: Session, m: Mark, now: Millis,
                                upsert: Outcome)
    requires WellKeyed(table)
    ensures WellKeyed(MarkAttendance(table, user, session, m, now, upsert))
  {
  }

  /** Marking twice with the same inputs leaves the table marking once does. */
  lemma MarkAttendanceIdempotent(table: CheckInTable, user: Id, session: Session, m: Mark, now: Millis,
                                 upsert: Outcome)
    ensures var once := MarkAttendance(table, user, session, m, now, upsert);
            MarkAttendance(once, user, session, m, now, upsert) == once
  {
  }

  /** The panel never introduces an excused absence. */
  lemma MarkAttendanceNeverExcuses(table: CheckInTable, user: Id, session: Session, m: Mark, now: Millis,
                                   upsert: Outcome)
    requires forall k :: k in table ==> table[k].status != ExcusedAbsence
    ensures var r := MarkAttendance(table, user, session, m, now, upsert);
            forall k :: k in r ==> r[k].status != ExcusedAbsence
  {
  }

  /** `getStatusBadge`: the label shown for a student's check-in status, null when unmarked. */
  function StatusBadge(status: Option<CheckInStatus>): (badge: string)
    ensures status.None? <==> badge == "Not Marked"
    ensures status == Some(ExcusedAbsence) <==> badge == "Unknown"
    ensures status == Some(OnTime) <==> badge == "On Time"
    ensures status == Some(Late) <==> badge == "Late"
    ensures status == Some(Missing) <==> badge == "Missing"
  {
    match status
    case None => "Not Marked"
    case Some(OnTime) => "On Time"
    case Some(Late) => "Late"
    case Some(Missing) => "Missing"
    case Some(ExcusedAbsence) => "Unknown"
  }

  /**
    Every status the panel can write gets a label of its own, distinct from
    "Not Marked" and from "Unknown".
   */
  lemma BadgeShowsEveryMark(m1: Mark, m2: Mark)
    ensures StatusBadge(Some(StatusOf(m1))) !in {"Not Marked", "Unknown"}
    ensures m1 != m2 ==> StatusBadge(Some(StatusOf(m1))) != StatusBadge(Some(StatusOf(m2)))
  {
  }
}

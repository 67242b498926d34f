/**
  The check-out / return log of one session screen
  (components/session/checkout-panel.tsx).

  The `check_outs` table is a sequence in insertion order. Rows are told apart
  by position: the store's primary key is unique, so the update that closes a
  row by its id touches that row and no other.
 */
module CheckOutPanel {
  import opened Database
  import opened Time

  /** Absence minutes at which a student is flagged Warning, and Danger. */
  const WarningMinutes: int := 30
  const DangerMinutes: int := 45

  /** A row that records `user` as still out of `session`. */
  predicate IsOpenFor(row: CheckOut, user: Id, session: Id)
  {
    row.userId == user && row.sessionId == session && row.checkInTime.None?
  }

  ghost predicate HasOpen(rows: seq<CheckOut>, user: Id, session: Id)
  {
    exists i :: 0 <= i < |rows| && IsOpenFor(rows[i], user, session)
  }

  /** Row `i` is an open row of the pair with the greatest check-out time. */
  ghost predicate IsLatestOpen(rows: seq<CheckOut>, user: Id, session: Id, i: int)
  {
    && 0 <= i < |rows|
    && IsOpenFor(rows[i], user, session)
    && forall j :: 0 <= j < |rows| && IsOpenFor(rows[j], user, session) ==>
         rows[j].checkOutTime <= rows[i].checkOutTime
  }

  /** How many rows record `user` as still out of `session`. */
  function OpenCount(rows: seq<CheckOut>, user: Id, session: Id): nat
  {
    if |rows| == 0 then 0
    else OpenCount(rows[..|rows| - 1], user, session)
         + (if IsOpenFor(rows[|rows| - 1], user, session) then 1 else 0)
  }

  /**
    "Check Out": insert an open row stamped `now`. Nothing is looked up first,
    so the insert happens whether or not the pair already has an open row.
   */
  function CheckOutStudent(rows: seq<CheckOut>, user: Id, session: Id, now: Millis, insert: Outcome)
    : (r: seq<CheckOut>)
    ensures insert.Err? ==> r == rows
    ensures insert.Ok? ==> |r| == |rows| + 1 && r[..|rows|] == rows
    ensures insert.Ok? ==> IsOpenFor(r[|rows|], user, session) && r[|rows|].checkOutTime == now
    ensures insert.Ok? ==> r[|rows|].durationMinutes.None?
  {
    if insert.Ok? then rows + [CheckOut(user, session, now, None, None)] else rows
  }

  /**
    The row the return lookup selects: among the open rows of the pair, the
    first when they are ordered latest check-out time first, that is, one with
    the greatest check-out time.
   */
  function LatestOpen(rows: seq<CheckOut>, user: Id, session: Id): (r: Option<nat>)
    ensures r.None? <==> !HasOpen(rows, user, session)
    ensures r.Some? ==> IsLatestOpen(rows, user, session, r.value)
  {
    if |rows| == 0 then None
    else
      var last := |rows| - 1;
      var earlier := LatestOpen(rows[..last], user, session);
      assert forall j :: 0 <= j < last ==> rows[..last][j] == rows[j];
      if !IsOpenFor(rows[last], user, session) then earlier
      else if earlier.Some? && rows[last].checkOutTime <= rows[earlier.value].checkOutTime then earlier
      else Some(last)
  }

  /** A returned row: back at `now`, away for the whole minutes in between. */
  function Closed(row: CheckOut, now: Millis): (r: CheckOut)
    ensures r.userId == row.userId && r.sessionId == row.sessionId
    ensures r.checkOutTime == row.checkOutTime && r.checkInTime == Some(now)
    ensures r.durationMinutes.Some?
    ensures r.durationMinutes.value * MsPerMinute <= now - row.checkOutTime
              < (r.durationMinutes.value + 1) * MsPerMinute
  {
    row.(checkInTime := Some(now), durationMinutes := Some(FloorMinutes(row.checkOutTime, now)))
  }

  /** The duration a return records is the only whole number of minutes bracketing the time away. */
  lemma ClosedDurationIsFloor(row: CheckOut, now: Millis, m: int)
    requires m * MsPerMinute <= now - row.checkOutTime < (m + 1) * MsPerMinute
    ensures Closed(row, now).durationMinutes == Some(m)
  {
    FloorMinutesUnique(row.checkOutTime, now, m);
  }

  /**
    "Return": look up the pair's latest open row and close it at `now`. A
    failed lookup, a pair with no open row and a failed update all leave the
    table as it was; the table never grows or shrinks.
   */
  function ReturnStudent(rows: seq<CheckOut>, user: Id, session: Id, now: Millis,
                         lookup: Outcome, update: Outcome): (r: seq<CheckOut>)
    ensures |r| == |rows|
    ensures !(lookup.Ok? && update.Ok? && HasOpen(rows, user, session)) ==> r == rows
    ensures lookup.Ok? && update.Ok? && HasOpen(rows, user, session) ==>
              exists i :: IsLatestOpen(rows, user, session, i) && r == rows[i := Closed(rows[i], now)]
  {
    if lookup.Err? then rows
    else match LatestOpen(rows, user, session)
      case None => rows
      case Some(i) =>
        if update.Err? then rows else rows[i := Closed(rows[i], now)]
  }

  /** `getAbsenceStatus`: the tier the panel shows for a student's total absence minutes. */
  function AbsenceStatus(student: StudentSessionSummary): (s: AttendanceStatus)
    ensures s == Danger <==> student.totalAbsenceMinutes >= DangerMinutes
    ensures s == Warning <==> WarningMinutes <= student.totalAbsenceMinutes < DangerMinutes
    ensures s == Good <==> student.totalAbsenceMinutes < WarningMinutes
  {
    if student.totalAbsenceMinutes >= DangerMinutes then Danger
    else if student.totalAbsenceMinutes >= WarningMinutes then Warning
    else Good
  }

  /** Tiers ranked from best to worst. */
  function Severity(s: AttendanceStatus): nat
  {
    match s
    case Good => 0
    case Warning => 1
    case Danger => 2
  }

  /** More absence never yields a better tier. */
  lemma AbsenceStatusMonotone(a: StudentSessionSummary, b: StudentSessionSummary)
    requires a.totalAbsenceMinutes <= b.totalAbsenceMinutes
    ensures Severity(AbsenceStatus(a)) <= Severity(AbsenceStatus(b))
  {
  }

  /** Appending a row adds one to the open count exactly when the row is open. */
  lemma OpenCountAppend(rows: seq<CheckOut>, row: CheckOut, user: Id, session: Id)
    ensures OpenCount(rows + [row], user, session)
              == OpenCount(rows, user, session) + (if IsOpenFor(row, user, session) then 1 else 0)
  {
    assert (rows + [row])[..|rows|] == rows;
  }

  /** Replacing one row changes the open count only by what that row contributed. */
  lemma {:induction false} OpenCountUpdate(rows: seq<CheckOut>, i: nat, row: CheckOut, user: Id, session: Id)
    requires i < |rows|
    ensures OpenCount(rows[i := row], user, session)
              == OpenCount(rows, user, session)
                 - (if IsOpenFor(rows[i], user, session) then 1 else 0)
                 + (if IsOpenFor(row, user, session) then 1 else 0)
    decreases |rows|
  {
    var last := |rows| - 1;
    var updated := rows[i := row];
    if i == last {
      assert updated[..last] == rows[..last];
    } else {
      assert updated[..last] == rows[..last][i := row];
      OpenCountUpdate(rows[..last], i, row, user, session);
    }
  }

  /** The count is positive exactly when an open row exists. */
  lemma {:induction false} OpenCountPositive(rows: seq<CheckOut>, user: Id, session: Id)
    ensures OpenCount(rows, user, session) > 0 <==> HasOpen(rows, user, session)
    decreases |rows|
  {
    if |rows| > 0 {
      var last := |rows| - 1;
      OpenCountPositive(rows[..last], user, session);
      assert forall j :: 0 <= j < last ==> rows[..last][j] == rows[j];
      if HasOpen(rows, user, session) && !IsOpenFor(rows[last], user, session) {
        var j :| 0 <= j < |rows| && IsOpenFor(rows[j], user, session);
        assert rows[..last][j] == rows[j];
      }
    }
  }

  /**
    Check Out is unconditional: a successful insert always adds one open row for
    the pair, so a pair that was already out ends up with two open rows.
   */
  lemma CheckOutAddsOpenRow(rows: seq<CheckOut>, user: Id, session: Id, now: Millis)
    ensures OpenCount(CheckOutStudent(rows, user, session, now, Ok), user, session)
              == OpenCount(rows, user, session) + 1
    ensures HasOpen(rows, user, session) ==>
              OpenCount(CheckOutStudent(rows, user, session, now, Ok), user, session) >= 2
  {
    OpenCountAppend(rows, CheckOut(user, session, now, None, None), user, session);
    OpenCountPositive(rows, user, session);
  }

  /**
    A successful Return closes exactly one row: the pair's open count drops by
    one, so when the pair was out more than once it is still out afterwards.
   */
  lemma ReturnClosesOneRow(rows: seq<CheckOut>, user: Id, session: Id, now: Millis)
    requires HasOpen(rows, user, session)
    ensures OpenCount(ReturnStudent(rows, user, session, now, Ok, Ok), user, session)
              == OpenCount(rows, user, session) - 1
  {
    var r := ReturnStudent(rows, user, session, now, Ok, Ok);
    var i :| IsLatestOpen(rows, user, session, i) && r == rows[i := Closed(rows[i], now)];
    OpenCountUpdate(rows, i, Closed(rows[i], now), user, session);
  }

  /**
    Checking out at `t0` and returning at `t1`, when the pair had no open row
    from `t0` or later, closes the row just added, with the duration in whole
    minutes from `t0` to `t1`.
   */
  lemma CheckOutThenReturn(rows: seq<CheckOut>, user: Id, session: Id, t0: Millis, t1: Millis)
    requires forall j :: 0 <= j < |rows| && IsOpenFor(rows[j], user, session) ==> rows[j].checkOutTime < t0
    ensures ReturnStudent(CheckOutStudent(rows, user, session, t0, Ok), user, session, t1, Ok, Ok)
              == rows + [CheckOut(user, session, t0, Some(t1), Some(FloorMinutes(t0, t1)))]
  {
    var out := CheckOutStudent(rows, user, session, t0, Ok);
    assert out[..|rows|] == rows;
    var earlier := LatestOpen(rows, user, session);
    assert earlier.Some? ==> rows[earlier.value].checkOutTime < t0;
    assert LatestOpen(out, user, session) == Some(|rows|);
    assert out[|rows| := Closed(out[|rows|], t1)]
             == rows + [CheckOut(user, session, t0, Some(t1), Some(FloorMinutes(t0, t1)))];
  }
}

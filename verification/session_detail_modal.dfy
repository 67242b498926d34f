/**
  The session detail dialog (components/modals/session-detail-modal.tsx):
  which summary rows it loads, and the soft delete of the session.
 */
module SessionDetailModal {
  import opened Database
  import opened Seqs
  import opened Queries

  /** The summary rows of `session` whose student is among `ids`; the store sets no order, and the model keeps the view's. */
  function SummaryRowsFor(summaries: seq<StudentSessionSummary>, session: Id, ids: seq<Id>)
    : (r: seq<StudentSessionSummary>)
    ensures forall s :: s in r <==> s in summaries && s.sessionId == session && s.userId in ids
    ensures forall s :: multiset(r)[s] == if s.sessionId == session && s.userId in ids then multiset(summaries)[s] else 0
  {
    FilterCount(summaries, (s: StudentSessionSummary) => s.sessionId == session && s.userId in ids);
    Filter(summaries, (s: StudentSessionSummary) => s.sessionId == session && s.userId in ids)
  }

  /**
    `fetchSessionData`: look up the ids enrolled in the session's quarter, then
    the summary rows of this session for those ids. An error in either query
    leaves the list as it was; an empty enrollment list yields no rows.
   */
  function FetchSessionData(previous: seq<StudentSessionSummary>, session: Session,
                            enrollments: seq<Enrollment>, enrollmentQuery: Outcome,
                            summaries: seq<StudentSessionSummary>, summaryQuery: Outcome)
    : (r: seq<StudentSessionSummary>)
    ensures enrollmentQuery.Err? || summaryQuery.Err? ==> r == previous
    ensures enrollmentQuery.Ok? && summaryQuery.Ok? ==>
              && (forall s :: s in r <==> (s in summaries && s.sessionId == session.id
                                          && Enrollment(s.userId, session.quarterId) in enrollments))
              && (forall s :: multiset(r)[s] ==
                               if s.sessionId == session.id && Enrollment(s.userId, session.quarterId) in enrollments
                               then multiset(summaries)[s] else 0)
    ensures (enrollmentQuery.Ok? && summaryQuery.Ok?
             && forall e :: e in enrollments ==> e.quarterId != session.quarterId) ==> r == []
  {
    if enrollmentQuery.Err? then previous
    else
      var ids := EnrolledUserIds(enrollments, session.quarterId);
      if summaryQuery.Err? then previous
      else
        var r := SummaryRowsFor(summaries, session.id, ids);
        assert |r| > 0 ==> r[0] in r;
        r
  }

  /**
    The model's choice of row order: the summary query asks for no order, and
    the model keeps the view's, loading a concatenated view part by part.
   */
  lemma FetchSessionDataKeepsOrder(session: Session, enrollments: seq<Enrollment>,
                                   a: seq<StudentSessionSummary>, b: seq<StudentSessionSummary>,
                                   previous: seq<StudentSessionSummary>)
    ensures FetchSessionData(previous, session, enrollments, Ok, a + b, Ok)
              == FetchSessionData([], session, enrollments, Ok, a, Ok)
                 + FetchSessionData([], session, enrollments, Ok, b, Ok)
  {
    var ids := EnrolledUserIds(enrollments, session.quarterId);
    FilterAppend(a, b, (s: StudentSessionSummary) => s.sessionId == session.id && s.userId in ids);
  }

  /**
    `handleDeleteConfirm`: stamp `deleted_at` on the rows of this session, and
    only those; the rows stay in the table. A failed update changes nothing.
   */
  function DeleteSession(sessions: seq<Session>, session: Id, now: Millis, update: Outcome)
    : (r: seq<Session>)
    ensures |r| == |sessions|
    ensures update.Err? ==> r == sessions
    ensures forall i :: 0 <= i < |sessions| && sessions[i].id != session ==> r[i] == sessions[i]
    ensures update.Ok? ==> forall i :: 0 <= i < |sessions| && sessions[i].id == session ==>
              r[i] == sessions[i].(deletedAt := Some(now))
  {
    if update.Err? then sessions
    else
      seq(|sessions|, i requires 0 <= i < |sessions| =>
        if sessions[i].id == session then sessions[i].(deletedAt := Some(now)) else sessions[i])
  }
}

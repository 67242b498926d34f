/**
  The student roster dialog (components/modals/students-modal.tsx): the
  quarter picker, the roster for "All Quarters" or one quarter, and the
  soft delete of a student.
 */
module StudentsModal {
  import opened Database
  import opened Seqs
  import opened Queries

  /** The picker's value: the "all" sentinel, or one quarter's id. */
  datatype QuarterFilter = AllQuarters | OnlyQuarter(quarterId: Id)

  /** `fetchQuarters`: the picker lists the non-deleted quarters, latest start first; a failed query keeps the old list. */
  function FetchQuarters(previous: seq<Quarter>, quarters: seq<Quarter>, query: Outcome): (r: seq<Quarter>)
    ensures query.Err? ==> r == previous
    ensures query.Ok? ==>
              && (forall q :: q in r <==> q in quarters && q.deletedAt.None?)
              && (forall q :: multiset(r)[q] == if q.deletedAt.None? then multiset(quarters)[q] else 0)
              && SortedBy(r, ByStartDesc)
  {
    if query.Ok? then ActiveQuarters(quarters) else previous
  }

  /** The users whose deletion stamp is null (kept in the table's order, before sorting). */
  function NotDeletedUsers(users: seq<User>): (r: seq<User>)
    ensures forall u :: u in r <==> u in users && u.deletedAt.None?
  {
    Filter(users, (u: User) => u.deletedAt.None?)
  }

  /** The users whose deletion stamp is null and whose id is among `ids` (kept in the table's order, before sorting). */
  function NotDeletedUsersAmong(users: seq<User>, ids: seq<Id>): (r: seq<User>)
    ensures forall u :: u in r <==> u in users && u.deletedAt.None? && u.id in ids
  {
    Filter(users, (u: User) => u.deletedAt.None? && u.id in ids)
  }

  /**
    `fetchStudents`. For "all", the non-deleted users by name. For a quarter,
    the ids enrolled in it are looked up first: a failed lookup (its error is
    not checked, so the rows read as missing) or an empty one clears the
    roster; otherwise the roster is the non-deleted users among those ids, by
    name. A failed users query keeps the previous roster.
   */
  function FetchStudents(previous: seq<User>, filter: QuarterFilter, users: seq<User>,
                         enrollments: seq<Enrollment>, enrollmentQuery: Outcome, userQuery: Outcome)
    : (r: seq<User>)
    ensures filter.AllQuarters? && userQuery.Err? ==> r == previous
    ensures filter.AllQuarters? && userQuery.Ok? ==>
              && multiset(r) == multiset(NotDeletedUsers(users))
              && (forall u :: u in r <==> u in users && u.deletedAt.None?)
              && SortedBy(r, ByFullName)
    ensures filter.OnlyQuarter? && (enrollmentQuery.Err? || forall e :: e in enrollments ==> e.quarterId != filter.quarterId) ==>
              r == []
    ensures filter.OnlyQuarter? && enrollmentQuery.Ok? && (exists e :: e in enrollments && e.quarterId == filter.quarterId) ==>
              if userQuery.Err? then r == previous
              else
                && multiset(r) == multiset(NotDeletedUsersAmong(users, EnrolledUserIds(enrollments, filter.quarterId)))
                && (forall u :: u in r <==> u in users && u.deletedAt.None? && Enrollment(u.id, filter.quarterId) in enrollments)
                && SortedBy(r, ByFullName)
  {
    match filter
    case AllQuarters =>
      if userQuery.Ok? then
        var r := UsersByName(NotDeletedUsers(users));
        SameMembers(r, NotDeletedUsers(users));
        r
      else previous
    case OnlyQuarter(q) =>
      var ids := EnrolledUserIds(enrollments, q);
      if enrollmentQuery.Err? then []
      else if |ids| == 0 then
        assert forall e :: e in enrollments && e.quarterId == q ==> e.userId in ids;
        []
      else
        assert ids[0] in ids;
        if userQuery.Ok? then
          var r := UsersByName(NotDeletedUsersAmong(users, ids));
          SameMembers(r, NotDeletedUsersAmong(users, ids));
          r
        else previous
  }

  /** The users with `deleted_at` set to `now` on every row of `id`, and nothing else changed. */
  function SoftDeleteUser(users: seq<User>, id: Id, now: Millis): (r: seq<User>)
    ensures |r| == |users|
    ensures forall i :: 0 <= i < |users| ==>
              if users[i].id == id then r[i] == users[i].(deletedAt := Some(now)) else r[i] == users[i]
  {
    seq(|users|, i requires 0 <= i < |users| =>
      if users[i].id == id then users[i].(deletedAt := Some(now)) else users[i])
  }

  /**
    The store's whole users table (deleted rows included) together with the
    student the delete dialog is waiting to confirm.
   */
  datatype RosterState = RosterState(users: seq<User>, pending: Option<Id>)

  /**
    `handleDeleteConfirm`: with no pending student, nothing happens. Otherwise
    the student's row is stamped deleted (kept, not removed) and the pending
    student is cleared; a failed update changes nothing.
   */
  function DeleteConfirm(st: RosterState, now: Millis, update: Outcome): (r: RosterState)
    ensures st.pending.None? || update.Err? ==> r == st
    ensures st.pending.Some? && update.Ok? ==>
              && r.pending.None?
              && |r.users| == |st.users|
              && (forall i :: 0 <= i < |st.users| && st.users[i].id == st.pending.value ==>
                    r.users[i] == st.users[i].(deletedAt := Some(now)))
              && (forall i :: 0 <= i < |st.users| && st.users[i].id != st.pending.value ==>
                    r.users[i] == st.users[i])
  {
    match st.pending
    case None => st
    case Some(id) =>
      if update.Ok? then RosterState(SoftDeleteUser(st.users, id, now), None) else st
  }

  /**
    A deleted student keeps their record but drops out of every roster the
    next successful users query returns, whichever quarter is selected.
   */
  lemma DeletedStudentLeavesRoster(st: RosterState, now: Millis, previous: seq<User>, filter: QuarterFilter,
                                   enrollments: seq<Enrollment>, enrollmentQuery: Outcome)
    requires st.pending.Some?
    ensures var after := DeleteConfirm(st, now, Ok);
            && (forall i :: 0 <= i < |st.users| && st.users[i].id == st.pending.value ==>
                  after.users[i].id == st.pending.value && after.users[i].deletedAt.Some?)
            && forall u :: u in FetchStudents(previous, filter, after.users, enrollments, enrollmentQuery, Ok) ==>
                 u.id != st.pending.value
  {
    var after := DeleteConfirm(st, now, Ok);
    forall u | u in after.users && u.deletedAt.None?
      ensures u.id != st.pending.value
    {
      var i :| 0 <= i < |after.users| && after.users[i] == u;
    }
  }
}

/**
  Editing a student (components/modals/edit-student-modal.tsx): choosing the
  quarter the form starts on, and the three writes of a submit.
 */
module EditStudentModal {
  import opened Database
  import opened Seqs
  import opened Queries


  /**
    The enrollment lookup ends in `.single()`: it yields a quarter id only when
    the query succeeds and finds exactly one enrollment of `user`.
   */
  function SingleEnrollment(enrollments: seq<Enrollment>, user: Id, lookup: Outcome): (r: Option<Id>)
    ensures r.Some? <==> lookup.Ok? && |EnrollmentsOf(enrollments, user)| == 1
    ensures r.Some? ==> Enrollment(user, r.value) in enrollments
  {
    var mine := EnrollmentsOf(enrollments, user);
    if lookup.Ok? && |mine| == 1 then
      assert mine[0] in mine;
      Some(mine[0].quarterId)
    else None
  }

  /** What the dialog holds once it has loaded: the quarters it offers and the selected quarter. */
  datatype Loaded = Loaded(quarters: seq<Quarter>, quarterId: Id)

  /** The dialog before anything is loaded: no quarters offered and an empty selection. */
  const Initial := Loaded([], "")

  /**
    `fetchQuartersAndEnrollment`. The picker offers the non-deleted quarters,
    latest start first, unless that query fails. The selection becomes the
    student's single enrollment if the lookup finds one; otherwise the first
    quarter the picker offers, a non-deleted one with the latest start, if the
    quarters query returned any; otherwise it keeps its previous value.
   */
  function FetchQuartersAndEnrollment(previous: Loaded, quarters: seq<Quarter>, quartersQuery: Outcome,
                                      enrollments: seq<Enrollment>, user: Id, lookup: Outcome): (r: Loaded)
    ensures quartersQuery.Err? ==> r.quarters == previous.quarters
    ensures quartersQuery.Ok? ==>
              && (forall q :: q in r.quarters <==> q in quarters && q.deletedAt.None?)
              && (forall q :: multiset(r.quarters)[q] == if q.deletedAt.None? then multiset(quarters)[q] else 0)
              && SortedBy(r.quarters, ByStartDesc)
    ensures lookup.Ok? && |EnrollmentsOf(enrollments, user)| == 1 ==>
              Enrollment(user, r.quarterId) in enrollments
    ensures !(lookup.Ok? && |EnrollmentsOf(enrollments, user)| == 1)
            && quartersQuery.Ok? && (exists q :: q in quarters && q.deletedAt.None?) ==>
              && |r.quarters| > 0
              && r.quarterId == r.quarters[0].id
              && r.quarters[0] in quarters && r.quarters[0].deletedAt.None?
              && forall q :: q in quarters && q.deletedAt.None? ==> r.quarters[0].startDay >= q.startDay
    ensures !(lookup.Ok? && |EnrollmentsOf(enrollments, user)| == 1)
            && !(quartersQuery.Ok? && exists q :: q in quarters && q.deletedAt.None?) ==>
              r.quarterId == previous.quarterId
  {
    var enrolled := SingleEnrollment(enrollments, user, lookup);
    if quartersQuery.Err? then
      Loaded(previous.quarters, if enrolled.Some? then enrolled.value else previous.quarterId)
    else
      var shown := ActiveQuarters(quarters);
      ActiveQuartersNonEmpty(quarters);
      if enrolled.Some? then Loaded(shown, enrolled.value)
      else if |shown| > 0 then
        assert shown[0] in shown;
        Loaded(shown, shown[0].id)
      else Loaded(shown, previous.quarterId)
  }

  /**
    On the first load, a student with no single enrollment, when no
    non-deleted quarter comes back, keeps the empty selection, which
    `SubmitEdit` would write as the enrollment's quarter if the form were submitted.
   */
  lemma FirstLoadKeepsEmptySelection(quarters: seq<Quarter>, quartersQuery: Outcome,
                                     enrollments: seq<Enrollment>, user: Id, lookup: Outcome)
    requires !(lookup.Ok? && |EnrollmentsOf(enrollments, user)| == 1)
    requires forall q :: q in quarters ==> q.deletedAt.Some?
    ensures FetchQuartersAndEnrollment(Initial, quarters, quartersQuery, enrollments, user, lookup).quarterId == ""
    ensures quartersQuery.Ok? ==> FetchQuartersAndEnrollment(Initial, quarters, quartersQuery, enrollments, user, lookup).quarters == []
  {
  }

  /** The student form's fields. */
  datatype Edit = Edit(fullName: string, email: string, studentId: string, quarterId: Id)

  /** The `users` update: the edited fields and a fresh `updated_at` on the student's row. */
  function UpdateUser(users: seq<User>, user: Id, edit: Edit, now: Millis): (r: seq<User>)
    ensures |r| == |users|
    ensures forall i :: 0 <= i < |users| && users[i].id != user ==> r[i] == users[i]
    ensures forall i :: 0 <= i < |users| && users[i].id == user ==>
              && r[i].id == user
              && r[i].fullName == edit.fullName
              && r[i].email == edit.email
              && r[i].studentId == edit.studentId
              && r[i].updatedAt == now
              && r[i].deletedAt == users[i].deletedAt
  {
    seq(|users|, i requires 0 <= i < |users| =>
      if users[i].id == user
      then users[i].(fullName := edit.fullName, email := edit.email, studentId := edit.studentId, updatedAt := now)
      else users[i])
  }

  /** The enrollment delete: every enrollment of `user`, and only those, is removed. */
  function DeleteEnrollmentsOf(enrollments: seq<Enrollment>, user: Id): (r: seq<Enrollment>)
    ensures forall e :: e in r <==> e in enrollments && e.userId != user
  {
    Filter(enrollments, (e: Enrollment) => e.userId != user)
  }

  /** After the delete the student has no enrollment and everyone else keeps theirs. */
  lemma DeleteEnrollmentsFrame(enrollments: seq<Enrollment>, user: Id)
    ensures EnrollmentsOf(DeleteEnrollmentsOf(enrollments, user), user) == []
    ensures forall u :: u != user ==>
              EnrollmentsOf(DeleteEnrollmentsOf(enrollments, user), u) == EnrollmentsOf(enrollments, u)
  {
    FilterDropsAll(DeleteEnrollmentsOf(enrollments, user), (e: Enrollment) => e.userId == user);
    forall u | u != user
      ensures EnrollmentsOf(DeleteEnrollmentsOf(enrollments, user), u) == EnrollmentsOf(enrollments, u)
    {
      FilterFilter(enrollments, (e: Enrollment) => e.userId != user, (e: Enrollment) => e.userId == u);
    }
  }

  /** Appending one enrollment adds it to its own user's enrollments and to no one else's. */
  lemma InsertEnrollmentFrame(enrollments: seq<Enrollment>, e: Enrollment)
    ensures EnrollmentsOf(enrollments + [e], e.userId) == EnrollmentsOf(enrollments, e.userId) + [e]
    ensures forall u :: u != e.userId ==> EnrollmentsOf(enrollments + [e], u) == EnrollmentsOf(enrollments, u)
  {
    FilterAppend(enrollments, [e], (x: Enrollment) => x.userId == e.userId);
    FilterKeepsAll([e], (x: Enrollment) => x.userId == e.userId);
    forall u | u != e.userId
      ensures EnrollmentsOf(enrollments + [e], u) == EnrollmentsOf(enrollments, u)
    {
      FilterAppend(enrollments, [e], (x: Enrollment) => x.userId == u);
      FilterDropsAll([e], (x: Enrollment) => x.userId == u);
    }
  }

  datatype Store = Store(users: seq<User>, enrollments: seq<Enrollment>)

  /** The store after a submit, and whether the dialog closed. */
  datatype Submitted = Submitted(store: Store, closed: bool)

  /**
    `handleSubmit`: update the user, delete all of the user's enrollments, then
    insert one for the chosen quarter. The writes are separate: the first error
    stops the sequence, and the writes already made stay made.
   */
  function SubmitEdit(store: Store, user: Id, edit: Edit, now: Millis,
                      updateUser: Outcome, deleteEnrollments: Outcome, insertEnrollment: Outcome)
    : (r: Submitted)
    ensures r.closed <==> updateUser.Ok? && deleteEnrollments.Ok? && insertEnrollment.Ok?
    ensures updateUser.Err? ==> r.store == store
    ensures updateUser.Ok? ==> r.store.users == UpdateUser(store.users, user, edit, now)
    ensures updateUser.Err? || deleteEnrollments.Err? ==> r.store.enrollments == store.enrollments
    ensures updateUser.Ok? && deleteEnrollments.Ok? && insertEnrollment.Ok? ==>
              EnrollmentsOf(r.store.enrollments, user) == [Enrollment(user, edit.quarterId)]
    ensures updateUser.Ok? && deleteEnrollments.Ok? && insertEnrollment.Err? ==>
              EnrollmentsOf(r.store.enrollments, user) == []
    ensures forall u :: u != user ==> EnrollmentsOf(r.store.enrollments, u) == EnrollmentsOf(store.enrollments, u)
  {
    if updateUser.Err? then Submitted(store, false)
    else
      var users := UpdateUser(store.users, user, edit, now);
      if deleteEnrollments.Err? then Submitted(Store(users, store.enrollments), false)
      else
        var remaining := DeleteEnrollmentsOf(store.enrollments, user);
        DeleteEnrollmentsFrame(store.enrollments, user);
        if insertEnrollment.Err? then Submitted(Store(users, remaining), false)
        else
          InsertEnrollmentFrame(remaining, Enrollment(user, edit.quarterId));
          Submitted(Store(users, remaining + [Enrollment(user, edit.quarterId)]), true)
  }
}

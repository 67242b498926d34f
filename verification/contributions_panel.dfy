/**
  The contribution log of one session screen
  (components/session/contributions-panel.tsx).
 */
module ContributionsPanel {
  import opened Database
  import opened Seqs

  /** The add form: the selected student's id ("" while none is selected) and the quality. */
  datatype Form = Form(selectedStudent: Id, quality: ContributionQuality)

  /** The form as the panel first shows it, and as a successful add leaves it. */
  const InitialForm: Form := Form("", Medium)

  datatype PanelState = PanelState(form: Form, log: seq<Contribution>)

  /**
    `addContribution`: with a student selected, insert one contribution of the
    selected quality and, on success, reset the form. Without a selection it
    returns before touching the store; a failed insert keeps the selection.
   */
  function AddContribution(st: PanelState, session: Id, insert: Outcome): (r: PanelState)
    ensures st.form.selectedStudent == "" || insert.Err? ==> r == st
    ensures st.form.selectedStudent != "" && insert.Ok? ==>
              && r.form == InitialForm
              && |r.log| == |st.log| + 1
              && r.log[..|st.log|] == st.log
              && r.log[|st.log|] == Contribution(st.form.selectedStudent, session, st.form.quality)
  {
    if st.form.selectedStudent == "" then st
    else if insert.Err? then st
    else PanelState(InitialForm, st.log + [Contribution(st.form.selectedStudent, session, st.form.quality)])
  }

  /** The contributions logged for `user` in `session`. */
  function ContributionsOf(log: seq<Contribution>, user: Id, session: Id): (r: seq<Contribution>)
    ensures forall c :: c in r <==> c in log && c.userId == user && c.sessionId == session
  {
    Filter(log, (c: Contribution) => c.userId == user && c.sessionId == session)
  }

  /**
    There is no per-student limit: every successful add with a student selected
    counts one more contribution for that student in this session, and the
    counts of every other (student, session) pair stay as they were.
   */
  lemma AddContributionCountsOne(st: PanelState, session: Id, user: Id, other: Id, otherSession: Id)
    requires st.form.selectedStudent == user && user != ""
    requires (other, otherSession) != (user, session)
    ensures |ContributionsOf(AddContribution(st, session, Ok).log, user, session)|
              == |ContributionsOf(st.log, user, session)| + 1
    ensures ContributionsOf(AddContribution(st, session, Ok).log, other, otherSession)
              == ContributionsOf(st.log, other, otherSession)
  {
    var c := Contribution(user, session, st.form.quality);
    FilterAppend(st.log, [c], (c: Contribution) => c.userId == user && c.sessionId == session);
    FilterAppend(st.log, [c], (c: Contribution) => c.userId == other && c.sessionId == otherSession);
  }

  /** The "Contribution Summary" list: the students with at least one contribution, in input order. */
  function WithContributions(students: seq<StudentSessionSummary>): (r: seq<StudentSessionSummary>)
    ensures forall s :: s in r <==> s in students && s.contributionCount > 0
  {
    Filter(students, (s: StudentSessionSummary) => s.contributionCount > 0)
  }

  /** The summary keeps the students' relative order: it lists a concatenation part by part. */
  lemma WithContributionsKeepsOrder(a: seq<StudentSessionSummary>, b: seq<StudentSessionSummary>)
    ensures WithContributions(a + b) == WithContributions(a) + WithContributions(b)
  {
    FilterAppend(a, b, (s: StudentSessionSummary) => s.contributionCount > 0);
  }

  /** When every student has contributed, the summary is the input list unchanged. */
  lemma WithContributionsKeepsAll(students: seq<StudentSessionSummary>)
    requires forall i :: 0 <= i < |students| ==> students[i].contributionCount > 0
    ensures WithContributions(students) == students
  {
    FilterKeepsAll(students, (s: StudentSessionSummary) => s.contributionCount > 0);
  }

  /** "No contributions recorded yet" is shown exactly when nobody has a contribution. */
  function ShowsNoContributions(students: seq<StudentSessionSummary>): (shown: bool)
    ensures shown <==> forall i :: 0 <= i < |students| ==> students[i].contributionCount <= 0
  {
    var listed := WithContributions(students);
    assert forall i :: 0 <= i < |students| && students[i].contributionCount > 0 ==> students[i] in listed;
    assert |listed| > 0 ==> listed[0] in listed && listed[0].contributionCount > 0;
    |listed| == 0
  }
}

# Class attendance dashboard — the session and roster rules in Dafny

This project models the rules left in the class-attendance dashboard once the
remote store is replaced by in-memory tables. The dashboard has academic quarters,
sessions within quarters, and students enrolled in quarters. Staff use it to
record check-ins, temporary check-outs and contributions. The modelled rules are:

- the check-out / return log of a session (Check Out, Return, the absence tier);
- attendance marking (minutes late, the keyed upsert, the status badge);
- the contribution log (the guarded add, the form reset, the summary filter);
- editing a student (the default quarter, the update / delete / insert sequence);
- the student roster (the "all" or per-quarter listing, the quarter picker, the soft delete);
- the session detail dialog (the enrolled-only summary, the soft delete of a session);
- the quarters dialog (the unfiltered list, the "Active" badge).

Every handler is a pure function from the tables, the clock reading and the outcome
of each store call to the new tables or the new dialog state. Times are integer
milliseconds. Quarter dates are day numbers, because the columns hold date-only
strings. Each store call is an `Outcome` (`Ok` or `Err`), so the error branches
can be stated.

Modules:
`Database` holds the rows.
`Time` does whole-minute and whole-day arithmetic.
`Seqs` holds filtering and insertion sort, the two shapes the modelled queries are built from.
`Queries` holds the queries that several screens share.
Each of the other modules is one source file: `CheckOutPanel`, `AttendancePanel`,
`ContributionsPanel`, `EditStudentModal`, `StudentsModal`, `SessionDetailModal`
and `QuartersModal`.

`handleCheckOut` (components/session/checkout-panel.tsx:19-30) inserts without
first looking for an open row of the same student and session, so a pair can hold
several open check-outs at once. The model allows this: Check Out always inserts
(`CheckOutAddsOpenRow`), and Return closes only the latest open row
(`ReturnClosesOneRow`).

## Model

| member | source | states |
|---|---|---|
| Time.FloorMinutes | components/session/checkout-panel.tsx:60 | the result is the floor of the millisecond difference over 60000: it brackets the difference, also when the difference is negative |
| Time.DayStart | components/modals/quarters-modal.tsx:42-43 | a date-only string parses to midnight UTC: an instant on that same day and a whole number of days from the epoch |
| CheckOutPanel.CheckOutStudent | components/session/checkout-panel.tsx:19-30 | a successful Check Out appends one row for the pair, stamped `now`, with no return time and no duration; existing rows are untouched; a failed insert changes nothing |
| CheckOutPanel.CheckOutAddsOpenRow | components/session/checkout-panel.tsx:19-30 | Check Out is unconditional: the pair's open-row count rises by exactly one, so a pair already out ends with two open rows |
| CheckOutPanel.LatestOpen | components/session/checkout-panel.tsx:44-52 | the lookup returns nothing exactly when the pair has no open row; otherwise it returns an open row of the pair whose check-out time is the greatest |
| CheckOutPanel.Closed | components/session/checkout-panel.tsx:57-67 | a closed row keeps its pair and check-out time, gets return time `now`, and gets duration = floor((now − check-out time) / 60000) |
| CheckOutPanel.ClosedDurationIsFloor | components/session/checkout-panel.tsx:58-61 | the recorded duration is the one whole number of minutes m with m·60000 ≤ time away < (m+1)·60000 |
| CheckOutPanel.ReturnStudent | components/session/checkout-panel.tsx:39-79 | Return never changes the row count; with no open row, or a failed lookup or update, the table is unchanged; otherwise exactly the latest open row of the pair is closed and every other row is kept |
| CheckOutPanel.ReturnClosesOneRow | components/session/checkout-panel.tsx:62-68 | a successful Return lowers the pair's open count by exactly one, so a pair that was out more than once stays out |
| CheckOutPanel.CheckOutThenReturn | components/session/checkout-panel.tsx:19-71 | Check Out at t0 followed by Return at t1 closes the row just added, with duration floor((t1 − t0) / 60000), when the pair had no open row from t0 on |
| CheckOutPanel.AbsenceStatus | components/session/checkout-panel.tsx:81-86 | Danger iff total absence ≥ 45; Warning iff 30 ≤ total < 45; Good iff total < 30 |
| CheckOutPanel.AbsenceStatusMonotone | components/session/checkout-panel.tsx:81-86 | more absence minutes never give a better tier |
| AttendancePanel.StatusOf | components/session/attendance-panel.tsx:19 | the buttons write only on_time, late or missing, never excused_absence; each button writes its own status and no other button writes it |
| AttendancePanel.MinutesLate | components/session/attendance-panel.tsx:25-28 | minutes late is never negative; it is 0 for on_time and missing and for a mark before the start; for late at or after the start it is the floor of the elapsed minutes |
| AttendancePanel.MinutesLateMonotone | components/session/attendance-panel.tsx:27-28 | for a fixed session start, minutes late never decreases as `now` advances |
| AttendancePanel.MarkAttendance | components/session/attendance-panel.tsx:19-41 | a successful upsert leaves the (user, session) key holding one check-in with the new status, minutes late and time, and adds no other key; every other key is unchanged; a failed upsert changes nothing |
| AttendancePanel.MarkAttendanceWellKeyed | components/session/attendance-panel.tsx:30-41 | marking keeps every check-in under its own (user, session) key |
| AttendancePanel.MarkAttendanceIdempotent | components/session/attendance-panel.tsx:30-41 | marking twice with identical inputs gives the same table as marking once |
| AttendancePanel.MarkAttendanceNeverExcuses | components/session/attendance-panel.tsx:19-41 | if no check-in was an excused absence before marking, none is after |
| AttendancePanel.StatusBadge | components/session/attendance-panel.tsx:52-64 | null gives "Not Marked"; on_time, late and missing give their own labels; excused_absence, the only other value, gives "Unknown"; each label comes from that case alone |
| AttendancePanel.BadgeShowsEveryMark | components/session/attendance-panel.tsx:52-64 | every status the panel writes has its own badge, distinct from "Not Marked" and "Unknown" |
| ContributionsPanel.AddContribution | components/session/contributions-panel.tsx:18-44 | with no student selected, or a failed insert, the form and the log are unchanged; a successful add appends one (student, session, quality) row after the existing rows and resets the form to no student and quality medium, the initial form |
| ContributionsPanel.AddContributionCountsOne | components/session/contributions-panel.tsx:29-33 | there is no per-student limit: each successful add gives the selected student exactly one more contribution in the session, and every other (student, session) pair keeps its contributions |
| ContributionsPanel.WithContributions | components/session/contributions-panel.tsx:98-100 | the summary lists exactly the students with a contribution count above zero |
| ContributionsPanel.WithContributionsKeepsOrder | components/session/contributions-panel.tsx:98-100 | the summary keeps input order: the summary of a concatenated list is the concatenation of the parts' summaries |
| ContributionsPanel.WithContributionsKeepsAll | components/session/contributions-panel.tsx:98-100 | when every student has contributed, the summary is the input list itself |
| ContributionsPanel.ShowsNoContributions | components/session/contributions-panel.tsx:116-117 | "No contributions recorded yet" shows exactly when no student has a positive count |
| EditStudentModal.SingleEnrollment | components/modals/edit-student-modal.tsx:63-67 | the single-row lookup yields a quarter exactly when it succeeds and the student has exactly one enrollment, and that quarter is one the student is enrolled in |
| EditStudentModal.FetchQuartersAndEnrollment | components/modals/edit-student-modal.tsx:48-75 | the picker shows the non-deleted quarters, each as often as in the table, latest start first, and keeps its list if that query fails; the default is the single enrollment's quarter if found, else the first quarter of the fetched list (one with the latest start) if the query returned any, else the previous value |
| EditStudentModal.FirstLoadKeepsEmptySelection | components/modals/edit-student-modal.tsx:32-74 | on the dialog's first load, a student without a single enrollment keeps the empty selection when no non-deleted quarter comes back, and a successful quarters query then offers no quarter |
| EditStudentModal.UpdateUser | components/modals/edit-student-modal.tsx:86-94 | the student's row gets the edited name, email and student id and `updated_at = now`, and keeps its id and deletion stamp; other rows are unchanged |
| EditStudentModal.DeleteEnrollmentsOf | components/modals/edit-student-modal.tsx:100-103 | the delete keeps exactly the enrollments of other users |
| EditStudentModal.DeleteEnrollmentsFrame | components/modals/edit-student-modal.tsx:100-105 | after the delete the student has no enrollment, and every other user has the same enrollments as before |
| EditStudentModal.InsertEnrollmentFrame | components/modals/edit-student-modal.tsx:108-111 | the insert adds the enrollment to its own user's list and to no other user's |
| EditStudentModal.SubmitEdit | components/modals/edit-student-modal.tsx:77-122 | the dialog closes iff all three writes succeed; a failed user update touches nothing; on full success the student has exactly one enrollment, for the chosen quarter; if the delete succeeds and the insert fails, the student has none; other users' enrollments never change |
| Queries.ActiveQuarters | components/modals/students-modal.tsx:57-61 | the query returns exactly the non-deleted quarters, each as often as in the table and no deleted one, latest start first, and its first row has the latest start of them all |
| Queries.ActiveQuartersNonEmpty | components/modals/students-modal.tsx:57-61 | the active-quarters query returns at least one row exactly when some quarter is not deleted |
| Queries.UsersByName | components/modals/students-modal.tsx:78 | the users come back in ascending name order, with the same rows |
| Queries.EnrolledUserIds | components/modals/students-modal.tsx:85-91 | the id list holds exactly the users with an enrollment in the quarter |
| StudentsModal.FetchQuarters | components/modals/students-modal.tsx:54-66 | the picker lists exactly the non-deleted quarters, each as often as in the table, latest start first; a failed query keeps the old list |
| StudentsModal.FetchStudents | components/modals/students-modal.tsx:68-109 | "all" lists exactly the non-deleted users, by name; a quarter lists exactly the non-deleted users enrolled in it, by name; a quarter without enrollments, or a failed enrollment lookup, gives an empty roster; a failed users query keeps the previous roster |
| StudentsModal.SoftDeleteUser | components/modals/students-modal.tsx:128-131 | every row of the student gets `deleted_at = now`, no row is removed, and other rows are unchanged |
| StudentsModal.DeleteConfirm | components/modals/students-modal.tsx:121-143 | with no pending student, or a failed update, nothing changes; otherwise the student's rows are stamped deleted and kept, other rows are unchanged, and the pending student is cleared |
| StudentsModal.DeletedStudentLeavesRoster | components/modals/students-modal.tsx:121-137 | after a delete, the student's record still exists and is marked deleted, and no roster from a later successful users query lists the student, whatever quarter is selected |
| SessionDetailModal.SummaryRowsFor | components/modals/session-detail-modal.tsx:65-69 | the query keeps exactly the summary rows of this session whose student is among the given ids, each as often as in the view, and no other row |
| SessionDetailModal.FetchSessionData | components/modals/session-detail-modal.tsx:46-75 | an error in either query leaves the list unchanged; otherwise the list holds exactly the rows of this session whose student is enrolled in the session's quarter, each as often as in the view and no other row, so a quarter with no enrollments gives an empty list |
| SessionDetailModal.FetchSessionDataKeepsOrder | components/modals/session-detail-modal.tsx:65-72 | a choice of the model, not a promise of the source: the model keeps the view's row order, loading a concatenated view part by part |
| SessionDetailModal.DeleteSession | components/modals/session-detail-modal.tsx:85-105 | only this session's rows get `deleted_at = now`; no row is removed; a failed update changes nothing |
| QuartersModal.FetchQuarters | components/modals/quarters-modal.tsx:28-38 | the list holds every quarter, soft-deleted ones included, latest start first; a failed query keeps the old list |
| QuartersModal.IsActive | components/modals/quarters-modal.tsx:40-45 | active iff start ≤ now ≤ end, both ends included; never active when the end precedes the start |
| QuartersModal.IsActiveMissesLastDay | components/modals/quarters-modal.tsx:40-45 | as written, a quarter active at the first instant of its last day is inactive one millisecond later, still on that day |
| QuartersModal.IsActiveThroughEndDay | components/modals/quarters-modal.tsx:40-45 | corrected badge: active iff the UTC day of `now` is between the start and end dates, both included |
| QuartersModal.IsActiveThroughEndDayExtends | components/modals/quarters-modal.tsx:40-45 | the corrected badge holds wherever the written one does, and differs only on the last day after its first instant |
| QuartersModal.ActiveBadges | components/modals/quarters-modal.tsx:71-85 | as rendered: each listed quarter is badged active iff `now` lies between the midnight UTC instants its start and end dates parse to, both included |
| QuartersModal.ActiveBadgesThroughEndDay | components/modals/quarters-modal.tsx:71-85 | corrected badges: each listed quarter is badged active iff the UTC day of `now` lies within its dates, and every quarter the rendered list badges is badged here too |

## Left out

- UI plumbing: dialogs, loading flags, `onUpdate`, `router.refresh`, badge colours, icons, and the error messages shown or logged. The model keeps only the data each handler writes or selects. For the edit dialog it also keeps whether the dialog closes.
- The store client and the network: tables are in-memory sequences, or a map for check-ins. Each call's success or failure is a parameter; why a call fails is not modelled.
- Date and time parsing and formatting: session start instants are given in milliseconds, and quarter dates as day numbers. Displays (`toLocaleDateString`, `toISOString`) are left out.
- Clock reads: each handler's `new Date()` is a `now` parameter. `markAttendance` reads the clock twice, once for minutes late and once for `check_in_time`; the model uses one reading for both.
- Server-computed summary fields: total absence, time remaining, average quality and the quarter aggregates come from database views that are not part of this model. The summary rows are inputs.
- Row identity: check-out rows are told apart by position. The store's unique primary key means the update by id touches exactly the selected row. Generated ids and `created_at` columns are not modelled.
- CheckOutPanel.LatestOpen: when two open rows of a pair share the latest check-out time, the store's pick is unspecified. The model picks the earlier-inserted one, and its contract promises only a row with the greatest time.
- SessionDetailModal.FetchSessionDataKeepsOrder: the summary query sets no order, so the store's row order is unspecified; the model keeps the view's order, and only the per-row counts of `FetchSessionData` are what the source promises. The same holds for the unordered enrollment and user filters before any sort.
- Queries.UsersByName: the store's collation is modelled as code-point lexicographic order. Rows with equal names may come back in any order; the model's insertion sort fixes one.
- AttendancePanel.StatusBadge: the source takes any string or null. The model takes the typed status, so an empty string (shown as "Not Marked") and values outside the status type are not modelled.
- `getQualityBadge` and the average-quality display in components/session/contributions-panel.tsx:46-57,109-113 are presentational, and the display uses floating point.
- EditStudentModal.SubmitEdit submits whatever quarter the picker holds, "" included. Whether the browser's `required` check blocks an empty picker is not modelled.
- Concurrency: two staff members racing Check Out or Return. The code has no guard against it.
- Plain create and edit forms, list pages, placeholder dialogs, and the other session list. Each is a single insert or update of form fields, or presentation.

## Findings

| source | as written | input that shows it | evidently intended | confidence | as-written member | corrected member |
|---|---|---|---|---|---|---|
| components/modals/quarters-modal.tsx:40-45 | `now <= new Date(end_date)`, where the date-only end date parses to 00:00 UTC at the start of the last day | a quarter ending on day d, viewed at 00:00:00.001 UTC on day d | the quarter shows as active through the whole of its end date | medium, not executed | QuartersModal.IsActiveMissesLastDay | QuartersModal.IsActiveThroughEndDay |

`QuartersModal.ActiveBadges` renders the list with the written predicate, as the dialog does. `QuartersModal.ActiveBadgesThroughEndDay` renders it with the corrected one.

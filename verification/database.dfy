/**
  The rows of the dashboard's tables, as the client sees them (lib/types/database.ts).

  Identifiers are strings (the store's uuids), instants are integer milliseconds
  since the epoch, and quarter dates are day numbers: the columns hold date-only
  strings, and a day number `d` stands for the string naming the `d`-th day
  after 1970-01-01. Columns the modelled code never reads or writes
  (created_at, notes, is_completed, ...) are left out.
 */
module Database {

  type Id = string

  /** An instant, in milliseconds since the epoch. */
  type Millis = int

  /** A nullable column or a value that may be absent. */
  datatype Option<T> = None | Some(value: T)

  /** What one call into the store returned: success, or an error object. */
  datatype Outcome = Ok | Err

  datatype Quarter = Quarter(
    id: Id,
    name: string,
    startDay: int,
    endDay: int,
    deletedAt: Option<Millis>)

  /** `start` is the session's date and start time, already combined into one instant. */
  datatype Session = Session(
    id: Id,
    quarterId: Id,
    sessionNumber: int,
    start: Millis,
    deletedAt: Option<Millis>)

  datatype User = User(
    id: Id,
    fullName: string,
    email: string,
    studentId: string,
    updatedAt: Millis,
    deletedAt: Option<Millis>)

  datatype Enrollment = Enrollment(userId: Id, quarterId: Id)

  datatype CheckInStatus = OnTime | Late | Missing | ExcusedAbsence

  datatype CheckIn = CheckIn(
    userId: Id,
    sessionId: Id,
    status: CheckInStatus,
    minutesLate: int,
    checkInTime: Millis)

  /** A temporary absence; `checkInTime` is null while the student is still out. */
  datatype CheckOut = CheckOut(
    userId: Id,
    sessionId: Id,
    checkOutTime: Millis,
    checkInTime: Option<Millis>,
    durationMinutes: Option<int>)

  datatype ContributionQuality = Low | Medium | High

  datatype Contribution = Contribution(userId: Id, sessionId: Id, quality: ContributionQuality)

  datatype AttendanceStatus = Good | Warning | Danger

  /**
    One row of the store's per-(student, session) summary view. Its figures are
    computed by the store and only read by the client.
   */
  datatype StudentSessionSummary = StudentSessionSummary(
    userId: Id,
    fullName: string,
    sessionId: Id,
    quarterId: Id,
    checkInStatus: Option<CheckInStatus>,
    minutesLate: Option<int>,
    totalCheckoutMinutes: int,
    totalAbsenceMinutes: int,
    timeRemaining: int,
    status: AttendanceStatus,
    contributionCount: int,
    averageContributionQuality: Option<real>,
    isCurrentlyCheckedOut: bool,
    currentCheckoutTime: Option<Millis>)
}

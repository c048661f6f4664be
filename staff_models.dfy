/**
 * The entities of the staff-management store that the scoring, payroll and
 * attendance rules read and write. Every table is an in-memory sequence of
 * these values; the store's auto-increment ids are plain naturals.
 */
module StaffModels {

  datatype Option<+T> = None | Some(value: T)

  /** `User.role`: student, teacher, headteacher, deputy or bursar. */
  datatype Role = Student | Teacher | Headteacher | Deputy | Bursar

  /** `Attendance.status`: present, absent or late (the column may also be NULL). */
  datatype Status = Present | Absent | Late

  /** A calendar date, as stored in `Attendance.date`. */
  datatype Date = Date(year: int, month: int, day: int)

  /** A staff member or student. */
  datatype User = User(id: nat, role: Role, fullName: string)

  /**
   * One row of the attendance table. Timestamps are instants supplied by the
   * caller; `None` stands for a NULL column.
   */
  datatype AttendanceRecord = AttendanceRecord(
    userId: nat,
    date: Date,
    timeIn: Option<nat>,
    timeOut: Option<nat>,
    checkInMethod: Option<string>,
    status: Option<Status>)

  /** One row of the salary table, for one user and one (month, year) period. */
  datatype SalaryRecord = SalaryRecord(
    userId: nat,
    month: int,
    year: int,
    baseSalary: real,
    attendanceBonus: real,
    performanceBonus: real,
    totalSalary: real,
    paid: bool,
    paidDate: Option<nat>)
}

/**
 * Monthly performance scoring of staff from their attendance records, and the
 * performance report over all teachers (app.py, calculate_performance_score
 * and generate_performance_report).
 */
module Scoring {
  import opened StaffModels
  import opened Queries

  /** A record counts towards attendance only when its status is `present`. */
  predicate IsPresent(a: AttendanceRecord) {
    a.status == Some(Present)
  }

  /** A record counts towards punctuality unless its status is `late`: absent and unset records are on time. */
  predicate IsOnTime(a: AttendanceRecord) {
    a.status != Some(Late)
  }

  /** The record belongs to `userId` and its date falls in the given month of the given year. */
  predicate InPeriod(a: AttendanceRecord, userId: nat, month: int, year: int) {
    a.userId == userId && a.date.month == month && a.date.year == year
  }

  /** The attendance query of the score: the user's records of the period, in table order. */
  function PeriodAttendance(attendance: seq<AttendanceRecord>, userId: nat, month: int, year: int): (rs: seq<AttendanceRecord>)
    ensures forall i :: 0 <= i < |rs| ==> InPeriod(rs[i], userId, month, year) && rs[i] in attendance
    ensures forall a :: a in attendance && InPeriod(a, userId, month, year) ==> a in rs
  {
    Filter(attendance, a => InPeriod(a, userId, month, year))
  }

  /** `len([a for a in rs if a.status == 'present'])`. */
  function PresentDays(rs: seq<AttendanceRecord>): (n: nat)
    ensures n <= |rs|
  {
    CountWhere(rs, IsPresent)
  }

  /** `len([a for a in rs if a.status != 'late'])`. */
  function OnTimeDays(rs: seq<AttendanceRecord>): (n: nat)
    ensures n <= |rs|
  {
    CountWhere(rs, IsOnTime)
  }

  /** `part / total`, for a count no larger than its total, lies between 0 and 1. */
  lemma RatioBounds(part: nat, total: nat)
    requires 0 < total && part <= total
    ensures 0.0 <= part as real / total as real <= 1.0
    ensures part as real / total as real == 1.0 <==> part == total
  {
  }

  /**
   * The score of one user's records for one period: the mean of the
   * attendance ratio and the punctuality ratio, each scaled to 10.
   */
  function PerformanceScore(rs: seq<AttendanceRecord>): (score: real)
    ensures 0.0 <= score <= 10.0
    ensures |rs| == 0 ==> score == 0.0
  {
    if |rs| == 0 then 0.0
    else
      var total := |rs|;
      RatioBounds(PresentDays(rs), total);
      RatioBounds(OnTimeDays(rs), total);
      var attendanceScore := (PresentDays(rs) as real / total as real) * 10.0;
      var punctualityScore := (OnTimeDays(rs) as real / total as real) * 10.0;
      (attendanceScore + punctualityScore) / 2.0
  }

  /** The performance score of `teacherId` for `month` of `year`, read from the attendance table. */
  function CalculatePerformanceScore(attendance: seq<AttendanceRecord>, teacherId: nat, month: int, year: int): (score: real)
    ensures 0.0 <= score <= 10.0
    ensures (forall a :: a in attendance ==> !InPeriod(a, teacherId, month, year)) ==> score == 0.0
  {
    PerformanceScore(PeriodAttendance(attendance, teacherId, month, year))
  }

  /** A present record is never late, so present days never exceed on-time days. */
  lemma PresentDaysAtMostOnTime(rs: seq<AttendanceRecord>)
    ensures PresentDays(rs) <= OnTimeDays(rs)
  {
    CountMonotonic(rs, IsPresent, IsOnTime);
  }

  /** The score is the full 10 exactly when there is at least one record and every record is present. */
  lemma ScoreTenIffAllPresent(rs: seq<AttendanceRecord>)
    ensures PerformanceScore(rs) == 10.0 <==> |rs| > 0 && forall i :: 0 <= i < |rs| ==> IsPresent(rs[i])
  {
    CountAllIff(rs, IsPresent);
    PresentDaysAtMostOnTime(rs);
    if |rs| > 0 {
      RatioBounds(PresentDays(rs), |rs|);
      RatioBounds(OnTimeDays(rs), |rs|);
    }
  }

  /**
   * Absent records count as on time: when no record is late the punctuality
   * half is the full 5 points, so a month of only absences scores 5.
   */
  lemma ScoreWithoutLateRecords(rs: seq<AttendanceRecord>)
    requires |rs| > 0 && forall i :: 0 <= i < |rs| ==> rs[i].status != Some(Late)
    ensures PerformanceScore(rs) == 5.0 + 5.0 * (PresentDays(rs) as real / |rs| as real)
    ensures (forall i :: 0 <= i < |rs| ==> rs[i].status == Some(Absent)) ==> PerformanceScore(rs) == 5.0
  {
    CountAllIff(rs, IsOnTime);
    RatioBounds(OnTimeDays(rs), |rs|);
    CountNoneIff(rs, IsPresent);
  }

  /** The score does not depend on the order in which the query returns the records. */
  lemma ScoreOrderIndependent(a: seq<AttendanceRecord>, b: seq<AttendanceRecord>)
    requires multiset(a) == multiset(b)
    ensures PerformanceScore(a) == PerformanceScore(b)
  {
    assert |a| == |multiset(a)| == |multiset(b)| == |b|;
    CountPermutation(a, b, IsPresent);
    CountPermutation(a, b, IsOnTime);
  }

  /** The report's status column. */
  datatype Rating = Good | NeedsImprovement

  /** One row of the performance report. */
  datatype ReportRow = ReportRow(teacherName: string, score: real, status: Rating)

  predicate IsTeacher(u: User) {
    u.role == Teacher
  }

  /** The teachers of the user table, in table order (`User.query.filter_by(role='teacher')`). */
  function Teachers(users: seq<User>): (ts: seq<User>)
    ensures |ts| == CountWhere(users, IsTeacher)
    ensures forall i :: 0 <= i < |ts| ==> ts[i].role == Teacher && ts[i] in users
    ensures forall u :: u in users && u.role == Teacher ==> u in ts
  {
    Filter(users, IsTeacher)
  }

  /** Users of other roles, inserted anywhere in the user table, do not change the report's subjects. */
  lemma TeachersIgnoreOtherRoles(a: seq<User>, others: seq<User>, b: seq<User>)
    requires forall u :: u in others ==> u.role != Teacher
    ensures Teachers(a + others + b) == Teachers(a + b)
  {
    var none := Filter(others, IsTeacher);
    assert a + others + b == a + (others + b);
    FilterConcat(a, others + b, IsTeacher);
    FilterConcat(others, b, IsTeacher);
    FilterConcat(a, b, IsTeacher);
    assert forall i :: 0 <= i < |others| ==> !IsTeacher(others[i]);
    CountNoneIff(others, IsTeacher);
    assert none + Filter(b, IsTeacher) == Filter(b, IsTeacher);
  }

  /** `row` reports `teacher`: their name, their score, and `Good` exactly when the score is at least 7. */
  predicate ReportsOn(row: ReportRow, teacher: User, attendance: seq<AttendanceRecord>, month: int, year: int) {
    && row.teacherName == teacher.fullName
    && row.score == CalculatePerformanceScore(attendance, teacher.id, month, year)
    && (row.status == Good <==> row.score >= 7.0)
  }

  /**
   * The performance report for `month` of `year`: one row per teacher, in
   * table order.
   */
  method GeneratePerformanceReport(users: seq<User>, attendance: seq<AttendanceRecord>, month: int, year: int)
    returns (report: seq<ReportRow>)
    ensures |report| == |Teachers(users)|
    ensures forall i :: 0 <= i < |report| ==> ReportsOn(report[i], Teachers(users)[i], attendance, month, year)
  {
    var teachers := Teachers(users);
    report := [];
    for k := 0 to |teachers|
      invariant |report| == k
      invariant forall i :: 0 <= i < k ==> ReportsOn(report[i], teachers[i], attendance, month, year)
    {
      var teacher := teachers[k];
      var score := CalculatePerformanceScore(attendance, teacher.id, month, year);
      var status := if score >= 7.0 then Good else NeedsImprovement;
      report := report + [ReportRow(teacher.fullName, score, status)];
    }
  }
}
